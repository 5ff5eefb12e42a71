/** Extracting an archive: the space check made before, the extraction itself, and the round trip
    from one server directory into another. */
module Transfers {
  import opened Collections
  import opened Int64
  import opened Sums
  import opened PathText
  import opened FileTree
  import opened Ufs
  import opened Filesystems
  import opened LedgerSteps
  import opened LedgerRuns

  /** An entry of the archive as the extractor sees it, with what the environment does to it. */
  datatype TarEntry = TarEntry(name: string, isDir: bool, size: int64, body: Reader, f: Faults, times: bool)

  /** Where an archive is extracted to. */
  datatype Target = Target(sv: Server, ignored: string -> bool, dir: string)

  function PositiveSum(sizes: seq<int64>): nat {
    if sizes == [] then 0 else PositiveSum(sizes[..|sizes| - 1]) + Max(0, sizes[|sizes| - 1] as int)
  }

  lemma {:induction false} PositiveSumGrows(sizes: seq<int64>, i: nat)
    requires i <= |sizes|
    ensures PositiveSum(sizes[..i]) <= PositiveSum(sizes)
    decreases |sizes|
  {
    if i < |sizes| {
      var init := sizes[..|sizes| - 1];
      assert init[..i] == sizes[..i];
      PositiveSumGrows(init, i);
    } else {
      assert sizes[..i] == sizes;
    }
  }

  /** The positive sizes, by the number of their entry. */
  ghost function Positive(sizes: seq<int64>): map<nat, nat> {
    map i: nat | i < |sizes| && sizes[i] > 0 :: sizes[i] as nat
  }

  /** The sum of the positive sizes; the others count for nothing. */
  lemma {:induction false} PositiveSumMeaning(sizes: seq<int64>)
    ensures PositiveSum(sizes) == Sum(Positive(sizes))
  {
    if sizes == [] {
      assert Positive(sizes) == map[];
    } else {
      var n := |sizes| - 1;
      PositiveSumMeaning(sizes[..n]);
      if sizes[n] > 0 {
        assert Positive(sizes) == Positive(sizes[..n])[n := sizes[n] as nat];
        SumPut<nat>(Positive(sizes[..n]), n, sizes[n] as nat);
      } else {
        assert Positive(sizes) == Positive(sizes[..n]);
      }
    }
  }

  lemma NextSum(sizes: seq<int64>, i: nat)
    requires i < |sizes|
    ensures PositiveSum(sizes[..i + 1]) == PositiveSum(sizes[..i]) + Max(0, sizes[i] as int)
  {
    assert sizes[..i + 1][..i] == sizes[..i];
  }

  /** SpaceAvailableForDecompression: with a positive limit it accepts exactly when the true sum of
      the positive entry sizes fits, although it adds up in 64 bits and stops at the first refusal. */
  method SpaceAvailableForDecompression(fs: Filesystem, sizes: seq<int64>) returns (r: Outcome)
    requires fs.Valid()
    ensures fs.unixFS.limit <= 0 ==> r == Pass
    ensures fs.unixFS.limit > 0 ==>
      (r.Pass? <==> PositiveSum(sizes) == 0 || fs.unixFS.usage as int + PositiveSum(sizes) <= fs.unixFS.limit as int)
    ensures r.Fail? ==> r == Fail(ErrDiskSpace)
  {
    if fs.unixFS.limit <= 0 {
      return Pass;
    }
    var size: int64 := 0;
    var i := 0;
    assert sizes[..0] == [];
    while i < |sizes|
      invariant 0 <= i <= |sizes|
      invariant size as int == PositiveSum(sizes[..i])
      invariant size == 0 || fs.unixFS.usage as int + size as int <= fs.unixFS.limit as int
    {
      var fileSize := sizes[i];
      NextSum(sizes, i);
      PositiveSumGrows(sizes, i + 1);
      if fileSize > 0 {
        var current := size;
        if fileSize > 0x7FFF_FFFF_FFFF_FFFF - current {
          return Fail(ErrDiskSpace);
        }
        var next := current + fileSize;
        if !fs.unixFS.CanFit(next) {
          return Fail(ErrDiskSpace);
        }
        size := next;
      }
      i := i + 1;
    }
    assert sizes[..i] == sizes;
    return Pass;
  }

  function Sizes(entries: seq<TarEntry>): seq<int64> {
    seq(|entries|, i requires 0 <= i < |entries| => entries[i].size)
  }

  /** The space that the check before an extraction promises. */
  ghost predicate Enough(limit: int64, usage: int, need: nat) {
    limit == 0 || (limit > 0 && (need == 0 || usage + need <= limit as int))
  }

  /** With enough space promised for the rest, the check of the next write passes, and the promise
      holds for what is left. */
  lemma EnoughForNext(limit: int64, usage: int64, size: int64, rest: nat, currentSize: nat)
    requires 0 <= usage && 0 <= size && currentSize <= MAX_INT64
    requires Enough(limit, usage as int, size as int + rest)
    ensures SpaceFor(limit, usage, size, currentSize) == Pass
  {
  }

  // ------------------------------------------------------------------ one entry

  function PathOf(g: Target, e: TarEntry): string {
    JoinTwo(g.dir, e.name)
  }

  function Place(g: Target, e: TarEntry): Located {
    LocateIn(g.sv.base, PathOf(g, e))
  }

  /** An entry that is to be written as a file. */
  predicate IsWritten(g: Target, e: TarEntry) {
    !e.isDir && !g.ignored(PathOf(g, e))
  }

  /** What it takes besides space for a file to be written where its path leads. */
  ghost predicate Open(g: Target, t: Tree, e: TarEntry) {
    Unhindered(g.sv.base, g.sv.kernel, t, PathOf(g, e), e.f)
  }

  /** A directory that nothing stands in the way of. */
  ghost predicate Makeable(g: Target, t: Tree, e: TarEntry) {
    e.f.chownDirs && Place(g, e).At? && !Obstructed(g.sv.kernel, t, Place(g, e).path)
  }

  /** The write of a file, then its times: what it does is what a write does, and what it answers. */
  ghost predicate FileDone(g: Target, e: TarEntry, m: Moment, m': Moment, r: Outcome)
    requires Sane(g.sv, m)
  {
    && PerformsWrite(g.sv, PathOf(g, e), e.body, e.size, e.f, m, m')
    && (HasRoom(g.sv, m, e.size, Place(g, e)) ==> r != Fail(ErrDiskSpace))
    && (!HasRoom(g.sv, m, e.size, Place(g, e)) ==>
          Refused(m, m') && r.Fail? && (Open(g, m.tree, e) ==> r == Fail(ErrDiskSpace)))
    && (HasRoom(g.sv, m, e.size, Place(g, e)) && Open(g, m.tree, e) ==>
          (r.Pass? <==> e.f.chownFile && e.times && !(e.size != 0 && CopyFails(e.body, e.size, e.f.room))))
  }

  ghost predicate DirDone(g: Target, e: TarEntry, m: Moment, m': Moment, r: Outcome)
    requires Sane(g.sv, m)
  {
    && PerformsMkdir(g.sv, PathOf(g, e), e.f.chownDirs, m, m')
    && r != Fail(ErrDiskSpace) && (Makeable(g, m.tree, e) ==> r.Pass?)
  }

  /** One entry: skipped when ignored, a directory or a file otherwise. */
  ghost predicate EntryDone(g: Target, e: TarEntry, m: Moment, m': Moment, r: Outcome)
    requires Sane(g.sv, m)
  {
    if g.ignored(PathOf(g, e)) then r.Pass? && m' == m
    else if e.isDir then DirDone(g, e, m, m', r)
    else FileDone(g, e, m, m', r)
  }

  ghost function TargetOf(fs: Filesystem, dir: string): Target
    reads fs, fs.unixFS
  {
    Target(ServerOf(fs), fs.ignored, dir)
  }

  method ExtractFile(fs: Filesystem, dir: string, e: TarEntry) returns (r: Outcome)
    requires Quiet(fs)
    modifies fs.unixFS`tree, fs.unixFS`usage
    ensures Quiet(fs)
    ensures FileDone(old(TargetOf(fs, dir)), e, old(Now(fs)), Now(fs), r)
  {
    hide FileDone, PerformsWrite, Written, Unhindered, OnlyDirsAdded, UnsafePath, JoinTwo, DirOf, SpaceFor, CopiedBytes;
    ghost var limit := fs.unixFS.limit;
    ghost var written;
    ghost var g, m := TargetOf(fs, dir), Now(fs);
    var err;
    err, written := fs.Write(JoinTwo(dir, e.name), e.body, e.size, e.f);
    assert fs.unixFS.limit == limit;
    r := if err.Pass? && !e.times then Fail(Sys(EPERM)) else err;
    WriteIsDone(g, e, m, Now(fs), err, written);
  }

  lemma WriteIsDone(g: Target, e: TarEntry, m: Moment, m': Moment, err: Outcome, written: Option<nat>)
    requires Sane(g.sv, m)
    requires written.None? ==> err.Fail? && Refused(m, m')
    requires written.Some? ==>
      && Place(g, e).At? && LocateIn(g.sv.base, DirOf(PathOf(g, e))).At? && HasRoom(g.sv, m, e.size, Place(g, e))
      && written.value == CopiedBytes(e.body, e.size, e.f.room)
      && Written(m.tree, m'.tree, LocateIn(g.sv.base, DirOf(PathOf(g, e))).path, Place(g, e).path, e.f.ino, e.body.data[..written.value])
      && m'.usage as int == Clamp(m.usage as int + written.value - FileSize(m.tree, Place(g, e).path))
    requires err.Pass? <==> written.Some? && e.f.chownFile && !(e.size != 0 && CopyFails(e.body, e.size, e.f.room))
    requires err == Fail(ErrDiskSpace) ==> !HasRoom(g.sv, m, e.size, Place(g, e))
    requires Open(g, m.tree, e) && err != Fail(ErrDiskSpace) ==> written.Some?
    ensures FileDone(g, e, m, m', if err.Pass? && !e.times then Fail(Sys(EPERM)) else err)
  {
  }

  method ExtractEntry(fs: Filesystem, dir: string, e: TarEntry) returns (r: Outcome)
    requires Quiet(fs)
    modifies fs.unixFS`tree, fs.unixFS`usage
    ensures Quiet(fs)
    ensures EntryDone(old(TargetOf(fs, dir)), e, old(Now(fs)), Now(fs), r)
    ensures fs.ignored(JoinTwo(dir, e.name)) ==> r.Pass? && Now(fs) == old(Now(fs))
    ensures !fs.ignored(JoinTwo(dir, e.name)) && e.isDir && r.Pass? ==>
      && fs.unixFS.Locate(JoinTwo(dir, e.name)).At?
      && fs.unixFS.tree == WithDirs(old(fs.unixFS.tree), fs.unixFS.Locate(JoinTwo(dir, e.name)).path)
  {
    var p := JoinTwo(dir, e.name);
    if fs.ignored(p) {
      return Pass;
    }
    if e.isDir {
      ghost var usage, limit := fs.unixFS.usage, fs.unixFS.limit;
      r := fs.MkdirAll(p, e.f.chownDirs);
      assert fs.unixFS.limit == limit && fs.unixFS.usage == usage;
      return;
    }
    r := ExtractFile(fs, dir, e);
  }

  // ------------------------------------------------------------------ the stream

  /** The first `n` entries lead from one moment to the other, each extracted without an error. */
  ghost predicate Extracted(g: Target, entries: seq<TarEntry>, start: Moment, m: Moment, n: nat)
    requires n <= |entries|
    decreases n
  {
    && Sane(g.sv, m)
    && if n == 0 then m == start
       else exists before {:trigger Extracted(g, entries, start, before, n - 1)} ::
         Extracted(g, entries, start, before, n - 1) && EntryDone(g, entries[n - 1], before, m, Pass)
  }

  /** Either all entries were extracted, or entry `n` failed and nothing was extracted after it. */
  ghost predicate StreamDone(g: Target, entries: seq<TarEntry>, start: Moment, m: Moment, n: nat, r: Outcome) {
    && n <= |entries| && Sane(g.sv, m)
    && if r.Pass? then n == |entries| && Extracted(g, entries, start, m, n)
       else n < |entries| && exists before :: Extracted(g, entries, start, before, n) && EntryDone(g, entries[n], before, m, r)
  }

  lemma ExtractedMore(g: Target, entries: seq<TarEntry>, start: Moment, before: Moment, m: Moment, n: nat)
    requires n < |entries| && Extracted(g, entries, start, before, n)
    requires Sane(g.sv, before) && Sane(g.sv, m) && EntryDone(g, entries[n], before, m, Pass)
    ensures Extracted(g, entries, start, m, n + 1)
  {
    hide EntryDone, Sane;
    assert Extracted(g, entries, start, before, (n + 1) - 1);
  }

  lemma LastExtracted(g: Target, entries: seq<TarEntry>, start: Moment, m: Moment, n: nat) returns (before: Moment)
    requires 0 < n <= |entries| && Extracted(g, entries, start, m, n)
    ensures Sane(g.sv, before) && Extracted(g, entries, start, before, n - 1) && EntryDone(g, entries[n - 1], before, m, Pass)
  {
    before :| Extracted(g, entries, start, before, n - 1) && EntryDone(g, entries[n - 1], before, m, Pass);
  }

  lemma LastFailed(g: Target, entries: seq<TarEntry>, start: Moment, m: Moment, n: nat, r: Outcome) returns (before: Moment)
    requires StreamDone(g, entries, start, m, n, r) && r.Fail?
    ensures Sane(g.sv, before) && Extracted(g, entries, start, before, n) && EntryDone(g, entries[n], before, m, r)
  {
    before :| Extracted(g, entries, start, before, n) && EntryDone(g, entries[n], before, m, r);
  }

  /** extractStream for an archive: entry after entry, stopping at the first error. `n` is the number of
      entries that were extracted. */
  method ExtractStream(fs: Filesystem, dir: string, entries: seq<TarEntry>) returns (r: Outcome, ghost n: nat)
    requires Quiet(fs)
    modifies fs.unixFS`tree, fs.unixFS`usage
    ensures Quiet(fs)
    ensures StreamDone(old(TargetOf(fs, dir)), entries, old(Now(fs)), Now(fs), n, r)
  {
    hide EntryDone;
    ghost var g, start := TargetOf(fs, dir), Now(fs);
    r := Pass;
    for i := 0 to |entries|
      invariant Quiet(fs) && TargetOf(fs, dir) == g && r.Pass?
      invariant Extracted(g, entries, start, Now(fs), i)
    {
      ghost var before := Now(fs);
      r := ExtractEntry(fs, dir, entries[i]);
      if r.Fail? {
        return r, i;
      }
      ExtractedMore(g, entries, start, before, Now(fs), i);
    }
    n := |entries|;
  }

  // ------------------------------------------------------------------ space and ledger

  ghost predicate NoneNegative(entries: seq<TarEntry>) {
    forall i :: 0 <= i < |entries| ==> 0 <= entries[i].size
  }

  /** What one entry can do to the ledger. */
  lemma EntryAccounts(g: Target, e: TarEntry, m: Moment, m': Moment, r: Outcome)
    requires Sane(g.sv, m) && Sane(g.sv, m') && EntryDone(g, e, m, m', r)
    ensures m'.usage as int <= m.usage as int + Max(0, e.size as int)
    ensures g.sv.limit != 0 || m.usage as int + Max(0, e.size as int) <= MAX_INT64 ==> Exact(m) ==> Exact(m')
    ensures g.sv.limit != 0 && Covered(g.sv.limit, m) ==> Covered(g.sv.limit, m')
    ensures g.sv.limit < 0 ==> Total(m'.tree) <= Total(m.tree) && m'.usage <= m.usage
    ensures g.sv.limit == -1 ==> Total(m'.tree) == Total(m.tree) && m'.usage == m.usage
  {
    if g.ignored(PathOf(g, e)) {
    } else if e.isDir {
      DirsWeighNothing(m.tree, m'.tree, map[]);
    } else {
      WriteAccounts(g.sv, WriteFile(PathOf(g, e), e.body, e.size, e.f), m, m');
      if g.sv.limit < 0 {
        WriteShrinks(g.sv, PathOf(g, e), e.body, e.size, e.f, m, m');
      }
    }
  }

  lemma EntryFits(g: Target, e: TarEntry, m: Moment, m': Moment, r: Outcome)
    requires Sane(g.sv, m) && EntryDone(g, e, m, m', r) && 0 <= e.size
    requires Enough(g.sv.limit, m.usage as int, e.size as int)
    ensures r != Fail(ErrDiskSpace)
  {
    SizeOfTarget(m.tree, Place(g, e));
    EnoughForNext(g.sv.limit, m.usage, e.size, 0, CurrentSize(m.tree, Place(g, e)));
  }

  lemma SizeOfTarget(t: Tree, at: Located)
    requires SizesFit(t)
    ensures CurrentSize(t, at) <= MAX_INT64
  {
    if at.At? && at.path in t {
      assert Size(t[at.path]) <= MAX_INT64;
    }
  }

  /** What a stretch of the extraction does to the ledger: the counter has grown by no more than the sizes
      of the entries; an exact counter is still exact, on an unlimited server as long as it can hold the
      sizes; and with a limit the counter goes on covering the tree, and a positive limit the counter. */
  ghost predicate Accounted(limit: int64, m: Moment, m': Moment, sum: nat) {
    && m'.usage as int <= m.usage as int + sum
    && (Exact(m) && (limit != 0 || m.usage as int + sum <= MAX_INT64) ==> Exact(m'))
    && (limit != 0 && Covered(limit, m) ==> Covered(limit, m'))
    && (limit < 0 ==> Total(m'.tree) <= Total(m.tree) && m'.usage <= m.usage)
    && (limit == -1 ==> Total(m'.tree) == Total(m.tree) && m'.usage == m.usage)
  }

  lemma {:induction false} ExtractedAccounts(g: Target, entries: seq<TarEntry>, start: Moment, m: Moment, n: nat)
    requires n <= |entries| && Extracted(g, entries, start, m, n)
    ensures Accounted(g.sv.limit, start, m, PositiveSum(Sizes(entries)[..n]))
    decreases n
  {
    hide EntryDone, Sane;
    if n > 0 {
      var before := LastExtracted(g, entries, start, m, n);
      ExtractedAccounts(g, entries, start, before, n - 1);
      NextSum(Sizes(entries), n - 1);
      EntryAccounts(g, entries[n - 1], before, m, Pass);
    }
  }

  lemma StreamAccounts(g: Target, entries: seq<TarEntry>, start: Moment, m: Moment, n: nat, r: Outcome)
    requires StreamDone(g, entries, start, m, n, r)
    ensures Accounted(g.sv.limit, start, m, PositiveSum(Sizes(entries)))
  {
    hide EntryDone, Sane;
    AllTaken(Sizes(entries));
    if r.Pass? {
      ExtractedAccounts(g, entries, start, m, n);
    } else {
      var before := LastFailed(g, entries, start, m, n, r);
      ExtractedAccounts(g, entries, start, before, n);
      NextSum(Sizes(entries), n);
      PositiveSumGrows(Sizes(entries), n + 1);
      EntryAccounts(g, entries[n], before, m, r);
    }
  }

  lemma AllTaken<T>(s: seq<T>)
    ensures s[..|s|] == s && s[..0] == []
  {
  }

  /** After an accepted check no write of the extraction fails for lack of space, even when it overwrites
      existing files. */
  lemma StreamFits(g: Target, entries: seq<TarEntry>, start: Moment, m: Moment, n: nat, r: Outcome)
    requires StreamDone(g, entries, start, m, n, r) && NoneNegative(entries)
    requires Enough(g.sv.limit, start.usage as int, PositiveSum(Sizes(entries)))
    ensures r != Fail(ErrDiskSpace)
  {
    hide EntryDone, Sane;
    if r.Fail? {
      var before := LastFailed(g, entries, start, m, n, r);
      ExtractedAccounts(g, entries, start, before, n);
      NextSum(Sizes(entries), n);
      PositiveSumGrows(Sizes(entries), n + 1);
      EntryFits(g, entries[n], before, m, r);
    }
  }

  // ------------------------------------------------------------------ limits below zero

  /** Limits below zero pass the space check of an extraction. The check of a write then refuses every file
      when the limit is -1, and otherwise every file that would grow. */
  ghost predicate Denied(g: Target, t: Tree, e: TarEntry) {
    g.sv.limit < 0 && (g.sv.limit == -1 || e.size as int > CurrentSize(t, Place(g, e)))
  }

  lemma DeniedExactly(g: Target, m: Moment, e: TarEntry)
    requires Sane(g.sv, m) && g.sv.limit < 0 && 0 <= e.size
    ensures HasRoom(g.sv, m, e.size, Place(g, e)) <==> !Denied(g, m.tree, e)
  {
    SizeOfTarget(m.tree, Place(g, e));
  }

  /** No file has become larger. */
  ghost predicate NothingGrew(t: Tree, t': Tree) {
    forall p {:trigger FileSize(t', p)} :: FileSize(t', p) <= FileSize(t, p)
  }

  lemma EntryGrowsNothing(g: Target, e: TarEntry, m: Moment, m': Moment, r: Outcome)
    requires Sane(g.sv, m) && EntryDone(g, e, m, m', r) && g.sv.limit < 0 && 0 <= e.size
    ensures NothingGrew(m.tree, m'.tree)
    ensures IsWritten(g, e) && r.Pass? ==> !Denied(g, m.tree, e)
    ensures IsWritten(g, e) && Denied(g, m.tree, e) && Open(g, m.tree, e) ==> r == Fail(ErrDiskSpace)
  {
    DeniedExactly(g, m, e);
    if IsWritten(g, e) && !Refused(m, m') {
      var d, q, n := LocateIn(g.sv.base, DirOf(PathOf(g, e))).path, Place(g, e).path, CopiedBytes(e.body, e.size, e.f.room);
      WrittenSizes(m.tree, m'.tree, d, q, e.f.ino, e.body.data[..n]);
    }
  }

  lemma WrittenSizes(t: Tree, t': Tree, d: Path, q: Path, ino: nat, data: Bytes)
    requires WellFormed(t) && Written(t, t', d, q, ino, data)
    ensures FileSize(t', q) == |data| && forall p :: p != q ==> FileSize(t', p) == FileSize(t, p)
  {
    var t1 := WithDirs(t, d);
    WithDirsMeaning(t, d);
    WithDirsMeaning(t1, Parent(q));
  }

  /** No file has grown, and among the first `n` entries that were extracted no file was denied. */
  ghost predicate NoneDenied(g: Target, entries: seq<TarEntry>, t: Tree, s: Tree, n: nat)
    requires n <= |entries|
  {
    NothingGrew(t, s) && forall j :: 0 <= j < n && IsWritten(g, entries[j]) ==> !Denied(g, t, entries[j])
  }

  lemma NoneDeniedNext(g: Target, entries: seq<TarEntry>, t: Tree, m: Moment, m': Moment, r: Outcome, n: nat)
    requires n < |entries| && NoneDenied(g, entries, t, m.tree, n) && Sane(g.sv, m)
    requires EntryDone(g, entries[n], m, m', r) && g.sv.limit < 0 && 0 <= entries[n].size
    ensures NothingGrew(t, m'.tree) && (r.Pass? ==> NoneDenied(g, entries, t, m'.tree, n + 1))
  {
    EntryGrowsNothing(g, entries[n], m, m', r);
    SmallerPlace(g, entries[n], t, m.tree);
  }

  lemma {:induction false} ExtractedDenies(g: Target, entries: seq<TarEntry>, start: Moment, m: Moment, n: nat)
    requires n <= |entries| && Extracted(g, entries, start, m, n) && NoneNegative(entries) && g.sv.limit < 0
    ensures NoneDenied(g, entries, start.tree, m.tree, n)
    decreases n
  {
    hide EntryDone, Sane, Denied;
    if n > 0 {
      var before := LastExtracted(g, entries, start, m, n);
      ExtractedDenies(g, entries, start, before, n - 1);
      NoneDeniedNext(g, entries, start.tree, before, m, Pass, n - 1);
    }
  }

  /** With a limit below zero no file grows, and an extraction that passes has met only files that fit into
      what was at their place at the start. */
  lemma StreamDenies(g: Target, entries: seq<TarEntry>, start: Moment, m: Moment, n: nat, r: Outcome)
    requires StreamDone(g, entries, start, m, n, r) && NoneNegative(entries) && g.sv.limit < 0
    ensures NothingGrew(start.tree, m.tree)
    ensures r.Pass? ==> NoneDenied(g, entries, start.tree, m.tree, |entries|)
  {
    hide EntryDone, Sane, Denied;
    if r.Pass? {
      ExtractedDenies(g, entries, start, m, n);
    } else {
      var before := LastFailed(g, entries, start, m, n, r);
      ExtractedDenies(g, entries, start, before, n);
      NoneDeniedNext(g, entries, start.tree, before, m, r, n);
    }
  }

  lemma SmallerPlace(g: Target, e: TarEntry, t: Tree, s: Tree)
    requires NothingGrew(t, s)
    ensures CurrentSize(s, Place(g, e)) <= CurrentSize(t, Place(g, e))
    ensures Denied(g, t, e) ==> Denied(g, s, e)
  {
  }

  /** Entry `n` is a file that is denied, and nothing before it stands in its way: what comes before is
      ignored, or is a directory that can be made and does not take the place of the file. */
  ghost predicate DeniedAt(g: Target, t: Tree, entries: seq<TarEntry>, n: nat) {
    && n < |entries| && IsWritten(g, entries[n]) && Place(g, entries[n]).At?
    && Open(g, t, entries[n]) && Denied(g, t, entries[n])
    && forall j :: 0 <= j < n ==> g.ignored(PathOf(g, entries[j])) || StandsAside(g, t, entries[j], Place(g, entries[n]).path)
  }

  ghost predicate StandsAside(g: Target, t: Tree, e: TarEntry, q: Path) {
    e.isDir && Makeable(g, t, e) && !Under(q, Place(g, e).path)
  }

  /** What the extraction has done before it comes to the file at `q`. */
  ghost predicate Approaches(t: Tree, s: Tree, q: Path) {
    OnlyDirsAdded(t, s) && (q in s ==> q in t)
  }

  lemma StillMakeable(g: Target, t: Tree, s: Tree, e: TarEntry)
    requires OnlyDirsAdded(t, s) && Makeable(g, t, e)
    ensures Makeable(g, s, e)
  {
    var d := Place(g, e).path;
    forall j | 0 <= j <= |d| ensures !ObstructedAt(g.sv.kernel, s, d, j) {
      assert !ObstructedAt(g.sv.kernel, t, d, j);
    }
  }

  lemma StillOpen(g: Target, t: Tree, s: Tree, e: TarEntry)
    requires Open(g, t, e) && Approaches(t, s, Place(g, e).path)
    ensures Open(g, s, e) && (Denied(g, t, e) ==> Denied(g, s, e))
  {
    var q := Place(g, e).path;
    assert Permitted(g.sv.kernel, s, q);
    assert NoFileOnPath(s, Parent(q));
  }

  lemma OneDirCloser(t: Tree, s: Tree, d: Path, q: Path)
    requires WellFormed(s) && ValidNames(d) && NoFileOnPath(s, d) && Approaches(t, s, q) && !Under(q, d)
    ensures Approaches(t, WithDirs(s, d), q)
  {
    WithDirsMeaning(s, d);
  }

  lemma MakeableClear(g: Target, t: Tree, e: TarEntry)
    requires Makeable(g, t, e)
    ensures NoFileOnPath(t, Place(g, e).path)
  {
    var d := Place(g, e).path;
    forall j | 0 <= j <= |d| && d[..j] in t ensures t[d[..j]].Dir? {
      assert !ObstructedAt(g.sv.kernel, t, d, j);
    }
  }

  lemma PassedBy(g: Target, t: Tree, m: Moment, m': Moment, e: TarEntry, q: Path, r: Outcome)
    requires Sane(g.sv, m) && EntryDone(g, e, m, m', r) && Approaches(t, m.tree, q)
    requires g.ignored(PathOf(g, e)) || StandsAside(g, t, e, q)
    ensures r.Pass? && Approaches(t, m'.tree, q)
  {
    if !g.ignored(PathOf(g, e)) {
      StillMakeable(g, t, m.tree, e);
      MakeableClear(g, m.tree, e);
      UnsafePathNormalForm(g.sv.base, PathOf(g, e));
      OneDirCloser(t, m.tree, Place(g, e).path, q);
    }
  }

  lemma ThenDenied(g: Target, t: Tree, m: Moment, m': Moment, e: TarEntry, r: Outcome)
    requires Sane(g.sv, m) && EntryDone(g, e, m, m', r) && 0 <= e.size
    requires IsWritten(g, e) && Open(g, t, e) && Denied(g, t, e) && Approaches(t, m.tree, Place(g, e).path)
    ensures r == Fail(ErrDiskSpace)
  {
    StillOpen(g, t, m.tree, e);
    EntryGrowsNothing(g, e, m, m', r);
  }

  lemma NothingApproached(g: Target, m: Moment, q: Path)
    requires Sane(g.sv, m)
    ensures Approaches(m.tree, m.tree, q)
  {
  }

  lemma {:induction false} ExtractedApproaches(g: Target, entries: seq<TarEntry>, start: Moment, m: Moment, n: nat, k: nat)
    requires k <= |entries| && Extracted(g, entries, start, m, k) && NoneNegative(entries) && DeniedAt(g, start.tree, entries, n)
    ensures k <= n && Approaches(start.tree, m.tree, Place(g, entries[n]).path)
    decreases k
  {
    hide EntryDone, Sane, Approaches, Open, Denied, StandsAside;
    if k == 0 {
      NothingApproached(g, start, Place(g, entries[n]).path);
    } else {
      var before := LastExtracted(g, entries, start, m, k);
      ExtractedApproaches(g, entries, start, before, n, k - 1);
      ApproachesNext(g, entries, start.tree, before, m, Pass, n, k - 1);
    }
  }

  lemma ApproachesNext(g: Target, entries: seq<TarEntry>, t: Tree, m: Moment, m': Moment, r: Outcome, n: nat, k: nat)
    requires k <= n && NoneNegative(entries) && DeniedAt(g, t, entries, n)
    requires Sane(g.sv, m) && EntryDone(g, entries[k], m, m', r) && Approaches(t, m.tree, Place(g, entries[n]).path)
    ensures if k == n then r == Fail(ErrDiskSpace) else r.Pass? && Approaches(t, m'.tree, Place(g, entries[n]).path)
  {
    if k == n {
      ThenDenied(g, t, m, m', entries[n], r);
    } else {
      PassedBy(g, t, m, m', entries[k], Place(g, entries[n]).path, r);
    }
  }

  /** The first denied file that nothing stands in the way of ends the extraction for lack of space. */
  lemma StreamDeniedAt(g: Target, entries: seq<TarEntry>, start: Moment, m: Moment, n: nat, r: Outcome, k: nat)
    requires StreamDone(g, entries, start, m, k, r) && NoneNegative(entries) && DeniedAt(g, start.tree, entries, n)
    ensures r == Fail(ErrDiskSpace) && k == n
  {
    hide EntryDone, Sane, Approaches, Open, Denied, StandsAside;
    if r.Pass? {
      ExtractedApproaches(g, entries, start, m, n, k);
    } else {
      var before := LastFailed(g, entries, start, m, k, r);
      ExtractedApproaches(g, entries, start, before, n, k);
      ApproachesNext(g, entries, start.tree, before, m, r, n, k);
    }
  }

  /** The space check, then the extraction. With a limit of zero or more, what the check accepted never
      runs out of space. With a limit below zero the check accepts everything; no file grows, and an archive
      with a file larger than what is at its place does not pass. The check itself writes nothing. */
  method Decompress(fs: Filesystem, dir: string, entries: seq<TarEntry>) returns (checked: Outcome, r: Outcome)
    requires Quiet(fs) && NoneNegative(entries)
    modifies fs.unixFS`tree, fs.unixFS`usage
    ensures Quiet(fs)
    ensures checked.Fail? ==> r == checked && Now(fs) == old(Now(fs))
    ensures 0 < fs.unixFS.limit ==>
      (checked.Pass? <==> PositiveSum(Sizes(entries)) == 0 || old(fs.unixFS.usage) as int + PositiveSum(Sizes(entries)) <= fs.unixFS.limit as int)
    ensures checked.Pass? && 0 <= fs.unixFS.limit ==> r != Fail(ErrDiskSpace)
    ensures fs.unixFS.limit != 0 && Exact(old(Now(fs))) ==> Exact(Now(fs))
    ensures fs.unixFS.limit != 0 && Covered(fs.unixFS.limit, old(Now(fs))) ==> Covered(fs.unixFS.limit, Now(fs))
    ensures fs.unixFS.limit < 0 ==> checked.Pass? && NothingGrew(old(fs.unixFS.tree), fs.unixFS.tree)
    ensures fs.unixFS.limit < 0 ==> Total(fs.unixFS.tree) <= Total(old(fs.unixFS.tree)) && fs.unixFS.usage <= old(fs.unixFS.usage)
    ensures fs.unixFS.limit == -1 ==> Total(fs.unixFS.tree) == Total(old(fs.unixFS.tree)) && fs.unixFS.usage == old(fs.unixFS.usage)
    ensures fs.unixFS.limit < 0 && r.Pass? ==>
      NoneDenied(TargetOf(fs, dir), entries, old(fs.unixFS.tree), fs.unixFS.tree, |entries|)
    ensures forall n :: DeniedAt(TargetOf(fs, dir), old(fs.unixFS.tree), entries, n) ==> r == Fail(ErrDiskSpace)
  {
    checked := SpaceAvailableForDecompression(fs, Sizes(entries));
    if checked.Fail? {
      return checked, checked;
    }
    ghost var g, start := TargetOf(fs, dir), Now(fs);
    ghost var n;
    r, n := ExtractStream(fs, dir, entries);
    assert TargetOf(fs, dir) == g;
    StreamAccounts(g, entries, start, Now(fs), n, r);
    if 0 <= g.sv.limit {
      StreamFits(g, entries, start, Now(fs), n, r);
    } else {
      StreamDenies(g, entries, start, Now(fs), n, r);
    }
    forall k | DeniedAt(g, start.tree, entries, k) ensures r == Fail(ErrDiskSpace) {
      StreamDeniedAt(g, entries, start, Now(fs), k, r, n);
    }
  }

  // ------------------------------------------------------------------ the round trip

  /** `s` holds exactly the files `done` of `t`, with their contents, and the directories above them. */
  ghost predicate Rebuilt(t: Tree, s: Tree, done: seq<Path>) {
    && WellFormed(s)
    && (forall i :: 0 <= i < |done| ==> Delivered(t, s, done[i]))
    && (forall p :: p in s && s[p].File? ==> p in done)
    && (forall p {:trigger Leads(p, done)} :: p in s && p != [] ==> Leads(p, done))
  }

  /** `p` is one of the files `done`, or above one. */
  ghost predicate Leads(p: Path, done: seq<Path>) {
    exists i :: 0 <= i < |done| && Under(p, done[i])
  }

  ghost predicate Delivered(t: Tree, s: Tree, q: Path) {
    q in t && t[q].File? && q in s && s[q].File? && s[q].data == t[q].data
  }

  lemma RebuiltFiles(t: Tree, s: Tree, done: seq<Path>)
    requires Rebuilt(t, s, done)
    ensures forall p :: p in s && s[p].File? ==> p in t && t[p].File? && t[p].data == s[p].data
  {
    forall p | p in s && s[p].File? ensures Delivered(t, s, p) {
      var i :| 0 <= i < |done| && done[i] == p;
      assert Delivered(t, s, done[i]);
    }
  }

  lemma NothingAtNextFile(t: Tree, s: Tree, done: seq<Path>, q: Path)
    requires WellFormed(t) && Rebuilt(t, s, done) && q in t && t[q].File? && q !in done
    ensures q != [] && q !in s
  {
    forall i | 0 <= i < |done| ensures !Under(q, done[i]) {
      assert Delivered(t, s, done[i]);
      assert done[i] in done;
      if Under(q, done[i]) {
        FileIsAlone(t, q, done[i]);
      }
    }
    assert !Leads(q, done);
  }

  /** Nothing that was rebuilt so far is in the way of the next file. */
  lemma NextFileFits(t: Tree, s: Tree, done: seq<Path>, q: Path)
    requires WellFormed(t) && Rebuilt(t, s, done) && q in t && t[q].File? && q !in done
    ensures q != [] && q !in s && NoFileOnPath(s, Parent(q))
  {
    NothingAtNextFile(t, s, done, q);
    RebuiltFiles(t, s, done);
    NoFileAbove(t, s, q);
  }

  lemma NoFileAbove(t: Tree, s: Tree, q: Path)
    requires WellFormed(t) && q in t && q != []
    requires forall p :: p in s && s[p].File? ==> p in t && t[p].File? && t[p].data == s[p].data
    ensures NoFileOnPath(s, Parent(q))
  {
    var d := Parent(q);
    forall j | 0 <= j <= |d| && d[..j] in s ensures s[d[..j]].Dir? {
      assert d[..j] == q[..j];
      PrefixInTree(t, q, j);
    }
  }

  lemma NextFileRebuilt(t: Tree, s: Tree, s': Tree, done: seq<Path>, q: Path, ino: nat)
    requires WellFormed(t) && Rebuilt(t, s, done) && q in t && t[q].File? && q !in done
    requires Written(s, s', Parent(q), q, ino, t[q].data) && WellFormed(s')
    ensures Rebuilt(t, s', done + [q])
  {
    NextFileFits(t, s, done, q);
    var d := Parent(q);
    var s1 := WithDirs(s, d);
    WithDirsMeaning(s, d);
    assert WithDirs(s1, d) == s1;
    var done' := done + [q];
    assert Under(q, q) && Under(d, q);
    assert done'[|done|] == q;
    forall i | 0 <= i < |done'| ensures Delivered(t, s', done'[i]) {
      if i < |done| {
        assert Delivered(t, s, done[i]);
      }
    }
    forall p | p in s' && p != [] ensures Leads(p, done') {
      if p in s {
        assert Leads(p, done);
        var i :| 0 <= i < |done| && Under(p, done[i]);
        assert done'[i] == done[i];
      } else if p != q {
        UnderTransitive(p, d, q);
        assert Under(p, done'[|done|]);
      }
    }
    forall p | p in s' && s'[p].File? ensures p in done' {
      if p != q {
        assert p in s && s[p].File?;
      }
    }
  }

  /** The entry that a transfer sends for the file `q` of `t`, arriving in a cooperative environment. */
  ghost predicate Sends(g: Target, t: Tree, e: TarEntry, q: Path) {
    && ValidNames(q) && q in t && t[q].File?
    && PathOf(g, e) == "/" + Join(q) && !g.ignored("/" + Join(q)) && !(g.sv.base <= "/" + Join(q))
    && !e.isDir && e.body == Reader(t[q].data, false) && e.size as int == |t[q].data| <= e.f.room
    && e.f.stats && e.f.opens && e.f.chownDirs && e.f.chownFile && e.times
    && Permitted(g.sv.kernel, map[], q)
  }

  ghost predicate Transferable(g: Target, t: Tree, entries: seq<TarEntry>, qs: seq<Path>) {
    && WellFormed(t)
    && |qs| == |entries| && Distinct(qs)
    && (forall i :: 0 <= i < |qs| ==> Sends(g, t, entries[i], qs[i]))
  }

  /** A rooted path that does not begin with the text of the base is located in place, and so is its
      parent. */
  lemma LocatedInPlace(base: string, q: Path)
    requires ValidBase(base) && ValidNames(q) && q != [] && !(base <= "/" + Join(q))
    ensures LocateIn(base, "/" + Join(q)) == At(q)
    ensures LocateIn(base, DirOf("/" + Join(q))) == At(Parent(q))
  {
    UnsafePathOfRooted(base, q);
    NamesOfPathName(q);
    DirOfRooted(q);
    ParentTextIsPrefix(q);
    var d := Parent(q);
    assert !(base <= "/" + Join(d));
    UnsafePathOfRooted(base, d);
    NamesOfPathName(d);
  }

  lemma SentAt(g: Target, t: Tree, entries: seq<TarEntry>, qs: seq<Path>, i: nat)
    requires Transferable(g, t, entries, qs) && i < |entries|
    ensures |qs| == |Sizes(entries)| && Sends(g, t, entries[i], qs[i]) && Sizes(entries)[i] == entries[i].size
  {
  }

  lemma SentIsOpen(g: Target, t: Tree, s: Tree, e: TarEntry, q: Path, done: seq<Path>)
    requires ValidBase(g.sv.base) && WellFormed(t)
    requires Sends(g, t, e, q) && Rebuilt(t, s, done) && q !in done
    ensures Open(g, s, e) && Place(g, e) == At(q) && q !in s
    ensures LocateIn(g.sv.base, DirOf(PathOf(g, e))) == At(Parent(q))
  {
    NextFileFits(t, s, done, q);
    LocatedInPlace(g.sv.base, q);
    assert Permitted(g.sv.kernel, s, q);
  }

  lemma SentWhole(g: Target, t: Tree, e: TarEntry, q: Path)
    requires Sends(g, t, e, q)
    ensures CopiedBytes(e.body, e.size, e.f.room) == |t[q].data| && !CopyFails(e.body, e.size, e.f.room)
    ensures e.body.data[..CopiedBytes(e.body, e.size, e.f.room)] == t[q].data
  {
  }

  /** A file entry for which there is room, at a free place. */
  lemma OpenArrives(g: Target, m: Moment, m': Moment, e: TarEntry, q: Path, data: Bytes, r: Outcome)
    requires Sane(g.sv, m) && FileDone(g, e, m, m', r) && Open(g, m.tree, e) && HasRoom(g.sv, m, e.size, At(q))
    requires Place(g, e) == At(q) && LocateIn(g.sv.base, DirOf(PathOf(g, e))) == At(Parent(q)) && q !in m.tree
    requires e.body.data[..CopiedBytes(e.body, e.size, e.f.room)] == data
    ensures Written(m.tree, m'.tree, Parent(q), q, e.f.ino, data) && m'.usage as int == Clamp(m.usage as int + |data|)
    ensures e.f.chownFile && e.times && !CopyFails(e.body, e.size, e.f.room) ==> r.Pass?
  {
  }

  /** An entry that was sent arrives whole. */
  lemma SentArrives(g: Target, t: Tree, m: Moment, m': Moment, e: TarEntry, q: Path, done: seq<Path>, r: Outcome)
    requires Sane(g.sv, m) && WellFormed(t) && EntryDone(g, e, m, m', r)
    requires Sends(g, t, e, q) && Rebuilt(t, m.tree, done) && q !in done
    requires Enough(g.sv.limit, m.usage as int, e.size as int)
    ensures r.Pass? && q != [] && Written(m.tree, m'.tree, Parent(q), q, e.f.ino, t[q].data)
    ensures m'.usage as int == Clamp(m.usage as int + |t[q].data|)
  {
    hide Rebuilt, Permitted, Unhindered, UnsafePath;
    SentIsOpen(g, t, m.tree, e, q, done);
    EnoughForNext(g.sv.limit, m.usage, e.size, 0, 0);
    SentWhole(g, t, e, q);
    OpenArrives(g, m, m', e, q, t[q].data, r);
  }

  /** The state after the first `i` entries of a transfer. */
  ghost predicate Arrived(t: Tree, s: Tree, usage: int, qs: seq<Path>, sizes: seq<int64>, i: nat)
    requires i <= |qs| == |sizes|
  {
    Rebuilt(t, s, qs[..i]) && usage == Total(s) == PositiveSum(sizes[..i])
  }

  lemma NothingArrived(t: Tree, qs: seq<Path>, sizes: seq<int64>)
    requires |qs| == |sizes|
    ensures Arrived(t, map[[] := Dir], 0, qs, sizes, 0)
  {
    EmptyTotal();
    assert qs[..0] == [] && sizes[..0] == [];
  }

  lemma NextArrived(g: Target, t: Tree, m: Moment, m': Moment, e: TarEntry, qs: seq<Path>, sizes: seq<int64>, i: nat)
    requires Sane(g.sv, m) && Sane(g.sv, m') && WellFormed(t) && Distinct(qs) && i < |qs| == |sizes|
    requires Arrived(t, m.tree, m.usage as int, qs, sizes, i) && sizes[i] == e.size && Sends(g, t, e, qs[i])
    requires qs[i] != [] && Written(m.tree, m'.tree, Parent(qs[i]), qs[i], e.f.ino, t[qs[i]].data)
    requires m'.usage as int == Clamp(m.usage as int + |t[qs[i]].data|) && PositiveSum(sizes[..i + 1]) <= MAX_INT64
    ensures Arrived(t, m'.tree, m'.usage as int, qs, sizes, i + 1)
  {
    PrefixStep(qs, i);
    NextTreeArrived(t, m.tree, m'.tree, qs, i, e.f.ino);
    WrittenTotal(m.tree, m'.tree, Parent(qs[i]), qs[i], e.f.ino, t[qs[i]].data);
    NextSum(sizes, i);
  }

  /** One more turn of the extraction of a transfer. */
  lemma ArrivesNext(g: Target, t: Tree, m: Moment, m': Moment, e: TarEntry, qs: seq<Path>, sizes: seq<int64>, i: nat, r: Outcome)
    requires Sane(g.sv, m) && Sane(g.sv, m') && WellFormed(t) && Distinct(qs) && i < |qs| == |sizes|
    requires Arrived(t, m.tree, m.usage as int, qs, sizes, i) && sizes[i] == e.size && Sends(g, t, e, qs[i])
    requires EntryDone(g, e, m, m', r)
    requires Enough(g.sv.limit, 0, PositiveSum(sizes)) && PositiveSum(sizes) <= MAX_INT64
    ensures r.Pass? && Arrived(t, m'.tree, m'.usage as int, qs, sizes, i + 1)
  {
    NextSum(sizes, i);
    PositiveSumGrows(sizes, i + 1);
    PrefixStep(qs, i);
    SentArrives(g, t, m, m', e, qs[i], qs[..i], r);
    NextArrived(g, t, m, m', e, qs, sizes, i);
  }

  lemma PrefixStep(qs: seq<Path>, i: nat)
    requires i < |qs| && Distinct(qs)
    ensures qs[..i + 1] == qs[..i] + [qs[i]] && qs[i] !in qs[..i]
  {
  }

  lemma NextTreeArrived(t: Tree, s: Tree, s': Tree, qs: seq<Path>, i: nat, ino: nat)
    requires WellFormed(t) && Distinct(qs) && i < |qs| && Rebuilt(t, s, qs[..i]) && WellFormed(s')
    requires qs[i] in t && t[qs[i]].File?
    requires qs[i] != [] && Written(s, s', Parent(qs[i]), qs[i], ino, t[qs[i]].data)
    ensures Rebuilt(t, s', qs[..i + 1])
    ensures qs[i] !in s
  {
    PrefixStep(qs, i);
    var q, done, done' := qs[i], qs[..i], qs[..i + 1];
    NextFileFits(t, s, done, q);
    NextFileRebuilt(t, s, s', done, q, ino);
  }

  lemma {:induction false} ExtractedArrives(g: Target, entries: seq<TarEntry>, start: Moment, m: Moment, t: Tree, qs: seq<Path>, n: nat)
    requires n <= |entries| && Extracted(g, entries, start, m, n)
    requires Transferable(g, t, entries, qs) && start == Moment(map[[] := Dir], 0)
    requires Enough(g.sv.limit, 0, PositiveSum(Sizes(entries))) && PositiveSum(Sizes(entries)) <= MAX_INT64
    ensures Arrived(t, m.tree, m.usage as int, qs, Sizes(entries), n)
    decreases n
  {
    hide EntryDone, Sane, Sends, Rebuilt;
    if n == 0 {
      NothingArrived(t, qs, Sizes(entries));
    } else {
      var before := LastExtracted(g, entries, start, m, n);
      ExtractedArrives(g, entries, start, before, t, qs, n - 1);
      SentAt(g, t, entries, qs, n - 1);
      ArrivesNext(g, t, before, m, entries[n - 1], qs, Sizes(entries), n - 1, Pass);
    }
  }

  /** Entries sent from the files `qs` of a tree `t` into an empty directory rebuild exactly those files,
      with an exact ledger. */
  lemma StreamRebuilds(g: Target, entries: seq<TarEntry>, start: Moment, m: Moment, n: nat, r: Outcome, t: Tree, qs: seq<Path>)
    requires StreamDone(g, entries, start, m, n, r) && Transferable(g, t, entries, qs) && start == Moment(map[[] := Dir], 0)
    requires Enough(g.sv.limit, 0, PositiveSum(Sizes(entries))) && PositiveSum(Sizes(entries)) <= MAX_INT64
    ensures r.Pass? && Rebuilt(t, m.tree, qs)
    ensures m.usage as int == Total(m.tree) == PositiveSum(Sizes(entries))
  {
    hide EntryDone, Sane, Sends, Rebuilt;
    AllTaken(qs);
    AllTaken(Sizes(entries));
    if r.Pass? {
      ExtractedArrives(g, entries, start, m, t, qs, n);
    } else {
      var before := LastFailed(g, entries, start, m, n, r);
      ExtractedArrives(g, entries, start, before, t, qs, n);
      SentAt(g, t, entries, qs, n);
      ArrivesNext(g, t, before, m, entries[n], qs, Sizes(entries), n, r);
    }
  }
}
