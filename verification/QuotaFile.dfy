/** A file handle that reserves disk space before it writes, refunds what was not written, and
    settles with the real size when it is closed. */
module QuotaFiles {
  import opened Collections
  import opened Int64
  import opened PathText
  import opened FileTree
  import opened Ufs
  import opened Filesystems
  import opened HandleLedger

  /** Filesystem.reserveDisk: check and add under one lock. */
  method ReserveDisk(fs: Filesystem, size: int64) returns (r: Outcome)
    requires fs.Valid()
    modifies fs.unixFS`usage
    ensures size <= 0 ==> r == Pass && fs.unixFS.usage == old(fs.unixFS.usage)
    ensures size > 0 ==>
      && r == SpaceCheck(fs.unixFS.limit, old(fs.unixFS.usage), size)
      && fs.unixFS.usage as int ==
           if r == Pass then Clamp(old(fs.unixFS.usage) as int + size as int) else old(fs.unixFS.usage) as int
  {
    if size <= 0 {
      return Pass;
    }
    r := fs.HasSpaceFor(size);
    if r.Pass? {
      var _ := fs.unixFS.Add(size);
    }
  }

  /** Filesystem.adjustDisk */
  method AdjustDisk(fs: Filesystem, size: int64)
    requires fs.Valid()
    modifies fs.unixFS`usage
    ensures fs.unixFS.usage as int == Clamp(old(fs.unixFS.usage) as int + size as int)
  {
    if size == 0 {
      return;
    }
    var _ := fs.unixFS.Add(size);
  }

  /** The offset after writing `size` bytes at `off`, when it is an int64. */
  function QuotaWriteEnd(off: int64, size: nat): (r: Option<int64>)
    requires size <= MAX_INT64
    ensures r.Some? <==> off as int + size <= MAX_INT64
    ensures r.Some? ==> r.value as int == off as int + size
  {
    if off > 0x7FFF_FFFF_FFFF_FFFF - (size as int64) then None else Some(off + size as int64)
  }

  /** File content after writing `chunk` at `off`; a gap is filled with zero bytes. */
  function Patch(data: Bytes, off: nat, chunk: Bytes): (d: Bytes)
    ensures |d| == if chunk == [] then |data| else Max(|data|, off + |chunk|)
    ensures chunk != [] ==> d[off..off + |chunk|] == chunk
    ensures forall i :: 0 <= i < |data| && (i < off || i >= off + |chunk|) ==> d[i] == data[i]
    ensures forall i :: |data| <= i < off && chunk != [] ==> d[i] == 0
  {
    if chunk == [] then data
    else
      var head := if |data| < off then data + seq(off - |data|, _ => 0 as byte) else data[..off];
      var tail := if off + |chunk| < |data| then data[off + |chunk|..] else [];
      head + chunk + tail
  }

  /** File content after one call on a handle in state `s`. */
  function PatchedBy(limit: int64, s: HandleState, data: Bytes, c: Call): Bytes {
    var n := WrittenBy(limit, s, c);
    if n == 0 then data else Patch(data, OffsetOf(s, c), c.p[..n])
  }

  /** File content after a sequence of calls. */
  function ContentAfter(limit: int64, s: HandleState, data: Bytes, calls: seq<Call>): Bytes {
    if calls == [] then data
    else
      var init := calls[..|calls| - 1];
      PatchedBy(limit, AfterCalls(limit, s, init), ContentAfter(limit, s, data, init), calls[|calls| - 1])
  }

  lemma ContentAppend(limit: int64, s: HandleState, data: Bytes, calls: seq<Call>, i: nat)
    requires i < |calls|
    ensures ContentAfter(limit, s, data, calls[..i + 1]) ==
      PatchedBy(limit, AfterCalls(limit, s, calls[..i]), ContentAfter(limit, s, data, calls[..i]), calls[i])
  {
    assert calls[..i + 1][..i] == calls[..i];
  }

  /** The accounted size always covers the content. */
  lemma {:induction false} ContentWithin(limit: int64, s: HandleState, data: Bytes, calls: seq<Call>)
    requires Possible(s) && |data| <= s.size
    ensures |ContentAfter(limit, s, data, calls)| <= AfterCalls(limit, s, calls).size
  {
    if calls != [] {
      var init := calls[..|calls| - 1];
      ContentWithin(limit, s, data, init);
      CallsConserve(limit, s, init);
      var m, c := AfterCalls(limit, s, init), calls[|calls| - 1];
      WriteConserves(limit, m.usage, m.size, OffsetOf(m, c), |c.p|, c.w.accepted);
    }
  }

  /** A write at the position that nothing but the space check can refuse. */
  predicate Smooth(c: Call) {
    c.Sequential? && c.seeks && |c.p| <= c.w.accepted
  }

  /** The bytes of all the calls, in order. */
  function Chunks(calls: seq<Call>): (data: Bytes)
    ensures |data| == ByteCount(calls)
  {
    if calls == [] then [] else Chunks(calls[..|calls| - 1]) + calls[|calls| - 1].p
  }

  /** There is room for a file of `end` bytes in place of the accounted one. */
  predicate RoomFor(limit: int64, s: HandleState, end: nat) {
    end <= MAX_INT64
    && (end <= s.size || (limit != -1 && (limit == 0 || s.usage + (end - s.size) <= limit as int)))
  }

  /** The upload got through as a whole when there was room for it, and otherwise fell short. */
  ghost predicate Uploaded(limit: int64, s: HandleState, s': HandleState, data: Bytes, whole: Bytes) {
    && |data| == s'.pos
    && (RoomFor(limit, s, |whole|) ==> data == whole && s'.size == Max(s.size, |whole|))
    && (!RoomFor(limit, s, |whole|) ==> |data| < |whole|)
  }

  /** An upload into an empty file is whole if and only if there is room for all of it. */
  lemma UploadedWhole(limit: int64, s: HandleState, calls: seq<Call>)
    requires Possible(s) && s.pos == 0 && forall c :: c in calls ==> Smooth(c)
    ensures ContentAfter(limit, s, [], calls) == Chunks(calls) <==> RoomFor(limit, s, ByteCount(calls))
  {
    AllUploaded(limit, s, calls);
  }

  lemma {:induction false} AllUploaded(limit: int64, s: HandleState, calls: seq<Call>)
    requires Possible(s) && s.pos == 0 && forall c :: c in calls ==> Smooth(c)
    ensures Uploaded(limit, s, AfterCalls(limit, s, calls), ContentAfter(limit, s, [], calls), Chunks(calls))
    decreases |calls|
  {
    if calls != [] {
      var n := |calls| - 1;
      var init, c := calls[..n], calls[n];
      assert calls == init + [c];
      AllUploaded(limit, s, init);
      CallsConserve(limit, s, init);
      OneUploaded(limit, s, AfterCalls(limit, s, init), c, |Chunks(init)|);
      PatchedAtEnd(limit, AfterCalls(limit, s, init), ContentAfter(limit, s, [], init), c);
      assert c.p[..|c.p|] == c.p;
    }
  }

  lemma PatchedAtEnd(limit: int64, s: HandleState, data: Bytes, c: Call)
    requires Smooth(c) && s.pos == |data|
    ensures PatchedBy(limit, s, data, c) == data + c.p[..WrittenBy(limit, s, c)]
  {
    hide AfterWrite;
    assert data[..|data|] == data;
  }

  /** The arithmetic of one more call, after calls with `sent` bytes in all. */
  lemma OneUploaded(limit: int64, s: HandleState, m: HandleState, c: Call, sent: nat)
    requires Possible(s) && Possible(m) && Smooth(c)
    requires s.size <= m.size && m.usage - m.size <= s.usage - s.size
    requires limit != 0 ==> m.usage - m.size == s.usage - s.size
    requires RoomFor(limit, s, sent) ==> m.pos == sent && m.size == Max(s.size, sent)
    requires !RoomFor(limit, s, sent) ==> m.pos < sent
    ensures var n, s' := WrittenBy(limit, m, c), AfterCall(limit, m, c);
      && s'.pos == m.pos + n
      && (RoomFor(limit, s, sent + |c.p|) ==>
            RoomFor(limit, s, sent) && n == |c.p| && s'.size == Max(s.size, sent + |c.p|))
      && (!RoomFor(limit, s, sent + |c.p|) ==> s'.pos < sent + |c.p|)
  {
  }

  /** Tree, accounted sizes and the state of one handle. */
  datatype HandleView = HandleView(tree: Tree, accounted: map<Path, nat>, state: HandleState)

  /** The handle on `path` has served one call. */
  ghost predicate ServedOne(limit: int64, path: Path, v: HandleView, v': HandleView, c: Call) {
    && path in v.tree && v.tree[path].File? && v'.state == AfterCall(limit, v.state, c)
    && v'.tree == v.tree[path := v.tree[path].(data := PatchedBy(limit, v.state, v.tree[path].data, c))]
    && Raised(path, v, v')
  }

  /** The handle on `path` has served all the calls. */
  ghost predicate Served(limit: int64, path: Path, v: HandleView, v': HandleView, calls: seq<Call>) {
    && path in v.tree && v.tree[path].File? && v'.state == AfterCalls(limit, v.state, calls)
    && v'.tree == v.tree[path := v.tree[path].(data := ContentAfter(limit, v.state, v.tree[path].data, calls))]
    && Raised(path, v, v')
  }

  /** The accounted total moved with the accounted size. */
  ghost predicate Raised(path: Path, v: HandleView, v': HandleView) {
    && 0 <= v'.state.size && v'.accounted == v.accounted[path := v'.state.size]
    && Accounted(v'.tree, v'.accounted) - v'.state.size == Accounted(v.tree, v.accounted) - v.state.size
  }

  lemma ServedNone(limit: int64, path: Path, v: HandleView)
    requires path in v.tree && v.tree[path].File? && 0 <= v.state.size
    requires path in v.accounted && v.accounted[path] == v.state.size
    ensures Served(limit, path, v, v, [])
  {
    assert v.accounted[path := v.state.size] == v.accounted;
    assert v.tree[path := v.tree[path].(data := v.tree[path].data)] == v.tree;
  }

  lemma RaisedTwice(path: Path, v: HandleView, v1: HandleView, v2: HandleView)
    requires Raised(path, v, v1) && Raised(path, v1, v2)
    ensures Raised(path, v, v2)
  {
    assert v2.accounted == v.accounted[path := v2.state.size];
  }

  lemma ContentTwice(t: Tree, path: Path, data1: Bytes, data2: Bytes)
    requires path in t && t[path].File?
    ensures var t1 := t[path := t[path].(data := data1)];
      t1[path := t1[path].(data := data2)] == t[path := t[path].(data := data2)]
  {
  }

  lemma ServedNext(limit: int64, path: Path, v: HandleView, v1: HandleView, v2: HandleView, calls: seq<Call>, i: nat)
    requires i < |calls| && Served(limit, path, v, v1, calls[..i]) && ServedOne(limit, path, v1, v2, calls[i])
    ensures Served(limit, path, v, v2, calls[..i + 1])
  {
    CallsAppend(limit, v.state, calls, i);
    ContentAppend(limit, v.state, v.tree[path].data, calls, i);
    ContentTwice(v.tree, path, v1.tree[path].data, v2.tree[path].data);
    RaisedTwice(path, v, v1, v2);
  }

  /** Between the calls of a session in which nothing was lost, an exact counter stays exact and covers the
      real size of the tree, and a positive limit goes on covering the counter. */
  lemma ServedCovers(limit: int64, path: Path, v: HandleView, v': HandleView, calls: seq<Call>)
    requires Possible(v.state) && Served(limit, path, v, v', calls) && TotalLost(limit, v.state, calls) == 0
    requires forall p :: p in v'.tree && p in v'.accounted ==> Size(v'.tree[p]) <= v'.accounted[p]
    requires v.state.usage == Accounted(v.tree, v.accounted)
    ensures Total(v'.tree) <= Accounted(v'.tree, v'.accounted) == v'.state.usage
    ensures 0 < limit && v.state.usage <= limit as int ==> v'.state.usage <= limit as int
  {
    CallsConserve(limit, v.state, calls);
    TotalAtMostAccounted(v'.tree, v'.accounted);
  }

  class QuotaFile {
    const fs: Filesystem
    const path: Path
    var pos: int64
    var size: int64

    ghost predicate Valid()
      reads this, fs, fs.unixFS
    {
      && fs.Valid()
      && path in fs.unixFS.accounted && fs.unixFS.accounted[path] == size as int
      && 0 <= pos && 0 <= size
    }

    /** Counter, accounted size and position. */
    function State(): HandleState
      reads this, fs, fs.unixFS
    {
      HandleState(fs.unixFS.usage as int, size as int, pos as int)
    }

    ghost function Snapshot(): HandleView
      reads this, fs, fs.unixFS
    {
      HandleView(fs.unixFS.tree, fs.unixFS.accounted, State())
    }

    constructor (fs: Filesystem, path: Path, size: int64)
      requires 0 <= size
      ensures this.fs == fs && this.path == path && this.size == size && pos == 0
    {
      this.fs, this.path, this.pos, this.size := fs, path, 0, size;
    }

    /** The write of the wrapped file: only the tree changes. */
    method DiskWriteAt(chunk: Bytes, off: int64)
      requires fs.Valid() && path in fs.unixFS.accounted && 0 <= off
      requires off as int + |chunk| <= MAX_INT64
      requires chunk != [] ==> off as int + |chunk| <= fs.unixFS.accounted[path]
      modifies fs.unixFS`tree
      ensures fs.Valid()
      ensures Patched(old(fs.unixFS.tree), fs.unixFS.tree, path, off as nat, chunk)
    {
      var node := fs.unixFS.tree[path];
      var node' := node.(data := Patch(node.data, off as nat, chunk));
      PatchIsSound(fs.unixFS.tree, fs.unixFS.accounted, path, node');
      fs.unixFS.tree := fs.unixFS.tree[path := node'];
    }

    /** Reserve the growth, write, account for what was written, refund the rest. The counter, the
        accounted size and the number of bytes are exactly those of AfterWrite. */
    method WriteAtLocked(p: Bytes, off: int64, w: DiskWrite) returns (n: nat, err: Outcome)
      requires Valid() && 0 <= off && 0 < |p| <= MAX_INT64
      modifies this`size, fs.unixFS`tree, fs.unixFS`usage, fs.unixFS`accounted
      ensures Valid()
      ensures (fs.unixFS.usage as int, size as int, n) ==
        AfterWrite(fs.unixFS.limit, old(fs.unixFS.usage) as int, old(size) as int, off as int, |p|, w.accepted)
      ensures fs.unixFS.accounted == old(fs.unixFS.accounted)[path := size as int]
      ensures !Reserves(fs.unixFS.limit, old(fs.unixFS.usage) as int, old(size) as int, off as int, |p|) ==>
        err == Fail(ErrDiskSpace) && fs.unixFS.tree == old(fs.unixFS.tree)
      ensures Reserves(fs.unixFS.limit, old(fs.unixFS.usage) as int, old(size) as int, off as int, |p|) ==>
        && (err.Pass? <==> n == |p| && !w.fails)
        && Patched(old(fs.unixFS.tree), fs.unixFS.tree, path, off as nat, p[..n])
        && (fs.unixFS.usage as int - old(fs.unixFS.usage) as int == size as int - old(size) as int <==>
              FitsCounter(old(fs.unixFS.usage) as int, old(size) as int, off as int, |p|))
    {
      hide Sound, Patched, WellFormed;
      assert fs.unixFS.accounted[path := size as int] == fs.unixFS.accounted;
      ghost var limit, usage0, size0 := fs.unixFS.limit, fs.unixFS.usage as int, size as int;
      if Reserves(limit, usage0, size0, off as int, |p|) {
        ExactIffFits(limit, usage0, size0, off as int, |p|, w.accepted);
      }
      var end := QuotaWriteEnd(off, |p|);
      if end.None? {
        return 0, Fail(ErrDiskSpace);
      }
      var growth := end.value - size;
      if growth > 0 {
        err := ReserveDisk(fs, growth);
        if err.Fail? {
          return 0, err;
        }
      }
      n, err := WriteReserved(p, off, growth, w);
    }

    /** The second half: the reservation is made; write, account, refund. */
    method WriteReserved(p: Bytes, off: int64, growth: int64, w: DiskWrite) returns (n: nat, err: Outcome)
      requires Valid() && 0 <= off && 0 < |p| && off as int + |p| <= MAX_INT64
      requires growth as int == off as int + |p| - size as int
      modifies this`size, fs.unixFS`tree, fs.unixFS`usage, fs.unixFS`accounted
      ensures Valid()
      ensures fs.unixFS.accounted == old(fs.unixFS.accounted)[path := size as int]
      ensures n == Min(|p|, w.accepted) && (err.Pass? <==> n == |p| && !w.fails)
      ensures Patched(old(fs.unixFS.tree), fs.unixFS.tree, path, off as nat, p[..n])
      ensures size as int == GrownTo(old(size) as int, off as int, n)
      ensures growth > 0 ==>
        fs.unixFS.usage as int == Clamp(old(fs.unixFS.usage) as int - growth as int + (size as int - old(size) as int))
      ensures growth <= 0 ==> fs.unixFS.usage == old(fs.unixFS.usage) && size == old(size)
    {
      var previousSize := size;
      n := Min(|p|, w.accepted);
      var writtenEnd := WriteAndAccount(p, off, n);
      err := if n == |p| && !w.fails then Pass else Fail(ErrCopy);
      Refund(previousSize, writtenEnd, growth);
    }

    /** The write takes `n` bytes; the accounted size becomes the largest end written. */
    method WriteAndAccount(p: Bytes, off: int64, n: nat) returns (writtenEnd: int64)
      requires Valid() && 0 <= off && n <= |p| && off as int + |p| <= MAX_INT64
      modifies this`size, fs.unixFS`tree, fs.unixFS`accounted
      ensures Valid()
      ensures fs.unixFS.accounted == old(fs.unixFS.accounted)[path := size as int]
      ensures Patched(old(fs.unixFS.tree), fs.unixFS.tree, path, off as nat, p[..n])
      ensures size as int == GrownTo(old(size) as int, off as int, n)
      ensures writtenEnd as int == if n > 0 then off as int + n else old(size) as int
    {
      ghost var acc := fs.unixFS.accounted;
      var previousSize := size;
      ghost var grown := GrownTo(previousSize as int, off as int, n);
      RaiseIsSound(fs.unixFS.tree, acc, path, grown);
      fs.unixFS.accounted := acc[path := grown];
      DiskWriteAt(p[..n], off);
      writtenEnd := previousSize;
      if n > 0 {
        writtenEnd := QuotaWriteEnd(off, n).value;
        if writtenEnd > previousSize {
          size := writtenEnd;
        }
      }
    }

    /** The refund: the part of the reservation that was not written goes back. */
    method Refund(previousSize: int64, writtenEnd: int64, reserved: int64)
      requires fs.Valid() && 0 <= previousSize && 0 <= writtenEnd
      modifies fs.unixFS`usage
      ensures var actual := Max(0, writtenEnd as int - previousSize as int);
        fs.unixFS.usage as int ==
          if reserved > 0 && actual < reserved as int then Clamp(old(fs.unixFS.usage) as int + actual - reserved as int)
          else old(fs.unixFS.usage) as int
    {
      if reserved > 0 {
        var actual: int64 := 0;
        if writtenEnd > previousSize {
          actual := writtenEnd - previousSize;
        }
        if actual < reserved {
          AdjustDisk(fs, actual - reserved);
        }
      }
    }

    /** What every write keeps: the accounted total moves with the accounted size. */
    method Guarded(p: Bytes, off: int64, w: DiskWrite) returns (n: nat, err: Outcome)
      requires Valid() && 0 <= off && 0 < |p| <= MAX_INT64
      modifies this`size, fs.unixFS`tree, fs.unixFS`usage, fs.unixFS`accounted
      ensures Valid() && n <= |p| && off as int + n <= MAX_INT64
      ensures (fs.unixFS.usage as int, size as int, n) ==
        AfterWrite(fs.unixFS.limit, old(fs.unixFS.usage) as int, old(size) as int, off as int, |p|, w.accepted)
      ensures fs.unixFS.accounted == old(fs.unixFS.accounted)[path := size as int]
      ensures Patched(old(fs.unixFS.tree), fs.unixFS.tree, path, off as nat, p[..n])
      ensures Accounted(fs.unixFS.tree, fs.unixFS.accounted)
           == Accounted(old(fs.unixFS.tree), old(fs.unixFS.accounted)) + (size as int - old(size) as int)
    {
      ghost var t0, acc, size0, usage0, limit := fs.unixFS.tree, fs.unixFS.accounted, size, fs.unixFS.usage, fs.unixFS.limit;
      NothingPatched(t0, path, off as nat);
      WriteConserves(limit, usage0 as int, size0 as int, off as int, |p|, w.accepted);
      n, err := WriteAtLocked(p, off, w);
      assert fs.unixFS.limit == limit;
      if !Reserves(limit, usage0 as int, size0 as int, off as int, |p|) {
        assert p[..n] == [];
      }
      AccountedHandle(t0, acc, path, size as int);
      AccountedHidden(t0, fs.unixFS.accounted, path, fs.unixFS.tree[path]);
    }

    method Write(p: Bytes, w: DiskWrite, seeks: bool) returns (n: nat, err: Outcome)
      requires Valid() && |p| <= MAX_INT64
      modifies this`size, this`pos, fs.unixFS`tree, fs.unixFS`usage, fs.unixFS`accounted
      ensures Valid() && n <= |p|
      ensures State() == AfterCall(fs.unixFS.limit, old(State()), Sequential(p, w, seeks))
      ensures n == WrittenBy(fs.unixFS.limit, old(State()), Sequential(p, w, seeks))
      ensures pos as int == old(pos) as int + n
      ensures fs.unixFS.accounted == old(fs.unixFS.accounted)[path := size as int]
      ensures Patched(old(fs.unixFS.tree), fs.unixFS.tree, path, old(pos) as nat, p[..n])
      ensures Accounted(fs.unixFS.tree, fs.unixFS.accounted)
           == Accounted(old(fs.unixFS.tree), old(fs.unixFS.accounted)) + (size as int - old(size) as int)
    {
      assert fs.unixFS.accounted[path := size as int] == fs.unixFS.accounted;
      NothingPatched(fs.unixFS.tree, path, pos as nat);
      if |p| == 0 || !seeks {
        assert p[..0] == [];
        return 0, if |p| == 0 then Pass else Fail(Sys(EIO));
      }
      n, err := Guarded(p, pos, w);
      pos := pos + n as int64;
    }

    method WriteAt(p: Bytes, off: int64, w: DiskWrite) returns (n: nat, err: Outcome)
      requires Valid() && |p| <= MAX_INT64
      modifies this`size, fs.unixFS`tree, fs.unixFS`usage, fs.unixFS`accounted
      ensures Valid() && n <= |p|
      ensures State() == AfterCall(fs.unixFS.limit, old(State()), Positional(p, off, w))
      ensures n == WrittenBy(fs.unixFS.limit, old(State()), Positional(p, off, w))
      ensures fs.unixFS.accounted == old(fs.unixFS.accounted)[path := size as int]
      ensures off < 0 ==> n == 0 && err.Fail? && fs.unixFS.tree == old(fs.unixFS.tree)
      ensures off >= 0 ==> Patched(old(fs.unixFS.tree), fs.unixFS.tree, path, off as nat, p[..n])
      ensures Accounted(fs.unixFS.tree, fs.unixFS.accounted)
           == Accounted(old(fs.unixFS.tree), old(fs.unixFS.accounted)) + (size as int - old(size) as int)
    {
      assert fs.unixFS.accounted[path := size as int] == fs.unixFS.accounted;
      if off < 0 {
        return 0, Fail(Sys(EINVAL));
      }
      NothingPatched(fs.unixFS.tree, path, off as nat);
      if |p| == 0 {
        assert p[..0] == [];
        return 0, Pass;
      }
      n, err := Guarded(p, off, w);
    }

    /** Settles the ledger with the real size; `stats` and `closes` say whether the final stat and the
        closing of the file succeed. */
    method Close(stats: bool, closes: bool) returns (r: Outcome)
      requires Valid()
      modifies fs.unixFS`usage, fs.unixFS`accounted
      ensures fs.Valid() && fs.unixFS.accounted == old(fs.unixFS.accounted) - {path}
      ensures r.Pass? <==> stats && closes
      ensures stats ==>
        fs.unixFS.usage as int == Clamp(old(fs.unixFS.usage) as int + |fs.unixFS.tree[path].data| - size as int)
      ensures !stats ==> fs.unixFS.usage == old(fs.unixFS.usage)
      ensures Accounted(fs.unixFS.tree, fs.unixFS.accounted)
           == Accounted(fs.unixFS.tree, old(fs.unixFS.accounted)) + |fs.unixFS.tree[path].data| - size as int
      ensures old(fs.unixFS.Balanced()) ==>
        (fs.unixFS.Balanced() <==> (stats || |fs.unixFS.tree[path].data| == size as int))
    {
      ghost var t, acc := fs.unixFS.tree, fs.unixFS.accounted;
      assert Size(t[path]) <= MAX_INT64;
      AccountedRelease(t, acc, path);
      if stats {
        AdjustDisk(fs, |fs.unixFS.tree[path].data| as int64 - size);
      }
      fs.unixFS.accounted := acc - {path};
      r := if stats && closes then Pass else Fail(Sys(EIO));
    }
  }

  /** Filesystem.Touch: opens a handle whose accounted size is the size of the file before. */
  method Touch(fs: Filesystem, p: string, trunc: bool, f: Faults) returns (r: Outcome, h: QuotaFile?)
    requires fs.Valid()
    requires fs.unixFS.Locate(p).At? ==> fs.unixFS.Locate(p).path !in fs.unixFS.accounted
    modifies fs.unixFS`tree, fs.unixFS`accounted
    ensures fs.Valid()
    ensures r.Fail? <==> h == null
    ensures f.stats && f.opens && fs.unixFS.Locate(p).At? && Writable(fs.unixFS.kernel, old(fs.unixFS.tree), fs.unixFS.Locate(p).path) ==> r.Pass?
    ensures r.Fail? ==> OnlyDirsAdded(old(fs.unixFS.tree), fs.unixFS.tree) && fs.unixFS.accounted == old(fs.unixFS.accounted)
    ensures h != null ==>
      && fresh(h) && h.fs == fs && h.Valid()
      && fs.unixFS.Locate(p) == At(h.path)
      && Touched(old(fs.unixFS.tree), fs.unixFS.tree, h.path, trunc, f.ino)
      && OpenedFile(old(fs.unixFS.tree), fs.unixFS.tree, h.path, trunc)
      && h.size as int == FileSize(old(fs.unixFS.tree), h.path) && h.pos == 0
      && fs.unixFS.accounted == old(fs.unixFS.accounted)[h.path := h.size as int]
      && Accounted(fs.unixFS.tree, fs.unixFS.accounted) == Accounted(old(fs.unixFS.tree), old(fs.unixFS.accounted))
  {
    h := null;
    var currentSize: int64 := 0;
    var st := fs.unixFS.Lstat(p);
    var at := fs.unixFS.Locate(p);
    LookedUp(fs.unixFS.kernel, fs.unixFS.tree, at, st);
    if !f.stats {
      return Fail(Sys(EIO)), null;
    }
    if st.NoStat? && st.error != Sys(ENOENT) {
      return Fail(st.error), null;
    }
    fs.unixFS.LocatedNamesAreValid(p);
    ghost var t0, acc := fs.unixFS.tree, fs.unixFS.accounted;
    if st.Stat? && st.node.File? {
      currentSize := |st.node.data| as int64;
    }
    r := fs.unixFS.Touch(p, trunc, f.ino, f.opens);
    if r.Fail? {
      return;
    }
    assert fs.unixFS.accounted == acc;
    TouchedHandle(t0, fs.unixFS.tree, at.path, trunc, f.ino, acc, currentSize as int);
    fs.unixFS.accounted := acc[at.path := currentSize as int];
    h := new QuotaFile(fs, at.path, currentSize);
  }

  /** A handle that drifts: a file with content is truncated by Touch, and the final stat of Close
      fails. The size the file had stays on the counter. */
  method DriftingClose(fs: Filesystem, p: string, f: Faults) returns (r: Outcome)
    requires fs.Valid() && fs.unixFS.Balanced() && fs.unixFS.Locate(p).At?
    requires var q := fs.unixFS.Locate(p).path;
      && q !in fs.unixFS.accounted && FileSize(fs.unixFS.tree, q) > 0
      && Writable(fs.unixFS.kernel, fs.unixFS.tree, q)
    requires f.stats && f.opens
    modifies fs.unixFS`tree, fs.unixFS`usage, fs.unixFS`accounted
    ensures r.Fail? && fs.Valid() && !fs.unixFS.Balanced()
    ensures fs.unixFS.usage as int == Accounted(fs.unixFS.tree, fs.unixFS.accounted)
      + FileSize(old(fs.unixFS.tree), fs.unixFS.Locate(p).path)
  {
    var h;
    r, h := Touch(fs, p, true, f);
    AccountedRelease(fs.unixFS.tree, fs.unixFS.accounted, h.path);
    r := h.Close(false, true);
  }

  lemma TouchedHandle(t: Tree, t': Tree, q: Path, trunc: bool, ino: nat, acc: map<Path, nat>, size: nat)
    requires Sound(t, acc) && Sound(t', acc) && q !in acc && ValidNames(q) && Touched(t, t', q, trunc, ino)
    requires size == FileSize(t, q)
    ensures Sound(t', acc[q := size])
    ensures Accounted(t', acc[q := size]) == Accounted(t, acc)
  {
    var d := WithDirs(t, Parent(q));
    WithDirsMeaning(t, Parent(q));
    DirsWeighNothing(t, d, acc);
    assert t' == d[q := t'[q]];
    assert q !in t ==> q !in d by {
      assert Under(q, Parent(q)) ==> |q| <= |q| - 1;
    }
    AccountedPut(d, acc, q, t'[q]);
    AccountedHandle(t', acc, q, size);
    assert q in t ==> Size(t[q]) <= MAX_INT64;
    HandleIsSound(t', acc, q, size);
  }

  lemma HandleIsSound(t: Tree, acc: map<Path, nat>, q: Path, size: nat)
    requires Sound(t, acc) && q in t && t[q].File? && Size(t[q]) <= size <= MAX_INT64
    ensures Sound(t, acc[q := size])
  {
  }

  lemma NothingPatched(t: Tree, path: Path, off: nat)
    requires path in t && t[path].File?
    ensures Patched(t, t, path, off, [])
  {
    assert t[path := t[path].(data := t[path].data)] == t;
  }

  /** The tree after `chunk` was written into the file at `path`. */
  ghost predicate Patched(t: Tree, t': Tree, path: Path, off: nat, chunk: Bytes) {
    path in t && t[path].File? && t' == t[path := t[path].(data := Patch(t[path].data, off, chunk))]
  }

  lemma PatchIsSound(t: Tree, accounted: map<Path, nat>, path: Path, node: Node)
    requires Sound(t, accounted) && path in accounted && path in t && t[path].File?
    requires node.File? && node == t[path].(data := node.data) && Size(node) <= accounted[path]
    ensures Sound(t[path := node], accounted)
    ensures Accounted(t[path := node], accounted) == Accounted(t, accounted)
  {
    AccountedHidden(t, accounted, path, node);
    assert t[path].nlink == 1;
    forall q | q in t && q != [] ensures Parent(q) in t && t[path := node][Parent(q)].Dir? {
      assert t[Parent(q)].Dir?;
    }
  }

  lemma RaiseIsSound(t: Tree, accounted: map<Path, nat>, path: Path, size: nat)
    requires Sound(t, accounted) && path in accounted && accounted[path] <= size <= MAX_INT64
    ensures Sound(t, accounted[path := size])
    ensures Accounted(t, accounted[path := size]) == Accounted(t, accounted) + size - accounted[path]
  {
    AccountedHandle(t, accounted, path, size);
  }
}
