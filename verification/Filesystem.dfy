/** The server filesystem on top of the quota filesystem: the operations that adjust the ledger by
    hand. Every method states what it does to the tree and to the counter; the lemmas at the end of
    each part say when the counter stays exact. */
module Filesystems {
  import opened Collections
  import opened Int64
  import opened PathText
  import opened FileTree
  import opened Ufs
  import opened CopyNames

  /** A body to be written: the bytes it delivers, and whether it then fails instead of ending. */
  datatype Reader = Reader(data: Bytes, fails: bool)

  /** What the environment decides during one operation: the inode of a new file, whether the first
      stat works (it may fail for other reasons than a missing file), whether the file may be opened,
      how many bytes the disk takes, which ownership changes succeed, and which names a search for a
      free name cannot look up. */
  datatype Faults = Faults(ino: nat, stats: bool, opens: bool, room: nat, chownDirs: bool, chownFile: bool, lost: set<string>)

  /** The number of bytes io.Copy moves from a body limited to `limit` bytes. */
  function CopiedBytes(r: Reader, limit: int64, room: nat): (n: nat)
    ensures n <= |r.data| && n as int <= Max(0, limit as int)
  {
    Min(Min(Max(0, limit as int), |r.data|), room)
  }

  /** Whether io.Copy reports an error: the disk took less than there was, or the body failed before
      the limit was reached. A body that merely ends early is no error. */
  predicate CopyFails(r: Reader, limit: int64, room: nat) {
    var wanted := Min(Max(0, limit as int), |r.data|);
    room < wanted || (wanted < Max(0, limit as int) && r.fails)
  }

  /** A copy stops at the announced size, at the end of the body or when the disk is full, whichever comes
      first. */
  predicate StopsAt(r: Reader, limit: int64, room: nat, n: nat) {
    var size := Max(0, limit as int);
    n <= |r.data| && n <= size && n <= room && (n == |r.data| || n == size || n == room)
  }

  /** Only the announced size or a body that ends well is a success. */
  lemma CopyStops(r: Reader, limit: int64, room: nat)
    ensures var n := CopiedBytes(r, limit, room);
      && StopsAt(r, limit, room, n)
      && (limit != 0 && CopyFails(r, limit, room) <==> !(n == Max(0, limit as int) || (n == |r.data| && !r.fails)))
  {
  }

  function FileSize(t: Tree, p: Path): nat {
    if p in t then Size(t[p]) else 0
  }

  /** A file keeps its inode; a new one gets the inode the kernel picked. */
  function Inode(t: Tree, q: Path, ino: nat): nat {
    if q in t && t[q].File? then t[q].ino else ino
  }

  /** A completed write: the parents exist, and the file holds exactly `data`. */
  ghost predicate Written(t: Tree, t': Tree, d: Path, q: Path, ino: nat, data: Bytes) {
    && q != [] && ValidNames(d) && ValidNames(q) && NoFileOnPath(t, d)
    && var t1 := WithDirs(t, d);
       && NoFileOnPath(t1, Parent(q))
       && (q in t1 ==> q in t && t[q].File?)
       && t' == WithDirs(t1, Parent(q))[q := File(Inode(t, q, ino), 1, data)]
  }

  /** The file at `q` holds exactly `data`; nothing else changed, except that directories may be new. */
  ghost predicate WholeFile(t: Tree, t': Tree, q: Path, data: Bytes) {
    && q in t' && t'[q].File? && t'[q].data == data
    && (forall p :: p in t && p != q ==> p in t' && t'[p] == t[p])
    && (forall p :: p in t' && p !in t && p != q ==> t'[p] == Dir)
  }

  lemma WrittenWhole(t: Tree, t': Tree, d: Path, q: Path, ino: nat, data: Bytes)
    requires WellFormed(t) && Written(t, t', d, q, ino, data)
    ensures WholeFile(t, t', q, data)
  {
    WithDirsMeaning(t, d);
    WithDirsMeaning(WithDirs(t, d), Parent(q));
  }

  /** Old content overwritten from the start, without truncation. */
  function Overwritten(old_: Bytes, data: Bytes): Bytes {
    if |data| < |old_| then data + old_[|data|..] else data
  }

  class Filesystem {
    var unixFS: Quota
    // the denylist matcher, which is not modelled
    const ignored: string -> bool

    ghost predicate Valid()
      reads this, unixFS
    {
      unixFS.Valid()
    }

    constructor (unixFS: Quota, ignored: string -> bool)
      requires unixFS.Valid()
      ensures this.unixFS == unixFS && this.ignored == ignored
    {
      this.unixFS, this.ignored := unixFS, ignored;
    }

    function HasSpaceFor(size: int64): Outcome
      requires -1 <= unixFS.usage
      reads this, unixFS
    {
      SpaceCheck(unixFS.limit, unixFS.usage, size)
    }

    /** Filesystem.mkdirAll: creates the missing directories, then changes their owner. */
    method MkdirAll(p: string, chown: bool) returns (r: Outcome)
      requires Valid()
      modifies unixFS`tree
      ensures Valid() && OnlyDirsAdded(old(unixFS.tree), unixFS.tree)
      ensures Accounted(unixFS.tree, unixFS.accounted) == Accounted(old(unixFS.tree), unixFS.accounted)
      ensures r.Pass? ==>
        && unixFS.Locate(p).At?
        && NoFileOnPath(old(unixFS.tree), unixFS.Locate(p).path)
        && unixFS.tree == WithDirs(old(unixFS.tree), unixFS.Locate(p).path)
      ensures chown && unixFS.Locate(p).At? && !Obstructed(unixFS.kernel, old(unixFS.tree), unixFS.Locate(p).path) ==> r.Pass?
      ensures r != Fail(ErrDiskSpace)
    {
      unixFS.LocatedNamesAreValid(p);
      match unixFS.Locate(p)
      case Nowhere(e) =>
        return Fail(e);
      case At(d) =>
        ghost var t0 := unixFS.tree;
        var created; ghost var reached;
        created, r, reached := unixFS.MkdirAll(PathName(d), d);
        MadeIsSound(t0, unixFS.tree, reached, created, unixFS.accounted);
        if r.Pass? && created != [] && !chown {
          return Fail(ErrChown);
        }
    }

    /** Writes a whole file. `written` is the number of bytes copied, when it came to copying. */
    method Write(p: string, r: Reader, newSize: int64, f: Faults) returns (err: Outcome, ghost written: Option<nat>)
      requires Valid()
      requires unixFS.Locate(p).At? ==> unixFS.Locate(p).path !in unixFS.accounted
      modifies unixFS`tree, unixFS`usage
      ensures Valid()
      ensures written.None? ==>
        err.Fail? && OnlyDirsAdded(old(unixFS.tree), unixFS.tree) && unixFS.usage == old(unixFS.usage)
      ensures written.Some? ==>
        && unixFS.Locate(p).At? && unixFS.Locate(DirOf(p)).At?
        && written.value == CopiedBytes(r, newSize, f.room)
        && Written(old(unixFS.tree), unixFS.tree, unixFS.Locate(DirOf(p)).path, unixFS.Locate(p).path, f.ino, r.data[..written.value])
        && unixFS.usage as int == Clamp(old(unixFS.usage) as int + written.value - CurrentSize(old(unixFS.tree), unixFS.Locate(p)))
        && SpaceFor(unixFS.limit, old(unixFS.usage), newSize, CurrentSize(old(unixFS.tree), unixFS.Locate(p))) == Pass
      ensures err.Pass? <==> written.Some? && f.chownFile && !(newSize != 0 && CopyFails(r, newSize, f.room))
      // what was taken stays; only the announced size or a body that ends well is a success
      ensures written.Some? ==>
        && StopsAt(r, newSize, f.room, written.value)
        && WholeFile(old(unixFS.tree), unixFS.tree, unixFS.Locate(p).path, r.data[..written.value])
      ensures err.Pass? <==>
        && written.Some? && f.chownFile
        && (written.value == Max(0, newSize as int) || (written.value == |r.data| && !r.fails))
      ensures err == Fail(ErrDiskSpace) ==>
        SpaceFor(unixFS.limit, old(unixFS.usage), newSize, CurrentSize(old(unixFS.tree), unixFS.Locate(p))) != Pass
      ensures Unhindered(unixFS.base, unixFS.kernel, old(unixFS.tree), p, f) && err != Fail(ErrDiskSpace) ==> written.Some?
    {
      hide StopsAt, CopyFails, WholeFile, Prepared, Touched, WithDirs, NoFileOnPath, ValidNames;
      CopyStops(r, newSize, f.room);
      var currentSize; ghost var t0, t1 := unixFS.tree, unixFS.tree;
      ghost var limit, usage, size := unixFS.limit, unixFS.usage, CurrentSize(unixFS.tree, unixFS.Locate(p));
      err, currentSize := CheckWrite(p, newSize, f);
      if err.Fail? {
        return err, None;
      }
      assert currentSize as int == size && SpaceFor(limit, usage, newSize, size) == Pass;
      var at := unixFS.Locate(p);
      err, t1 := OpenForWrite(p, at.path, f);
      assert unixFS.limit == limit && unixFS.usage == usage;
      if err.Fail? {
        return err, None;
      }
      err, written := Fill(at.path, r, newSize, currentSize, f, t0, unixFS.Locate(DirOf(p)).path, t1);
      assert unixFS.limit == limit;
      WrittenWhole(t0, unixFS.tree, unixFS.Locate(DirOf(p)).path, at.path, f.ino, r.data[..written.value]);
    }

    /** The first part of Write: the stat and the space check. */
    method CheckWrite(p: string, newSize: int64, f: Faults) returns (err: Outcome, currentSize: int64)
      requires Valid()
      ensures err == Fail(ErrDiskSpace) ==>
        && currentSize as int == CurrentSize(unixFS.tree, unixFS.Locate(p))
        && SpaceCheck(unixFS.limit, unixFS.usage, Minus(newSize, currentSize)) != Pass
      ensures err.Pass? ==>
        && unixFS.Locate(p).At?
        && 0 <= currentSize && currentSize as int == FileSize(unixFS.tree, unixFS.Locate(p).path)
        && SpaceCheck(unixFS.limit, unixFS.usage, Minus(newSize, currentSize)) == Pass
      ensures f.stats && unixFS.Locate(p).At? && Writable(unixFS.kernel, unixFS.tree, unixFS.Locate(p).path) ==>
        err.Pass? || err == Fail(ErrDiskSpace)
    {
      currentSize := 0;
      if !f.stats {
        return Fail(Sys(EIO)), 0;
      }
      var st := unixFS.Lstat(p);
      var at := unixFS.Locate(p);
      LookedUp(unixFS.kernel, unixFS.tree, at, st);
      if st.NoStat? && st.error != Sys(ENOENT) {
        return Fail(st.error), 0;
      }
      if st.Stat? {
        if st.node.Dir? {
          return Fail(ErrTargetIsDirectory), 0;
        }
        currentSize := |st.node.data| as int64;
      }
      err := HasSpaceFor(Minus(newSize, currentSize));
    }

    /** The second part of Write: parent directories, then open with truncation. */
    method OpenForWrite(p: string, q: Path, f: Faults) returns (err: Outcome, ghost t1: Tree)
      requires Valid() && unixFS.Locate(p) == At(q) && q !in unixFS.accounted
      modifies unixFS`tree
      ensures Valid()
      ensures err.Fail? ==> OnlyDirsAdded(old(unixFS.tree), unixFS.tree) && err != Fail(ErrDiskSpace)
      ensures err.Pass? ==>
        && unixFS.Locate(DirOf(p)).At?
        && Prepared(old(unixFS.tree), t1, unixFS.Locate(DirOf(p)).path, q)
        && Touched(t1, unixFS.tree, q, true, f.ino)
      ensures Unhindered(unixFS.base, unixFS.kernel, old(unixFS.tree), p, f) ==> err.Pass?
    {
      unixFS.LocatedNamesAreValid(p);
      unixFS.LocatedNamesAreValid(DirOf(p));
      ghost var t0 := unixFS.tree;
      UnhinderedSteps(unixFS, t0, p, f);
      err := MkdirAll(DirOf(p), f.chownDirs);
      t1 := unixFS.tree;
      if err.Fail? {
        return;
      }
      err := unixFS.Touch(p, true, f.ino, f.opens);
      if err.Fail? {
        AddedTwice(t0, t1, unixFS.tree);
      }
    }

    /** The second half of Write: the file is open and empty; copy the body and settle the ledger. */
    method Fill(q: Path, r: Reader, newSize: int64, currentSize: int64, f: Faults, ghost t0: Tree, ghost d: Path, ghost t1: Tree)
      returns (err: Outcome, ghost written: Option<nat>)
      requires Valid() && q !in unixFS.accounted && 0 <= currentSize
      requires Sound(t0, unixFS.accounted) && Prepared(t0, t1, d, q)
      requires Touched(t1, unixFS.tree, q, true, f.ino)
      modifies unixFS`tree, unixFS`usage
      ensures Valid()
      ensures written == Some(CopiedBytes(r, newSize, f.room))
      ensures Written(t0, unixFS.tree, d, q, f.ino, r.data[..written.value])
      ensures unixFS.usage as int == Clamp(old(unixFS.usage) as int + written.value - currentSize as int)
      ensures err == if !f.chownFile then Fail(ErrChown)
        else if newSize != 0 && CopyFails(r, newSize, f.room) then Fail(ErrCopy) else Pass
    {
      ghost var data := r.data[..CopiedBytes(r, newSize, f.room)];
      FillTouched(t0, t1, unixFS.tree, q, f.ino, data, d, unixFS.accounted);
      err := Pass;
      if newSize == 0 {
        var _ := unixFS.Add(-currentSize);
        assert unixFS.tree[q := unixFS.tree[q].(data := data)] == unixFS.tree;
      } else {
        var n := CopiedBytes(r, newSize, f.room);
        unixFS.tree := unixFS.tree[q := unixFS.tree[q].(data := r.data[..n])];
        if CopyFails(r, newSize, f.room) {
          err := Fail(ErrCopy);
        }
        var _ := unixFS.Add(n as int64 - currentSize);
      }
      written := Some(|data|);
      if !f.chownFile {
        err := Fail(ErrChown);
      }
    }

    /** Copies a file next to itself. `copied` is the path of the copy and the number of bytes, when
        it came to copying. */
    method Copy(p: string, stamp: string, f: Faults) returns (err: Outcome, ghost copied: Option<(Path, nat)>)
      requires Valid() && '/' !in stamp
      requires unixFS.Locate(p).At? && unixFS.Locate(p).path != [] ==>
        FallbackPath(unixFS.Locate(p).path, stamp) !in unixFS.accounted
      modifies unixFS`tree, unixFS`usage
      ensures Valid()
      ensures copied.None? ==> err.Fail? && unixFS.tree == old(unixFS.tree) && unixFS.usage == old(unixFS.usage)
      ensures copied.Some? ==>
        && unixFS.Locate(p).At?
        && CopiedTo(old(unixFS.tree), unixFS.tree, unixFS.Locate(p).path, copied.value.0, copied.value.1, stamp, f)
        && unixFS.usage as int == Clamp(old(unixFS.usage) as int + copied.value.1)
        && SpaceFor(unixFS.limit, old(unixFS.usage), Size(old(unixFS.tree)[unixFS.Locate(p).path]) as int64, 0) == Pass
      ensures err.Pass? <==> (copied.Some? && f.chownFile
        && copied.value.1 == Size(old(unixFS.tree)[unixFS.Locate(p).path]))
      ensures unixFS.Locate(p).At? && Copyable(unixFS.kernel, unixFS.limit, old(unixFS.tree), old(unixFS.usage), unixFS.Locate(p).path, stamp, f) ==>
        copied.Some?
    {
      copied := None;
      if !f.stats {
        return Fail(Sys(EIO)), None;
      }
      unixFS.LocatedNamesAreValid(p);
      var at := unixFS.Locate(p);
      if at.Nowhere? {
        return Fail(at.error), None;
      }
      var source := unixFS.StatAt(at.path);
      StatSeesSize(unixFS.kernel, unixFS.tree, at);
      if source.NoStat? {
        return Fail(source.error), None;
      }
      if source.node.Dir? {
        return Fail(Sys(ENOENT)), None;
      }
      assert Size(unixFS.tree[at.path]) <= MAX_INT64;
      var currentSize := |source.node.data| as int64;
      err := HasSpaceFor(currentSize);
      if err.Fail? {
        return;
      }
      err, copied := CopyFile(at.path, source.node.data, stamp, f);
    }

    /** The second half of Copy: choose a name, open the target without truncating it, copy. */
    method CopyFile(o: Path, source: Bytes, stamp: string, f: Faults) returns (err: Outcome, ghost copied: Option<(Path, nat)>)
      requires Valid() && '/' !in stamp
      requires ValidNames(o) && o != [] && o in unixFS.tree && unixFS.tree[o].File? && source == unixFS.tree[o].data
      requires FallbackPath(o, stamp) !in unixFS.accounted
      modifies unixFS`tree, unixFS`usage
      ensures Valid()
      ensures copied.None? ==> err.Fail? && unixFS.tree == old(unixFS.tree) && unixFS.usage == old(unixFS.usage)
      ensures copied.Some? ==>
        && CopiedTo(old(unixFS.tree), unixFS.tree, o, copied.value.0, copied.value.1, stamp, f)
        && unixFS.usage as int == Clamp(old(unixFS.usage) as int + copied.value.1)
      ensures err.Pass? <==> copied.Some? && f.chownFile && copied.value.1 == |source|
      ensures f.opens && NamesFree(unixFS.kernel, old(unixFS.tree), o, stamp, f) ==> copied.Some?
      ensures err != Fail(ErrDiskSpace)
    {
      var dir, base := Parent(o), o[|o| - 1];
      var (stem, extension) := Stem(base);
      var found := FindCopySuffix(unixFS.tree, dir, stem, extension, stamp, f.lost);
      if found.None? {
        return Fail(Sys(EIO)), None;
      }
      var newName := found.value;
      var q := dir + [newName];
      CopyTarget(unixFS.tree, unixFS.accounted, o, newName, stamp);
      if !f.opens || (q in unixFS.tree && unixFS.tree[q].Dir?) {
        return Fail(Sys(if f.opens then EISDIR else EACCES)), None;
      }
      if q !in unixFS.tree && q in unixFS.kernel.createRefused {
        return Fail(Sys(unixFS.kernel.createRefused[q])), None;
      }
      assert Size(unixFS.tree[o]) <= MAX_INT64;
      var n: nat := if f.room < |source| then f.room else |source|;
      CopyIsSound(unixFS.tree, unixFS.accounted, q, source[..n], f.ino);
      unixFS.tree := unixFS.tree[q := CopyOf(unixFS.tree, q, source[..n], f.ino)];
      var _ := unixFS.Add(n as int64);
      err := if !f.chownFile then Fail(ErrChown) else if n < |source| then Fail(ErrCopy) else Pass;
      copied := Some((q, n));
    }

    /** Deletes everything and starts over with an empty directory and a zero counter. `refused` are the
        entries that cannot be removed; `makes` and `reopens` say whether the base directory can be made
        again and opened. After a failure the counter is as before, whatever is left. */
    method TruncateRootDirectory(refused: set<Path>, makes: bool, reopens: bool) returns (r: Outcome)
      requires Valid() && unixFS.accounted == map[]
      modifies this, unixFS`tree
      ensures Valid() && unixFS.accounted == map[] && unixFS.limit == old(unixFS.limit)
      ensures unixFS.base == old(unixFS.base) && unixFS.kernel == old(unixFS.kernel)
      ensures r.Pass? <==> refused !! old(unixFS.tree).Keys && makes && reopens
      ensures r.Pass? ==> fresh(unixFS) && unixFS.tree == map[[] := Dir] && unixFS.usage == 0 && unixFS.Balanced()
      ensures r.Fail? ==> unixFS == old(unixFS) && unixFS.usage == old(unixFS.usage)
      ensures r.Fail? ==>
        unixFS.tree == if refused !! old(unixFS.tree).Keys then map[[] := Dir] else Remains(old(unixFS.tree), refused)
    {
      if !(refused !! unixFS.tree.Keys) {
        RemainsIsSound(unixFS.tree, refused);
        unixFS.tree := Remains(unixFS.tree, refused);
        return Fail(Sys(EACCES));
      }
      EmptyTotal();
      unixFS.tree := map[[] := Dir];
      if !makes || !reopens {
        return Fail(Sys(EIO));
      }
      var limit := unixFS.limit;
      unixFS := new Quota(unixFS.base, unixFS.kernel, limit);
      return Pass;
    }
  }

  /** What os.RemoveAll leaves when the entries `refused` cannot be removed: those that are there, and
      everything above them. */
  function Remains(t: Tree, refused: set<Path>): Tree {
    map p | p in t && Stays(t, refused, p) :: t[p]
  }

  predicate Stays(t: Tree, refused: set<Path>, p: Path) {
    exists r :: r in refused && r in t && Under(p, r)
  }

  lemma RemainsIsSound(t: Tree, refused: set<Path>)
    requires Sound(t, map[]) && !(refused !! t.Keys)
    ensures Sound(Remains(t, refused), map[])
  {
    var s := Remains(t, refused);
    var r :| r in refused && r in t.Keys;
    assert Under([], r) && Stays(t, refused, []);
    forall p | p in s && p != [] ensures Parent(p) in s && s[Parent(p)].Dir? {
      var q :| q in refused && q in t && Under(p, q);
      assert Under(Parent(p), q) by {
        assert q[..|p|] == p && Parent(p) == q[..|p| - 1];
      }
      assert Stays(t, refused, Parent(p));
    }
  }

  function FallbackPath(o: Path, stamp: string): Path
    requires o != []
  {
    var (stem, ext) := Stem(o[|o| - 1]);
    Parent(o) + [stem + ("copy." + stamp) + ext]
  }

  ghost predicate NoDirAt(t: Tree, q: Path) {
    q in t ==> t[q].File?
  }

  /** A file that can be copied: it can be found, there is space, and the target can be opened. */
  ghost predicate Copyable(k: Kernel, limit: int64, t: Tree, usage: int64, o: Path, stamp: string, f: Faults) {
    && StatOf(k, t, o).Stat? && StatOf(k, t, o).node.File? && o in t && o != []
    && 0 <= usage && SpaceFor(limit, usage, Clamp(Size(t[o])) as int64, 0) == Pass
    && f.stats && f.opens && NamesFree(k, t, o, stamp, f)
  }

  /** Every candidate name can be looked up and opened. */
  ghost predicate NamesFree(k: Kernel, t: Tree, o: Path, stamp: string, f: Faults)
    requires o != []
  {
    var (stem, ext) := Stem(o[|o| - 1]);
    && FallbackPath(o, stamp) !in k.createRefused && NoDirAt(t, FallbackPath(o, stamp))
    && forall i :: 0 <= i <= 50 ==>
         stem + CopySuffix(i) + ext !in f.lost && Parent(o) + [stem + CopySuffix(i) + ext] !in k.createRefused
  }

  /** In an environment that refuses nothing, a file can be copied if and only if there is space for it and
      no directory has the name of last resort. */
  lemma NothingKeepsFromCopying(limit: int64, t: Tree, usage: int64, o: Path, stamp: string, f: Faults)
    requires WellFormed(t) && o in t && t[o].File? && 0 <= usage && f.stats && f.opens && f.lost == {}
    ensures Copyable(OBLIGING, limit, t, usage, o, stamp, f) <==>
      SpaceFor(limit, usage, Clamp(Size(t[o])) as int64, 0) == Pass && NoDirAt(t, FallbackPath(o, stamp))
  {
    SourceOpens(OBLIGING, t, o);
    ResolveMeaning(t, o);
  }

  /** The content of the target of a copy: opened without truncation. */
  function CopyOf(t: Tree, q: Path, data: Bytes, ino: nat): Node {
    if q in t && t[q].File? then t[q].(data := Overwritten(t[q].data, data)) else File(ino, 1, data)
  }

  /** A completed copy of `o` to its sibling `q`. */
  ghost predicate CopiedTo(t: Tree, t': Tree, o: Path, q: Path, n: nat, stamp: string, f: Faults) {
    && o != [] && q != [] && Parent(q) == Parent(o)
    && o in t && t[o].File? && (q in t ==> t[q].File?)
    && IsCopyName(t, Parent(o), Stem(o[|o| - 1]).0, Stem(o[|o| - 1]).1, stamp, q[|q| - 1])
    && n == Min(f.room, |t[o].data|)
    && t' == t[q := CopyOf(t, q, t[o].data[..n], f.ino)]
  }

  /** The copy begins with the bytes that were copied, an old target keeps its tail, and nothing else
      changed. */
  ghost predicate CopiedOver(t: Tree, t': Tree, o: Path, q: Path, n: nat) {
    && o in t && t[o].File? && n <= |t[o].data| && q in t' && t'[q].File?
    && |t'[q].data| == (if q in t then Max(n, Size(t[q])) else n)
    && t'[q].data[..n] == t[o].data[..n]
    && (forall i :: n <= i < |t'[q].data| ==> q in t && i < Size(t[q]) && t'[q].data[i] == t[q].data[i])
    && (forall p :: p != q ==> (p in t' <==> p in t) && (p in t ==> t'[p] == t[p]))
  }

  lemma CopyContent(t: Tree, t': Tree, o: Path, q: Path, n: nat, stamp: string, f: Faults)
    requires CopiedTo(t, t', o, q, n, stamp, f)
    ensures CopiedOver(t, t', o, q, n)
  {
    hide IsCopyName;
  }

  /** Where copies land: of "s.e" at "s copy.e", of "s.tar.e" at "s copy.tar.e", and of a name without a
      dot at the name with " copy" after it. */
  lemma CopyLands(t: Tree, t': Tree, o: Path, q: Path, n: nat, stamp: string, f: Faults, s: string, e: string)
    requires CopiedTo(t, t', o, q, n, stamp, f) && '.' !in e
    ensures o[|o| - 1] == s + "." + e && !EndsInTar(s) ==> LandsFirst(t, o, q, s, "." + e)
    ensures o[|o| - 1] == s + ".tar." + e ==> LandsFirst(t, o, q, s, ".tar." + e)
    ensures o[|o| - 1] == e ==> LandsFirst(t, o, q, e, "")
  {
    StemOf(s, e);
    var (stem, ext) := Stem(o[|o| - 1]);
    CopyLandsFirst(t, o, q, stem, ext, stamp);
  }

  lemma CopyLandsFirst(t: Tree, o: Path, q: Path, stem: string, ext: string, stamp: string)
    requires o != [] && q != [] && Parent(q) == Parent(o)
    requires IsCopyName(t, Parent(o), stem, ext, stamp, q[|q| - 1])
    ensures LandsFirst(t, o, q, stem, ext)
  {
    assert q == Parent(q) + [q[|q| - 1]];
    assert CopySuffix(0) == " copy";
    assert CopySuffix(1) == " copy 1" by { assert Itoa(1) == "1"; }
    if Parent(o) + [stem + " copy" + ext] !in t {
      LowestIsChosen(t, Parent(o), stem, ext, stamp, q[|q| - 1], 0);
    } else if Parent(o) + [stem + " copy 1" + ext] !in t {
      LowestIsChosen(t, Parent(o), stem, ext, stamp, q[|q| - 1], 1);
    }
  }

  /** When " copy" is free, the copy takes it; when it is taken and " copy 1" is free, that one. */
  ghost predicate LandsFirst(t: Tree, o: Path, q: Path, stem: string, ext: string)
    requires o != []
  {
    var first, second := Parent(o) + [stem + " copy" + ext], Parent(o) + [stem + " copy 1" + ext];
    (first !in t ==> q == first) && (first in t && second !in t ==> q == second)
  }

  lemma CopyTarget(t: Tree, accounted: map<Path, nat>, o: Path, name: string, stamp: string)
    requires Sound(t, accounted) && o != [] && o in t && '/' !in stamp && FallbackPath(o, stamp) !in accounted
    requires IsCopyName(t, Parent(o), Stem(o[|o| - 1]).0, Stem(o[|o| - 1]).1, stamp, name)
    ensures var q := Parent(o) + [name];
      q != [] && q !in accounted && ValidNames(q) && Parent(q) == Parent(o) && q[|q| - 1] == name
    ensures Parent(o) in t && t[Parent(o)].Dir?
  {
    assert ValidNames(o) && ValidName(o[|o| - 1]);
    ChosenNameIsValid(t, Parent(o), o[|o| - 1], stamp, name);
  }

  lemma CopyIsSound(t: Tree, accounted: map<Path, nat>, q: Path, data: Bytes, ino: nat)
    requires Sound(t, accounted) && q != [] && q !in accounted && ValidNames(q) && |data| <= MAX_INT64
    requires Parent(q) in t && t[Parent(q)].Dir? && (q in t ==> t[q].File?)
    ensures Sound(t[q := CopyOf(t, q, data, ino)], accounted)
  {
    assert q in t ==> t[q].nlink == 1 && Size(t[q]) <= MAX_INT64;
    PutFile(t, q, CopyOf(t, q, data, ino), accounted);
  }

  /** The size of the file a path leads to, zero when there is none. */
  ghost function CurrentSize(t: Tree, at: Located): nat {
    match at
    case Nowhere(_) => 0
    case At(q) => FileSize(t, q)
  }

  /** The check Write makes before it touches anything. */
  ghost function SpaceFor(limit: int64, usage: int64, newSize: int64, currentSize: nat): Outcome
    requires 0 <= usage
  {
    if currentSize <= MAX_INT64 then SpaceCheck(limit, usage, Minus(newSize, currentSize as int64)) else Fail(ErrDiskSpace)
  }

  /** The check of a write compares the true sum with the limit, counting only the growth of the file. */
  lemma SpaceForMeaning(limit: int64, usage: int64, newSize: int64, currentSize: nat)
    requires 0 <= usage && 0 <= newSize && currentSize <= MAX_INT64
    ensures SpaceFor(limit, usage, newSize, currentSize) == Pass <==>
      limit != -1 && (limit == 0 || newSize as int <= currentSize || usage as int + newSize as int - currentSize <= limit as int)
    ensures SpaceFor(limit, usage, newSize, currentSize) in {Pass, Fail(ErrDiskSpace)}
  {
  }

  function SpaceCheck(limit: int64, usage: int64, size: int64): Outcome
    requires -1 <= usage
  {
    if Fits(limit, usage, size) then Pass else Fail(ErrDiskSpace)
  }

  /** A write that only the space check can stop: the path and its parent text agree, nothing is in
      the way, and the environment grants every call up to the copying. */
  ghost predicate Unhindered(base: string, k: Kernel, t: Tree, p: string, f: Faults) {
    && f.stats && f.opens && f.chownDirs
    && LocateIn(base, p).At? && Writable(k, t, LocateIn(base, p).path)
    && LocateIn(base, DirOf(p)) == At(Parent(LocateIn(base, p).path))
  }

  lemma UnhinderedSteps(u: Quota, t: Tree, p: string, f: Faults)
    requires WellFormed(t) && (u.Locate(p).At? ==> ValidNames(u.Locate(p).path))
    ensures Unhindered(u.base, u.kernel, t, p, f) ==>
      var q := u.Locate(p).path;
      && !Obstructed(u.kernel, t, Parent(q))
      && StatOf(u.kernel, t, q) == (if q in t then Stat(t[q]) else NoStat(Sys(ENOENT)))
      && (q in t ==> t[q].File?)
      && Writable(u.kernel, WithDirs(t, Parent(q)), q)
  {
    if Unhindered(u.base, u.kernel, t, p, f) {
      WritableParent(u.kernel, t, u.Locate(p).path);
      StillWritable(u.kernel, t, u.Locate(p).path);
    }
  }

  /** The parent directory text of a write led to `d`, which exists now. */
  ghost predicate Prepared(t: Tree, t1: Tree, d: Path, q: Path) {
    && ValidNames(d) && ValidNames(q)
    && NoFileOnPath(t, d) && t1 == WithDirs(t, d) && OnlyDirsAdded(t, t1)
  }

  /** What the stat of a path tells: the size of what is there, and that it can be written only if it is
      a file or missing. */
  lemma LookedUp(k: Kernel, t: Tree, at: Located, st: StatResult)
    requires WellFormed(t) && SizesFit(t)
    requires st == match at { case Nowhere(e) => NoStat(e) case At(q) => StatOf(k, t, q) }
    requires at.Nowhere? ==> at.error == ErrBadPath
    ensures st.Stat? ==> at.At? && at.path in t && st.node == t[at.path] && CurrentSize(t, at) == Size(st.node) <= MAX_INT64
    ensures st == NoStat(Sys(ENOENT)) ==> at.At? && CurrentSize(t, at) == 0
    ensures at.At? && Writable(k, t, at.path) ==> st == NoStat(Sys(ENOENT)) || (st.Stat? && st.node.File?)
  {
    StatSeesSize(k, t, at);
    if at.At? {
      WritableParent(k, t, at.path);
      assert at.path in t ==> Size(t[at.path]) <= MAX_INT64;
    }
  }

  lemma StatSeesSize(k: Kernel, t: Tree, at: Located)
    requires WellFormed(t)
    ensures at.At? ==> var s := StatOf(k, t, at.path);
      && (s.Stat? ==> at.path in t && s.node == t[at.path])
      && (s == NoStat(Sys(ENOENT)) ==> at.path !in t)
  {
    if at.At? {
      ResolveMeaning(t, at.path);
      if |at.path| > 1 {
        ResolveMeaning(t, Parent(at.path));
      }
    }
  }

  lemma AddedTwice(t: Tree, t1: Tree, t2: Tree)
    requires OnlyDirsAdded(t, t1) && OnlyDirsAdded(t1, t2)
    ensures OnlyDirsAdded(t, t2)
  {
  }

  lemma FillTouched(t: Tree, t1: Tree, t2: Tree, q: Path, ino: nat, data: Bytes, d: Path, accounted: map<Path, nat>)
    requires WellFormed(t) && NoHardLinks(t) && Prepared(t, t1, d, q)
    requires Touched(t1, t2, q, true, ino) && Sound(t2, accounted) && q !in accounted && |data| <= MAX_INT64
    ensures q in t2 && t2[q].File?
    ensures Written(t, t2[q := t2[q].(data := data)], d, q, ino, data)
    ensures Sound(t2[q := t2[q].(data := data)], accounted)
    ensures t2[q].data == []
  {
    assert t2[q := t2[q].(data := data)] == WithDirs(t1, Parent(q))[q := File(Inode(t, q, ino), 1, data)];
    WithDirsMeaning(t1, Parent(q));
    assert Parent(q) in t2 && t2[Parent(q)].Dir?;
    PutFile(t2, q, t2[q].(data := data), accounted);
  }
}
