/** The quota filesystem of the `ufs` package: the tree, the system calls on it, and the usage
    counter that stands in for walking the tree. */
module Ufs {
  import opened Collections
  import opened Int64
  import opened Sums
  import opened PathText
  import opened FileTree

  datatype Errno = ENOENT | EEXIST | ENOTDIR | EISDIR | ENOTEMPTY | EINVAL | EPERM | EACCES | EIO

  /** The refusals a system call can answer with for reasons outside the tree; EIO stands for every
      errno the code does not single out. */
  type Refusal = e: Errno | e.EPERM? || e.EACCES? || e.EIO? witness EPERM

  /** The stable environment: which entries refuse to be unlinked, removed or created, and which
      directories cannot be opened or listed. */
  datatype Kernel = Kernel(
    unlinkRefused: map<Path, Refusal>,
    rmdirRefused: map<Path, Refusal>,
    createRefused: map<Path, Refusal>,
    unopenable: set<Path>,
    unreadable: set<Path>)

  datatype FsError =
    | Sys(errno: Errno)
    | ErrBadPath
    | ErrDiskSpace
    | ErrTargetIsDirectory
    | ErrCopy
    | ErrChown

  datatype Outcome = Pass | Fail(error: FsError)

  /** The `switch` of Add: the counter value that replaces `usage`. Written with 64-bit operations
      only, so that no intermediate result can overflow. */
  function NextUsage(usage: int64, i: int64): (next: int64)
    requires 0 <= usage
    ensures next as int == Clamp(usage as int + i as int)
  {
    if i > 0 then
      if usage > 0x7FFF_FFFF_FFFF_FFFF - i then 0x7FFF_FFFF_FFFF_FFFF else usage + i
    else if i < 0 then
      if i == -0x8000_0000_0000_0000 then 0
      else if usage <= -i then 0
      else usage + i
    else usage
  }

  /** CanFit: whether `size` more bytes are allowed with the given limit and usage. No subtraction in
      it can overflow, and for a positive limit it is the comparison of the true sum. */
  predicate Fits(limit: int64, usage: int64, size: int64): (fits: bool)
    requires -1 <= usage
    ensures fits <==>
      && limit != -1
      && (limit == 0 || usage == -1 || size <= 0 || usage as int + size as int <= limit as int)
  {
    if limit == -1 then false
    else if limit == 0 then true
    else if usage == -1 then true
    else if size <= 0 then true
    else if usage >= limit then false
    else size <= limit - usage
  }

  predicate HasChild(t: Tree, p: Path) {
    exists q :: q in t && q != [] && Parent(q) == p
  }

  /** What unlinkat answers for an entry; None means the entry is gone afterwards. */
  function UnlinkErrno(k: Kernel, t: Tree, p: Path, removeDir: bool): Option<Errno> {
    match Resolve(t, p)
    case Missing => Some(ENOENT)
    case NotDirectory => Some(ENOTDIR)
    case Found(node) =>
      if removeDir then
        if node.File? then Some(ENOTDIR)
        else if p == [] then Some(EINVAL)
        else if p in k.rmdirRefused then Some(k.rmdirRefused[p])
        else if HasChild(t, p) then Some(ENOTEMPTY)
        else None
      else
        if p in k.unlinkRefused then Some(k.unlinkRefused[p])
        else if node.Dir? then Some(EISDIR)
        else None
  }

  /** What opening the parent directory of `p` answers. */
  function OpenParent(k: Kernel, t: Tree, p: Path): Option<Errno> {
    if |p| <= 1 then None else
      match Resolve(t, Parent(p))
      case Missing => Some(ENOENT)
      case NotDirectory => Some(ENOTDIR)
      case Found(File(_, _, _)) => Some(ENOTDIR)
      case Found(Dir) => if Parent(p) in k.unopenable then Some(EACCES) else None
  }

  datatype Located = At(path: Path) | Nowhere(error: FsError)

  /** Where a path leads in the sandbox at `base`. */
  function LocateIn(base: string, name: string): Located {
    match UnsafePath(base, name)
    case Inside(n) => At(Names(n))
    case BadPathResolution => Nowhere(ErrBadPath)
  }

  datatype StatResult = Stat(node: Node) | NoStat(error: FsError)

  predicate IsDirectory(s: StatResult) {
    s.Stat? && s.node.Dir?
  }

  function StatOf(k: Kernel, t: Tree, p: Path): StatResult {
    match OpenParent(k, t, p)
    case Some(e) => NoStat(Sys(e))
    case None =>
      match Resolve(t, p)
      case Found(n) => Stat(n)
      case Missing => NoStat(Sys(ENOENT))
      case NotDirectory => NoStat(Sys(ENOTDIR))
  }

  /** What opening an entry for reading answers. */
  function OpenAt(k: Kernel, t: Tree, p: Path): Option<FsError> {
    match StatOf(k, t, p)
    case NoStat(e) => Some(e)
    case Stat(n) => if n.Dir? && p in k.unopenable then Some(Sys(EACCES)) else None
  }

  /** What mkdirat answers; None means the directory was created. */
  function MkdirErrno(k: Kernel, t: Tree, p: Path): Option<Errno> {
    match OpenParent(k, t, p)
    case Some(e) => Some(e)
    case None =>
      match Resolve(t, p)
      case Found(_) => Some(EEXIST)
      case NotDirectory => Some(ENOTDIR)
      case Missing => if p in k.createRefused then Some(k.createRefused[p]) else None
  }

  /** Why a directory `d` cannot be made: a file on the way, a refusal, or a directory on the way
      that cannot be opened. */
  ghost predicate Obstructed(k: Kernel, t: Tree, d: Path) {
    exists j :: 0 <= j <= |d| && ObstructedAt(k, t, d, j)
  }

  ghost predicate ObstructedAt(k: Kernel, t: Tree, d: Path, j: nat)
    requires j <= |d|
  {
    var p := d[..j];
    || (p in t && t[p].File?)
    || (p !in t && p in k.createRefused)
    || (0 < j < |d| && p in k.unopenable)
  }

  lemma ObstructedParent(k: Kernel, t: Tree, d: Path)
    requires d != []
    ensures Obstructed(k, t, Parent(d)) ==> Obstructed(k, t, d)
  {
    var q := Parent(d);
    if Obstructed(k, t, q) {
      var j :| 0 <= j <= |q| && ObstructedAt(k, t, q, j);
      assert q[..j] == d[..j];
      assert ObstructedAt(k, t, d, j);
    }
  }

  /** The result of mkdirAll: the directories along `reached` exist now, `created` names exactly the
      ones that did not before, shallowest first. */
  ghost predicate Made(t: Tree, t': Tree, reached: Path, created: seq<string>) {
    && NoFileOnPath(t, reached)
    && t' == WithDirs(t, reached)
    && created == TextOf(MissingPrefixes(t, reached))
  }

  ghost function TextOf(ps: seq<Path>): seq<string> {
    seq(|ps|, i requires 0 <= i < |ps| => PathName(ps[i]))
  }

  lemma TextOfAppend(ps: seq<Path>, p: Path)
    ensures TextOf(ps + [p]) == TextOf(ps) + [PathName(p)]
  {
  }

  lemma MadeNothing(t: Tree, d: Path)
    requires WellFormed(t) && d in t && t[d].Dir?
    ensures Made(t, t, d, [])
  {
    forall j | 0 <= j <= |d| && d[..j] in t ensures t[d[..j]].Dir? {
      PrefixInTree(t, d, j);
      assert d[..|d|] == d;
    }
  }

  lemma MadeOneMore(t: Tree, t1: Tree, d: Path, created: seq<string>)
    requires WellFormed(t) && ValidNames(d) && d != [] && d !in t1
    requires Made(t, t1, Parent(d), created)
    ensures Made(t, t1[d := Dir], d, created + [PathName(d)])
  {
    WithDirsMeaning(t, Parent(d));
    forall j | 0 <= j <= |d| && d[..j] in t ensures t[d[..j]].Dir? {
      assert d[..|d|] == d;
      if j < |d| { assert d[..j] == Parent(d)[..j]; }
    }
    TextOfAppend(MissingPrefixes(t, Parent(d)), d);
  }

  /** Why the two system calls for one directory can fail. */
  lemma MkdirObstacle(k: Kernel, t: Tree, t1: Tree, d: Path, created: seq<string>)
    requires WellFormed(t) && ValidNames(d) && d != []
    requires Made(t, t1, Parent(d), created)
    ensures !StatOf(k, t, d).Stat? && MkdirErrno(k, t1, d).Some? ==> Obstructed(k, t, d)
    ensures !StatOf(k, t, d).Stat? && MkdirErrno(k, t1, d).None? ==> d !in t1
    ensures !StatOf(k, t, d).Stat? ==> !StatOf(k, t1, d).Stat?
  {
    var q := Parent(d);
    WithDirsMeaning(t, q);
    ResolveMeaning(t, d);
    ResolveMeaning(t1, d);
    ResolveMeaning(t, q);
    ResolveMeaning(t1, q);
    assert q == d[..|q|] && d == d[..|d|];
    if q in k.unopenable && q != [] {
      assert ObstructedAt(k, t, d, |q|);
    }
    if d in t1 {
      assert !Under(d, q);
      assert d in t;
    }
    if d !in t && d in k.createRefused {
      assert ObstructedAt(k, t, d, |d|);
    }
  }

  /** A possible state of the tree and of the open handles: one link per file, sizes that fit, and
      no handle accounting less than what is on disk. */
  ghost predicate Sound(t: Tree, accounted: map<Path, nat>) {
    && WellFormed(t) && NoHardLinks(t) && SizesFit(t)
    && (forall p :: p in accounted ==>
          p in t && t[p].File? && Size(t[p]) <= accounted[p] <= MAX_INT64)
  }

  class Quota {
    const base: string
    const kernel: Kernel
    var tree: Tree
    var limit: int64
    var usage: int64
    // the sizes accounted by the open quota handles, by path
    ghost var accounted: map<Path, nat>

    ghost predicate Valid()
      reads this
    {
      ValidBase(base) && [] !in kernel.unopenable && Sound(tree, accounted) && 0 <= usage
    }

    /** The ledger is exact: the counter is the total size of the tree, files with an open handle
        counting with the size their handle has accounted. */
    ghost predicate Balanced()
      reads this
    {
      usage as int == Accounted(tree, accounted)
    }

    constructor (base: string, kernel: Kernel, limit: int64)
      requires ValidBase(base) && [] !in kernel.unopenable
      ensures Valid() && Balanced() && tree == map[[] := Dir] && usage == 0 && accounted == map[]
      ensures this.base == base && this.kernel == kernel && this.limit == limit
    {
      this.base, this.kernel, this.limit := base, kernel, limit;
      tree, usage, accounted := map[[] := Dir], 0, map[];
      new;
      EmptyTotal();
    }

    /** The atomic instruction Add retries on. */
    method CompareAndSwap(seen: int64, next: int64) returns (swapped: bool)
      modifies this`usage
      ensures swapped <==> old(usage) == seen
      ensures usage == if swapped then next else old(usage)
    {
      swapped := usage == seen;
      if swapped {
        usage := next;
      }
    }

    /** Adds to the counter, saturating at both ends. Without interference the first swap succeeds;
        the interleaved form is in module AddRace. */
    method Add(i: int64) returns (r: int64)
      requires 0 <= usage
      modifies this`usage
      ensures usage as int == Clamp(old(usage) as int + i as int)
      ensures r == usage
    {
      var done := false;
      r := 0;
      while !done
        invariant !done ==> usage == old(usage)
        invariant done ==> usage as int == Clamp(old(usage) as int + i as int) && r == usage
        decreases !done
      {
        var seen := usage;
        if i == 0 {
          return seen;
        }
        var next := NextUsage(seen, i);
        done := CompareAndSwap(seen, next);
        r := next;
      }
    }

    predicate CanFit(size: int64)
      requires -1 <= usage
      reads this
    {
      Fits(limit, usage, size)
    }

    /** Confines a path to the sandbox. */
    function Locate(name: string): (at: Located)
      ensures at.Nowhere? ==> at.error == ErrBadPath
    {
      LocateIn(base, name)
    }

    lemma LocatedNamesAreValid(name: string)
      requires ValidBase(base)
      ensures Locate(name).At? ==> ValidNames(Locate(name).path)
    {
      UnsafePathNormalForm(base, name);
    }

    function StatAt(p: Path): StatResult
      reads this
    {
      StatOf(kernel, tree, p)
    }

    function Lstat(name: string): StatResult
      reads this
    {
      match Locate(name)
      case Nowhere(e) => NoStat(e)
      case At(p) => StatAt(p)
    }

    /** UnixFS.Open, for reading: None when a handle is returned. */
    function Open(name: string): Option<FsError>
      reads this
    {
      match Locate(name)
      case Nowhere(e) => Some(e)
      case At(p) => OpenAt(kernel, tree, p)
    }

    /** UnixFS.unlinkat: the bare system call. */
    method UnixUnlinkat(p: Path, removeDir: bool) returns (r: Option<Errno>)
      modifies this`tree
      ensures r == UnlinkErrno(kernel, old(tree), p, removeDir)
      ensures tree == if r.None? then old(tree) - {p} else old(tree)
    {
      r := UnlinkErrno(kernel, tree, p, removeDir);
      if r.None? {
        tree := tree - {p};
      }
    }

    /** Quota.unlinkat: a regular file is charged before the call, whether or not it succeeds. */
    method Unlinkat(p: Path, removeDir: bool) returns (r: Option<Errno>, ghost charged: nat)
      requires Valid()
      modifies this`tree, this`usage
      ensures r == UnlinkErrno(kernel, old(tree), p, removeDir)
      ensures tree == if r.None? then old(tree) - {p} else old(tree)
      ensures usage as int == Max(0, old(usage) as int - charged)
      ensures charged == if !removeDir && p in old(tree) then Size(old(tree)[p]) else 0
    {
      charged := 0;
      ResolveMeaning(tree, p);
      if !removeDir {
        var s := Resolve(tree, p);
        if s.Found? && s.node.File? {
          charged := Size(s.node);
          var size := |s.node.data| as int64;
          var _ := Add(-size);
        }
      }
      r := UnixUnlinkat(p, removeDir);
    }

    /** Removes a file or an empty directory; charges a regular file after it is gone. */
    method Remove(name: string) returns (r: Outcome)
      requires Valid()
      modifies this`tree, this`usage
      ensures var p := Locate(name);
        && r == RemoveOutcome(kernel, old(tree), p)
        && tree == (if r.Pass? then old(tree) - {p.path} else old(tree))
        && usage as int == Max(0, old(usage) as int - if r.Pass? then Size(old(tree)[p.path]) else 0)
    {
      hide HasChild, UnsafePath, ValidBase, ValidNames;
      match Locate(name)
      case Nowhere(e) => return Fail(e);
      case At(p) =>
        var s := StatAt(p);
        if s.NoStat? {
          return Fail(s.error);
        }
        ResolveMeaning(tree, p);
        assert Size(tree[p]) <= MAX_INT64;
        var e := UnixUnlinkat(p, s.node.Dir?);
        if e.Some? {
          return Fail(Sys(e.value));
        }
        if s.node.Dir? {
          return Pass;
        }
        var size := |s.node.data| as int64;
        var _ := Add(-size);
        return Pass;
    }

    method Mkdir(name: string) returns (r: Outcome)
      modifies this`tree
      ensures r == match Locate(name)
        case Nowhere(e) => Fail(e)
        case At(p) => match MkdirErrno(kernel, old(tree), p) case Some(e) => Fail(Sys(e)) case None => Pass
      ensures tree == if r.Pass? then old(tree)[Locate(name).path := Dir] else old(tree)
    {
      match Locate(name)
      case Nowhere(e) => return Fail(e);
      case At(p) =>
        var err := MkdirErrno(kernel, tree, p);
        if err.Some? {
          return Fail(Sys(err.value));
        }
        tree := tree[p := Dir];
        return Pass;
    }

    /** UnixFS.mkdirAll */
    method MkdirAll(name: string, ghost d: Path) returns (created: seq<string>, r: Outcome, ghost reached: Path)
      requires Valid() && ValidNames(d) && name == PathName(d)
      modifies this`tree
      ensures Valid() && Made(old(tree), tree, reached, created) && Under(reached, d)
      ensures r.Pass? ==> reached == d && d in tree && tree[d].Dir?
      ensures r.Fail? ==> Obstructed(kernel, old(tree), d) && r.error.Sys?
      decreases |d|
    {
      hide Made, Obstructed, OpenAt, UnsafePath;
      created, reached := [], [];
      ghost var t0 := tree;
      StartMaking(kernel, t0, d, base);
      var dir := Lstat(name);
      if dir.Stat? {
        if dir.node.Dir? {
          return created, Pass, d;
        }
        return created, Fail(Sys(ENOTDIR)), [];
      }
      var i, j := ScanParent(name);
      ScannedNames(d, i, j);
      ObstructedParent(kernel, t0, d);
      if j > 1 {
        created, r, reached := MkdirAll(name[..j - 1], Parent(d));
        UnderTransitive(reached, Parent(d), d);
        if r.Fail? {
          return;
        }
      }
      created, r := MakeLast(name, d, created, t0);
      reached := if r.Pass? then d else reached;
    }

    /** The end of mkdirAll: the directory itself, its parents being there. */
    method MakeLast(name: string, ghost d: Path, made: seq<string>, ghost t0: Tree) returns (created: seq<string>, r: Outcome)
      requires Valid() && Sound(t0, accounted) && ValidNames(d) && d != [] && Locate(name) == At(d) && name == PathName(d)
      requires Made(t0, tree, Parent(d), made) && !StatOf(kernel, t0, d).Stat?
      modifies this`tree
      ensures r.Pass? ==> Valid() && Made(t0, tree, d, created) && d in tree && tree[d].Dir?
      ensures r.Fail? ==> tree == old(tree) && created == made && Obstructed(kernel, t0, d) && r.error.Sys?
    {
      LastDirectory(kernel, t0, tree, d, made, accounted);
      r := Mkdir(name);
      if r.Fail? {
        var dir := Lstat(name);
        if IsDirectory(dir) {
          r := Pass;
        }
        return made, r;
      }
      return made + [name], Pass;
    }

    /** UnixFS.Rename. `renames` says whether the final system call is permitted. */
    method Rename(oldpath: string, newpath: string, renames: bool) returns (r: Outcome)
      requires Valid()
      requires Locate(oldpath).At? ==> NoHandles(accounted, Locate(oldpath).path)
      modifies this`tree
      ensures Valid() && Accounted(tree, accounted) == Accounted(old(tree), accounted)
      ensures oldpath == newpath ==> r == Pass && tree == old(tree)
      ensures oldpath != newpath && r.Pass? ==>
        && Locate(oldpath).At? && Locate(newpath).At?
        && Renamed(old(tree), tree, Locate(oldpath).path, Locate(newpath).path)
      ensures r.Fail? ==> OnlyDirsAdded(old(tree), tree)
      ensures r.Fail? && renames && Locate(oldpath).At? && Locate(newpath).At? ==>
        !Renamable(kernel, old(tree), Locate(oldpath).path, Locate(newpath).path)
    {
      if oldpath == newpath {
        return Pass;
      }
      LocatedNamesAreValid(oldpath);
      LocatedNamesAreValid(newpath);
      var from := Locate(oldpath);
      if from.Nowhere? {
        return Fail(from.error);
      }
      SourceOpens(kernel, tree, from.path);
      var err := OpenParent(kernel, tree, from.path);
      if err.Some? {
        return Fail(Sys(err.value));
      }
      if from.path == [] {
        return Fail(ErrBadPath);
      }
      var st := StatAt(from.path);
      if st.NoStat? {
        return Fail(st.error);
      }
      var to := Locate(newpath);
      if to.Nowhere? {
        return Fail(to.error);
      }
      r := RenameTo(from.path, to.path, renames);
    }

    /** The second half of Rename: the source is there; make the parents of the target, refuse an
        existing target, move. */
    method RenameTo(o: Path, n: Path, renames: bool) returns (r: Outcome)
      requires Valid() && o in tree && o != [] && ValidNames(n) && NoHandles(accounted, o)
      modifies this`tree
      ensures Valid() && Accounted(tree, accounted) == Accounted(old(tree), accounted)
      ensures r.Pass? ==> Renamed(old(tree), tree, o, n)
      ensures r.Fail? ==> OnlyDirsAdded(old(tree), tree)
      ensures r.Fail? && renames ==> !Renamable(kernel, old(tree), o, n)
    {
      ghost var t0 := tree;
      r := EnsureParent(n);
      if r.Fail? {
        return;
      }
      if n == [] {
        return Fail(ErrBadPath);
      }
      TouchedParent(t0, n);
      TargetIsFree(tree, n);
      var target := Resolve(tree, n);
      if target.Found? {
        return Fail(Sys(EEXIST));
      }
      if target.NotDirectory? {
        return Fail(Sys(ENOTDIR));
      }
      if !renames || Under(o, n) {
        return Fail(Sys(if renames then EINVAL else EACCES));
      }
      MoveIsSound(tree, o, n, accounted);
      tree := Move(tree, o, n);
      return Pass;
    }

    /** The part Rename and TouchPath share: open the parent directory of the target, creating the
        missing directories when it does not exist. */
    method EnsureParent(p: Path) returns (r: Outcome)
      requires Valid() && ValidNames(p)
      modifies this`tree
      ensures Valid() && OnlyDirsAdded(old(tree), tree)
      ensures r.Fail? ==> r.error.Sys?
      ensures Accounted(tree, accounted) == Accounted(old(tree), accounted)
      ensures Writable(kernel, old(tree), p) ==> r.Pass?
      ensures r.Pass? && p != [] ==>
        && NoFileOnPath(old(tree), Parent(p))
        && tree == WithDirs(old(tree), Parent(p))
        && Parent(p) in tree && tree[Parent(p)].Dir?
    {
      WritableParent(kernel, tree, p);
      var err := OpenParent(kernel, tree, p);
      if err.None? {
        if p != [] {
          ParentOpens(kernel, tree, p);
        }
        return Pass;
      }
      if err.value != ENOENT {
        return Fail(Sys(err.value));
      }
      ghost var t0 := tree;
      WritableParent(kernel, t0, p);
      var created; ghost var reached;
      created, r, reached := MkdirAll(PathName(Parent(p)), Parent(p));
      MadeIsSound(t0, tree, reached, created, accounted);
      if r.Fail? {
        return;
      }
      err := OpenParent(kernel, tree, p);
      if err.Some? {
        return Fail(Sys(err.value));
      }
    }

    /** UnixFS.Touch for writing: opens a file, creating it and its parents when missing, and
        truncating it when asked. `opens` says whether the final open is permitted; `ino` is the
        inode the kernel picks for a new file. */
    method Touch(path: string, trunc: bool, ino: nat, opens: bool) returns (r: Outcome)
      requires Valid()
      requires Locate(path).At? ==> Locate(path).path !in accounted
      modifies this`tree
      ensures Valid()
      ensures r.Pass? ==> Locate(path).At? && Touched(old(tree), tree, Locate(path).path, trunc, ino)
      ensures r.Pass? ==> OpenedFile(old(tree), tree, Locate(path).path, trunc)
      ensures opens && Locate(path).At? && Writable(kernel, old(tree), Locate(path).path) ==> r.Pass?
      ensures r.Fail? ==> OnlyDirsAdded(old(tree), tree) && (r.error.Sys? || r.error.ErrBadPath?)
    {
      LocatedNamesAreValid(path);
      var at := Locate(path);
      if at.Nowhere? {
        return Fail(at.error);
      }
      var p := at.path;
      ghost var t0 := tree;
      if Writable(kernel, t0, p) {
        StillWritable(kernel, t0, p);
      }
      r := EnsureParent(p);
      if r.Fail? {
        return;
      }
      r := OpenFileat(p, trunc, ino, opens);
      if r.Pass? {
        TouchedParent(t0, p);
        TouchOpens(t0, tree, p, trunc, ino);
      }
    }

    /** The final open of Touch, with O_CREATE, in a parent directory that exists. */
    method OpenFileat(p: Path, trunc: bool, ino: nat, opens: bool) returns (r: Outcome)
      requires Valid() && ValidNames(p) && p !in accounted
      requires p != [] ==> Parent(p) in tree && tree[Parent(p)].Dir?
      modifies this`tree
      ensures Valid()
      ensures r.Pass? ==> p != [] && (p in old(tree) ==> old(tree)[p].File?) && tree == old(tree)[p := TouchedNode(old(tree), p, trunc, ino)]
      ensures r.Pass? ==> OpenedFile(old(tree), tree, p, trunc)
      ensures r.Fail? ==> tree == old(tree) && r.error.Sys?
      ensures opens && Writable(kernel, old(tree), p) ==> r.Pass?
    {
      if !opens {
        return Fail(Sys(EACCES));
      }
      WritableParent(kernel, tree, p);
      ResolveMeaning(tree, p);
      if p != [] {
        ResolveMeaning(tree, Parent(p));
      }
      match Resolve(tree, p)
      case NotDirectory =>
        return Fail(Sys(ENOTDIR));
      case Missing =>
        if p in kernel.createRefused {
          return Fail(Sys(kernel.createRefused[p]));
        }
        PutFile(tree, p, File(ino, 1, []), accounted);
        tree := tree[p := File(ino, 1, [])];
        return Pass;
      case Found(node) =>
        if node.Dir? {
          return Fail(Sys(EISDIR));
        }
        if trunc {
          PutFile(tree, p, node.(data := []), accounted);
          tree := tree[p := node.(data := [])];
        } else {
          assert tree[p := node] == tree;
        }
        return Pass;
    }
  }

  lemma LastDirectory(k: Kernel, t: Tree, t1: Tree, d: Path, created: seq<string>, accounted: map<Path, nat>)
    requires Sound(t, accounted) && ValidNames(d) && d != []
    requires Made(t, t1, Parent(d), created) && !StatOf(k, t, d).Stat?
    ensures MkdirErrno(k, t1, d).Some? ==> Obstructed(k, t, d) && !StatOf(k, t1, d).Stat?
    ensures MkdirErrno(k, t1, d).None? ==>
      && Made(t, t1[d := Dir], d, created + [PathName(d)])
      && Sound(t1[d := Dir], accounted)
  {
    MkdirObstacle(k, t, t1, d, created);
    if MkdirErrno(k, t1, d).None? {
      MadeOneMore(t, t1, d, created);
      MadeIsSound(t, t1[d := Dir], d, created + [PathName(d)], accounted);
    }
  }

  ghost predicate NoHandles(accounted: map<Path, nat>, u: Path) {
    forall p :: p in accounted ==> !Under(u, p)
  }

  /** No missing prefix of `p` is refused, and every directory above `p` can be opened. */
  ghost predicate Permitted(k: Kernel, t: Tree, p: Path) {
    forall j :: 0 <= j <= |p| ==>
      (p[..j] in t || p[..j] !in k.createRefused) && (0 < j < |p| ==> p[..j] !in k.unopenable)
  }

  /** Nothing in the environment or the tree stands in the way of a file at `p`. */
  ghost predicate Writable(k: Kernel, t: Tree, p: Path) {
    p != [] && Permitted(k, t, p) && NoFileOnPath(t, Parent(p)) && (p in t ==> t[p].File?)
  }

  lemma NotObstructed(k: Kernel, t: Tree, p: Path)
    requires p != [] && Permitted(k, t, p) && NoFileOnPath(t, Parent(p))
    ensures !Obstructed(k, t, Parent(p))
    ensures p in t || p !in k.createRefused
    ensures |p| > 1 ==> Parent(p) !in k.unopenable
  {
    var q := Parent(p);
    assert p[..|p|] == p && p[..|q|] == q;
    forall j | 0 <= j <= |q| ensures !ObstructedAt(k, t, q, j) {
      assert p[..j] == q[..j];
    }
  }

  lemma WritableParent(k: Kernel, t: Tree, p: Path)
    requires WellFormed(t)
    ensures Writable(k, t, p) ==>
      && !Obstructed(k, t, Parent(p))
      && OpenParent(k, t, p) in {None, Some(ENOENT)}
      && (Parent(p) in t ==> OpenParent(k, t, p).None?)
      && StatOf(k, t, p) == (if p in t then Stat(t[p]) else NoStat(Sys(ENOENT)))
      && (Parent(p) != [] ==> Parent(p) !in k.unopenable) && (p in t || p !in k.createRefused)
  {
    if Writable(k, t, p) {
      var q := Parent(p);
      NotObstructed(k, t, p);
      ResolveMeaning(t, q);
      ResolveMeaning(t, p);
      assert q == q[..|q|];
      assert forall j :: 0 <= j < |p| ==> p[..j] == q[..j];
      assert q in t ==> t[q].Dir?;
      if p in t {
        PrefixInTree(t, p, |q|);
      }
    }
  }

  lemma StillWritable(k: Kernel, t: Tree, p: Path)
    requires WellFormed(t) && ValidNames(p) && Writable(k, t, p)
    ensures Writable(k, WithDirs(t, Parent(p)), p)
  {
    WithDirsMeaning(t, Parent(p));
    assert Under(p, Parent(p)) ==> |p| <= |p| - 1;
  }

  /** A successful rename: missing parents of the target were made, then the subtree moved. */
  ghost predicate Renamed(t: Tree, t': Tree, o: Path, n: Path) {
    && o in t && o != [] && n != [] && n !in t && !Under(o, n)
    && NoFileOnPath(t, Parent(n))
    && t' == Move(WithDirs(t, Parent(n)), o, n)
  }

  /** What a rename means: everything at and below `o` is now at and below `n`, everything else stays
      where it was, and what is new above `n` are directories. */
  lemma RenamedMeaning(t: Tree, t': Tree, o: Path, n: Path)
    requires WellFormed(t) && ValidNames(n) && Renamed(t, t', o, n)
    ensures forall s: Path :: (n + s in t' <==> o + s in t) && (o + s in t ==> t'[n + s] == t[o + s])
    ensures forall s: Path :: o + s !in t'
    ensures forall p :: p in t && !Under(o, p) ==> p in t' && t'[p] == t[p]
    ensures forall p :: p in t' && !Under(n, p) && p !in t ==> t'[p] == Dir && Under(p, n)
  {
    var w := WithDirs(t, Parent(n));
    WithDirsMeaning(t, Parent(n));
    forall p | Under(p, Parent(n)) ensures Under(p, n) && p != n {
      UnderOfParent(p, n);
    }
    hide WithDirs, Move, Under, WellFormed;
    forall s: Path ensures (n + s in t' <==> o + s in t) && (o + s in t ==> t'[n + s] == t[o + s]) && o + s !in t' {
      MovedBelow(w, o, n, s);
      BelowBothAbove(o, n, s);
    }
    forall p ensures p in t && !Under(o, p) ==> p in t' && t'[p] == t[p] {
      MovedElsewhere(w, o, n, p);
    }
    forall p ensures p in t' && !Under(n, p) && p !in t ==> t'[p] == Dir && Under(p, n) {
      MovedElsewhere(w, o, n, p);
    }
  }

  lemma UnderOfParent(p: Path, n: Path)
    requires n != [] && Under(p, Parent(n))
    ensures Under(p, n) && p != n
  {
    assert p == Parent(n)[..|p|] == n[..|p|];
  }

  lemma BelowBothAbove(o: Path, n: Path, s: Path)
    ensures Under(o + s, n) ==> Under(o, n)
  {
    if Under(o + s, n) {
      assert o == (o + s)[..|o|] == n[..|o + s|][..|o|] == n[..|o|];
    }
  }

  lemma MovedBelow(t: Tree, o: Path, n: Path, s: Path)
    requires WellFormed(t) && n !in t && o in t && !Under(o, n)
    ensures var m := Move(t, o, n);
      (n + s in m <==> o + s in t) && (o + s in t ==> m[n + s] == t[o + s]) && o + s !in m
  {
    hide WellFormed, Move;
    var m := Move(t, o, n);
    MoveMeaning(t, o, n);
    assert Under(o, o + s) && (o + s)[|o|..] == s;
    assert Under(n, n + s) && (n + s)[|n|..] == s;
    assert Relocate(o, n, o + s) == n + s && Origin(o, n, n + s) == o + s;
    if Under(n, o + s) {
      AncestorOfBoth(o, n, o + s);
      AncestorInTree(t, n, o);
    }
  }

  lemma MovedElsewhere(t: Tree, o: Path, n: Path, p: Path)
    requires WellFormed(t) && n !in t
    ensures var m := Move(t, o, n);
      && (p in t && !Under(o, p) ==> p in m && m[p] == t[p])
      && (p in m && !Under(n, p) ==> p in t && t[p] == m[p])
  {
    hide WellFormed, Move;
    MoveMeaning(t, o, n);
    assert !Under(o, p) ==> Relocate(o, n, p) == p;
    assert !Under(n, p) ==> Origin(o, n, p) == p;
  }

  lemma AncestorOfBoth(a: Path, b: Path, p: Path)
    requires Under(a, p) && Under(b, p)
    ensures Under(a, b) || Under(b, a)
  {
    if |a| <= |b| {
      assert b[..|a|] == p[..|b|][..|a|] == p[..|a|];
    } else {
      assert a[..|b|] == p[..|a|][..|b|] == p[..|b|];
    }
  }

  const OBLIGING: Kernel := Kernel(map[], map[], map[], {}, {})

  /** In an environment that refuses nothing, what the guarantees of success ask for is what a caller can
      see in the tree. */
  lemma NothingRefused(t: Tree, o: Path, n: Path)
    ensures Writable(OBLIGING, t, n) <==> n != [] && NoFileOnPath(t, Parent(n)) && (n in t ==> t[n].File?)
    ensures Renamable(OBLIGING, t, o, n) <==>
      o in t && o != [] && n != [] && n !in t && !Under(o, n) && NoFileOnPath(t, Parent(n))
  {
  }

  /** A source that is there, and a free target outside it with nothing in the way. */
  ghost predicate Renamable(k: Kernel, t: Tree, o: Path, n: Path) {
    o in t && o != [] && (|o| > 1 ==> Parent(o) !in k.unopenable) && n !in t && !Under(o, n) && Writable(k, t, n)
  }

  lemma SourceOpens(k: Kernel, t: Tree, o: Path)
    requires WellFormed(t)
    ensures (|o| > 1 ==> Parent(o) !in k.unopenable) && o in t ==> OpenParent(k, t, o).None? && StatOf(k, t, o).Stat?
    ensures StatOf(k, t, o).Stat? ==> o in t
  {
    ResolveMeaning(t, o);
    if o in t && o != [] {
      ResolveMeaning(t, Parent(o));
    }
  }

  lemma TargetIsFree(t: Tree, n: Path)
    requires WellFormed(t) && n != [] && Parent(n) in t && t[Parent(n)].Dir?
    ensures if n in t then Resolve(t, n).Found? else Resolve(t, n).Missing?
  {
    ResolveMeaning(t, n);
    ResolveMeaning(t, Parent(n));
  }

  /** A successful touch: missing parents were made and the file is there, empty when it is new or
      was to be truncated. */
  ghost predicate Touched(t: Tree, t': Tree, p: Path, trunc: bool, ino: nat) {
    && p != [] && (p in t ==> t[p].File?)
    && NoFileOnPath(t, Parent(p))
    && t' == WithDirs(t, Parent(p))[p := TouchedNode(t, p, trunc, ino)]
  }

  /** What an open with creation means for the file and for everything else: the content stays unless
      truncation was asked for, and a new file is empty. */
  ghost predicate OpenedFile(t: Tree, t': Tree, p: Path, trunc: bool) {
    && p in t' && t'[p].File?
    && (!trunc && p in t ==> t'[p] == t[p])
    && (trunc || p !in t ==> t'[p].data == [])
    && (forall q :: q in t && q != p ==> q in t' && t'[q] == t[q])
    && (forall q :: q in t' && q !in t && q != p ==> t'[q] == Dir && Under(q, p))
  }

  lemma TouchOpens(t: Tree, t': Tree, p: Path, trunc: bool, ino: nat)
    requires WellFormed(t) && ValidNames(p) && Touched(t, t', p, trunc, ino)
    ensures OpenedFile(t, t', p, trunc)
  {
    WithDirsMeaning(t, Parent(p));
    forall q | Under(q, Parent(p)) ensures Under(q, p) {
      assert q == Parent(p)[..|q|] == p[..|q|];
    }
  }

  function TouchedNode(t: Tree, p: Path, trunc: bool, ino: nat): (n: Node)
    ensures n.File?
  {
    if p !in t || t[p].Dir? then File(ino, 1, []) else if trunc then t[p].(data := []) else t[p]
  }

  lemma TouchedParent(t: Tree, p: Path)
    requires WellFormed(t) && p != [] && ValidNames(p) && NoFileOnPath(t, Parent(p))
    ensures var t1 := WithDirs(t, Parent(p));
      (p in t1 <==> p in t) && (p in t ==> t1[p] == t[p])
  {
    WithDirsMeaning(t, Parent(p));
    assert Under(p, Parent(p)) ==> |p| <= |p| - 1;
  }

  lemma ParentOpens(k: Kernel, t: Tree, p: Path)
    requires WellFormed(t) && OpenParent(k, t, p).None? && p != []
    ensures Parent(p) in t && t[Parent(p)].Dir?
    ensures NoFileOnPath(t, Parent(p)) && WithDirs(t, Parent(p)) == t
  {
    var q := Parent(p);
    ResolveMeaning(t, q);
    MadeNothing(t, q);
  }

  lemma PutFile(t: Tree, p: Path, n: Node, accounted: map<Path, nat>)
    requires Sound(t, accounted) && ValidNames(p) && p != [] && p !in accounted
    requires Parent(p) in t && t[Parent(p)].Dir? && (p in t ==> t[p].File?)
    requires n.File? && n.nlink == 1 && Size(n) <= MAX_INT64
    ensures Sound(t[p := n], accounted)
  {
    var t' := t[p := n];
    forall q | q in t' && q != [] ensures Parent(q) in t' && t'[Parent(q)].Dir? {
      assert q in t ==> Parent(q) in t && t[Parent(q)].Dir?;
    }
  }

  lemma MoveIsSound(t: Tree, o: Path, n: Path, accounted: map<Path, nat>)
    requires Sound(t, accounted) && o in t && o != [] && n != [] && n !in t && ValidNames(n)
    requires Parent(n) in t && t[Parent(n)].Dir? && !Under(o, n) && NoHandles(accounted, o)
    ensures Sound(Move(t, o, n), accounted)
    ensures Accounted(Move(t, o, n), accounted) == Accounted(t, accounted)
  {
    MoveWellFormed(t, o, n);
    MoveKeepsNodes(t, o, n);
    MoveKeepsSizes(t, o, n, accounted);
  }

  /** The two backward scans of mkdirAll: past trailing slashes, then over the last element. */
  method ScanParent(name: string) returns (i: nat, j: nat)
    ensures j <= i <= |name|
    ensures i > 0 ==> name[i - 1] != '/'
    ensures forall x :: i <= x < |name| ==> name[x] == '/'
    ensures j == LastSlash(name[..i]) + 1
  {
    i := |name|;
    while i > 0 && name[i - 1] == '/'
      invariant i <= |name|
      invariant forall x :: i <= x < |name| ==> name[x] == '/'
    {
      i := i - 1;
    }
    j := i;
    while j > 0 && name[j - 1] != '/'
      invariant j <= i
      invariant forall x :: j <= x < i ==> name[x] != '/'
    {
      j := j - 1;
    }
    if j > 0 {
      LastSlashIs(name[..i], j - 1);
    } else {
      assert forall x :: 0 <= x < i ==> name[..i][x] != '/';
    }
  }

  lemma ScannedNames(d: Path, i: nat, j: nat)
    requires ValidNames(d) && d != []
    requires i <= |PathName(d)| && (i > 0 ==> PathName(d)[i - 1] != '/')
    requires forall x :: i <= x < |PathName(d)| ==> PathName(d)[x] == '/'
    requires j == LastSlash(PathName(d)[..i]) + 1
    ensures |d| == 1 ==> j == 0
    ensures |d| > 1 ==> 1 < j <= |PathName(d)| && PathName(d)[..j - 1] == PathName(Parent(d))
  {
    var name := PathName(d);
    JoinEndsInName(d);
    assert i == |name| && name[..i] == name;
    LastSlashOfNames(d);
  }

  lemma StartMaking(k: Kernel, t: Tree, d: Path, base: string)
    requires WellFormed(t) && ValidNames(d) && ValidBase(base)
    ensures UnsafePath(base, PathName(d)) == Inside(PathName(d)) && Names(PathName(d)) == d
    ensures Made(t, t, [], []) && Under([], d) && Under(d, d)
    ensures d != [] ==> Under(Parent(d), d)
    ensures var s := StatOf(k, t, d);
      && (s.Stat? ==> d in t && s.node == t[d])
      && (s.Stat? && s.node.Dir? ==> Made(t, t, d, []))
      && (s.Stat? && s.node.File? ==> Obstructed(k, t, d))
      && (d == [] ==> s == Stat(Dir))
  {
    UnsafePathOfNames(base, d);
    NamesOfPathName(d);
    MadeNothing(t, []);
    ResolveMeaning(t, d);
    if d in t {
      assert d[..|d|] == d;
      if t[d].Dir? {
        MadeNothing(t, d);
      } else {
        assert ObstructedAt(k, t, d, |d|);
      }
    }
  }

  lemma MadeIsSound(t: Tree, t': Tree, reached: Path, created: seq<string>, accounted: map<Path, nat>)
    requires Sound(t, accounted) && ValidNames(reached) && Made(t, t', reached, created)
    ensures Sound(t', accounted) && OnlyDirsAdded(t, t')
    ensures reached in t' && t'[reached].Dir?
    ensures Accounted(t', accounted) == Accounted(t, accounted)
  {
    WithDirsMeaning(t, reached);
    DirsWeighNothing(t, t', accounted);
  }

  lemma EmptyTotal()
    ensures Total(map[[] := Dir]) == 0 == Accounted(map[[] := Dir], map[])
    ensures WellFormed(map[[] := Dir])
  {
    var t: Tree := map[[] := Dir];
    SumRemove(View(t, map[]), []);
    assert View(t, map[]) - {[]} == map[];
  }

  /** What Remove answers. */
  ghost function RemoveOutcome(k: Kernel, t: Tree, p: Located): (r: Outcome)
    requires WellFormed(t)
    ensures r.Pass? ==> p.At? && p.path in t && UnlinkErrno(k, t, p.path, t[p.path].Dir?).None?
  {
    match p
    case Nowhere(e) => Fail(e)
    case At(p) =>
      ResolveMeaning(t, p);
      match OpenParent(k, t, p)
      case Some(e) => Fail(Sys(e))
      case None =>
        if p !in t then Fail(Sys(if Resolve(t, p).Missing? then ENOENT else ENOTDIR))
        else
          match UnlinkErrno(k, t, p, t[p].Dir?)
          case Some(e) => Fail(Sys(e))
          case None => Pass
  }
}