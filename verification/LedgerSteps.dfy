/** What each operation of the server does to the tree and to the counter, as a relation between two
    moments, and what that means for the ledger. */
module LedgerSteps {
  import opened Int64
  import opened PathText
  import opened FileTree
  import opened Ufs
  import RemoveAll
  import opened CopyNames
  import opened Filesystems
  import opened HandleLedger
  import opened QuotaFiles

  /** What does not change during a run. */
  datatype Server = Server(base: string, kernel: Kernel, limit: int64)

  datatype Moment = Moment(tree: Tree, usage: int64)

  /** An operation, with what the environment decides during it. */
  datatype Request =
    | WriteFile(p: string, body: Reader, newSize: int64, f: Faults)
    | CopyFile(p: string, stamp: string, f: Faults)
    | RenameFile(oldpath: string, newpath: string, renames: bool)
    | CreateDirectory(name: string, p: string, chown: bool)
    | DeleteFile(p: string)
    | EmptyRoot(refused: set<Path>, makes: bool, reopens: bool)
    | Session(p: string, trunc: bool, calls: seq<Call>, stats: bool, closes: bool, f: Faults)

  ghost predicate Acceptable(q: Request) {
    match q
    case CopyFile(_, stamp, _) => '/' !in stamp
    case Session(_, _, calls, _, _, _) => forall i :: 0 <= i < |calls| ==> |calls[i].p| <= MAX_INT64
    case _ => true
  }

  /** A moment without open handles. */
  ghost predicate Sane(sv: Server, m: Moment) {
    ValidBase(sv.base) && [] !in sv.kernel.unopenable && Sound(m.tree, map[]) && 0 <= m.usage
  }

  // ------------------------------------------------------------------ the steps

  /** The operation failed before it touched a file. */
  ghost predicate Refused(m: Moment, m': Moment) {
    OnlyDirsAdded(m.tree, m'.tree) && m'.usage == m.usage
  }

  ghost predicate HasRoom(sv: Server, m: Moment, newSize: int64, at: Located)
    requires 0 <= m.usage
  {
    SpaceFor(sv.limit, m.usage, newSize, CurrentSize(m.tree, at)) == Pass
  }

  ghost predicate PerformsWrite(sv: Server, p: string, body: Reader, newSize: int64, f: Faults, m: Moment, m': Moment)
    requires Sane(sv, m)
  {
    var at, dir, n := LocateIn(sv.base, p), LocateIn(sv.base, DirOf(p)), CopiedBytes(body, newSize, f.room);
    || (Refused(m, m') && !(Unhindered(sv.base, sv.kernel, m.tree, p, f) && HasRoom(sv, m, newSize, at)))
    || (at.At? && dir.At? && HasRoom(sv, m, newSize, at)
        && Written(m.tree, m'.tree, dir.path, at.path, f.ino, body.data[..n])
        && m'.usage as int == Clamp(m.usage as int + n - FileSize(m.tree, at.path)))
  }

  /** How many bytes a copy of `o` moves. */
  ghost function CopyLength(t: Tree, o: Path, f: Faults): nat {
    Min(f.room, FileSize(t, o))
  }

  ghost predicate PerformsCopy(sv: Server, p: string, stamp: string, f: Faults, m: Moment, m': Moment)
    requires Sane(sv, m)
  {
    var at := LocateIn(sv.base, p);
    || (m' == m && !(at.At? && Copyable(sv.kernel, sv.limit, m.tree, m.usage, at.path, stamp, f)))
    || (at.At?
        && (exists q :: CopiedTo(m.tree, m'.tree, at.path, q, CopyLength(m.tree, at.path, f), stamp, f))
        && SpaceFor(sv.limit, m.usage, Clamp(FileSize(m.tree, at.path)) as int64, 0) == Pass
        && m'.usage as int == Clamp(m.usage as int + CopyLength(m.tree, at.path, f)))
  }

  ghost predicate PerformsRename(sv: Server, oldpath: string, newpath: string, renames: bool, m: Moment, m': Moment)
    requires Sane(sv, m)
  {
    var o, n := LocateIn(sv.base, oldpath), LocateIn(sv.base, newpath);
    && m'.usage == m.usage
    && if oldpath == newpath then m'.tree == m.tree
       else
         || (o.At? && n.At? && Renamed(m.tree, m'.tree, o.path, n.path))
         || (OnlyDirsAdded(m.tree, m'.tree) && !(renames && o.At? && n.At? && Renamable(sv.kernel, m.tree, o.path, n.path)))
  }

  ghost predicate PerformsMkdir(sv: Server, p: string, chown: bool, m: Moment, m': Moment)
    requires Sane(sv, m)
  {
    var d := LocateIn(sv.base, p);
    && Refused(m, m')
    && (d.At? && chown && !Obstructed(sv.kernel, m.tree, d.path) ==> m'.tree == WithDirs(m.tree, d.path))
  }

  /** A file that is reached by a delete of `p` is charged and stays. */
  ghost predicate DriftingOn(sv: Server, p: Path, t: Tree)
    requires WellFormed(t) && p != []
  {
    !RemoveAll.ChargesExactly(t, sv.kernel, p)
  }

  ghost predicate PerformsDelete(sv: Server, p: string, m: Moment, m': Moment)
    requires Sane(sv, m)
  {
    var at := LocateIn(sv.base, p);
    if at.Nowhere? || at.path == [] then m' == m
    else
      var went := Total(m.tree) - Total(m'.tree);
      && m'.tree == RemoveAll.Deleted(m.tree, sv.kernel, at.path)
      && m'.usage <= m.usage && m'.usage as int <= Max(0, m.usage as int - went)
      && (!DriftingOn(sv, at.path, m.tree) ==> m'.usage as int == Max(0, m.usage as int - went))
      && (m.usage as int == Total(m.tree) && DriftingOn(sv, at.path, m.tree) ==> m'.usage as int != Total(m'.tree))
  }

  /** What a truncation of the root leaves. */
  ghost function Truncated(t: Tree, refused: set<Path>): Tree {
    if refused !! t.Keys then map[[] := Dir] else Remains(t, refused)
  }

  ghost predicate Empties(q: Request, t: Tree)
    requires q.EmptyRoot?
  {
    q.refused !! t.Keys && q.makes && q.reopens
  }

  /** The state of a handle that Touch has just returned. */
  ghost function Opening(t: Tree, usage: int64, q: Path): HandleState {
    HandleState(usage as int, FileSize(t, q), 0)
  }

  ghost predicate Openable(sv: Server, p: string, f: Faults, t: Tree) {
    var at := LocateIn(sv.base, p);
    f.stats && f.opens && at.At? && Writable(sv.kernel, t, at.path)
  }

  /** The content of the file when the handle is closed. */
  ghost function FinalContent(limit: int64, m: Moment, q: Path, trunc: bool, ino: nat, calls: seq<Call>): Bytes {
    ContentAfter(limit, Opening(m.tree, m.usage, q), TouchedNode(m.tree, q, trunc, ino).data, calls)
  }

  /** How far the accounted size is above the real one when no final stat settles it. */
  ghost function Unsettled(limit: int64, m: Moment, q: Path, trunc: bool, ino: nat, calls: seq<Call>, stats: bool): int {
    if stats then 0
    else AfterCalls(limit, Opening(m.tree, m.usage, q), calls).size - |FinalContent(limit, m, q, trunc, ino, calls)|
  }

  ghost predicate SessionEnds(limit: int64, m: Moment, m': Moment, q: Path, trunc: bool, ino: nat, calls: seq<Call>, stats: bool) {
    var data, s := FinalContent(limit, m, q, trunc, ino, calls), AfterCalls(limit, Opening(m.tree, m.usage, q), calls);
    && q != [] && (q in m.tree ==> m.tree[q].File?) && NoFileOnPath(m.tree, Parent(q))
    && m'.tree == WithDirs(m.tree, Parent(q))[q := TouchedNode(m.tree, q, trunc, ino).(data := data)]
    && m'.usage as int == if stats then Clamp(s.usage + |data| - s.size) else s.usage
  }

  ghost predicate PerformsSession(sv: Server, q: Request, m: Moment, m': Moment)
    requires Sane(sv, m) && q.Session?
  {
    var at := LocateIn(sv.base, q.p);
    || (Refused(m, m') && !Openable(sv, q.p, q.f, m.tree))
    || (at.At? && SessionEnds(sv.limit, m, m', at.path, q.trunc, q.f.ino, q.calls, q.stats))
  }

  /** The operation leads from one moment to the other. It fixes tree and counter, except for how far a
      refused operation got with making directories and how often a drifting delete charged a file. */
  ghost predicate Performed(sv: Server, q: Request, m: Moment, m': Moment)
    requires Sane(sv, m)
  {
    && Sane(sv, m')
    && match q
       case WriteFile(p, body, newSize, f) => PerformsWrite(sv, p, body, newSize, f, m, m')
       case CopyFile(p, stamp, f) => PerformsCopy(sv, p, stamp, f, m, m')
       case RenameFile(o, n, renames) => PerformsRename(sv, o, n, renames, m, m')
       case CreateDirectory(name, p, chown) => PerformsMkdir(sv, JoinTwo(p, name), chown, m, m')
       case DeleteFile(p) => PerformsDelete(sv, p, m, m')
       case EmptyRoot(refused, _, _) =>
         m' == Moment(Truncated(m.tree, refused), if Empties(q, m.tree) then 0 else m.usage)
       case Session(_, _, _, _, _, _) => PerformsSession(sv, q, m, m')
  }

  // ------------------------------------------------------------------ what the ledger promises

  ghost predicate Exact(m: Moment) {
    m.usage as int == Total(m.tree)
  }

  /** The counter covers the tree, and a positive limit covers the counter. */
  ghost predicate Covered(limit: int64, m: Moment) {
    Total(m.tree) <= m.usage as int && (0 < limit ==> m.usage <= limit)
  }

  /** A copy of `o` would land on an existing file that is not empty: all 51 numbered names are taken,
      and so is the stamped one. */
  ghost predicate Crowded(t: Tree, o: Path, stamp: string) {
    && o != []
    && FallbackPath(o, stamp) in t && Size(t[FallbackPath(o, stamp)]) > 0
    && forall i :: 0 <= i <= 50 ==> Parent(o) + [Stem(o[|o| - 1]).0 + CopySuffix(i) + Stem(o[|o| - 1]).1] in t
  }

  /** The request would take the counter of an unlimited server past the largest value. */
  ghost predicate Overflows(sv: Server, q: Request, m: Moment) {
    && sv.limit == 0
    && match q
       case WriteFile(p, body, newSize, f) =>
         var at := LocateIn(sv.base, p);
         at.At? && m.usage as int + CopiedBytes(body, newSize, f.room) - FileSize(m.tree, at.path) > MAX_INT64
       case CopyFile(p, _, f) =>
         var at := LocateIn(sv.base, p);
         at.At? && m.usage as int + CopyLength(m.tree, at.path, f) > MAX_INT64
       case _ => false
  }

  /** What saturated reservations take from the counter during a session. */
  ghost function SessionLoss(sv: Server, q: Request, m: Moment): nat
    requires q.Session?
  {
    var at := LocateIn(sv.base, q.p);
    if at.At? then TotalLost(sv.limit, Opening(m.tree, m.usage, at.path), q.calls) else 0
  }

  /** What a session leaves on the counter for want of a final stat. */
  ghost function SessionRest(sv: Server, q: Request, m: Moment): int
    requires q.Session?
  {
    var at := LocateIn(sv.base, q.p);
    if at.At? then Unsettled(sv.limit, m, at.path, q.trunc, q.f.ino, q.calls, q.stats) else 0
  }

  ghost predicate Drifts(sv: Server, q: Request, m: Moment)
    requires Sane(sv, m) && q.DeleteFile?
  {
    var at := LocateIn(sv.base, q.p);
    at.At? && at.path != [] && DriftingOn(sv, at.path, m.tree)
  }

  /** What ends the exactness of the ledger: all of it can be told from the request and the state before. */
  ghost predicate Disturbs(sv: Server, q: Request, m: Moment)
    requires Sane(sv, m)
  {
    match q
    case WriteFile(_, _, _, _) => Overflows(sv, q, m)
    case CopyFile(p, stamp, f) =>
      var at := LocateIn(sv.base, p);
      Overflows(sv, q, m) || (at.At? && Crowded(m.tree, at.path, stamp) && CopyLength(m.tree, at.path, f) > 0)
    case RenameFile(_, _, _) => false
    case CreateDirectory(_, _, _) => false
    case DeleteFile(_) => Drifts(sv, q, m)
    case EmptyRoot(refused, _, _) => !Empties(q, m.tree) && Total(Truncated(m.tree, refused)) != Total(m.tree)
    case Session(_, _, _, _, _, _) => SessionLoss(sv, q, m) != SessionRest(sv, q, m)
  }

  /** What can let the counter fall below the tree: a drifting delete, and on unlimited servers a
      saturated counter. */
  ghost predicate Undercuts(sv: Server, q: Request, m: Moment)
    requires Sane(sv, m)
  {
    match q
    case WriteFile(_, _, _, _) => Overflows(sv, q, m)
    case CopyFile(_, _, _) => Overflows(sv, q, m)
    case DeleteFile(_) => Drifts(sv, q, m)
    case Session(_, _, _, _, _, _) => SessionLoss(sv, q, m) > SessionRest(sv, q, m)
    case _ => false
  }

  /** What one step does for the ledger: without a disturbance it keeps it exact; a disturbance shows,
      unless the operation was refused; and the counter goes on covering the tree. */
  ghost predicate Accounts(sv: Server, q: Request, m: Moment, m': Moment)
    requires Sane(sv, m)
  {
    && (Exact(m) && !Disturbs(sv, q, m) ==> Exact(m'))
    && (Exact(m) && Disturbs(sv, q, m) && m'.usage as int < MAX_INT64 ==> !Exact(m') || Refused(m, m'))
    && (Covered(sv.limit, m) && !Undercuts(sv, q, m) ==> Covered(sv.limit, m'))
  }

  lemma RefusedAccounts(sv: Server, q: Request, m: Moment, m': Moment)
    requires Sane(sv, m) && Refused(m, m')
    ensures Accounts(sv, q, m, m')
  {
    DirsWeighNothing(m.tree, m'.tree, map[]);
  }

  lemma WrittenTotal(t: Tree, t': Tree, d: Path, q: Path, ino: nat, data: Bytes)
    requires Sound(t, map[]) && Written(t, t', d, q, ino, data)
    ensures Total(t') == Total(t) + |data| - FileSize(t, q)
  {
    var t1 := WithDirs(t, d);
    var t2 := WithDirs(t1, Parent(q));
    WithDirsMeaning(t, d);
    DirsWeighNothing(t, t1, map[]);
    WithDirsMeaning(t1, Parent(q));
    DirsWeighNothing(t1, t2, map[]);
    assert q !in t1 ==> q !in t2 by {
      assert Under(q, Parent(q)) ==> |q| <= |q| - 1;
    }
    AccountedPut(t2, map[], q, t'[q]);
  }

  lemma PartOfTotal(t: Tree, q: Path)
    ensures FileSize(t, q) <= Total(t)
  {
    if q in t {
      AccountedRemove(t, map[], q);
    }
  }

  lemma WriteAccounts(sv: Server, q: Request, m: Moment, m': Moment)
    requires Sane(sv, m) && q.WriteFile? && PerformsWrite(sv, q.p, q.body, q.newSize, q.f, m, m')
    ensures Accounts(sv, q, m, m')
  {
    hide Sound, Written, Unhindered, UnsafePath, DirOf, SpaceFor, CopiedBytes;
    if Refused(m, m') {
      RefusedAccounts(sv, q, m, m');
    } else {
      var n, path := CopiedBytes(q.body, q.newSize, q.f.room), LocateIn(sv.base, q.p).path;
      WrittenTotal(m.tree, m'.tree, LocateIn(sv.base, DirOf(q.p)).path, path, q.f.ino, q.body.data[..n]);
      PartOfTotal(m.tree, path);
      WriteNumbers(sv.limit, Total(m.tree), m.usage, Total(m'.tree), m'.usage, q.newSize, FileSize(m.tree, path), n);
    }
  }

  lemma WriteNumbers(limit: int64, total: nat, usage: int64, total': nat, usage': int64, newSize: int64, size: nat, n: nat)
    requires 0 <= usage && size <= total && total' == total + n - size && n as int <= Max(0, newSize as int)
    requires usage' as int == Clamp(usage as int + n - size) && SpaceFor(limit, usage, newSize, size) == Pass
    ensures limit != 0 ==> usage as int + n - size <= MAX_INT64
    ensures total == usage as int ==> (usage' as int == total' <==> usage as int + n - size <= MAX_INT64)
    ensures total <= usage as int && usage as int + n - size <= MAX_INT64 ==> total' <= usage' as int
    ensures 0 < limit && usage <= limit ==> usage' <= limit
    ensures limit < 0 ==> limit != -1 && n <= size
  {
  }

  /** With a limit below zero a write can only make a file smaller; with -1 it does nothing. */
  lemma WriteShrinks(sv: Server, p: string, body: Reader, newSize: int64, f: Faults, m: Moment, m': Moment)
    requires Sane(sv, m) && PerformsWrite(sv, p, body, newSize, f, m, m') && sv.limit < 0
    ensures Total(m'.tree) <= Total(m.tree) && m'.usage <= m.usage
    ensures sv.limit == -1 ==> Refused(m, m') && Total(m'.tree) == Total(m.tree)
  {
    hide Sound, Written, Unhindered, UnsafePath, DirOf, SpaceFor, CopiedBytes;
    if Refused(m, m') {
      DirsWeighNothing(m.tree, m'.tree, map[]);
    } else {
      var n, path := CopiedBytes(body, newSize, f.room), LocateIn(sv.base, p).path;
      WrittenTotal(m.tree, m'.tree, LocateIn(sv.base, DirOf(p)).path, path, f.ino, body.data[..n]);
      PartOfTotal(m.tree, path);
      WriteNumbers(sv.limit, Total(m.tree), m.usage, Total(m'.tree), m'.usage, newSize, FileSize(m.tree, path), n);
    }
  }

  /** A copy lands on an existing file only when all 51 numbered names and the stamped one are taken.
      It is accounted exactly unless that file was not empty and something was copied. */
  lemma CopyExactness(t: Tree, t': Tree, o: Path, q: Path, n: nat, stamp: string, f: Faults)
    requires Sound(t, map[]) && '/' !in stamp && CopiedTo(t, t', o, q, n, stamp, f)
    ensures Total(t) <= Total(t') <= Total(t) + n
    ensures Total(t') == Total(t) + n <==> (q !in t || Size(t[q]) == 0 || n == 0)
    ensures Total(t') == Total(t) + n <==> !(Crowded(t, o, stamp) && n > 0)
  {
    AccountedPut(t, map[], q, t'[q]);
    assert q == Parent(o) + [q[|q| - 1]];
  }

  /** A file "f" of one byte beside another file of one byte, under the stamped name for its copy. */
  function TwoFiles(): Tree {
    var root: Tree := map[[] := Dir];
    root[["f"] := File(0, 1, [1])][["fcopy."] := File(1, 1, [2])]
  }

  /** The same directory with empty files under the first `n` numbered names. */
  function CopiesInTheWay(n: nat): Tree {
    if n == 0 then TwoFiles() else CopiesInTheWay(n - 1)[["f" + CopySuffix(n - 1)] := File(n + 1, 1, [])]
  }

  ghost predicate Flat(t: Tree) {
    && Sound(t, map[]) && t[[]] == Dir && (forall p {:trigger t[p].File?} :: p in t && p != [] ==> t[p].File?)
    && ["f"] in t && t[["f"]] == File(0, 1, [1]) && ["fcopy."] in t && t[["fcopy."]] == File(1, 1, [2])
  }

  lemma TwoFilesAreFlat()
    ensures Flat(TwoFiles())
  {
    var root: Tree := map[[] := Dir];
    EmptyTotal();
    assert Sound(root, map[]);
    PutFile(root, ["f"], File(0, 1, [1]), map[]);
    PutFile(root[["f"] := File(0, 1, [1])], ["fcopy."], File(1, 1, [2]), map[]);
    assert "f" != "fcopy." by { assert |"f"| != |"fcopy."|; }
  }

  lemma FlatPut(t: Tree, name: string, ino: nat)
    requires Flat(t) && ValidName(name) && name != "f" && name != "fcopy."
    ensures Flat(t[[name] := File(ino, 1, [])])
  {
    assert [name] != ["f"] by { assert [name][0] != ["f"][0]; }
    assert [name] != ["fcopy."] by { assert [name][0] != ["fcopy."][0]; }
    PutFile(t, [name], File(ino, 1, []), map[]);
  }

  ghost predicate Numbered(t: Tree, n: nat) {
    forall i {:trigger CopySuffix(i)} :: 0 <= i < n ==> ["f" + CopySuffix(i)] in t
  }

  lemma {:induction false} CopiesInTheWayExist(n: nat)
    ensures Flat(CopiesInTheWay(n)) && Numbered(CopiesInTheWay(n), n)
  {
    if n == 0 {
      TwoFilesAreFlat();
    } else {
      CopiesInTheWayExist(n - 1);
      NumberedName(n - 1);
      FlatPut(CopiesInTheWay(n - 1), "f" + CopySuffix(n - 1), n + 1);
      NumberedPut(CopiesInTheWay(n - 1), n - 1, n + 1);
    }
  }

  lemma NumberedPut(t: Tree, n: nat, ino: nat)
    requires Numbered(t, n)
    ensures Numbered(t[["f" + CopySuffix(n)] := File(ino, 1, [])], n + 1)
  {
  }

  lemma NumberedName(i: nat)
    ensures var name := "f" + CopySuffix(i); ValidName(name) && name != "f" && name != "fcopy."
  {
    assert ("f" + CopySuffix(i))[1] == ' ';
    assert "fcopy."[1] == 'c';
  }

  lemma StemOfF()
    ensures Stem("f") == ("f", "") && FallbackPath(["f"], "") == ["fcopy."]
  {
    assert "f"[..0] == "" && Ext("") == "";
    assert Ext("f") == "";
    assert TrimSuffix("f", "") == "f" by { assert "f"[..1] == "f"; }
    assert "f" + ("copy." + "") + "" == "fcopy.";
    assert Parent(["f"]) == [];
  }

  lemma EverythingInTheWay(t: Tree)
    requires Flat(t) && Numbered(t, 51)
    ensures Crowded(t, ["f"], "")
    ensures IsCopyName(t, [], "f", "", "", "fcopy.")
  {
    StemOfF();
    forall i | 0 <= i <= 50 ensures [] + ["f" + CopySuffix(i) + ""] in t {
      assert "f" + CopySuffix(i) + "" == "f" + CopySuffix(i);
      assert [] + ["f" + CopySuffix(i)] == ["f" + CopySuffix(i)];
    }
    assert Parent(["f"]) == [];
    assert "f" + ("copy." + "") + "" == "fcopy.";
  }

  /** A copy that is not accounted exactly: with the 51 numbered names taken, the byte of "f" overwrites
      the byte of the stamped file. The counter grows by one and the tree does not. */
  lemma DriftingCopy(n: nat, f: Faults)
    requires 51 <= n && 0 < f.room
    ensures var t, o, q := CopiesInTheWay(n), ["f"], ["fcopy."];
      var t' := t[q := CopyOf(t, q, [1], f.ino)];
      Sound(t, map[]) && Crowded(t, o, "") && CopiedTo(t, t', o, q, 1, "", f) && Total(t') == Total(t)
  {
    hide CopiesInTheWay, WellFormed, Crowded;
    var t, o, q := CopiesInTheWay(n), ["f"], ["fcopy."];
    CopiesInTheWayExist(n);
    EverythingInTheWay(t);
    StemOfF();
    var t' := t[q := CopyOf(t, q, [1], f.ino)];
    assert t[o].data[..1] == [1];
    AccountedPut(t, map[], q, t'[q]);
  }

  lemma CopyAccounts(sv: Server, q: Request, m: Moment, m': Moment)
    requires Sane(sv, m) && q.CopyFile? && Acceptable(q) && PerformsCopy(sv, q.p, q.stamp, q.f, m, m')
    ensures Accounts(sv, q, m, m')
  {
    if m' == m {
      return;
    }
    var o := LocateIn(sv.base, q.p).path;
    var n := CopyLength(m.tree, o, q.f);
    var to :| CopiedTo(m.tree, m'.tree, o, to, n, q.stamp, q.f);
    CopyExactness(m.tree, m'.tree, o, to, n, q.stamp, q.f);
    assert Size(m.tree[o]) <= MAX_INT64;
    CopyNumbers(sv.limit, Total(m.tree), m.usage, Total(m'.tree), m'.usage, FileSize(m.tree, o), n);
  }

  lemma CopyNumbers(limit: int64, total: nat, usage: int64, total': nat, usage': int64, size: nat, n: nat)
    requires 0 <= usage && n <= size <= MAX_INT64 && total <= total' <= total + n
    requires usage' as int == Clamp(usage as int + n) && SpaceFor(limit, usage, size as int64, 0) == Pass
    ensures limit != 0 ==> usage as int + n <= MAX_INT64
    ensures total == usage as int && usage' as int < MAX_INT64 ==> (usage' as int == total' <==> total' == total + n)
    ensures total == usage as int && total' == total + n && usage as int + n <= MAX_INT64 ==> usage' as int == total'
    ensures total <= usage as int && usage as int + n <= MAX_INT64 ==> total' <= usage' as int
    ensures 0 < limit && usage <= limit ==> usage' <= limit
  {
  }

  lemma MoveAccounts(sv: Server, q: Request, m: Moment, m': Moment)
    requires Sane(sv, m) && q.RenameFile? && PerformsRename(sv, q.oldpath, q.newpath, q.renames, m, m')
    ensures Accounts(sv, q, m, m')
  {
    var o, n := LocateIn(sv.base, q.oldpath), LocateIn(sv.base, q.newpath);
    if OnlyDirsAdded(m.tree, m'.tree) {
      RefusedAccounts(sv, q, m, m');
    } else if o.At? && n.At? && Renamed(m.tree, m'.tree, o.path, n.path) {
      UnsafePathNormalForm(sv.base, q.newpath);
      RenamedTotal(m.tree, m'.tree, o.path, n.path);
    }
  }

  lemma RenamedTotal(t: Tree, t': Tree, o: Path, n: Path)
    requires WellFormed(t) && ValidNames(n) && Renamed(t, t', o, n)
    ensures Total(t') == Total(t)
  {
    var d := WithDirs(t, Parent(n));
    WithDirsMeaning(t, Parent(n));
    DirsWeighNothing(t, d, map[]);
    assert n !in d by {
      assert Under(n, Parent(n)) ==> |n| <= |n| - 1;
    }
    MoveKeepsSizes(d, o, n, map[]);
  }

  lemma DeleteAccounts(sv: Server, q: Request, m: Moment, m': Moment)
    requires Sane(sv, m) && q.DeleteFile? && PerformsDelete(sv, q.p, m, m')
    ensures Accounts(sv, q, m, m')
  {
  }

  lemma EmptiedTotal(t: Tree, refused: set<Path>)
    requires WellFormed(t)
    ensures Total(Truncated(t, refused)) <= Total(t)
  {
    EmptyTotal();
    var s := Truncated(t, refused);
    if !(refused !! t.Keys) {
      PartWeighsLess(t, s);
    }
  }

  lemma EmptyAccounts(sv: Server, q: Request, m: Moment, m': Moment)
    requires Sane(sv, m) && q.EmptyRoot?
    requires m' == Moment(Truncated(m.tree, q.refused), if Empties(q, m.tree) then 0 else m.usage)
    ensures Accounts(sv, q, m, m')
  {
    EmptyTotal();
    EmptiedTotal(m.tree, q.refused);
  }

  lemma SessionAccounts(sv: Server, q: Request, m: Moment, m': Moment)
    requires Sane(sv, m) && q.Session? && PerformsSession(sv, q, m, m') && Sane(sv, m')
    ensures Accounts(sv, q, m, m')
  {
    hide Sound, UnsafePath, ContentAfter, AfterCalls, TotalLost, WithDirs, Writable;
    var at := LocateIn(sv.base, q.p);
    if Refused(m, m') && !Openable(sv, q.p, q.f, m.tree) {
      RefusedAccounts(sv, q, m, m');
    } else {
      UnsafePathNormalForm(sv.base, q.p);
      SessionTotals(sv.limit, m, m', at.path, q.trunc, q.f.ino, q.calls, q.stats);
      PartOfTotal(m.tree, at.path);
    }
  }

  /** A file is put under `q`, with the directories above it. */
  lemma PutTotal(t: Tree, q: Path, n: Node)
    requires WellFormed(t) && ValidNames(q) && q != [] && NoFileOnPath(t, Parent(q))
    ensures Total(WithDirs(t, Parent(q))[q := n]) == Total(t) + Size(n) - FileSize(t, q)
  {
    var d := WithDirs(t, Parent(q));
    WithDirsMeaning(t, Parent(q));
    DirsWeighNothing(t, d, map[]);
    assert q !in t ==> q !in d by {
      assert Under(q, Parent(q)) ==> |q| <= |q| - 1;
    }
    AccountedPut(d, map[], q, n);
  }

  lemma OpeningIsPossible(t: Tree, usage: int64, q: Path)
    requires SizesFit(t) && 0 <= usage
    ensures Possible(Opening(t, usage, q))
  {
    assert q in t ==> Size(t[q]) <= MAX_INT64;
  }

  /** What is left of a session: the change of the tree, less what was lost, plus what was not settled. */
  lemma SessionTotals(limit: int64, m: Moment, m': Moment, q: Path, trunc: bool, ino: nat, calls: seq<Call>, stats: bool)
    requires Sound(m.tree, map[]) && 0 <= m.usage && ValidNames(q) && SessionEnds(limit, m, m', q, trunc, ino, calls, stats)
    ensures 0 <= Unsettled(limit, m, q, trunc, ino, calls, stats)
    ensures FileSize(m.tree, q) <= m.usage as int ==>
      m'.usage as int - m.usage as int == Total(m'.tree) - Total(m.tree)
        + Unsettled(limit, m, q, trunc, ino, calls, stats) - TotalLost(limit, Opening(m.tree, m.usage, q), calls)
    ensures 0 < limit && m.usage <= limit && FileSize(m.tree, q) <= m.usage as int ==> m'.usage <= limit
  {
    var s0, node := Opening(m.tree, m.usage, q), TouchedNode(m.tree, q, trunc, ino);
    OpeningIsPossible(m.tree, m.usage, q);
    CallsConserve(limit, s0, calls);
    ContentWithin(limit, s0, node.data, calls);
    PutTotal(m.tree, q, node.(data := FinalContent(limit, m, q, trunc, ino, calls)));
  }

  /** A session without calls and without truncation leaves every file as it was, and a new one empty. */
  lemma IdleSession(sv: Server, q: Request, m: Moment, m': Moment)
    requires Sane(sv, m) && q.Session? && PerformsSession(sv, q, m, m') && q.calls == [] && !q.trunc
    ensures forall p :: p in m.tree ==> p in m'.tree && m'.tree[p] == m.tree[p]
    ensures forall p :: p in m'.tree && p !in m.tree ==> Size(m'.tree[p]) == 0
  {
    var at := LocateIn(sv.base, q.p);
    if !Refused(m, m') {
      UnsafePathNormalForm(sv.base, q.p);
      WithDirsMeaning(m.tree, Parent(at.path));
    }
  }

  /** A file is uploaded through a session: it holds the chunks one after the other if and only if there
      is room for all of them in place of what the file held before. */
  lemma UploadSession(sv: Server, q: Request, m: Moment, m': Moment)
    requires Sane(sv, m) && q.Session? && PerformsSession(sv, q, m, m') && q.trunc && Openable(sv, q.p, q.f, m.tree)
    requires forall c :: c in q.calls ==> Smooth(c)
    ensures var p, end := LocateIn(sv.base, q.p).path, ByteCount(q.calls);
      && p in m'.tree && m'.tree[p].File?
      && (m'.tree[p].data == Chunks(q.calls) <==>
            && end <= MAX_INT64
            && (end <= FileSize(m.tree, p)
                || (sv.limit != -1 && (sv.limit == 0 || m.usage as int + end - FileSize(m.tree, p) <= sv.limit as int))))
  {
    assert SizesFit(m.tree);
    hide Sound, UnsafePath, ContentAfter, AfterCalls, WithDirs, Writable;
    var p := LocateIn(sv.base, q.p).path;
    OpeningIsPossible(m.tree, m.usage, p);
    UploadedWhole(sv.limit, Opening(m.tree, m.usage, p), q.calls);
  }

  /** Every operation of the server. */
  lemma StepAccounts(sv: Server, q: Request, m: Moment, m': Moment)
    requires Sane(sv, m) && Acceptable(q) && Performed(sv, q, m, m')
    ensures Accounts(sv, q, m, m')
  {
    match q
    case WriteFile(_, _, _, _) => WriteAccounts(sv, q, m, m');
    case CopyFile(_, _, _) => CopyAccounts(sv, q, m, m');
    case RenameFile(_, _, _) => MoveAccounts(sv, q, m, m');
    case CreateDirectory(_, _, _) => RefusedAccounts(sv, q, m, m');
    case DeleteFile(_) => DeleteAccounts(sv, q, m, m');
    case EmptyRoot(_, _, _) => EmptyAccounts(sv, q, m, m');
    case Session(_, _, _, _, _, _) => SessionAccounts(sv, q, m, m');
  }

  /** With a limit, and where nothing refuses to be unlinked, the counter always goes on covering the
      tree: colliding copies, failing stats and failing truncations only leave it too high. */
  lemma NothingUndercuts(sv: Server, q: Request, m: Moment)
    requires Sane(sv, m) && sv.limit != 0 && sv.kernel.unlinkRefused == map[]
    ensures !Undercuts(sv, q, m)
  {
    if q.Session? && LocateIn(sv.base, q.p).At? {
      var path := LocateIn(sv.base, q.p).path;
      var s0 := Opening(m.tree, m.usage, path);
      OpeningIsPossible(m.tree, m.usage, path);
      CallsConserve(sv.limit, s0, q.calls);
      ContentWithin(sv.limit, s0, TouchedNode(m.tree, path, q.trunc, q.f.ino).data, q.calls);
    }
  }

  lemma StepCovers(sv: Server, q: Request, m: Moment, m': Moment)
    requires Sane(sv, m) && Acceptable(q) && Performed(sv, q, m, m')
    requires sv.limit != 0 && sv.kernel.unlinkRefused == map[] && Covered(sv.limit, m)
    ensures Covered(sv.limit, m')
  {
    NothingUndercuts(sv, q, m);
    StepAccounts(sv, q, m, m');
  }

  /** A session with a final stat that stays within reach of the counter disturbs nothing. */
  lemma SessionsWithinReach(sv: Server, q: Request, m: Moment, reach: nat)
    requires Sane(sv, m) && q.Session? && q.stats
    requires var at := LocateIn(sv.base, q.p); at.At? ==> WithinReach(Opening(m.tree, m.usage, at.path), q.calls, reach)
    ensures !Disturbs(sv, q, m) && !Undercuts(sv, q, m)
  {
    var at := LocateIn(sv.base, q.p);
    if at.At? {
      OpeningIsPossible(m.tree, m.usage, at.path);
      NothingLostWithinReach(sv.limit, Opening(m.tree, m.usage, at.path), q.calls, reach);
    }
  }

  // ------------------------------------------------------------------ runs

  /** The moments before, between and after the operations of a run: each is what the operation makes of
      the one before. */
  ghost predicate Traced(sv: Server, requests: seq<Request>, trace: seq<Moment>) {
    && |trace| == |requests| + 1
    && (forall i :: 0 <= i < |trace| ==> Sane(sv, trace[i]))
    && (forall i {:trigger requests[i]} :: 0 <= i < |requests| ==> Performed(sv, requests[i], trace[i], trace[i + 1]))
  }

  lemma TracedPrefix(sv: Server, requests: seq<Request>, trace: seq<Moment>, q: Request, m: Moment)
    requires Traced(sv, requests, trace) && Performed(sv, q, trace[|requests|], m) && Sane(sv, m)
    ensures Traced(sv, requests + [q], trace + [m])
  {
    hide Performed, Sane;
    var requests', trace' := requests + [q], trace + [m];
    forall i | 0 <= i < |requests'| ensures Performed(sv, requests'[i], trace'[i], trace'[i + 1]) {
      if i < |requests| {
        assert Performed(sv, requests[i], trace[i], trace[i + 1]);
      }
    }
  }

  /** A run that starts exact and that nothing disturbs is exact at every moment, on servers with and
      without a limit. */
  lemma {:induction false} ExactThroughout(sv: Server, requests: seq<Request>, trace: seq<Moment>, n: nat)
    requires Traced(sv, requests, trace) && n <= |requests| && Exact(trace[0])
    requires forall i {:trigger requests[i]} :: 0 <= i < |requests| ==> Acceptable(requests[i]) && !Disturbs(sv, requests[i], trace[i])
    ensures Exact(trace[n])
    decreases n
  {
    hide Performed, Sane, Disturbs, Undercuts, Exact, Covered, Acceptable;
    if n > 0 {
      ExactThroughout(sv, requests, trace, n - 1);
      assert Performed(sv, requests[n - 1], trace[n - 1], trace[n]);
      StepAccounts(sv, requests[n - 1], trace[n - 1], trace[n]);
    }
  }

  /** Once the counter covers the tree it does so at every moment, and a positive limit covers the
      counter, as long as nothing undercuts it. */
  lemma {:induction false} CoveredThroughout(sv: Server, requests: seq<Request>, trace: seq<Moment>, n: nat)
    requires Traced(sv, requests, trace) && n <= |requests| && Covered(sv.limit, trace[0])
    requires forall i {:trigger requests[i]} :: 0 <= i < |requests| ==> Acceptable(requests[i]) && !Undercuts(sv, requests[i], trace[i])
    ensures Covered(sv.limit, trace[n])
    decreases n
  {
    hide Performed, Sane, Disturbs, Undercuts, Exact, Covered, Acceptable;
    if n > 0 {
      CoveredThroughout(sv, requests, trace, n - 1);
      assert Performed(sv, requests[n - 1], trace[n - 1], trace[n]);
      StepAccounts(sv, requests[n - 1], trace[n - 1], trace[n]);
    }
  }
}
