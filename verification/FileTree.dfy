/** The file tree a server lives in: a map from component paths to directories and regular files,
    and what single operations do to it and to its total size. */
module FileTree {
  import opened Int64
  import opened Sums
  import opened PathText

  newtype byte = x: int | 0 <= x < 256
  type Bytes = seq<byte>
  type Path = seq<string>

  datatype Node =
    | Dir
    | File(ino: nat, nlink: nat, data: Bytes)

  type Tree = map<Path, Node>

  function Parent(p: Path): Path
    requires p != []
  {
    p[..|p| - 1]
  }

  predicate Under(top: Path, p: Path) {
    |top| <= |p| && p[..|top|] == top
  }

  lemma UnderTransitive(a: Path, b: Path, c: Path)
    requires Under(a, b) && Under(b, c)
    ensures Under(a, c)
  {
    assert c[..|a|] == c[..|b|][..|a|];
  }

  ghost predicate WellFormed(t: Tree) {
    && [] in t && t[[]].Dir?
    && (forall p {:trigger ValidNames(p)} :: p in t ==> ValidNames(p))
    && (forall p {:trigger Parent(p)} :: p in t && p != [] ==> Parent(p) in t && t[Parent(p)].Dir?)
  }

  ghost predicate NoHardLinks(t: Tree) {
    forall p {:trigger t[p].nlink} :: p in t && t[p].File? ==> t[p].nlink == 1
  }

  /** Every file size is an int64. */
  ghost predicate SizesFit(t: Tree) {
    forall p {:trigger Size(t[p])} :: p in t ==> Size(t[p]) <= MAX_INT64
  }

  function Size(n: Node): nat {
    if n.File? then |n.data| else 0
  }

  /** Every prefix of a path in the tree is in the tree, and the proper ones are directories. */
  lemma {:induction false} PrefixInTree(t: Tree, p: Path, k: nat)
    requires WellFormed(t) && p in t && k <= |p|
    ensures p[..k] in t
    ensures k < |p| ==> t[p[..k]].Dir?
    decreases |p| - k
  {
    if k < |p| {
      PrefixInTree(t, p, k + 1);
      assert Parent(p[..k + 1]) == p[..k];
    } else {
      assert p[..k] == p;
    }
  }

  lemma AncestorInTree(t: Tree, a: Path, p: Path)
    requires WellFormed(t) && p in t && Under(a, p)
    ensures a in t
    ensures a != p ==> t[a].Dir?
  {
    PrefixInTree(t, p, |a|);
    if |a| == |p| {
      assert a == p;
    }
  }

  lemma FileIsAlone(t: Tree, u: Path, q: Path)
    requires WellFormed(t) && u in t && t[u].File? && q in t && Under(u, q)
    ensures q == u
  {
    AncestorInTree(t, u, q);
  }

  // ------------------------------------------------------------------ lookup

  datatype Lookup = Found(node: Node) | Missing | NotDirectory

  /** What a stat of the path answers: a path through a file is "not a directory". */
  function Resolve(t: Tree, p: Path): Lookup
    decreases |p|
  {
    if p in t then Found(t[p])
    else if p == [] then Missing
    else
      match Resolve(t, Parent(p))
      case Found(Dir) => Missing
      case Found(File(_, _, _)) => NotDirectory
      case r => r
  }

  lemma {:induction false} ResolveMeaning(t: Tree, p: Path)
    requires WellFormed(t)
    ensures Resolve(t, p).Found? <==> p in t
    ensures Resolve(t, p).NotDirectory? <==> exists k :: 0 <= k < |p| && p[..k] in t && t[p[..k]].File?
    decreases |p|
  {
    if p in t {
      forall k | 0 <= k < |p| ensures p[..k] in t && t[p[..k]].Dir? {
        PrefixInTree(t, p, k);
      }
    } else {
      var q := Parent(p);
      ResolveMeaning(t, q);
      assert forall k :: 0 <= k < |q| ==> q[..k] == p[..k];
      assert q == p[..|q|];
      if q in t && t[q].Dir? {
        forall k | 0 <= k < |p| ensures p[..k] in t && t[p[..k]].Dir? {
          PrefixInTree(t, q, k);
          assert q[..k] == p[..k];
        }
      }
    }
  }

  // ------------------------------------------------------------------ sizes

  /** The sizes the ledger stands for: a file with an open quota handle counts with the size that
      handle has accounted, every other file with its real size. */
  ghost function View(t: Tree, accounted: map<Path, nat>): map<Path, nat> {
    map p | p in t :: if p in accounted then accounted[p] else Size(t[p])
  }

  ghost function Total(t: Tree): nat {
    Sum(View(t, map[]))
  }

  ghost function Accounted(t: Tree, accounted: map<Path, nat>): nat {
    Sum(View(t, accounted))
  }

  lemma AccountedPut(t: Tree, acc: map<Path, nat>, p: Path, n: Node)
    requires p !in acc
    ensures Accounted(t[p := n], acc) == Accounted(t, acc) + Size(n) - (if p in t then Size(t[p]) else 0)
  {
    assert View(t[p := n], acc) == View(t, acc)[p := Size(n)];
    SumPut(View(t, acc), p, Size(n));
  }

  lemma AccountedRemove(t: Tree, acc: map<Path, nat>, p: Path)
    requires p in t && p !in acc
    ensures Accounted(t - {p}, acc) == Accounted(t, acc) - Size(t[p])
  {
    assert View(t - {p}, acc) == View(t, acc) - {p};
    SumRemove(View(t, acc), p);
  }

  /** Real content may change under an open handle without moving the accounted total. */
  lemma AccountedHidden(t: Tree, acc: map<Path, nat>, p: Path, n: Node)
    requires p in t && p in acc
    ensures Accounted(t[p := n], acc) == Accounted(t, acc)
  {
    assert View(t[p := n], acc) == View(t, acc);
  }

  lemma AccountedHandle(t: Tree, acc: map<Path, nat>, p: Path, size: nat)
    requires p in t
    ensures Accounted(t, acc[p := size]) == Accounted(t, acc) + size - (if p in acc then acc[p] else Size(t[p]))
  {
    assert View(t, acc[p := size]) == View(t, acc)[p := size];
    SumPut(View(t, acc), p, size);
  }

  lemma AccountedRelease(t: Tree, acc: map<Path, nat>, p: Path)
    requires p in t && p in acc
    ensures Accounted(t, acc - {p}) == Accounted(t, acc) - acc[p] + Size(t[p])
  {
    assert View(t, acc - {p}) == View(t, acc)[p := Size(t[p])];
    SumPut(View(t, acc), p, Size(t[p]));
  }

  /** With every handle accounting at least the real size, the real total is at most the accounted. */
  lemma TotalAtMostAccounted(t: Tree, acc: map<Path, nat>)
    requires forall p :: p in t && p in acc ==> Size(t[p]) <= acc[p]
    ensures Total(t) <= Accounted(t, acc)
  {
    SumMonotone(View(t, map[]), View(t, acc));
  }

  lemma PartWeighsLess(t: Tree, s: Tree)
    requires forall p :: p in s ==> p in t && s[p] == t[p]
    ensures Total(s) <= Total(t)
  {
    SumMonotone(View(s, map[]), View(t, map[]));
  }

  // ------------------------------------------------------------------ creating directories

  /** The tree with every missing prefix of `d` added as a directory. */
  function WithDirs(t: Tree, d: Path): Tree
    decreases |d|
  {
    if d == [] || d in t then t else WithDirs(t, Parent(d))[d := Dir]
  }

  /** The prefixes of `d` that are not in the tree, shallowest first. */
  function MissingPrefixes(t: Tree, d: Path): seq<Path>
    decreases |d|
  {
    if d == [] || d in t then [] else MissingPrefixes(t, Parent(d)) + [d]
  }

  /** No prefix of `d` is a file. */
  ghost predicate NoFileOnPath(t: Tree, d: Path) {
    forall k :: 0 <= k <= |d| && d[..k] in t ==> t[d[..k]].Dir?
  }

  lemma {:induction false} NoFileOnParent(t: Tree, d: Path)
    requires NoFileOnPath(t, d) && d != []
    ensures NoFileOnPath(t, Parent(d))
  {
    var q := Parent(d);
    assert forall k :: 0 <= k <= |q| ==> q[..k] == d[..k];
  }

  /** Exactly the prefixes of `d` are added, as directories, and nothing else changes. */
  lemma {:induction false} WithDirsMeaning(t: Tree, d: Path)
    requires WellFormed(t) && ValidNames(d) && NoFileOnPath(t, d)
    ensures WellFormed(WithDirs(t, d))
    ensures d in WithDirs(t, d) && WithDirs(t, d)[d].Dir?
    ensures forall p :: p in t ==> p in WithDirs(t, d) && WithDirs(t, d)[p] == t[p]
    ensures forall p :: p in WithDirs(t, d) && p !in t ==> Under(p, d) && WithDirs(t, d)[p] == Dir
    ensures OnlyDirsAdded(t, WithDirs(t, d))
    decreases |d|
  {
    if d == [] || d in t {
      assert d[..|d|] == d;
    } else {
      var q := Parent(d);
      NoFileOnParent(t, d);
      WithDirsMeaning(t, q);
      var w := WithDirs(t, q);
      forall p | p in w && p !in t ensures Under(p, d) {
        assert q == d[..|q|] && p == q[..|p|] == d[..|p|];
      }
    }
  }

  /** Nothing but directories was added, and nothing else changed. */
  ghost predicate OnlyDirsAdded(t: Tree, t': Tree) {
    && WellFormed(t')
    && (forall p :: p in t ==> p in t' && t'[p] == t[p])
    && (forall p :: p in t' && p !in t ==> t'[p] == Dir)
  }

  lemma DirsWeighNothing(t: Tree, t': Tree, acc: map<Path, nat>)
    requires OnlyDirsAdded(t, t') && acc.Keys <= t.Keys
    ensures Accounted(t', acc) == Accounted(t, acc)
    ensures NoHardLinks(t) ==> NoHardLinks(t')
    ensures SizesFit(t) ==> SizesFit(t')
  {
    SumPad(View(t, acc), View(t', acc));
  }

  // ------------------------------------------------------------------ moving

  function Relocate(o: Path, n: Path, p: Path): Path {
    if Under(o, p) then n + p[|o|..] else p
  }

  function Origin(o: Path, n: Path, q: Path): Path {
    if Under(n, q) then o + q[|n|..] else q
  }

  /** The tree with everything at and below `o` moved to `n`. */
  function Move(t: Tree, o: Path, n: Path): Tree {
    map q | q in (set p | p in t :: Relocate(o, n, p)) && Origin(o, n, q) in t :: t[Origin(o, n, q)]
  }

  lemma RelocateBack(o: Path, n: Path, p: Path)
    requires Under(o, p)
    ensures var q := Relocate(o, n, p); Under(n, q) && o + q[|n|..] == p
  {
    var q := n + p[|o|..];
    assert q[|n|..] == p[|o|..];
    assert p == p[..|o|] + p[|o|..];
    assert q[..|n|] == n;
  }

  lemma OriginOfRelocated(t: Tree, o: Path, n: Path, p: Path)
    requires WellFormed(t) && n !in t && p in t
    ensures Origin(o, n, Relocate(o, n, p)) == p
  {
    if Under(o, p) {
      RelocateBack(o, n, p);
    } else if Under(n, p) {
      AncestorInTree(t, n, p);
    }
  }

  /** A move to a free place keeps every node with its content, and no two nodes meet. */
  lemma MoveMeaning(t: Tree, o: Path, n: Path)
    requires WellFormed(t) && n !in t
    ensures forall p :: p in t ==> Relocate(o, n, p) in Move(t, o, n) && Move(t, o, n)[Relocate(o, n, p)] == t[p]
    ensures forall q :: q in Move(t, o, n) ==> Origin(o, n, q) in t && Relocate(o, n, Origin(o, n, q)) == q
    ensures forall p, q :: p in t && q in t && Relocate(o, n, p) == Relocate(o, n, q) ==> p == q
  {
    forall p | p in t ensures Origin(o, n, Relocate(o, n, p)) == p {
      OriginOfRelocated(t, o, n, p);
    }
  }

  lemma UnderParent(o: Path, p: Path)
    requires p != [] && p != o
    ensures Under(o, Parent(p)) <==> Under(o, p)
  {
    if |o| < |p| {
      assert Parent(p)[..|o|] == p[..|o|];
    } else if |o| == |p| {
      assert p[..|o|] == p;
    }
  }

  lemma RelocateParent(o: Path, n: Path, p: Path)
    requires p != [] && p != o && n != []
    ensures Relocate(o, n, p) != []
    ensures Parent(Relocate(o, n, p)) == Relocate(o, n, Parent(p))
  {
    UnderParent(o, p);
    if Under(o, p) {
      var q := Parent(p);
      assert q[|o|..] == p[|o|..][..|p| - |o| - 1];
      assert Parent(n + p[|o|..]) == n + q[|o|..];
    }
  }

  lemma RelocatedNamesValid(o: Path, n: Path, p: Path)
    requires ValidNames(n) && ValidNames(p)
    ensures ValidNames(Relocate(o, n, p))
  {
  }

  lemma MoveWellFormed(t: Tree, o: Path, n: Path)
    requires WellFormed(t) && o in t && o != [] && n != [] && n !in t && ValidNames(n)
    requires Parent(n) in t && t[Parent(n)].Dir? && !Under(o, n)
    ensures WellFormed(Move(t, o, n))
  {
    var m := Move(t, o, n);
    MoveMeaning(t, o, n);
    assert Relocate(o, n, []) == [];
    UnderParent(o, n);
    assert Relocate(o, n, Parent(n)) == Parent(n);
    assert Relocate(o, n, o) == n by { assert o[|o|..] == []; }
    forall q | q in m ensures ValidNames(q) && (q != [] ==> Parent(q) in m && m[Parent(q)].Dir?) {
      var p := Origin(o, n, q);
      RelocatedNamesValid(o, n, p);
      if p != [] && p != o {
        RelocateParent(o, n, p);
      }
    }
  }

  lemma MoveKeepsNodes(t: Tree, o: Path, n: Path)
    requires WellFormed(t) && n !in t
    ensures NoHardLinks(t) ==> NoHardLinks(Move(t, o, n))
    ensures SizesFit(t) ==> SizesFit(Move(t, o, n))
    ensures forall p :: p in t && !Under(o, p) ==> p in Move(t, o, n) && Move(t, o, n)[p] == t[p]
  {
    MoveMeaning(t, o, n);
    assert forall p :: p in t && !Under(o, p) ==> Relocate(o, n, p) == p;
  }

  lemma MoveKeepsSizes(t: Tree, o: Path, n: Path, acc: map<Path, nat>)
    requires WellFormed(t) && n !in t
    requires forall p :: p in acc ==> p in t && !Under(o, p)
    ensures Accounted(Move(t, o, n), acc) == Accounted(t, acc)
  {
    MoveMeaning(t, o, n);
    var m := Move(t, o, n);
    var f := map p | p in t :: Relocate(o, n, p);
    var before, after := View(t, acc), View(m, acc);
    forall p | p in t ensures f[p] in after && after[f[p]] == before[p] {
      if f[p] in acc {
        assert Relocate(o, n, f[p]) == f[p];
      }
    }
    forall q ensures q in after <==> exists p :: p in f && f[p] == q {
      if q in m {
        var p := Origin(o, n, q);
        assert p in f && f[p] == q;
      }
    }
    SumRekey(before, after, f);
  }
}
