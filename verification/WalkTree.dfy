/** WalkDir: the preorder walk with SkipDir and SkipAll, and what a pruning callback sees of it. */
module WalkTree {
  import opened Collections
  import opened FileTree
  import opened Ufs
  import opened RemoveAll

  /** What the callback returns: nil, SkipDir, SkipAll, or an error that stops the walk. */
  datatype Verdict = Continue | SkipDir | SkipAll | Stop(error: FsError)

  /** The order in which directories are listed. */
  type Order = Path -> seq<string>

  ghost predicate Listing(t: Tree, ls: Order) {
    forall d {:trigger ls(d)} :: d in t && t[d].Dir? ==> Lists(t, d, ls(d)) && Distinct(ls(d))
  }

  /** walkDir at `p`: the paths the callback was called on, and the verdict passed upwards. `onError`
      is the second callback for a directory that cannot be read. */
  ghost function WalkDir(t: Tree, k: Kernel, ls: Order, fn: Path -> Verdict, onError: Path -> Verdict, p: Path, depth: nat): (seq<Path>, Verdict)
    requires WellFormed(t) && Listing(t, ls) && p in t && DepthBelow(t, p, depth)
    decreases depth, 1, 0
  {
    var v := fn(p);
    if v != Continue || t[p].File? then
      if v == SkipDir && t[p].Dir? then ([p], Continue) else ([p], v)
    else if !Opens(k, p) then
      var e := onError(p);
      ([p], if e == SkipDir then Continue else e)
    else
      var r := WalkEntries(t, k, ls, fn, onError, p, ls(p), depth);
      ([p] + r.0, r.1)
  }

  /** The loop over the entries of the directory `p`. */
  ghost function WalkEntries(t: Tree, k: Kernel, ls: Order, fn: Path -> Verdict, onError: Path -> Verdict, p: Path, names: seq<string>, depth: nat): (seq<Path>, Verdict)
    requires WellFormed(t) && Listing(t, ls) && DepthBelow(t, p, depth)
    requires forall n :: n in names ==> p + [n] in t
    decreases depth, 0, |names|
  {
    if names == [] then ([], Continue)
    else
      var c := p + [names[0]];
      assert names[0] in names && Below(p, c);
      ChildDepth(t, t, p, c, depth);
      var r := WalkDir(t, k, ls, fn, onError, c, depth - 1);
      if r.1 == SkipDir then (r.0, Continue)
      else if r.1 != Continue then r
      else
        var rest := WalkEntries(t, k, ls, fn, onError, p, names[1..], depth);
        (r.0 + rest.0, rest.1)
  }

  // ------------------------------------------------------------------ the flat listing

  /** The tree below `p` in preorder: a directory before its entries. */
  ghost function Preorder(t: Tree, ls: Order, p: Path, depth: nat): seq<Path>
    requires WellFormed(t) && Listing(t, ls) && p in t && DepthBelow(t, p, depth)
    decreases depth, 1, 0
  {
    if t[p].File? then [p] else [p] + PreorderEntries(t, ls, p, ls(p), depth)
  }

  ghost function PreorderEntries(t: Tree, ls: Order, p: Path, names: seq<string>, depth: nat): seq<Path>
    requires WellFormed(t) && Listing(t, ls) && DepthBelow(t, p, depth)
    requires forall n :: n in names ==> p + [n] in t
    decreases depth, 0, |names|
  {
    if names == [] then [] else
      var c := p + [names[0]];
      assert names[0] in names && Below(p, c);
      ChildDepth(t, t, p, c, depth);
      Preorder(t, ls, c, depth - 1) + PreorderEntries(t, ls, p, names[1..], depth)
  }

  ghost function Filter(s: seq<Path>, keep: Path -> bool): seq<Path> {
    if s == [] then [] else (if keep(s[0]) then [s[0]] else []) + Filter(s[1..], keep)
  }

  lemma {:induction false} FilterAppend(a: seq<Path>, b: seq<Path>, keep: Path -> bool)
    ensures Filter(a + b, keep) == Filter(a, keep) + Filter(b, keep)
  {
    if a == [] {
      assert a + b == b;
    } else {
      assert (a + b)[1..] == a[1..] + b;
      FilterAppend(a[1..], b, keep);
    }
  }

  lemma {:induction false} FilterAgrees(s: seq<Path>, keep: Path -> bool, keep': Path -> bool)
    requires forall q :: q in s ==> keep(q) == keep'(q)
    ensures Filter(s, keep) == Filter(s, keep')
  {
    if s != [] {
      FilterAgrees(s[1..], keep, keep');
    }
  }

  lemma {:induction false} FilterNone(s: seq<Path>, keep: Path -> bool)
    requires forall q :: q in s ==> !keep(q)
    ensures Filter(s, keep) == []
  {
    if s != [] {
      FilterNone(s[1..], keep);
    }
  }

  lemma {:induction false} FilterMember(s: seq<Path>, keep: Path -> bool, q: Path)
    ensures q in Filter(s, keep) <==> q in s && keep(q)
  {
    if s != [] {
      FilterMember(s[1..], keep, q);
    }
  }

  lemma {:induction false} FilterDistinct(s: seq<Path>, keep: Path -> bool)
    requires Distinct(s)
    ensures Distinct(Filter(s, keep))
  {
    if s != [] {
      FilterDistinct(s[1..], keep);
      FilterMember(s[1..], keep, s[0]);
      assert s[0] !in s[1..];
    }
  }

  lemma {:induction false} PreorderCovers(t: Tree, ls: Order, p: Path, depth: nat)
    requires WellFormed(t) && Listing(t, ls) && p in t && DepthBelow(t, p, depth)
    ensures forall q :: q in Preorder(t, ls, p, depth) <==> q in t && Under(p, q)
    ensures Distinct(Preorder(t, ls, p, depth))
    decreases depth, 1, 0
  {
    assert Under(p, p);
    if t[p].File? {
      forall q | q in t && Under(p, q) ensures q == p {
        FileIsAlone(t, p, q);
      }
    } else {
      var s := PreorderEntries(t, ls, p, ls(p), depth);
      PreorderEntriesCover(t, ls, p, ls(p), depth);
      forall q | q in t && Below(p, q) ensures q in s {
        BelowIsLonger(p, q);
        AncestorInTree(t, Child(p, q), q);
        assert q[|p|] in ls(p);
      }
      assert p !in s;
    }
  }

  /** `s` lists the entries of `t` at and below the children `names` of `p`, each once. */
  ghost predicate CoversChildren(t: Tree, p: Path, names: seq<string>, s: seq<Path>) {
    Distinct(s) && forall q :: q in s <==> q in t && Below(p, q) && q[|p|] in names
  }

  lemma OneMoreChild(t: Tree, p: Path, names: seq<string>, first: seq<Path>, rest: seq<Path>)
    requires names != [] && Distinct(names)
    requires Distinct(first) && forall q :: q in first <==> q in t && Under(p + [names[0]], q)
    requires CoversChildren(t, p, names[1..], rest)
    ensures CoversChildren(t, p, names, first + rest)
  {
    var c := p + [names[0]];
    assert Parent(c) == p && names[0] !in names[1..];
    forall q | Under(c, q) ensures Below(p, q) && q[|p|] == names[0] {
      UnderChild(p, c, q);
    }
    forall q | Below(p, q) && q[|p|] == names[0] ensures Under(c, q) {
      BelowIsLonger(p, q);
    }
    assert forall n :: n in names <==> n == names[0] || n in names[1..];
    ConcatDistinct(first, rest);
  }

  lemma {:induction false} PreorderEntriesCover(t: Tree, ls: Order, p: Path, names: seq<string>, depth: nat)
    requires WellFormed(t) && Listing(t, ls) && DepthBelow(t, p, depth)
    requires (forall n :: n in names ==> p + [n] in t) && Distinct(names)
    ensures CoversChildren(t, p, names, PreorderEntries(t, ls, p, names, depth))
    decreases depth, 0, |names|
  {
    if names != [] {
      var c := p + [names[0]];
      assert names[0] in names && Below(p, c);
      ChildDepth(t, t, p, c, depth);
      assert forall n :: n in names[1..] ==> n in names;
      PreorderCovers(t, ls, c, depth - 1);
      PreorderEntriesCover(t, ls, p, names[1..], depth);
      OneMoreChild(t, p, names, Preorder(t, ls, c, depth - 1), PreorderEntries(t, ls, p, names[1..], depth));
    }
  }

  // ------------------------------------------------------------------ pruning

  /** A callback that only prunes: it never stops the walk, and skips directories only; the
      directories it does not skip can be read. */
  ghost predicate Prunes(t: Tree, k: Kernel, fn: Path -> Verdict, p: Path) {
    forall q {:trigger fn(q)} :: q in t && Under(p, q) ==>
      && (fn(q) == Continue || (fn(q) == SkipDir && t[q].Dir?))
      && (t[q].Dir? && fn(q) == Continue ==> Opens(k, q))
  }

  /** Every directory strictly above `q`, from depth `top` on, passed. */
  ghost predicate Reached(fn: Path -> Verdict, top: nat, q: Path) {
    forall j :: top <= j < |q| ==> fn(q[..j]) == Continue
  }

  ghost function Reaches(fn: Path -> Verdict, top: nat): Path -> bool {
    q => Reached(fn, top, q)
  }

  lemma ReachedThrough(fn: Path -> Verdict, p: Path, q: Path)
    requires Below(p, q)
    ensures Reached(fn, |p|, q) <==> fn(p) == Continue && Reached(fn, |p| + 1, q)
  {
    BelowIsLonger(p, q);
    assert q[..|p|] == p;
  }

  lemma PrunesBelow(t: Tree, k: Kernel, fn: Path -> Verdict, p: Path, c: Path)
    requires Prunes(t, k, fn, p) && Under(p, c)
    ensures Prunes(t, k, fn, c)
  {
    forall q | q in t && Under(c, q) ensures Under(p, q) {
      UnderTransitive(p, c, q);
    }
  }

  /** The pruned walk is a filter of the flat preorder listing: it visits exactly the paths all of
      whose ancestor directories passed, each once and in the same order. Skipping a directory does
      not cut off its siblings. */
  lemma {:induction false} PrunedWalk(t: Tree, k: Kernel, ls: Order, fn: Path -> Verdict, onError: Path -> Verdict, p: Path, depth: nat)
    requires WellFormed(t) && Listing(t, ls) && p in t && DepthBelow(t, p, depth) && Prunes(t, k, fn, p)
    ensures WalkDir(t, k, ls, fn, onError, p, depth)
         == (Filter(Preorder(t, ls, p, depth), Reaches(fn, |p|)), Continue)
    decreases depth, 1, 0
  {
    assert Under(p, p);
    var keep := Reaches(fn, |p|);
    assert Filter([p], keep) == [p];
    if t[p].Dir? {
      var entries := PreorderEntries(t, ls, p, ls(p), depth);
      PreorderEntriesCover(t, ls, p, ls(p), depth);
      FilterAppend([p], entries, keep);
      forall q | q in entries ensures keep(q) <==> fn(p) == Continue && Reaches(fn, |p| + 1)(q) {
        ReachedThrough(fn, p, q);
      }
      if fn(p) == Continue {
        PrunedEntries(t, k, ls, fn, onError, p, ls(p), depth);
        FilterAgrees(entries, keep, Reaches(fn, |p| + 1));
      } else {
        FilterNone(entries, keep);
      }
    }
  }

  lemma {:induction false} PrunedEntries(t: Tree, k: Kernel, ls: Order, fn: Path -> Verdict, onError: Path -> Verdict, p: Path, names: seq<string>, depth: nat)
    requires WellFormed(t) && Listing(t, ls) && DepthBelow(t, p, depth) && Prunes(t, k, fn, p)
    requires forall n :: n in names ==> p + [n] in t
    ensures EntriesFiltered(t, k, ls, fn, onError, p, names, depth, |p| + 1)
    decreases depth, 0, |names|
  {
    if names != [] {
      var c := p + [names[0]];
      assert names[0] in names && Below(p, c);
      ChildDepth(t, t, p, c, depth);
      assert ChildFiltered(t, k, ls, fn, onError, c, depth - 1, |p| + 1) by {
        PrunesBelow(t, k, fn, p, c);
        PrunedWalk(t, k, ls, fn, onError, c, depth - 1);
        assert |c| == |p| + 1;
      }
      assert forall n :: n in names[1..] ==> n in names;
      PrunedEntries(t, k, ls, fn, onError, p, names[1..], depth);
      PrunedStep(t, k, ls, fn, onError, p, names, depth, |p| + 1);
    }
  }

  /** The walk of an entry visits what the filter of its preorder listing keeps. */
  ghost predicate ChildFiltered(t: Tree, k: Kernel, ls: Order, fn: Path -> Verdict, onError: Path -> Verdict, c: Path, depth: nat, top: nat)
    requires WellFormed(t) && Listing(t, ls) && c in t && DepthBelow(t, c, depth)
  {
    WalkDir(t, k, ls, fn, onError, c, depth) == (Filter(Preorder(t, ls, c, depth), Reaches(fn, top)), Continue)
  }

  ghost predicate EntriesFiltered(t: Tree, k: Kernel, ls: Order, fn: Path -> Verdict, onError: Path -> Verdict, p: Path, names: seq<string>, depth: nat, top: nat)
    requires WellFormed(t) && Listing(t, ls) && DepthBelow(t, p, depth)
    requires forall n :: n in names ==> p + [n] in t
  {
    WalkEntries(t, k, ls, fn, onError, p, names, depth) == (Filter(PreorderEntries(t, ls, p, names, depth), Reaches(fn, top)), Continue)
  }

  lemma PrunedStep(t: Tree, k: Kernel, ls: Order, fn: Path -> Verdict, onError: Path -> Verdict, p: Path, names: seq<string>, depth: nat, top: nat)
    requires WellFormed(t) && Listing(t, ls) && DepthBelow(t, p, depth) && 0 < depth && names != []
    requires (forall n :: n in names ==> p + [n] in t) && DepthBelow(t, p + [names[0]], depth - 1)
    requires ChildFiltered(t, k, ls, fn, onError, p + [names[0]], depth - 1, top)
    requires EntriesFiltered(t, k, ls, fn, onError, p, names[1..], depth, top)
    ensures EntriesFiltered(t, k, ls, fn, onError, p, names, depth, top)
  {
    FilterAppend(Preorder(t, ls, p + [names[0]], depth - 1), PreorderEntries(t, ls, p, names[1..], depth), Reaches(fn, top));
  }
}
