/** The recursive delete: mutual recursion over directories that are read in batches and re-opened
    while they shrink, with a ledger that is charged on the way. */
module RemoveAll {
  import opened Collections
  import opened Int64
  import opened Sums
  import opened PathText
  import opened FileTree
  import opened Ufs

  // ------------------------------------------------------------------ what a delete leaves behind

  /** A refusal that makes the delete give up on an entry without looking inside. */
  ghost predicate Hard(k: Kernel, p: Path) {
    p in k.unlinkRefused && k.unlinkRefused[p] == EIO
  }

  ghost predicate Opens(k: Kernel, p: Path) {
    p !in k.unopenable && p !in k.unreadable
  }

  ghost predicate Entered(k: Kernel, p: Path) {
    !Hard(k, p) && Opens(k, p)
  }

  /** Every directory strictly above `q`, from depth `top` on, is entered. */
  ghost predicate Clear(k: Kernel, top: nat, q: Path) {
    forall j :: top <= j < |q| ==> Entered(k, q[..j])
  }

  ghost predicate Refuses(t: Tree, k: Kernel, q: Path)
    requires q in t
  {
    if t[q].File? then q in k.unlinkRefused else q in k.rmdirRefused || Hard(k, q)
  }

  /** The entry cannot go: it refuses, or the delete never gets to it. */
  ghost predicate Stuck(t: Tree, k: Kernel, top: nat, q: Path) {
    q in t && (Refuses(t, k, q) || !Clear(k, top, q))
  }

  /** An entry at or below the target survives exactly when it is stuck or an ancestor of a stuck
      entry. */
  ghost predicate Survives(t: Tree, k: Kernel, u: Path, p: Path) {
    p in t && Under(u, p) && exists q :: Under(p, q) && Stuck(t, k, |u|, q)
  }

  /** The tree after deleting the target `u`. */
  ghost function After(t: Tree, k: Kernel, u: Path): Tree {
    map p | p in t && (Under(u, p) ==> Survives(t, k, u, p)) :: t[p]
  }

  ghost predicate Below(u: Path, p: Path) {
    Under(u, p) && p != u
  }

  /** The child of `u` on the way to `p`. */
  ghost function Child(u: Path, p: Path): Path
    requires Below(u, p)
  {
    BelowIsLonger(u, p);
    u + [p[|u|]]
  }

  lemma BelowIsLonger(u: Path, p: Path)
    requires Below(u, p)
    ensures |u| < |p| && Under(u + [p[|u|]], p)
  {
    assert p[..|p|] == p;
    assert p[..|u| + 1] == p[..|u|] + [p[|u|]];
  }

  /** The tree after deleting everything below the directory `u`. */
  ghost function AfterContents(t: Tree, k: Kernel, u: Path): Tree {
    map p | p in t && (Below(u, p) && Opens(k, u) ==> Survives(t, k, Child(u, p), p)) :: t[p]
  }

  // ------------------------------------------------------------------ single entries

  lemma DeleteFile(t: Tree, k: Kernel, u: Path)
    requires WellFormed(t) && u in t && t[u].File?
    ensures After(t, k, u) == if u in k.unlinkRefused then t else t - {u}
  {
    forall q | q in t && Under(u, q) ensures q == u {
      FileIsAlone(t, u, q);
    }
    assert Under(u, u);
    if u in k.unlinkRefused {
      assert Stuck(t, k, |u|, u);
    }
  }

  lemma DeleteHard(t: Tree, k: Kernel, u: Path)
    requires WellFormed(t) && u in t && t[u].Dir? && Hard(k, u)
    ensures After(t, k, u) == t
  {
    forall p | p in t && Under(u, p) ensures Survives(t, k, u, p) {
      if p != u {
        BelowIsLonger(u, p);
        assert !Entered(k, p[..|u|]);
      }
      assert Stuck(t, k, |u|, p) && Under(p, p);
    }
  }

  lemma DeleteMissing(t: Tree, k: Kernel, u: Path)
    requires WellFormed(t) && u !in t
    ensures After(t, k, u) == t
  {
    forall p | p in t ensures !Under(u, p) {
      if Under(u, p) {
        AncestorInTree(t, u, p);
      }
    }
  }

  /** Below an entered directory, it does not matter whether one starts counting at the directory
      or at its child. */
  lemma StuckBelow(t: Tree, k: Kernel, u: Path, q: Path)
    requires Below(u, q) && Entered(k, u)
    ensures Stuck(t, k, |u|, q) <==> Stuck(t, k, |u| + 1, q)
  {
    BelowIsLonger(u, q);
    assert q[..|u|] == u;
    if Clear(k, |u| + 1, q) {
      assert Clear(k, |u|, q);
    }
  }

  lemma BelowExtends(u: Path, p: Path, q: Path)
    requires Below(u, p) && Under(p, q)
    ensures Below(u, q) && Child(u, q) == Child(u, p)
  {
    UnderTransitive(u, p, q);
    BelowIsLonger(u, p);
    assert |q| > |u|;
    BelowIsLonger(u, q);
    assert q[..|p|][|u|] == p[|u|];
  }

  lemma SurvivesBelow(t: Tree, k: Kernel, u: Path, p: Path)
    requires WellFormed(t) && p in t && Below(u, p) && !Hard(k, u)
    ensures Survives(t, k, u, p) <==> (Opens(k, u) ==> Survives(t, k, Child(u, p), p))
  {
    BelowIsLonger(u, p);
    var c := Child(u, p);
    if Opens(k, u) {
      forall q | Under(p, q) ensures Stuck(t, k, |u|, q) <==> Stuck(t, k, |c|, q) {
        BelowExtends(u, p, q);
        StuckBelow(t, k, u, q);
      }
    } else {
      assert !Entered(k, p[..|u|]);
      assert Stuck(t, k, |u|, p) && Under(p, p);
    }
  }

  /** Whether the directory itself goes once its contents are dealt with. */
  lemma DirSurvives(t: Tree, k: Kernel, u: Path)
    requires WellFormed(t) && u in t && t[u].Dir? && !Hard(k, u) && u != []
    ensures Survives(t, k, u, u) <==> u in k.rmdirRefused || HasChild(AfterContents(t, k, u), u)
  {
    var a := AfterContents(t, k, u);
    assert Under(u, u);
    if u in k.rmdirRefused {
      assert Stuck(t, k, |u|, u);
    } else if HasChild(a, u) {
      var c :| c in a && c != [] && Parent(c) == u;
      assert Below(u, c) && c in t;
      SurvivesBelow(t, k, u, c);
      assert Survives(t, k, u, c);
      var q :| Under(c, q) && Stuck(t, k, |u|, q);
      UnderTransitive(u, c, q);
    }
    if u !in k.rmdirRefused && Survives(t, k, u, u) {
      var q :| Under(u, q) && Stuck(t, k, |u|, q);
      assert q != u;
      BelowIsLonger(u, q);
      var c := Child(u, q);
      AncestorInTree(t, c, q);
      assert Under(u, c) && c != u && Parent(c) == u && Child(u, c) == c;
      assert Survives(t, k, u, c);
      SurvivesBelow(t, k, u, c);
      assert c in a;
    }
  }

  lemma DeleteDir(t: Tree, k: Kernel, u: Path)
    requires WellFormed(t) && u in t && t[u].Dir? && !Hard(k, u) && u != []
    ensures var a := AfterContents(t, k, u);
      After(t, k, u) == if u in k.rmdirRefused || HasChild(a, u) then a else a - {u}
  {
    DirSurvives(t, k, u);
    var a := AfterContents(t, k, u);
    forall p | p in t && Below(u, p) ensures Survives(t, k, u, p) <==> p in a {
      SurvivesBelow(t, k, u, p);
    }
    assert forall p :: p in t && !Under(u, p) ==> p in a && p in After(t, k, u);
  }

  /** A deleted entry takes everything below it along, so the tree stays a tree. */
  lemma AfterWellFormed(t: Tree, k: Kernel, u: Path)
    requires WellFormed(t) && u != []
    ensures WellFormed(After(t, k, u))
  {
    var a := After(t, k, u);
    forall p | p in a && p != [] ensures Parent(p) in a {
      if Under(u, Parent(p)) {
        assert Under(Parent(p), p);
        UnderTransitive(u, Parent(p), p);
        var q :| Under(p, q) && Stuck(t, k, |u|, q);
        UnderTransitive(Parent(p), p, q);
      }
    }
  }

  // ------------------------------------------------------------------ a directory half done

  /** `t` lies between the tree `t0` the delete of the contents of `u` started from and the tree it
      ends in. */
  ghost predicate Between(t0: Tree, t: Tree, k: Kernel, u: Path) {
    && (forall p :: p in t ==> p in t0 && t[p] == t0[p])
    && (forall p {:trigger Below(u, p)} :: p in t0 && !Below(u, p) ==> p in t)
    && (forall p {:trigger Below(u, p)} :: p in t0 && Below(u, p) && Survives(t0, k, Child(u, p), p) ==> p in t)
  }

  /** Everything that can go at and below the child `c` is gone. */
  ghost predicate Done(t0: Tree, t: Tree, k: Kernel, c: Path) {
    forall p {:trigger Under(c, p)} :: p in t && Under(c, p) ==> Survives(t0, k, c, p)
  }

  lemma UnderChild(u: Path, c: Path, p: Path)
    requires c != [] && Parent(c) == u && Under(c, p)
    ensures Below(u, p) && Child(u, p) == c
  {
    assert Under(u, c) && c != u;
    UnderTransitive(u, c, p);
    assert |p| > |u|;
    BelowIsLonger(u, p);
    assert c == p[..|c|];
    assert c == u + [p[|u|]];
  }

  /** What survives does not depend on how much has been deleted already, so trying an entry again
      changes nothing. */
  lemma SurvivesStable(t0: Tree, t: Tree, k: Kernel, u: Path, c: Path, p: Path)
    requires Between(t0, t, k, u) && c != [] && Parent(c) == u
    ensures Survives(t, k, c, p) <==> p in t && Survives(t0, k, c, p)
  {
    if Survives(t, k, c, p) {
      var q :| Under(p, q) && Stuck(t, k, |c|, q);
      assert Stuck(t0, k, |c|, q);
    }
    if p in t && Survives(t0, k, c, p) {
      var q :| Under(p, q) && Stuck(t0, k, |c|, q);
      UnderTransitive(c, p, q);
      UnderChild(u, c, q);
      assert Under(q, q);
      assert Survives(t0, k, c, q);
      assert Stuck(t, k, |c|, q);
    }
  }

  lemma OneChildDone(t0: Tree, t: Tree, k: Kernel, u: Path, c: Path)
    requires Between(t0, t, k, u) && c != [] && Parent(c) == u
    ensures Between(t0, After(t, k, c), k, u)
    ensures Done(t0, After(t, k, c), k, c)
  {
    var t' := After(t, k, c);
    forall p ensures Survives(t, k, c, p) <==> p in t && Survives(t0, k, c, p) {
      SurvivesStable(t0, t, k, u, c, p);
    }
    forall p | p in t0 && !Below(u, p) ensures p in t' {
      if Under(c, p) {
        UnderChild(u, c, p);
      }
    }
    forall p | p in t0 && Below(u, p) && Survives(t0, k, Child(u, p), p) ensures p in t' {
      if Under(c, p) {
        UnderChild(u, c, p);
      }
    }
  }

  lemma AllChildrenDone(t0: Tree, t: Tree, k: Kernel, u: Path)
    requires WellFormed(t) && Between(t0, t, k, u) && Opens(k, u)
    requires forall c :: c in t && c != [] && Parent(c) == u ==> Done(t0, t, k, c)
    ensures t == AfterContents(t0, k, u)
  {
    var a := AfterContents(t0, k, u);
    forall p | p in t && Below(u, p) ensures Survives(t0, k, Child(u, p), p) {
      BelowIsLonger(u, p);
      var c := Child(u, p);
      AncestorInTree(t, c, p);
      assert Parent(c) == u;
    }
    forall p ensures p in t <==> p in a {
      if p in t0 && !Below(u, p) {
        assert p in t;
      }
    }
    assert t.Keys == a.Keys;
  }

  // ------------------------------------------------------------------ the ledger

  /** A non-empty regular file that the delete reaches but cannot unlink: it is charged and stays. */
  ghost predicate Drifts(t: Tree, k: Kernel, top: nat, q: Path) {
    q in t && t[q].File? && q in k.unlinkRefused && Size(t[q]) > 0 && Clear(k, top, q)
  }

  ghost predicate NoDrift(t: Tree, k: Kernel, u: Path) {
    forall q :: Under(u, q) ==> !Drifts(t, k, |u|, q)
  }

  ghost predicate NoDriftBelow(t: Tree, k: Kernel, u: Path) {
    Opens(k, u) ==> forall q :: Below(u, q) ==> !Drifts(t, k, |u| + 1, q)
  }

  lemma DriftStable(t0: Tree, t: Tree, k: Kernel, u: Path, c: Path)
    requires Between(t0, t, k, u) && c != [] && Parent(c) == u
    ensures NoDrift(t, k, c) <==> NoDrift(t0, k, c)
  {
    forall q | Under(c, q) ensures Drifts(t, k, |c|, q) <==> Drifts(t0, k, |c|, q) {
      if Drifts(t0, k, |c|, q) {
        UnderChild(u, c, q);
        assert Under(q, q) && Stuck(t0, k, |c|, q);
        assert Survives(t0, k, c, q);
      }
    }
  }

  lemma NoDriftOfDir(t: Tree, k: Kernel, u: Path)
    requires WellFormed(t) && u in t && t[u].Dir? && !Hard(k, u)
    ensures NoDrift(t, k, u) <==> NoDriftBelow(t, k, u)
  {
    forall q | Below(u, q) ensures Drifts(t, k, |u|, q) <==> Opens(k, u) && Drifts(t, k, |u| + 1, q) {
      BelowIsLonger(u, q);
      assert q[..|u|] == u;
      if Opens(k, u) && Clear(k, |u| + 1, q) {
        assert Clear(k, |u|, q);
      }
    }
    assert !Drifts(t, k, |u|, u);
    if NoDrift(t, k, u) && Opens(k, u) {
      forall q | Below(u, q) ensures !Drifts(t, k, |u| + 1, q) {
        assert !Drifts(t, k, |u|, q);
      }
    }
    if NoDriftBelow(t, k, u) {
      forall q | Under(u, q) ensures !Drifts(t, k, |u|, q) {
        assert q == u || Below(u, q);
      }
    }
  }

  lemma NoDriftOfHard(t: Tree, k: Kernel, u: Path)
    requires WellFormed(t) && u in t && t[u].Dir? && Hard(k, u)
    ensures NoDrift(t, k, u)
  {
    forall q | Under(u, q) ensures !Drifts(t, k, |u|, q) {
      if q != u {
        BelowIsLonger(u, q);
        assert !Entered(k, q[..|u|]);
      }
    }
  }

  lemma NoDriftOfFile(t: Tree, k: Kernel, u: Path)
    requires WellFormed(t) && u in t && t[u].File?
    ensures NoDrift(t, k, u) <==> u !in k.unlinkRefused || Size(t[u]) == 0
  {
    forall q | q in t && Under(u, q) ensures q == u {
      FileIsAlone(t, u, q);
    }
    assert Under(u, u) && Clear(k, |u|, u);
  }

  lemma NoDriftOfMissing(t: Tree, k: Kernel, u: Path)
    requires WellFormed(t) && u !in t
    ensures NoDrift(t, k, u)
  {
    forall q | q in t ensures !Under(u, q) {
      if Under(u, q) {
        AncestorInTree(t, u, q);
      }
    }
  }

  /** `charged` against the bytes that really went: never less, and equal exactly when `exact`. */
  ghost predicate Charges(t0: Tree, t: Tree, charged: nat, exact: bool) {
    && charged >= Total(t0) - Total(t)
    && (exact <==> charged == Total(t0) - Total(t))
  }

  /** Where the delete of the contents of `u` stands after the first `n` of `names` were tried. */
  ghost predicate Progress(t0: Tree, t: Tree, k: Kernel, u: Path, names: seq<string>, n: nat, charged: nat)
    requires n <= |names|
  {
    && Tried(t0, t, k, u, names, n)
    && Paid(t0, k, u, names, n, charged - (Total(t0) - Total(t)))
  }

  ghost predicate Tried(t0: Tree, t: Tree, k: Kernel, u: Path, names: seq<string>, n: nat)
    requires n <= |names|
  {
    && Between(t0, t, k, u)
    && (forall i :: 0 <= i < n ==> Done(t0, t, k, u + [names[i]]))
  }

  /** `excess` is what was charged beyond the bytes that went. */
  ghost predicate Paid(t0: Tree, k: Kernel, u: Path, names: seq<string>, n: nat, excess: int)
    requires n <= |names|
  {
    && excess >= 0
    && (NoDriftBelow(t0, k, u) ==> excess == 0)
    && (forall i :: 0 <= i < n && !NoDrift(t0, k, u + [names[i]]) ==> excess > 0)
  }

  lemma ChildDrift(t: Tree, k: Kernel, u: Path, c: Path)
    requires c != [] && Parent(c) == u && Opens(k, u)
    ensures NoDriftBelow(t, k, u) ==> NoDrift(t, k, c)
  {
    if NoDriftBelow(t, k, u) {
      forall q | Under(c, q) ensures !Drifts(t, k, |c|, q) {
        UnderChild(u, c, q);
      }
    }
  }

  lemma OneMoreDone(t0: Tree, t: Tree, k: Kernel, u: Path, names: seq<string>, n: nat)
    requires n < |names| && Tried(t0, t, k, u, names, n)
    ensures Tried(t0, After(t, k, u + [names[n]]), k, u, names, n + 1)
  {
    var c := u + [names[n]];
    assert Parent(c) == u;
    OneChildDone(t0, t, k, u, c);
  }

  lemma OneMorePaid(t0: Tree, t: Tree, k: Kernel, u: Path, names: seq<string>, n: nat, excess: int, more: int)
    requires n < |names| && Opens(k, u) && Between(t0, t, k, u)
    requires Paid(t0, k, u, names, n, excess)
    requires more >= 0 && (NoDrift(t, k, u + [names[n]]) <==> more == 0)
    ensures Paid(t0, k, u, names, n + 1, excess + more)
  {
    var c := u + [names[n]];
    assert Parent(c) == u;
    DriftStable(t0, t, k, u, c);
    ChildDrift(t0, k, u, c);
  }

  lemma OneMoreTried(t0: Tree, t: Tree, t': Tree, k: Kernel, u: Path, names: seq<string>, n: nat, before: nat, more: nat)
    requires n < |names| && Opens(k, u)
    requires Progress(t0, t, k, u, names, n, before)
    requires t' == After(t, k, u + [names[n]])
    requires Charges(t, t', more, NoDrift(t, k, u + [names[n]]))
    ensures Progress(t0, t', k, u, names, n + 1, before + more)
    ensures t'.Keys <= t.Keys
  {
    OneMoreDone(t0, t, k, u, names, n);
    OneMorePaid(t0, t, k, u, names, n, before - (Total(t0) - Total(t)), more - (Total(t) - Total(t')));
  }

  lemma EverythingDone(t0: Tree, t: Tree, listed: Tree, k: Kernel, u: Path, names: seq<string>)
    requires WellFormed(t) && Opens(k, u) && Between(t0, t, k, u)
    requires t.Keys <= listed.Keys && Lists(listed, u, names)
    requires forall i :: 0 <= i < |names| ==> Done(t0, t, k, u + [names[i]])
    ensures t == AfterContents(t0, k, u)
  {
    forall c | c in t && c != [] && Parent(c) == u ensures Done(t0, t, k, c) {
      assert c == u + [c[|c| - 1]];
      assert c[|c| - 1] in names;
    }
    AllChildrenDone(t0, t, k, u);
  }

  /** A drifting file is still there at the end, so its branch was tried. */
  lemma DriftIsListed(t0: Tree, t: Tree, listed: Tree, k: Kernel, u: Path, names: seq<string>) returns (i: nat)
    requires WellFormed(t) && Opens(k, u) && Between(t0, t, k, u)
    requires t.Keys <= listed.Keys && Lists(listed, u, names)
    requires !NoDriftBelow(t0, k, u)
    ensures i < |names| && !NoDrift(t0, k, u + [names[i]])
  {
    var q :| Below(u, q) && Drifts(t0, k, |u| + 1, q);
    BelowIsLonger(u, q);
    var c := Child(u, q);
    assert Under(q, q) && Stuck(t0, k, |c|, q);
    assert Survives(t0, k, c, q);
    AncestorInTree(t, c, q);
    assert c == u + [q[|u|]];
    i :| 0 <= i < |names| && names[i] == q[|u|];
  }

  lemma EverythingTried(t0: Tree, t: Tree, listed: Tree, k: Kernel, u: Path, names: seq<string>, charged: nat)
    requires WellFormed(t) && Opens(k, u)
    requires t.Keys <= listed.Keys && Lists(listed, u, names)
    requires Progress(t0, t, k, u, names, |names|, charged)
    ensures t == AfterContents(t0, k, u)
    ensures Charges(t0, t, charged, NoDriftBelow(t0, k, u))
  {
    EverythingDone(t0, t, listed, k, u, names);
    if !NoDriftBelow(t0, k, u) {
      var i := DriftIsListed(t0, t, listed, k, u, names);
    }
  }

  // ------------------------------------------------------------------ the code

  /** `names` is a listing of the directory `u`, in any order. */
  ghost predicate Lists(t: Tree, u: Path, names: seq<string>) {
    forall n :: n in names <==> u + [n] in t
  }

  method ReadNames(t: Tree, u: Path) returns (names: seq<string>)
    ensures Lists(t, u, names) && Distinct(names)
  {
    names := [];
    var rest := set p | p in t && p != [] && Parent(p) == u :: p[|p| - 1];
    assert forall n :: n in rest <==> u + [n] in t by {
      forall n | u + [n] in t ensures n in rest {
        var p := u + [n];
        assert Parent(p) == u && p[|p| - 1] == n;
      }
      forall n | n in rest ensures u + [n] in t {
        var p :| p in t && p != [] && Parent(p) == u && p[|p| - 1] == n;
        assert p == u + [n];
      }
    }
    while rest != {}
      invariant forall n :: n in names || n in rest <==> u + [n] in t
      invariant Distinct(names) && forall n :: n in names ==> n !in rest
      decreases rest
    {
      var n :| n in rest;
      names := names + [n];
      rest := rest - {n};
    }
  }

  /** The counter after `charged` bytes were taken off `start`, never below zero. */
  ghost predicate Debited(start: int, charged: nat, usage: int) {
    usage == if charged >= start then 0 else start - charged
  }

  /** The tree is at most `depth` levels deep below `u`. */
  ghost predicate DepthBelow(t: Tree, u: Path, depth: nat) {
    forall p :: p in t && Below(u, p) ==> |p| <= |u| + depth
  }

  /** What is left of a sound state is sound as long as no handle is open on a deleted file. */
  lemma SoundAfter(t0: Tree, t: Tree, u: Path, accounted: map<Path, nat>)
    requires Sound(t0, accounted) && WellFormed(t)
    requires forall p :: p in t ==> p in t0 && t[p] == t0[p]
    requires forall p :: p in t0 && !Under(u, p) ==> p in t
    requires NoHandles(accounted, u)
    ensures Sound(t, accounted)
  {
  }

  lemma RemovedFile(t: Tree, p: Path)
    requires p in t
    ensures Total(t - {p}) == Total(t) - Size(t[p])
  {
    AccountedRemove(t, map[], p);
  }

  /** The inner loop over one batch `names[pos..end]` of a listing. */
  method RemoveBatch(fs: Quota, u: Path, names: seq<string>, pos: nat, end: nat, reqSize: nat,
                     ghost depth: nat, ghost t0: Tree, ghost listed: Tree,
                     ghost start: nat, ghost before: nat)
    returns (numErr: nat, ghost charged: nat)
    requires fs.Valid() && reqSize > 0 && pos <= end <= |names|
    requires Opens(fs.kernel, u)
    requires Lists(listed, u, names) && fs.tree.Keys <= listed.Keys
    requires Progress(t0, fs.tree, fs.kernel, u, names, pos, before)
    requires DepthBelow(t0, u, depth)
    requires pos < end ==> depth > 0
    requires Debited(start, before, fs.usage as int)
    requires NoHandles(fs.accounted, u)
    modifies fs`tree, fs`usage
    ensures fs.Valid()
    ensures Progress(t0, fs.tree, fs.kernel, u, names, end, charged)
    ensures numErr <= end - pos
    ensures fs.tree.Keys <= listed.Keys
    ensures numErr < end - pos ==> fs.tree.Keys != listed.Keys
    ensures Debited(start, charged, fs.usage as int)
    decreases depth, 0
  {
    numErr, charged := 0, before;
    ghost var k := fs.kernel;
    for i := pos to end
      invariant fs.Valid() && fs.tree.Keys <= listed.Keys
      invariant Progress(t0, fs.tree, k, u, names, i, charged)
      invariant numErr <= i - pos
      invariant numErr < i - pos ==> fs.tree.Keys != listed.Keys
      invariant Debited(start, charged, fs.usage as int)
    {
      ghost var t := fs.tree;
      ChildIsReady(t0, t, listed, u, names, i, depth, fs.accounted);
      var err, more := RemoveAllFrom(fs, u, names[i], reqSize, depth - 1);
      OneMoreTried(t0, t, fs.tree, k, u, names, i, charged, more);
      charged := charged + more;
      StaysSmaller(listed, t, fs.tree, u + [names[i]]);
      if err.Fail? {
        numErr := numErr + 1;
      }
    }
  }

  lemma ChildIsReady(t0: Tree, t: Tree, listed: Tree, u: Path, names: seq<string>, i: nat, depth: nat, accounted: map<Path, nat>)
    requires i < |names| && 0 < depth && Lists(listed, u, names)
    requires DepthBelow(t0, u, depth) && t.Keys <= t0.Keys && NoHandles(accounted, u)
    ensures u + [names[i]] in listed && DepthBelow(t, u + [names[i]], depth - 1)
    ensures NoHandles(accounted, u + [names[i]])
  {
    assert names[i] in names;
    ChildDepth(t0, t, u, u + [names[i]], depth);
    NotUnderChild(u, u + [names[i]], accounted);
  }

  lemma StaysSmaller(listed: Tree, t: Tree, t': Tree, c: Path)
    requires t'.Keys <= t.Keys <= listed.Keys && c in listed
    ensures t'.Keys <= listed.Keys
    ensures t.Keys != listed.Keys || c !in t' ==> t'.Keys != listed.Keys
  {
    if c !in t' {
      assert c in listed.Keys && c !in t'.Keys;
    }
  }

  lemma NotUnderChild(u: Path, c: Path, accounted: map<Path, nat>)
    requires c != [] && Parent(c) == u
    requires NoHandles(accounted, u)
    ensures NoHandles(accounted, c)
  {
    forall p | p in accounted ensures !Under(c, p) {
      if Under(c, p) {
        UnderChild(u, c, p);
      }
    }
  }

  /** One pass over an open directory: batch after batch, until a batch was not refused as a whole.
      A short batch means the end of the listing was reached. */
  method ReadPass(fs: Quota, u: Path, names: seq<string>, reqSize: nat,
                  ghost depth: nat, ghost t0: Tree, ghost listed: Tree, ghost start: nat, ghost before: nat)
    returns (r: Outcome, respSize: nat, ghost charged: nat)
    requires fs.Valid() && reqSize > 0 && u in fs.tree && u !in fs.kernel.unopenable
    requires Lists(listed, u, names) && fs.tree.Keys <= listed.Keys
    requires Progress(t0, fs.tree, fs.kernel, u, names, 0, before)
    requires DepthBelow(t0, u, depth) && (|names| > 0 ==> depth > 0)
    requires Debited(start, before, fs.usage as int)
    requires NoHandles(fs.accounted, u)
    modifies fs`tree, fs`usage
    ensures fs.Valid()
    ensures r.Fail? <==> u in fs.kernel.unreadable
    ensures r.Fail? ==> fs.tree == old(fs.tree) && charged == before
    ensures r.Pass? ==> fs.tree.Keys <= listed.Keys && Progress(t0, fs.tree, fs.kernel, u, names, 0, charged)
    ensures r.Pass? && respSize < reqSize ==> Progress(t0, fs.tree, fs.kernel, u, names, |names|, charged)
    ensures r.Pass? && respSize >= reqSize ==> fs.tree.Keys != listed.Keys
    ensures Debited(start, charged, fs.usage as int)
    decreases depth, 1
  {
    var pos := 0;
    r, respSize, charged := Pass, 0, before;
    while true
      invariant r.Pass? && 0 <= pos <= |names|
      invariant fs.Valid() && fs.tree.Keys <= listed.Keys
      invariant u in fs.kernel.unreadable ==> fs.tree == old(fs.tree) && charged == before
      invariant Progress(t0, fs.tree, fs.kernel, u, names, pos, charged)
      invariant Debited(start, charged, fs.usage as int)
      decreases |names| - pos
    {
      if u in fs.kernel.unreadable {
        r := Fail(Sys(EIO));
        return;
      }
      var end := if |names| - pos < reqSize then |names| else pos + reqSize;
      respSize := end - pos;
      var numErr;
      numErr, charged := RemoveBatch(fs, u, names, pos, end, reqSize, depth, t0, listed, start, charged);
      pos := end;
      if numErr != reqSize {
        return;
      }
    }
  }

  /** Removes everything below the directory `u`. It reports a failing listing only; that something
      could not be opened or removed is not reported. */
  method RemoveContentsFrom(fs: Quota, u: Path, reqSize: nat, ghost depth: nat) returns (r: Outcome, ghost charged: nat)
    requires fs.Valid() && reqSize > 0
    requires u in fs.tree && fs.tree[u].Dir?
    requires DepthBelow(fs.tree, u, depth)
    requires NoHandles(fs.accounted, u)
    modifies fs`tree, fs`usage
    ensures fs.Valid()
    ensures fs.tree == AfterContents(old(fs.tree), fs.kernel, u)
    ensures r.Pass? <==> u in fs.kernel.unopenable || u !in fs.kernel.unreadable
    ensures Debited(old(fs.usage) as int, charged, fs.usage as int)
    ensures Charges(old(fs.tree), fs.tree, charged, NoDriftBelow(old(fs.tree), fs.kernel, u))
    decreases depth, 2
  {
    charged := 0;
    ghost var t0, k, start := fs.tree, fs.kernel, fs.usage as int;
    if !Opens(k, u) {
      NothingBelow(t0, k, u);
    }
    while true
      invariant fs.Valid() && u in fs.tree && fs.tree.Keys <= t0.Keys
      invariant Progress(t0, fs.tree, k, u, [], 0, charged)
      invariant !Opens(k, u) ==> fs.tree == t0 && charged == 0
      invariant Debited(start, charged, fs.usage as int)
      decreases fs.tree.Keys
    {
      if u in fs.kernel.unopenable {
        break;
      }
      var names := ReadNames(fs.tree, u);
      ghost var listed := fs.tree;
      ListedDepth(listed, t0, u, names, depth);
      var err, respSize;
      err, respSize, charged := ReadPass(fs, u, names, reqSize, depth, t0, listed, start, charged);
      if err.Fail? {
        return err, charged;
      }
      NextPass(t0, fs.tree, k, u, names, charged);
      if respSize < reqSize {
        EverythingTried(t0, fs.tree, listed, k, u, names, charged);
        break;
      }
    }
    return Pass, charged;
  }

  lemma NextPass(t0: Tree, t: Tree, k: Kernel, u: Path, names: seq<string>, charged: nat)
    requires Progress(t0, t, k, u, names, 0, charged) && u in t0
    ensures Progress(t0, t, k, u, [], 0, charged)
    ensures u in t && t.Keys <= t0.Keys
  {
    assert !Below(u, u);
  }

  lemma NothingBelow(t: Tree, k: Kernel, u: Path)
    requires !Opens(k, u)
    ensures AfterContents(t, k, u) == t && Charges(t, t, 0, NoDriftBelow(t, k, u))
  {
  }

  lemma ListedDepth(t: Tree, t0: Tree, u: Path, names: seq<string>, depth: nat)
    requires WellFormed(t) && t.Keys <= t0.Keys && Lists(t, u, names)
    requires DepthBelow(t0, u, depth)
    ensures |names| > 0 ==> depth > 0
  {
    if |names| > 0 {
      var c := u + [names[0]];
      assert names[0] in names;
      assert Below(u, c);
    }
  }

  method RemoveAllFrom(fs: Quota, dir: Path, base: string, reqSize: nat, ghost depth: nat) returns (r: Outcome, ghost charged: nat)
    requires fs.Valid() && reqSize > 0
    requires DepthBelow(fs.tree, dir + [base], depth)
    requires NoHandles(fs.accounted, dir + [base])
    modifies fs`tree, fs`usage
    ensures fs.Valid()
    ensures fs.tree == After(old(fs.tree), fs.kernel, dir + [base])
    ensures r.Pass? ==> dir + [base] !in fs.tree
    ensures r.Fail? ==> dir + [base] in fs.tree || Resolve(old(fs.tree), dir + [base]).NotDirectory?
    ensures Debited(old(fs.usage) as int, charged, fs.usage as int)
    ensures Charges(old(fs.tree), fs.tree, charged, NoDrift(old(fs.tree), fs.kernel, dir + [base]))
    decreases depth, 4
  {
    var u := dir + [base];
    ghost var t0, k := fs.tree, fs.kernel;
    AfterIsSound(t0, k, u, fs.accounted);
    LeafDelete(t0, k, u);
    var err;
    err, charged := fs.Unlinkat(u, false);
    if err.None? || err == Some(ENOENT) {
      return Pass, charged;
    }
    if err != Some(EISDIR) && err != Some(EPERM) && err != Some(EACCES) {
      return Fail(Sys(err.value)), charged;
    }
    var s := Resolve(fs.tree, u);
    if s.Missing? {
      return Pass, charged;
    }
    if s.NotDirectory? {
      return Fail(Sys(ENOTDIR)), charged;
    }
    if s.node.File? {
      return Fail(Sys(err.value)), charged;
    }
    r, charged := RemoveDirectory(fs, u, err.value, reqSize, depth);
  }

  /** The second half of RemoveAllFrom: the target is a directory that could not be unlinked. */
  method RemoveDirectory(fs: Quota, u: Path, err: Errno, reqSize: nat, ghost depth: nat) returns (r: Outcome, ghost charged: nat)
    requires fs.Valid() && reqSize > 0
    requires u in fs.tree && fs.tree[u].Dir? && u != [] && !Hard(fs.kernel, u)
    requires DepthBelow(fs.tree, u, depth)
    requires NoHandles(fs.accounted, u)
    modifies fs`tree, fs`usage
    ensures fs.tree == After(old(fs.tree), fs.kernel, u)
    ensures r.Pass? <==> u !in fs.tree
    ensures Debited(old(fs.usage) as int, charged, fs.usage as int)
    ensures Charges(old(fs.tree), fs.tree, charged, NoDrift(old(fs.tree), fs.kernel, u))
    decreases depth, 3
  {
    ghost var t0, k := fs.tree, fs.kernel;
    var recurseErr;
    recurseErr, charged := RemoveContentsFrom(fs, u, reqSize, depth);
    DirDelete(t0, k, u, charged);
    var unlinkErr, none := fs.Unlinkat(u, true);
    if unlinkErr.None? || unlinkErr == Some(ENOENT) {
      return Pass, charged;
    }
    if recurseErr.Fail? {
      return recurseErr, charged;
    }
    return Fail(Sys(err)), charged;
  }

  lemma AfterIsSound(t: Tree, k: Kernel, u: Path, accounted: map<Path, nat>)
    requires Sound(t, accounted) && u != []
    requires NoHandles(accounted, u)
    ensures Sound(After(t, k, u), accounted)
  {
    AfterWellFormed(t, k, u);
    SoundAfter(t, After(t, k, u), u, accounted);
  }

  /** Everything that is settled by the first unlink attempt. */
  lemma LeafDelete(t: Tree, k: Kernel, u: Path)
    requires WellFormed(t)
    ensures Resolve(t, u).Found? <==> u in t
    ensures u !in t ==> UnlinkErrno(k, t, u, false) in {Some(ENOENT), Some(ENOTDIR)}
    ensures var e := UnlinkErrno(k, t, u, false);
      var charged := if u in t then Size(t[u]) else 0;
      u !in t || t[u].File? || Hard(k, u) ==>
        && After(t, k, u) == (if e.None? then t - {u} else t)
        && Charges(t, After(t, k, u), charged, NoDrift(t, k, u))
  {
    ResolveMeaning(t, u);
    if u !in t {
      DeleteMissing(t, k, u);
      NoDriftOfMissing(t, k, u);
    } else if t[u].File? {
      DeleteFile(t, k, u);
      NoDriftOfFile(t, k, u);
      RemovedFile(t, u);
    } else if Hard(k, u) {
      DeleteHard(t, k, u);
      NoDriftOfHard(t, k, u);
    }
  }

  /** The final removal of a directory whose contents were dealt with. */
  lemma DirDelete(t: Tree, k: Kernel, u: Path, charged: nat)
    requires WellFormed(t) && u in t && t[u].Dir? && !Hard(k, u) && u != []
    requires Charges(t, AfterContents(t, k, u), charged, NoDriftBelow(t, k, u))
    ensures var a := AfterContents(t, k, u);
      && u in a && a[u] == t[u]
      && After(t, k, u) == (if UnlinkErrno(k, a, u, true).None? then a - {u} else a)
      && Charges(t, After(t, k, u), charged, NoDrift(t, k, u))
  {
    DeleteDir(t, k, u);
    NoDriftOfDir(t, k, u);
    RemovedFile(AfterContents(t, k, u), u);
  }

  lemma ChildDepth(t0: Tree, t: Tree, u: Path, c: Path, depth: nat)
    requires c != [] && Parent(c) == u
    requires forall p :: p in t ==> p in t0
    requires DepthBelow(t0, u, depth)
    requires depth > 0
    ensures DepthBelow(t, c, depth - 1)
  {
    forall p | p in t && Below(c, p) ensures Below(u, p) {
      UnderChild(u, c, p);
    }
  }

  // ------------------------------------------------------------------ the entry points

  /** Whether the delete gets past the first simple attempt and into the parent directory. */
  ghost predicate Recurses(t: Tree, k: Kernel, p: Path)
    requires WellFormed(t) && p != []
  {
    RemoveOutcome(k, t, At(p)) !in {Pass, Fail(Sys(ENOENT))} && OpenAt(k, t, Parent(p)).None?
  }

  /** No non-empty file that a delete of `p` reaches refuses to go. */
  ghost predicate ChargesExactly(t: Tree, k: Kernel, p: Path)
    requires WellFormed(t) && p != []
  {
    Recurses(t, k, p) ==> NoDrift(t, k, p)
  }

  /** The tree a delete of `p` leaves. */
  ghost function Deleted(t: Tree, k: Kernel, p: Path): Tree
    requires WellFormed(t) && p != []
  {
    if RemoveOutcome(k, t, At(p)).Pass? then t - {p}
    else if Recurses(t, k, p) then After(t, k, p)
    else t
  }

  ghost function Deepest(t: Tree, ps: set<Path>): (d: nat)
    ensures forall p :: p in ps ==> |p| <= d
  {
    if ps == {} then 0 else
      var p :| p in ps;
      Max(|p|, Deepest(t, ps - {p}))
  }

  const REQ_SIZE: nat := 1024

  /** removeAll: the simple attempt first, then the recursion from the parent directory. */
  method RemoveAllPath(fs: Quota, path: string, ghost p: Path) returns (r: Outcome, ghost charged: nat)
    requires fs.Valid() && p != [] && ValidNames(p) && path == PathName(p)
    requires NoHandles(fs.accounted, p)
    modifies fs`tree, fs`usage
    ensures fs.Valid()
    ensures fs.tree == Deleted(old(fs.tree), fs.kernel, p)
    ensures r.Pass? ==> p !in fs.tree
    ensures p in old(fs.tree) && p !in fs.tree ==> r.Pass?
    // a target that is not there is no error
    ensures StatOf(fs.kernel, old(fs.tree), p) == NoStat(Sys(ENOENT)) ==> r.Pass? && fs.tree == old(fs.tree) && charged == 0
    ensures Debited(old(fs.usage) as int, charged, fs.usage as int)
    ensures Charges(old(fs.tree), fs.tree, charged,
              Recurses(old(fs.tree), fs.kernel, p) ==> NoDrift(old(fs.tree), fs.kernel, p))
  {
    ghost var t0, k := fs.tree, fs.kernel;
    charged := 0;
    if path == "" {
      CutNames(p);
      return Pass, charged;
    }
    if EndsWithDot(path) {
      NamesDoNotEndWithDot(p);
      return Fail(Sys(EINVAL)), charged;
    }
    LocatePathName(fs, p);
    if StatOf(k, t0, p) == NoStat(Sys(ENOENT)) {
      NotThere(t0, k, p);
    }
    if RemoveOutcome(k, t0, At(p)).Pass? {
      SimpleRemove(t0, k, p, fs.accounted);
    } else if RemoveOutcome(k, t0, At(p)) == Fail(Sys(ENOENT)) {
      NothingToRemove(t0, k, p);
    }
    var err := fs.Remove(path);
    if err == Pass || err == Fail(Sys(ENOENT)) {
      if err == Pass {
        charged := Size(t0[p]);
      }
      return Pass, charged;
    }
    CutNames(p);
    var parentDir, base := SplitPath(path);
    ghost var dir := Parent(p);
    LocatePathName(fs, dir);
    var perr := fs.Open(parentDir);
    if perr.Some? {
      if perr.value != Sys(ENOENT) {
        return Fail(perr.value), charged;
      }
      ParentMissing(t0, k, p);
      return Pass, charged;
    }
    SplitLast(p);
    var at := fs.Locate(parentDir);
    r, charged := RemoveAllFrom(fs, at.path, base, REQ_SIZE, Deepest(t0, t0.Keys));
  }

  lemma SplitLast(p: Path)
    requires p != []
    ensures Parent(p) + [p[|p| - 1]] == p
  {
  }

  lemma LocatePathName(fs: Quota, p: Path)
    requires ValidBase(fs.base) && ValidNames(p)
    ensures fs.Locate(PathName(p)) == At(p)
  {
    UnsafePathOfNames(fs.base, p);
    NamesOfPathName(p);
  }

  lemma ParentMissing(t: Tree, k: Kernel, p: Path)
    requires WellFormed(t) && p != [] && OpenAt(k, t, Parent(p)) == Some(Sys(ENOENT))
    ensures p !in t && RemoveOutcome(k, t, At(p)) == Fail(Sys(ENOENT))
  {
    ResolveMeaning(t, p);
    ResolveMeaning(t, Parent(p));
    var d := Parent(p);
    if d != [] {
      ResolveMeaning(t, Parent(d));
      assert p in t ==> d in t;
    }
  }

  /** When the simple attempt succeeds it leaves the same tree the recursion would, unless the target
      is an empty directory whose plain unlink is refused for good. */
  lemma SimpleRemoveIsDelete(t: Tree, k: Kernel, p: Path)
    requires WellFormed(t) && p != [] && RemoveOutcome(k, t, At(p)).Pass? && !Hard(k, p)
    ensures After(t, k, p) == t - {p}
  {
    ResolveMeaning(t, p);
    if t[p].File? {
      DeleteFile(t, k, p);
    } else {
      EmptyDirectory(t, k, p);
      DeleteDir(t, k, p);
    }
  }

  lemma RemovedLeaf(t: Tree, p: Path)
    requires WellFormed(t) && p in t && p != [] && !HasChild(t, p)
    ensures WellFormed(t - {p})
  {
    assert forall q :: q in t && q != [] ==> Parent(q) != p;
  }

  lemma FileHasNoChild(t: Tree, p: Path)
    requires WellFormed(t) && p in t && t[p].File?
    ensures !HasChild(t, p)
  {
    assert forall q :: q in t && q != [] ==> t[Parent(q)].Dir?;
  }

  lemma SimpleRemove(t: Tree, k: Kernel, p: Path, accounted: map<Path, nat>)
    requires Sound(t, accounted) && p != [] && NoHandles(accounted, p)
    requires RemoveOutcome(k, t, At(p)).Pass?
    ensures Sound(t - {p}, accounted)
    ensures Charges(t, t - {p}, Size(t[p]), true)
  {
    ResolveMeaning(t, p);
    RemovedFile(t, p);
    if t[p].File? {
      FileHasNoChild(t, p);
    }
    RemovedLeaf(t, p);
    assert Under(p, p);
  }

  lemma NotThere(t: Tree, k: Kernel, p: Path)
    requires WellFormed(t) && p != [] && StatOf(k, t, p) == NoStat(Sys(ENOENT))
    ensures RemoveOutcome(k, t, At(p)) == Fail(Sys(ENOENT))
  {
    ResolveMeaning(t, p);
  }

  lemma NothingToRemove(t: Tree, k: Kernel, p: Path)
    requires WellFormed(t) && p != [] && RemoveOutcome(k, t, At(p)) == Fail(Sys(ENOENT))
    ensures p !in t
  {
    ResolveMeaning(t, p);
    if p in t && |p| > 1 {
      ResolveMeaning(t, Parent(p));
    }
  }

  lemma ChildOnTheWay(t: Tree, p: Path, q: Path)
    requires WellFormed(t) && q in t && Below(p, q)
    ensures HasChild(t, p)
  {
    BelowIsLonger(p, q);
    var c := Child(p, q);
    AncestorInTree(t, c, q);
    assert Parent(c) == p;
  }

  lemma EmptyDirectory(t: Tree, k: Kernel, p: Path)
    requires WellFormed(t) && p in t && !HasChild(t, p)
    ensures AfterContents(t, k, p) == t
  {
    forall q | q in t ensures !Below(p, q) {
      if Below(p, q) {
        ChildOnTheWay(t, p, q);
      }
    }
  }

  /** Quota.RemoveAll: deletes the named entry and everything below it; the base itself is refused. */
  method Delete(fs: Quota, name: string) returns (r: Outcome)
    requires fs.Valid()
    requires fs.Locate(name).At? ==> NoHandles(fs.accounted, fs.Locate(name).path)
    modifies fs`tree, fs`usage
    ensures fs.Valid()
    ensures var at := fs.Locate(name);
      if at.Nowhere? || at.path == [] then
        r == Fail(ErrBadPath) && fs.tree == old(fs.tree) && fs.usage == old(fs.usage)
      else
        && fs.tree == Deleted(old(fs.tree), fs.kernel, at.path)
        && (r.Pass? ==> at.path !in fs.tree)
        && (at.path in old(fs.tree) && at.path !in fs.tree ==> r.Pass?)
        && (StatOf(fs.kernel, old(fs.tree), at.path) == NoStat(Sys(ENOENT)) ==>
              r.Pass? && fs.tree == old(fs.tree) && fs.usage == old(fs.usage))
        && fs.usage <= old(fs.usage)
        && fs.usage as int <= Max(0, old(fs.usage) as int - (Total(old(fs.tree)) - Total(fs.tree)))
        && (ChargesExactly(old(fs.tree), fs.kernel, at.path) ==>
              fs.usage as int == Max(0, old(fs.usage) as int - (Total(old(fs.tree)) - Total(fs.tree))))
        && (old(fs.Balanced()) ==> (fs.Balanced() <==> ChargesExactly(old(fs.tree), fs.kernel, at.path)))
  {
    fs.LocatedNamesAreValid(name);
    UnsafePathNormalForm(fs.base, name);
    match UnsafePath(fs.base, name) {
      case BadPathResolution =>
        return Fail(ErrBadPath);
      case Inside(n) =>
        if n == "." {
          return Fail(ErrBadPath);
        }
        ghost var p := Names(n);
        ghost var t0 := fs.tree;
        ghost var charged;
        r, charged := RemoveAllPath(fs, n, p);
        if old(fs.Balanced()) {
          ExactnessOfDelete(t0, fs.kernel, p, fs.accounted, charged, old(fs.usage) as int, fs.usage as int);
        }
    }
  }

  /** Removing entries without handles moves the accounted total as much as the real one. */
  lemma {:induction false} SameDifference(t0: Tree, t: Tree, accounted: map<Path, nat>)
    requires forall p :: p in t ==> p in t0 && t[p] == t0[p]
    requires forall p :: p in accounted && p in t0 ==> p in t
    ensures Accounted(t0, accounted) - Accounted(t, accounted) == Total(t0) - Total(t)
    decreases |t0|
  {
    if t.Keys == t0.Keys {
      assert t == t0;
    } else {
      var p :| p in t0 && p !in t;
      AccountedRemove(t0, accounted, p);
      AccountedRemove(t0, map[], p);
      assert |t0 - {p}| < |t0| by { assert t0 == (t0 - {p})[p := t0[p]]; }
      SameDifference(t0 - {p}, t, accounted);
    }
  }

  /** The counter stays exact if and only if no non-empty file that was reached refused to go. */
  lemma ExactnessOfDelete(t: Tree, k: Kernel, p: Path, accounted: map<Path, nat>, charged: nat, before: int, after: int)
    requires Sound(t, accounted) && p != [] && NoHandles(accounted, p)
    requires before == Accounted(t, accounted)
    requires Debited(before, charged, after)
    requires Charges(t, Deleted(t, k, p), charged, Recurses(t, k, p) ==> NoDrift(t, k, p))
    ensures after == Accounted(Deleted(t, k, p), accounted) <==> ChargesExactly(t, k, p)
  {
    var t' := Deleted(t, k, p);
    assert Under(p, p);
    SameDifference(t, t', accounted);
    if Recurses(t, k, p) && !NoDrift(t, k, p) {
      var q :| Under(p, q) && Drifts(t, k, |p|, q);
      assert Under(q, q) && Stuck(t, k, |p|, q);
      assert Survives(t, k, p, q);
      assert q in t';
      AccountedRemove(t', accounted, q);
    }
  }

  // ------------------------------------------------------------------ deletes without refusals

  /** The target and everything below it. */
  ghost function Subtree(t: Tree, p: Path): Tree {
    map q | q in t && Under(p, q) :: t[q]
  }

  ghost function Outside(t: Tree, p: Path): Tree {
    map q | q in t && !Under(p, q) :: t[q]
  }

  ghost predicate Unrefused(t: Tree, k: Kernel, p: Path) {
    forall q :: Under(p, q) ==> !Stuck(t, k, |p|, q)
  }

  /** The bytes of a tree are those of the subtree and those outside it. */
  lemma SubtreeTotal(t: Tree, p: Path)
    ensures Total(t) == Total(Subtree(t, p)) + Total(Outside(t, p))
  {
    var m, inside := View(t, map[]), set q | q in t && Under(p, q);
    SumSplit(m, inside);
    assert View(Subtree(t, p), map[]) == map q | q in m && q in inside :: m[q];
    assert View(Outside(t, p), map[]) == m - inside;
  }

  /** Nothing of the target is left if and only if nothing at or below it is stuck. */
  lemma DeletesEverything(t: Tree, k: Kernel, p: Path)
    requires WellFormed(t)
    ensures After(t, k, p) == Outside(t, p) <==> Unrefused(t, k, p)
  {
    if !Unrefused(t, k, p) {
      var q :| Under(p, q) && Stuck(t, k, |p|, q);
      assert Under(q, q) && Survives(t, k, p, q);
      assert q in After(t, k, p);
    } else {
      forall q | q in t && Under(p, q) ensures !Survives(t, k, p, q) {
        forall r | Under(q, r) ensures !Stuck(t, k, |p|, r) {
          UnderTransitive(p, q, r);
        }
      }
    }
  }

  /** A delete nothing refuses removes exactly the target's subtree and never charges a file twice:
      together with the contract of Delete, the counter falls by the subtree's total size. */
  lemma FailureFreeDelete(t: Tree, k: Kernel, p: Path)
    requires WellFormed(t) && p in t && p != []
    requires Unrefused(t, k, p) && OpenAt(k, t, Parent(p)).None?
    ensures Deleted(t, k, p) == Outside(t, p)
    ensures NoDrift(t, k, p)
    ensures Total(t) - Total(Deleted(t, k, p)) == Total(Subtree(t, p))
  {
    DeletesEverything(t, k, p);
    SubtreeTotal(t, p);
    forall q | Under(p, q) ensures !Drifts(t, k, |p|, q) {
      assert !Stuck(t, k, |p|, q);
    }
    var r := RemoveOutcome(k, t, At(p));
    if r == Fail(Sys(ENOENT)) {
      NothingToRemove(t, k, p);
    } else if r.Pass? {
      assert Under(p, p) && !Stuck(t, k, |p|, p);
      SimpleRemoveIsDelete(t, k, p);
    }
  }

  const Stubborn := Kernel(map[["d", "f"] := EPERM], map[], map[], {}, {})
  const Guarded: Tree := map[[] := Dir, ["d"] := Dir, ["d", "f"] := File(1, 1, [7])]

  /** A file that refuses to go is charged although it stays: the exactness condition can fail. */
  lemma DriftingDelete()
    ensures WellFormed(Guarded) && Recurses(Guarded, Stubborn, ["d"])
    ensures Deleted(Guarded, Stubborn, ["d"]) == Guarded && !NoDrift(Guarded, Stubborn, ["d"])
  {
    var t, k, d, f := Guarded, Stubborn, ["d"], ["d", "f"];
    assert Parent(f) == d && Parent(d) == [];
    assert WellFormed(t);
    assert HasChild(t, d);
    assert RemoveOutcome(k, t, At(d)) == Fail(Sys(ENOTEMPTY)) && OpenAt(k, t, []).None?;
    assert Under(d, f) && f[..1] == d && Clear(k, 1, f);
    assert Drifts(t, k, 1, f) && Stuck(t, k, 1, f);
    assert Under(f, f) && Under(d, d);
    assert Survives(t, k, d, f) && Survives(t, k, d, d);
    assert After(t, k, d) == t;
  }

  ghost predicate Emptied(t: Tree, u: Path) {
    forall q :: q in t ==> !Below(u, q)
  }

  /** When the success that RemoveContentsFrom reports is the truth: nothing is left below the directory
      if and only if there was nothing, or the directory opens and nothing below it is stuck. */
  lemma ContentsGone(t: Tree, k: Kernel, u: Path)
    requires WellFormed(t)
    ensures Emptied(AfterContents(t, k, u), u) <==>
      Emptied(t, u) || (Opens(k, u) && forall q :: Below(u, q) ==> !Stuck(t, k, |u| + 1, q))
  {
    var a := AfterContents(t, k, u);
    if q :| Below(u, q) && Stuck(t, k, |u| + 1, q) {
      BelowIsLonger(u, q);
      assert Under(q, q) && Survives(t, k, Child(u, q), q);
      assert q in a;
    } else {
      forall p | p in t && Below(u, p) && Opens(k, u) ensures !Survives(t, k, Child(u, p), p) {
        BelowIsLonger(u, p);
        forall q | Under(p, q) ensures !Stuck(t, k, |u| + 1, q) {
          BelowExtends(u, p, q);
        }
      }
    }
  }

  /** RemoveContentsFrom answers `reported` and leaves `AfterContents`. So its success is not true
      exactly when the directory cannot be opened, or can be listed and something below it is stuck. */
  lemma SilentExactly(t: Tree, k: Kernel, u: Path)
    requires WellFormed(t)
    ensures !Emptied(t, u) ==> var reported := u in k.unopenable || u !in k.unreadable;
      (reported && !Emptied(AfterContents(t, k, u), u) <==> Unreported(t, k, u))
  {
    ContentsGone(t, k, u);
  }

  /** The directory cannot be opened, or it can be listed and something below it is stuck. */
  ghost predicate Unreported(t: Tree, k: Kernel, u: Path) {
    u in k.unopenable || (Opens(k, u) && exists q :: Below(u, q) && Stuck(t, k, |u| + 1, q))
  }

  /** Removing the contents of a directory reports success although an entry refused and is still
      there; RemoveContentsFrom's contract only ever reports a failing listing. */
  lemma SilentContents()
    ensures AfterContents(Guarded, Stubborn, ["d"]) == Guarded
    ensures ["d", "f"] in AfterContents(Guarded, Stubborn, ["d"])
    ensures ["d"] !in Stubborn.unreadable
  {
    var t, k, d, f := Guarded, Stubborn, ["d"], ["d", "f"];
    assert Under(d, f) && f[..1] == d;
    assert Child(d, f) == f;
    assert Under(f, f) && Stuck(t, k, 2, f);
    assert Survives(t, k, f, f);
    assert !Below(d, d);
  }
}
