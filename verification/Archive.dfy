/** The transfer archive: which files of the tree are written to the tar stream, and in what order. */
module Archives {
  import opened Collections
  import opened PathText
  import opened FileTree
  import opened Ufs
  import opened RemoveAll
  import opened WalkTree

  datatype Entry = Entry(name: string, data: Bytes)

  /** What is archived: a list of files takes priority over an ignore matcher. */
  datatype Selection = Selection(files: seq<string>, ignores: Option<string -> bool>)

  /** The test for an entry of the file list: the entry itself or something inside it. */
  predicate Covers(f: string, relative: string) {
    f == relative || TrimSuffix(f, "/") + "/" <= TrimSuffix(relative, "/") + "/"
  }

  predicate ShouldInclude(s: Selection, relative: string) {
    if |s.files| == 0 && s.ignores.Some? then !s.ignores.value(relative)
    else if |s.files| > 0 then exists i :: 0 <= i < |s.files| && Covers(s.files[i], relative)
    else true
  }

  /** What goes wrong with one file: it is gone when it is looked at, its header is not written, it is gone
      when it is opened, or its content breaks off after `n` bytes. A header without its content makes the
      tar writer refuse the next header; that is an AtHeader of the next file. */
  datatype Break = Gone | AtHeader | GoneAtOpen | InContent(n: nat)

  type Breaks = map<Path, Break>

  predicate BreaksOff(data: Bytes, broken: Breaks, p: Path) {
    p in broken && (broken[p].AtHeader? || (broken[p].InContent? && data != []))
  }

  /** What is written for one file. An empty file has no content that could break off. */
  function EntryFor(name: string, data: Bytes, broken: Breaks, p: Path): seq<Entry> {
    if p !in broken then [Entry(name, data)]
    else
      match broken[p]
      case Gone => []
      case AtHeader => []
      case GoneAtOpen => [Entry(name, [])]
      case InContent(n) => [Entry(name, if n < |data| then data[..n] else data)]
  }

  /** What the callback answers for an entry of the tree. */
  ghost function Answer(t: Tree, s: Selection, broken: Breaks, p: Path): Verdict {
    if p == [] || p !in t then Continue
    else if t[p].Dir? then if ShouldInclude(s, PathName(p)) then Continue else SkipDir
    else if ShouldInclude(s, PathName(p)) && BreaksOff(t[p].data, broken, p) then Stop(ErrCopy)
    else Continue
  }

  ghost function Answers(t: Tree, s: Selection, broken: Breaks): Path -> Verdict {
    p => Answer(t, s, broken, p)
  }

  ghost const Unreadable: Path -> Verdict := p => Stop(Sys(EACCES))

  /** The entries written for a list of visited paths. */
  ghost function Entries(t: Tree, s: Selection, broken: Breaks, visited: seq<Path>): seq<Entry> {
    if visited == [] then [] else
      var p := visited[0];
      (if p != [] && p in t && t[p].File? && ShouldInclude(s, PathName(p))
       then EntryFor(PathName(p), t[p].data, broken, p) else [])
      + Entries(t, s, broken, visited[1..])
  }

  lemma {:induction false} EntriesAppend(t: Tree, s: Selection, broken: Breaks, a: seq<Path>, b: seq<Path>)
    ensures Entries(t, s, broken, a + b) == Entries(t, s, broken, a) + Entries(t, s, broken, b)
  {
    if a == [] {
      assert a + b == b;
    } else {
      assert (a + b)[1..] == a[1..] + b;
      EntriesAppend(t, s, broken, a[1..], b);
    }
  }

  class Archive {
    const tree: Tree
    const kernel: Kernel
    const order: Order
    const broken: Breaks
    var selection: Selection
    var w: seq<Entry>

    constructor (tree: Tree, kernel: Kernel, order: Order, selection: Selection, broken: Breaks)
      ensures this.tree == tree && this.kernel == kernel && this.order == order
      ensures this.selection == selection && this.broken == broken && w == []
    {
      this.tree, this.kernel, this.order, this.selection, this.broken := tree, kernel, order, selection, broken;
      w := [];
    }

    /** addToArchive: a header with the relative name, then the content. Only a file that is gone is
        passed over; any other failure ends the archive, after what was written of the file. */
    method AddToArchive(relative: string, p: Path) returns (v: Verdict)
      requires p in tree && tree[p].File?
      modifies this`w
      ensures v == if BreaksOff(tree[p].data, broken, p) then Stop(ErrCopy) else Continue
      ensures w == old(w) + EntryFor(relative, tree[p].data, broken, p)
      ensures p !in broken ==> v == Continue && w == old(w) + [Entry(relative, tree[p].data)]
      ensures p in broken && broken[p].Gone? ==> v == Continue && w == old(w)
      ensures v == Continue || v == Stop(ErrCopy)
      ensures w == old(w) || exists part :: part <= tree[p].data && w == old(w) + [Entry(relative, part)]
    {
      var data := tree[p].data;
      if p in broken && broken[p].Gone? {
        return Continue;
      }
      if p in broken && broken[p].AtHeader? {
        return Stop(ErrCopy);
      }
      if data == [] || (p in broken && broken[p].GoneAtOpen?) {
        w := w + [Entry(relative, [])];
        return Continue;
      }
      if p in broken {
        w := w + [Entry(relative, if broken[p].n < |data| then data[..broken[p].n] else data)];
        return Stop(ErrCopy);
      }
      w := w + [Entry(relative, data)];
      return Continue;
    }

    method Callback(p: Path) returns (v: Verdict)
      requires p in tree && ValidNames(p)
      modifies this`w
      ensures v == Answer(tree, selection, broken, p)
      ensures w == old(w) + Entries(tree, selection, broken, [p])
    {
      var relative := PathName(p);
      if p == [] {
        return Continue;
      }
      if tree[p].Dir? {
        if !ShouldInclude(selection, relative) {
          return SkipDir;
        }
        return Continue;
      }
      if !ShouldInclude(selection, relative) {
        return Continue;
      }
      v := AddToArchive(relative, p);
    }

    /** The pure walk this archive performs. */
    ghost function Walk(p: Path, depth: nat): (seq<Path>, Verdict)
      reads this`selection
      requires WellFormed(tree) && Listing(tree, order) && p in tree && DepthBelow(tree, p, depth)
    {
      WalkTree.WalkDir(tree, kernel, order, Answers(tree, selection, broken), Unreadable, p, depth)
    }

    ghost function WalkAll(p: Path, names: seq<string>, depth: nat): (seq<Path>, Verdict)
      reads this`selection
      requires WellFormed(tree) && Listing(tree, order) && DepthBelow(tree, p, depth)
      requires forall n :: n in names ==> p + [n] in tree
    {
      WalkTree.WalkEntries(tree, kernel, order, Answers(tree, selection, broken), Unreadable, p, names, depth)
    }

    ghost function Written(visited: seq<Path>): seq<Entry>
      reads this`selection
    {
      Entries(tree, selection, broken, visited)
    }

    /** walkDir with the archive callback. */
    method WalkDir(p: Path, ghost depth: nat) returns (v: Verdict)
      requires WellFormed(tree) && Listing(tree, order) && p in tree && DepthBelow(tree, p, depth)
      modifies this`w
      ensures v == Walk(p, depth).1
      ensures w == old(w) + Written(Walk(p, depth).0)
      decreases depth, 1, 0
    {
      assert ValidNames(p);
      v := Callback(p);
      if v != Continue || tree[p].File? {
        if v == SkipDir && tree[p].Dir? {
          v := Continue;
        }
        return;
      }
      if p in kernel.unopenable || p in kernel.unreadable {
        return Stop(Sys(EACCES));
      }
      assert Lists(tree, p, order(p));
      ghost var before, inner := w, WalkAll(p, order(p), depth);
      assert Walk(p, depth) == ([p] + inner.0, inner.1);
      v := WalkEntries(p, order(p), depth);
      EntriesAppend(tree, selection, broken, [p], inner.0);
      Concatenated(old(w), Written([p]), Written(inner.0));
    }

    method WalkEntries(p: Path, names: seq<string>, ghost depth: nat) returns (v: Verdict)
      requires WellFormed(tree) && Listing(tree, order) && DepthBelow(tree, p, depth)
      requires forall n :: n in names ==> p + [n] in tree
      modifies this`w
      ensures v == WalkAll(p, names, depth).1
      ensures w == old(w) + Written(WalkAll(p, names, depth).0)
      decreases depth, 0, |names|
    {
      if names == [] {
        return Continue;
      }
      var c := p + [names[0]];
      assert names[0] in names && Below(p, c);
      ChildDepth(tree, tree, p, c, depth);
      assert forall n :: n in names[1..] ==> n in names;
      ghost var first, rest := Walk(c, depth - 1), WalkAll(p, names[1..], depth);
      assert WalkAll(p, names, depth) ==
        if first.1 == SkipDir then (first.0, Continue) else if first.1 != Continue then first else (first.0 + rest.0, rest.1);
      v := WalkDir(c, depth - 1);
      if v == SkipDir {
        return Continue;
      }
      if v != Continue {
        return;
      }
      v := WalkEntries(p, names[1..], depth);
      EntriesAppend(tree, selection, broken, first.0, rest.0);
      Concatenated(old(w), Written(first.0), Written(rest.0));
    }

    /** The first part of Stream: listed files may come with the path of the server before them. */
    method TrimFiles(base: string)
      modifies this`selection
      ensures selection.ignores == old(selection).ignores && |selection.files| == |old(selection).files|
      ensures forall i :: 0 <= i < |selection.files| ==> selection.files[i] == TrimListed(base, old(selection).files[i])
    {
      var files := [];
      for i := 0 to |selection.files|
        invariant selection == old(selection) && |files| == i
        invariant forall j :: 0 <= j < i ==> files[j] == TrimListed(base, selection.files[j])
      {
        var f := selection.files[i];
        if !(base <= f) {
          files := files + [f];
          continue;
        }
        files := files + [TrimPrefix(TrimPrefix(f, base), "/")];
      }
      selection := selection.(files := files);
    }

    /** Stream, from the base directory `root` of the server at `base`. */
    method Stream(base: string, root: Path) returns (r: Outcome)
      requires WellFormed(tree) && Listing(tree, order) && w == []
      modifies this
      ensures selection.ignores == old(selection).ignores && |selection.files| == |old(selection).files|
      ensures forall i :: 0 <= i < |selection.files| ==> selection.files[i] == TrimListed(base, old(selection).files[i])
      ensures root !in tree ==> r.Fail? && w == []
      ensures root in tree ==>
        && (r.Pass? <==> !Walk(root, Deepest(tree, tree.Keys)).1.Stop?)
        && w == Written(Walk(root, Deepest(tree, tree.Keys)).0)
      ensures root in tree && OnlyGone(broken) && AllOpen(tree, kernel) ==>
        r.Pass? && w == Archived(tree, order, selection, broken, root)
    {
      TrimFiles(base);
      if root !in tree {
        return Fail(Sys(ENOENT));
      }
      ghost var depth := Deepest(tree, tree.Keys);
      if OnlyGone(broken) && AllOpen(tree, kernel) {
        WholeWalk(tree, kernel, order, selection, broken, root);
      }
      var v := WalkDir(root, depth);
      r := if v.Stop? then Fail(v.error) else Pass;
    }
  }

  function TrimListed(base: string, f: string): string {
    if base <= f then TrimPrefix(TrimPrefix(f, base), "/") else f
  }

  /** A listed file is taken as a path below the base: with the path of the server before it or
      without. */
  lemma ListedBothWays(base: string, g: Path)
    requires ValidBase(base) && ValidNames(g) && g != []
    ensures TrimListed(base, PathName(g)) == PathName(g)
    ensures TrimListed(base, base + "/" + PathName(g)) == PathName(g)
  {
    var f := base + "/" + PathName(g);
    assert f[..|base|] == base && f[|base|..] == "/" + PathName(g);
    assert ("/" + PathName(g))[1..] == PathName(g);
    assert Join(g)[0] == g[0][0] != '/' by {
      assert ValidName(g[0]) && g[0][0] in g[0];
    }
  }

  /** What a listed file means: the path below the base when it lies there, and itself otherwise. */
  function Meant(base: string, f: string): string {
    if f == base then "" else if base + "/" <= f then f[|base| + 1..] else f
  }

  /** A listed file is taken as it is meant if and only if the text of the base, where it begins with it,
      ends at the end of a name. */
  lemma TrimmedAsMeant(base: string, f: string)
    requires base != ""
    ensures TrimListed(base, f) == Meant(base, f) <==> (base <= f ==> f == base || base + "/" <= f)
  {
    if base <= f && f != base {
      assert TrimPrefix(f, base) == f[|base|..];
      assert base + "/" <= f <==> f[|base|] == '/';
      if base + "/" <= f {
        assert f[|base|..][1..] == f[|base| + 1..];
      } else {
        assert !("/" <= f[|base|..]) && |f[|base|..]| < |f|;
      }
    }
  }

  /** The text of the base is taken off even in the middle of a name. */
  lemma ListedCutInsideName()
    ensures TrimListed("/a", "/ab/c") == "b/c"
  {
    assert "/ab/c" == "/a" + "b/c";
    assert TrimPrefix("/ab/c", "/a") == "b/c";
    assert "b/c"[0] != "/"[0];
  }

  lemma Concatenated(a: seq<Entry>, b: seq<Entry>, c: seq<Entry>)
    ensures a + b + c == a + (b + c)
  {
  }

  ghost predicate AllOpen(t: Tree, k: Kernel) {
    forall d :: d in t && t[d].Dir? ==> Opens(k, d)
  }

  /** The flat listing of the tree filtered by "all ancestor directories passed". */
  ghost function Offered(t: Tree, ls: Order, s: Selection, root: Path): seq<Path>
    requires WellFormed(t) && Listing(t, ls) && root in t
  {
    Filter(Preorder(t, ls, root, Deepest(t, t.Keys)), Reaches(Answers(t, s, map[]), |root|))
  }

  /** Nothing goes wrong but that some files are gone when they are looked at. */
  ghost predicate OnlyGone(broken: Breaks) {
    forall p :: p in broken ==> broken[p].Gone?
  }

  lemma OnlyPrunes(t: Tree, k: Kernel, s: Selection, broken: Breaks, root: Path)
    requires AllOpen(t, k) && OnlyGone(broken)
    ensures Prunes(t, k, Answers(t, s, broken), root)
  {
  }

  /** Then the walk visits what is offered, to the end. */
  lemma WholeWalk(t: Tree, k: Kernel, ls: Order, s: Selection, broken: Breaks, root: Path)
    requires WellFormed(t) && Listing(t, ls) && root in t && AllOpen(t, k) && OnlyGone(broken)
    requires DepthBelow(t, root, Deepest(t, t.Keys))
    ensures WalkTree.WalkDir(t, k, ls, Answers(t, s, broken), Unreadable, root, Deepest(t, t.Keys)) ==
      (Offered(t, ls, s, root), Continue)
  {
    var all := Preorder(t, ls, root, Deepest(t, t.Keys));
    var keep, keep' := Reaches(Answers(t, s, broken), |root|), Reaches(Answers(t, s, map[]), |root|);
    OnlyPrunes(t, k, s, broken, root);
    PrunedWalk(t, k, ls, Answers(t, s, broken), Unreadable, root, Deepest(t, t.Keys));
    forall q | q in all ensures keep(q) == keep'(q) {
      forall j | 0 <= j < |q| ensures Answers(t, s, broken)(q[..j]) == Answers(t, s, map[])(q[..j]) {
      }
    }
    FilterAgrees(all, keep, keep');
  }

  /** Exactly the included files below the base directory whose ancestor directories are all included
      are offered, each once. */
  lemma OfferedFiles(t: Tree, ls: Order, s: Selection, root: Path, q: Path)
    requires WellFormed(t) && Listing(t, ls) && root in t && q in t && t[q].File?
    ensures q in Offered(t, ls, s, root) <==>
      Under(root, q) && forall j :: |root| <= j < |q| && j > 0 ==> ShouldInclude(s, PathName(q[..j]))
    ensures Distinct(Offered(t, ls, s, root))
  {
    var depth := Deepest(t, t.Keys);
    var keep := Reaches(Answers(t, s, map[]), |root|);
    PreorderCovers(t, ls, root, depth);
    FilterMember(Preorder(t, ls, root, depth), keep, q);
    FilterDistinct(Preorder(t, ls, root, depth), keep);
    forall j | |root| <= j < |q| ensures q[..j] in t && t[q[..j]].Dir? {
      PrefixInTree(t, q, j);
    }
    if Under(root, q) && keep(q) {
      forall j | |root| <= j < |q| && j > 0 ensures ShouldInclude(s, PathName(q[..j])) {
        assert Answers(t, s, map[])(q[..j]) == Continue;
      }
    }
  }

  // ------------------------------------------------------------------ the entries of the whole archive

  /** What an archive of the tree below `root` holds when nothing breaks off and every directory opens. */
  ghost function Archived(t: Tree, ls: Order, s: Selection, broken: Breaks, root: Path): seq<Entry>
    requires WellFormed(t) && Listing(t, ls) && root in t
  {
    Entries(t, s, broken, Offered(t, ls, s, root))
  }

  ghost function Included(t: Tree, s: Selection, broken: Breaks): Path -> bool {
    q => q != [] && q in t && t[q].File? && q !in broken && ShouldInclude(s, PathName(q))
  }

  ghost function EntryOf(t: Tree, q: Path): Entry
    requires q in t && t[q].File?
  {
    Entry(PathName(q), t[q].data)
  }

  /** One entry for each of the files `qs`, in that order. */
  ghost predicate EntriesFor(t: Tree, es: seq<Entry>, qs: seq<Path>) {
    && |es| == |qs|
    && forall i :: 0 <= i < |qs| ==> qs[i] in t && t[qs[i]].File? && ValidNames(qs[i]) && es[i] == EntryOf(t, qs[i])
  }

  lemma OneMoreEntry(t: Tree, q: Path, es: seq<Entry>, qs: seq<Path>)
    requires EntriesFor(t, es, qs) && q in t && t[q].File? && ValidNames(q)
    ensures EntriesFor(t, [EntryOf(t, q)] + es, [q] + qs)
  {
    hide PathName, ValidNames;
    var es', qs' := [EntryOf(t, q)] + es, [q] + qs;
    forall i | 0 <= i < |qs'| ensures qs'[i] in t && t[qs'[i]].File? && ValidNames(qs'[i]) && es'[i] == EntryOf(t, qs'[i]) {
      assert i > 0 ==> qs'[i] == qs[i - 1] && es'[i] == es[i - 1];
    }
  }

  lemma {:induction false} EntriesInOrder(t: Tree, s: Selection, broken: Breaks, visited: seq<Path>)
    requires WellFormed(t) && OnlyGone(broken)
    ensures EntriesFor(t, Entries(t, s, broken, visited), Filter(visited, Included(t, s, broken)))
  {
    if visited != [] {
      hide ShouldInclude, EntriesFor;
      EntriesInOrder(t, s, broken, visited[1..]);
      var p, es, qs := visited[0], Entries(t, s, broken, visited[1..]), Filter(visited[1..], Included(t, s, broken));
      if Included(t, s, broken)(p) {
        OneMoreEntry(t, p, es, qs);
      } else {
        assert [] + es == es && [] + qs == qs;
      }
    }
  }

  lemma NamesDiffer(p: Path, q: Path)
    requires ValidNames(p) && ValidNames(q) && PathName(p) == PathName(q)
    ensures p == q
  {
    NamesOfPathName(p);
    NamesOfPathName(q);
  }

  lemma EntriesAreTheFiles(t: Tree, es: seq<Entry>, qs: seq<Path>)
    requires EntriesFor(t, es, qs) && Distinct(qs)
    ensures forall q :: q in t && t[q].File? && ValidNames(q) ==> (EntryOf(t, q) in es <==> q in qs)
    ensures forall i, j :: 0 <= i < j < |es| ==> es[i].name != es[j].name
  {
    hide PathName, ValidNames;
    forall q | q in t && t[q].File? && ValidNames(q) ensures EntryOf(t, q) in es <==> q in qs {
      if q in qs {
        var i :| 0 <= i < |qs| && qs[i] == q;
        assert es[i] == EntryOf(t, q);
      }
      if EntryOf(t, q) in es {
        var i :| 0 <= i < |es| && es[i] == EntryOf(t, q);
        NamesDiffer(q, qs[i]);
      }
    }
    forall i, j | 0 <= i < j < |es| ensures es[i].name != es[j].name {
      if es[i].name == es[j].name {
        NamesDiffer(qs[i], qs[j]);
      }
    }
  }

  /** Nothing on the way from the base directory to `q`, nor `q`, is left out. */
  ghost predicate LetThrough(s: Selection, root: Path, q: Path) {
    Under(root, q) && forall j :: |root| <= j <= |q| && j > 0 ==> ShouldInclude(s, PathName(q[..j]))
  }

  lemma FileArchived(t: Tree, ls: Order, s: Selection, broken: Breaks, root: Path, q: Path)
    requires WellFormed(t) && Listing(t, ls) && root in t && q in t && t[q].File?
    ensures q in Filter(Offered(t, ls, s, root), Included(t, s, broken)) <==> q !in broken && LetThrough(s, root, q)
  {
    assert q != [] && q[..|q|] == q;
    OfferedFiles(t, ls, s, root, q);
    hide WellFormed, Offered, ShouldInclude, PathName, LetThrough, Filter;
    FilterMember(Offered(t, ls, s, root), Included(t, s, broken), q);
    WholeWayIn(s, root, q);
  }

  lemma WholeWayIn(s: Selection, root: Path, q: Path)
    requires q != []
    ensures LetThrough(s, root, q) <==>
      && Under(root, q) && ShouldInclude(s, PathName(q))
      && forall j :: |root| <= j < |q| && j > 0 ==> ShouldInclude(s, PathName(q[..j]))
  {
    hide ShouldInclude, PathName;
    assert q[..|q|] == q;
    if Under(root, q) && !LetThrough(s, root, q) {
      var j :| |root| <= j <= |q| && j > 0 && !ShouldInclude(s, PathName(q[..j]));
    }
  }

  lemma NoFileTwice(t: Tree, ls: Order, s: Selection, broken: Breaks, root: Path)
    requires WellFormed(t) && Listing(t, ls) && root in t
    ensures Distinct(Filter(Offered(t, ls, s, root), Included(t, s, broken)))
  {
    PreorderCovers(t, ls, root, Deepest(t, t.Keys));
    FilterDistinct(Preorder(t, ls, root, Deepest(t, t.Keys)), Reaches(Answers(t, s, map[]), |root|));
    FilterDistinct(Offered(t, ls, s, root), Included(t, s, broken));
  }

  /** The archive has the entry of a file if and only if the file is still there, and it and every directory
      on the way to it is included; it has no other entries, and no name twice. */
  lemma ArchivedFiles(t: Tree, ls: Order, s: Selection, broken: Breaks, root: Path)
    requires WellFormed(t) && Listing(t, ls) && root in t && OnlyGone(broken)
    ensures var w := Archived(t, ls, s, broken, root);
      && (forall q :: q in t && t[q].File? ==> (EntryOf(t, q) in w <==> q !in broken && LetThrough(s, root, q)))
      && (forall e :: e in w ==> exists q :: q in t && t[q].File? && Under(root, q) && e == EntryOf(t, q))
      && (forall i, j :: 0 <= i < j < |w| ==> w[i].name != w[j].name)
  {
    var w, visited := Archived(t, ls, s, broken, root), Offered(t, ls, s, root);
    var qs := Filter(visited, Included(t, s, broken));
    EntriesInOrder(t, s, broken, visited);
    NoFileTwice(t, ls, s, broken, root);
    EntriesAreTheFiles(t, w, qs);
    assert forall q :: q in t ==> ValidNames(q);
    hide ShouldInclude, WellFormed, Offered, Distinct, PathName, Under;
    forall q | q in t && t[q].File? ensures q in qs <==> q !in broken && LetThrough(s, root, q) {
      FileArchived(t, ls, s, broken, root, q);
    }
    forall e | e in w ensures exists q :: q in t && t[q].File? && Under(root, q) && e == EntryOf(t, q) {
      var i :| 0 <= i < |w| && w[i] == e;
      assert qs[i] in qs && LetThrough(s, root, qs[i]);
    }
  }

  /** With an ignore matcher and no file list, a file is archived if and only if it is still there and
      the matcher ignores neither the file nor a directory on the way to it, from the base directory on. */
  lemma IgnoredLeftOut(t: Tree, ls: Order, ignored: string -> bool, broken: Breaks, root: Path, q: Path)
    requires WellFormed(t) && Listing(t, ls) && root in t && OnlyGone(broken) && q in t && t[q].File? && Under(root, q)
    ensures EntryOf(t, q) in Archived(t, ls, Selection([], Some(ignored)), broken, root) <==>
      && q !in broken
      && (root != [] ==> !ignored(PathName(root)))
      && (forall j :: |root| < j <= |q| ==> !ignored(PathName(q[..j])))
  {
    hide Archived, WellFormed, PathName;
    ArchivedFiles(t, ls, Selection([], Some(ignored)), broken, root);
    assert q[..|root|] == root;
  }

  // ------------------------------------------------------------------ an explicit file list

  /** On clean relative paths the textual test is "is the entry or lies inside it". */
  lemma CoversMeaning(g: Path, q: Path)
    requires ValidNames(g) && ValidNames(q) && g != [] && q != []
    ensures Covers(PathName(g), PathName(q)) <==> Under(g, q)
  {
    JoinEndsInName(g);
    JoinEndsInName(q);
    NoTrailingSlash(Join(g));
    NoTrailingSlash(Join(q));
    PrefixText(g, q);
    if Join(g) == Join(q) {
      SplitJoin(g);
      SplitJoin(q);
    }
  }

  lemma NoTrailingSlash(s: string)
    requires s != "" && s[|s| - 1] != '/'
    ensures TrimSuffix(s, "/") == s
  {
    assert s[|s| - 1..][0] == s[|s| - 1];
  }

  /** With a file list, whatever the matcher, a file below the root is archived if and only if the list names its
      top-level directory (or the file itself at top level): a directory on the way that the list
      does not cover is skipped with everything in it. */
  lemma ListedFiles(t: Tree, ls: Order, listed: seq<Path>, ignores: Option<string -> bool>, q: Path)
    requires WellFormed(t) && Listing(t, ls) && q in t && t[q].File? && listed != []
    requires forall i :: 0 <= i < |listed| ==> ValidNames(listed[i]) && listed[i] != []
    ensures EntryOf(t, q) in Archived(t, ls, Selection(TextOf(listed), ignores), map[], []) <==> [q[0]] in listed
  {
    var s := Selection(TextOf(listed), ignores);
    assert ValidNames(q) && q != [];
    assert Under([], q) && q[..|q|] == q;
    ArchivedFiles(t, ls, s, map[], []);
    forall j | 0 < j <= |q| ensures ShouldInclude(s, PathName(q[..j])) <==> ListedAbove(listed, q[..j]) {
      IncludedListed(listed, ignores, q[..j]);
    }
    TopLevelDecides(listed, q);
  }

  lemma TopLevelDecides(listed: seq<Path>, q: Path)
    requires q != [] && forall i :: 0 <= i < |listed| ==> listed[i] != []
    ensures (forall j :: 0 < j <= |q| ==> ListedAbove(listed, q[..j])) <==> [q[0]] in listed
  {
    assert q[..1] == [q[0]];
    if [q[0]] in listed {
      var i :| 0 <= i < |listed| && listed[i] == [q[0]];
      forall j | 0 < j <= |q| ensures ListedAbove(listed, q[..j]) {
        assert q[..j][..1] == [q[0]];
        assert Under(listed[i], q[..j]);
      }
    } else {
      forall i | 0 <= i < |listed| ensures !Under(listed[i], q[..1]) {
        assert |listed[i]| == 1 ==> q[..1][..1] == q[..1];
      }
      assert !ListedAbove(listed, q[..1]);
    }
  }

  ghost predicate ListedAbove(listed: seq<Path>, q: Path) {
    exists i :: 0 <= i < |listed| && Under(listed[i], q)
  }

  lemma IncludedListed(listed: seq<Path>, ignores: Option<string -> bool>, q: Path)
    requires forall i :: 0 <= i < |listed| ==> ValidNames(listed[i]) && listed[i] != []
    requires ValidNames(q) && q != [] && listed != []
    ensures ShouldInclude(Selection(TextOf(listed), ignores), PathName(q)) <==> ListedAbove(listed, q)
  {
    var s := Selection(TextOf(listed), ignores);
    forall i | 0 <= i < |listed| ensures Covers(s.files[i], PathName(q)) <==> Under(listed[i], q) {
      CoversMeaning(listed[i], q);
    }
  }

  /** Listing only "a/b" archives nothing of it: the directory "a" is skipped. */
  lemma NestedListingIsEmpty()
    ensures var s := Selection(["a/b"], None);
      Answer(map[[] := Dir, ["a"] := Dir, ["a", "b"] := File(1, 1, [])], s, map[], ["a"]) == SkipDir
  {
    assert TrimSuffix("a/b", "/") == "a/b" && TrimSuffix("a", "/") == "a";
    assert ("a/b" + "/")[2] == 'b';
    assert !Covers("a/b", "a");
  }
}
