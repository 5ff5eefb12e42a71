/** The walk that the counter stands in for: sizes of regular files, a hard-linked inode counted
    once, whatever the order of the listings. */
module DirectorySize {
  import opened Collections
  import opened Int64
  import opened Sums
  import opened PathText
  import opened FileTree
  import opened Ufs
  import opened RemoveAll
  import opened Filesystems

  /** What the kernel guarantees about links: names of one inode agree on count and content, and an
      inode with link count one has one name. */
  ghost predicate LinksSound(t: Tree) {
    forall p, q :: p in t && q in t && t[p].File? && t[q].File? && t[p].ino == t[q].ino ==>
      t[p].nlink == t[q].nlink && t[p].data == t[q].data && (p != q ==> t[p].nlink > 1)
  }

  ghost function Inodes(t: Tree, seen: set<Path>): set<nat> {
    set p | p in seen && p in t && t[p].File? :: t[p].ino
  }

  ghost function InodeSize(t: Tree, i: nat): nat
    requires exists p :: p in t && t[p].File? && t[p].ino == i
  {
    var p :| p in t && t[p].File? && t[p].ino == i;
    |t[p].data|
  }

  ghost function InodeSizes(t: Tree, seen: set<Path>): map<nat, nat> {
    map i | i in Inodes(t, seen) :: InodeSize(t, i)
  }

  /** The sum of sizes over the distinct inodes of the regular files in `seen`. */
  ghost function DistinctTotal(t: Tree, seen: set<Path>): nat {
    Sum(InodeSizes(t, seen))
  }

  ghost function Seen(t: Tree, seen: set<Path>): Tree {
    map p | p in t && p in seen :: t[p]
  }

  ghost function PathsUnder(t: Tree, p: Path): set<Path> {
    set q | q in t && Under(p, q)
  }

  /** The state of the walk callback after the entries in `seen` were visited. */
  ghost predicate Counted(t: Tree, seen: set<Path>, links: seq<nat>, size: int) {
    && (LinksSound(t) ==> CountedOnce(t, seen, links, size))
    && (NoHardLinks(t) ==> size == Wrap(Total(Seen(t, seen))))
  }

  ghost predicate CountedOnce(t: Tree, seen: set<Path>, links: seq<nat>, size: int) {
    && size == Wrap(DistinctTotal(t, seen))
    && forall i :: i in links <==> exists p :: Linked(t, seen, p, i)
  }

  ghost predicate Linked(t: Tree, seen: set<Path>, p: Path, i: nat) {
    p in seen && p in t && t[p].File? && t[p].ino == i && t[p].nlink > 1
  }

  /** The callback: a regular file is added unless its inode was seen through another link. */
  method Visit(t: Tree, p: Path, links: seq<nat>, size: int64, ghost seen: set<Path>)
    returns (links': seq<nat>, size': int64)
    requires p in t && p !in seen && Counted(t, seen, links, size as int)
    ensures Counted(t, seen + {p}, links', size' as int)
  {
    links', size' := links, size;
    if t[p].Dir? {
      VisitDirectory(t, seen, links, size as int, p);
      return;
    }
    if t[p].nlink > 1 {
      if t[p].ino in links {
        VisitAgain(t, seen, links, size as int, p);
        return;
      }
      links' := links + [t[p].ino];
    }
    VisitNew(t, seen, links, links', size as int, p);
    size' := Wrap(size as int + |t[p].data|) as int64;
  }

  lemma VisitDirectory(t: Tree, seen: set<Path>, links: seq<nat>, size: int, p: Path)
    requires p in t && t[p].Dir? && p !in seen && Counted(t, seen, links, size)
    ensures Counted(t, seen + {p}, links, size)
  {
    PlainStep(t, seen, p);
    assert Inodes(t, seen + {p}) == Inodes(t, seen);
    assert forall q, i :: Linked(t, seen + {p}, q, i) <==> Linked(t, seen, q, i);
  }

  /** A file whose inode was seen before. */
  lemma VisitAgain(t: Tree, seen: set<Path>, links: seq<nat>, size: int, p: Path)
    requires p in t && t[p].File? && p !in seen && t[p].nlink > 1 && t[p].ino in links
    requires Counted(t, seen, links, size)
    ensures Counted(t, seen + {p}, links, size)
  {
    assert !NoHardLinks(t);
    if LinksSound(t) {
      var r :| Linked(t, seen, r, t[p].ino);
      assert Inodes(t, seen + {p}) == Inodes(t, seen);
      forall i ensures i in links <==> exists q :: Linked(t, seen + {p}, q, i) {
        if q :| Linked(t, seen + {p}, q, i) {
          assert Linked(t, seen, if q == p then r else q, i);
        }
        if i in links {
          var q :| Linked(t, seen, q, i);
          assert Linked(t, seen + {p}, q, i);
        }
      }
    }
  }

  /** A file whose inode is new. */
  lemma VisitNew(t: Tree, seen: set<Path>, links: seq<nat>, links': seq<nat>, size: int, p: Path)
    requires p in t && t[p].File? && p !in seen && (t[p].nlink > 1 ==> t[p].ino !in links)
    requires links' == if t[p].nlink > 1 then links + [t[p].ino] else links
    requires Counted(t, seen, links, size)
    ensures Counted(t, seen + {p}, links', Wrap(size + |t[p].data|))
  {
    hide LinksSound, Linked, DistinctTotal, Wrap, InodeSizes;
    if NoHardLinks(t) {
      PlainStep(t, seen, p);
      WrapAbsorbs(Total(Seen(t, seen)), |t[p].data|);
    }
    if LinksSound(t) {
      NewCountedOnce(t, seen, links, links', size, p);
    }
  }

  lemma NewCountedOnce(t: Tree, seen: set<Path>, links: seq<nat>, links': seq<nat>, size: int, p: Path)
    requires LinksSound(t) && CountedOnce(t, seen, links, size)
    requires p in t && t[p].File? && p !in seen && (t[p].nlink > 1 ==> t[p].ino !in links)
    requires links' == if t[p].nlink > 1 then links + [t[p].ino] else links
    ensures CountedOnce(t, seen + {p}, links', Wrap(size + |t[p].data|))
  {
    hide LinksSound, Linked, DistinctTotal, Wrap;
    InodeIsNew(t, seen, links, size, p);
    NewInode(t, seen, p);
    WrapAbsorbs(DistinctTotal(t, seen), |t[p].data|);
    NewLinks(t, seen, links, links', p);
  }

  lemma NewLinks(t: Tree, seen: set<Path>, links: seq<nat>, links': seq<nat>, p: Path)
    requires p in t && t[p].File?
    requires links' == if t[p].nlink > 1 then links + [t[p].ino] else links
    requires forall i :: i in links <==> exists q :: Linked(t, seen, q, i)
    ensures forall i :: i in links' <==> exists q :: Linked(t, seen + {p}, q, i)
  {
    forall i ensures i in links' <==> exists q :: Linked(t, seen + {p}, q, i) {
      if q :| Linked(t, seen + {p}, q, i) {
        assert q != p ==> Linked(t, seen, q, i);
      }
      if i in links {
        var q :| Linked(t, seen, q, i);
        assert Linked(t, seen + {p}, q, i);
      } else if i in links' {
        assert Linked(t, seen + {p}, p, i);
      }
    }
  }

  lemma InodeIsNew(t: Tree, seen: set<Path>, links: seq<nat>, size: int, p: Path)
    requires p in t && t[p].File? && p !in seen && (t[p].nlink > 1 ==> t[p].ino !in links)
    requires LinksSound(t) && CountedOnce(t, seen, links, size)
    ensures t[p].ino !in Inodes(t, seen)
  {
    forall q | q in seen && q in t && t[q].File? ensures t[q].ino != t[p].ino {
      assert t[q].nlink > 1 ==> Linked(t, seen, q, t[q].ino);
    }
  }

  lemma PlainStep(t: Tree, seen: set<Path>, p: Path)
    requires p in t && p !in seen
    ensures Total(Seen(t, seen + {p})) == Total(Seen(t, seen)) + Size(t[p])
  {
    AccountedPut(Seen(t, seen), map[], p, t[p]);
    assert Seen(t, seen + {p}) == Seen(t, seen)[p := t[p]];
  }

  lemma NewInode(t: Tree, seen: set<Path>, p: Path)
    requires LinksSound(t) && p in t && t[p].File? && t[p].ino !in Inodes(t, seen)
    ensures DistinctTotal(t, seen + {p}) == DistinctTotal(t, seen) + |t[p].data|
  {
    var i := t[p].ino;
    assert InodeSize(t, i) == |t[p].data|;
    assert Inodes(t, seen + {p}) == Inodes(t, seen) + {i};
    assert InodeSizes(t, seen + {p}) == InodeSizes(t, seen)[i := |t[p].data|];
    SumPut(InodeSizes(t, seen), i, |t[p].data|);
  }

  /** Some directory at or below `p` cannot be listed. */
  ghost predicate Unlistable(k: Kernel, t: Tree, p: Path) {
    exists q :: q in t && Under(p, q) && t[q].Dir? && !Opens(k, q)
  }

  ghost function Visited(t: Tree, p: Path, names: seq<string>, n: nat): set<Path>
    requires n <= |names|
  {
    set q | q in t && (q == p || exists j :: 0 <= j < n && Under(p + [names[j]], q))
  }

  /** walkDir with the callback above. */
  method WalkDir(k: Kernel, t: Tree, p: Path, links: seq<nat>, size: int64, ghost seen: set<Path>, ghost depth: nat)
    returns (links': seq<nat>, size': int64, err: Outcome, ghost seen': set<Path>)
    requires WellFormed(t) && p in t && DepthBelow(t, p, depth)
    requires seen !! PathsUnder(t, p) && Counted(t, seen, links, size as int)
    ensures Counted(t, seen', links', size' as int)
    ensures seen <= seen' <= seen + PathsUnder(t, p)
    ensures err.Pass? ==> seen' == seen + PathsUnder(t, p)
    ensures err.Fail? <==> Unlistable(k, t, p)
    decreases depth, 1
  {
    assert Under(p, p);
    links', size' := Visit(t, p, links, size, seen);
    seen' := seen + {p};
    if t[p].File? {
      FileSubtree(k, t, p);
      return links', size', Pass, seen';
    }
    if p in k.unopenable || p in k.unreadable {
      return links', size', Fail(Sys(EACCES)), seen';
    }
    var names := ReadNames(t, p);
    ListedDepth(t, t, p, names, depth);
    VisitedNone(t, p, names, seen);
    links', size', err, seen' := WalkEntries(k, t, p, names, links', size', seen, seen', depth);
    if err.Pass? {
      AllVisited(k, t, p, names);
    }
  }

  /** The loop of walkDir over the entries of the directory `p`. */
  method WalkEntries(k: Kernel, t: Tree, p: Path, names: seq<string>, links: seq<nat>, size: int64,
                     ghost seen: set<Path>, ghost now: set<Path>, ghost depth: nat)
    returns (links': seq<nat>, size': int64, err: Outcome, ghost seen': set<Path>)
    requires WellFormed(t) && p in t && DepthBelow(t, p, depth) && (|names| > 0 ==> depth > 0)
    requires Lists(t, p, names) && Distinct(names)
    requires seen !! PathsUnder(t, p) && now == seen + Visited(t, p, names, 0)
    requires Counted(t, now, links, size as int)
    ensures Counted(t, seen', links', size' as int)
    ensures seen <= seen' <= seen + PathsUnder(t, p)
    ensures err.Pass? ==> seen' == seen + Visited(t, p, names, |names|)
    ensures err.Pass? ==> forall j :: 0 <= j < |names| ==> !Unlistable(k, t, p + [names[j]])
    ensures err.Fail? ==> Unlistable(k, t, p)
    decreases depth, 0
  {
    links', size', seen', err := links, size, now, Pass;
    var i := 0;
    VisitedSome(t, p, names, 0, seen, now);
    while i < |names|
      invariant 0 <= i <= |names|
      invariant seen' == seen + Visited(t, p, names, i) && seen' <= seen + PathsUnder(t, p)
      invariant Counted(t, seen', links', size' as int)
      invariant err.Pass? && forall j :: 0 <= j < i ==> !Unlistable(k, t, p + [names[j]])
    {
      var c := p + [names[i]];
      assert names[i] in names && Parent(c) == p;
      ChildDepth(t, t, p, c, depth);
      ChildIsNew(t, p, names, i);
      BeforeChild(t, p, names, i, seen, seen');
      ghost var before := seen';
      links', size', err, seen' := WalkDir(k, t, c, links', size', before, depth - 1);
      AfterChild(t, p, names, i, seen, before, seen');
      if err.Fail? {
        ChildUnlistable(k, t, p, c);
        return;
      }
      i := i + 1;
    }
  }

  lemma VisitedNone(t: Tree, p: Path, names: seq<string>, seen: set<Path>)
    requires p in t
    ensures seen + {p} == seen + Visited(t, p, names, 0)
  {
  }

  lemma VisitedSome(t: Tree, p: Path, names: seq<string>, i: nat, seen: set<Path>, now: set<Path>)
    requires i <= |names| && now == seen + Visited(t, p, names, i)
    ensures now <= seen + PathsUnder(t, p)
  {
    assert Under(p, p);
    forall q, j | 0 <= j < i && Under(p + [names[j]], q) ensures Under(p, q) {
      BranchOf(p, names[j], q);
    }
  }

  lemma BeforeChild(t: Tree, p: Path, names: seq<string>, i: nat, seen: set<Path>, now: set<Path>)
    requires WellFormed(t) && Distinct(names) && i < |names|
    requires seen !! PathsUnder(t, p) && now == seen + Visited(t, p, names, i)
    ensures now !! PathsUnder(t, p + [names[i]])
  {
    ChildIsNew(t, p, names, i);
  }

  lemma AfterChild(t: Tree, p: Path, names: seq<string>, i: nat, seen: set<Path>, before: set<Path>, now: set<Path>)
    requires WellFormed(t) && Distinct(names) && i < |names|
    requires before == seen + Visited(t, p, names, i)
    requires before <= now <= before + PathsUnder(t, p + [names[i]])
    ensures seen <= now <= seen + PathsUnder(t, p)
    ensures now == before + PathsUnder(t, p + [names[i]]) ==> now == seen + Visited(t, p, names, i + 1)
  {
    ChildIsNew(t, p, names, i);
  }

  lemma FileSubtree(k: Kernel, t: Tree, p: Path)
    requires WellFormed(t) && p in t && t[p].File?
    ensures PathsUnder(t, p) == {p} && !Unlistable(k, t, p)
  {
    assert Under(p, p);
    forall q | q in t && Under(p, q) ensures q == p {
      FileIsAlone(t, p, q);
    }
  }

  lemma BranchOf(p: Path, n: string, q: Path)
    requires Under(p + [n], q)
    ensures |q| > |p| && q[|p|] == n && Under(p, q)
  {
    var c := p + [n];
    assert q[..|c|][|p|] == q[|p|];
    assert q[..|p|] == q[..|c|][..|p|];
  }

  lemma ChildIsNew(t: Tree, p: Path, names: seq<string>, i: nat)
    requires WellFormed(t) && Distinct(names) && i < |names|
    ensures var c := p + [names[i]];
      && Visited(t, p, names, i) !! PathsUnder(t, c)
      && Visited(t, p, names, i) + PathsUnder(t, c) == Visited(t, p, names, i + 1)
    ensures Visited(t, p, names, i + 1) <= PathsUnder(t, p)
  {
    var c := p + [names[i]];
    assert Under(p, p);
    forall q, j | 0 <= j <= i && Under(p + [names[j]], q) ensures |q| > |p| && q[|p|] == names[j] && Under(p, q) {
      BranchOf(p, names[j], q);
    }
  }

  lemma ChildUnlistable(k: Kernel, t: Tree, p: Path, c: Path)
    requires c != [] && Parent(c) == p && Unlistable(k, t, c)
    ensures Unlistable(k, t, p)
  {
    var q :| q in t && Under(c, q) && t[q].Dir? && !Opens(k, q);
    UnderChild(p, c, q);
  }

  lemma AllVisited(k: Kernel, t: Tree, p: Path, names: seq<string>)
    requires WellFormed(t) && p in t && Lists(t, p, names) && Distinct(names) && Opens(k, p)
    requires forall j :: 0 <= j < |names| ==> !Unlistable(k, t, p + [names[j]])
    ensures Visited(t, p, names, |names|) == PathsUnder(t, p)
    ensures !Unlistable(k, t, p)
  {
    forall q | q in t && Under(p, q) ensures q in Visited(t, p, names, |names|) && !(t[q].Dir? && !Opens(k, q)) {
      if q != p {
        BelowIsLonger(p, q);
        var c := Child(p, q);
        AncestorInTree(t, c, q);
        assert q[|p|] in names;
        var j :| 0 <= j < |names| && names[j] == q[|p|];
        assert Under(p + [names[j]], q);
      }
    }
    if |names| > 0 {
      ChildIsNew(t, p, names, |names| - 1);
    }
    assert Under(p, p);
  }

  /** DirectorySize of the whole server directory, hard links or not. */
  method Measure(k: Kernel, t: Tree) returns (size: int64, err: Outcome)
    requires WellFormed(t)
    ensures err.Pass? && LinksSound(t) ==> size as int == Wrap(DistinctTotal(t, t.Keys))
    ensures err.Pass? && NoHardLinks(t) ==> size as int == Wrap(Total(t))
    ensures err.Fail? <==> exists q :: q in t && t[q].Dir? && !Opens(k, q)
  {
    assert forall q: Path :: Under([], q);
    assert PathsUnder(t, []) == t.Keys;
    assert Seen(t, t.Keys) == t;
    StartCount(t);
    var links; ghost var seen;
    links, size, err, seen := WalkDir(k, t, [], [], 0, {}, Deepest(t, t.Keys));
    if err.Pass? {
      assert seen == t.Keys;
    }
  }

  lemma StartCount(t: Tree)
    ensures Counted(t, {}, [], 0)
  {
    assert Seen(t, {}) == map[];
    assert View(map[], map[]) == map[];
    assert InodeSizes(t, {}) == map[];
  }

  /** updateCachedDiskUsage: the counter is replaced by the measured size, even after an error. With
      hard links it is the size over distinct inodes, so a hard-linked tree is not counted twice. */
  method UpdateCachedDiskUsage(fs: Filesystem) returns (size: int64, err: Outcome)
    requires WellFormed(fs.unixFS.tree)
    modifies fs.unixFS`usage
    ensures fs.unixFS.usage == size
    ensures err.Pass? && LinksSound(fs.unixFS.tree) ==> size as int == Wrap(DistinctTotal(fs.unixFS.tree, fs.unixFS.tree.Keys))
    ensures err.Pass? && NoHardLinks(fs.unixFS.tree) ==> size as int == Wrap(Total(fs.unixFS.tree))
    ensures err.Pass? && old(fs.Valid()) && Total(fs.unixFS.tree) <= MAX_INT64 ==>
      fs.Valid() && (fs.unixFS.Balanced() <==> Accounted(fs.unixFS.tree, fs.unixFS.accounted) == Total(fs.unixFS.tree))
    ensures err.Fail? <==> exists q :: q in fs.unixFS.tree && fs.unixFS.tree[q].Dir? && !Opens(fs.unixFS.kernel, q)
  {
    size, err := Measure(fs.unixFS.kernel, fs.unixFS.tree);
    fs.unixFS.usage := size;
  }

  const Doubled: Tree := map[[] := Dir, ["a"] := File(7, 2, [1, 2, 3]), ["b"] := File(7, 2, [1, 2, 3])]

  /** Two names of one inode: counted once by the walk, twice by the plain sum. */
  lemma HardLinkCountedOnce()
    ensures WellFormed(Doubled) && LinksSound(Doubled)
    ensures DistinctTotal(Doubled, Doubled.Keys) == 3 && Total(Doubled) == 6
  {
    DoubledIsTree(Doubled);
    OneInode(Doubled, Doubled[["a"]]);
    PlainTotalOfLinks();
  }

  lemma DoubledIsTree(t: Tree)
    requires t.Keys == {[], ["a"], ["b"]} && t[[]].Dir?
    ensures WellFormed(t)
  {
    assert Parent(["a"]) == [] && Parent(["b"]) == [];
    assert ValidName("a") && ValidName("b");
  }

  lemma OneInode(t: Tree, node: Node)
    requires node.File? && (exists p :: p in t && t[p].File?)
    requires forall p :: p in t && t[p].File? ==> t[p] == node
    ensures DistinctTotal(t, t.Keys) == Size(node)
  {
    var p :| p in t && t[p].File?;
    assert t[p].ino == node.ino;
    assert Inodes(t, t.Keys) == {node.ino};
    var none: map<nat, nat> := map[];
    assert InodeSizes(t, t.Keys) == none[node.ino := Size(node)];
    SumPut(none, node.ino, Size(node));
  }

  lemma PlainTotalOfLinks()
    ensures Total(Doubled) == 6
  {
    var t0: Tree := map[[] := Dir];
    var node := File(7, 2, [1, 2, 3]);
    EmptyTotal();
    AccountedPut(t0, map[], ["a"], node);
    AccountedPut(t0[["a"] := node], map[], ["b"], node);
    assert t0[["a"] := node][["b"] := node] == Doubled;
  }

  /** Without hard links the distinct-inode sum is the plain sum. */
  lemma NoLinksPlainSum(t: Tree)
    requires LinksSound(t) && NoHardLinks(t)
    ensures DistinctTotal(t, t.Keys) == Total(t)
  {
    InodesAreFiles(t);
    InodesAreDistinct(t);
    SumRekey(FileSizes(t), InodeSizes(t, t.Keys), FileInodes(t));
    SumPad(FileSizes(t), View(t, map[]));
  }

  ghost function FileSizes(t: Tree): map<Path, nat> {
    map p | p in t && t[p].File? :: Size(t[p])
  }

  ghost function FileInodes(t: Tree): map<Path, nat> {
    map p | p in t && t[p].File? :: t[p].ino
  }

  lemma InodesAreDistinct(t: Tree)
    requires LinksSound(t) && NoHardLinks(t)
    ensures var f := FileInodes(t); forall p, q :: p in f && q in f && f[p] == f[q] ==> p == q
  {
    var f := FileInodes(t);
    forall p, q | p in f && q in f && f[p] == f[q] ensures p == q {
      assert t[p].nlink == 1;
    }
  }

  /** Every inode of the sum is that of a file, with its size. */
  lemma InodesAreFiles(t: Tree)
    requires LinksSound(t)
    ensures var f, sizes := FileInodes(t), InodeSizes(t, t.Keys);
      && (forall p :: p in f ==> f[p] in sizes && sizes[f[p]] == FileSizes(t)[p])
      && (forall i :: i in sizes <==> exists p :: p in f && f[p] == i)
  {
    var f, sizes := FileInodes(t), InodeSizes(t, t.Keys);
    forall p | p in f ensures f[p] in sizes && sizes[f[p]] == FileSizes(t)[p] {
      assert t[p].ino == f[p];
    }
    forall i | i in sizes ensures exists p :: p in f && f[p] == i {
      var p :| p in t && t[p].File? && t[p].ino == i;
      assert p in f;
    }
  }
}
