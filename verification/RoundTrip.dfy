/** A server transfer end to end: archive one directory, extract into an empty one. */
module RoundTrip {
  import opened Collections
  import opened Int64
  import opened Sums
  import opened PathText
  import opened FileTree
  import opened Ufs
  import opened WalkTree
  import opened Filesystems
  import opened Archives
  import opened Transfers
  import opened LedgerRuns

  const Everything := Selection([], None)

  ghost predicate IsFile(t: Tree, q: Path) {
    q in t && t[q].File?
  }

  ghost function FileList(t: Tree, visited: seq<Path>): seq<Path> {
    Filter(visited, Included(t, Everything, map[]))
  }

  /** With everything selected, the archive has one entry for each file visited, in that order. */
  lemma EntriesOfFiles(t: Tree, visited: seq<Path>)
    requires WellFormed(t)
    ensures var es, qs := Entries(t, Everything, map[], visited), FileList(t, visited);
      |es| == |qs| && forall i :: 0 <= i < |qs| ==> IsFile(t, qs[i]) && es[i] == Entry(PathName(qs[i]), t[qs[i]].data)
  {
    EntriesInOrder(t, Everything, map[], visited);
  }

  /** Every file of the tree is listed, once. */
  lemma AllFilesListed(t: Tree, ls: Order)
    requires WellFormed(t) && Listing(t, ls)
    ensures var qs := FileList(t, Offered(t, ls, Everything, []));
      Distinct(qs) && forall q :: q in qs <==> IsFile(t, q)
  {
    NoFileTwice(t, ls, Everything, map[], []);
    forall q ensures q in FileList(t, Offered(t, ls, Everything, [])) <==> IsFile(t, q) {
      FilterMember(Offered(t, ls, Everything, []), Included(t, Everything, map[]), q);
      if IsFile(t, q) {
        FileArchived(t, ls, Everything, map[], [], q);
      }
    }
  }

  ghost function Restricted(t: Tree, qs: seq<Path>): Tree {
    map q | q in t && q in qs :: t[q]
  }

  ghost function Size64(t: Tree, q: Path): int64 {
    if q in t && Size(t[q]) <= MAX_INT64 then Size(t[q]) as int64 else 0
  }

  ghost function ListSizes(t: Tree, qs: seq<Path>): seq<int64> {
    seq(|qs|, i requires 0 <= i < |qs| => Size64(t, qs[i]))
  }

  ghost predicate AllFiles(t: Tree, qs: seq<Path>) {
    forall q :: q in qs ==> IsFile(t, q)
  }

  lemma ListStep(t: Tree, qs: seq<Path>, q: Path)
    requires IsFile(t, q) && q !in qs
    ensures Restricted(t, qs + [q]) == Restricted(t, qs)[q := t[q]]
    ensures Total(Restricted(t, qs + [q])) == Total(Restricted(t, qs)) + Size(t[q])
    ensures ListSizes(t, qs + [q]) == ListSizes(t, qs) + [Size64(t, q)]
    ensures Size(t[q]) <= MAX_INT64 ==> Size64(t, q) as int == Size(t[q])
  {
    assert Restricted(t, qs + [q]) == Restricted(t, qs)[q := t[q]];
    AccountedPut(Restricted(t, qs), map[], q, t[q]);
  }

  lemma OneMoreSize(sizes: seq<int64>, size: int64)
    ensures PositiveSum(sizes + [size]) == PositiveSum(sizes) + Max(0, size as int)
  {
    assert (sizes + [size])[..|sizes|] == sizes;
  }

  lemma ListNothing(t: Tree)
    ensures PositiveSum(ListSizes(t, [])) == 0 == Total(Restricted(t, []))
  {
    assert View(Restricted(t, []), map[]) == map[];
  }

  lemma {:induction false} ListTotal(t: Tree, qs: seq<Path>)
    requires SizesFit(t) && Distinct(qs) && AllFiles(t, qs)
    ensures PositiveSum(ListSizes(t, qs)) == Total(Restricted(t, qs))
    decreases |qs|
  {
    hide Restricted, ListSizes, Size64;
    if qs == [] {
      ListNothing(t);
    } else {
      var n := |qs| - 1;
      var init, last := qs[..n], qs[n];
      assert qs == init + [last];
      assert last in qs && IsFile(t, last) && last !in init && Size(t[last]) <= MAX_INT64;
      ListTotal(t, init);
      ListStep(t, init, last);
      OneMoreSize(ListSizes(t, init), Size64(t, last));
    }
  }

  lemma FilesWeighEverything(t: Tree, qs: seq<Path>)
    requires forall q :: q in qs <==> IsFile(t, q)
    ensures Total(Restricted(t, qs)) == Total(t)
  {
    SumPad(View(Restricted(t, qs), map[]), View(t, map[]));
  }

  /** The entries of the tar stream as they arrive at the other side; each meets its own faults. */
  function Received(w: seq<Entry>, faults: nat -> Faults): seq<TarEntry>
    requires forall i :: 0 <= i < |w| ==> |w[i].data| <= MAX_INT64
  {
    seq(|w|, i requires 0 <= i < |w| =>
      TarEntry(w[i].name, false, |w[i].data| as int64, Reader(w[i].data, false), faults(i), true))
  }

  /** The same files with the same contents, and exactly the directories above a file. */
  ghost predicate SameFiles(t: Tree, s: Tree) {
    && (forall p :: IsFile(t, p) <==> IsFile(s, p))
    && (forall p :: IsFile(t, p) ==> s[p].data == t[p].data)
    && (forall p :: p != [] ==> (p in s && s[p].Dir? <==> p in t && t[p].Dir? && HoldsFile(t, p)))
  }

  ghost predicate HoldsFile(t: Tree, p: Path) {
    exists q :: IsFile(t, q) && Under(p, q)
  }

  lemma RebuiltIsSame(t: Tree, s: Tree, qs: seq<Path>)
    requires WellFormed(t) && Rebuilt(t, s, qs) && forall q :: q in qs <==> IsFile(t, q)
    ensures SameFiles(t, s)
  {
    RebuiltFiles(t, s, qs);
    forall p | IsFile(t, p) ensures Delivered(t, s, p) {
      var i :| 0 <= i < |qs| && qs[i] == p;
      assert Delivered(t, s, qs[i]);
    }
    forall p | p in s && p != [] && s[p].Dir? ensures p in t && t[p].Dir? && HoldsFile(t, p) {
      assert Leads(p, qs);
      var i :| 0 <= i < |qs| && Under(p, qs[i]);
      assert IsFile(t, qs[i]) by { assert qs[i] in qs; }
      AncestorInTree(t, p, qs[i]);
      assert p == qs[i] ==> Delivered(t, s, p);
    }
    forall p | p != [] && p in t && t[p].Dir? && HoldsFile(t, p) ensures p in s && s[p].Dir? {
      var q :| IsFile(t, q) && Under(p, q);
      assert Delivered(t, s, q);
      AncestorInTree(s, p, q);
    }
  }

  /** No path of the tree, written with a leading slash, begins with the text of the base. */
  ghost predicate ClearOfBase(t: Tree, base: string) {
    forall q :: IsFile(t, q) ==> !(base <= "/" + Join(q))
  }

  /** The destination refuses nothing on the way to a file of `t`, and no write is cut short. */
  ghost predicate Willing(k: Kernel, faults: nat -> Faults, t: Tree) {
    && (forall q :: IsFile(t, q) ==> Permitted(k, map[], q))
    && (forall i :: Helpful(faults(i)))
    && (forall i, q :: IsFile(t, q) ==> Size(t[q]) <= faults(i).room)
  }

  ghost predicate Helpful(f: Faults) {
    f.stats && f.opens && f.chownDirs && f.chownFile
  }

  /** What the archiver of `t` offers when nothing is filtered out. */
  lemma ArchiveOfTree(t: Tree, order: Order, w: seq<Entry>, faults: nat -> Faults) returns (qs: seq<Path>)
    requires WellFormed(t) && SizesFit(t) && Listing(t, order)
    requires w == Entries(t, Everything, map[], Offered(t, order, Everything, []))
    ensures Matches(t, w, qs) && Distinct(qs) && forall q :: q in qs <==> IsFile(t, q)
    ensures forall i :: 0 <= i < |w| ==> |w[i].data| <= MAX_INT64
    ensures PositiveSum(Sizes(Received(w, faults))) == Total(t)
  {
    var visited := Offered(t, order, Everything, []);
    qs := FileList(t, visited);
    AllFilesListed(t, order);
    EntriesOfFiles(t, visited);
    EntrySizes(t, w, qs);
    ListTotal(t, qs);
    FilesWeighEverything(t, qs);
    SizesReceived(t, w, faults, qs);
  }

  lemma SizesReceived(t: Tree, w: seq<Entry>, faults: nat -> Faults, qs: seq<Path>)
    requires SizesFit(t) && Matches(t, w, qs)
    requires forall i :: 0 <= i < |w| ==> |w[i].data| <= MAX_INT64
    ensures Sizes(Received(w, faults)) == ListSizes(t, qs)
  {
    forall i | 0 <= i < |qs| ensures Sizes(Received(w, faults))[i] == ListSizes(t, qs)[i] {
      assert IsFile(t, qs[i]) && Size(t[qs[i]]) == |w[i].data|;
    }
  }

  /** Archive `src` and extract into the empty `dst`: exactly the regular files arrive, with their
      contents; only directories without a file below them are dropped; and the ledger of the
      destination is the total size. */
  method Transfer(src: Quota, order: Order, dst: Filesystem, faults: nat -> Faults) returns (r: Outcome)
    requires WellFormed(src.tree) && SizesFit(src.tree) && Listing(src.tree, order) && AllOpen(src.tree, src.kernel)
    requires Quiet(dst) && dst.unixFS != src
    requires dst.unixFS.tree == map[[] := Dir] && dst.unixFS.usage == 0
    requires Willing(dst.unixFS.kernel, faults, src.tree) && ClearOfBase(src.tree, dst.unixFS.base)
    requires NoneIgnored(dst.ignored, src.tree)
    requires Total(src.tree) <= MAX_INT64 && Enough(dst.unixFS.limit, 0, Total(src.tree))
    modifies dst.unixFS`tree, dst.unixFS`usage
    ensures r.Pass? && Quiet(dst)
    ensures SameFiles(src.tree, dst.unixFS.tree)
    ensures dst.unixFS.usage as int == Total(dst.unixFS.tree) == Total(src.tree)
  {
    ghost var t := src.tree;
    var a := new Archive(src.tree, src.kernel, order, Everything, map[]);
    assert [] in t;
    var sent := a.Stream(src.base, []);
    ghost var qs := ArchiveOfTree(t, order, a.w, faults);
    EntriesAreSent(TargetOf(dst, "/"), t, a.w, faults, qs);
    r := Deliver(dst, a.w, faults, t, qs);
    assert src.tree == t;
  }

  method Deliver(dst: Filesystem, w: seq<Entry>, faults: nat -> Faults, ghost t: Tree, ghost qs: seq<Path>) returns (r: Outcome)
    requires Quiet(dst)
    requires dst.unixFS.tree == map[[] := Dir] && dst.unixFS.usage == 0
    requires forall i :: 0 <= i < |w| ==> |w[i].data| <= MAX_INT64
    requires Transferable(TargetOf(dst, "/"), t, Received(w, faults), qs)
    requires forall q :: q in qs <==> IsFile(t, q)
    requires PositiveSum(Sizes(Received(w, faults))) == Total(t) <= MAX_INT64 && Enough(dst.unixFS.limit, 0, Total(t))
    modifies dst.unixFS`tree, dst.unixFS`usage
    ensures r.Pass? && Quiet(dst)
    ensures SameFiles(t, dst.unixFS.tree)
    ensures dst.unixFS.usage as int == Total(dst.unixFS.tree) == Total(t)
  {
    var entries := Received(w, faults);
    ghost var g, start := TargetOf(dst, "/"), Now(dst);
    ghost var n;
    r, n := ExtractStream(dst, "/", entries);
    StreamRebuilds(g, entries, start, Now(dst), n, r, t, qs);
    RebuiltIsSame(t, dst.unixFS.tree, qs);
  }

  ghost predicate NoneIgnored(ignored: string -> bool, t: Tree) {
    forall q :: IsFile(t, q) ==> !ignored("/" + Join(q))
  }

  ghost predicate Matches(t: Tree, w: seq<Entry>, qs: seq<Path>) {
    |w| == |qs| && forall i :: 0 <= i < |qs| ==> IsFile(t, qs[i]) && w[i] == Entry(PathName(qs[i]), t[qs[i]].data)
  }

  lemma EntrySizes(t: Tree, w: seq<Entry>, qs: seq<Path>)
    requires SizesFit(t) && Matches(t, w, qs)
    ensures forall i :: 0 <= i < |w| ==> |w[i].data| <= MAX_INT64
  {
    forall i | 0 <= i < |w| ensures |w[i].data| <= MAX_INT64 {
      assert Size(t[qs[i]]) <= MAX_INT64;
    }
  }

  lemma EntriesAreSent(g: Target, t: Tree, w: seq<Entry>, faults: nat -> Faults, qs: seq<Path>)
    requires WellFormed(t) && Matches(t, w, qs) && Distinct(qs)
    requires forall i :: 0 <= i < |w| ==> |w[i].data| <= MAX_INT64
    requires Willing(g.sv.kernel, faults, t) && ClearOfBase(t, g.sv.base) && NoneIgnored(g.ignored, t) && g.dir == "/"
    ensures Transferable(g, t, Received(w, faults), qs)
  {
    var entries := Received(w, faults);
    forall i | 0 <= i < |qs| ensures Sends(g, t, entries[i], qs[i]) {
      var q := qs[i];
      assert IsFile(t, q) && ValidNames(q) && q != [];
      RootJoin(q);
      assert Size(t[q]) <= faults(i).room && Helpful(faults(i));
    }
  }

  /** The precondition on the base cannot be dropped: a file whose rooted path begins with the text
      of the base is written somewhere else, or not at all. */
  lemma OnlyClearPathsArriveInPlace(base: string, q: Path)
    requires ValidBase(base) && ValidNames(q) && q != []
    ensures LocateIn(base, JoinTwo("/", PathName(q))) == At(q) <==> !(base <= "/" + Join(q))
  {
    RootJoin(q);
    RootedInPlace(base, q);
    NamesOfPathName(q);
    UnsafePathNormalForm(base, "/" + Join(q));
  }
}
