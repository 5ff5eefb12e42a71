/** Whole runs of filesystem operations: every operation does what LedgerSteps says, so the counter
    equals the size of the tree and a positive limit is never passed. */
module LedgerRuns {
  import opened Int64
  import opened PathText
  import opened FileTree
  import opened Ufs
  import DirectorySize
  import opened Filesystems
  import opened HandleLedger
  import opened QuotaFiles
  import opened LedgerSteps

  ghost predicate Quiet(fs: Filesystem)
    reads fs, fs.unixFS
  {
    fs.Valid() && fs.unixFS.accounted == map[]
  }

  ghost function ServerOf(fs: Filesystem): Server
    reads fs, fs.unixFS
  {
    Server(fs.unixFS.base, fs.unixFS.kernel, fs.unixFS.limit)
  }

  ghost function Now(fs: Filesystem): Moment
    reads fs, fs.unixFS
  {
    Moment(fs.unixFS.tree, fs.unixFS.usage)
  }

  // ------------------------------------------------------------------ single operations

  method RunWrite(fs: Filesystem, q: Request) returns (err: Outcome)
    requires Quiet(fs) && q.WriteFile?
    modifies fs.unixFS`tree, fs.unixFS`usage
    ensures Quiet(fs)
    ensures Performed(old(ServerOf(fs)), q, old(Now(fs)), Now(fs))
  {
    hide Written, WholeFile, StopsAt, Unhindered, OnlyDirsAdded, UnsafePath, DirOf, SpaceFor, CopiedBytes, CopyFails;
    ghost var limit := fs.unixFS.limit;
    ghost var written;
    err, written := fs.Write(q.p, q.body, q.newSize, q.f);
    assert fs.unixFS.limit == limit;
  }

  method RunCopy(fs: Filesystem, q: Request) returns (err: Outcome)
    requires Quiet(fs) && q.CopyFile? && Acceptable(q)
    modifies fs.unixFS`tree, fs.unixFS`usage
    ensures Quiet(fs)
    ensures Performed(old(ServerOf(fs)), q, old(Now(fs)), Now(fs))
  {
    hide UnsafePath, Copyable, SpaceFor;
    ghost var t, limit := fs.unixFS.tree, fs.unixFS.limit;
    ghost var copied;
    err, copied := fs.Copy(q.p, q.stamp, q.f);
    assert fs.unixFS.limit == limit;
    if copied.Some? {
      var o := fs.unixFS.Locate(q.p).path;
      assert Size(t[o]) <= MAX_INT64;
      assert copied.value.1 == CopyLength(t, o, q.f);
    }
  }

  method RunRename(fs: Filesystem, q: Request) returns (r: Outcome)
    requires Quiet(fs) && q.RenameFile?
    modifies fs.unixFS`tree
    ensures Quiet(fs)
    ensures Performed(old(ServerOf(fs)), q, old(Now(fs)), Now(fs))
  {
    ghost var limit, usage := fs.unixFS.limit, fs.unixFS.usage;
    r := fs.unixFS.Rename(q.oldpath, q.newpath, q.renames);
    assert fs.unixFS.limit == limit && fs.unixFS.usage == usage;
  }

  method RunCreateDirectory(fs: Filesystem, q: Request) returns (r: Outcome)
    requires Quiet(fs) && q.CreateDirectory?
    modifies fs.unixFS`tree
    ensures Quiet(fs)
    ensures Performed(old(ServerOf(fs)), q, old(Now(fs)), Now(fs))
  {
    ghost var limit, usage := fs.unixFS.limit, fs.unixFS.usage;
    r := fs.MkdirAll(JoinTwo(q.p, q.name), q.chown);
    assert fs.unixFS.limit == limit && fs.unixFS.usage == usage;
  }

  method RunDelete(fs: Filesystem, q: Request) returns (r: Outcome)
    requires Quiet(fs) && q.DeleteFile?
    modifies fs.unixFS`tree, fs.unixFS`usage
    ensures Quiet(fs)
    ensures PerformsDelete(old(ServerOf(fs)), q.p, old(Now(fs)), Now(fs))
  {
    hide Sound, UnsafePath, RemoveAll.Deleted, RemoveAll.ChargesExactly;
    ghost var limit := fs.unixFS.limit;
    r := RemoveAll.Delete(fs.unixFS, q.p);
    assert fs.unixFS.limit == limit;
  }

  method RunEmptyRoot(fs: Filesystem, q: Request) returns (r: Outcome)
    requires Quiet(fs) && q.EmptyRoot?
    modifies fs, fs.unixFS`tree
    ensures Quiet(fs) && ServerOf(fs) == old(ServerOf(fs))
    ensures fs.unixFS == old(fs.unixFS) || fresh(fs.unixFS)
    ensures Performed(old(ServerOf(fs)), q, old(Now(fs)), Now(fs))
  {
    r := fs.TruncateRootDirectory(q.refused, q.makes, q.reopens);
  }

  /** A recount makes the counter exact again, from whatever value it had drifted to. */
  method Recount(fs: Filesystem)
    requires Quiet(fs) && fs.unixFS.kernel.unopenable == {} && fs.unixFS.kernel.unreadable == {}
    requires Total(fs.unixFS.tree) <= MAX_INT64
    modifies fs.unixFS`usage
    ensures Quiet(fs) && fs.unixFS.Balanced()
  {
    var size, err := DirectorySize.UpdateCachedDiskUsage(fs);
  }

  // ------------------------------------------------------------------ a session on one handle

  /** Touch, any calls of Write and WriteAt with any offsets and short counts, then Close. */
  method RunSession(fs: Filesystem, q: Request) returns (r: Outcome)
    requires Quiet(fs) && q.Session? && Acceptable(q)
    modifies fs.unixFS`tree, fs.unixFS`usage, fs.unixFS`accounted
    ensures Quiet(fs)
    ensures PerformsSession(old(ServerOf(fs)), q, old(Now(fs)), Now(fs))
    ensures q.calls == [] && !q.trunc ==>
      forall p :: p in old(fs.unixFS.tree) ==> p in fs.unixFS.tree && fs.unixFS.tree[p] == old(fs.unixFS.tree)[p]
  {
    ghost var sv, m := ServerOf(fs), Now(fs);
    var h;
    r, h := Touch(fs, q.p, q.trunc, q.f);
    assert fs.unixFS.limit == sv.limit && fs.unixFS.usage == m.usage;
    if h == null {
      return;
    }
    ghost var path, v := h.path, h.Snapshot();
    r := CallsAndClose(h, q.calls, q.stats, q.closes);
    assert fs.unixFS.limit == sv.limit;
    SessionPerforms(sv, q, m, Now(fs), path, v);
    if q.calls == [] && !q.trunc {
      IdleSession(sv, q, m, Now(fs));
    }
  }

  /** Tree and counter when a handle in state `v` has served the calls and is closed. */
  ghost predicate Closed(limit: int64, path: Path, v: HandleView, m': Moment, calls: seq<Call>, stats: bool) {
    && path in v.tree && v.tree[path].File?
    && var data, s := ContentAfter(limit, v.state, v.tree[path].data, calls), AfterCalls(limit, v.state, calls);
      && m'.tree == v.tree[path := v.tree[path].(data := data)]
      && m'.usage as int == if stats then Clamp(s.usage + |data| - s.size) else s.usage
  }

  method CallsAndClose(h: QuotaFile, calls: seq<Call>, stats: bool, closes: bool) returns (r: Outcome)
    requires h.Valid() && h.fs.unixFS.accounted == map[h.path := h.size as int]
    requires forall i :: 0 <= i < |calls| ==> |calls[i].p| <= MAX_INT64
    modifies h`size, h`pos, h.fs.unixFS`tree, h.fs.unixFS`usage, h.fs.unixFS`accounted
    ensures Quiet(h.fs)
    ensures Closed(h.fs.unixFS.limit, h.path, old(h.Snapshot()), Now(h.fs), calls, stats)
  {
    ghost var limit := h.fs.unixFS.limit;
    PerformAll(h, calls);
    assert h.fs.unixFS.limit == limit;
    r := h.Close(stats, closes);
    assert h.fs.unixFS.limit == limit && h.fs.unixFS.accounted == map[];
  }

  lemma SessionPerforms(sv: Server, q: Request, m: Moment, m': Moment, path: Path, v: HandleView)
    requires Sane(sv, m) && q.Session? && LocateIn(sv.base, q.p) == At(path)
    requires Touched(m.tree, v.tree, path, q.trunc, q.f.ino) && v.state == Opening(m.tree, m.usage, path)
    requires Closed(sv.limit, path, v, m', q.calls, q.stats)
    ensures PerformsSession(sv, q, m, m')
  {
    SessionTree(m.tree, v.tree, m'.tree, path, q.trunc, q.f.ino, m'.tree[path].data);
    assert SessionEnds(sv.limit, m, m', path, q.trunc, q.f.ino, q.calls, q.stats);
  }

  lemma SessionTree(t: Tree, t1: Tree, t2: Tree, q: Path, trunc: bool, ino: nat, data: Bytes)
    requires Touched(t, t1, q, trunc, ino) && q in t1 && t1[q].File? && t2 == t1[q := t1[q].(data := data)]
    ensures t2 == WithDirs(t, Parent(q))[q := TouchedNode(t, q, trunc, ino).(data := data)]
  {
  }

  /** Any sequence of calls on one handle. */
  method PerformAll(h: QuotaFile, calls: seq<Call>)
    requires h.Valid() && forall i :: 0 <= i < |calls| ==> |calls[i].p| <= MAX_INT64
    modifies h`size, h`pos, h.fs.unixFS`tree, h.fs.unixFS`usage, h.fs.unixFS`accounted
    ensures h.Valid() && Served(h.fs.unixFS.limit, h.path, old(h.Snapshot()), h.Snapshot(), calls)
  {
    ghost var v, limit := h.Snapshot(), h.fs.unixFS.limit;
    ServedNone(limit, h.path, v);
    var i := 0;
    assert calls[..0] == [];
    while i < |calls|
      invariant 0 <= i <= |calls|
      invariant h.Valid() && h.fs.unixFS.limit == limit
      invariant Served(limit, h.path, v, h.Snapshot(), calls[..i])
    {
      ghost var before := h.Snapshot();
      var n, err := Perform(h, calls[i]);
      assert h.fs.unixFS.limit == limit;
      ServedNext(limit, h.path, v, before, h.Snapshot(), calls, i);
      i := i + 1;
    }
    assert calls[..|calls|] == calls;
  }

  method Perform(h: QuotaFile, c: Call) returns (n: nat, err: Outcome)
    requires h.Valid() && |c.p| <= MAX_INT64
    modifies h`size, h`pos, h.fs.unixFS`tree, h.fs.unixFS`usage, h.fs.unixFS`accounted
    ensures h.Valid() && ServedOne(h.fs.unixFS.limit, h.path, old(h.Snapshot()), h.Snapshot(), c)
  {
    match c
    case Sequential(p, w, seeks) => n, err := h.Write(p, w, seeks);
    case Positional(p, off, w) => n, err := h.WriteAt(p, off, w);
  }

  // ------------------------------------------------------------------ runs

  /** One operation of a run. With a limit, and where nothing refuses to be unlinked, the counter goes on
      covering the tree and staying within the limit, whatever else fails. */
  method Execute(fs: Filesystem, q: Request) returns (r: Outcome)
    requires Quiet(fs) && Acceptable(q)
    modifies fs, fs.unixFS
    ensures Quiet(fs) && ServerOf(fs) == old(ServerOf(fs))
    ensures fs.unixFS == old(fs.unixFS) || fresh(fs.unixFS)
    ensures Performed(old(ServerOf(fs)), q, old(Now(fs)), Now(fs))
    ensures fs.unixFS.limit != 0 && fs.unixFS.kernel.unlinkRefused == map[] && Covered(fs.unixFS.limit, old(Now(fs))) ==>
      Covered(fs.unixFS.limit, Now(fs))
  {
    hide PerformsWrite, PerformsCopy, PerformsRename, PerformsMkdir, PerformsDelete, PerformsSession, Covered;
    ghost var sv, m := ServerOf(fs), Now(fs);
    match q {
      case WriteFile(_, _, _, _) => r := RunWrite(fs, q);
      case CopyFile(_, _, _) => r := RunCopy(fs, q);
      case RenameFile(_, _, _) => r := RunRename(fs, q);
      case CreateDirectory(_, _, _) => r := RunCreateDirectory(fs, q);
      case DeleteFile(_) => r := RunDelete(fs, q);
      case EmptyRoot(_, _, _) => r := RunEmptyRoot(fs, q);
      case Session(_, _, _, _, _, _) => r := RunSession(fs, q);
    }
    if sv.limit != 0 && sv.kernel.unlinkRefused == map[] && Covered(sv.limit, m) {
      StepCovers(sv, q, m, Now(fs));
    }
  }

  /** Over every run: each moment of the trace is what the operation makes of the one before. If nothing
      disturbs the ledger it is exact at the end as it was at the start; and with a limit, where nothing
      refuses to be unlinked, the counter covers the tree and the limit the counter at the end as at the
      start, whatever else fails or collides on the way. */
  method Run(fs: Filesystem, requests: seq<Request>) returns (ghost trace: seq<Moment>)
    requires Quiet(fs)
    requires forall i :: 0 <= i < |requests| ==> Acceptable(requests[i])
    modifies fs, fs.unixFS
    ensures Quiet(fs) && ServerOf(fs) == old(ServerOf(fs))
    ensures Traced(ServerOf(fs), requests, trace)
    ensures trace[0] == old(Now(fs)) && trace[|requests|] == Now(fs)
    ensures Exact(old(Now(fs))) && (forall i {:trigger requests[i]} :: 0 <= i < |requests| ==> !Disturbs(ServerOf(fs), requests[i], trace[i])) ==>
      Exact(Now(fs))
    ensures fs.unixFS.limit != 0 && fs.unixFS.kernel.unlinkRefused == map[] && Covered(fs.unixFS.limit, old(Now(fs))) ==>
      Covered(fs.unixFS.limit, Now(fs))
  {
    hide Performed, Disturbs, Exact, Covered, Acceptable;
    ghost var sv, start := ServerOf(fs), Now(fs);
    trace := [Now(fs)];
    for i := 0 to |requests|
      invariant Quiet(fs) && ServerOf(fs) == sv
      invariant fs.unixFS == old(fs.unixFS) || fresh(fs.unixFS)
      invariant |trace| == i + 1 && trace[0] == start && trace[i] == Now(fs)
      invariant Traced(sv, requests[..i], trace)
      invariant sv.limit != 0 && sv.kernel.unlinkRefused == map[] && Covered(sv.limit, start) ==> Covered(sv.limit, trace[i])
    {
      var r := Execute(fs, requests[i]);
      TracedPrefix(sv, requests[..i], trace, requests[i], Now(fs));
      assert requests[..i + 1] == requests[..i] + [requests[i]];
      trace := trace + [Now(fs)];
    }
    assert requests[..|requests|] == requests;
    if Exact(start) && forall i {:trigger requests[i]} :: 0 <= i < |requests| ==> !Disturbs(sv, requests[i], trace[i]) {
      ExactThroughout(sv, requests, trace, |requests|);
    }
  }
}
