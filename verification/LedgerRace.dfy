/** Any number of quota handles and deletes at work on one ledger, step by step. Each handle is
    serialised by its own lock; reserving and adjusting take the filesystem's lock; deletes take
    none. The counter itself is only changed by compare-and-swap. */
module LedgerRace {
  import opened Collections
  import opened Int64
  import opened Sums
  import opened Ufs
  import HandleLedger

  type size64 = x: int64 | 0 <= x witness 0

  /** Where a process stands in Quota.Add. */
  datatype Adding = Still | Calling(i: int64) | Loaded(i: int64, seen: int64)

  /** Where a handle stands; a write goes from `off` to `end`. */
  datatype Phase =
    | Idle
    | Asking(off: size64, end: size64)
    | Checking(off: size64, end: size64)
    | Reserving(off: size64, end: size64)
    | Writing(off: size64, end: size64)
    | Written(off: size64, end: size64, upto: size64)
    | Settling(delta: int64, closing: bool)
    | Adjusting(closing: bool)

  /** `share` is how much of the counter stands for the process's file: history the steps do not
      look at. */
  datatype Process =
    | Handle(file: nat, size: size64, disk: size64, phase: Phase, add: Adding, share: nat)
    | Deleter(add: Adding, share: nat)

  /** `closed` are the sizes of the files that no process works on; `leak` is what handles closed
      without a stat have left on the counter. */
  datatype State = State(usage: size64, lock: Option<nat>, closed: map<nat, size64>, procs: map<nat, Process>, leak: int)

  datatype Action =
    | Open(p: nat, file: nat, trunc: bool)
    | Write(p: nat, off: size64, end: size64)
    | Lock(p: nat)
    | Check(p: nat)
    | Load(p: nat)
    | Swap(p: nat)
    | Unlock(p: nat)
    | DiskWrite(p: nat, upto: size64)
    | Account(p: nat)
    | Close(p: nat, statOk: bool)
    | Delete(p: nat, file: nat)
    | Finish(p: nat)

  function Larger(a: size64, b: size64): size64 {
    if a <= b then b else a
  }

  predicate HasHandle(procs: map<nat, Process>, file: nat) {
    exists q :: q in procs && procs[q].Handle? && procs[q].file == file
  }

  function With(s: State, p: nat, q: Process): State {
    s.(procs := s.procs[p := q])
  }

  /** One atomic step; a step that is not possible changes nothing. */
  function Step(limit: int64, s: State, a: Action): State {
    if a.Open? || a.Delete? then if a.p in s.procs then s else Start(s, a)
    else if a.p !in s.procs then s
    else if s.procs[a.p].Deleter? then DeleterStep(s, a, s.procs[a.p])
    else HandleStep(limit, s, a, s.procs[a.p])
  }

  /** Touch and the stat before it; a file without a handle is taken over, a new one has size 0. A
      delete takes a closed file; whether it is unlinked before or after the charge makes no difference
      to the ledger, and no step looks at a file that is being deleted. */
  function Start(s: State, a: Action): State
    requires a.Open? || a.Delete?
  {
    if a.file in s.closed then
      var size := s.closed[a.file];
      var rest := s.(closed := s.closed - {a.file});
      if a.Open? then With(rest, a.p, Handle(a.file, size, if a.trunc then 0 else size, Idle, Still, size as nat))
      else With(rest, a.p, Deleter(Calling(-(size as int64)), size as nat))
    else if a.Open? && !HasHandle(s.procs, a.file) then With(s, a.p, Handle(a.file, 0, 0, Idle, Still, 0))
    else s
  }

  /** The steps inside Quota.Add. */
  function AddStep(s: State, a: Action, q: Process): State
    requires a.Load? || a.Swap?
  {
    if a.Load? && q.add.Calling? then
      With(s, a.p, q.(add := if q.add.i == 0 then Still else Loaded(q.add.i, s.usage)))
    else if a.Swap? && q.add.Loaded? then
      if s.usage != q.add.seen then With(s, a.p, q.(add := Calling(q.add.i)))
      else
        var next := NextUsage(s.usage, q.add.i);
        var share := q.share as int + (next as int - s.usage as int);
        With(s, a.p, q.(add := Still, share := Max(0, share))).(usage := next)
    else s
  }

  function DeleterStep(s: State, a: Action, q: Process): State
    requires q.Deleter?
  {
    match a
    case Load(_) => AddStep(s, a, q)
    case Swap(_) => AddStep(s, a, q)
    case Finish(_) => if q.add.Still? then s.(procs := s.procs - {a.p}) else s
    case _ => s
  }

  function HandleStep(limit: int64, s: State, a: Action, q: Process): State
    requires q.Handle?
  {
    match a
    case Load(_) => AddStep(s, a, q)
    case Swap(_) => AddStep(s, a, q)
    case Write(_, off, end) =>
      if q.phase.Idle? && off < end then
        With(s, a.p, q.(phase := if end > q.size then Asking(off, end) else Writing(off, end)))
      else s
    case Lock(_) =>
      if s.lock.Some? then s
      else if q.phase.Asking? then
        With(s, a.p, q.(phase := Checking(q.phase.off, q.phase.end))).(lock := Some(a.p))
      else if q.phase.Settling? then
        With(s, a.p, q.(phase := Adjusting(q.phase.closing), add := Calling(q.phase.delta))).(lock := Some(a.p))
      else s
    case Check(_) =>
      if !q.phase.Checking? then s
      else
        var growth := q.phase.end - q.size;
        if Fits(limit, s.usage, growth) then
          With(s, a.p, q.(phase := Reserving(q.phase.off, q.phase.end), add := Calling(growth)))
        else With(s, a.p, q.(phase := Idle)).(lock := None)
    case Unlock(_) =>
      if !q.add.Still? then s
      else if q.phase.Reserving? then With(s, a.p, q.(phase := Writing(q.phase.off, q.phase.end))).(lock := None)
      else if q.phase.Adjusting? then
        if q.phase.closing then Leave(s, a.p, q).(lock := None) else With(s, a.p, q.(phase := Idle)).(lock := None)
      else s
    case DiskWrite(_, upto) =>
      if q.phase.Writing? && q.phase.off <= upto <= q.phase.end then
        With(s, a.p, q.(disk := if upto == q.phase.off then q.disk else Larger(q.disk, upto),
                        phase := Written(q.phase.off, q.phase.end, upto)))
      else s
    case Account(_) =>
      if q.phase.Written? then
        var size := if q.phase.upto == q.phase.off then q.size else Larger(q.size, q.phase.upto);
        var delta := size - Larger(q.size, q.phase.end);
        With(s, a.p, q.(size := size, phase := if delta == 0 then Idle else Settling(delta, false)))
      else s
    case Close(_, statOk) =>
      if !q.phase.Idle? then s
      else if !statOk then Leave(s, a.p, q).(leak := s.leak + (q.size as int - q.disk as int))
      else if q.disk == q.size then Leave(s, a.p, q)
      else With(s, a.p, q.(phase := Settling(q.disk - q.size, true)))
    case _ => s
  }

  function Leave(s: State, p: nat, q: Process): State
    requires q.Handle?
  {
    s.(procs := s.procs - {p}, closed := s.closed[q.file := q.disk])
  }

  // ------------------------------------------------------------------ what every step keeps

  ghost function Shares(procs: map<nat, Process>): map<nat, nat> {
    map p | p in procs :: procs[p].share
  }

  ghost function Bytes(closed: map<nat, size64>): map<nat, nat> {
    map f | f in closed :: closed[f] as nat
  }

  /** The counter is the sizes of the closed files, the shares of the files being worked on, and
      the leak. */
  ghost predicate Conserved(s: State) {
    s.usage as int == Sum(Bytes(s.closed)) + Sum(Shares(s.procs)) + s.leak && 0 <= s.leak
  }

  predicate Holds(q: Process) {
    q.Handle? && (q.phase.Checking? || q.phase.Reserving? || q.phase.Adjusting?)
  }

  ghost predicate Exclusive(s: State) {
    && (forall p :: p in s.procs ==> (Holds(s.procs[p]) <==> s.lock == Some(p)))
    && (s.lock.Some? ==> s.lock.value in s.procs)
  }

  ghost predicate OneHandlePerFile(s: State) {
    && (forall p :: p in s.procs && s.procs[p].Handle? ==> s.procs[p].file !in s.closed)
    && (forall p, q :: p in s.procs && q in s.procs && p != q && s.procs[p].Handle? && s.procs[q].Handle? ==>
          s.procs[p].file != s.procs[q].file)
  }

  /** Either nothing is being added any more and the share is `after`, or `i` is still pending and
      the share is `before`. */
  ghost predicate Adds(q: Process, i: int, before: int, after: int) {
    if q.add.Still? then q.share == after else q.share == before && q.add.i as int == i
  }

  /** What a process in each phase may rely on. In particular the share covers the accounted size,
      which covers what is on disk; and a reservation in progress still fits under the limit. */
  ghost predicate Local(limit: int64, usage: size64, q: Process) {
    match q
    case Deleter(_, share) =>
      if q.add.Still? then share == 0 else q.add.i as int == -(share as int)
    case Handle(_, size, disk, phase, add, share) =>
      match phase
      case Idle => add.Still? && disk <= size && share == size as nat
      case Asking(off, end) => add.Still? && disk <= size && share == size as nat && off < end && size < end
      case Checking(off, end) => add.Still? && disk <= size && share == size as nat && off < end && size < end
      case Reserving(off, end) =>
        && disk <= size && off < end && size < end
        && Adds(q, end as int - size as int, size as int, end as int)
        && (!add.Still? ==> usage as int + add.i as int <= limit as int)
      case Writing(off, end) => add.Still? && disk <= size && share == Larger(size, end) as nat && off < end
      case Written(off, end, upto) =>
        && add.Still? && share == Larger(size, end) as nat && off <= upto <= end && off < end
        && disk <= (if upto == off then size else Larger(size, upto))
      case Settling(delta, closing) =>
        && add.Still? && disk <= size && delta < 0
        && (if closing then share == size as nat && delta == disk - size else share as int == size as int - delta as int)
      case Adjusting(closing) =>
        && disk <= size && (!add.Still? ==> add.i < 0)
        && (if closing then Adds(q, disk as int - size as int, size as int, disk as int)
            else share as int == size as int - (if add.Still? then 0 else add.i as int))
  }

  ghost predicate AllLocal(limit: int64, s: State) {
    forall p :: p in s.procs ==> Local(limit, s.usage, s.procs[p])
  }

  ghost predicate Safe(limit: int64, s: State) {
    && s.usage <= limit
    && Conserved(s) && Exclusive(s) && OneHandlePerFile(s) && AllLocal(limit, s)
  }

  // ------------------------------------------------------------------ the steps

  lemma SharesPut(procs: map<nat, Process>, p: nat, q: Process)
    ensures Sum(Shares(procs[p := q])) == Sum(Shares(procs)) + q.share as int - (if p in procs then procs[p].share else 0)
  {
    assert Shares(procs[p := q]) == Shares(procs)[p := q.share];
    SumPut(Shares(procs), p, q.share);
  }

  lemma SharesRemove(procs: map<nat, Process>, p: nat)
    requires p in procs
    ensures Sum(Shares(procs - {p})) == Sum(Shares(procs)) - procs[p].share
  {
    assert Shares(procs - {p}) == Shares(procs) - {p};
    SumRemove(Shares(procs), p);
  }

  lemma BytesPut(closed: map<nat, size64>, f: nat, size: size64)
    requires f !in closed
    ensures Sum(Bytes(closed[f := size])) == Sum(Bytes(closed)) + size as int
  {
    assert Bytes(closed[f := size]) == Bytes(closed)[f := size as nat];
    SumPut(Bytes(closed), f, size as nat);
  }

  lemma BytesRemove(closed: map<nat, size64>, f: nat)
    requires f in closed
    ensures Sum(Bytes(closed - {f})) == Sum(Bytes(closed)) - closed[f] as int
  {
    assert Bytes(closed - {f}) == Bytes(closed) - {f};
    SumRemove(Bytes(closed), f);
  }

  /** A share is part of the counter. */
  lemma ShareIsCounted(s: State, p: nat)
    requires Conserved(s) && p in s.procs
    ensures s.procs[p].share <= s.usage as int
  {
    SumRemove(Shares(s.procs), p);
  }

  /** Nobody's pending reservation is endangered when the counter does not grow; and only the holder
      of the lock can make it grow. */
  lemma OthersKeepFitting(limit: int64, s: State, usage: size64, p: nat)
    requires Safe(limit, s) && p in s.procs
    requires usage <= s.usage || Holds(s.procs[p])
    ensures forall r :: r in s.procs && r != p ==> Local(limit, usage, s.procs[r])
  {
    forall r | r in s.procs && r != p ensures Local(limit, usage, s.procs[r]) {
      assert Local(limit, s.usage, s.procs[r]);
      if usage > s.usage {
        assert s.lock == Some(p);
        assert !Holds(s.procs[r]);
      }
    }
  }

  lemma StartIsSafe(limit: int64, s: State, a: Action)
    requires Safe(limit, s) && (a.Open? || a.Delete?) && a.p !in s.procs
    ensures Safe(limit, Start(s, a))
  {
    var s' := Start(s, a);
    if a.file in s.closed {
      BytesRemove(s.closed, a.file);
      SharesPut(s.procs, a.p, s'.procs[a.p]);
    } else if s' != s {
      SharesPut(s.procs, a.p, s'.procs[a.p]);
    }
  }

  /** What the pending amount of a process in Add can be. */
  lemma PendingFits(limit: int64, s: State, p: nat)
    requires Safe(limit, s) && p in s.procs && !s.procs[p].add.Still?
    ensures var q := s.procs[p];
      && 0 <= s.usage as int + q.add.i as int <= limit as int
      && 0 <= q.share as int + q.add.i as int
      && (q.add.i > 0 ==> Holds(q))
  {
    assert Local(limit, s.usage, s.procs[p]);
    ShareIsCounted(s, p);
  }

  lemma SwappedIsLocal(limit: int64, s: State, p: nat, q': Process, next: size64)
    requires Safe(limit, s) && p in s.procs && !s.procs[p].add.Still?
    requires next as int == s.usage as int + s.procs[p].add.i as int
    requires q' == s.procs[p].(add := Still, share := s.procs[p].share + s.procs[p].add.i as int)
    ensures Local(limit, next, q')
  {
    assert Local(limit, s.usage, s.procs[p]);
  }

  /** A process moves on inside Add, or its swap succeeds. */
  lemma AddedIsSafe(limit: int64, s: State, p: nat, q': Process, usage: size64)
    requires Safe(limit, s) && p in s.procs
    requires q' == s.procs[p].(add := q'.add, share := q'.share) && Local(limit, usage, q')
    requires q'.share as int - s.procs[p].share as int == usage as int - s.usage as int
    requires usage <= limit && (usage <= s.usage || Holds(s.procs[p]))
    ensures Safe(limit, With(s, p, q').(usage := usage))
  {
    SharesPut(s.procs, p, q');
    OthersKeepFitting(limit, s, usage, p);
    var s' := With(s, p, q').(usage := usage);
    assert Exclusive(s');
    assert OneHandlePerFile(s');
  }

  lemma AddIsSafe(limit: int64, s: State, a: Action)
    requires Safe(limit, s) && a.p in s.procs && (a.Load? || a.Swap?)
    ensures Safe(limit, AddStep(s, a, s.procs[a.p]))
  {
    var q := s.procs[a.p];
    var s' := AddStep(s, a, q);
    if !q.add.Still? {
      PendingFits(limit, s, a.p);
      if a.Swap? && q.add.Loaded? && s.usage == q.add.seen {
        SwappedIsLocal(limit, s, a.p, s'.procs[a.p], s'.usage);
        AddedIsSafe(limit, s, a.p, s'.procs[a.p], s'.usage);
      } else if s' != s {
        LoadedIsLocal(limit, s, a.p, s'.procs[a.p]);
        AddedIsSafe(limit, s, a.p, s'.procs[a.p], s.usage);
      }
    }
  }

  lemma LoadedIsLocal(limit: int64, s: State, p: nat, q': Process)
    requires Safe(limit, s) && p in s.procs && !s.procs[p].add.Still?
    requires q' == s.procs[p].(add := q'.add)
    requires if q'.add.Still? then s.procs[p].add.i == 0 else q'.add.i == s.procs[p].add.i
    ensures Local(limit, s.usage, q')
  {
    assert Local(limit, s.usage, s.procs[p]);
  }

  lemma DeleterIsSafe(limit: int64, s: State, a: Action)
    requires Safe(limit, s) && a.p in s.procs && s.procs[a.p].Deleter?
    ensures Safe(limit, DeleterStep(s, a, s.procs[a.p]))
  {
    assert Local(limit, s.usage, s.procs[a.p]);
    match a
    case Load(_) => AddIsSafe(limit, s, a);
    case Swap(_) => AddIsSafe(limit, s, a);
    case Finish(_) => SharesRemove(s.procs, a.p);
    case _ =>
  }

  /** A handle changes its phase, keeps its share and perhaps takes or gives back the lock. */
  ghost predicate PhaseChange(limit: int64, s: State, p: nat, q': Process, lock: Option<nat>)
    requires p in s.procs && s.procs[p].Handle?
  {
    && q'.Handle? && q'.file == s.procs[p].file && q'.share == s.procs[p].share && Local(limit, s.usage, q')
    && if Holds(s.procs[p]) then lock == (if Holds(q') then s.lock else None)
       else if Holds(q') then s.lock == None && lock == Some(p)
       else lock == s.lock
  }

  lemma PhaseIsSafe(limit: int64, s: State, p: nat, q': Process, lock: Option<nat>)
    requires Safe(limit, s) && p in s.procs && s.procs[p].Handle? && PhaseChange(limit, s, p, q', lock)
    ensures Safe(limit, With(s, p, q').(lock := lock))
  {
    SharesPut(s.procs, p, q');
  }

  lemma HandleMoves(limit: int64, s: State, a: Action)
    requires 0 < limit && a.p in s.procs && s.procs[a.p].Handle? && !a.Load? && !a.Swap?
    requires Local(limit, s.usage, s.procs[a.p]) && (s.lock == Some(a.p) <==> Holds(s.procs[a.p]))
    ensures var q, s' := s.procs[a.p], HandleStep(limit, s, a, s.procs[a.p]);
      || s' == s
      || (a.p in s'.procs && PhaseChange(limit, s, a.p, s'.procs[a.p], s'.lock)
          && s' == With(s, a.p, s'.procs[a.p]).(lock := s'.lock))
      || (s'.lock == (if Holds(q) then None else s.lock) && q.share as int == q.disk as int + (s'.leak - s.leak)
          && s.leak <= s'.leak && s' == Leave(s, a.p, q).(lock := s'.lock, leak := s'.leak))
  {
  }

  lemma LeaveIsSafe(limit: int64, s: State, p: nat, lock: Option<nat>, leak: int)
    requires Safe(limit, s) && p in s.procs && s.procs[p].Handle? && 0 <= leak
    requires lock == if Holds(s.procs[p]) then None else s.lock
    requires s.procs[p].share as int == s.procs[p].disk as int + leak
    ensures Safe(limit, Leave(s, p, s.procs[p]).(lock := lock, leak := s.leak + leak))
  {
    SharesRemove(s.procs, p);
    BytesPut(s.closed, s.procs[p].file, s.procs[p].disk);
  }

  lemma HandleIsSafe(limit: int64, s: State, a: Action)
    requires 0 < limit && Safe(limit, s) && a.p in s.procs && s.procs[a.p].Handle?
    ensures Safe(limit, HandleStep(limit, s, a, s.procs[a.p]))
  {
    var q := s.procs[a.p];
    var s' := HandleStep(limit, s, a, q);
    if a.Load? || a.Swap? {
      AddIsSafe(limit, s, a);
    } else {
      HandleMoves(limit, s, a);
      if a.p in s'.procs && s' != s {
        PhaseIsSafe(limit, s, a.p, s'.procs[a.p], s'.lock);
      } else if s' != s {
        LeaveIsSafe(limit, s, a.p, s'.lock, s'.leak - s.leak);
      }
    }
  }

  lemma StepIsSafe(limit: int64, s: State, a: Action)
    requires 0 < limit && Safe(limit, s)
    ensures Safe(limit, Step(limit, s, a))
  {
    if a.Open? || a.Delete? {
      if a.p !in s.procs {
        StartIsSafe(limit, s, a);
      }
    } else if a.p in s.procs {
      if s.procs[a.p].Deleter? {
        DeleterIsSafe(limit, s, a);
      } else {
        HandleIsSafe(limit, s, a);
      }
    }
  }

  // ------------------------------------------------------------------ whole runs

  /** The state after an interleaving of the processes' steps, starting without any process. */
  function After(limit: int64, closed: map<nat, size64>, usage: size64, actions: seq<Action>): State {
    if actions == [] then State(usage, None, closed, map[], 0)
    else Step(limit, After(limit, closed, usage, actions[..|actions| - 1]), actions[|actions| - 1])
  }

  lemma {:induction false} EveryStateIsSafe(limit: int64, closed: map<nat, size64>, usage: size64, actions: seq<Action>)
    requires 0 < limit && usage <= limit && usage as int == Sum(Bytes(closed))
    ensures Safe(limit, After(limit, closed, usage, actions))
  {
    if actions != [] {
      EveryStateIsSafe(limit, closed, usage, actions[..|actions| - 1]);
      StepIsSafe(limit, After(limit, closed, usage, actions[..|actions| - 1]), actions[|actions| - 1]);
    } else {
      assert Shares(map[]) == map[];
    }
  }

  ghost function OnDisk(s: State): map<nat, nat> {
    map p | p in s.procs && s.procs[p].Handle? :: s.procs[p].disk as nat
  }

  lemma DiskWithinShare(limit: int64, usage: size64, q: Process)
    requires q.Handle? && Local(limit, usage, q)
    ensures q.disk as int <= q.share
  {
  }

  /** Whatever the interleaving: the counter never passes the limit, and the bytes on disk of all
      files that are not being deleted never exceed the counter. */
  lemma NeverOverTheLimit(limit: int64, closed: map<nat, size64>, usage: size64, actions: seq<Action>)
    requires 0 < limit && usage <= limit && usage as int == Sum(Bytes(closed))
    ensures var s := After(limit, closed, usage, actions);
      Sum(Bytes(s.closed)) + Sum(OnDisk(s)) <= s.usage as int <= limit as int
  {
    EveryStateIsSafe(limit, closed, usage, actions);
    var s := After(limit, closed, usage, actions);
    forall p | p in OnDisk(s) ensures OnDisk(s)[p] <= Shares(s.procs)[p] {
      DiskWithinShare(limit, s.usage, s.procs[p]);
    }
    SumMonotone(OnDisk(s), Shares(s.procs));
  }

  lemma {:induction false} OnlyFailedStatsLeak(limit: int64, closed: map<nat, size64>, usage: size64, actions: seq<Action>)
    requires forall a :: a in actions && a.Close? ==> a.statOk
    ensures After(limit, closed, usage, actions).leak == 0
  {
    if actions != [] {
      var n := |actions| - 1;
      OnlyFailedStatsLeak(limit, closed, usage, actions[..n]);
      assert actions[n] in actions;
    }
  }

  /** When every handle is closed and every delete has finished, the counter is exact up to what
      handles without a final stat have left on it; and exact when every final stat succeeded. */
  lemma ExactAtRest(limit: int64, closed: map<nat, size64>, usage: size64, actions: seq<Action>)
    requires 0 < limit && usage <= limit && usage as int == Sum(Bytes(closed))
    requires After(limit, closed, usage, actions).procs == map[]
    ensures var s := After(limit, closed, usage, actions);
      && s.usage as int == Sum(Bytes(s.closed)) + s.leak && 0 <= s.leak
      && ((forall a :: a in actions && a.Close? ==> a.statOk) ==> s.usage as int == Sum(Bytes(s.closed)))
  {
    EveryStateIsSafe(limit, closed, usage, actions);
    if forall a :: a in actions && a.Close? ==> a.statOk {
      OnlyFailedStatsLeak(limit, closed, usage, actions);
    }
    assert Shares(map[]) == map[];
  }

  /** Whoever holds the filesystem lock can always take a step, so the lock is never stuck. */
  lemma HolderCanMove(limit: int64, s: State) returns (a: Action)
    requires Safe(limit, s) && s.lock.Some?
    ensures a.p == s.lock.value && Step(limit, s, a) != s
  {
    var p := s.lock.value;
    var q := s.procs[p];
    assert Holds(q);
    a := if q.phase.Checking? then Check(p)
         else if q.add.Calling? then Load(p)
         else if q.add.Loaded? then Swap(p)
         else Unlock(p);
    assert p in Step(limit, s, a).procs ==> Step(limit, s, a).procs[p] != q;
  }

  // ------------------------------------------------------------------ one write with nobody in between

  /** From the beginning of a write to its reservation, or to its refusal. */
  function Reserved(limit: int64, s: State, p: nat, off: size64, end: size64): State {
    var checked := Step(limit, Step(limit, Step(limit, s, Write(p, off, end)), Lock(p)), Check(p));
    Step(limit, Step(limit, Step(limit, checked, Load(p)), Swap(p)), Unlock(p))
  }

  /** The disk takes what lies below `upto`. */
  function Accounted(limit: int64, s: State, p: nat, upto: size64): State {
    Step(limit, Step(limit, s, DiskWrite(p, upto)), Account(p))
  }

  /** The refund, when there is one. */
  function Refunded(limit: int64, s: State, p: nat): State {
    Step(limit, Step(limit, Step(limit, Step(limit, s, Lock(p)), Load(p)), Swap(p)), Unlock(p))
  }

  function WriteAlone(limit: int64, s: State, p: nat, off: size64, end: size64, upto: size64): State {
    Refunded(limit, Accounted(limit, Reserved(limit, s, p, off, end), p, upto), p)
  }

  /** A handle with nothing to do, and a free lock. */
  ghost predicate AtRest(s: State, p: nat) {
    s.lock.None? && p in s.procs && s.procs[p].Handle? && s.procs[p].phase.Idle? && s.procs[p].add.Still?
    && s.procs[p].share == s.procs[p].size as nat && s.procs[p].disk <= s.procs[p].size
  }

  /** Up to the check of a write that grows the file. */
  lemma CheckedAlone(limit: int64, s: State, p: nat, off: size64, end: size64)
    requires 0 < limit && s.usage <= limit && AtRest(s, p) && off < end && s.procs[p].size < end
    ensures var q, s' := s.procs[p], Step(limit, Step(limit, Step(limit, s, Write(p, off, end)), Lock(p)), Check(p));
      if s.usage as int + (end as int - q.size as int) <= limit as int then
        s' == With(s, p, q.(phase := Reserving(off, end), add := Calling(end - q.size))).(lock := Some(p))
      else s' == s
  {
    hide HasHandle;
    var q := s.procs[p];
    var s2 := Step(limit, Step(limit, s, Write(p, off, end)), Lock(p));
    assert s2 == With(s, p, q.(phase := Checking(off, end))).(lock := Some(p));
    assert s.procs[p := q] == s.procs;
  }

  lemma AddedAlone(limit: int64, s: State, p: nat)
    requires p in s.procs && s.procs[p].Handle? && s.procs[p].add.Calling? && s.procs[p].add.i > 0 && s.procs[p].phase.Reserving?
    requires s.usage as int + s.procs[p].add.i as int <= MAX_INT64
    ensures var q, s' := s.procs[p], Step(limit, Step(limit, Step(limit, s, Load(p)), Swap(p)), Unlock(p));
      s' == With(s, p, q.(phase := Writing(q.phase.off, q.phase.end), add := Still, share := q.share + q.add.i as int))
              .(usage := s.usage + q.add.i, lock := None)
  {
    hide HasHandle;
    var q := s.procs[p];
    var s1 := Step(limit, s, Load(p));
    assert s1 == With(s, p, q.(add := Loaded(q.add.i, s.usage)));
    assert Step(limit, s1, Swap(p)) == With(s, p, q.(add := Still, share := q.share + q.add.i as int)).(usage := s.usage + q.add.i);
  }

  /** A process that waits for nothing and adds nothing is not moved by these steps. */
  lemma NothingToReserve(limit: int64, s: State, p: nat)
    requires p in s.procs && s.procs[p].Handle? && s.procs[p].add.Still? && (s.procs[p].phase.Idle? || s.procs[p].phase.Writing?)
    ensures Step(limit, s, Lock(p)) == Step(limit, s, Check(p)) == Step(limit, s, Load(p)) == s
    ensures Step(limit, s, Swap(p)) == Step(limit, s, Unlock(p)) == s
  {
    hide HasHandle;
  }

  lemma ReservedAlone(limit: int64, s: State, p: nat, off: size64, end: size64)
    requires 0 < limit && s.usage <= limit && AtRest(s, p) && off < end
    ensures var q, s' := s.procs[p], Reserved(limit, s, p, off, end);
      if end <= q.size then s' == With(s, p, q.(phase := Writing(off, end)))
      else if s.usage as int + (end as int - q.size as int) <= limit as int then
        s' == With(s, p, q.(phase := Writing(off, end), share := end as nat)).(usage := s.usage + (end - q.size))
      else s' == s
  {
    var q := s.procs[p];
    if end <= q.size {
      var s1 := Step(limit, s, Write(p, off, end));
      assert s1 == With(s, p, q.(phase := Writing(off, end)));
      NothingToReserve(limit, s1, p);
    } else {
      hide Step;
      CheckedAlone(limit, s, p, off, end);
      var s3 := Step(limit, Step(limit, Step(limit, s, Write(p, off, end)), Lock(p)), Check(p));
      if s.usage as int + (end as int - q.size as int) <= limit as int {
        AddedAlone(limit, s3, p);
      } else {
        NothingToReserve(limit, s, p);
      }
    }
  }

  lemma AccountedAlone(limit: int64, s: State, p: nat, off: size64, end: size64, upto: size64)
    requires p in s.procs && s.procs[p].Handle? && s.procs[p].phase == Writing(off, end) && off <= upto <= end
    ensures var q := s.procs[p];
      var size := if upto == off then q.size else Larger(q.size, upto);
      var delta := size - Larger(q.size, end);
      Accounted(limit, s, p, upto) ==
        With(s, p, q.(size := size, disk := if upto == off then q.disk else Larger(q.disk, upto),
                      phase := if delta == 0 then Idle else Settling(delta, false)))
  {
    hide HasHandle;
  }

  /** After a refusal there is nothing to write, to account for or to give back. */
  lemma NothingToAccount(limit: int64, s: State, p: nat, upto: size64)
    requires AtRest(s, p)
    ensures Refunded(limit, Accounted(limit, s, p, upto), p) == s
  {
    hide HasHandle;
    assert Accounted(limit, s, p, upto) == s;
    NothingToReserve(limit, s, p);
  }

  lemma RefundedAlone(limit: int64, s: State, p: nat)
    requires p in s.procs && s.procs[p].Handle? && s.procs[p].add.Still? && s.lock.None?
    requires s.procs[p].phase.Idle? || (s.procs[p].phase.Settling? && !s.procs[p].phase.closing)
    requires s.procs[p].phase.Settling? ==>
      && s.procs[p].phase.delta < 0 && 0 <= s.usage as int + s.procs[p].phase.delta as int
      && 0 <= s.procs[p].share as int + s.procs[p].phase.delta as int
    ensures var q, s' := s.procs[p], Refunded(limit, s, p);
      if q.phase.Idle? then s' == s
      else
        s' == With(s, p, q.(phase := Idle, share := q.share + q.phase.delta as int)).(usage := s.usage + q.phase.delta)
  {
    hide HasHandle;
    var q := s.procs[p];
    if q.phase.Settling? {
      var d := q.phase.delta;
      var s1 := Step(limit, s, Lock(p));
      assert s1 == With(s, p, q.(phase := Adjusting(false), add := Calling(d))).(lock := Some(p));
      var s2 := Step(limit, s1, Load(p));
      assert s2 == With(s, p, q.(phase := Adjusting(false), add := Loaded(d, s.usage))).(lock := Some(p));
      var s3 := Step(limit, s2, Swap(p));
      assert s3 == With(s, p, q.(phase := Adjusting(false), share := q.share + d as int)).(lock := Some(p), usage := s.usage + d);
    }
  }

  /** The larger of the old end and the end of what was written. */
  function Grown(size: size64, off: size64, upto: size64): size64 {
    if upto == off then size else Larger(size, upto)
  }

  lemma LoneOutcome(limit: int64, s: State, p: nat, off: size64, end: size64, upto: size64)
    requires 0 < limit && s.usage <= limit && AtRest(s, p) && s.procs[p].size <= s.usage && off < end && off <= upto <= end
    requires end <= s.procs[p].size || s.usage as int + (end as int - s.procs[p].size as int) <= limit as int
    ensures var q, size := s.procs[p], Grown(s.procs[p].size, off, upto);
      WriteAlone(limit, s, p, off, end, upto) ==
        With(s, p, q.(size := size, disk := Grown(q.disk, off, upto), share := size as nat)).(usage := s.usage + (size - q.size))
  {
    hide Step, HasHandle, Reserved, Accounted, Refunded;
    var q := s.procs[p];
    var all, size := Larger(q.size, end), Grown(q.size, off, upto);
    ReservedAlone(limit, s, p, off, end);
    var s1, q1 := Reserved(limit, s, p, off, end), q.(phase := Writing(off, end), share := all as nat);
    assert s1 == With(s, p, q1).(usage := s.usage + (all - q.size));
    AccountedAlone(limit, s1, p, off, end, upto);
    var s2 := Accounted(limit, s1, p, upto);
    var q2 := q1.(size := size, disk := Grown(q.disk, off, upto), phase := if size == all then Idle else Settling(size - all, false));
    assert s2 == With(s, p, q2).(usage := s.usage + (all - q.size));
    RefundedAlone(limit, s2, p);
  }

  /** What the sequential account of a write says of the counter, the accounted size and the size on disk. */
  function Sequentially(limit: int64, usage: size64, size: size64, disk: size64, off: size64, end: size64, upto: size64): (int, int, int)
    requires off <= upto && off <= end
  {
    var (usage', size', n) := HandleLedger.AfterWrite(limit, usage as int, size as int, off as int,
                                (end as int - off as int) as nat, (upto as int - off as int) as nat);
    (usage', size', if n > 0 then Max(disk as int, off as int + n) else disk as int)
  }

  lemma LoneArithmetic(limit: int64, usage: size64, size: size64, disk: size64, off: size64, end: size64, upto: size64)
    requires 0 < limit && disk <= size <= usage <= limit && off < end && off <= upto <= end
    requires end <= size || usage as int + (end as int - size as int) <= limit as int
    ensures var size', disk' := Grown(size, off, upto), Grown(disk, off, upto);
      && usage as int + (size' as int - size as int) <= limit as int && disk' <= size'
      && Sequentially(limit, usage, size, disk, off, end, upto) ==
           ((usage + (size' - size)) as int, size' as int, disk' as int)
  {
  }

  lemma RefusedArithmetic(limit: int64, usage: size64, size: size64, disk: size64, off: size64, end: size64, upto: size64)
    requires 0 < limit && disk <= size <= usage <= limit && off < end && off <= upto <= end
    requires size < end && usage as int + (end as int - size as int) > limit as int
    ensures Sequentially(limit, usage, size, disk, off, end, upto) == (usage as int, size as int, disk as int)
  {
  }

  /** The handle is at rest again with this counter and these sizes; nothing else has changed. */
  ghost predicate LeavesAt(s: State, s': State, p: nat, usage: int, size: int, disk: int)
    requires p in s.procs && s.procs[p].Handle?
  {
    && AtRest(s', p) && s' == With(s, p, s'.procs[p]).(usage := s'.usage) && s'.procs[p].file == s.procs[p].file
    && s'.usage as int == usage && s'.procs[p].size as int == size && s'.procs[p].disk as int == disk
  }

  lemma OutcomeLeaves(s: State, p: nat, usage: size64, size: size64, disk: size64)
    requires AtRest(s, p) && disk <= size
    ensures LeavesAt(s, With(s, p, s.procs[p].(size := size, disk := disk, share := size as nat)).(usage := usage), p,
              usage as int, size as int, disk as int)
    ensures LeavesAt(s, s, p, s.usage as int, s.procs[p].size as int, s.procs[p].disk as int)
  {
    assert s.procs[p := s.procs[p]] == s.procs;
  }

  /** The steps of one write do what the sequential account of a write says. */
  ghost predicate RefinesWrite(limit: int64, s: State, s': State, p: nat, off: size64, end: size64, upto: size64)
    requires p in s.procs && s.procs[p].Handle? && off <= upto && off <= end
  {
    var q := s.procs[p];
    var (usage, size, disk) := Sequentially(limit, s.usage, q.size, q.disk, off, end, upto);
    LeavesAt(s, s', p, usage, size, disk)
  }

  /** The steps of one write with nobody else's in between do what the sequential account of a write says,
      of which the disk takes the bytes below `upto`; nothing else changes. */
  lemma LoneWrite(limit: int64, s: State, p: nat, off: size64, end: size64, upto: size64)
    requires 0 < limit && Safe(limit, s) && AtRest(s, p) && off < end && off <= upto <= end
    ensures RefinesWrite(limit, s, WriteAlone(limit, s, p, off, end, upto), p, off, end, upto)
  {
    ShareIsCounted(s, p);
    hide RefinesWrite, WriteAlone, Safe;
    if end <= s.procs[p].size || s.usage as int + (end as int - s.procs[p].size as int) <= limit as int {
      GrantedWrite(limit, s, p, off, end, upto);
    } else {
      RefusedWrite(limit, s, p, off, end, upto);
    }
  }

  lemma GrantedWrite(limit: int64, s: State, p: nat, off: size64, end: size64, upto: size64)
    requires 0 < limit && s.usage <= limit && AtRest(s, p) && s.procs[p].size <= s.usage && off < end && off <= upto <= end
    requires end <= s.procs[p].size || s.usage as int + (end as int - s.procs[p].size as int) <= limit as int
    ensures RefinesWrite(limit, s, WriteAlone(limit, s, p, off, end, upto), p, off, end, upto)
  {
    var q := s.procs[p];
    assert q.disk <= q.size;
    hide Step, WriteAlone, Sequentially, Grown, LeavesAt, AtRest, With;
    LoneArithmetic(limit, s.usage, q.size, q.disk, off, end, upto);
    var size := Grown(q.size, off, upto);
    var usage: size64 := s.usage + (size - q.size);
    var s' := WriteAlone(limit, s, p, off, end, upto);
    assert LeavesAt(s, s', p, usage as int, size as int, Grown(q.disk, off, upto) as int) by {
      LoneOutcome(limit, s, p, off, end, upto);
      OutcomeLeaves(s, p, usage, size, Grown(q.disk, off, upto));
    }
  }

  lemma RefusedWrite(limit: int64, s: State, p: nat, off: size64, end: size64, upto: size64)
    requires 0 < limit && s.usage <= limit && AtRest(s, p) && s.procs[p].size <= s.usage && off < end && off <= upto <= end
    requires s.procs[p].size < end && s.usage as int + (end as int - s.procs[p].size as int) > limit as int
    ensures RefinesWrite(limit, s, WriteAlone(limit, s, p, off, end, upto), p, off, end, upto)
  {
    var q := s.procs[p];
    assert q.disk <= q.size;
    hide Step, WriteAlone, Sequentially, LeavesAt, AtRest, With;
    RefusedArithmetic(limit, s.usage, q.size, q.disk, off, end, upto);
    RefusedAlone(limit, s, p, off, end, upto);
    OutcomeLeaves(s, p, s.usage, q.size, q.disk);
  }

  lemma RefusedAlone(limit: int64, s: State, p: nat, off: size64, end: size64, upto: size64)
    requires 0 < limit && s.usage <= limit && AtRest(s, p) && off < end
    requires s.procs[p].size < end && s.usage as int + (end as int - s.procs[p].size as int) > limit as int
    ensures WriteAlone(limit, s, p, off, end, upto) == s
  {
    hide Step, HasHandle, Reserved, Accounted, Refunded;
    ReservedAlone(limit, s, p, off, end);
    NothingToAccount(limit, s, p, upto);
  }

  // ------------------------------------------------------------------ without the lock

  /** The same steps of processes that do not wait for the filesystem's lock. */
  function AfterUnlocked(limit: int64, s: State, actions: seq<Action>): State
    decreases |actions|
  {
    if actions == [] then s else AfterUnlocked(limit, Step(limit, s.(lock := None), actions[0]), actions[1..])
  }

  lemma UnlockedStep(limit: int64, s: State, a: Action, rest: seq<Action>)
    ensures AfterUnlocked(limit, s, [a] + rest) == AfterUnlocked(limit, Step(limit, s.(lock := None), a), rest)
  {
    assert ([a] + rest)[1..] == rest;
  }

  /** Two handles ask for 60 bytes each. */
  function TwoAsking(): State {
    State(0, None, map[], map[1 := Handle(1, 0, 0, Asking(0, 60), Still, 0), 2 := Handle(2, 0, 0, Asking(0, 60), Still, 0)], 0)
  }

  function Ask(rest: seq<Action>): seq<Action> {
    [Open(1, 1, false)] + ([Open(2, 2, false)] + ([Write(1, 0, 60)] + ([Write(2, 0, 60)] + rest)))
  }

  /** Each checks before the other adds. */
  function CheckBoth(rest: seq<Action>): seq<Action> {
    [Lock(1)] + ([Check(1)] + ([Lock(2)] + ([Check(2)] + rest)))
  }

  function AddBoth(): seq<Action> {
    [Load(1)] + ([Swap(1)] + ([Load(2)] + ([Swap(2)] + [])))
  }

  lemma Asked(rest: seq<Action>)
    ensures AfterUnlocked(100, State(0, None, map[], map[], 0), Ask(rest)) == AfterUnlocked(100, TwoAsking(), rest)
  {
    var s0 := State(0, None, map[], map[], 0);
    var s1 := Step(100, s0.(lock := None), Open(1, 1, false));
    var s2 := Step(100, s1.(lock := None), Open(2, 2, false));
    var s3 := Step(100, s2.(lock := None), Write(1, 0, 60));
    var s4 := Step(100, s3.(lock := None), Write(2, 0, 60));
    UnlockedStep(100, s3, Write(2, 0, 60), rest);
    UnlockedStep(100, s2, Write(1, 0, 60), [Write(2, 0, 60)] + rest);
    UnlockedStep(100, s1, Open(2, 2, false), [Write(1, 0, 60)] + ([Write(2, 0, 60)] + rest));
    UnlockedStep(100, s0, Open(1, 1, false), [Open(2, 2, false)] + ([Write(1, 0, 60)] + ([Write(2, 0, 60)] + rest)));
    assert s4 == TwoAsking();
  }

  lemma Checked(rest: seq<Action>) returns (s: State)
    ensures AfterUnlocked(100, TwoAsking(), CheckBoth(rest)) == AfterUnlocked(100, s, rest)
    ensures s.usage == 0 && 1 in s.procs && s.procs[1].add == Calling(60) && s.procs[1].Handle?
    ensures 2 in s.procs && s.procs[2].add == Calling(60) && s.procs[2].Handle?
  {
    var s0 := TwoAsking();
    var s1 := Step(100, s0.(lock := None), Lock(1));
    var s2 := Step(100, s1.(lock := None), Check(1));
    var s3 := Step(100, s2.(lock := None), Lock(2));
    s := Step(100, s3.(lock := None), Check(2));
    UnlockedStep(100, s3, Check(2), rest);
    UnlockedStep(100, s2, Lock(2), [Check(2)] + rest);
    UnlockedStep(100, s1, Check(1), [Lock(2)] + ([Check(2)] + rest));
    UnlockedStep(100, s0, Lock(1), [Check(1)] + ([Lock(2)] + ([Check(2)] + rest)));
  }

  lemma Added(s: State)
    requires s.usage == 0 && 1 in s.procs && s.procs[1].add == Calling(60) && s.procs[1].Handle?
    requires 2 in s.procs && s.procs[2].add == Calling(60) && s.procs[2].Handle?
    ensures AfterUnlocked(100, s, AddBoth()).usage == 120
  {
    var s1 := Step(100, s.(lock := None), Load(1));
    var s2 := Step(100, s1.(lock := None), Swap(1));
    var s3 := Step(100, s2.(lock := None), Load(2));
    UnlockedStep(100, s3, Swap(2), []);
    UnlockedStep(100, s2, Load(2), [Swap(2)] + []);
    UnlockedStep(100, s1, Swap(1), [Load(2)] + ([Swap(2)] + []));
    UnlockedStep(100, s, Load(1), [Swap(1)] + ([Load(2)] + ([Swap(2)] + [])));
  }

  /** The lock around check and add is needed: with it this interleaving of two handles stays within a
      limit of 100, as every other does; without it the counter ends at 120. */
  lemma UncheckedAddsOvershoot()
    ensures After(100, map[], 0, Ask(CheckBoth(AddBoth()))).usage <= 100
    ensures AfterUnlocked(100, State(0, None, map[], map[], 0), Ask(CheckBoth(AddBoth()))).usage == 120
  {
    assert Bytes(map[]) == map[];
    EveryStateIsSafe(100, map[], 0, Ask(CheckBoth(AddBoth())));
    Asked(CheckBoth(AddBoth()));
    var s := Checked(AddBoth());
    Added(s);
  }
}
