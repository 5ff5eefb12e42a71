/** The compare-and-swap loop of Quota.Add with any number of threads in it, step by step. */
module AddRace {
  import opened Int64
  import opened Ufs

  /** Where a thread stands. `from` is how many additions had taken effect when it called; the other
      positions are history that the proofs talk about and no step looks at. */
  datatype Caller =
    | Calling(i: int64, from: nat)
    | Loaded(i: int64, from: nat, seen: int64, since: nat)
    | Returned(i: int64, from: nat, result: int64, at: nat)

  datatype Commit = Commit(thread: nat, i: int64, result: int64)

  datatype Counter = Counter(usage: int64, callers: map<nat, Caller>, log: seq<Commit>)

  datatype Move =
    | Call(thread: nat, i: int64)
    | Load(thread: nat)
    | Swap(thread: nat)

  /** One atomic step; a step that is not possible changes nothing. */
  function Step(c: Counter, m: Move): (c': Counter)
    requires 0 <= c.usage
    ensures 0 <= c'.usage
  {
    match m
    case Call(t, i) =>
      if t in c.callers && !c.callers[t].Returned? then c
      else c.(callers := c.callers[t := Calling(i, |c.log|)])
    case Load(t) =>
      if t in c.callers && c.callers[t].Calling? then
        var a := c.callers[t];
        if a.i == 0 then Finish(c, t, a, c.usage)
        else c.(callers := c.callers[t := Loaded(a.i, a.from, c.usage, |c.log|)])
      else c
    case Swap(t) =>
      if t in c.callers && c.callers[t].Loaded? then
        var a := c.callers[t];
        if c.usage != a.seen then c.(callers := c.callers[t := Calling(a.i, a.from)])
        else Finish(c, t, a, NextUsage(a.seen, a.i))
      else c
  }

  function Finish(c: Counter, t: nat, a: Caller, result: int64): Counter {
    Counter(result, c.callers[t := Returned(a.i, a.from, result, |c.log|)], c.log + [Commit(t, a.i, result)])
  }

  /** The same additions, one at a time. */
  function Replay(start: int64, log: seq<Commit>): int {
    if log == [] then start as int else Clamp(Replay(start, log[..|log| - 1]) + log[|log| - 1].i as int)
  }

  lemma ReplayNext(start: int64, log: seq<Commit>, e: Commit)
    ensures Replay(start, log + [e]) == Clamp(Replay(start, log) + e.i as int)
    ensures forall k :: 0 <= k <= |log| ==> (log + [e])[..k] == log[..k]
  {
    assert (log + [e])[..|log|] == log;
  }

  ghost predicate CommitsOnlyAt(log: seq<Commit>, t: nat, from: nat, at: set<nat>) {
    forall k :: from <= k < |log| && log[k].thread == t ==> k in at
  }

  /** A call takes effect exactly once, between its start and its return, and returns what its own
      addition produced; a pending call has had no effect yet. */
  ghost predicate CallerFits(start: int64, log: seq<Commit>, t: nat, a: Caller) {
    && a.from <= |log|
    && match a
       case Calling(_, from) => CommitsOnlyAt(log, t, from, {})
       case Loaded(_, from, seen, since) =>
         CommitsOnlyAt(log, t, from, {}) && from <= since <= |log| && seen as int == Replay(start, log[..since])
       case Returned(i, from, result, at) =>
         CommitsOnlyAt(log, t, from, {at}) && from <= at < |log| && log[at] == Commit(t, i, result)
  }

  ghost predicate Linearized(start: int64, c: Counter) {
    && 0 <= c.usage && c.usage as int == Replay(start, c.log)
    && (forall k :: 0 <= k < |c.log| ==> c.log[k].result as int == Replay(start, c.log[..k + 1]))
    && (forall t :: t in c.callers ==> CallerFits(start, c.log, t, c.callers[t]))
  }

  lemma OthersStillFit(start: int64, log: seq<Commit>, e: Commit, t: nat, a: Caller)
    requires CallerFits(start, log, t, a) && e.thread != t
    ensures CallerFits(start, log + [e], t, a)
  {
    ReplayNext(start, log, e);
  }

  lemma FinishFits(start: int64, c: Counter, t: nat, a: Caller, result: int64)
    requires Linearized(start, c) && t in c.callers && c.callers[t] == a && !a.Returned?
    requires 0 <= result && result as int == Clamp(c.usage as int + a.i as int)
    ensures Linearized(start, Finish(c, t, a, result))
  {
    var e := Commit(t, a.i, result);
    var c' := Finish(c, t, a, result);
    ReplayNext(start, c.log, e);
    forall u | u in c'.callers && u != t ensures CallerFits(start, c'.log, u, c'.callers[u]) {
      OthersStillFit(start, c.log, e, u, c.callers[u]);
    }
    forall k | 0 <= k < |c'.log| ensures c'.log[k].result as int == Replay(start, c'.log[..k + 1]) {
      assert k == |c.log| ==> c'.log[..k + 1] == c'.log;
    }
  }

  lemma StepLinearized(start: int64, c: Counter, m: Move)
    requires Linearized(start, c)
    ensures Linearized(start, Step(c, m))
  {
    var t := m.thread;
    if t in c.callers {
      var a := c.callers[t];
      assert CallerFits(start, c.log, t, a);
      assert c.log[..|c.log|] == c.log;
      if m.Load? && a.Calling? && a.i == 0 {
        FinishFits(start, c, t, a, c.usage);
      } else if m.Swap? && a.Loaded? && c.usage == a.seen {
        FinishFits(start, c, t, a, NextUsage(a.seen, a.i));
      }
    }
  }

  /** A swap that fails was overtaken: another addition took effect since the load. So the threads
      as a whole always make progress. */
  lemma FailedSwapWasOvertaken(start: int64, c: Counter, t: nat)
    requires Linearized(start, c) && t in c.callers && c.callers[t].Loaded?
    requires !Step(c, Swap(t)).callers[t].Returned?
    ensures c.callers[t].since < |c.log|
    ensures forall k :: c.callers[t].since <= k < |c.log| ==> c.log[k].thread != t
  {
    var a := c.callers[t];
    assert CallerFits(start, c.log, t, a);
    assert c.log[..|c.log|] == c.log;
  }

  /** A call with nobody else's steps in between loads, swaps and returns the clamped sum. */
  lemma LoneAdd(c: Counter, t: nat, i: int64)
    requires 0 <= c.usage && (t in c.callers ==> c.callers[t].Returned?)
    ensures var c' := Step(Step(Step(c, Call(t, i)), Load(t)), Swap(t));
      && c'.usage as int == Clamp(c.usage as int + i as int) && t in c'.callers
      && c'.callers[t] == Returned(i, |c.log|, c'.usage, |c.log|) && c'.callers - {t} == c.callers - {t}
  {
  }

  /** The state after an interleaving `ms` of the threads' steps. */
  function After(start: int64, ms: seq<Move>): (c: Counter)
    requires 0 <= start
    ensures 0 <= c.usage
  {
    if ms == [] then Counter(start, map[], []) else Step(After(start, ms[..|ms| - 1]), ms[|ms| - 1])
  }

  /** However the threads interleave, the counter is what adding one at a time, clamped to
      [0, MaxInt64], in the order of the successful swaps gives; so it is never -1. */
  lemma {:induction false} AddIsLinearizable(start: int64, ms: seq<Move>)
    requires 0 <= start
    ensures Linearized(start, After(start, ms))
  {
    if ms != [] {
      AddIsLinearizable(start, ms[..|ms| - 1]);
      StepLinearized(start, After(start, ms[..|ms| - 1]), ms[|ms| - 1]);
    }
  }
}
