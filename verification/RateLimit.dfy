/** The fixed-window rate limiter and the console throttle built on it. */
module RateLimit {
  import opened Int64
  import Lockers

  newtype uint64 = x: int | 0 <= x < 0x1_0000_0000_0000_0000

  const MAX_UINT64: uint64 := 0xFFFF_FFFF_FFFF_FFFF

  /** The state of a limiter: calls admitted in the current window, and when the window began. */
  datatype Meter = Meter(count: uint64, last: int)

  /** The difference of two instants, which saturates like time.Time.Sub. */
  function Elapsed(last: int, now: int): int {
    Max(MIN_INT64, Min(now - last, MAX_INT64))
  }

  /** count + 1 in 64 bits. */
  function Next(count: uint64): uint64 {
    if count == MAX_UINT64 then 0 else count + 1
  }

  predicate Begins(duration: int64, m: Meter, now: int) {
    Elapsed(m.last, now) > duration as int
  }

  function Opened(duration: int64, m: Meter, now: int): Meter {
    if Begins(duration, m, now) then Meter(0, now) else m
  }

  /** One Try: the state after it, and whether the call is admitted. */
  function Tried(limit: uint64, duration: int64, m: Meter, now: int): (Meter, bool) {
    var w := Opened(duration, m, now);
    if Next(w.count) > limit then (w, false) else (w.(count := Next(w.count)), true)
  }

  class Rate {
    const limit: uint64
    const duration: int64
    var count: uint64
    var last: int

    function State(): Meter
      reads this
    {
      Meter(count, last)
    }

    constructor (limit: uint64, duration: int64, now: int)
      ensures this.limit == limit && this.duration == duration && State() == Meter(0, now)
    {
      this.limit, this.duration, count, last := limit, duration, 0, now;
    }

    method Try(now: int) returns (ok: bool)
      modifies this
      ensures (State(), ok) == Tried(limit, duration, old(State()), now)
      // a call opens a window when more than the duration has passed since the last one was opened; the
      // first call of a window is admitted unless the limit is zero, and another while there are less than the limit
      ensures last == if now - old(last) > duration as int && duration as int < MAX_INT64 then now else old(last)
      ensures now - old(last) > duration as int && duration as int < MAX_INT64 ==> (ok <==> 0 < limit) && count == if ok then 1 else 0
      ensures !(now - old(last) > duration as int && duration as int < MAX_INT64) && old(count) < MAX_UINT64 ==>
        (ok <==> old(count) < limit) && count == if ok then old(count) + 1 else old(count)
    {
      if Elapsed(last, now) > duration as int {
        count, last := 0, now;
      }
      if Next(count) > limit {
        return false;
      }
      count := Next(count);
      return true;
    }

    method Reset(now: int)
      modifies this
      ensures State() == Meter(0, now)
    {
      count, last := 0, now;
    }
  }

  // ------------------------------------------------------------------ whole runs

  /** The state after calls at the given instants. */
  function After(limit: uint64, duration: int64, m: Meter, times: seq<int>): Meter {
    if times == [] then m
    else Tried(limit, duration, After(limit, duration, m, times[..|times| - 1]), times[|times| - 1]).0
  }

  /** Whether call `k` is admitted. */
  predicate Admitted(limit: uint64, duration: int64, m: Meter, times: seq<int>, k: nat)
    requires k < |times|
  {
    Tried(limit, duration, After(limit, duration, m, times[..k]), times[k]).1
  }

  /** When the window of the last call began, by the clock alone. */
  function Anchor(duration: int64, start: int, times: seq<int>): int {
    if times == [] then start else
      var a, now := Anchor(duration, start, times[..|times| - 1]), times[|times| - 1];
      if Elapsed(a, now) > duration as int then now else a
  }

  /** The number of calls made in the window of the last call. */
  function Position(duration: int64, start: int, times: seq<int>): nat {
    if times == [] then 0 else
      var init := times[..|times| - 1];
      if Elapsed(Anchor(duration, start, init), times[|times| - 1]) > duration as int then 1
      else Position(duration, start, init) + 1
  }

  /** Every window admits exactly its first `limit` calls, for every limit but the largest. */
  lemma {:induction false} WindowAdmitsFirst(limit: uint64, duration: int64, start: int, times: seq<int>)
    requires limit < MAX_UINT64
    ensures var m := After(limit, duration, Meter(0, start), times);
      && m.last == Anchor(duration, start, times)
      && m.count as int == Min(Position(duration, start, times), limit as int)
    ensures times != [] ==>
      (Admitted(limit, duration, Meter(0, start), times, |times| - 1) <==> Position(duration, start, times) <= limit as int)
  {
    if times != [] {
      WindowAdmitsFirst(limit, duration, start, times[..|times| - 1]);
    }
  }

  /** With the largest limit the sum wraps to zero and every call is admitted. So a full window denies
      a call if and only if the limit is not the largest. */
  lemma LargestLimitNeverDenies(limit: uint64, duration: int64, m: Meter, now: int)
    requires m.count == limit && !Begins(duration, m, now)
    ensures Tried(limit, duration, m, now).1 <==> limit == MAX_UINT64
  {
  }

  ghost predicate Monotone(start: int, times: seq<int>) {
    && (forall i :: 0 <= i < |times| ==> start <= times[i])
    && (forall i, j :: 0 <= i <= j < |times| ==> times[i] <= times[j])
  }

  /** Calls admitted among those numbered from `i` up to but not including `j`. */
  function AdmittedIn(limit: uint64, duration: int64, m: Meter, times: seq<int>, i: nat, j: nat): nat
    requires i <= j <= |times|
    decreases j
  {
    if i == j then 0
    else AdmittedIn(limit, duration, m, times, i, j - 1) + if Admitted(limit, duration, m, times, j - 1) then 1 else 0
  }

  ghost predicate BeginsAt(limit: uint64, duration: int64, m: Meter, times: seq<int>, k: nat)
    requires k < |times|
  {
    Begins(duration, After(limit, duration, m, times[..k]), times[k])
  }

  lemma AfterNext(limit: uint64, duration: int64, m: Meter, times: seq<int>, k: nat)
    requires k < |times|
    ensures After(limit, duration, m, times[..k + 1]) == Tried(limit, duration, After(limit, duration, m, times[..k]), times[k]).0
  {
    assert times[..k + 1][..k] == times[..k];
  }

  lemma {:induction false} CountWithinLimit(limit: uint64, duration: int64, m: Meter, times: seq<int>, k: nat)
    requires m.count <= limit < MAX_UINT64 && k <= |times|
    ensures After(limit, duration, m, times[..k]).count <= limit
    decreases k
  {
    if k > 0 {
      CountWithinLimit(limit, duration, m, times, k - 1);
      AfterNext(limit, duration, m, times, k - 1);
    }
  }

  /** Inside one window the counter counts the admitted calls. */
  lemma {:induction false} SameWindow(limit: uint64, duration: int64, m: Meter, times: seq<int>, i: nat, j: nat)
    requires m.count <= limit < MAX_UINT64 && i <= j <= |times|
    requires forall k :: i <= k < j ==> !BeginsAt(limit, duration, m, times, k)
    ensures After(limit, duration, m, times[..j]).last == After(limit, duration, m, times[..i]).last
    ensures After(limit, duration, m, times[..j]).count as int ==
      After(limit, duration, m, times[..i]).count as int + AdmittedIn(limit, duration, m, times, i, j)
    decreases j
  {
    if i < j {
      SameWindow(limit, duration, m, times, i, j - 1);
      AfterNext(limit, duration, m, times, j - 1);
      CountWithinLimit(limit, duration, m, times, j - 1);
      assert !BeginsAt(limit, duration, m, times, j - 1);
    }
  }

  lemma {:induction false} AdmittedSplit(limit: uint64, duration: int64, m: Meter, times: seq<int>, i: nat, p: nat, j: nat)
    requires i <= p <= j <= |times|
    ensures AdmittedIn(limit, duration, m, times, i, j) ==
      AdmittedIn(limit, duration, m, times, i, p) + AdmittedIn(limit, duration, m, times, p, j)
    decreases j
  {
    if p < j {
      AdmittedSplit(limit, duration, m, times, i, p, j - 1);
    }
  }

  /** A window that begins at call `p` admits at most `limit` calls up to call `j`. */
  lemma WindowFrom(limit: uint64, duration: int64, m: Meter, times: seq<int>, p: nat, j: nat)
    requires m.count <= limit < MAX_UINT64 && p < j <= |times|
    requires BeginsAt(limit, duration, m, times, p)
    requires forall k :: p < k < j ==> !BeginsAt(limit, duration, m, times, k)
    ensures AdmittedIn(limit, duration, m, times, p, j) <= limit as int
    ensures After(limit, duration, m, times[..j]).last == times[p]
  {
    AfterNext(limit, duration, m, times, p);
    AdmittedSplit(limit, duration, m, times, p, p + 1, j);
    assert AdmittedIn(limit, duration, m, times, p, p) == 0;
    SameWindow(limit, duration, m, times, p + 1, j);
    CountWithinLimit(limit, duration, m, times, j);
  }

  /** Two windows begin more than `duration` apart. */
  lemma OneBeginning(limit: uint64, duration: int64, m: Meter, times: seq<int>, p: nat, j: nat)
    requires m.count <= limit < MAX_UINT64 && p < j <= |times|
    requires BeginsAt(limit, duration, m, times, p)
    requires forall k :: p <= k < j ==> times[k] - times[p] <= duration as int
    ensures forall k :: p < k < j ==> !BeginsAt(limit, duration, m, times, k)
    decreases j
  {
    if p + 1 < j {
      OneBeginning(limit, duration, m, times, p, j - 1);
      WindowFrom(limit, duration, m, times, p, j - 1);
    }
  }

  /** With a monotone clock, any stretch of calls within `duration` of each other admits at most twice
      the limit. */
  lemma AtMostTwice(limit: uint64, duration: int64, m: Meter, times: seq<int>, i: nat, j: nat)
    requires m.count <= limit < MAX_UINT64 && Monotone(m.last, times) && i < j <= |times|
    requires times[j - 1] - times[i] <= duration as int
    ensures AdmittedIn(limit, duration, m, times, i, j) <= 2 * limit as int
  {
    CountWithinLimit(limit, duration, m, times, i);
    if p :| i <= p < j && BeginsAt(limit, duration, m, times, p) {
      var q := First(limit, duration, m, times, i, p);
      OneBeginning(limit, duration, m, times, q, j);
      WindowFrom(limit, duration, m, times, q, j);
      AdmittedSplit(limit, duration, m, times, i, q, j);
      SameWindow(limit, duration, m, times, i, q);
      CountWithinLimit(limit, duration, m, times, q);
    } else {
      SameWindow(limit, duration, m, times, i, j);
      CountWithinLimit(limit, duration, m, times, j);
    }
  }

  lemma First(limit: uint64, duration: int64, m: Meter, times: seq<int>, i: nat, p: nat) returns (q: nat)
    requires i <= p < |times| && BeginsAt(limit, duration, m, times, p)
    ensures i <= q <= p && BeginsAt(limit, duration, m, times, q)
    ensures forall k :: i <= k < q ==> !BeginsAt(limit, duration, m, times, k)
  {
    q := i;
    while !BeginsAt(limit, duration, m, times, q)
      invariant i <= q <= p
      invariant forall k :: i <= k < q ==> !BeginsAt(limit, duration, m, times, k)
      decreases p - q
    {
      q := q + 1;
    }
  }

  /** The bound is reached: one call at the end of a window and one at the start of the next. */
  lemma TwiceIsReached()
    ensures AdmittedIn(1, 10, Meter(0, 0), [10, 11], 0, 2) == 2
  {
    var times := [10, 11];
    assert times[..0] == [] && times[..1] == [10];
    assert [10][..0] == [];
    assert Admitted(1, 10, Meter(0, 0), times, 0);
    assert Admitted(1, 10, Meter(0, 0), times, 1);
    assert AdmittedIn(1, 10, Meter(0, 0), times, 0, 1) == 1;
  }

  // ------------------------------------------------------------------ the console throttle

  /** Maximal runs of denied calls. */
  function DeniedRuns(log: seq<bool>): nat {
    if log == [] then 0 else
      var n := |log| - 1;
      DeniedRuns(log[..n]) + if !log[n] && (n == 0 || log[n - 1]) then 1 else 0
  }

  class ConsoleThrottle {
    const limit: Rate
    const lock: Lockers.Locker
    var strikes: nat
    // the answers given so far
    ghost var log: seq<bool>

    /** The lock is held exactly after a denied call, and every maximal run of denied calls so far has
        struck once. */
    ghost predicate Valid()
      reads this, lock
    {
      && (lock.full <==> log != [] && !log[|log| - 1])
      && strikes == DeniedRuns(log)
    }

    constructor (lines: uint64, period: int64, now: int)
      ensures Valid() && fresh(limit) && fresh(lock) && log == []
    {
      limit := new Rate(lines, period, now);
      lock := new Lockers.Locker();
      strikes, log := 0, [];
    }

    method Allow(now: int) returns (allowed: bool)
      requires Valid()
      modifies this, limit, lock
      ensures Valid() && log == old(log) + [allowed]
      ensures (limit.State(), allowed) == Tried(limit.limit, limit.duration, old(limit.State()), now)
      ensures strikes == old(strikes) + if !allowed && (old(log) == [] || old(log)[|old(log)| - 1]) then 1 else 0
    {
      log := log + [false];
      assert log[..|log| - 1] == old(log);
      var ok := limit.Try(now);
      if !ok {
        var acquired := lock.Acquire();
        if acquired {
          strikes := strikes + 1;
        }
        return false;
      }
      log := log[..|log| - 1] + [true];
      assert log[..|log| - 1] == old(log);
      lock.Release();
      return true;
    }

    /** Resets the limiter only: a run of denied calls goes on across it without a second strike,
        unless a call was allowed in between. */
    method Reset(now: int)
      requires Valid()
      modifies limit
      ensures Valid() && log == old(log) && limit.State() == Meter(0, now)
    {
      limit.Reset(now);
    }
  }
}
