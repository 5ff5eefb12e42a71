/** Any number of power actions contending for one lock, step by step. */
module PowerLock {
  import opened Collections
  import Lockers

  datatype Kind = StartServer | StopServer | RestartServer | Terminate

  /** Where a call of HandlePowerAction stands. `waits` says that it waits for the lock for a while;
      `owns` that it deferred a release. */
  datatype Call =
    | Arrived(kind: Kind, waits: bool)
    | Inside(kind: Kind, owns: bool)
    | Left(refused: bool)

  /** `slot` is the locker's channel; whose token is in it is history that no step looks at. */
  datatype State = State(slot: Option<nat>, calls: map<nat, Call>)

  datatype Action =
    | Arrive(c: nat, kind: Kind, waits: bool, busy: bool)
    | Acquire(c: nat)
    | Expire(c: nat)
    | Leave(c: nat)

  function Set(s: State, c: nat, call: Call): State {
    s.(calls := s.calls[c := call])
  }

  /** One atomic step; a step that is not possible changes nothing. A server that is installing,
      transferring or restoring refuses at once. */
  function Step(s: State, a: Action): State {
    match a
    case Arrive(c, kind, waits, busy) =>
      if c in s.calls then s
      else Set(s, c, if busy then Left(true) else Arrived(kind, waits))
    case Acquire(c) =>
      if c !in s.calls || !s.calls[c].Arrived? then s
      else
        var call := s.calls[c];
        if s.slot.None? then Set(s, c, Inside(call.kind, true)).(slot := Some(c))
        else if call.kind.Terminate? then Set(s, c, Inside(call.kind, false))
        else if call.waits then s
        else Set(s, c, Left(true))
    case Expire(c) =>
      if c in s.calls && s.calls[c].Arrived? && s.calls[c].waits && !s.calls[c].kind.Terminate?
      then Set(s, c, Left(true)) else s
    case Leave(c) =>
      if c in s.calls && s.calls[c].Inside? then
        // Release drains the slot whoever filled it
        Set(s, c, Left(false)).(slot := if s.calls[c].owns then None else s.slot)
      else s
  }

  ghost predicate Owns(s: State, c: nat) {
    c in s.calls && s.calls[c].Inside? && s.calls[c].owns
  }

  /** The token in the slot is that of the one call that owns it; and only a terminate is inside
      without owning it. */
  ghost predicate Disciplined(s: State) {
    && (forall c: nat :: Owns(s, c) <==> s.slot == Some(c))
    && (forall c :: c in s.calls && s.calls[c].Inside? && !s.calls[c].kind.Terminate? ==> Owns(s, c))
  }

  lemma StepKeepsDiscipline(s: State, a: Action)
    requires Disciplined(s)
    ensures Disciplined(Step(s, a))
  {
    var s' := Step(s, a);
    forall c: nat ensures Owns(s', c) <==> s'.slot == Some(c) {
      assert Owns(s, c) <==> s.slot == Some(c);
      assert Owns(s, a.c) <==> s.slot == Some(a.c);
    }
    forall c | c in s'.calls && s'.calls[c].Inside? && !s'.calls[c].kind.Terminate? ensures Owns(s', c) {
      if c != a.c {
        assert Owns(s, c);
      }
    }
  }

  function After(actions: seq<Action>): State {
    if actions == [] then State(None, map[])
    else Step(After(actions[..|actions| - 1]), actions[|actions| - 1])
  }

  lemma {:induction false} AlwaysDisciplined(actions: seq<Action>)
    ensures Disciplined(After(actions))
  {
    if actions != [] {
      AlwaysDisciplined(actions[..|actions| - 1]);
      StepKeepsDiscipline(After(actions[..|actions| - 1]), actions[|actions| - 1]);
    }
  }

  ghost predicate Exclusive(s: State, c: nat) {
    c in s.calls && s.calls[c].Inside? && !s.calls[c].kind.Terminate?
  }

  /** However the calls interleave, at most one start, stop or restart is past the lock, and none is
      while a terminate holds it. */
  lemma AtMostOneInside(actions: seq<Action>, c: nat, d: nat)
    requires Exclusive(After(actions), c)
    ensures Exclusive(After(actions), d) || Owns(After(actions), d) ==> d == c
  {
    AlwaysDisciplined(actions);
    assert Owns(After(actions), c);
  }

  /** A call that leaves frees the token it took itself, and leaves any other token in place. */
  lemma OnlyOwnTokenIsFreed(actions: seq<Action>, c: nat)
    requires var s := After(actions); c in s.calls && s.calls[c].Inside?
    ensures var s, s' := After(actions), Step(After(actions), Leave(c));
      && (s.slot == Some(c) ==> s'.slot == None)
      && (s.slot != Some(c) ==> s'.slot == s.slot)
  {
    AlwaysDisciplined(actions);
    assert Owns(After(actions), c) <==> After(actions).slot == Some(c);
  }

  /** A call that arrives at a busy server is refused. Otherwise a free slot lets it in with its own token;
      a full slot refuses it, unless it waits or is a terminate. */
  lemma ArrivalAnswers(s: State, c: nat, kind: Kind, waits: bool, busy: bool)
    requires c !in s.calls
    ensures var s' := Step(Step(s, Arrive(c, kind, waits, busy)), Acquire(c));
      && c in s'.calls && s'.calls - {c} == s.calls - {c}
      && (s'.calls[c] == Left(true) <==> busy || (s.slot.Some? && !waits && !kind.Terminate?))
      && (Owns(s', c) <==> !busy && s.slot.None?)
      && (s'.calls[c].Inside? <==> !busy && (s.slot.None? || kind.Terminate?))
      && s'.slot == if !busy && s.slot.None? then Some(c) else s.slot
    // one that waits goes on waiting, until its wait expires
    ensures var s' := Step(Step(s, Arrive(c, kind, waits, busy)), Acquire(c));
      !busy && s.slot.Some? && waits && !kind.Terminate? ==> Step(s', Acquire(c)) == s' && Step(s', Expire(c)) == Set(s', c, Left(true))
  {
  }

  /** A terminate always gets through. */
  lemma TerminateIsNeverRefused(actions: seq<Action>, c: nat)
    requires var s := After(actions); c in s.calls && s.calls[c].Arrived? && s.calls[c].kind.Terminate?
    ensures Step(After(actions), Acquire(c)).calls[c].Inside?
    ensures Step(After(actions), Expire(c)) == After(actions)
  {
  }

  /** The slot is empty again once everybody has left. */
  lemma QuietMeansFree(actions: seq<Action>)
    requires forall c :: c in After(actions).calls ==> !After(actions).calls[c].Inside?
    ensures After(actions).slot == None
  {
    AlwaysDisciplined(actions);
    var s := After(actions);
    assert forall c: nat :: s.slot == Some(c) ==> Owns(s, c);
  }

  // ------------------------------------------------------------------ one call by itself

  datatype Result = Ok | Refused | Locked | IsRunning | Failed

  /** What a power action did to the environment. */
  datatype EnvCall = BeforeStart | StartProcess | WaitForStop | Kill

  /** How the environment answers; `frees` and `expires` say how a wait for the lock goes. */
  datatype Env = Env(busy: bool, frees: bool, expires: bool, offline: bool, prepares: bool, starts: bool, stops: bool, kills: bool)

  /** The environment does all that the action asks for. */
  predicate Works(kind: Kind, env: Env) {
    match kind
    case StartServer => env.offline && env.prepares && env.starts
    case StopServer => env.stops
    case RestartServer => env.stops && env.prepares && env.starts
    case Terminate => env.kills
  }

  /** A call that has to wait for the lock. */
  predicate Waits(kind: Kind, wait: int, env: Env) {
    !env.busy && !kind.Terminate? && wait > 0
  }

  method HandlePowerAction(lock: Lockers.Locker, kind: Kind, wait: int, env: Env) returns (r: Result, ghost done: seq<EnvCall>)
    modifies lock
    // nobody else's token is taken, except by its owner during a wait, and none is left behind
    ensures lock.full <==> old(lock.full) && !(Waits(kind, wait, env) && env.frees)
    // a call that was turned away did nothing
    ensures (r.Refused? <==> env.busy) && (r.Refused? || r.Locked? ==> done == [])
    // without a wait a full lock turns the call away; with one it depends on how the wait goes
    ensures !Waits(kind, wait, env) ==> (r.Locked? <==> !env.busy && !kind.Terminate? && old(lock.full))
    ensures Waits(kind, wait, env) ==> (r.Locked? <==> env.expires || (old(lock.full) && !env.frees))
    // a start only happens on a process that is offline or has just been waited for
    ensures StartProcess in done ==> (kind.StartServer? && env.offline) || (kind.RestartServer? && WaitForStop in done && env.stops)
    ensures StartProcess in done ==> BeforeStart in done && env.prepares
    ensures kind.StopServer? && !env.busy && !r.Locked? ==> done == [WaitForStop]
    ensures r.Ok? <==> !env.busy && !r.Locked? && Works(kind, env)
    ensures r.Ok? && kind.StartServer? ==> done == [BeforeStart, StartProcess]
    ensures r.Ok? && kind.RestartServer? ==> done == [WaitForStop, BeforeStart, StartProcess]
    ensures kind.Terminate? && !env.busy ==> done == [Kill]
    ensures r.IsRunning? <==> !env.busy && !r.Locked? && kind.StartServer? && !env.offline
  {
    done := [];
    if env.busy {
      return Refused, done;
    }
    var owns := false;
    if !kind.Terminate? {
      if wait > 0 {
        owns := lock.TryAcquire(env.frees, env.expires);
      } else {
        owns := lock.Acquire();
      }
      if !owns {
        return Locked, done;
      }
    } else {
      owns := lock.Acquire();
    }
    match kind {
      case StartServer =>
        if !env.offline {
          r := IsRunning;
        } else {
          r, done := PrepareAndStart(env, done);
        }
      case StopServer =>
        done := done + [WaitForStop];
        r := if env.stops then Ok else Failed;
      case RestartServer =>
        done := done + [WaitForStop];
        if !env.stops {
          r := Failed;
        } else {
          r, done := PrepareAndStart(env, done);
        }
      case Terminate =>
        done := done + [Kill];
        r := if env.kills then Ok else Failed;
    }
    if owns {
      lock.Release();
    }
  }

  method PrepareAndStart(env: Env, ghost before: seq<EnvCall>) returns (r: Result, ghost done: seq<EnvCall>)
    ensures done == before + (if env.prepares then [BeforeStart, StartProcess] else [BeforeStart])
    ensures r == if env.prepares && env.starts then Ok else Failed
  {
    done := before + [BeforeStart];
    if !env.prepares {
      return Failed, done;
    }
    done := done + [StartProcess];
    return if env.starts then Ok else Failed, done;
  }
}
