/** The pool of console sinks: registration on a slice, and the pushes that drop the oldest message
    of a channel nobody drains. */
module SinkPools {
  import opened Collections
  import opened Int64
  import opened Sums

  // ------------------------------------------------------------------ registration

  class Channel {
    var closed: bool

    constructor ()
      ensures !closed
    {
      closed := false;
    }

    /** Closing a closed channel would panic. */
    method Close()
      requires !closed
      modifies this
      ensures closed
    {
      closed := true;
    }
  }

  class SinkPool {
    var sinks: seq<Channel>

    /** Every channel is registered once and open. */
    ghost predicate Valid()
      reads this, sinks
    {
      Distinct(sinks) && forall c :: c in sinks ==> !c.closed
    }

    constructor ()
      ensures Valid() && sinks == []
    {
      sinks := [];
    }

    method On(c: Channel)
      requires Valid() && c !in sinks && !c.closed
      modifies this
      ensures Valid() && sinks == old(sinks) + [c]
    {
      sinks := sinks + [c];
    }

    /** Removes the channel, keeping the order of the others, and closes it; a no-op for a channel that
        is not registered. */
    method Off(c: Channel)
      requires Valid()
      modifies this, c
      ensures Valid() && sinks == RemoveFirst(old(sinks), c) && c !in sinks
      ensures c.closed <==> old(c.closed) || c in old(sinks)
    {
      for i := 0 to |sinks|
        invariant Valid() && sinks == old(sinks) && c !in sinks[..i]
        invariant c.closed == old(c.closed)
      {
        if sinks[i] == c {
          RemoveFirstAt(sinks, i);
          // everything after the channel moves one place to the left
          var shifted := sinks[..i] + sinks[i + 1..];
          assert forall d :: d in shifted ==> d in sinks && d != c;
          sinks := shifted;
          c.Close();
          return;
        }
      }
      assert sinks[..|sinks|] == sinks;
      RemoveFirstAbsent(sinks, c);
    }

    method Destroy()
      requires Valid()
      modifies this, sinks
      ensures Valid() && sinks == []
      ensures forall c :: c in old(sinks) ==> c.closed
    {
      for i := 0 to |sinks|
        invariant sinks == old(sinks)
        invariant forall j :: 0 <= j < |sinks| ==> (sinks[j].closed <==> j < i)
      {
        sinks[i].Close();
      }
      sinks := [];
    }
  }

  // ------------------------------------------------------------------ pushes, interleaved

  /** A message on its way, with its place in the sequence of messages pushed to the channel; the
      place is history that no step looks at. */
  datatype Sent = Sent(msg: int, at: nat)

  datatype Pipe = Pipe(capacity: nat, buffer: seq<Sent>, received: seq<Sent>, closed: bool, pushed: seq<int>)

  /** Where the goroutine that Push started for one channel stands. */
  datatype Stage = Sending | Dropping | Retrying

  datatype Push = Push(msg: int, stages: map<nat, Stage>, places: map<nat, nat>)

  datatype State = State(sinks: seq<nat>, pipes: map<nat, Pipe>, pushes: map<nat, Push>, panicked: bool)

  datatype Action =
    | On(c: nat, capacity: nat)
    | Off(c: nat)
    | Destroy
    | Begin(p: nat, msg: int)
    | Send(p: nat, c: nat)
    | Handover(p: nat, c: nat)
    | Timeout(p: nat, c: nat)
    | Drop(p: nat, c: nat)
    | Retry(p: nat, c: nat)
    | End(p: nat)
    | Receive(c: nat)

  /** One atomic step; a step that is not possible changes nothing. On, Off and Destroy take the
      pool's lock for writing, so they wait until no push is under way. A channel is registered only
      once, when it is new. */
  function Step(s: State, a: Action): State {
    match a
    case On(c, capacity) =>
      if s.pushes != map[] || c in s.pipes then s
      else s.(sinks := s.sinks + [c], pipes := s.pipes[c := Pipe(capacity, [], [], false, [])])
    case Off(c) =>
      if s.pushes != map[] || c !in s.sinks then s
      else CloseAll(s.(sinks := RemoveFirst(s.sinks, c)), {c})
    case Destroy =>
      if s.pushes != map[] then s else CloseAll(s.(sinks := []), set c | c in s.sinks)
    case Begin(p, msg) =>
      if p in s.pushes then s else BeginPush(s, p, msg)
    case Send(p, c) => if At(s, p, c, Sending) then TrySend(s, p, c, false) else s
    case Handover(p, c) => if At(s, p, c, Sending) then HandOver(s, p, c) else s
    case Timeout(p, c) => if At(s, p, c, Sending) then Move(s, p, c, Dropping) else s
    case Drop(p, c) => if At(s, p, c, Dropping) then DropOldest(s, p, c) else s
    case Retry(p, c) => if At(s, p, c, Retrying) then TrySend(s, p, c, true) else s
    case End(p) => if p in s.pushes && s.pushes[p].stages == map[] then s.(pushes := s.pushes - {p}) else s
    case Receive(c) =>
      if c in s.pipes && s.pipes[c].buffer != [] then
        var pipe := s.pipes[c];
        SetPipe(s, c, pipe.(buffer := pipe.buffer[1..], received := pipe.received + [pipe.buffer[0]]))
      else s
  }

  predicate At(s: State, p: nat, c: nat, stage: Stage) {
    p in s.pushes && c in s.pushes[p].stages && s.pushes[p].stages[c] == stage && c in s.pushes[p].places && c in s.pipes
  }

  /** Closing a closed channel panics. */
  function CloseAll(s: State, cs: set<nat>): State {
    s.(pipes := map c | c in s.pipes :: if c in cs then s.pipes[c].(closed := true) else s.pipes[c],
       panicked := s.panicked || exists c :: c in cs && c in s.pipes && s.pipes[c].closed)
  }

  function SetPipe(s: State, c: nat, pipe: Pipe): State {
    s.(pipes := s.pipes[c := pipe])
  }

  /** The message counts as pushed to every registered channel. */
  function BeginPush(s: State, p: nat, msg: int): State {
    var targets := set c | c in s.sinks && c in s.pipes;
    s.(pipes := map c | c in s.pipes ::
           if c in targets then s.pipes[c].(pushed := s.pipes[c].pushed + [msg]) else s.pipes[c],
       pushes := s.pushes[p := Push(msg, map c | c in targets :: Sending, map c | c in targets :: |s.pipes[c].pushed|)])
  }

  function Move(s: State, p: nat, c: nat, stage: Stage): State
    requires p in s.pushes
  {
    s.(pushes := s.pushes[p := s.pushes[p].(stages := s.pushes[p].stages[c := stage])])
  }

  function Finish(s: State, p: nat, c: nat): State
    requires p in s.pushes
  {
    s.(pushes := s.pushes[p := s.pushes[p].(stages := s.pushes[p].stages - {c})])
  }

  function Message(s: State, p: nat, c: nat): Sent
    requires p in s.pushes && c in s.pushes[p].places
  {
    Sent(s.pushes[p].msg, s.pushes[p].places[c])
  }

  /** Sending on a closed channel panics; a full buffer blocks, or with `once` gives up. */
  function TrySend(s: State, p: nat, c: nat, once: bool): State
    requires p in s.pushes && c in s.pushes[p].places && c in s.pipes
  {
    var pipe := s.pipes[c];
    if pipe.closed then s.(panicked := true)
    else if |pipe.buffer| < pipe.capacity then
      Finish(SetPipe(s, c, pipe.(buffer := pipe.buffer + [Message(s, p, c)])), p, c)
    else if once then Finish(s, p, c)
    else s
  }

  /** A receiver that waits at an empty channel takes the message directly. */
  function HandOver(s: State, p: nat, c: nat): State
    requires p in s.pushes && c in s.pushes[p].places && c in s.pipes
  {
    var pipe := s.pipes[c];
    if pipe.closed then s.(panicked := true)
    else if pipe.buffer == [] then
      Finish(SetPipe(s, c, pipe.(received := pipe.received + [Message(s, p, c)])), p, c)
    else s
  }

  function DropOldest(s: State, p: nat, c: nat): State
    requires p in s.pushes && c in s.pipes
  {
    var pipe := s.pipes[c];
    if pipe.buffer == [] then Finish(s, p, c)
    else Move(SetPipe(s, c, pipe.(buffer := pipe.buffer[1..])), p, c, Retrying)
  }

  // ------------------------------------------------------------------ no send on a closed channel

  ghost predicate Open(s: State) {
    && !s.panicked && Distinct(s.sinks)
    && (forall c :: c in s.sinks ==> c in s.pipes && !s.pipes[c].closed)
    && (forall p, c :: p in s.pushes && c in s.pushes[p].stages ==> c in s.sinks)
  }

  lemma StepKeepsOpen(s: State, a: Action)
    requires Open(s)
    ensures Open(Step(s, a))
  {
    if a.Off? {
      RemoveFirstDistinct(s.sinks, a.c);
    }
  }

  function After(actions: seq<Action>): State {
    if actions == [] then State([], map[], map[], false)
    else Step(After(actions[..|actions| - 1]), actions[|actions| - 1])
  }

  /** No interleaving of any number of pushes with On, Off and Destroy sends on a closed channel or
      closes one twice. */
  lemma {:induction false} NeverPanics(actions: seq<Action>)
    ensures Open(After(actions))
  {
    if actions != [] {
      NeverPanics(actions[..|actions| - 1]);
      StepKeepsOpen(After(actions[..|actions| - 1]), actions[|actions| - 1]);
    }
  }

  // ------------------------------------------------------------------ progress

  /** Every goroutine has a message with its place. */
  ghost predicate Placed(s: State) {
    forall p, c :: p in s.pushes && c in s.pushes[p].stages ==> c in s.pushes[p].places
  }

  lemma StepKeepsPlaced(s: State, a: Action)
    requires Placed(s)
    ensures Placed(Step(s, a))
  {
  }

  lemma {:induction false} AlwaysPlaced(actions: seq<Action>)
    ensures Placed(After(actions))
  {
    if actions != [] {
      hide Step;
      AlwaysPlaced(actions[..|actions| - 1]);
      StepKeepsPlaced(After(actions[..|actions| - 1]), actions[|actions| - 1]);
    }
  }

  function Rank(stage: Stage): nat {
    match stage
    case Sending => 3
    case Dropping => 2
    case Retrying => 1
  }

  /** How many more steps the goroutine of push `p` for channel `c` can take. */
  function RankOf(s: State, p: nat, c: nat): nat {
    if p in s.pushes && c in s.pushes[p].stages then Rank(s.pushes[p].stages[c]) else 0
  }

  /** A step of the goroutine of push `p` for channel `c`. */
  predicate Moves(a: Action, p: nat, c: nat) {
    (a.Send? || a.Handover? || a.Timeout? || a.Drop? || a.Retry?) && a.p == p && a.c == c
  }

  /** Every step of a goroutine that does something uses up some of its at most three, and nobody else's
      step gives any back. */
  lemma AtMostThreeSteps(s: State, a: Action, p: nat, c: nat)
    requires Open(s) && Placed(s) && p in s.pushes && c in s.pushes[p].stages
    ensures RankOf(Step(s, a), p, c) <= RankOf(s, p, c) <= 3
    ensures Moves(a, p, c) && Step(s, a) != s ==> RankOf(Step(s, a), p, c) < RankOf(s, p, c)
  {
    hide CloseAll, Distinct, Message;
  }

  /** The step a goroutine can always take, whether or not anybody receives. */
  function NextMove(s: State, p: nat, c: nat): Action
    requires p in s.pushes && c in s.pushes[p].stages
  {
    match s.pushes[p].stages[c]
    case Sending => Timeout(p, c)
    case Dropping => Drop(p, c)
    case Retrying => Retry(p, c)
  }

  /** A goroutine is done with its channel, or has fewer steps left. */
  predicate Falls(stages: map<nat, Stage>, stages': map<nat, Stage>, c: nat) {
    && c in stages
    && (stages' == stages - {c}
        || (c in stages' && Rank(stages'[c]) < Rank(stages[c]) && stages' == stages[c := stages'[c]]))
  }

  /** What the next move of a goroutine does to its push, whatever is in the channel. */
  lemma NextMoveFalls(s: State, p: nat, c: nat)
    requires p in s.pushes && c in s.pushes[p].stages && c in s.pushes[p].places && c in s.pipes && !s.pipes[c].closed
    ensures var s' := Step(s, NextMove(s, p, c));
      && p in s'.pushes && s'.pushes == s.pushes[p := s'.pushes[p]]
      && Falls(s.pushes[p].stages, s'.pushes[p].stages, c)
  {
    hide CloseAll, BeginPush, HandOver;
    assert At(s, p, c, s.pushes[p].stages[c]);
  }

  /** No goroutine of a push is ever stuck. */
  lemma GoroutinesMoveOn(s: State, p: nat, c: nat)
    requires Open(s) && Placed(s) && p in s.pushes && c in s.pushes[p].stages
    ensures var s' := Step(s, NextMove(s, p, c));
      && p in s'.pushes && s'.pushes == s.pushes[p := s'.pushes[p]] && Open(s') && Placed(s')
      && Falls(s.pushes[p].stages, s'.pushes[p].stages, c)
  {
    hide Step, Falls, Rank;
    StepKeepsOpen(s, NextMove(s, p, c));
    StepKeepsPlaced(s, NextMove(s, p, c));
    NextMoveFalls(s, p, c);
  }

  ghost function Ranks(stages: map<nat, Stage>): map<nat, nat> {
    map c | c in stages :: Rank(stages[c])
  }

  ghost function Loads(pushes: map<nat, Push>): map<nat, nat> {
    map p | p in pushes :: Sum(Ranks(pushes[p].stages)) + 1
  }

  /** A bound on the steps that the pushes under way can still take, three for each goroutine and one for
      the end of each push. */
  ghost function Load(s: State): nat {
    Sum(Loads(s.pushes))
  }

  lemma RanksFall(stages: map<nat, Stage>, stages': map<nat, Stage>, c: nat)
    requires Falls(stages, stages', c)
    ensures Sum(Ranks(stages')) < Sum(Ranks(stages))
  {
    if c in stages' {
      assert Ranks(stages') == Ranks(stages)[c := Rank(stages'[c])];
      SumPut(Ranks(stages), c, Rank(stages'[c]));
    } else {
      assert Ranks(stages') == Ranks(stages) - {c};
      SumRemove(Ranks(stages), c);
    }
  }

  lemma MoveLowersLoad(s: State, p: nat, c: nat)
    requires Open(s) && Placed(s) && p in s.pushes && c in s.pushes[p].stages
    ensures var s' := Step(s, NextMove(s, p, c)); Open(s') && Placed(s') && Load(s') < Load(s)
  {
    hide Step, Open, Placed, NextMove;
    GoroutinesMoveOn(s, p, c);
    var s' := Step(s, NextMove(s, p, c));
    RanksFall(s.pushes[p].stages, s'.pushes[p].stages, c);
    assert Loads(s'.pushes) == Loads(s.pushes)[p := Sum(Ranks(s'.pushes[p].stages)) + 1];
    SumPut(Loads(s.pushes), p, Sum(Ranks(s'.pushes[p].stages)) + 1);
  }

  lemma EndLowersLoad(s: State, p: nat)
    requires Open(s) && Placed(s) && p in s.pushes && s.pushes[p].stages == map[]
    ensures var s' := Step(s, End(p)); Open(s') && Placed(s') && Load(s') < Load(s)
  {
    assert Step(s, End(p)) == s.(pushes := s.pushes - {p});
    hide Step, Open;
    StepKeepsOpen(s, End(p));
    assert Loads(s.pushes - {p}) == Loads(s.pushes) - {p};
    SumRemove(Loads(s.pushes), p);
  }

  function Onwards(s: State, actions: seq<Action>): State
    decreases |actions|
  {
    if actions == [] then s else Onwards(Step(s, actions[0]), actions[1..])
  }

  /** A step of a push that is under way. */
  predicate OfPush(a: Action) {
    a.Send? || a.Handover? || a.Timeout? || a.Drop? || a.Retry? || a.End?
  }

  /** From every state without a panic the pushes under way can finish by their own steps alone, at most
      Load of them; so On, Off and Destroy are never blocked for good. */
  lemma {:induction false} PushesEnd(s: State) returns (actions: seq<Action>)
    requires Open(s) && Placed(s)
    ensures Onwards(s, actions).pushes == map[] && |actions| <= Load(s)
    ensures forall a :: a in actions ==> OfPush(a)
    decreases Load(s)
  {
    hide Step, Open, Placed, Load;
    if s.pushes == map[] {
      return [];
    }
    var p :| p in s.pushes;
    var a;
    if s.pushes[p].stages == map[] {
      a := End(p);
      EndLowersLoad(s, p);
    } else {
      var c :| c in s.pushes[p].stages;
      a := NextMove(s, p, c);
      MoveLowersLoad(s, p, c);
    }
    var rest := PushesEnd(Step(s, a));
    actions := [a] + rest;
    assert actions[1..] == rest;
  }

  /** The same for every state that can be reached. */
  lemma NeverBlocked(before: seq<Action>) returns (actions: seq<Action>)
    ensures Onwards(After(before), actions).pushes == map[] && |actions| <= Load(After(before))
    ensures forall a :: a in actions ==> OfPush(a)
  {
    NeverPanics(before);
    AlwaysPlaced(before);
    actions := PushesEnd(After(before));
  }

  // ------------------------------------------------------------------ one pusher: order

  /** The messages are at increasing places of the pushed sequence: an in-order subsequence of it. */
  ghost predicate InOrder(s: seq<Sent>, pushed: seq<int>) {
    && (forall i, j :: 0 <= i < j < |s| ==> s[i].at < s[j].at)
    && (forall i :: 0 <= i < |s| ==> s[i].at < |pushed| && pushed[s[i].at] == s[i].msg)
  }

  ghost predicate Before(s: seq<Sent>, n: int) {
    forall i :: 0 <= i < |s| ==> s[i].at < n
  }

  /** What was received, followed by what is still buffered. */
  function Through(pipe: Pipe): seq<Sent> {
    pipe.received + pipe.buffer
  }

  /** A message that is on its way to `c` is the newest one pushed, and not yet in the channel. */
  ghost predicate Pending(push: Push, pipe: Pipe, c: nat) {
    c in push.stages ==>
      var n := |pipe.pushed| - 1;
      0 <= n && c in push.places && push.places[c] == n && pipe.pushed[n] == push.msg && Before(Through(pipe), n)
  }

  ghost predicate PipeOrdered(s: State, c: nat)
    requires c in s.pipes
  {
    && InOrder(Through(s.pipes[c]), s.pipes[c].pushed)
    && (0 in s.pushes ==> Pending(s.pushes[0], s.pipes[c], c))
  }

  ghost predicate Ordered(s: State) {
    Open(s) && s.pushes.Keys <= {0} && forall c :: c in s.pipes ==> PipeOrdered(s, c)
  }

  lemma Appended(s: seq<Sent>, pushed: seq<int>, x: Sent)
    requires InOrder(s, pushed) && Before(s, |pushed| - 1)
    requires 0 < |pushed| && x == Sent(pushed[|pushed| - 1], |pushed| - 1)
    ensures InOrder(s + [x], pushed)
  {
  }

  lemma HeadDropped(pipe: Pipe, n: int)
    requires pipe.buffer != [] && InOrder(Through(pipe), pipe.pushed)
    ensures var t := pipe.received + pipe.buffer[1..];
      InOrder(t, pipe.pushed) && (Before(Through(pipe), n) ==> Before(t, n))
  {
    var t, k := pipe.received + pipe.buffer[1..], |pipe.received|;
    forall i | 0 <= i < |t| ensures t[i] == Through(pipe)[if i < k then i else i + 1] {
    }
  }

  lemma SendKeepsOrder(s: State, p: nat, d: nat, once: bool, c: nat)
    requires Ordered(s) && p in s.pushes && d in s.pushes[p].stages && d in s.pushes[p].places && d in s.pipes && c in s.pipes
    ensures PipeOrdered(TrySend(s, p, d, once), c) && PipeOrdered(HandOver(s, p, d), c)
  {
    assert PipeOrdered(s, c) && p == 0;
    if c == d {
      var pipe := s.pipes[c];
      Appended(Through(pipe), pipe.pushed, Message(s, p, c));
      assert pipe.received + (pipe.buffer + [Message(s, p, c)]) == Through(pipe) + [Message(s, p, c)];
      assert pipe.buffer == [] ==> pipe.received + [Message(s, p, c)] + pipe.buffer == Through(pipe) + [Message(s, p, c)];
    }
  }

  lemma DropKeepsOrder(s: State, p: nat, d: nat, c: nat)
    requires Ordered(s) && p in s.pushes && d in s.pushes[p].stages && d in s.pipes && c in s.pipes
    ensures PipeOrdered(DropOldest(s, p, d), c)
  {
    assert PipeOrdered(s, c) && p == 0;
    if c == d && s.pipes[c].buffer != [] {
      HeadDropped(s.pipes[c], |s.pipes[c].pushed| - 1);
    }
  }

  lemma ReceiveKeepsOrder(s: State, d: nat, c: nat)
    requires Ordered(s) && c in s.pipes
    ensures c in Step(s, Receive(d)).pipes && PipeOrdered(Step(s, Receive(d)), c)
  {
    assert PipeOrdered(s, c);
    var pipe := s.pipes[c];
    if c == d && pipe.buffer != [] {
      assert (pipe.received + [pipe.buffer[0]]) + pipe.buffer[1..] == Through(pipe);
    }
  }

  lemma BeginKeepsOrder(s: State, msg: int, c: nat)
    requires Ordered(s) && c in s.pipes && 0 !in s.pushes
    ensures PipeOrdered(BeginPush(s, 0, msg), c)
  {
    assert PipeOrdered(s, c);
  }

  lemma CloseKeepsOrder(s: State, cs: set<nat>, sinks: seq<nat>, c: nat)
    requires Ordered(s) && c in s.pipes
    ensures PipeOrdered(CloseAll(s.(sinks := sinks), cs), c)
  {
    assert PipeOrdered(s, c);
  }

  lemma MoveKeepsOrder(s: State, p: nat, d: nat, stage: Stage, c: nat)
    requires Ordered(s) && c in s.pipes && p in s.pushes && d in s.pushes[p].stages
    ensures PipeOrdered(Move(s, p, d, stage), c)
  {
    assert PipeOrdered(s, c) && p == 0;
  }

  lemma PipeKeepsOrder(s: State, a: Action, c: nat)
    requires Ordered(s) && (a.Begin? ==> a.p == 0) && c in s.pipes
    ensures c in Step(s, a).pipes && PipeOrdered(Step(s, a), c)
  {
    hide InOrder, Open, Pending;
    assert PipeOrdered(s, c);
    match a
    case On(_, _) =>
    case Off(d) => CloseKeepsOrder(s, {d}, RemoveFirst(s.sinks, d), c);
    case Destroy => CloseKeepsOrder(s, set d | d in s.sinks, [], c);
    case Begin(p, msg) => if p !in s.pushes { BeginKeepsOrder(s, msg, c); }
    case Send(p, d) => if At(s, p, d, Sending) { SendKeepsOrder(s, p, d, false, c); }
    case Handover(p, d) => if At(s, p, d, Sending) { SendKeepsOrder(s, p, d, false, c); }
    case Timeout(p, d) => if At(s, p, d, Sending) { MoveKeepsOrder(s, p, d, Dropping, c); }
    case Drop(p, d) => if At(s, p, d, Dropping) { DropKeepsOrder(s, p, d, c); }
    case Retry(p, d) => if At(s, p, d, Retrying) { SendKeepsOrder(s, p, d, true, c); }
    case End(_) =>
    case Receive(d) => ReceiveKeepsOrder(s, d, c);
  }

  lemma StepKeepsOrder(s: State, a: Action)
    requires Ordered(s) && (a.Begin? ==> a.p == 0)
    ensures Ordered(Step(s, a))
  {
    StepKeepsOpen(s, a);
    forall c | c in Step(s, a).pipes ensures PipeOrdered(Step(s, a), c) {
      if c in s.pipes {
        PipeKeepsOrder(s, a, c);
      }
    }
  }

  /** With one pusher, whatever is dropped on the way: what a channel's reader has received followed
      by what is buffered is an in-order subsequence, without repetition, of what was pushed. */
  lemma {:induction false} ReceivedInOrder(actions: seq<Action>, c: nat)
    requires forall a :: a in actions && a.Begin? ==> a.p == 0
    requires c in After(actions).pipes
    ensures InOrder(Through(After(actions).pipes[c]), After(actions).pipes[c].pushed)
  {
    AlwaysOrdered(actions);
    assert PipeOrdered(After(actions), c);
  }

  lemma {:induction false} AlwaysOrdered(actions: seq<Action>)
    requires forall a :: a in actions && a.Begin? ==> a.p == 0
    ensures Ordered(After(actions))
  {
    if actions != [] {
      var n := |actions| - 1;
      AlwaysOrdered(actions[..n]);
      assert actions[n] in actions;
      StepKeepsOrder(After(actions[..n]), actions[n]);
    }
  }

  // ------------------------------------------------------------------ one pusher, no reader: what is kept

  /** The last `k` messages pushed are what is buffered. */
  ghost predicate HoldsLast(pipe: Pipe, k: nat) {
    var n := |pipe.pushed|;
    k == |pipe.buffer| <= n && forall i :: 0 <= i < k ==> pipe.buffer[i].msg == pipe.pushed[n - k + i]
  }

  /** The buffer ends with message number `upto` - 1 and has no gap. */
  ghost predicate Newest(pipe: Pipe, upto: int) {
    var k := |pipe.buffer|;
    && k <= upto <= |pipe.pushed|
    && forall i :: 0 <= i < k ==> pipe.buffer[i] == Sent(pipe.pushed[upto - k + i], upto - k + i)
  }

  /** Where the message on its way to `c` stands, if there is one. */
  function Standing(s: State, c: nat): Option<Stage> {
    if 0 in s.pushes && c in s.pushes[0].stages then Some(s.pushes[0].stages[c]) else None
  }

  /** What is in the channel when `hasty` of the timeouts found room in it. */
  ghost predicate Kept(pipe: Pipe, standing: Option<Stage>, hasty: nat) {
    var n, k := |pipe.pushed|, |pipe.buffer|;
    match standing
    case None => hasty <= n && k == Min(pipe.capacity, n - hasty) && Newest(pipe, n)
    case Some(Sending) => hasty < n && k == Min(pipe.capacity, n - 1 - hasty) && Newest(pipe, n - 1)
    case Some(Dropping) => hasty <= n && k == Min(pipe.capacity, n - hasty) && Newest(pipe, n - 1)
    case Some(Retrying) => hasty <= n && k + 1 == Min(pipe.capacity, n - hasty) && Newest(pipe, n - 1)
  }

  /** A push is told that it timed out although there is room for its message. */
  predicate TimesOutEarly(s: State, a: Action, c: nat) {
    a == Timeout(0, c) && At(s, 0, c, Sending) && |s.pipes[c].buffer| < s.pipes[c].capacity
  }

  /** How often that happens in a run. */
  function EarlyTimeouts(actions: seq<Action>, c: nat): nat {
    if actions == [] then 0 else
      var init, last := actions[..|actions| - 1], actions[|actions| - 1];
      EarlyTimeouts(init, c) + if TimesOutEarly(After(init), last, c) then 1 else 0
  }

  /** One pusher, and nobody reads from `c`. */
  predicate Unread(a: Action, c: nat) {
    (a.Begin? ==> a.p == 0) && a != Receive(c) && !(a.Handover? && a.c == c)
  }

  ghost predicate KeptIn(s: State, c: nat, hasty: nat) {
    if c in s.pipes then Kept(s.pipes[c], Standing(s, c), hasty) else hasty == 0
  }

  /** A step that does not concern the channel. */
  ghost predicate Leaves(s: State, s': State, c: nat) {
    && (c in s.pipes <==> c in s'.pipes)
    && (c in s.pipes ==> s'.pipes[c] == s.pipes[c].(closed := s'.pipes[c].closed) && Standing(s', c) == Standing(s, c))
  }

  lemma LeftAlone(s: State, s': State, c: nat, hasty: nat)
    requires KeptIn(s, c, hasty) && Leaves(s, s', c)
    ensures KeptIn(s', c, hasty)
  {
  }

  lemma Begun(s: State, msg: int, c: nat, hasty: nat)
    requires Ordered(s) && KeptIn(s, c, hasty) && 0 !in s.pushes
    ensures KeptIn(BeginPush(s, 0, msg), c, hasty)
  {
    var s' := BeginPush(s, 0, msg);
    if c in s.pipes && c in s.sinks {
      assert s'.pipes[c].pushed == s.pipes[c].pushed + [msg];
    }
  }

  lemma SentOn(s: State, c: nat, hasty: nat, once: bool)
    requires Ordered(s) && KeptIn(s, c, hasty) && At(s, 0, c, if once then Retrying else Sending)
    ensures KeptIn(TrySend(s, 0, c, once), c, hasty)
  {
    assert PipeOrdered(s, c) && Pending(s.pushes[0], s.pipes[c], c);
    assert c in s.sinks && !s.pipes[c].closed;
  }

  lemma TimedOut(s: State, c: nat, hasty: nat)
    requires KeptIn(s, c, hasty) && At(s, 0, c, Sending)
    ensures KeptIn(Move(s, 0, c, Dropping), c, hasty + if TimesOutEarly(s, Timeout(0, c), c) then 1 else 0)
  {
  }

  lemma DroppedOne(s: State, c: nat, hasty: nat)
    requires KeptIn(s, c, hasty) && At(s, 0, c, Dropping)
    ensures KeptIn(DropOldest(s, 0, c), c, hasty)
  {
  }

  /** A goroutine for another channel moves. */
  lemma OtherMoves(s: State, a: Action, p: nat, d: nat, c: nat)
    requires Moves(a, p, d) && d != c
    ensures Leaves(s, Step(s, a), c)
  {
    hide CloseAll, BeginPush, Message;
  }

  lemma OtherReader(s: State, d: nat, c: nat)
    requires d != c
    ensures Leaves(s, Step(s, Receive(d)), c)
  {
  }

  /** The pool changes, or the push ends. */
  lemma NobodyMoves(s: State, a: Action, c: nat)
    requires a.On? || a.Off? || a.Destroy? || a.End?
    ensures Leaves(s, Step(s, a), c) ||
      (c !in s.pipes && Step(s, a).pushes == map[] && a.On? && a.c == c
       && Step(s, a).pipes == s.pipes[c := Pipe(a.capacity, [], [], false, [])])
  {
  }

  /** The goroutine for the channel itself moves. */
  lemma OwnMove(s: State, a: Action, p: nat, c: nat, hasty: nat)
    requires Ordered(s) && Unread(a, c) && KeptIn(s, c, hasty) && Moves(a, p, c)
    ensures KeptIn(Step(s, a), c, hasty + if TimesOutEarly(s, a, c) then 1 else 0)
  {
    hide KeptIn, PipeOrdered, Open;
    match a
    case Send(_, _) => if At(s, p, c, Sending) { SentOn(s, c, hasty, false); }
    case Timeout(_, _) => if At(s, p, c, Sending) { TimedOut(s, c, hasty); }
    case Drop(_, _) => if At(s, p, c, Dropping) { DroppedOne(s, c, hasty); }
    case Retry(_, _) => if At(s, p, c, Retrying) { SentOn(s, c, hasty, true); }
  }

  lemma StepKeeps(s: State, a: Action, c: nat, hasty: nat)
    requires Ordered(s) && Unread(a, c) && KeptIn(s, c, hasty)
    ensures KeptIn(Step(s, a), c, hasty + if TimesOutEarly(s, a, c) then 1 else 0)
  {
    hide Ordered, Leaves, At;
    if a.Begin? {
      if 0 !in s.pushes {
        Begun(s, a.msg, c, hasty);
      }
    } else if a.Receive? {
      OtherReader(s, a.c, c);
      LeftAlone(s, Step(s, a), c, hasty);
    } else if a.On? || a.Off? || a.Destroy? || a.End? {
      NobodyMoves(s, a, c);
      if Leaves(s, Step(s, a), c) {
        LeftAlone(s, Step(s, a), c, hasty);
      }
    } else if a.c == c {
      OwnMove(s, a, a.p, c, hasty);
    } else {
      OtherMoves(s, a, a.p, a.c, c);
      LeftAlone(s, Step(s, a), c, hasty);
    }
  }

  lemma {:induction false} AlwaysKept(actions: seq<Action>, c: nat)
    requires forall a :: a in actions ==> Unread(a, c)
    ensures KeptIn(After(actions), c, EarlyTimeouts(actions, c))
  {
    if actions != [] {
      hide Step, KeptIn, Ordered, TimesOutEarly;
      var n := |actions| - 1;
      AlwaysKept(actions[..n], c);
      AlwaysOrdered(actions[..n]);
      assert actions[n] in actions;
      StepKeeps(After(actions[..n]), actions[n], c, EarlyTimeouts(actions[..n], c));
    }
  }

  /** With one pusher and no reader, once its pushes have ended, a channel holds the last messages without a
      gap: each timeout that found room has cost one message. So it holds as many of the last messages as
      it has room for if and only if no timeout found room, or enough messages came besides. */
  lemma LastMessagesKept(actions: seq<Action>, c: nat)
    requires forall a :: a in actions ==> Unread(a, c)
    requires c in After(actions).pipes && After(actions).pushes == map[]
    ensures var pipe, hasty := After(actions).pipes[c], EarlyTimeouts(actions, c);
      && hasty <= |pipe.pushed|
      && HoldsLast(pipe, Min(pipe.capacity, |pipe.pushed| - hasty))
      && (HoldsLast(pipe, Min(pipe.capacity, |pipe.pushed|)) <==> hasty == 0 || pipe.capacity + hasty <= |pipe.pushed|)
  {
    hide After, EarlyTimeouts, Unread, Open;
    AlwaysKept(actions, c);
    var pipe, hasty := After(actions).pipes[c], EarlyTimeouts(actions, c);
    assert Kept(pipe, None, hasty);
    KeptAtRest(pipe, hasty);
  }

  lemma KeptAtRest(pipe: Pipe, hasty: nat)
    requires Kept(pipe, None, hasty)
    ensures hasty <= |pipe.pushed| && HoldsLast(pipe, Min(pipe.capacity, |pipe.pushed| - hasty))
    ensures HoldsLast(pipe, Min(pipe.capacity, |pipe.pushed|)) <==> hasty == 0 || pipe.capacity + hasty <= |pipe.pushed|
  {
  }

  /** A timeout at an empty channel with room: the goroutine finds nothing to drop and gives its own message
      up. */
  lemma MessageGivenUp(s: State, c: nat)
    requires At(s, 0, c, Sending) && s.pipes[c].buffer == [] && 0 < s.pipes[c].capacity
    ensures TimesOutEarly(s, Timeout(0, c), c)
    ensures var s' := Step(Step(s, Timeout(0, c)), Drop(0, c));
      s'.pipes == s.pipes && 0 in s'.pushes && c !in s'.pushes[0].stages
  {
    hide CloseAll, BeginPush, TrySend, HandOver;
    assert At(Step(s, Timeout(0, c)), 0, c, Dropping);
    assert s.pipes[c := s.pipes[c]] == s.pipes;
  }

  lemma OnePushBegins()
    ensures var s := After([On(7, 2), Begin(0, 10)]);
      && At(s, 0, 7, Sending) && s.pipes[7] == Pipe(2, [], [], false, [10])
  {
    AfterOneMore([], On(7, 2));
    AfterOneMore([On(7, 2)], Begin(0, 10));
    assert [] + [On(7, 2)] == [On(7, 2)] && [On(7, 2)] + [Begin(0, 10)] == [On(7, 2), Begin(0, 10)];
  }

  /** It happens to the first message of a channel for two. */
  lemma EarlyTimeoutLoses()
    ensures var s := After([On(7, 2), Begin(0, 10)] + [Timeout(0, 7)] + [Drop(0, 7)]);
      && 7 in s.pipes && s.pipes[7] == Pipe(2, [], [], false, [10])
      && 0 in s.pushes && 7 !in s.pushes[0].stages
  {
    hide Step, After;
    var begun := [On(7, 2), Begin(0, 10)];
    AfterOneMore(begun, Timeout(0, 7));
    AfterOneMore(begun + [Timeout(0, 7)], Drop(0, 7));
    OnePushBegins();
    MessageGivenUp(After(begun), 7);
  }

  // ------------------------------------------------------------------ one pusher, no timeout: all is received

  /** The first `n` messages pushed, each once and in order, were received or are buffered. */
  ghost predicate HoldsAll(pipe: Pipe, n: int) {
    && 0 <= n <= |pipe.pushed| && |Through(pipe)| == n
    && forall i :: 0 <= i < n ==> Through(pipe)[i] == Sent(pipe.pushed[i], i)
  }

  /** Nothing is missing but the message on its way, which waits for room. */
  ghost predicate Unhurried(s: State, c: nat) {
    c in s.pipes ==>
      if 0 in s.pushes && c in s.pushes[0].stages
      then s.pushes[0].stages[c].Sending? && HoldsAll(s.pipes[c], |s.pipes[c].pushed| - 1)
      else HoldsAll(s.pipes[c], |s.pipes[c].pushed|)
  }

  lemma BeginUnhurried(s: State, msg: int, c: nat)
    requires Ordered(s) && Unhurried(s, c) && 0 !in s.pushes
    ensures Unhurried(BeginPush(s, 0, msg), c)
  {
  }

  lemma SendUnhurried(s: State, c: nat)
    requires Ordered(s) && Unhurried(s, c) && At(s, 0, c, Sending)
    ensures Unhurried(TrySend(s, 0, c, false), c) && Unhurried(HandOver(s, 0, c), c)
  {
    assert PipeOrdered(s, c) && Pending(s.pushes[0], s.pipes[c], c);
    var pipe, x := s.pipes[c], Message(s, 0, c);
    assert pipe.received + (pipe.buffer + [x]) == Through(pipe) + [x];
    assert pipe.buffer == [] ==> pipe.received + [x] + pipe.buffer == Through(pipe) + [x];
  }

  lemma ReadUnhurried(s: State, c: nat)
    requires Unhurried(s, c)
    ensures Unhurried(Step(s, Receive(c)), c)
  {
    if c in s.pipes && s.pipes[c].buffer != [] {
      var pipe := s.pipes[c];
      assert (pipe.received + [pipe.buffer[0]]) + pipe.buffer[1..] == Through(pipe);
    }
  }

  lemma LeftUnhurried(s: State, s': State, c: nat)
    requires Unhurried(s, c) && Leaves(s, s', c)
    ensures Unhurried(s', c)
  {
  }

  lemma OwnUnhurried(s: State, a: Action, p: nat, c: nat)
    requires Ordered(s) && Unhurried(s, c) && Moves(a, p, c) && !a.Timeout?
    ensures Unhurried(Step(s, a), c)
  {
    hide HoldsAll, PipeOrdered, Open, TrySend, HandOver;
    if At(s, p, c, Sending) && (a.Send? || a.Handover?) {
      SendUnhurried(s, c);
    }
  }

  lemma NewUnhurried(capacity: nat)
    ensures HoldsAll(Pipe(capacity, [], [], false, []), 0)
  {
  }

  lemma StepUnhurried(s: State, a: Action, c: nat)
    requires Ordered(s) && Unhurried(s, c) && (a.Begin? ==> a.p == 0) && !(a.Timeout? && a.c == c)
    ensures Unhurried(Step(s, a), c)
  {
    hide Ordered, HoldsAll, Leaves, At;
    if a.Begin? {
      if 0 !in s.pushes {
        BeginUnhurried(s, a.msg, c);
      }
    } else if a.Receive? {
      if a.c == c {
        ReadUnhurried(s, c);
      } else {
        OtherReader(s, a.c, c);
        LeftUnhurried(s, Step(s, a), c);
      }
    } else if a.On? || a.Off? || a.Destroy? || a.End? {
      NobodyMoves(s, a, c);
      if Leaves(s, Step(s, a), c) {
        LeftUnhurried(s, Step(s, a), c);
      } else {
        NewUnhurried(a.capacity);
      }
    } else if a.c == c {
      OwnUnhurried(s, a, a.p, c);
    } else {
      OtherMoves(s, a, a.p, a.c, c);
      LeftUnhurried(s, Step(s, a), c);
    }
  }

  lemma {:induction false} AlwaysUnhurried(actions: seq<Action>, c: nat)
    requires forall a :: a in actions ==> (a.Begin? ==> a.p == 0) && !(a.Timeout? && a.c == c)
    ensures Unhurried(After(actions), c)
  {
    if actions != [] {
      hide Step, Unhurried, Ordered;
      var n := |actions| - 1;
      AlwaysUnhurried(actions[..n], c);
      AlwaysOrdered(actions[..n]);
      assert actions[n] in actions;
      StepUnhurried(After(actions[..n]), actions[n], c);
    }
  }

  /** With one pusher that never times out on `c`, every message is received or buffered once its push has
      ended, in order. */
  lemma NothingDropped(actions: seq<Action>, c: nat)
    requires forall a :: a in actions ==> (a.Begin? ==> a.p == 0) && !(a.Timeout? && a.c == c)
    requires c in After(actions).pipes && After(actions).pushes == map[]
    ensures var pipe := After(actions).pipes[c];
      |Through(pipe)| == |pipe.pushed| && forall i :: 0 <= i < |pipe.pushed| ==> Through(pipe)[i].msg == pipe.pushed[i]
  {
    AlwaysUnhurried(actions, c);
  }

  // ------------------------------------------------------------------ two pushers

  /** One pusher is needed: whenever two pushes are on their way to a channel with room for both, the
      later one can get in first. */
  lemma TwoPushersReorder(s: State, p: nat, q: nat, c: nat)
    requires p != q && At(s, p, c, Sending) && At(s, q, c, Sending) && !s.pipes[c].closed
    requires s.pushes[p].places[c] < s.pushes[q].places[c] && |s.pipes[c].buffer| + 1 < s.pipes[c].capacity
    ensures var s' := Step(Step(s, Send(q, c)), Send(p, c));
      c in s'.pipes && !InOrder(Through(s'.pipes[c]), s'.pipes[c].pushed)
  {
    var pipe := s.pipes[c];
    var s1 := Step(s, Send(q, c));
    assert At(s1, p, c, Sending);
    var t := Through(Step(s1, Send(p, c)).pipes[c]);
    assert t == Through(pipe) + [Message(s, q, c), Message(s, p, c)];
    var n := |Through(pipe)|;
    assert t[n] == Message(s, q, c) && t[n + 1] == Message(s, p, c);
  }

  lemma AfterOneMore(actions: seq<Action>, a: Action)
    ensures After(actions + [a]) == Step(After(actions), a)
  {
    assert (actions + [a])[..|actions|] == actions;
  }

  /** Two pushes begin on a channel for two messages. */
  lemma TwoPushersMeet()
    ensures var s := After([On(7, 2), Begin(0, 10), Begin(1, 20)]);
      && At(s, 0, 7, Sending) && At(s, 1, 7, Sending) && !s.pipes[7].closed && s.pipes[7].buffer == []
      && s.pushes[0].places[7] < s.pushes[1].places[7] && s.pipes[7].capacity == 2
  {
    AfterOneMore([], On(7, 2));
    AfterOneMore([On(7, 2)], Begin(0, 10));
    AfterOneMore([On(7, 2), Begin(0, 10)], Begin(1, 20));
    assert [] + [On(7, 2)] == [On(7, 2)];
    assert [On(7, 2)] + [Begin(0, 10)] == [On(7, 2), Begin(0, 10)];
    assert [On(7, 2), Begin(0, 10)] + [Begin(1, 20)] == [On(7, 2), Begin(0, 10), Begin(1, 20)];
  }

  /** It happens: 10 is pushed before 20 and is after it in the channel. */
  lemma PushesReorder()
    ensures var s := After([On(7, 2), Begin(0, 10), Begin(1, 20)] + [Send(1, 7)] + [Send(0, 7)]);
      7 in s.pipes && !InOrder(Through(s.pipes[7]), s.pipes[7].pushed)
  {
    var begun := [On(7, 2), Begin(0, 10), Begin(1, 20)];
    TwoPushersMeet();
    TwoPushersReorder(After(begun), 0, 1, 7);
    AfterOneMore(begun, Send(1, 7));
    AfterOneMore(begun + [Send(1, 7)], Send(0, 7));
  }
}
