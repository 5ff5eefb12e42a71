/** What writes through a quota handle do to the counter, the accounted size and the position: the
    arithmetic alone, over whole sequences of calls. */
module HandleLedger {
  import opened Int64
  import opened FileTree

  /** What the disk does with one write: how many bytes it takes, and whether it reports an error
      although it took all of them. */
  datatype DiskWrite = DiskWrite(accepted: nat, fails: bool)

  datatype Call =
    | Sequential(p: Bytes, w: DiskWrite, seeks: bool)
    | Positional(p: Bytes, off: int64, w: DiskWrite)

  datatype HandleState = HandleState(usage: int, size: int, pos: int)

  /** A state a handle can be in. */
  ghost predicate Possible(s: HandleState) {
    0 <= s.usage <= MAX_INT64 && 0 <= s.size <= MAX_INT64 && 0 <= s.pos <= MAX_INT64
  }

  /** The space check, on true sums. */
  predicate HasSpace(limit: int64, usage: int, growth: int) {
    limit != -1 && (limit == 0 || growth <= 0 || usage + growth <= limit as int)
  }

  /** Whether a write of `len` bytes at `off` gets past the end check and the reservation. */
  predicate Reserves(limit: int64, usage: int, size: int, off: int, len: nat) {
    off + len <= MAX_INT64 && (off + len > size ==> HasSpace(limit, usage, off + len - size))
  }

  /** The reservation does not saturate the counter. */
  predicate FitsCounter(usage: int, size: int, off: int, len: nat) {
    off + len > size ==> usage + (off + len - size) <= MAX_INT64
  }

  /** The accounted size after `n` bytes were written at `off`. */
  function GrownTo(size: int, off: int, n: nat): int {
    if n > 0 then Max(size, off + n) else size
  }

  /** What a saturating reservation cuts off: the refund takes it from the counter for good. */
  function Lost(usage: int, size: int, off: int, len: nat): nat {
    if FitsCounter(usage, size, off, len) then 0 else usage + (off + len - size) - MAX_INT64
  }

  /** A write of `len` bytes at `off` of which the disk would accept `accepted`: the new counter, the
      new accounted size, and the bytes written. */
  function AfterWrite(limit: int64, usage: int, size: int, off: int, len: nat, accepted: nat): (int, int, nat) {
    if off < 0 || len == 0 || !Reserves(limit, usage, size, off, len) then (usage, size, 0)
    else
      var n := Min(len, accepted);
      (usage + (GrownTo(size, off, n) - size) - Lost(usage, size, off, len), GrownTo(size, off, n), n)
  }

  function OffsetOf(s: HandleState, c: Call): int {
    if c.Sequential? then s.pos else c.off as int
  }

  function AfterCall(limit: int64, s: HandleState, c: Call): HandleState {
    if c.Sequential? && !c.seeks then s
    else
      var (usage, size, n) := AfterWrite(limit, s.usage, s.size, OffsetOf(s, c), |c.p|, c.w.accepted);
      HandleState(usage, size, if c.Sequential? then s.pos + n else s.pos)
  }

  /** The number of bytes one call writes. */
  function WrittenBy(limit: int64, s: HandleState, c: Call): (n: nat)
    ensures n <= |c.p| && (n > 0 ==> 0 <= OffsetOf(s, c))
  {
    if c.Sequential? && !c.seeks then 0
    else AfterWrite(limit, s.usage, s.size, OffsetOf(s, c), |c.p|, c.w.accepted).2
  }

  function AfterCalls(limit: int64, s: HandleState, calls: seq<Call>): HandleState {
    if calls == [] then s else AfterCall(limit, AfterCalls(limit, s, calls[..|calls| - 1]), calls[|calls| - 1])
  }

  /** What one call takes from the counter beyond the refund it owes. */
  function LostBy(limit: int64, s: HandleState, c: Call): nat {
    var off := OffsetOf(s, c);
    if (c.Sequential? && !c.seeks) || off < 0 || |c.p| == 0 || !Reserves(limit, s.usage, s.size, off, |c.p|) then 0
    else Lost(s.usage, s.size, off, |c.p|)
  }

  function TotalLost(limit: int64, s: HandleState, calls: seq<Call>): nat {
    if calls == [] then 0
    else
      var init := calls[..|calls| - 1];
      TotalLost(limit, s, init) + LostBy(limit, AfterCalls(limit, s, init), calls[|calls| - 1])
  }

  lemma CallsAppend(limit: int64, s: HandleState, calls: seq<Call>, i: nat)
    requires i < |calls|
    ensures AfterCalls(limit, s, calls[..i + 1]) == AfterCall(limit, AfterCalls(limit, s, calls[..i]), calls[i])
    ensures TotalLost(limit, s, calls[..i + 1]) ==
      TotalLost(limit, s, calls[..i]) + LostBy(limit, AfterCalls(limit, s, calls[..i]), calls[i])
  {
    assert calls[..i + 1][..i] == calls[..i];
  }

  /** One write: the counter follows the accounted size, less what a saturated reservation lost; both
      stay in range, and a positive limit is kept. */
  lemma WriteConserves(limit: int64, usage: int, size: int, off: int, len: nat, accepted: nat)
    requires 0 <= usage <= MAX_INT64 && 0 <= size <= MAX_INT64
    ensures var (usage', size', n) := AfterWrite(limit, usage, size, off, len, accepted);
      && 0 <= usage' <= MAX_INT64 && size <= size' <= MAX_INT64 && n <= len
      && (size <= usage ==> size' <= usage')
      && (usage - size >= usage' - size')
      && (0 < limit && usage <= limit as int ==> usage' <= limit as int)
      && (n > 0 ==> 0 <= off && off + n <= MAX_INT64)
  {
  }

  /** For a write that gets past the reservation, the counter moves by exactly the growth of the
      accounted size if and only if the reservation did not saturate. */
  lemma ExactIffFits(limit: int64, usage: int, size: int, off: int, len: nat, accepted: nat)
    requires 0 <= usage <= MAX_INT64 && 0 <= size <= MAX_INT64 && 0 <= off && 0 < len
    requires Reserves(limit, usage, size, off, len)
    ensures var (usage', size', _) := AfterWrite(limit, usage, size, off, len, accepted);
      usage' - usage == size' - size <==> FitsCounter(usage, size, off, len)
    ensures limit != 0 ==> FitsCounter(usage, size, off, len)
  {
  }

  /** Over any sequence of calls: the counter has moved by the growth of the accounted size, less what
      was lost; nothing is lost when the limit is enforced. */
  lemma {:induction false} CallsConserve(limit: int64, s: HandleState, calls: seq<Call>)
    requires Possible(s)
    ensures var s' := AfterCalls(limit, s, calls);
      && Possible(s') && s.size <= s'.size
      && s'.usage == s.usage + (s'.size - s.size) - TotalLost(limit, s, calls)
      && (s.size <= s.usage ==> s'.size <= s'.usage)
      && s'.usage - s'.size <= s.usage - s.size
      && (0 < limit && s.usage <= limit as int ==> s'.usage <= limit as int)
    ensures limit != 0 ==> TotalLost(limit, s, calls) == 0
  {
    if calls != [] {
      var init, c := calls[..|calls| - 1], calls[|calls| - 1];
      CallsConserve(limit, s, init);
      var m := AfterCalls(limit, s, init);
      WriteConserves(limit, m.usage, m.size, OffsetOf(m, c), |c.p|, c.w.accepted);
    }
  }

  /** What the call number `i` takes, in the state the calls before it leave. */
  function LostAt(limit: int64, s: HandleState, calls: seq<Call>, i: nat): nat
    requires i < |calls|
  {
    LostBy(limit, AfterCalls(limit, s, calls[..i]), calls[i])
  }

  /** Nothing is lost exactly when no call saturates the counter in the state it finds. */
  lemma {:induction false} NothingLostIff(limit: int64, s: HandleState, calls: seq<Call>)
    ensures TotalLost(limit, s, calls) == 0 <==> forall i :: 0 <= i < |calls| ==> LostAt(limit, s, calls, i) == 0
  {
    if calls != [] {
      var n := |calls| - 1;
      var init := calls[..n];
      NothingLostIff(limit, s, init);
      assert TotalLost(limit, s, calls) == TotalLost(limit, s, init) + LostAt(limit, s, calls, n);
      forall i | 0 <= i < n ensures LostAt(limit, s, init, i) == LostAt(limit, s, calls, i) {
        assert init[..i] == calls[..i];
      }
    }
  }

  function ByteCount(calls: seq<Call>): nat {
    if calls == [] then 0 else ByteCount(calls[..|calls| - 1]) + |calls[|calls| - 1].p|
  }

  /** A condition that can be checked before the calls: no call reaches beyond `reach`, and the counter
      has room for a file of that size. */
  ghost predicate WithinReach(s: HandleState, calls: seq<Call>, reach: nat) {
    && s.usage - s.size + reach <= MAX_INT64
    && s.pos + ByteCount(calls) <= reach
    && forall i :: 0 <= i < |calls| && calls[i].Positional? ==> calls[i].off as int + |calls[i].p| <= reach
  }

  lemma {:induction false} NothingLostWithinReach(limit: int64, s: HandleState, calls: seq<Call>, reach: nat)
    requires Possible(s) && WithinReach(s, calls, reach)
    ensures TotalLost(limit, s, calls) == 0
    ensures AfterCalls(limit, s, calls).pos <= s.pos + ByteCount(calls)
  {
    if calls != [] {
      var init, c := calls[..|calls| - 1], calls[|calls| - 1];
      assert calls == init + [c];
      assert forall i :: 0 <= i < |init| ==> init[i] == calls[i];
      NothingLostWithinReach(limit, s, init, reach);
      CallsConserve(limit, s, init);
      var m := AfterCalls(limit, s, init);
      WriteConserves(limit, m.usage, m.size, OffsetOf(m, c), |c.p|, c.w.accepted);
      assert calls[|calls| - 1] == c;
      assert OffsetOf(m, c) + |c.p| <= reach;
    }
  }

  /** An unlimited server that holds 1000 bytes, and a write of ten bytes just below the largest
      offset that the disk refuses: the reservation saturates, the refund takes all of it back, and the
      counter has lost the 1000 bytes. */
  lemma SaturatedSession()
    ensures var calls := [Positional(seq(10, _ => 0), 0x7FFF_FFFF_FFFF_FFF5, DiskWrite(0, true))];
      && AfterCalls(0, HandleState(1000, 0, 0), calls) == HandleState(0, 0, 0)
      && TotalLost(0, HandleState(1000, 0, 0), calls) == 1000
  {
    var c := Positional(seq(10, _ => 0), 0x7FFF_FFFF_FFFF_FFF5, DiskWrite(0, true));
    assert [c][..0] == [];
    assert AfterCalls(0, HandleState(1000, 0, 0), [c][..0]) == HandleState(1000, 0, 0);
  }
}
