/**
 * Position estimation and the outbound/inbound decision logic of one
 * Easywave window cover, as pure functions.
 *
 * Positions are integers, 0 = fully closed and 100 = fully open.
 * Travel times are exact reals (seconds); `timeUp` and `timeDown` are the
 * two full-travel durations read from the cover's configuration.
 * The class `Covers.Cover` is proved against these definitions.
 */
module Motion {

  datatype Option<T> = None | Some(value: T)

  /** The three Easywave commands a cover sends or receives. */
  datatype Command = Close | Open | Stop

  /** Wire code of a command: 'A' closes, 'B' opens, 'C' stops. */
  function Code(cmd: Command): char
  {
    match cmd
    case Close => 'A'
    case Open => 'B'
    case Stop => 'C'
  }

  predicate InRange(p: int)
  {
    0 <= p <= 100
  }

  predicate AllInRange(ps: seq<int>)
  {
    forall i :: 0 <= i < |ps| ==> InRange(ps[i])
  }

  // ---------------------------------------------------------------------
  // Travel times
  // ---------------------------------------------------------------------

  /**
   * Time the motor runs to go from `from` to `to`: opening is timed with
   * `timeDown`, closing (or standing still) with `timeUp`. This is the
   * formula the inbound path uses for its wait.
   */
  function TravelTime(from: int, to: int, timeUp: real, timeDown: real): real
  {
    if to > from then (to - from) as real / 100.0 * timeDown
    else (from - to) as real / 100.0 * timeUp
  }

  /**
   * The travel time is never negative, and going back the other way takes
   * the same time once the two durations are swapped with the direction.
   */
  lemma TravelTimeNonNegativeAndSymmetric(from: int, to: int, timeUp: real, timeDown: real)
    requires timeUp >= 0.0 && timeDown >= 0.0
    ensures TravelTime(from, to, timeUp, timeDown) >= 0.0
    ensures TravelTime(from, to, timeUp, timeDown) == TravelTime(to, from, timeDown, timeUp)
  {
  }

  // ---------------------------------------------------------------------
  // Outbound path: the decision taken on a requested target
  // ---------------------------------------------------------------------

  /** Outcome of the movement-significance test of an outbound request. */
  datatype Plan = TooSmall | Move(cmd: Command, travel: real)

  /**
   * A request is ignored when it is within 10 of the current position
   * (bounds included) and is not one of the two end stops.
   */
  predicate IsSmallMove(value: int, current: int)
  {
    current - 10 <= value <= current + 10 && value != 0 && value != 100
  }

  /** Which command an outbound request sends, and for how long the motor runs. */
  function PlanMove(value: int, current: int, timeUp: real, timeDown: real): (p: Plan)
    ensures p.TooSmall? <==> IsSmallMove(value, current)
    ensures p.Move? ==> p.cmd != Stop
    ensures p.Move? ==> (p.cmd == Close <==> value == 0 || value < current - 10)
    ensures p.Move? && InRange(value) && InRange(current) ==>
              p.travel == TravelTime(current, value, timeUp, timeDown)
    ensures p.Move? && InRange(value) && InRange(current) && timeUp >= 0.0 && timeDown >= 0.0 ==>
              p.travel >= 0.0
  {
    if value < current - 10 || value == 0 then
      var travel := (current - value) as real / 100.0 * timeUp;
      assert InRange(value) && InRange(current) ==> travel == TravelTime(current, value, timeUp, timeDown);
      assert InRange(value) && InRange(current) && timeUp >= 0.0 && timeDown >= 0.0 ==> travel >= 0.0 by {
        if InRange(value) && InRange(current) && timeUp >= 0.0 && timeDown >= 0.0 {
          TravelTimeNonNegativeAndSymmetric(current, value, timeUp, timeDown);
        }
      }
      Move(Close, travel)
    else if value > current + 10 || value == 100 then
      var travel := (value - current) as real / 100.0 * timeDown;
      assert InRange(current) && value == current ==> (value - current) as real / 100.0 == 0.0;
      assert InRange(value) && InRange(current) ==> travel == TravelTime(current, value, timeUp, timeDown);
      assert InRange(value) && InRange(current) && timeUp >= 0.0 && timeDown >= 0.0 ==> travel >= 0.0 by {
        if InRange(value) && InRange(current) && timeUp >= 0.0 && timeDown >= 0.0 {
          TravelTimeNonNegativeAndSymmetric(current, value, timeUp, timeDown);
        }
      }
      Move(Open, travel)
    else
      TooSmall
  }

  /**
   * Extra wait of one reconciliation step from `from` to `to`, timed in the
   * direction of the command already running: `timeUp` for a close,
   * `timeDown` otherwise. It is negative when the target moved backwards;
   * a negative wait returns at once.
   */
  function ExtraTravel(cmd: Command, from: int, to: int, timeUp: real, timeDown: real): real
  {
    if cmd == Close then (from - to) as real / 100.0 * timeUp
    else (to - from) as real / 100.0 * timeDown
  }

  /** Where the reconciliation loop settles, and the extra waits it made. */
  datatype Settlement = Settlement(value: int, waits: seq<real>)

  /**
   * The target characteristic as read at the i-th check of the
   * reconciliation loop: `target` first, then the values of `later`.
   */
  function Sample(target: int, later: seq<int>, i: nat): int
    requires i <= |later|
  {
    if i == 0 then target else later[i - 1]
  }

  /** The position the cover is heading for at the i-th check: `value` first, then each sample read before. */
  function Heading(value: int, target: int, later: seq<int>, i: nat): int
    requires i <= |later| + 1
  {
    if i == 0 then value else Sample(target, later, i - 1)
  }

  /** Dropping the first sample shifts samples and headings by one check. */
  lemma ShiftCheck(value: int, target: int, later: seq<int>, i: nat)
    requires later != [] && i <= |later|
    ensures i < |later| ==> Sample(later[0], later[1..], i) == Sample(target, later, i + 1)
    ensures Heading(target, later[0], later[1..], i) == Heading(value, target, later, i + 1)
  {
  }

  /** At check `i` the target had moved away from the heading, and the loop waited the extra travel to it. */
  predicate CheckMoved(value: int, target: int, later: seq<int>, cmd: Command, timeUp: real, timeDown: real,
                       waits: seq<real>, i: nat)
    requires i < |waits| <= |later| + 1
  {
    Sample(target, later, i) != Heading(value, target, later, i) &&
    waits[i] == ExtraTravel(cmd, Heading(value, target, later, i), Sample(target, later, i), timeUp, timeDown)
  }

  predicate ChecksBeforeMoved(value: int, target: int, later: seq<int>, cmd: Command, timeUp: real, timeDown: real,
                              waits: seq<real>)
  {
    |waits| <= |later| + 1 &&
    forall i :: 0 <= i < |waits| ==> CheckMoved(value, target, later, cmd, timeUp, timeDown, waits, i)
  }

  /**
   * The reconciliation loop. `value` is the position the cover is heading
   * for, `target` the target characteristic as sampled now, `later` the
   * values the accessory layer leaves in the target at the end of each
   * further wait (after the last of them the target is left alone).
   * The loop stops at the first check whose sample equals the heading;
   * before that, every check makes an extra wait, timed in the direction of
   * `cmd` from the heading to the sample, and makes the sample the heading.
   */
  function Settle(value: int, target: int, later: seq<int>, cmd: Command, timeUp: real, timeDown: real): (s: Settlement)
    ensures s.value == target || s.value in later
    ensures value == target ==> s.value == value && s.waits == []
    ensures |s.waits| <= |later| + 1
    decreases |later|, if value == target then 0 else 1
  {
    if value == target then Settlement(value, [])
    else
      var next := if later == [] then target else later[0];
      var rest := if later == [] then [] else later[1..];
      var s := Settle(target, next, rest, cmd, timeUp, timeDown);
      Settlement(s.value, [ExtraTravel(cmd, value, target, timeUp, timeDown)] + s.waits)
  }

  /**
   * What the reconciliation loop does, check by check: every check before
   * the last finds the target moved away from the heading and waits the
   * extra travel from the heading to it in the direction of `cmd`; the loop
   * settles on the heading of the first check that finds the target equal
   * to it (once the samples run out the target no longer moves, so at most
   * one check more).
   */
  lemma {:induction false} SettleStopsAtFirstUnchangedCheck(value: int, target: int, later: seq<int>, cmd: Command,
                                                            timeUp: real, timeDown: real)
    ensures |Settle(value, target, later, cmd, timeUp, timeDown).waits| <= |later| + 1
    ensures ChecksBeforeMoved(value, target, later, cmd, timeUp, timeDown,
                              Settle(value, target, later, cmd, timeUp, timeDown).waits)
    ensures var s := Settle(value, target, later, cmd, timeUp, timeDown);
            s.value == Heading(value, target, later, |s.waits|) &&
            (|s.waits| <= |later| ==> Sample(target, later, |s.waits|) == s.value)
    decreases |later|, if value == target then 0 else 1
  {
    if value != target {
      var next := if later == [] then target else later[0];
      var rest := if later == [] then [] else later[1..];
      SettleStopsAtFirstUnchangedCheck(target, next, rest, cmd, timeUp, timeDown);
      var s := Settle(value, target, later, cmd, timeUp, timeDown);
      var s' := Settle(target, next, rest, cmd, timeUp, timeDown);
      assert s.waits == [ExtraTravel(cmd, value, target, timeUp, timeDown)] + s'.waits;
      if later == [] {
        assert s'.waits == [];
      } else {
        forall i | 0 < i < |s.waits|
          ensures CheckMoved(value, target, later, cmd, timeUp, timeDown, s.waits, i)
        {
          assert CheckMoved(target, next, rest, cmd, timeUp, timeDown, s'.waits, i - 1);
          ShiftCheck(value, target, later, i - 1);
        }
        assert CheckMoved(value, target, later, cmd, timeUp, timeDown, s.waits, 0);
        ShiftCheck(value, target, later, |s'.waits|);
      }
    }
  }

  /** Total of a sequence of waits. */
  function Sum(xs: seq<real>): real
  {
    if xs == [] then 0.0 else xs[0] + Sum(xs[1..])
  }

  /** Two consecutive extra waits in the same direction add up to the wait over the whole distance. */
  lemma ExtraTravelAdds(cmd: Command, a: int, b: int, c: int, timeUp: real, timeDown: real)
    ensures ExtraTravel(cmd, a, b, timeUp, timeDown) + ExtraTravel(cmd, b, c, timeUp, timeDown) ==
            ExtraTravel(cmd, a, c, timeUp, timeDown)
  {
  }

  /**
   * The extra waits of the reconciliation loop add up to the wait from the
   * original heading straight to the settled position.
   */
  lemma {:induction false} SettleWaitsAddUp(value: int, target: int, later: seq<int>, cmd: Command, timeUp: real, timeDown: real)
    ensures Sum(Settle(value, target, later, cmd, timeUp, timeDown).waits) ==
            ExtraTravel(cmd, value, Settle(value, target, later, cmd, timeUp, timeDown).value, timeUp, timeDown)
    decreases |later|, if value == target then 0 else 1
  {
    var s := Settle(value, target, later, cmd, timeUp, timeDown);
    if value == target {
      assert ExtraTravel(cmd, value, value, timeUp, timeDown) == 0.0;
    } else {
      var next := if later == [] then target else later[0];
      var rest := if later == [] then [] else later[1..];
      var s' := Settle(target, next, rest, cmd, timeUp, timeDown);
      SettleWaitsAddUp(target, next, rest, cmd, timeUp, timeDown);
      assert s.waits[1..] == s'.waits;
      ExtraTravelAdds(cmd, value, target, s.value, timeUp, timeDown);
    }
  }

  /** True when every sample differs from the one before it (the first from `target`). */
  predicate ChangesEachWait(target: int, later: seq<int>)
  {
    (later != [] ==> later[0] != target) &&
    forall i :: 0 < i < |later| ==> later[i - 1] != later[i]
  }

  function LastSample(target: int, later: seq<int>): int
  {
    if later == [] then target else later[|later| - 1]
  }

  /**
   * Once the target has moved away from the heading, a target that keeps
   * changing at every wait is followed to its last value, one extra wait per
   * change.
   */
  lemma {:induction false} SettleFollowsEveryChange(value: int, target: int, later: seq<int>, cmd: Command, timeUp: real, timeDown: real)
    requires value != target
    requires ChangesEachWait(target, later)
    ensures Settle(value, target, later, cmd, timeUp, timeDown).value == LastSample(target, later)
    ensures |Settle(value, target, later, cmd, timeUp, timeDown).waits| == |later| + 1
    decreases |later|
  {
    if later == [] {
      assert Settle(target, target, [], cmd, timeUp, timeDown).waits == [];
    } else {
      assert ChangesEachWait(later[0], later[1..]) by {
        if |later| > 1 {
          assert later[1] != later[0];
        }
        forall i | 0 < i < |later[1..]|
          ensures later[1..][i - 1] != later[1..][i]
        {
          assert later[1..][i - 1] == later[i] && later[1..][i] == later[i + 1];
        }
      }
      SettleFollowsEveryChange(target, later[0], later[1..], cmd, timeUp, timeDown);
      assert LastSample(later[0], later[1..]) == LastSample(target, later);
    }
  }

  /** A settled position near an end stop is driven to that end stop without a stop command. */
  predicate NeedsStop(settled: int)
  {
    5 <= settled <= 95
  }

  /**
   * Final position of an outbound move that was not a full-travel request.
   * A stop that is not acknowledged leaves the cover running, so it is
   * assumed to reach the end stop it was heading for, judged against the
   * position at the start of the request.
   */
  function EndOfTravel(settled: int, start: int, stopAck: bool): int
  {
    if settled < 5 then 0
    else if settled > 95 then 100
    else if stopAck then settled
    else if settled < start then 0
    else 100
  }

  /** The target read when the travel wait ends: the first write, if any. */
  function Sampled(target: int, writes: seq<int>): int
  {
    if writes == [] then target else writes[0]
  }

  /** The targets left at the end of each reconciliation wait. */
  function Later(writes: seq<int>): seq<int>
  {
    if writes == [] then [] else writes[1..]
  }

  /** Observable result of one outbound request. */
  datatype Outcome = Outcome(current: int, target: int, sent: seq<Command>, waits: seq<real>)

  /**
   * The whole outbound path for a request `value` on a cover at `current`
   * whose target characteristic holds `target`. `moveAck` and `stopAck`
   * are the device's acknowledgements; `writes[0]` is the target at the end
   * of the travel wait and `writes[1..]` its values at the end of each
   * reconciliation wait. `sent` lists the commands sent, `waits` the waits.
   */
  function Dispatch(value: int, current: int, target: int, timeUp: real, timeDown: real,
                    moveAck: bool, writes: seq<int>, stopAck: bool): (o: Outcome)
    // rejected small move: no device contact, target snapped back
    ensures IsSmallMove(value, current) ==> o == Outcome(current, current, [], [])
    // direction of the move command
    ensures !IsSmallMove(value, current) ==>
              |o.sent| >= 1 && o.sent[0] == (if value == 0 || value < current - 10 then Close else Open)
    // unacknowledged move: target reverted, nothing else sent, no wait
    ensures !moveAck ==> o.current == current && o.target == current && |o.sent| <= 1 && o.waits == []
    // full-travel requests are never reconciled nor stopped
    ensures moveAck && (value == 0 || value == 100) ==>
              o.current == value && Stop !in o.sent && |o.waits| == 1 && o.sent == [o.sent[0]] &&
              o.target == Sampled(target, writes)
    // an acknowledged move first waits the travel time to the request
    ensures moveAck && !IsSmallMove(value, current) && InRange(value) && InRange(current) ==>
              o.waits != [] && o.waits[0] == TravelTime(current, value, timeUp, timeDown)
    // end of travel, by the position the reconciliation loop settles on
    ensures moveAck && !IsSmallMove(value, current) && value != 0 && value != 100 ==>
              var cmd := o.sent[0];
              var s := Settle(value, Sampled(target, writes), Later(writes), cmd, timeUp, timeDown);
              |o.waits| >= 1 && o.waits[1..] == s.waits &&
              (s.value < 5 ==> o.current == 0 && o.target == 0 && o.sent == [cmd]) &&
              (s.value > 95 ==> o.current == 100 && o.target == 100 && o.sent == [cmd]) &&
              (NeedsStop(s.value) ==> o.sent == [cmd, Stop] && o.current == o.target &&
                                      o.current == (if stopAck then s.value else if s.value < current then 0 else 100))
    // any other acknowledged move ends with current and target agreeing,
    // either at an end stop or at a mid position that was stopped successfully
    ensures moveAck && !IsSmallMove(value, current) && value != 0 && value != 100 ==>
              o.current == o.target &&
              (o.current == 0 || o.current == 100 || (NeedsStop(o.current) && stopAck && Stop in o.sent))
    // at most one stop, always last
    ensures Stop in o.sent ==> |o.sent| == 2 && o.sent[1] == Stop && o.sent[0] != Stop
    // positions stay within 0..100 when every input position does
    ensures InRange(current) && InRange(value) && InRange(target) && AllInRange(writes) ==>
              InRange(o.current) && InRange(o.target)
  {
    match PlanMove(value, current, timeUp, timeDown)
    case TooSmall => Outcome(current, current, [], [])
    case Move(cmd, travel) =>
      if !moveAck then Outcome(current, current, [cmd], [])
      else
        if value == 100 || value == 0 then Outcome(value, Sampled(target, writes), [cmd], [travel])
        else
          var s := Settle(value, Sampled(target, writes), Later(writes), cmd, timeUp, timeDown);
          var final := EndOfTravel(s.value, current, stopAck);
          Outcome(final, final, [cmd] + (if NeedsStop(s.value) then [Stop] else []), [travel] + s.waits)
  }

  /**
   * Reconciliation law: when the target is changed at every wait during an
   * acknowledged mid-range move, the cover ends at the last requested
   * target (unless that is within 5 of an end stop), and stops there.
   */
  lemma {:induction false} RetargetConverges(value: int, current: int, target: int, timeUp: real, timeDown: real,
                                             writes: seq<int>)
    requires !IsSmallMove(value, current) && value != 0 && value != 100
    requires writes != [] && ChangesEachWait(value, writes)
    requires NeedsStop(writes[|writes| - 1])
    ensures Dispatch(value, current, target, timeUp, timeDown, true, writes, true).current == writes[|writes| - 1]
    ensures Dispatch(value, current, target, timeUp, timeDown, true, writes, true).sent[1] == Stop
  {
    var cmd := PlanMove(value, current, timeUp, timeDown).cmd;
    assert ChangesEachWait(writes[0], writes[1..]) by {
      if |writes| > 1 {
        assert writes[1] != writes[0];
      }
      forall i | 0 < i < |writes[1..]|
        ensures writes[1..][i - 1] != writes[1..][i]
      {
        assert writes[1..][i - 1] == writes[i] && writes[1..][i] == writes[i + 1];
      }
    }
    SettleFollowsEveryChange(value, writes[0], writes[1..], cmd, timeUp, timeDown);
    assert LastSample(writes[0], writes[1..]) == writes[|writes| - 1];
  }

  /**
   * Stop failure: when the stop command is not acknowledged, the cover is
   * taken to have run to the end stop on the far side of the settled
   * position from the start position, whatever retargeting happened.
   */
  lemma StopNotAcknowledged(value: int, current: int, target: int, timeUp: real, timeDown: real, writes: seq<int>)
    requires !IsSmallMove(value, current) && value != 0 && value != 100
    ensures var o := Dispatch(value, current, target, timeUp, timeDown, true, writes, false);
            var s := Settle(value, Sampled(target, writes), Later(writes), o.sent[0], timeUp, timeDown);
            NeedsStop(s.value) ==>
              o.sent[1] == Stop && o.current == o.target && o.current == (if s.value < current then 0 else 100)
  {
  }

  /**
   * For an acknowledged mid-range move, the sleep arguments add up to the
   * travel time over the net distance from the start position to the settled
   * position, timed in the direction of the command sent. A negative extra
   * wait returns at once, so this is not the time the motor ran.
   */
  lemma OutboundRunTime(value: int, current: int, target: int, timeUp: real, timeDown: real,
                        writes: seq<int>, stopAck: bool)
    requires !IsSmallMove(value, current) && value != 0 && value != 100
    ensures var o := Dispatch(value, current, target, timeUp, timeDown, true, writes, stopAck);
            var s := Settle(value, Sampled(target, writes), Later(writes), o.sent[0], timeUp, timeDown);
            Sum(o.waits) == ExtraTravel(o.sent[0], current, s.value, timeUp, timeDown)
  {
    var o := Dispatch(value, current, target, timeUp, timeDown, true, writes, stopAck);
    var cmd := o.sent[0];
    var s := Settle(value, Sampled(target, writes), Later(writes), cmd, timeUp, timeDown);
    SettleWaitsAddUp(value, Sampled(target, writes), Later(writes), cmd, timeUp, timeDown);
    assert o.waits[0] == ExtraTravel(cmd, current, value, timeUp, timeDown);
    assert o.waits[1..] == s.waits;
    ExtraTravelAdds(cmd, current, value, s.value, timeUp, timeDown);
  }

  /**
   * Idempotence: on an idle cover, with the device acknowledging every
   * command and the target left alone, a second identical request leaves
   * the position where the first one put it.
   */
  lemma RepeatedRequestIdempotent(value: int, current: int, timeUp: real, timeDown: real)
    requires InRange(value) && InRange(current)
    ensures var first := Dispatch(value, current, value, timeUp, timeDown, true, [], true);
            Dispatch(value, first.current, value, timeUp, timeDown, true, [], true).current == first.current
  {
  }

  /**
   * A cover at 50 with 20 s full-travel times asked to open fully sends one
   * open command, waits 10 s and ends at 100 without a stop command.
   */
  lemma FullOpenScenario()
    ensures Dispatch(100, 50, 100, 20.0, 20.0, true, [], true) == Outcome(100, 100, [Open], [10.0])
  {
  }

  // ---------------------------------------------------------------------
  // Inbound path: a command received from a remote
  // ---------------------------------------------------------------------

  /** Target scheduled by a received command: 'A' closes, 'B' opens, anything else schedules nothing. */
  function InboundTarget(command: string): (r: Option<int>)
    ensures r.Some? <==> command == [Code(Close)] || command == [Code(Open)]
    ensures command == [Code(Close)] ==> r == Some(0)
    ensures command == [Code(Open)] ==> r == Some(100)
  {
    if command == "A" then Some(0)
    else if command == "B" then Some(100)
    else None
  }

  /**
   * A full-travel command sent by the outbound path, when received back on
   * the inbound path, targets the same end stop that was requested.
   */
  lemma EchoTargetsSameEndpoint(value: int, current: int, timeUp: real, timeDown: real)
    requires value == 0 || value == 100
    requires InRange(current)
    ensures PlanMove(value, current, timeUp, timeDown).Move?
    ensures InboundTarget([Code(PlanMove(value, current, timeUp, timeDown).cmd)]) == Some(value)
  {
  }

  /** Conversion of a real to an integer by truncation toward zero. */
  function Trunc(x: real): (n: int)
    ensures 0.0 <= x ==> n as real <= x < n as real + 1.0
    ensures x < 0.0 ==> n as real - 1.0 < x <= n as real
  {
    if x >= 0.0 then x.Floor else -((-x).Floor)
  }

  lemma TruncBetween(x: real, lo: int, hi: int)
    requires lo as real <= x <= hi as real
    ensures lo <= Trunc(x) <= hi
  {
  }

  /**
   * Position at which an inbound move is stopped after `elapsed` seconds,
   * as the code computes it: an opening move is scaled with `timeUp`, a
   * closing one with `timeDown`, nothing is clamped, and a zero duration
   * makes the division fail (None).
   */
  function StopPositionAsWritten(value: int, start: int, elapsed: real, timeUp: real, timeDown: real): (r: Option<int>)
    ensures r.None? <==> (if value > start then timeUp == 0.0 else timeDown == 0.0)
    ensures r.Some? && elapsed >= 0.0 && timeUp > 0.0 && timeDown > 0.0 ==> (if value > start then r.value >= start else r.value <= start)
  {
    if value > start then
      if timeUp == 0.0 then None else Some(Trunc(elapsed / timeUp * 100.0 + start as real))
    else
      if timeDown == 0.0 then None else Some(Trunc(start as real - elapsed / timeDown * 100.0))
  }

  /**
   * The same interpolation scaled with the duration the wait itself was
   * computed with (`TravelTime`): `timeDown` when opening, `timeUp` when
   * closing.
   */
  function StopPosition(value: int, start: int, elapsed: real, timeUp: real, timeDown: real): Option<int>
  {
    if value > start then
      if timeDown == 0.0 then None else Some(Trunc(elapsed / timeDown * 100.0 + start as real))
    else
      if timeUp == 0.0 then None else Some(Trunc(start as real - elapsed / timeUp * 100.0))
  }

  /**
   * A stop received before the wait ran out leaves the cover between its
   * start position and the target of the move.
   */
  lemma StopPositionOnPath(value: int, start: int, elapsed: real, timeUp: real, timeDown: real)
    requires timeUp > 0.0 && timeDown > 0.0
    requires 0.0 <= elapsed <= TravelTime(start, value, timeUp, timeDown)
    ensures StopPosition(value, start, elapsed, timeUp, timeDown).Some?
    ensures var p := StopPosition(value, start, elapsed, timeUp, timeDown).value;
            if value > start then start <= p <= value else value <= p <= start
  {
    if value > start {
      var d := (value - start) as real;
      var x := elapsed / timeDown * 100.0;
      assert elapsed <= d / 100.0 * timeDown;
      assert x <= d by {
        assert elapsed / timeDown <= (d / 100.0 * timeDown) / timeDown;
        assert (d / 100.0 * timeDown) / timeDown == d / 100.0;
      }
      assert 0.0 <= x;
      TruncBetween(x + start as real, start, value);
    } else {
      var d := (start - value) as real;
      var x := elapsed / timeUp * 100.0;
      assert elapsed <= d / 100.0 * timeUp;
      assert x <= d by {
        assert elapsed / timeUp <= (d / 100.0 * timeUp) / timeUp;
        assert (d / 100.0 * timeUp) / timeUp == d / 100.0;
      }
      assert 0.0 <= x;
      TruncBetween(start as real - x, value, start);
    }
  }

  /** Opening from 0 with 20 s durations, stopped after 5 s: the cover is at 25. */
  lemma InboundStopScenario()
    ensures TravelTime(0, 100, 20.0, 20.0) == 20.0
    ensures StopPositionAsWritten(100, 0, 5.0, 20.0, 20.0) == Some(25)
  {
    assert Trunc(25.0) == 25;
  }

  /** With equal full-travel durations the code's interpolation is the intended one. */
  lemma AsWrittenAgreesWhenSymmetric(value: int, start: int, elapsed: real, time: real)
    ensures StopPositionAsWritten(value, start, elapsed, time, time) == StopPosition(value, start, elapsed, time, time)
  {
  }

  /**
   * With unequal durations the code's interpolation leaves 0..100: opening
   * from 0 with timeUp = 20 s and timeDown = 40 s waits 40 s, and a stop
   * after 30 s sets the position to 150.
   */
  lemma AsWrittenOvershoots()
    ensures 30.0 <= TravelTime(0, 100, 20.0, 40.0)
    ensures StopPositionAsWritten(100, 0, 30.0, 20.0, 40.0) == Some(150)
    ensures StopPosition(100, 0, 30.0, 20.0, 40.0) == Some(75)
  {
    assert Trunc(150.0) == 150;
    assert Trunc(75.0) == 75;
  }
}
