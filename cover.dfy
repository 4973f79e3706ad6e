/**
 * One Easywave window cover: its position characteristics, the two locks
 * that serialise outbound and inbound moves, and the stop event.
 *
 * Everything the cover waits for is an explicit input: the device's
 * acknowledgements, the values left in the target characteristic at the end
 * of each wait, and whether an inbound wait ended by a stop or by timeout.
 */
module Covers {
  import opened Motion

  class Cover {
    const channelId: string
    const remoteId: string
    /** Full-travel durations in seconds, as configured. */
    const timeUp: real
    const timeDown: real

    /** The CurrentPosition characteristic. */
    var current: int
    /** The TargetPosition characteristic. */
    var target: int
    /** Held while an outbound move is dispatched. */
    var sendLock: bool
    /** Held while an inbound move is handled. */
    var handleLock: bool
    /** The stop event an inbound move waits on. */
    var stopFlag: bool

    constructor (channelId: string, remoteId: string, timeUp: real, timeDown: real, position: int)
      ensures this.channelId == channelId && this.remoteId == remoteId
      ensures this.timeUp == timeUp && this.timeDown == timeDown
      ensures current == position && target == position
      ensures !sendLock && !handleLock && !stopFlag
    {
      this.channelId := channelId;
      this.remoteId := remoteId;
      this.timeUp := timeUp;
      this.timeDown := timeDown;
      current := position;
      target := position;
      sendLock := false;
      handleLock := false;
      stopFlag := false;
    }

    /**
     * Setter of the target characteristic. The accessory layer stores the
     * requested value in the characteristic and then calls this setter, which
     * schedules an outbound move only when none is being dispatched;
     * otherwise only the dispatch is dropped and the value stays stored.
     */
    method SetTargetPosition(value: int) returns (scheduled: Option<int>)
      modifies this`target
      ensures target == value
      ensures scheduled.Some? <==> !sendLock
      ensures scheduled.Some? ==> scheduled.value == value
    {
      target := value;
      if !sendLock {
        scheduled := Some(value);
      } else {
        scheduled := None;
      }
    }

    /**
     * Outbound move to `value`: decide on a command, send it, wait for the
     * travel time, follow any change of the target characteristic, then
     * settle at an end stop or send a stop. `writes[k]` is the target
     * characteristic at the end of the k-th wait.
     */
    method DispatchSendCommand(value: int, moveAck: bool, writes: seq<int>, stopAck: bool)
      returns (sent: seq<Command>, waits: seq<real>)
      requires !sendLock
      modifies this`current, this`target, this`sendLock
      ensures !sendLock
      ensures var o := Dispatch(value, old(current), old(target), timeUp, timeDown, moveAck, writes, stopAck);
              current == o.current && target == o.target && sent == o.sent && waits == o.waits
    {
      sendLock := true;
      var start := current;
      var cmd: Command;
      var travel: real;
      if value < start - 10 || value == 0 {
        cmd := Close;
        travel := (start - value) as real / 100.0 * timeUp;
      } else if value > start + 10 || value == 100 {
        cmd := Open;
        travel := (value - start) as real / 100.0 * timeDown;
      } else {
        target := start;
        sendLock := false;
        return [], [];
      }
      assert PlanMove(value, start, timeUp, timeDown) == Move(cmd, travel);
      sent := [cmd];
      if !moveAck {
        target := start;
        sendLock := false;
        return sent, [];
      }
      waits := [travel];
      // the travel wait, during which the target may be rewritten
      if writes != [] {
        target := writes[0];
      }
      var later := if writes == [] then [] else writes[1..];
      var v := value;
      if v != 100 && v != 0 {
        var extraWaits;
        v, extraWaits := Reconcile(v, cmd, later);
        waits := waits + extraWaits;
        if v < 5 {
          v := 0;
          target := v;
        } else if v > 95 {
          v := 100;
          target := v;
        } else {
          sent := sent + [Stop];
          if !stopAck {
            if v < start {
              v := 0;
            } else {
              v := 100;
            }
            target := v;
          }
        }
      }
      current := v;
      sendLock := false;
    }

    /**
     * Following the target characteristic after the travel wait: while it
     * differs from the position the cover is heading for, head for it
     * instead and wait the extra travel time in the direction of `cmd`.
     * `later[k]` is the target characteristic at the end of the k-th extra
     * wait.
     */
    method Reconcile(value: int, cmd: Command, later: seq<int>) returns (settled: int, waits: seq<real>)
      modifies this`target
      ensures var s := Settle(value, old(target), later, cmd, timeUp, timeDown);
              settled == s.value && waits == s.waits
      ensures target == settled
    {
      settled := value;
      waits := [];
      var pending := later;
      ghost var goal := Settle(value, target, later, cmd, timeUp, timeDown);
      while settled != target
        invariant Settle(settled, target, pending, cmd, timeUp, timeDown).value == goal.value
        invariant waits + Settle(settled, target, pending, cmd, timeUp, timeDown).waits == goal.waits
        decreases |pending|, if settled == target then 0 else 1
      {
        ghost var before := Settle(settled, target, pending, cmd, timeUp, timeDown);
        ghost var waited := waits;
        var targetValue := target;
        var extra: real;
        if cmd == Close {
          extra := (settled - targetValue) as real / 100.0 * timeUp;
        } else {
          extra := (targetValue - settled) as real / 100.0 * timeDown;
        }
        assert extra == ExtraTravel(cmd, settled, targetValue, timeUp, timeDown);
        waits := waits + [extra];
        // the extra wait, during which the target may be rewritten again
        if pending != [] {
          target := pending[0];
          pending := pending[1..];
        }
        settled := targetValue;
        assert before.waits == [extra] + Settle(settled, target, pending, cmd, timeUp, timeDown).waits;
        assert waits + Settle(settled, target, pending, cmd, timeUp, timeDown).waits == waited + before.waits;
      }
      assert Settle(settled, target, pending, cmd, timeUp, timeDown).waits == [];
    }

    /**
     * A command received from the remote: 'A' and 'B' schedule an inbound
     * move to 0 or 100, 'C' raises the stop event, anything else is ignored.
     */
    method ReceiveCommand(command: string) returns (scheduled: Option<int>)
      modifies this`stopFlag
      ensures scheduled == InboundTarget(command)
      ensures stopFlag == (old(stopFlag) || command == [Code(Stop)])
    {
      if command == "A" {
        scheduled := Some(0);
      } else if command == "B" {
        scheduled := Some(100);
      } else if command == "C" {
        stopFlag := true;
        scheduled := None;
      } else {
        scheduled := None;
      }
    }

    /**
     * Inbound move to `value`. The wait for the stop event is bounded by the
     * travel time, which is returned; `stoppedAfter` is None when the wait
     * timed out and Some(t) when the stop event ended it t seconds after the
     * move began.
     */
    method AsyncDispatchCommand(value: int, stoppedAfter: Option<real>) returns (timeout: real)
      requires !handleLock
      modifies this`current, this`target, this`handleLock, this`stopFlag
      ensures !handleLock
      ensures timeout == TravelTime(old(current), value, timeUp, timeDown)
      ensures stopFlag == stoppedAfter.Some?
      ensures stoppedAfter.None? ==> current == value && target == value
      ensures stoppedAfter.Some? ==>
                match StopPositionAsWritten(value, old(current), stoppedAfter.value, timeUp, timeDown)
                case Some(p) => current == p && target == p
                case None => current == old(current) && target == value
    {
      handleLock := true;
      stopFlag := false;
      target := value;
      var start := current;
      if value > start {
        timeout := (value - start) as real / 100.0 * timeDown;
      } else {
        timeout := (start - value) as real / 100.0 * timeUp;
      }
      match stoppedAfter {
        case None =>
          current := value;
        case Some(travelled) =>
          stopFlag := true;
          var divisor := if value > start then timeUp else timeDown;
          if divisor != 0.0 {
            var position: real;
            if value > start {
              position := travelled / timeUp * 100.0 + start as real;
            } else {
              position := start as real - travelled / timeDown * 100.0;
            }
            target := Trunc(position);
            current := Trunc(position);
          }
      }
      handleLock := false;
    }
  }

  /**
   * A request from the accessory layer followed by the dispatch it schedules:
   * from 50, a request for 80 that nobody rewrites, with both commands
   * acknowledged, opens, stops and leaves the cover at 80.
   */
  method RequestThenDispatch(c: Cover) returns (sent: seq<Command>)
    requires c.current == 50 && !c.sendLock
    modifies c
    ensures sent == [Open, Stop]
    ensures c.current == 80 && c.target == 80 && !c.sendLock
  {
    var scheduled := c.SetTargetPosition(80);
    assert scheduled == Some(80);
    var waits;
    sent, waits := c.DispatchSendCommand(scheduled.value, true, [], true);
  }
}
