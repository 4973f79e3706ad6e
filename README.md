# homekit-easywave motion control, in Dafny

A model of the per-cover motion controller of `homekit_easywave.py`, a
HomeKit bridge for Easywave window covers. Position is never sensed: the
controller estimates it from travel time. It has two entry paths and a lookup:

- **Outbound** (`set_target_position` → `dispatch_send_command`). A requested
  position is either rejected as too small a move, or turned into a close
  (`'A'`) or open (`'B'`) command with a travel time. After the travel wait the
  controller follows any change of the target characteristic, then snaps to an
  end stop (below 5 or above 95) or sends a stop (`'C'`). An unacknowledged
  move aborts; an unacknowledged stop forces an end stop.
- **Inbound** (`receive_command` → `async_dispatch_command`). A remote command
  sets the target to 0 or 100, or raises the stop event. An inbound move either
  times out at the end stop or is stopped at an interpolated, truncated
  position.
- **Lookup** (`EasywaveBridge.get_accessory`): the first cover with a given
  remote id.

Files:

- `motion.dfy`, module `Motion`: the travel-time and interpolation formulas,
  the outbound decision (`PlanMove`), the reconciliation loop (`Settle`), the
  whole outbound path as a function (`Dispatch`), the inbound command mapping,
  and the lemmas about them.
- `cover.dfy`, module `Covers`: class `Cover`, with the position
  characteristics, the two locks and the stop event as fields. Its methods are
  proved against the functions of `Motion`.
- `bridge.dfy`, module `Bridge`: `GetAccessory`.

Everything the source waits for is an input of the model:

- the device's acknowledgements (`moveAck`, `stopAck`);
- `writes`, the value the accessory layer has left in the target
  characteristic at the end of each wait (after the last one the target is
  left alone);
- for an inbound move, `stoppedAfter`: None when the wait timed out, Some(t)
  when the stop event ended it t seconds after the move began.

Outbound commands are returned in `sent`, and the waits in `waits` or
`timeout`. Locks and the stop event are boolean fields. Waiting on a held
lock is outside a sequential model, so a dispatch method requires its lock to
be free, takes it, and releases it on every path.

Points where the code is easy to misread:

- A change of exactly 10 is rejected. The comparisons at lines 83 and 86 are
  strict.
- A request for 0 or 100 never sends a stop command, including a request for
  100 from 50.
- A request for 0 or 100 does not write the target characteristic. A value
  stored there during its wait stays, without a dispatch of its own, so the
  target can end different from the current position.
- The inbound stop position is truncated toward zero, not rounded. It is not
  clamped to 0..100.
- An unacknowledged stop gives 0 when the settled value is below the start
  position and 100 otherwise. It is not the endpoint nearer to the settled value.
- The inbound interpolation scales an opening move by `time_up` and a closing
  move by `time_down`. This is the opposite of the formula its own wait uses.
  See Findings.

## Model

| member | source | states |
|---|---|---|
| `Motion.PlanMove` | homekit_easywave.py:82-93 | a request is rejected exactly when it is within 10 of the current position (bounds included) and is neither 0 nor 100; otherwise close is chosen exactly when the request is 0 or more than 10 below, never stop; for positions in 0..100 the travel time equals the direction-dependent `TravelTime` and is non-negative |
| `Motion.TravelTimeNonNegativeAndSymmetric` | homekit_easywave.py:154-157 | the travel time is non-negative for any two positions when both durations are non-negative, and the way back takes the same time once the two durations are swapped |
| `Motion.Settle` | homekit_easywave.py:103-111 | the reconciliation loop settles on a sampled target value; with an unchanged target it makes no extra wait; it makes at most one extra wait per sample |
| `Motion.SettleStopsAtFirstUnchangedCheck` | homekit_easywave.py:103-111 | the loop stops at the first check where the target equals the position it is heading for; every earlier check saw a changed target and waited the extra travel to it, in the direction of the command sent; the settled value is the heading at that check |
| `Motion.SettleWaitsAddUp` | homekit_easywave.py:103-111 | the extra waits add up to the travel, in the direction of the command sent, from the requested value to the settled value |
| `Motion.SettleFollowsEveryChange` | homekit_easywave.py:103-111 | a target that changes at every wait is followed to its last value, with exactly one extra wait per change |
| `Motion.Dispatch` | homekit_easywave.py:80-131 | small move: no command, target and current equal the start position; otherwise the first command is close or open by direction; an unacknowledged move reverts the target and sends nothing more; an acknowledged move first waits the `TravelTime` from the start position to the request; 0 and 100 send only the one move command, end at the request with no stop, and leave the target as the accessory layer left it during the wait; any other acknowledged move waits the extra waits of `Settle` on the target left after the travel wait, then ends at 0 with no stop when the settled value is below 5, at 100 with no stop when it is above 95, and otherwise sends one stop and ends at the settled value, or, when the stop is not acknowledged, at 0 or 100 by the side of the start position it lies on; current equals target at the end; a stop is sent at most once and last; positions stay in 0..100 when all inputs do |
| `Motion.RetargetConverges` | homekit_easywave.py:101-130 | a mid-range move whose target changes at every wait ends, after a stop, at the last requested target when that lies in 5..95 |
| `Motion.StopNotAcknowledged` | homekit_easywave.py:119-129 | for any rewrites of the target, an unacknowledged stop after a mid-range move ends at 0 when the settled value is below the start position and at 100 otherwise |
| `Motion.OutboundRunTime` | homekit_easywave.py:85-111 | the sleep arguments of an acknowledged mid-range move add up to the travel, in the direction of the command sent, from the start position to the settled value |
| `Motion.RepeatedRequestIdempotent` | homekit_easywave.py:80-131 | with all commands acknowledged and the target untouched, repeating a request leaves the position where the first request put it |
| `Motion.FullOpenScenario` | homekit_easywave.py:86-130 | from 50 with 20 s durations, a request for 100 sends one open command, waits 10 s, sends no stop and ends at 100 |
| `Motion.InboundTarget` | homekit_easywave.py:133-144 | a move is scheduled exactly for the codes of close and open: `'A'` schedules 0 and `'B'` schedules 100 |
| `Motion.EchoTargetsSameEndpoint` | homekit_easywave.py:83-88 | the command that the outbound path sends for a request of 0 or 100 schedules an inbound move to the same end stop |
| `Motion.Trunc` | homekit_easywave.py:172-173 | `int()` truncates toward zero: the result lies within 1 of its argument, on the zero side |
| `Motion.StopPositionAsWritten` | homekit_easywave.py:166-173 | the stop position fails exactly when the duration it divides by is zero; for non-negative elapsed time and positive durations it never lies behind the start position |
| `Motion.InboundStopScenario` | homekit_easywave.py:154-173 | opening from 0 with 20 s durations and stopping after 5 s gives 25 |
| `Motion.AsWrittenAgreesWhenSymmetric` | homekit_easywave.py:168-171 | with equal durations the code's interpolation equals the one consistent with the wait |
| `Motion.AsWrittenOvershoots` | homekit_easywave.py:154-171 | opening from 0 with time_up 20 s and time_down 40 s waits 40 s; a stop after 30 s gives 150, where the consistent interpolation gives 75 |
| `Motion.StopPositionOnPath` | homekit_easywave.py:154-171 | scaled by the duration the wait used, a stop within the wait leaves the cover between its start position and the target |
| `Covers.Cover.constructor` | homekit_easywave.py:49-57 | a new cover has its configured ids and durations, both locks free and the stop event clear |
| `Covers.Cover.SetTargetPosition` | homekit_easywave.py:72-77 | the requested value is stored in the target characteristic; a dispatch of it is scheduled exactly when the send lock is free |
| `Covers.Cover.DispatchSendCommand` | homekit_easywave.py:80-131 | current, target, the commands sent and the waits are those of `Dispatch` from the old position and target; the send lock is released on every path |
| `Covers.RequestThenDispatch` | homekit_easywave.py:61-131 | from 50, a request for 80 that is not rewritten, with both commands acknowledged, sends open then stop and leaves current and target at 80 |
| `Covers.Cover.Reconcile` | homekit_easywave.py:103-111 | the loop ends at the value and with the waits of `Settle`, and leaves the target equal to the settled value |
| `Covers.Cover.ReceiveCommand` | homekit_easywave.py:133-144 | schedules the move of `InboundTarget`; raises the stop event exactly for `'C'` and changes nothing else |
| `Covers.Cover.AsyncDispatchCommand` | homekit_easywave.py:147-175 | the wait is bounded by `TravelTime` from the old position; on timeout current and target are the endpoint; on a stop both are the truncated interpolation, or current is unchanged when that divides by zero; the handle lock is released on every path |
| `Bridge.GetAccessory` | homekit_easywave.py:197-200 | returns None exactly when no cover has the remote id; otherwise a cover with that id, with no earlier cover having it |

## Findings

| source | as written | input that shows it | evidently intended | confidence | as-written member | corrected member |
|---|---|---|---|---|---|---|
| homekit_easywave.py:168-171 | a stopped inbound move is scaled by `time_up` when opening and by `time_down` when closing; the wait it interrupts (lines 154-157) uses `time_down` when opening and `time_up` when closing | cover at 0, `time_up` 20, `time_down` 40, `'B'` received, `'C'` after 30 s: the wait is 40 s, the position set is 150 | scale by the duration the wait used, so that a stop within the wait lands between the start position and the target | medium (the two formulas contradict each other; which one holds the swap is not certain); not executed | `Motion.AsWrittenOvershoots` | `Motion.StopPositionOnPath` |

`Covers.Cover.AsyncDispatchCommand` follows the code as written
(`StopPositionAsWritten`). `StopPosition` is the corrected interpolation.
`AsWrittenAgreesWhenSymmetric` shows that the two differ only when the
durations differ.

## Left out

- HomeKit wiring: accessory and bridge registration, `add_info_service`, characteristic plumbing and `config_changed`. This is presentation glue. The position characteristics are plain fields, and the position-state characteristic is never set by the source.
- Serial and Easywave I/O: port discovery, `create_easywave_connection`, `run`, `set_easywave_protocol`. `send_command_ack` is represented by the acknowledgement booleans. The channel id is carried but not used by the model.
- Startup, configuration loading, SIGTERM handling, persistence and logging. These are external collaborators.
- The asyncio scheduler: real time, `driver.add_job`, and interleavings of the two paths. `SetTargetPosition` and `ReceiveCommand` return what they would schedule, and a scheduled dispatch is a separate method call. Waiting on a held lock is represented by a precondition that the lock is free. The two locks are independent, as in the source.
- Changes to the target characteristic after the reconciliation loop's last read, for example during the stop acknowledgement, are not represented. In the source such a request stays in the target characteristic, but the setter schedules no dispatch for it and the running dispatch does not follow it.
- `packet_callback` is not modelled. When `GetAccessory` finds no cover, the source goes on to call `receive_command` on `None`, which raises.
- Floating point: travel times and positions are exact reals. The only float-to-int step, `int(new_value)`, is `Trunc`.
- `Covers.Cover.AsyncDispatchCommand`: the stop event is taken to be raised only by the stop that ends the wait. A `'C'` that arrives after a timeout is a separate `ReceiveCommand` call.
