# Drone target-approach system: verified model

A Dafny 4.11 model of the flight and telemetry software, with proofs. It covers four independent parts:

* **The telemetry link.** A sender spreads payloads round-robin over lanes, sends each at once and queues one XOR parity
  per group. A receiver reassembles groups from a channel that loses, reorders and duplicates, rebuilds one loss per
  group, and closes groups behind a per-lane watermark.
* **The flight supervisor** and what feeds it: the start-up waits, the control loop with its LOITER/GUIDED hand-over,
  LAND watchdogs and altitude ceiling, the sensing loop that turns detections into distances, and the detector's
  confirmation streak. `Pipeline.dfy` puts the three processes together, interleaved in any order.
* **The hand-written readers**: the `/target` JSON lookup against the printer of that body, the indentation-based
  settings reader, and the JPEG stream splitter.
* **The detection arithmetic**: suppression of overlapping boxes, and the letterbox mapping there and back.

`dafny verify dfyconfig.toml` checks everything.

## Layout

| files | what they model |
|---|---|
| `Crc32`, `FecPacket`, `FecParity` | checksum, datagram layout, exclusive-or parity |
| `FecEncoder`, `FecStream`, `FecDocumentedOrder` | the sender as an object, the stream it puts on the wire, the order its comments describe |
| `FecDecoder`, `FecSafety`, `FecHistory`, `FecReturns`, `FecMiscounts`, `FecDelivery` | the receiver as an object, its invariants and counters, its groups and counters by the datagrams alone, what its calls return and when they raise, datagrams that upset the counters, what it delivers |
| `FecLink`, `FecRoundTrip`, `FecTransfer` | sender and receiver end to end, on histories and as two objects |
| `FlightControl`, `FlightHistory`, `FlightSafety`, `FlightTrace`, `Mission` | the control loop, its variables as history, its guarantees, its command grammar, start-up and shut-down |
| `Sensing`, `Confirmation`, `Pipeline` | the sensing loop, the detector's streak, all three processes together |
| `JsonGrammar`, `TargetJson`, `TargetBody` | RFC 8259 texts, the lookup, the printed body and the number grammar |
| `YamlSettings`, `YamlLines`, `YamlRoundTrip`, `FrameSplitter` | the settings reader, its lines character by character, its round trip, the frame splitter |
| `Detection`, `BoxOverlap`, `Letterbox` | box suppression, what overlap measures, letterbox arithmetic |
| `Text`, `Numbers`, `Wrappers` | trimming, a few real-number helpers, `Option` |

Where the source updates state step by step, a method or an object does so here and is proved equal to a function of its
inputs or its old state; the results are lemmas about those functions over whole runs. Clock readings, arriving messages
and sensor values are inputs everywhere, and every result holds for all of them.

## Findings

* The comments at `gcs/sender/fec_encoder.cpp:19-21` and `gcs/sender/fec_encoder.hpp:14-20` say that a parity is kept away
  from the DATA packet that completed its group. It is not: the queued parity is emitted at the start of the next call,
  before that call's DATA, so the two are always adjacent (`FecStream.BlockAt`), and exactly the bursts that cover both
  lose data (`FecLink.ExactBurstTolerance`). In the order that `fec_encoder.hpp:44-45` describes, a two-packet burst could
  only if the very last payload completes the group, its parity left to flush, and the payload before it completes none
  (`FecDocumentedOrder.TwoPacketBursts`).
* delivered + recovered + lost is the total of the finalised group sizes exactly when no call closes as complete a group
  that holds more payloads than its size (`FecSafety.Conservation`). A call returns as many payloads as it adds to
  delivered + recovered exactly when it rebuilds no group that holds an index beyond its size and does not raise after
  booking a payload (`FecReturns.CallCount`; over whole runs `FecReturns.OutputCount` and `FecReturns.LossCount`). Indices
  are never checked: two datagrams break each count (`FecMiscounts.StrayOverfills`, `FecMiscounts.StrayIsUncounted`).
* A parity shorter than a payload of its group makes `try_recover` index past its end. A call raises exactly when some open
  group is in that state with one payload missing (`FecReturns.RaisesExactly`), and payloads of groups that the same call
  had already closed are counted but never returned (`FecMiscounts.RaisingCallLoses`). At `gcs/tools/gcs_bridge.py:98` the
  receive thread ends there, while the counters are still served. The group stays open past any time-out, and every later
  call raises too until another packet of it arrives (`FecReturns.JammedForGood`).
* When every index lies within the sizes its group's packets state, the sizes add up in every run, and the counters miss
  exactly what raising calls lose (`FecReturns.CountersAgree`). On whatever arrives of one sender's packets no call raises
  and all counts agree (`FecLink.SenderCountersAgree`).
* "Last write wins" (`control/yaml_settings.cpp:103`) is not guaranteed: a scalar that repeats a key is stored from a node
  that `emplace` was given to move from. Whatever the move leaves behind, the last write wins exactly in files where no
  scalar repeats the key of an earlier sibling, those that a later sibling replaces aside
  (`YamlRoundTrip.LastWriteExactly`); `a: 1` and `a: 2` are enough to fail (`YamlRoundTrip.RepeatedScalar`). Repeated maps
  are harmless.
* When heartbeats are lost during the climb, the program exits without sending LAND although TAKEOFF was sent
  (`Mission.AbortedAloft`); with any heartbeat limit under 9.8 seconds, silent rounds 0.2 s apart do it
  (`Mission.TakeoffWithoutLand`).
* The reference distance of the outlier test never moves by itself, so one accepted outlier can lock the true target out
  for good (`Sensing.LockedOut`): a first reading of 40 m, and no later one of 4.5 m is ever found
  (`Sensing.SpikeLocksOut`).
* `control/target_link.hpp:12-13` calls `found` a subset of `valid`; it is the other way round
  (`Sensing.MessageExactly`): after the altitude is lost, messages go on saying found, and not valid
  (`Sensing.FoundWithoutValid`).
* The altitude ceiling acts on an altitude marked invalid exactly while no altitude was ever valid
  (`FlightSafety.CeilingUnchecked`); the first setpoint of a flight can descend on one (`FlightSafety.DescendsOnInvalid`).
* With extreme aspect ratios a letterboxed dimension rounds to zero: the width exactly when 2 * w * targetH < h, the height
  exactly when 2 * h * targetW < w (`Letterbox.VanishesExactly`). A frame of 1 x 2000 has no width left in 640 x 640
  (`Letterbox.ThinFrameVanishes`).

## Model

| member | source | states |
|---|---|---|
| Crc32.BuildTable | gcs/sender/crc32.cpp:8-18 | entry i of the table is the bit-at-a-time register after eight reflected 0xEDB88320 shifts of i |
| Crc32.Compute | gcs/sender/crc32.cpp:24-30 | the table-driven loop equals the bit-at-a-time checksum of section 8 of RFC 1952, for every input |
| Crc32.StepInjective | gcs/sender/crc32.cpp:12-14 | the register shift is invertible, so different registers never merge |
| Crc32.BurstDetected | gcs/sender/crc32.cpp:24-30 | messages of one length that differ only inside a window of 32 consecutive bits, at any bit offset, have different checksums |
| Crc32.FourByteWindowDetected | gcs/sender/crc32.cpp:24-30 | messages of one length that differ only inside four consecutive bytes have different checksums |
| Crc32.CheckValue | gcs/sender/crc32.cpp:24-30 | the checksum of "123456789" is 0xCBF43926, the check value of this CRC |
| FecPacket.ParseDatagram | gcs/tools/fec_core.py:99-104 | the receiver reads back exactly the fields and payload the sender packed |
| FecPacket.HeaderLayout | gcs/sender/fec_encoder.cpp:61-79 | every byte of a datagram: magic bytes, type, little-endian fields in their places, one parity per group, length, checksum, payload |
| FecPacket.AcceptedExactly | gcs/tools/fec_core.py:98-104 | a datagram is accepted if and only if it is as long as the header, starts with the magic bytes and carries the checksum of what follows up to the stated length; its fields are the bytes in their places |
| FecPacket.AcceptedInRange | gcs/tools/fec_core.py:99-104 | whatever bytes arrive, the fields of an accepted datagram are in the range of their header width |
| FecPacket.CorruptionRejected | gcs/tools/fec_core.py:104 | a payload corrupted inside four consecutive bytes is never accepted under the header that was sent |
| FecParity.RebuiltIsMissing | gcs/tools/fec_core.py:45-49 | the parity with all other payloads mixed in, stripped of trailing zeros, is the missing payload without its trailing zeros |
| FecParity.StripKeepsExactly | gcs/tools/fec_core.py:49 | stripping changes nothing exactly for payloads that are empty or end in a non-zero byte |
| FecEncoder.Encoder.constructor | gcs/sender/fec_encoder.cpp:11-14 | a fresh sender has submitted and sent nothing and satisfies the stream invariant |
| FecEncoder.Encoder.Submit | gcs/sender/fec_encoder.cpp:16-47 | what was sent is always a prefix of the stream determined by everything submitted, short of at most one queued parity; lanes, numbers and queue agree with that history |
| FecEncoder.Encoder.PutInLane | gcs/sender/fec_encoder.cpp:31-46 | the lane after one more payload, and the parity queued exactly when that completes its group |
| FecEncoder.Encoder.EmitOnePendingParity | gcs/sender/fec_encoder.cpp:51-59 | at most one parity is ever queued, so one emission empties the queue and completes the stream |
| FecEncoder.Encoder.Flush | gcs/sender/fec_encoder.cpp:49 | after flush nothing is queued and exactly the whole stream was sent |
| FecEncoder.Encoder.Emit | gcs/sender/fec_encoder.cpp:61-79 | one datagram is appended, with the next 32-bit sequence number and the checksum of its payload |
| FecEncoder.SendAll | gcs/sender/fec_encoder.cpp:11-59 | a fresh sender that submits all payloads and flushes sends exactly the datagrams of the stream |
| FecEncoder.BuildParity | gcs/sender/fec_encoder.cpp:35-40 | the nested loops build the exclusive or of the payloads, zero-padded to the longest |
| FecStream.LaneHistoryIs | gcs/sender/fec_encoder.cpp:24-25 | payload k of a lane is submission k * lanes + lane |
| FecStream.StreamOfGroup | gcs/sender/fec_encoder.cpp:28-46 | on the wire every group is DATA 0, 1, ... in order and, once complete, one PARITY equal to the zero-padded exclusive or of its payloads |
| FecStream.BlockAt | gcs/sender/fec_encoder.cpp:22-41 | sequence numbers are consecutive, and a parity directly follows the DATA that completed its group |
| FecStream.SequenceNumbers | gcs/sender/fec_encoder.cpp:61-79 | wire packet i has sequence number i modulo 2^32 |
| FecStream.DataSpacing | gcs/sender/fec_encoder.cpp:24-29 | two DATA packets of one lane are at least `lanes` wire positions apart |
| FecStream.LaneInGroupOrder | gcs/sender/fec_encoder.cpp:41-45 | wire packets of one lane come in the order of their groups |
| FecDocumentedOrder.TwoPacketBursts | gcs/sender/fec_encoder.hpp:14-20 | the exact distance from every group's last DATA to its parity in the documented order, flush included: one, so that a two-packet burst takes both, if and only if the last payload of all completes the group and the one before completes none; in the program's order it is always one |
| FecDecoder.TryRecoverGroup | gcs/tools/fec_core.py:39-53 | complete, recoverable, incomplete or index error, and the recovered payloads, as the missing set and the parity determine |
| FecDecoder.MixAll | gcs/tools/fec_core.py:45-48 | the in-place exclusive or gives, byte by byte, the parity mixed with every held payload in any order, and fails exactly when a payload is longer than the parity |
| FecDecoder.Receiver.PollOnce | gcs/tools/fec_core.py:91-137 | one call's effect on groups, watermarks, counters and history for any datagram and any sweep order; the returned list is the bag of payloads of the groups it closed, or nothing when it raises |
| FecDecoder.Receiver.CloseGroup | gcs/tools/fec_core.py:124-135 | finalising removes the group, raises its lane's watermark to at least it, and books its packets |
| FecDecoder.PollAll | gcs/tools/fec_core.py:91-137 | a receiver polled until a call raises returns, over all calls, exactly what the calls of that run return |
| FecSafety.ExactlyOnce | gcs/tools/fec_core.py:71-79 | in every run no group is finalised twice or open after it was finalised, and all finalised groups are at or below their lane's watermark |
| FecSafety.HistoryOnlyGrows | gcs/tools/fec_core.py:104-135 | watermarks never fall and no closing is undone as a run goes on |
| FecHistory.OpenGroups | gcs/tools/fec_core.py:26-37 | in every run an open group has the size and the clock reading of its first packet, whatever came later, the latest payload at each index and the latest parity |
| FecHistory.Closings | gcs/tools/fec_core.py:118-135 | a closing records the size its group's first packet stated and how many indices had come; an incomplete one gives exactly the latest payloads and comes only when the first packet was received longer than the time-out ago, a complete one gives what they and the parity recover |
| FecHistory.EachClosingCounted | gcs/tools/fec_core.py:123-135 | delivered is the number of indices of all finalised groups, recovered what complete ones lacked, lost what the others lacked, each by itself |
| FecHistory.EachDatagramCounted | gcs/tools/fec_core.py:99-116 | each of data_pkts, parity_pkts, crc_fail and stale_dropped is the number of datagrams of its kind; stale means not open and not above a finalised group of the lane |
| FecSafety.Conservation | gcs/tools/fec_core.py:123-135 | in every run delivered + recovered + lost is the total size of the finalised groups if and only if no call closes as complete a group holding more payloads than its size |
| FecReturns.RaisesExactly | gcs/tools/fec_core.py:41-48 | a call raises if and only if some open group lacks one payload and holds one longer than its parity, whatever the order of the sweep |
| FecReturns.CallCount | gcs/tools/fec_core.py:91-137 | a call returns as many payloads as it adds to delivered + recovered if and only if it rebuilds no group holding an index beyond its size and does not raise after booking a payload; what each defect alone can do to the count |
| FecReturns.OutputCount | gcs/tools/fec_core.py:123-137 | while no call raises, delivered + recovered is the number of payloads returned if and only if no call rebuilds a group holding an index beyond its size; it is never more |
| FecReturns.LossCount | gcs/tools/fec_core.py:123-137 | while no call rebuilds such a group, delivered + recovered is the number of payloads returned if and only if no call raises after booking a payload; it is never less |
| FecReturns.CountersAgree | gcs/tools/fec_core.py:104-137 | if every DATA index lies inside the sizes its group's packets stated up to then, delivered + recovered + lost is the total size in every run, and delivered + recovered the number of payloads returned if and only if no call raises after booking one |
| FecReturns.NoneOverdue | gcs/tools/fec_core.py:19-22 | after a call that does not raise, no group is open whose first packet was received longer ago than the time-out, and none that could be recovered |
| FecReturns.JammedStaysOpen | gcs/tools/fec_core.py:121-122 | a group whose recovery raises is left open by that call, whatever its age |
| FecReturns.JammedForGood | gcs/tools/fec_core.py:45-48 | once a group's recovery raises, every call raises until another packet of the group arrives |
| FecMiscounts.StrayOverfills | gcs/tools/fec_core.py:123-127 | indices 5 and 0 in a group of size 1: two delivered for a size of one |
| FecMiscounts.StrayIsUncounted | gcs/tools/fec_core.py:118-127 | index 5 and the parity in a group of size 1: no call raises, two payloads are returned, one is counted |
| FecMiscounts.RaisingCallLoses | gcs/tools/fec_core.py:45-48 | three datagrams with good indices: the third call closes a late group, counts its payload, raises at a short parity, and returns nothing |
| FecSafety.OutputSize | gcs/tools/fec_core.py:127-133 | the bag of the finalised groups' payloads has as many members as the closings say |
| FecSafety.EveryDatagramCounted | gcs/tools/fec_core.py:99-116 | every full-length datagram of the two types is counted in exactly one of data_pkts, parity_pkts, crc_fail, stale_dropped |
| FecDelivery.RecoverGenuine | gcs/tools/fec_core.py:39-53 | a group of genuine packets is recoverable exactly when at most one of its size + 1 packets is missing, and is then recovered whole |
| FecDelivery.Integrity | gcs/tools/fec_core.py:118-137 | under any loss, duplication, reordering, delay and interference, what is handed out for a group is what was sent for it |
| FecDelivery.DeliveredWhenEnough | gcs/tools/fec_core.py:104-129 | a group all but at most one of whose packets arrive in time is finalised complete, whole, exactly once |
| FecDelivery.CompleteExactlyWhenEnough | gcs/tools/fec_core.py:118-135 | with the last arrival on time, a group is finalised complete if and only if all but at most one of its packets arrived |
| FecLink.EndToEnd | gcs/tools/fec_core.py:91-137 | for every payload sequence, lane count, group size and loss of at most one packet of a group, in-order delivery without timeout hands the group out exactly once, whole |
| FecLink.EndToEndExact | gcs/sender/fec_encoder.cpp:16-79 | ... byte for byte when payloads are empty or end in a non-zero byte; again in one complete closing and no other |
| FecLink.SenderCountersAgree | gcs/tools/fec_core.py:104-137 | whatever subset of one sender's packets arrives, in any order and number, with packets the checksum rejects in between: no call raises, delivered + recovered is the number of payloads returned, and with lost the total size |
| FecTransfer.Transfer | gcs/tools/fec_core.py:91-137 | sender object, lossy in-order channel and receiver object: no call raises, what is returned is what the closings held; with payloads that are empty or end in a non-zero byte it includes every completed group that lost at most one packet and met no time-out, and if that is every group it is, as a bag, exactly what was submitted |
| FecTransfer.GroupReturned | gcs/tools/fec_core.py:123-137 | the payloads of such a group are among those handed out, byte for byte |
| FecRoundTrip.RoundTrip | gcs/tools/fec_core.py:91-137 | when all groups are completed, each loses at most one packet and meets no time-out, and payloads are empty or end in a non-zero byte, the bag of payloads handed out is the bag submitted |
| FecLink.BurstCostsOneData | gcs/sender/fec_encoder.cpp:24-29 | at most `lanes` consecutive lost packets cost any group at most one DATA packet |
| FecLink.FatalLossIsFatal | gcs/sender/fec_encoder.cpp:34-41 | losing a group's last DATA and its parity always leaves it unrecoverable |
| FecLink.FinalExists | gcs/sender/fec_encoder.cpp:34-41 | every completed group has its last DATA with its parity directly behind it, so the burst results apply to it |
| FecLink.ExactBurstTolerance | gcs/sender/fec_encoder.cpp:22-41 | after a burst of at most `lanes` packets, a completed group is handed out whole if and only if the burst does not cover both its last DATA and its parity |
| FlightControl.EvaluateHealthBreach | control/control.cpp:237-287 | the reasons listed, in order |
| FlightControl.ReasonsExactly | control/control.cpp:241-285 | a reason is listed exactly when a reported quantity is outside its limit; unreported ones never count |
| FlightControl.NoBreachIsHealthy | control/control.cpp:241-286 | no reason is listed exactly when every reported quantity is within its limit |
| FlightControl.ApproachTarget | control/control.cpp:394-674 | the loop over local variables sends exactly the commands of the step function, whatever the ticks, and ends exactly when it does |
| FlightHistory.VariablesAreHistory | control/control.cpp:402-470 | after any run the variables are what the ticks say: newest message and its time, battery and prearm state of the newest SYS_STATUS (mV / 1000, 65535 unknown), fix, variances and system state of the newest message of each kind and reported exactly if one came, last heartbeat, last time tracked, whether an altitude was ever valid |
| FlightHistory.SetpointsAreSafe | control/control.cpp:517-591 | every setpoint is sent on a tick on which everything the newest telemetry of each kind reports is within its limit, heartbeat gap within both limits, target loss within its limit, and newest altitude valid exactly if one ever was |
| FlightSafety.HoldBeforeReturn | control/control.cpp:576-606 | no setpoint is sent until at least 3 s after the last breach tick |
| FlightSafety.TickExactly | control/control.cpp:517-606 | while the loop goes on, a tick is an emergency if and only if something reported is out of bounds or the altitude is lost, and sends a setpoint if and only if it is not and no emergency less than 3 s old is still unfollowed by a setpoint |
| FlightSafety.TickSends | control/control.cpp:397-674 | exactly what each tick puts on the wire: LOITER when an emergency begins, GUIDED before the first setpoint after one, the setpoint, LAND and zero when a watchdog ends the loop, zero when time is up |
| FlightSafety.CeilingIsHistory | control/control.cpp:629-654 | the enforcing flag means: some evaluated fresh tick exceeded the hard limit and none since was at or below it less the margin |
| FlightSafety.DescendsExactly | control/control.cpp:629-656 | a setpoint descends, in proportion to the overshoot from 0.1 m/s up to the descent speed, exactly when the link is fresh and that history holds; otherwise its vertical speed is zero |
| FlightSafety.CeilingUnchecked | control/control.cpp:563-633 | at a setpoint the altitude used is marked invalid if and only if no altitude was ever valid |
| FlightSafety.DescendsOnInvalid | control/control.cpp:631-643 | one message, marked invalid, a metre above the hard limit: the first setpoint descends |
| FlightSafety.TrackingLaw | control/control.cpp:312-327 | forward exactly beyond the stopping distance and within the alignment width; full speed and full turn rate exactly from maxForward / 0.5 metres and maxYawRate / 0.006 pixels; turning toward the target |
| FlightSafety.LinearLaw | control/control.cpp:312-327 | between the thresholds speed is 0.5 per second of the distance beyond the stopping distance, falls in proportion to what is left of the alignment width, and the turn rate is 0.006 per pixel |
| FlightSafety.SpeedTapers | control/control.cpp:619-626 | at one distance, a target farther off centre is never approached faster |
| FlightSafety.SetpointBounded | control/control.cpp:614-656 | on every run setpoints are within the limits, and one that moves or turns is sent only while the newest message is fresh, valid and found |
| FlightSafety.SetpointOrigin | control/control.cpp:656 | every setpoint in the trace is that of some steering tick, or the closing zero |
| FlightSafety.EverySetpoint | control/control.cpp:517-656 | every setpoint on the wire bar the closing zero: sent without breach, moving or turning only toward a fresh, valid, found target, no sideways speed, within the limits, descending exactly as the ceiling demands |
| FlightSafety.EndsExactly | control/control.cpp:397-554 | a tick ends the loop exactly on time-out, an armed vehicle reporting itself disarmed, a heartbeat gap past land_gap_sec or target loss past its limit |
| FlightSafety.EndsInTime | control/control.cpp:397-400 | with positive duration and cycle the loop ends within ceil(duration / cycle) + 1 ticks |
| FlightTrace.TraceIsGrammatical | control/control.cpp:351-358 | on every run: setpoints only outside LOITER, LOITER and GUIDED strictly alternating, then at most one LAND and last the zero setpoint |
| Mission.WaitForHeartbeat | control/control.cpp:64-90 | the wait loop's outcome and length |
| Mission.WaitKeepsItsLaw | control/control.cpp:64-90 | a wait ends at the first round that is late, or too long after the last heartbeat, or brings the one waited for, in this order |
| Mission.OutcomeExactly | control/control.cpp:64-90 | the outcome of a wait, both ways, by the rounds it meets |
| Mission.FlyMission | control/control.cpp:738-764 | main's exchange with the vehicle and how it ends |
| Mission.CompleteMission | control/control.cpp:738-760 | a mission that ends sent exactly GUIDED, ARM, TAKEOFF, three interval requests, a grammatical body, at most one LAND, zero velocity, LAND |
| Mission.LandExactly | control/control.cpp:755-763 | LAND is sent in exactly the missions that passed start-up and ended |
| Mission.AbortedAloft | control/control.cpp:752-763 | a mission aborts after TAKEOFF, sending nothing more, if and only if the first two waits meet their heartbeats and the climb meets a round in time but too long after the last heartbeat |
| Mission.TakeoffWithoutLand | control/control.cpp:752-763 | with any heartbeat limit under 9.8 seconds, a climb of silent rounds 0.2 s apart: TAKEOFF is sent, LAND never |
| Mission.TakeoffIsGuarded | control/control.cpp:738-752 | TAKEOFF follows a heartbeat in GUIDED received after the mode request and then an armed heartbeat received after ARM |
| Sensing.PollTarget | control/target_distance.cpp:250-267 | the gate on found, confirmed and age, and both pixel offsets, as read from the response body |
| Sensing.Sense | control/target_distance.cpp:215-308 | the loop publishes exactly the messages of the step function |
| Sensing.MessageExactly | control/target_distance.cpp:217-306 | altitude valid iff recent enough; found iff the gate passed and the distance is plausible and no jump from the last found one; valid iff both; the x offset of a placed message is the body's x_px |
| Sensing.FoundExactly | control/target_distance.cpp:250-298 | found if and only if the body says found and confirmed, its age and both offsets are numbers, the age is within the limit, and the distance is plausible and within the jump limit of the newest one found |
| Sensing.DistanceIsGeometry | control/pos_calculator.cpp:3-5 | with hypot the hypotenuse, a found distance satisfies (distance * focal)^2 = altitude^2 * (focal^2 + x^2 + y^2), x and y the numbers in the body |
| Sensing.FoundWithoutValid | control/target_distance.cpp:217-306 | after one altitude and none since, every message of a centred target is found, and valid only until the altitude is stale |
| Sensing.LockedOut | control/target_distance.cpp:281-298 | after an accepted distance the target stays unfound exactly while every reading is unplaced, implausible or farther than the jump limit from that one distance |
| Sensing.SpikeLocksOut | control/target_distance.cpp:281-298 | with the default limits (50 m, 5 m), after an accepted reading of 40 m no number of fresh, confirmed, plausible readings of 4.5 m is ever found |
| Sensing.FoundAtLeastAltitude | control/target_distance.cpp:271-281 | a found distance is at least the altitude, so nothing is found above the plausible distance |
| Confirmation.PushCapped | YOLO_MODEL/cpp/yolo_live.cpp:84-88 | the newest elements up to the cap |
| Confirmation.Detector.Infer | YOLO_MODEL/cpp/yolo_live.cpp:417-459 | streak and reported target after one frame: first detection of greatest confidence, centred offsets, confirmation |
| Confirmation.RunDetector | YOLO_MODEL/cpp/yolo_live.cpp:380-462 | over any frames the object's streak and target are those of the step function |
| Confirmation.ConfirmedExactly | YOLO_MODEL/cpp/yolo_live.cpp:451-458 | over all frames, confirmed exactly when each of the last five held exactly one detection, all of one class |
| Confirmation.TargetExactly | YOLO_MODEL/cpp/yolo_live.cpp:417-459 | the target after any frames: found iff a detection, of the first most confident one its name, confidence to 0.0005, and centre to 0.05 pixels, right and up positive |
| Confirmation.ResponseReads | YOLO_MODEL/cpp/yolo_live.cpp:988-1005 | reading the response gives back every field of the target under its own key |
| Confirmation.AgeIsClose | YOLO_MODEL/cpp/yolo_live.cpp:995 | an age is reported exactly for a target that was ever set, within 0.05 ms of the real one |
| Pipeline.MotionIsBacked | control/target_distance.cpp:245-308 | in any interleaving of the three processes, with a printer of ten significant digits, a setpoint that moves or turns rests on a message taken in within link_stale_ms, with fresh altitude, a plausible distance within the jump limit, and a detection within target_stale_ms (+ 0.05) confirmed by five frames of one detection of one class |
| TargetJson.ScanString | control/target_json.cpp:18-34 | the scanner stops behind the closing quote, escapes skipped, or fails |
| TargetJson.ScanComposite | control/target_json.cpp:36-56 | the depth counter stops where the bracket opened first is closed, or fails |
| TargetJson.FindTopLevelValue | control/target_json.cpp:70-120 | the index loop equals the lookup function on every text, well-formed or not |
| TargetJson.ValueSkipped | control/target_json.cpp:36-68 | over every JSON value, whatever its nesting and whatever brackets its strings hold, the scan ends exactly behind it |
| TargetJson.LookupExact | control/target_json.cpp:70-120 | in every object text of section 4 of RFC 8259 the lookup returns exactly the text of the first top-level member with the key, never anything nested or inside a string |
| TargetJson.LookupSound | control/target_json.cpp:70-120 | on any text at all, what the lookup finds is there: an opening brace after white space, and behind it the quoted key, a colon and the value |
| TargetJson.StringStops | control/target_json.cpp:18-34 | a string ends at its first unescaped quote, on any text |
| TargetJson.TokenStops | control/target_json.cpp:58-68 | a bare token ends at the first comma or closing brace, on any text |
| TargetBody.IsJsonNumber | control/target_json.cpp:122-148 | accepts exactly the number grammar of section 6 of RFC 8259 |
| TargetBody.ScansIsNumber | control/target_json.cpp:122-148 | three greedy scans reach the end exactly on texts of the form minus, integer, fraction, exponent |
| TargetBody.JsonEscape | YOLO_MODEL/cpp/yolo_live.cpp:503-511 | quotes and backslashes are escaped, nothing else |
| TargetBody.EscapeIsRaw | YOLO_MODEL/cpp/yolo_live.cpp:503-513 | every escaped text is a closed string body |
| TargetBody.UnescapeEscape | YOLO_MODEL/cpp/yolo_live.cpp:503-511 | removing each escaping backslash gives the text back |
| TargetBody.EscapeLength | YOLO_MODEL/cpp/yolo_live.cpp:503-511 | one backslash is added for each quote and backslash, and nothing else |
| TargetBody.PrintTarget | YOLO_MODEL/cpp/yolo_live.cpp:997-1005 | the printed body is the object text of its fields |
| TargetBody.ReadBack | control/target_json.cpp:152-172 | for every target and any bytes in the class name, reading the printed body gives back the three booleans, the name's literal, and every number token where it is printed and not null |
| YamlSettings.ParseYaml | control/yaml_settings.cpp:63-109 | the line loop with its stack equals the line-by-line function |
| YamlSettings.StepKeepsStack | control/yaml_settings.cpp:87-105 | whatever the lines, stack indents strictly increase and each open entry is a child of the one below |
| YamlLines.SkippedExactly | control/yaml_settings.cpp:54-82 | a line is skipped if and only if it is white space only, or its first other character is #, or it has no colon |
| YamlLines.EntryExactly | control/yaml_settings.cpp:77-85 | every other line is read as its number of leading spaces, the text before its first colon and the text behind it, both trimmed |
| YamlRoundTrip.KeyLineReads | control/yaml_settings.cpp:77-85 | a printed key line is read back as its indent, key and value |
| YamlRoundTrip.RoundTrip | control/yaml_settings.cpp:63-109 | any tree of maps and non-empty trimmed scalars with distinct sibling keys, printed at any increasing indents with blank lines, comments and lines without a colon anywhere, is read back |
| YamlRoundTrip.LastWriteExactly | control/yaml_settings.cpp:90-104 | for every layout, repeated keys included: the last-write tree is read whatever a move leaves behind if and only if no scalar repeats an earlier sibling's key, those a later sibling replaces aside |
| YamlRoundTrip.RepeatedScalar | control/yaml_settings.cpp:100-104 | the lines `a: 1` and `a: 2` leave under `a` what the move left of "2" |
| FrameSplitter.Grab | test_cam/fpslog.py:212-224 | the reading loop yields the frames and leftover of the batch scan of all chunks together |
| FrameSplitter.ScanAppend | test_cam/fpslog.py:217-224 | scanning what is there and then the leftover with new bytes is scanning everything at once |
| FrameSplitter.ChunkingIrrelevant | test_cam/fpslog.py:213-224 | frames and leftover do not depend on how the stream was cut |
| FrameSplitter.NothingLost | test_cam/fpslog.py:218-224 | skipped bytes, frames and leftover concatenate to the input, and the leftover holds no complete frame |
| FrameSplitter.FramesExact | test_cam/fpslog.py:219-224 | each frame runs from the first start mark to the first end mark behind it |
| FrameSplitter.FrameEnds | test_cam/fpslog.py:219-224 | every frame begins with FF D8 and ends with FF D9 |
| Detection.Nms | YOLO_MODEL/cpp/trt_engine.cpp:148-161 | the flag loops return the greedy selection of some confidence-sorted order of the input |
| Detection.NmsCorrect | YOLO_MODEL/cpp/trt_engine.cpp:148-161 | whatever order the boxes come in and the sort leaves ties in: a confidence-sorted sub-multiset of the input, no two of one class overlapping above the threshold, every dropped box overlapped above it by a kept one of its class at least as confident, and with distinct confidences the only such selection |
| Detection.IouIsRatio | YOLO_MODEL/cpp/trt_engine.cpp:135-144 | overlap is symmetric, in [0, 1], and 1 for a box of positive area with itself |
| BoxOverlap.OverlapCountsCells | YOLO_MODEL/cpp/trt_engine.cpp:135-144 | for boxes with whole-number corners overlap is the number of unit cells in both as a share of the number in either |
| BoxOverlap.OverlapScales | YOLO_MODEL/cpp/trt_engine.cpp:135-144 | overlap does not change when both boxes are scaled |
| BoxOverlap.NestedOverlap | YOLO_MODEL/cpp/trt_engine.cpp:135-144 | a box inside another overlaps it by the ratio of their areas |
| BoxOverlap.ApartOverlap | YOLO_MODEL/cpp/trt_engine.cpp:135-144 | boxes without a common inner point do not overlap |
| Detection.KeptSorted | YOLO_MODEL/cpp/trt_engine.cpp:148-161 | kept boxes are a confidence-sorted sub-multiset of the input |
| Detection.KeptDisjoint | YOLO_MODEL/cpp/trt_engine.cpp:155-158 | no two kept boxes of one class overlap above the threshold |
| Detection.DroppedCovered | YOLO_MODEL/cpp/trt_engine.cpp:152-158 | every input box is kept or covered by a kept one of its class, at least as confident, overlapping above the threshold |
| Detection.KeptUnique | YOLO_MODEL/cpp/trt_engine.cpp:148-161 | with distinct confidences the kept set is the only one with these properties |
| Detection.Idempotent | YOLO_MODEL/cpp/trt_engine.cpp:148-161 | a second run on the result changes nothing |
| Letterbox.ScaleBoxToFrame | YOLO_MODEL/cpp/trt_engine.cpp:124-133 | the four assignments and clamps of the box mapping |
| Letterbox.FillsTarget | YOLO_MODEL/cpp/trt_engine.cpp:99-115 | for every positive frame and target size, resized image and borders fill the target exactly, opposite borders differ by at most one pixel, one dimension needs none |
| Letterbox.ResizeFollowsScale | YOLO_MODEL/cpp/trt_engine.cpp:99-105 | each resized dimension is the frame's times the reported scale, to the nearest pixel |
| Letterbox.VanishesExactly | YOLO_MODEL/cpp/trt_engine.cpp:100-105 | for every frame and target size the resized width is zero if and only if 2 * w * targetH < h, the height if and only if 2 * h * targetW < w |
| Letterbox.ThinFrameVanishes | YOLO_MODEL/cpp/trt_engine.cpp:100-105 | a 1 x 2000 frame has no width left in a 640 x 640 target |
| Letterbox.ForwardAndBack | YOLO_MODEL/cpp/trt_engine.cpp:109-132 | a frame coordinate mapped forward and back is off by at most 1 / (2 scale), by nothing when the padding is even |
| Letterbox.CornersKeepOrder | YOLO_MODEL/cpp/trt_engine.cpp:124-133 | mapping back keeps the order of corners |
| Numbers.RoundIsNearest | YOLO_MODEL/cpp/yolo_live.cpp:90-93 | rounding is to the nearest whole number, halves away from zero, symmetric |

## Left out

- EndToEnd: fewer than 65536 groups per lane, because the 16-bit group number wraps there and the watermark does not; no timeout before the group's last surviving packet is a hypothesis about the clock inputs.
- EndToEndExact: payloads that end in a zero byte lose it on recovery, as the source's stripping does; `EndToEnd` says exactly what they become.
- FecLink: reordering between sender and receiver; the end-to-end results take delivery in order, while `Integrity`, `ExactlyOnce`, `Conservation` and `SenderCountersAgree` take any order.
- Transfer: what the sender puts on the wire is handed to the channel as a whole; the two objects do not run interleaved.
- MotionIsBacked: digit strings are not modelled. Of the printer of ten significant digits it is assumed that it prints number tokens, that multiples of 0.1 below 10^9 read back exactly and that larger ones read as at least 10^9 - 1; target_stale_ms lies between -10^9 and 10^9 - 1.
- MotionIsBacked: any earlier message may arrive at a tick, which includes loss, repetition and reordering on the loopback socket.
- ApproachTarget: a configuration with a zero alignment width, a negative yaw limit or a descent speed under 0.1 is excluded, as the division or std::clamp is undefined there.
- ApproachTarget: sends never throw; latitude, longitude and the custom mode, which only reach the log, are not kept.
- Sense: a missing x offset is stored as 0 where the code stores NaN; the message is then not found and nobody reads it. y offset, ground offset and sequence number of the message, read by no one, are not kept. A zero focal length is excluded.
- Confirmation.Detector.Infer: class names come resolved from their numbers; of the confidence only the order and the rounding are used.
- PrintTarget: numbers are given as their printed tokens.
- ParseYaml: a pointer into the tree is the list of keys that leads to the node; the file is given as its lines.
- FecRoundTrip.RoundTrip: the order of the payloads returned, which poll does not promise across lanes.
- YamlRoundTrip.RoundTrip: repeated sibling keys are excluded; `LastWriteExactly` says what happens to them.
- LastWriteExactly: what a move leaves of a string is any function of that string, as the C++ standard leaves it open; a failed `emplace` that moves nothing is the function that changes nothing.
- KeptUnique: with equal confidences the result depends on the order std::sort leaves, which is unspecified.
- Letterbox.ScaleBoxToFrame: a box is a value, mapped to a new one.
- TryRecoverGroup: dictionaries are walked in arbitrary order; results hold for every order.
- Floating point: all real-valued quantities are mathematical reals; rounding is modelled only where the source calls round.
- The MAVLink connection and parser, sockets, serial ports, HTTP, file opening, logging, signals, threads and process start-up: inputs and outputs without a property of their own.
- gps_distance_m, trigonometry and square roots: of hypot nothing is assumed but what a lemma states: the hypotenuse, or only that it is at least the size of each argument, or over a zero leg the size of the other.
- TensorRT, CUDA, OpenCV and GStreamer calls, colour correction of frames, and the Python detector, which repeats the streak.
- The loops that call the receiver (`gcs/tools/gcs_bridge.py:95-102`, `gcs/tools/fec_decoder.py`) beyond ending at the first call that raises.
- Dashboards, reports, CSV files, measuring scripts, shell scripts and the state machine of the architecture document, which no code implements.
