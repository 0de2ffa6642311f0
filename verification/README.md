# Fuel management platform: verified core

A Dafny model of the algorithms and protocols of a fuel-depot monitoring and dispensing platform, with proofs about
all inputs, all runs and all interleavings. `dafny verify dfyconfig.toml` checks everything; `Common` holds what
several modules share.

**Tank geometry** (`SplineTheory`, `StrappingTable`, `BackendGeometry`, `WebGeometry`, `GeometryAgreement`,
`TankShapes`). A strapping table turns a level into litres. The backend solves the natural cubic spline with the
Thomas algorithm and searches the segment by bisection; the web client eliminates a full matrix in place and searches
linearly. Both are modelled with their arrays and loops over exact reals. The spline theory shows that the linear
system means "twice continuously differentiable" and has one solution, so both programs compute the same volume - on
every table with distinct heights. The web client also accepts tables with repeated heights, which the backend
refuses; the exact condition of agreement is proved.

**Dispensing** (`DispenseProtocol`, `DispenseInvariants`, `DispenseTheorems`, `DispenseFaults`, `DispenseChains`,
`DispenseEngine`, `DispenseReplies`, `DispenseAmounts`). Any number of validation and settlement requests run
interleaved over database rows, a per-code lock, the consumed set and the per-code cache. A code is a natural number
and stands for its fingerprint; litres are whole millilitres, and a dispense of at least 1 mL is one of the amounts
covered. Single settlement rests on three assumptions: no failure between the commit and the write to the consumed
set, no loss of the lock of an unsettled code, and no loss of an entry of the consumed set. For each of them it is
proved that without it a code can be settled twice, and exactly when a violation is harmless. Replays are answered
from the transaction alone, so they lose the status of a partial or an over-dispense and the code for the rest; the
exact conditions are proved. A partially settled allocation keeps its remaining litres while its successor starts with
the same amount, so the conserved sum counts the tail of a chain only. The imperative `Engine` runs one request at a
time and is tied to the protocol by running exactly its steps.

**Modbus codec** (`ModbusCrc`, `ModbusCodec`). CRC-16 and the response of function 03, after section 2.5.1.2 and
appendix section 6.2.2 of "MODBUS over Serial Line Specification and Implementation Guide V1.02" and section 6.3 of
"MODBUS Application Protocol Specification V1.1b3". Error detection is derived from the linearity and injectivity of
the shift.

**Command plane** (`CommandRelay`, `CommandRows`, `CommandAttempts`, `CommandTimes`, `CommandRaces`,
`CommandRegistry`, `CommandEffects`, `CommandDelivery`). The two-list queue with crashes and exceptions between any
two operations, the life of a command row under relay, sweeper and acknowledgements, the gateway's duplicate filter
with restarts, the way of an effect through acknowledgement and main loop, and their composition: at-least-once
delivery to the broker, and for what the gateway handles one dispatch under the exact condition proved. The firmware
promises one effect per id without a condition (commands.py:3-5), and that is false in four ways. A full table lets a
command be dispatched again within seconds. The table is lost with a restart, so a reboot, whose effect is a restart,
is carried out at every delivery. An acknowledgement whose publication raises drops the effect, and the redelivery is
acknowledged as executed. Of two effects that wait for the main loop only the later one happens. A command's attempts
are counted by the relay and by the sweeper, so a requeue normally costs two. A command without attempts left can
outlive any number of sweeps if the relay marks it between two passes of each.

**Alarms** (`AlarmPipeline`, `AlarmRuns`, `AlarmConditions`). Smoothing, over-range detection, the open-set and
automatic resolution, over every sequence of frames with operator actions in between. The documented hysteresis lies
on the wrong side of three thresholds: it makes the clear region overlap the raise region. What is true of every alarm
type is proved, with the exact condition for one alarm per run of violating frames.

**Frame buffer, login limiter, MQTT client** (`FrameBuffer`, `FrameFile`, `RateLimiter`, `MqttFraming`,
`MqttDispatch`). Each with an exact characterisation of its state. The firmware's documentation promises oldest-first
trimming, which holds only under the condition proved in `OldestFirstIff`. The file is read in pieces of 65,536
characters, and a frame across the end of a piece is lost; `SnapshotSeesIff` says which ones. The limiter's comment
calls its second result the remaining count before the call, but it is the count after it. Remaining lengths follow
section 2.2.3 of MQTT Version 3.1.1, and publishes section 3.3. `_read_packet` drops the length bytes and `_dispatch`
counts its offsets as if one were there, so no command on a gateway's topic is passed on as it was sent
(`ShortTopicNeverIntact`). The theorems about handled commands say what the filter and the main loop do once a command
reaches the callback; that it does is their assumption `AllDelivered`.

## Model

| member | source | states |
|---|---|---|
| BackendGeometry.SweepStable | platform/fmp/ingestion/tank_geometry.py:38-45 | In the forward sweep a scaled superdiagonal below one half makes the next pivot positive and the next one again strictly between 0 and one half. |
| BackendGeometry.ThomasSolves | platform/fmp/ingestion/tank_geometry.py:38-50 | Forward sweep and back substitution together give a solution of every row of the natural-spline system. |
| BackendGeometry.AssembleRows | platform/fmp/ingestion/tank_geometry.py:28-36 | The arrays filled first are the tridiagonal rows of the natural-spline conditions, for every ascending table. |
| BackendGeometry.Eliminate | platform/fmp/ingestion/tank_geometry.py:38-45 | The in-place elimination never divides by zero and leaves the swept rows. |
| BackendGeometry.NaturalCubicSpline | platform/fmp/ingestion/tank_geometry.py:14-50 | For every strictly increasing table the returned moments vanish at both ends and satisfy every interior row. |
| BackendGeometry.SplineEval | platform/fmp/ingestion/tank_geometry.py:53-73 | Clamping and binary search return the value of the natural spline at the level, whichever segment the search ends in. |
| BackendGeometry.InterpolateStrapping | platform/fmp/ingestion/tank_geometry.py:76-105 | Refuses exactly short tables, repeated heights and unknown methods, in that order; otherwise the clamped linear or spline value of the sorted table. |
| SplineTheory.MomentsUnique | platform/fmp/ingestion/tank_geometry.py:14-50 | The natural-spline system has at most one solution, so every correct solver returns the same moments. |
| SplineTheory.NaturalMomentsIffSmooth | platform/fmp/ingestion/tank_geometry.py:14-73 | Moments solve the system if and only if they vanish at the ends and the curve they draw has matching slope and curvature on both sides of every interior knot. |
| SplineTheory.SlopesAgreeIffRowHolds | platform/fmp/ingestion/tank_geometry.py:32-36 | Two neighbouring cubics have the same slope at their knot exactly when the row of that knot holds. |
| SplineTheory.SegmentAtEnds | platform/fmp/ingestion/tank_geometry.py:53-73 | Each cubic passes through both of its knots, with the moments as its second derivatives there. |
| SplineTheory.TaylorExpansion | platform/fmp/ingestion/tank_geometry.py:53-73 | The slope and curvature used above are the true derivatives of the evaluated cubic: its exact expansion around any point has no remainder. |
| SplineTheory.SegmentChoiceIrrelevant | platform/fmp/ingestion/tank_geometry.py:53-73 | Two segments that both contain a level give it the same value. |
| SplineTheory.SplineValueUnique | platform/fmp/ingestion/tank_geometry.py:14-73 | The natural spline through a table has one value at every level. |
| WebGeometry.RowReduced | web/src/lib/tankGeometry.ts:89-94 | One pass of the in-place matrix elimination turns a tridiagonal row into its reduced form and divides by a positive pivot. |
| WebGeometry.EliminationSolves | web/src/lib/tankGeometry.ts:89-101 | Elimination on the full matrix and back substitution give a solution of every natural-spline row. |
| WebGeometry.EliminateInPlace | web/src/lib/tankGeometry.ts:89-94 | The matrix loop leaves the reduced rows and zeroes the subdiagonal, never dividing by zero. |
| WebGeometry.SubstituteBack | web/src/lib/tankGeometry.ts:95-101 | Summing the whole upper triangle gives the same unknowns as the one entry that is not zero. |
| WebGeometry.SplineMoments | web/src/lib/tankGeometry.ts:71-101 | The solver returns the natural moments of every strictly increasing table. |
| WebGeometry.Evaluate | web/src/lib/tankGeometry.ts:103-115 | Clamping and linear search return the value of the natural spline at the level. |
| WebGeometry.InterpolateStrapping | web/src/lib/tankGeometry.ts:118-139 | The refusals and values of the web client, branch by branch; the linear branch never divides by zero even when heights repeat. |
| StrappingTable.SortedIncreasingIffDistinct | platform/fmp/ingestion/tank_geometry.py:84-88 | Sorting gives strictly increasing heights exactly when no two points share a height. |
| StrappingTable.SortsAgree | web/src/lib/tankGeometry.ts:123-126 | With distinct heights the two languages' sort orders build the same table, whatever they do with ties. |
| StrappingTable.LinearValueExists | platform/fmp/ingestion/tank_geometry.py:89-101 | Every level of a table has a linear value. |
| StrappingTable.LinearValueUnique | platform/fmp/ingestion/tank_geometry.py:97-101 | The linear value is unique even at a level where two chords meet. |
| StrappingTable.LinearMonotone | platform/fmp/ingestion/tank_geometry.py:76-101 | With non-decreasing volumes the linear table is non-decreasing in the level and stays between its first and last volume. |
| GeometryAgreement.RefusalsExact | platform/fmp/ingestion/tank_geometry.py:84-105 | The backend refuses fewer than two points first, then repeated heights, then an unknown method, and nothing else. |
| GeometryAgreement.AgreeOnDistinctHeights | web/src/lib/tankGeometry.ts:118-139 | On every table with distinct heights backend and web client return the same volume, for both methods and every level, knots included. |
| GeometryAgreement.AgreeIff | web/src/lib/tankGeometry.ts:118-139 | The exact condition of agreement on all tables: fewer than two points, distinct heights, or the spline method strictly inside the table. |
| GeometryAgreement.DuplicateHeightDisagrees | web/src/lib/tankGeometry.ts:118-139 | A two-point table that the backend refuses and the web client turns into 10 litres. |
| GeometryAgreement.BothVolumes | platform/fmp/ingestion/tank_geometry.py:76-105 | Running both programs on an accepted table yields two equal volumes. |
| TankShapes.ShapesAgreeIff | web/src/lib/tankGeometry.ts:142-161 | Backend and web client, each with its own formulas, agree on the regular shapes except for a vertical cylinder with stored height zero at a positive level. |
| TankShapes.CylindersAgree | web/src/lib/tankGeometry.ts:39-54 | The web client's horizontal cylinder gives the backend's litres at every level, whatever acos and sin. |
| TankShapes.VolumeMonotone | platform/fmp/ingestion/tank_geometry.py:212-228 | A higher level never means less volume in a vertical cylinder, a box or a sphere. |
| TankShapes.VolumeBounded | platform/fmp/ingestion/tank_geometry.py:212-228 | Every volume lies between zero and the volume at the top. |
| TankShapes.SphereSymmetric | platform/fmp/ingestion/tank_geometry.py:225-228 | In a sphere the filled part and the empty part add up to the full tank. |
| TankShapes.CylinderSymmetricIff | platform/fmp/ingestion/tank_geometry.py:136-150 | In a horizontal cylinder, at every level but the half-full one and for any acos and sin, the two parts add up unless filled and empty height both count as nothing. |
| TankShapes.HalfFullIff | platform/fmp/ingestion/tank_geometry.py:136-150 | At the half-full level the parts add up exactly when acos(0) and sin fit together. |
| DispenseInvariants.StepKeeps | platform/fmp/services/dispensing/dispense_engine.py:69-280 | Every step of every request keeps the invariant over rows, transactions, locks, consumed set and cache. |
| DispenseInvariants.RunKeeps | platform/fmp/services/dispensing/dispense_engine.py:69-280 | So does every interleaving of any length. |
| DispenseTheorems.EveryRunSettlesOnce | platform/fmp/services/dispensing/dispense_engine.py:132-280 | In every interleaving each code has at most one transaction, and it has one exactly when its fingerprint is consumed or its settler is between commit and sadd. |
| DispenseTheorems.EveryRunCachesExactly | platform/fmp/services/dispensing/dispense_engine.py:76-119 | A cached entry carries its own row's ids, and the exact remaining litres unless the code is settled; a stale entry exists only for a consumed code or one between commit and sadd, however late a validation writes it. |
| DispenseTheorems.EveryRunReplaysFaithfully | platform/fmp/services/dispensing/dispense_engine.py:143-148 | A request for a consumed code always finds that code's one transaction and is never refused. |
| DispenseReplies.ReplayTellsIff | platform/fmp/services/dispensing/dispense_engine.py:266-278 | Every replay, however late, repeats transaction and litres of the first answer; it repeats the status if and only if the dispense was neither partial nor over, and the new code if and only if there was none; the two responses are never equal altogether. |
| DispenseReplies.FirstDispenseAnswered | platform/fmp/services/dispensing/dispense_engine.py:464-472 | For every quota and amount there is a run whose first answer says OVER_DISPENSE above the quota plus 500 mL, PARTIAL with more than 1000 mL left and COMPLETED otherwise, and whose replay says COMPLETED. |
| DispenseReplies.CacheFollows | platform/fmp/services/dispensing/dispense_engine.py:251-264 | For every quota and amount: a validation caches the quota, the settlement takes that entry out, and what stays is the entry of the code for the rest if more than 1000 mL are left. |
| DispenseReplies.CachedValidationsAreFree | platform/fmp/services/dispensing/dispense_engine.py:87-90 | While the entry of a code is cached any number of validations is answered from it, without an attempt counted or anything else changed. |
| DispenseReplies.FiveValidations | platform/fmp/services/dispensing/dispense_engine.py:99-109 | Without the cache every validation counts: five are granted one after the other, and a sixth is not. |
| DispenseAmounts.EverySettlementExact | platform/fmp/services/dispensing/dispense_engine.py:155-241 | In every reachable state an unsettled code holds its whole quota; a settled one is PARTIAL_FULFILLED if and only if more than 1000 mL are left, FULFILLED otherwise, and holds what is left, never less than zero. |
| DispenseAmounts.EverySuccessorExact | platform/fmp/services/dispensing/dispense_engine.py:188-223 | In every reachable state an allocation has a successor if and only if its settlement left more than 1000 mL; the successor is for exactly the litres left and has a code for them. |
| DispenseAmounts.EveryResponseExact | platform/fmp/services/dispensing/dispense_engine.py:225-278 | Every answer to a settlement, in numbers: status, litres, the original code, and the rest with the code that draws it if and only if more than 1000 mL are left. |
| DispenseAmounts.EveryReplayAnswered | platform/fmp/services/dispensing/dispense_engine.py:143-148 | A request that finds its code consumed is answered with the one transaction of that code. |
| DispenseAmounts.EveryGrantCounted | platform/fmp/services/dispensing/dispense_engine.py:99-109 | The counter of a code is the number of validations granted for it in the run, never more than five; the next one is granted if and only if the code exists, is unsettled and has had fewer than five. |
| DispenseAmounts.EvictedStaysOut | platform/fmp/services/dispensing/dispense_engine.py:251-264 | After a settlement the entry of its code comes back to the cache only if a validation that read the rows earlier, or the settlement that issued the code, writes it. |
| DispenseTheorems.EveryRunExcludes | platform/fmp/services/dispensing/dispense_engine.py:424-436 | No two requests are inside the critical section of one code that is not yet in the consumed set. |
| DispenseFaults.FaultHarmlessIff | platform/fmp/services/dispensing/dispense_engine.py:243-280 | An exception in the critical section can never lead to a second settlement if and only if it does not fall between the commit and the sadd. |
| DispenseFaults.CrashHarmlessIff | platform/fmp/services/dispensing/dispense_engine.py:243-280 | A crash, after which the lock is left to expire, can never lead to a second settlement if and only if it does not fall between the commit and the sadd. |
| DispenseFaults.LockLossHarmlessIff | platform/fmp/services/dispensing/dispense_engine.py:424-436 | A lock that expires while held can never lead to a second settlement if and only if the code is already in the consumed set. |
| DispenseFaults.ConsumedLossHarmlessIff | platform/fmp/services/dispensing/dispense_engine.py:143-148 | Losing the entry of a code in the consumed set can never lead to a second settlement if and only if the code had none: settlement asks for nothing else. |
| DispenseFaults.SettlesTwice | platform/fmp/services/dispensing/dispense_engine.py:243-280 | The run that settles a code twice after a failure between commit and sadd. |
| DispenseFaults.ReleaseLetsTwoIn | platform/fmp/services/dispensing/dispense_engine.py:435-436 | Because the release deletes the lock whoever owns it, a request that has lost its lock lets a third one in beside the second, and both settle. |
| DispenseChains.RunKeepsChains | platform/fmp/services/dispensing/dispense_engine.py:185-223 | In every reachable state chains of successors are paths: a partially settled allocation has exactly one successor, whose quota is what it had left. |
| DispenseChains.UploadStartsChain | platform/fmp/services/dispensing/excel_ingestion.py:229-257 | An upload starts a chain of its own, with nothing dispensed, and leaves root and litres of every old allocation as they were. |
| DispenseChains.ChainBalance | platform/fmp/services/dispensing/dispense_engine.py:155-233 | What a chain has dispensed before an allocation plus that allocation's quota is the uploaded quota. |
| DispenseChains.EveryChainConserves | platform/fmp/services/dispensing/dispense_engine.py:155-241 | Litres dispensed along a chain plus what an unsettled tail holds are the uploaded quota; after a settled tail the total is at least the quota less 1000 mL, and at most the quota plus 500 mL exactly when the tail was no over-dispense: the grace is granted once per chain. |
| DispenseChains.EveryOverDispenseIsRecorded | platform/fmp/services/dispensing/dispense_engine.py:155-182 | The recorded transaction of a consumed code shows the litres its allocation dispensed, and OVER_DISPENSE exactly when they exceed the quota by more than 500 mL. |
| DispenseEngine.GenerateUniqueCode | platform/fmp/services/dispensing/code_generator.py:52-71 | Returns the first drawn code that is neither consumed nor issued and whose salted hash is not stored, and fails exactly when all five draws fail one of the three checks. |
| DispenseEngine.RunsAlone | platform/fmp/services/dispensing/dispense_engine.py:132-280 | The protocol steps of one undisturbed request are a valid run that ends in the state and reply of its branch. |
| DispenseEngine.Engine.CompleteDispense | platform/fmp/services/dispensing/dispense_engine.py:132-280 | The imperative settlement leaves tables, consumed set and cache, and answers, exactly as a valid run of the protocol does, with the lock free again. |
| DispenseEngine.Engine.CommitTransaction | platform/fmp/services/dispensing/dispense_engine.py:155-249 | The one database transaction: what it writes to codes, allocations and transactions, successor included. |
| DispenseEngine.LatestIsLast | platform/fmp/services/dispensing/dispense_engine.py:406-421 | The transaction a replay is answered from belongs to the code's row and no later one does; there is none exactly when the row has no transaction. |
| ModbusCrc.Crc16 | firmware/modbus_rtu.py:22-32 | The two nested loops compute the byte-wise CRC function the theorems are about. |
| ModbusCrc.CrcIsBitSerial | firmware/modbus_rtu.py:22-32 | The byte-wise computation equals feeding the bits one by one in the order they travel on the line. |
| ModbusCrc.CrcIsRemainder | firmware/modbus_rtu.py:22-32 | The CRC is the mirrored remainder of the frame under division by x^16 + x^15 + x^2 + 1, from the start value of all ones. |
| ModbusCrc.ShiftsLinear | firmware/modbus_rtu.py:26-31 | Shifting the register is linear over exclusive-or. |
| ModbusCrc.ShiftsInjective | firmware/modbus_rtu.py:26-31 | Shifting the register never maps two states to one. |
| ModbusCrc.BurstDetected | firmware/modbus_rtu.py:22-32 | Two different frames of one length whose difference lies within 16 consecutive bits have different CRCs. |
| ModbusCrc.AdjacentBytesWithin | firmware/modbus_rtu.py:22-32 | Changing one byte or two adjacent bytes is such a difference. |
| ModbusCodec.ParseResponse | firmware/modbus_rtu.py:58-83 | The checks fail in the order of the source, with the first fault, and otherwise the registers are read big-endian. The first byte of a register is its high one. |
| ModbusCodec.ExceptionReported | firmware/modbus_rtu.py:59-77 | Every exception response of the slave is reported with its code, whatever was asked for. |
| ModbusCodec.OtherSlaveRefused | firmware/modbus_rtu.py:59-64 | A frame of another slave is never taken for one of the expected slave, whatever else it holds. |
| ModbusCodec.ResidueZeroIff | firmware/modbus_rtu.py:35-37 | The CRC over a whole frame is zero exactly when its last two bytes are the CRC of the rest, low byte first. |
| ModbusCodec.PrintedResidueZero | firmware/modbus_rtu.py:35-37 | Every frame with its CRC appended has residue zero. |
| ModbusCodec.ParsesIffPrinted | firmware/modbus_rtu.py:58-83 | The parser returns given values if and only if the frame is the printed response of the expected slave for exactly these values. |
| ModbusCodec.RoundTrip | firmware/modbus_rtu.py:35-83 | Printing and parsing returns the values, for every slave and every list that fits a frame. |
| ModbusCodec.BurstRaises | firmware/modbus_rtu.py:58-84 | No error burst of up to 16 bits turns one accepted frame into another, whichever slave and count the receiver expects. |
| ModbusCodec.CorruptionRaises | firmware/modbus_rtu.py:58-84 | Changing any one byte or any two adjacent bytes of an accepted frame, CRC included, makes the parser raise. |
| CommandRelay.Queues.EnqueueCommand | platform/fmp/ingestion/relay.py:51-62 | The frame becomes the last in read order; nothing else moves. |
| CommandRelay.Queues.TakeCommand | platform/fmp/ingestion/relay.py:73-78 | The first frame in read order moves to the left end of inflight; nothing happens on an empty queue. |
| CommandRelay.Queues.ReleaseCommand | platform/fmp/ingestion/relay.py:81-83 | Removes the left end of inflight and leaves outbound alone. |
| CommandRelay.Queues.DrainInflight | platform/fmp/ingestion/relay.py:65-70 | Terminates with inflight empty, the old read order first and the leftovers behind it, oldest first. |
| CommandRelay.RelayLoop | platform/fmp/ingestion/relay.py:105-157 | Without failures accepted frames are published in read order, rejected ones stay in flight in that order, and the rest keeps its order. |
| CommandRelay.ChosenIs | platform/fmp/ingestion/relay.py:144-150 | The frames published, and those left in flight, are exactly the accepted and the rejected ones, each once and in order. |
| CommandRelay.StepKeeps | platform/fmp/ingestion/relay.py:105-157 | Every Redis operation, publish, exception, crash and restart keeps the relay invariant. |
| CommandRelay.NoFrameLost | platform/fmp/ingestion/relay.py:65-157 | With one relay and failures between any two operations each frame has at least as many copies waiting, in flight or accepted by the broker as it was enqueued. |
| CommandRelay.ReleaseRemovesPublished | platform/fmp/ingestion/relay.py:81-83 | In every run the pop after a publish removes exactly the published frame, also with rejected frames behind it. |
| CommandRelay.FirstInFirstOut | platform/fmp/ingestion/relay.py:51-78 | Over every run with any failures: what has been taken, followed by what waits, is what was put in, in the order in which it was put in. |
| CommandRelay.DeliversAll | platform/fmp/ingestion/relay.py:105-157 | Without failures every frame goes all the way: accepted once and off both lists. |
| CommandRelay.DrainTerminates | platform/fmp/ingestion/relay.py:65-70 | From any state after a restart the drain ends after as many moves as there are leftovers, in the stated order. |
| CommandRows.BackoffDoubles | platform/fmp/ingestion/relay.py:41-44 | Each wait is twice the one before until the cap of 900 s, and never below 60 s. |
| CommandRows.BackoffIs | platform/fmp/ingestion/relay.py:41-44 | The waits are 60, 120, 240, 480 and from then on 900 s. |
| CommandRows.Table.Sweep | platform/fmp/workers/tasks/commands.py:20-86 | One sweep is, for every row, its three passes with the marks and answers that other processes commit between them, and requeues exactly the retried frames, in table order, behind what waits. |
| CommandRows.Table.RequeueDue | platform/fmp/workers/tasks/commands.py:25-53 | First pass: due rows with attempts left are requeued and rescheduled; the others stay. |
| CommandRows.RetriedIs | platform/fmp/workers/tasks/commands.py:27-46 | Exactly the rows that are sent, past their retry time and have attempts left are requeued, each once and in table order. |
| CommandRows.Table.FailExhausted | platform/fmp/workers/tasks/commands.py:55-71 | Second pass: due rows without attempts left fail; the others stay. |
| CommandRows.Table.ExpirePending | platform/fmp/workers/tasks/commands.py:73-84 | Third pass: rows the relay never picked up in time fail; the others stay. |
| CommandRows.Table.MarkRowSent | platform/fmp/ingestion/relay.py:163-179 | The row of a known id becomes sent with one more attempt, to be retried 60, 120, 240, 480 or 900 s later by the number of attempts; no other row changes. |
| CommandRows.Table.HandleAck | platform/fmp/ingestion/main.py:649-667 | The row of a known id becomes acked or rejected without a retry time; no other row changes. |
| CommandRows.NoRetryAndFail | platform/fmp/workers/tasks/commands.py:25-71 | A row that a sweep retries is not failed by the same sweep, whatever happens to the row between the two passes. |
| CommandRows.LifeKeeps | platform/fmp/ingestion/relay.py:163-179 | In every order of marks, retries, fails, expiries and answers "sent" means at least one attempt and a retry time, and attempts never fall. |
| CommandRows.NewRowRequeues | platform/fmp/workers/tasks/commands.py:25-53 | A new command is requeued at most max_attempts - 1 times, in every order of marks, retries, fails, expiries and answers. |
| CommandRows.SurvivesIff | platform/fmp/workers/tasks/commands.py:25-84 | The exact outcome of a due sweep: the row ends in "sent" when the last thing between its passes is a mark, or when nothing comes between and attempts were left. |
| CommandRows.DueSweepsBounded | platform/fmp/workers/tasks/commands.py:25-71 | The due sweeps a command survives in "sent" are at most max_attempts - attempts, plus those that found it exhausted and were outdone by a mark between their passes. |
| CommandRows.BoundThroughoutIff | platform/fmp/workers/tasks/commands.py:25-71 | The bound max_attempts - attempts holds throughout a life if and only if no sweep that finds the row exhausted is outdone like that. |
| CommandRows.MarksSaveForever | platform/fmp/workers/tasks/commands.py:55-71 | Otherwise there is no bound: an exhausted row survives any number of due sweeps with one mark between the passes of each. |
| CommandRows.UnmarkedFails | platform/fmp/workers/tasks/commands.py:25-71 | A sent command that nobody answers and the relay does not mark again fails at exactly the due sweep after its last attempt. |
| CommandAttempts.AttemptsCounted | platform/fmp/workers/tasks/commands.py:49-50 | Every mark and every requeue counts one attempt, and undisturbed sweeps count nothing else. |
| CommandAttempts.UnansweredFails | platform/fmp/workers/tasks/commands.py:55-71 | A sent command that nobody answers, however often the relay marks it, stays sent exactly until the first sweep that finds it due with its attempts used up by marks and requeues, and that sweep fails it. |
| CommandAttempts.RequeuesHalved | platform/fmp/ingestion/relay.py:173-178 | The relay marks a requeued frame again: with a mark between any two requeues a new command is requeued at most max_attempts / 2 times, once for the default of three. |
| CommandAttempts.HalfReached | platform/fmp/ingestion/relay.py:173-178 | For every max_attempts there is such a life with exactly that many requeues. |
| CommandTimes.RetryTimeExact | platform/fmp/ingestion/relay.py:41-48 | Over every life of a new command: after its n-th mark or requeue, read at clock t, the retry time is t plus 60, 120, 240, 480 and from then on 900 s. |
| CommandTimes.SweepExact | platform/fmp/workers/tasks/commands.py:25-69 | At any point of a life a sweep requeues or fails a sent command if and only if the wait since the last mark or requeue is over; which of the two, their number decides. |
| CommandTimes.ExhaustsWhen | platform/fmp/workers/tasks/commands.py:55-71 | The sweep that fails an unanswered command is the first with its attempts used up and the wait after the last mark or requeue over. |
| CommandTimes.PendingExpiresIff | platform/fmp/workers/tasks/commands.py:71-82 | A command the relay never picks up fails if and only if a sweep comes more than 120 s after its creation; no sweep requeues it. |
| CommandTimes.AnswerStands | platform/fmp/ingestion/main.py:649-667 | An answer says how the command ended, costs no attempt and stands whatever the sweeper does. |
| CommandRaces.RetryLosesMarks | platform/fmp/workers/tasks/commands.py:37-53 | The retry pass computes the attempts from the row it read: of the marks committed before its own commit exactly all are lost in the count, while the status they leave stays. |
| CommandRaces.AnswerStaysIff | platform/fmp/workers/tasks/commands.py:66-84 | An answer committed between the query and the commit of a pass stays in the row if and only if the pass does not write failed over it. |
| CommandRaces.RacedAttempts | platform/fmp/workers/tasks/commands.py:37-53 | From commit to commit attempts never fall, and a requeue counts one, whatever comes between query and commit. |
| CommandRaces.RacedRequeuesBounded | platform/fmp/workers/tasks/commands.py:25-84 | The bound of max_attempts - 1 requeues survives every race of the three passes with marks and answers. |
| CommandRaces.LostMarksReachBound | platform/fmp/workers/tasks/commands.py:37-53 | And it is reached by a relay that marks every requeued frame, if it does so before the pass commits. |
| CommandRegistry.Dispatch | firmware/commands.py:67-82 | A dispatched command is executed unless its interval is not a number; the interval set is the number sent if it lies in 5 to 3600 and the nearer end otherwise, and the detail names it. |
| CommandRegistry.Registry.Handle | firmware/commands.py:38-65 | One call changes the table and answers as the step relation of the runs demands. |
| CommandRegistry.Registry.Prune | firmware/commands.py:93-96 | Exactly the ids stamped before the retention time go. |
| CommandRegistry.Registry.Remember | firmware/commands.py:87-91 | At capacity an entry with the least stamp goes before the id is stamped. |
| CommandRegistry.EffectsComeFromDispatch | firmware/commands.py:38-65 | An effect is returned exactly at a call that reaches the dispatcher with a command that has one. |
| CommandRegistry.RepliesExact | firmware/commands.py:38-82 | Every reply of every run: unackable, unsupported and duplicate calls, and for each kind the effect and detail, an interval being the nearest one from 5 to 3600 to the value sent. |
| CommandRegistry.StaysKnown | firmware/commands.py:38-96 | A dispatched id stays known for the whole retention time unless it is crowded out or the gateway is restarted. |
| CommandRegistry.DispatchedTwice | firmware/commands.py:38-96 | Two calls with one id both reach the dispatcher only if they are more than 24 h apart, an unsupported command between them found the table full of ids noted since the first call, or the gateway was restarted between them. |
| CommandRegistry.RedeliveryDispatchedIff | firmware/commands.py:38-96 | A redelivery is dispatched again if and only if it comes more than 24 h after the last dispatch of its id, an unsupported command in between found the table full of ids noted since, or the gateway was restarted in between; otherwise it is acknowledged as an executed duplicate. For calls of other ids at other instants than that dispatch. |
| CommandRegistry.RestartForgets | firmware/main.py:88-88 | The table lives in memory: after a restart the next delivery of a dispatched id is dispatched again, however soon it comes. |
| CommandRegistry.TiesDecide | firmware/commands.py:87-91 | When another id bears the same stamp, the choice among equal stamps decides: two runs of the same calls, one with a second dispatch and one without. |
| CommandRegistry.CrowdingEvicts | firmware/commands.py:87-91 | A crowding call throws out the id with the least stamp, if it is alone with it. |
| CommandRegistry.DuplicateAckAgreesIff | firmware/commands.py:59-65 | The acknowledgement of a redelivery agrees with the first one if and only if the command can be carried out or is dispatched again, restarts included: the duplicate of a rejected interval is acknowledged as executed. |
| CommandRegistry.CarriedOutTwice | firmware/commands.py:3-5 | Against the promise of one effect per id: for every table size, a command is dispatched twice within three seconds when size - 1 new ids and one unsupported command come in between. |
| CommandRegistry.CrowdingRunExists | firmware/commands.py:87-91 | Such a run, without a restart, exists for every table size and every supported command. |
| CommandEffects.AppliedIff | firmware/main.py:105-119 | The fate of an effect: the main loop applies it if and only if publishing its acknowledgement returns and neither a restart nor the effect of another acknowledged command comes first. |
| CommandEffects.AppliedOnce | firmware/main.py:186-187 | The effect of one call is applied at most once, with commands handled while an acknowledgement is being published. |
| CommandEffects.AppliedIsDispatched | firmware/main.py:105-119 | What is applied is the effect of a dispatched command that was handled before. |
| CommandEffects.EffectsOfIdIff | firmware/main.py:105-196 | The effect of an id happens at least once if and only if one of its calls lands, and at most once if and only if no two of them do. |
| CommandEffects.RebootRestarts | firmware/main.py:193-196 | Whatever call comes after an applied reboot comes after a restart. |
| CommandEffects.RebootRunsAgain | firmware/main.py:193-196 | The next delivery of a reboot that has happened is dispatched again and returns the reboot effect, however soon it comes. |
| CommandEffects.RebootsEveryTime | firmware/main.py:193-196 | For every reboot command and every number of deliveries, a minute apart, there is a course in which every one of them reboots the gateway. |
| CommandEffects.ExecutedButNotApplied | firmware/main.py:114-119 | When the effect of a dispatch does not land, a filtered redelivery is acknowledged as executed all the same, and no delivery of the id so far has applied anything. |
| CommandEffects.FailedAckLosesEffect | firmware/main.py:114-119 | For every command with an effect: when publishing its acknowledgement raises, the effect never happens and the redelivery a minute later is acknowledged as executed. |
| CommandEffects.LaterEffectWins | firmware/main.py:89-89 | There is room for one pending effect: of any two commands acknowledged before the main loop comes round, only the later effect happens. |
| CommandDelivery.ReachesGateway | platform/fmp/ingestion/relay.py:65-157 | A frame that was ever enqueued and has left both lists was accepted by the broker, through any failures and restarts of the relay, so it is handled if the gateway handles what the broker accepts. |
| CommandDelivery.OnlyEnqueuedReach | platform/fmp/ingestion/relay.py:51-157 | The gateway handles only commands that were enqueued. |
| CommandDelivery.ExactlyOnceIff | firmware/commands.py:38-96 | The first delivery of an enqueued command that the gateway handles is dispatched, and this stays the only dispatch if and only if no later delivery comes more than 24 h after it, after its id was crowded out, or after a restart of the gateway. |
| CommandDelivery.EffectOnceIff | firmware/main.py:105-196 | While an id is dispatched only once its effect happens at most once, and it does happen if and only if that dispatch lands. |
| CommandDelivery.RebootNeverOnlyOnce | firmware/main.py:193-196 | A reboot is never dispatched only once if a delivery of it comes after it has happened. |
| AlarmPipeline.AverageBetween | platform/fmp/ingestion/processor.py:85-90 | Averaging never leaves the interval between the smoothed value and the sample. |
| AlarmRuns.EmaAfter | platform/fmp/ingestion/processor.py:85-100 | Before each frame the stored value is the last smoothed level, or absent at the start and exactly after an over-range frame. |
| AlarmPipeline.EvaluateAlarmRules | platform/fmp/ingestion/pipeline.py:106-131 | The candidates in the order of the rules: critical and low at or below their level, high at or above it, low volume at or below and high volume at or above theirs, each only with its column set. |
| AlarmConditions.RaisedInNumbers | platform/fmp/ingestion/pipeline.py:87-131 | The column and the comparison behind every alarm. |
| AlarmConditions.RuleOrderIs | platform/fmp/ingestion/pipeline.py:106-131 | Alarms in the order of the rules are a selection from critical, low, high, low volume, high volume, sensor fault, in that order. |
| AlarmConditions.RaisedAcrossLevels | platform/fmp/ingestion/pipeline.py:87-131 | Emptying further never loses a low or critical alarm, filling further never a high one. |
| AlarmConditions.CriticalImpliesLowIff | platform/fmp/ingestion/pipeline.py:87-131 | With both columns set every critical reading is a low one if and only if the critical level is not above the low one. |
| AlarmConditions.OverRangeIff | platform/fmp/ingestion/pipeline.py:322-336 | A level is over range if and only if it is more than 5 % above a positive height, or above the diameter of a vertical tank without one. |
| AlarmConditions.ReadingExact | platform/fmp/ingestion/pipeline.py:322-345 | A frame is over range, and raises a sensor fault, if and only if its smoothed level is; then the rounded height stands for the level, otherwise the smoothed level itself. |
| AlarmPipeline.Pipeline.Process | platform/fmp/ingestion/pipeline.py:311-403 | One frame moves the smoothing value, the open-set and the alarm rows of every type, and fires alarms, as the step relation of the runs demands. |
| AlarmPipeline.Pipeline.RaiseNew | platform/fmp/ingestion/pipeline.py:374-379 | Exactly the candidates without a key fire, and afterwards all candidates have one. |
| AlarmPipeline.Pipeline.ResolveCleared | platform/fmp/ingestion/pipeline.py:189-257 | Exactly the cleared keys go, each with its latest live row resolved and no other row touched. |
| AlarmPipeline.FindLatestLive | platform/fmp/ingestion/pipeline.py:226-238 | Finds a live row with the latest timestamp, or none exactly when no row is live. |
| AlarmRuns.ActionsKeepSignals | platform/fmp/api/v1/alarms.py:89-126 | No sequence of operator actions changes the open-set or the smoothing. |
| AlarmRuns.ActionsCarry | platform/fmp/api/v1/alarms.py:89-126 | Operator actions keep every row in its place, never change a resolved one and never reopen one. |
| AlarmConditions.ActionsOnRow | platform/fmp/api/v1/alarms.py:89-126 | What any sequence of operator actions makes of a row: resolved if and only if it was or one of them resolves it, still active if and only if none touches it; an acknowledgement never resolves. |
| AlarmRuns.HoldsIffOutsideBand | platform/fmp/ingestion/pipeline.py:87-103 | A raised alarm is not held by its own frame exactly inside the band by which the hysteresis widens the clear region. |
| AlarmRuns.KeyIffHeld | platform/fmp/ingestion/pipeline.py:198-257 | In every run a key is open exactly when the last frame holds its alarm, whatever operators did. |
| AlarmRuns.FiresIff | platform/fmp/ingestion/pipeline.py:372-379 | A frame fires an alarm exactly when it raises the condition and the frame before it did not hold it. |
| AlarmRuns.AlarmsCounted | platform/fmp/ingestion/pipeline.py:372-386 | For every type the alarms fired are the maximal runs of violating frames plus the violating frames that follow a frame in the band. |
| AlarmRuns.OneAlarmPerRunIff | platform/fmp/ingestion/pipeline.py:372-386 | Exactly one alarm per maximal run holds if and only if no violating frame follows a frame in the band. |
| AlarmRuns.OneAlarmPerRun | platform/fmp/ingestion/pipeline.py:372-386 | For low-level, critical-level and sensor-fault alarms exactly one alarm fires per maximal run, in every run with operators interleaved. |
| AlarmRuns.ResolvedForGood | platform/fmp/api/v1/alarms.py:89-126 | Once resolved, a row is never changed again. |
| AlarmRuns.OneRowPerAlarm | platform/fmp/ingestion/pipeline.py:388-398 | The rows of a type are exactly the alarms fired; none appears or disappears otherwise. |
| AlarmConditions.FiredRow | platform/fmp/ingestion/pipeline.py:388-398 | A fired alarm is an active row with the time of its frame, behind the rows that were there. |
| AlarmConditions.ClearsNewest | platform/fmp/ingestion/pipeline.py:226-257 | With frames in the order of their times, a frame that clears an alarm resolves the row that fired last among its live ones, and no other. |
| AlarmConditions.ClearsLatest | platform/fmp/ingestion/pipeline.py:226-257 | Whatever the times, the row a clearing frame resolves has the latest time of all live ones. |
| AlarmConditions.UnclearedStays | platform/fmp/ingestion/pipeline.py:226-257 | A frame that does not clear an alarm leaves its rows alone, but for the new one. |
| AlarmConditions.KeyHasRow | platform/fmp/ingestion/pipeline.py:189-257 | As long as no operator resolves an alarm by hand, an open key always has an open row behind it, for every type. |
| AlarmConditions.OneOpenRowIffHeld | platform/fmp/ingestion/pipeline.py:189-398 | For low-level, critical-level and sensor-fault alarms there is then exactly one open row while the last frame raises the alarm, and none otherwise. |
| AlarmRuns.FrameTracksIff | platform/fmp/ingestion/pipeline.py:226-257 | A frame that finds at most one open row, with its key open, leaves it so if and only if its value is outside the band or the frame before held the alarm. |
| AlarmRuns.OpenRowsTracked | platform/fmp/ingestion/pipeline.py:226-257 | As long as every frame in the band follows one that holds the alarm, at most one row is open and its key is in the open-set. |
| AlarmRuns.AtMostOneOpenRow | platform/fmp/ingestion/pipeline.py:226-257 | For low-level, critical-level and sensor-fault alarms at most one row is ever open and its key is in the open-set. |
| AlarmRuns.SmoothedBetween | platform/fmp/ingestion/processor.py:85-100 | The smoothed level lies between the least and greatest raw level since the last reset. |
| AlarmConditions.StepResponse | platform/fmp/ingestion/processor.py:85-100 | The distance of the smoothed level from a raw level that stays the same shrinks to nine elevenths with every frame. |
| AlarmRuns.InRangeRawsNoFault | platform/fmp/ingestion/pipeline.py:322-343 | No frame is over range while all raw levels since the last reset are within 1.05 of the height. |
| AlarmRuns.FaultClearsAtFirstGoodFrame | platform/fmp/ingestion/pipeline.py:337-386 | After an over-range frame the next smoothed level is the raw one, so an open fault is resolved at once exactly when that level is in range, and no fault row stays open. |
| AlarmRuns.SteadyLevelStorms | platform/fmp/ingestion/pipeline.py:87-103 | For every threshold and every number of frames: a steady level just on the high-level line fires an alarm per frame and leaves the last row open without its key. |
| FrameBuffer.FrameBuffer.Append | firmware/frame_buffer.py:47-54 | After an append the readable frames are what trimming keeps of the old ones and the new one; a file that cannot be opened stays unchanged, and one that cannot be rewritten just grows. |
| FrameBuffer.FrameBuffer.Snapshot | firmware/frame_buffer.py:56-61 | Returns the frames of exactly the lines that parse, each once and in file order, whatever lies between them. |
| FrameBuffer.TornLinesInvisible | firmware/frame_buffer.py:27-37 | Lines torn by a power cut, wherever they lie, change neither what a reader sees nor what an append keeps. |
| FrameFile.ReadFrames | firmware/frame_buffer.py:19-27 | The loops over reads and lines return the frames the reading function sees. |
| FrameFile.SnapshotSeesIff | firmware/frame_buffer.py:19-37 | Of the frames written a reader sees exactly those that do not reach beyond the end of the read they begin in, each once and in order: a frame across a boundary of 65,536 characters is lost. |
| FrameFile.OneReadSeesAll | firmware/frame_buffer.py:19-37 | Nothing is lost from a file that fits into one read. |
| FrameBuffer.FrameBuffer.Trim | firmware/frame_buffer.py:69-86 | Rewrites the file to the kept frames, or leaves it when nothing is dropped. |
| FrameBuffer.KeepsInOrder | firmware/frame_buffer.py:69-79 | The kept frames are a subsequence of the frames, each from its own place. |
| FrameBuffer.KeepWithinBounds | firmware/frame_buffer.py:69-79 | What is kept stays within max_frames and max_bytes. |
| FrameBuffer.TotalIsFileSize | firmware/frame_buffer.py:69-79 | The bytes counted are the length of the text of the file, line ends included. |
| FrameBuffer.KeptIff | firmware/frame_buffer.py:73-78 | A frame is kept if and only if it fits beside the frames kept among the newer ones. |
| FrameBuffer.KeepsAllIff | firmware/frame_buffer.py:80-81 | Trimming changes nothing if and only if all frames fit. |
| FrameBuffer.KeepIdempotent | firmware/frame_buffer.py:69-86 | Trimming twice is trimming once. |
| FrameBuffer.OldestFirstIff | firmware/frame_buffer.py:69-79 | Oldest frames go first if and only if the count is used up or no older frame fits into the room left. |
| FrameBuffer.NotAlwaysOldestFirst | firmware/frame_buffer.py:69-79 | Three frames of which the middle one goes and the oldest stays, against the documented oldest-first trimming. |
| FrameBuffer.EqualSizesHoldNewest | firmware/frame_buffer.py:47-86 | With frames of one size any sequence of appends leaves exactly the newest min(n, max_frames, max_bytes / size). |
| FrameBuffer.AppendedFits | firmware/frame_buffer.py:47-86 | After any appends the buffer fits, its last frame is the one just appended if that fits alone, and otherwise the append changes nothing. |
| RateLimiter.Limiter.FallbackConsume | platform/fmp/api/v1/auth.py:66-83 | One call decides, prunes, stamps and evicts as the table function of the histories does; the remaining count includes the call itself. |
| RateLimiter.PrunedAgrees | platform/fmp/api/v1/auth.py:66-83 | For every window still to come the pruned list and the full history of allowed calls since the last eviction hold the same stamps. |
| RateLimiter.RefusedIff | platform/fmp/api/v1/auth.py:73-78 | For any non-decreasing clock a call is refused exactly when the limit of allowed calls already lies in the last window. |
| RateLimiter.AllowedIff | platform/fmp/api/v1/auth.py:66-83 | A call is allowed if and only if fewer than limit calls with its key were allowed in the window that ends with it, the key not having been evicted since. |
| RateLimiter.WindowNeverOverfull | platform/fmp/api/v1/auth.py:66-83 | While a key is not evicted no window, wherever it starts, holds more allowed calls than the limit. |
| RateLimiter.AtMostMaxKeysIff | platform/fmp/api/v1/auth.py:76-82 | Over all histories the table never holds more than 10,000 keys if and only if the limit is positive. |
| RateLimiter.RefusalsPileUp | platform/fmp/api/v1/auth.py:76-78 | Without a positive limit every refusal stores its key before any eviction: the table grows by one with every new key. |
| RateLimiter.EvictsIff | platform/fmp/api/v1/auth.py:76-82 | A call evicts a key if and only if the limit is positive, the call brings a new key to a full table and the evicted key was inserted first. |
| MqttFraming.EncodeRemainingLength | firmware/mqtt_client.py:28-37 | The loop computes the length code of every natural number. |
| MqttFraming.DecodesEncoded | firmware/mqtt_client.py:28-37 | Decoding returns every encoded number and consumes exactly its code, whatever follows. |
| MqttFraming.EncodedGroups | firmware/mqtt_client.py:28-37 | Byte i of the code carries the i-th group of seven bits, lowest first, and its top bit says whether more follow. |
| MqttFraming.EncodesDecodedIff | firmware/mqtt_client.py:199-207 | Encoding returns a decoded code if and only if it does not end in a superfluous zero group. |
| MqttFraming.FourBytesIff | firmware/mqtt_client.py:28-37 | The code takes at most four bytes if and only if the number is at most 268,435,455. |
| MqttFraming.LengthIff | firmware/mqtt_client.py:28-37 | The code takes at most k bytes exactly below the k-th power of 128. |
| MqttFraming.ReadPacket | firmware/mqtt_client.py:192-215 | Outcome and bytes used are those of the reading function for every behaviour of the line; a packet is returned only as the first packet of the pending bytes, which it consumes exactly; without timeouts the bytes alone decide, however they are cut into pieces; "nothing" consumes nothing. |
| MqttFraming.ReadOutcome | firmware/mqtt_client.py:192-215 | The reading function for every line: nothing is read exactly when the first byte is late, and an interruption before a complete packet has used at least one byte of it and not all. |
| MqttFraming.ReadLength | firmware/mqtt_client.py:198-207 | The length loop reads exactly one length code. |
| MqttFraming.ReadBody | firmware/mqtt_client.py:208-214 | The body loop collects exactly the announced bytes from arbitrary pieces. |
| MqttFraming.ReadsBackStream | firmware/mqtt_client.py:192-215 | The concatenated frames of any list of packets decompose into that list with nothing left over. |
| MqttFraming.InStepIff | firmware/mqtt_client.py:192-215 | A read from a stream of packets stops at a packet boundary if and only if it is not interrupted after its first byte. |
| MqttFraming.PollAll | firmware/mqtt_client.py:257-263 | Repeated polls return what the reading function returns, each going on where the one before stopped. |
| MqttFraming.PollsInOrder | firmware/mqtt_client.py:257-263 | Polls none of which is interrupted in the middle of a packet return the packets of the stream in order, without a gap, and leave the others, whatever the line does otherwise. |
| MqttFraming.InterruptedMisframes | firmware/mqtt_client.py:257-263 | A timeout between length and body is swallowed and the next polls read the body as packets: for every packet whose body is itself a stream of packets, those are returned and the packet is not. |
| MqttFraming.StreamInjective | firmware/mqtt_client.py:192-215 | No two lists of packets have the same byte stream. |
| MqttFraming.PidAt | firmware/mqtt_client.py:81-83 | The k-th identifier counts on from 1 and starts again at 1 after 65535. |
| MqttFraming.PidsEqualIff | firmware/mqtt_client.py:81-83 | Identifiers are never zero and repeat exactly every 65,535 calls. |
| MqttDispatch.PublishOutcome | firmware/mqtt_client.py:220-234 | Of every QoS 1 publish the client takes the second length byte and the first byte of the topic for the topic length; it raises exactly when the packet does not reach that far or the topic cut out is no text, and else passes on what lies behind. |
| MqttDispatch.PayloadIntactIff | firmware/mqtt_client.py:220-234 | The payload reaches the callback as it was sent if and only if the topic is 257 times as long as one more than its first byte, or 256 bytes that start with 255, and its tail is a text. |
| MqttDispatch.ShortTopicNeverIntact | firmware/mqtt_client.py:220-234 | So no publish on a topic shorter than 256 bytes is passed on as it was sent: the client raises, or cuts 255 bytes off for each byte of the topic and one for each unit of its first byte, and one more. |
| MqttDispatch.AckNamesPublishIff | firmware/mqtt_client.py:231-241 | The acknowledgement names the publish if and only if its identifier is the topic length the client assumed. |

## Left out

- Floating point: levels, volumes and smoothed values are exact reals, so rounding to three decimals and to 0.1 L is not modelled; the rounded tank height is a parameter.
- SQL, Redis, MQTT, serial and TLS transport, task scheduling, HTTP routing and user interface: only rows, lists, sets, maps and byte streams remain.
- Hashing and signing: a code stands for its fingerprint, so fingerprints are taken as injective; whether a drawn code's salted hash is already stored is a parameter of the draw.
- Random codes, clocks and publish results: parameters or nondeterministic steps; so is the choice among equal stamps in the duplicate filter, since MicroPython dictionaries have no order.
- Expiry of dispense codes by date: a validation may give up at any point, which covers that refusal.
- Row locks of the database: the lock that `_lookup_code` takes justifies that looking up, checking, counting and committing in a validation is one step; a settlement is not given that protection, which allows more interleavings.
- The per-station throttle of validations and the 50 tries for the lock: a request that does not get through changes nothing.
- Responses of refused settlements: modelled as a refusal without a change of state.
- DispenseEngine.Engine.CompleteDispense: one request at a time; interference is the subject of the protocol, and a refused lock means it was held at all tries.
- CommandRelay.RelayLoop: processes a given number of frames without failures and without waiting; failures are the subject of the state machine.
- CommandRows.Table.Sweep: each of the three passes reads and writes its rows in one step; what else may be committed between the query and the commit of a pass, and what that loses, is the subject of CommandRaces.
- A mark or an answer that reads its row before another commit and writes it after: only the sweeper's passes are split into query and commit.
- The sweeper's database failures after requeueing: a row could then be requeued again without a counted attempt.
- The JSON text of a queued command is its value without the time stamps of its issue and publication, so re-encoding changes nothing.
- Malformed acknowledgements, which only reach a dead-letter list, and the gateway's online status.
- MAD outlier detection, density and volume correction, fill percentage and measurement rows: independent of the alarms.
- Frames that end in an exception; message texts, notification and escalation of alarms; other tanks' rows.
- Two workers handling frames of one tank at the same time: one worker holds a tank's state.
- Changing thresholds between frames: a run has one tank configuration.
- Elliptical tank ends, which the web client leaves out altogether, and all trigonometry beyond what symmetry needs.
- Strapping points as dictionaries: points are height and volume pairs.
- FrameBuffer.FrameBuffer.Append: the class holds the file as lines, each of which parses or is skipped; that a read may cut a line is the subject of FrameFile.
- Frames of which decoding and encoding would give a different text: the compact text stands for the frame.
- The Redis limiter: only the in-process fallback is modelled.
- MQTT connection set-up, QoS 0 and 2 deliveries and invalid bytes in a payload; which bytes are a text is a parameter.
- Application of an effect as such: taking it from the pending place counts, and a status report that fails to go out afterwards is not distinguished.
- Commands whose JSON is no object, and exceptions of the callback other than those of publishing, which end the program.
- Requests to a Modbus slave, 32-bit assembly and the serial driver.
- Totalizer audit, reports, tenancy filters, notifications and ingestion counters.
