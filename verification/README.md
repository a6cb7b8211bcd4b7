# Verification of the robot's command, stop and wire-format logic

A Dafny 4.11 model of the parts of the robot software that decide whether an actuator may move: the stop, e-stop and
release protocol between the execution manager, the bus router and the port drivers; the command arbitrator and the
motion controller that asks it for leases; the IMU and servo wire formats; and the smaller machines and arithmetic
around them. `dafny verify dfyconfig.toml` checks everything.

## How it is laid out

Code that updates objects is a `class` whose methods are proved against functions on plain values; the theorems are
about those functions, over every run.

- `SafetyLatch`: the latch of the router and of every port driver, and what its three fields mean in terms of all
  signals it ever saw. `ProtocolRouter` has the handlers that use it.
- `StopRegions`, `ExecutionManager`: what the manager does in each region it runs under its lock, as functions and as the
  object. `StopProtocol` composes these regions with the drivers into a step system; `StopInvariants`, `StopTheorems` and
  `StopReleases` are about its runs, `StopFailures` about stops that were not written, `StopLeases` about the moves it
  publishes, `StopOperations` about the phases of a stop, and `StopDeliveries` about what must be announced, forwarded and
  answered; `StopWitnesses` shows runs in which something does not hold.
- `Arbitration`, `Arbitrator`: the command arbitrator as a value and as an object. Over whole runs: `LeaseRuns` for the
  task lease, `TeleopRuns` for the teleop lease and motion, `RefusalRuns` for the reasons of refusals, and `StatusRuns` for
  mode and status.
- `TaskReports`, `ControllerAccounting`, `ControllerTheorems`, `ControllerDeliveries`: the motion controller's side, composed
  with the arbitrator.
- `ReplayMemory`, `SceneGate`: the two bounded replay memories and the scene admission gate.
- `Bytes`, `ImuFrames`, `ImuStream`, `ImuSoundness`, `ServoFrames`: the YB-IMU stream, and the LX and ZL servo frames.
- `UnitConversion`, `MotionFeedback`, `Calibration`, `RodLength`, `FeedbackPolling`, `BvhHandover`, `BvhStops`: conversions,
  target feedback, calibration, kinematics, polling, and the playback worker hand-over.

## The main theorems

- **Stop fence.** Once a router or port driver has processed an active authority message, any manager-issued move it lets
  in was published after the stop behind that message, at an instant with no registered stop operation, no e-stop and no
  fault. Messages may be lost, repeated, delayed and reordered (`StopTheorems.StopFence`).
- **Announcements.** No stop, e-stop or fault gets past its announcement without an active authority message that is newer
  than every message and release request before, so no release asked for earlier undoes it
  (`StopDeliveries.EveryStopIsAnnounced`, `AnnouncementOutlastsEarlierReleases`).
- **Faults are absorbing.** After a stop fault one token is held forever, the e-stop stays on, nothing moves and no task
  starts (`StopTheorems.NothingMovesAfterAFault`).
- **Releases.** Every authoritative false after startup was acknowledged by a router release in which every port with
  servos answered unlatched (`StopReleases.AuthoritativeFalseIsAcknowledged`).
- **Leases.** A task command is accepted exactly when it carries the most recent fresh lease and nothing ended that lease
  (`LeaseRuns.TaskCommandAcceptance`); so are keepalives, finishes, cancels and validations (`LeaseUseAcceptance`). Teleop
  and motion have their own exact conditions (`TeleopRuns.TeleopCommandAcceptance`, `MotionAcceptance`).
- **No admission is forgotten.** Every identity whose start the controller published is running, pending cleanup, or
  settled for good (`ControllerTheorems.EveryStartIsAccountedFor`, `SettledIsForever`), and a pending one is dropped exactly
  when a report shows its end or its refusal (`ControllerDeliveries.ReportSettlesExactlyWhen`).
- **Parsing.** The IMU parser does not depend on how the stream is cut, and returns exactly the frames sent
  (`ImuStream.ChunkingDoesNotMatter`, `StreamRoundTrip`). From arbitrary bytes it delivers only encodings of messages
  (`ImuSoundness.DeliveredFramesAreSound`), and finds the frame behind a damaged one (`DamagedFrameIsSkipped`).

## Assumptions

- The manager's clock never goes backwards and starts at zero or later; there is one manager lifetime, which starts with
  the authoritative false its constructor publishes. Driver clocks are arbitrary.
- The manager's subscription callbacks are created without a callback group
  (src/execution/execution_manager/execution_manager/execution_manager_node.py:195-236), so they exclude each other, even
  across awaits; its service handlers are reentrant and interleave.
- The router holds its command lock during a release, and no other router handler that uses the latch runs meanwhile.
- For the controller: every goal has a fresh (task, trace, session) triple that no other client starts, and a control
  message is handled at most once (it may be lost, delayed or reordered). Task states may be delivered in any order, any
  number of times. The check for pending cleanups in the goal callback is not a lock, so nothing relies on it.
- Rounding is half to even (pulses) or half away from zero (calibration) on exact numbers. C++ `long` has 64 bits.

## Where the code and its description differ

- The robot repository's README.md:354-356 says that stop tokens and the e-stop are cleared only after every port driver
  acknowledged a release. For the e-stop that is so (`StopReleases.EstopWasReleased`). A token is also dropped without
  asking when another stop, a fault or an e-stop is present
  (src/execution/execution_manager/execution_manager/execution_manager_node.py:659-668), and in no other way:
  `StopTheorems.TokenGoesExactlyWhen` for a step, `StopReleases.TokenWasReleasedOrDropped` for runs, and a run in
  `StopWitnesses.TokenGoesWithoutARelease`. The e-stop's own token always goes that way
  (`StopFailures.EstopTokenIsDropped`). The fence and the fault theorem hold anyway.
- The robot repository's README.md:356-358 says that a failed stop latches a fault and keeps e-stop and token. It does so
  exactly when the driver calls came back unsuccessful or timed out (`StopFailures.FailedStopLatchesExactlyWhen`). When the
  stop loop ends in an exception no fault is latched. A stop service then keeps its token without an e-stop
  (`StopWitnesses.RaisedStopLeavesAnOrphan`), and the token blocks commands, starts and e-stop releases forever
  (`StopTheorems.OrphanBlocksForever`). The e-stop callback then drops its token as if the stop had been written, and the
  e-stop can be lifted (`StopWitnesses.RaisedEstopLeavesNothing`).
- A `start` that is rejected is not remembered, although a terminated one is: a second copy of it could be granted.
  `ControllerTheorems.RepeatStartAcceptance` gives the exact condition, `ARefusedStartCouldStartAgain` a run.
- On failure a router release leaves the latch and its fence as they were, but it may still record the stamp as the last
  authority: `StopReleases.RouterReleaseIsAllOrNothing` says exactly when, `StopWitnesses.FailedReleaseLeavesATrace` is a
  run.
- The IMU's Python receiver is not equivalent to the C++ parser on damaged streams. Behind noise without a header it
  delivers the next frame exactly when the noise ends in an even run of head bytes; the parser does whenever the frame has
  at most 64 bytes (`ImuStream.NoiseSeparatesTheTwins`). On undamaged streams they agree (`ImuStream.TwinsAgree`).
- The Python receiver also does not check that the length byte is at least 5: a shorter claim is read as a frame of five
  bytes and delivered when its checksum fits, although no message encodes to it (`ImuSoundness.ShortLengthIsDelivered`,
  src/execution/sensor_hardware/sensor_hardware/imu_serial_driver.py:243-289).
- A frame longer than 64 bytes can be written to the IMU but not read back (`ImuStream.FrameIsDelivered`).
- The LX encoder clamps servo identifiers to 253 and the decoder does not (`ServoFrames.LxEchoThenReply`). This concerns
  only direct callers of the codec: src/hardware/src/bus_servo_system.cpp:82-85 refuses such identifiers at configuration.
- A truncated ZL frame hides the one behind it: a reply behind other bytes is the first one found exactly when those hold
  no reply for the servo and no prefix without an exclamation mark behind (`ServoFrames.ZlReplyBehindBytes`).
- Pulses are not always read back exactly. One off is the best bound, and `UnitConversion.ReadBackIsExactWhen` says which
  pulses come back unchanged.
- A calibration may name raw values that a move frame cannot carry. The half-step bound holds for every calibration as far
  as rounding goes; for the value actually sent it holds exactly when the raw value fits the encoder
  (`Calibration.WrittenPositionIsReadWithinHalfAStep`, with a servo for which it does not in `WideRangeIsCutByTheEncoder`).

## Model

| member | source | states |
|---|---|---|
| SafetyLatch.LastAuthorityIsMaximum | src/execution/servo_hardware/servo_hardware/safety_latch.py:67-91 | after any history, the last authority is the largest authority stamp ever seen, or zero |
| SafetyLatch.FenceIsMaximum | src/execution/servo_hardware/servo_hardware/safety_latch.py:61-91 | after any history, the fence is the largest latching time ever seen, or zero |
| SafetyLatch.LatchedMeansAStopStands | src/execution/servo_hardware/servo_hardware/safety_latch.py:61-91 | latched if and only if some stop has had no later release newer than all earlier stops and authorities |
| SafetyLatch.AdmissionMeansNewerThanEveryStop | src/execution/servo_hardware/servo_hardware/safety_latch.py:93-108 | a move is admitted if and only if every stop was released and the stamp is newer than all of them, with the exact exception of a zero fence |
| SafetyLatch.FieldsOnlyGrow | src/execution/servo_hardware/servo_hardware/safety_latch.py:61-91 | fence and last authority never decrease |
| SafetyLatch.LastReleaseIsEffective | src/execution/servo_hardware/servo_hardware/safety_latch.py:84-91 | comparing a release with the two stored maxima is the same as comparing it with the whole history |
| SafetyLatch.DriverSafetyLatch.Activate | src/execution/servo_hardware/servo_hardware/safety_latch.py:61-65 | records a local stop; the object stays equal to the replay of its history |
| SafetyLatch.DriverSafetyLatch.ObserveAuthority | src/execution/servo_hardware/servo_hardware/safety_latch.py:67-91 | records an authority message; true exactly for a stop or an actual unlatch |
| SafetyLatch.DriverSafetyLatch.Admit | src/execution/servo_hardware/servo_hardware/safety_latch.py:93-108 | a stop always passes and latches; a move passes when admitted and changes nothing |
| SafetyLatch.DriverSafetyLatch.AdmitProtocolCommand | src/execution/servo_hardware/servo_hardware/safety_latch.py:110-121 | after a stop command no move is admitted; motion is gated; anything else passes |
| ProtocolRouter.BusPortDriver.HandleDriverSafety | src/execution/servo_hardware/servo_hardware/bus_port_driver.py:311-323 | success means the port is in the requested state; a successful release of a latched port was newer than its fence and last authority |
| ProtocolRouter.BusPortDriver.OnMove | src/execution/servo_hardware/servo_hardware/bus_port_driver.py:325-331 | a port executes a move exactly when its own latch admits it |
| ProtocolRouter.BusProtocolRouter.OnDriverSafety | src/execution/servo_hardware/servo_hardware/bus_protocol_router.py:267-281 | the router latch observes the authority and keeps its history invariant |
| ProtocolRouter.BusProtocolRouter.OnCommand | src/execution/servo_hardware/servo_hardware/bus_protocol_router.py:287-325 | a move is sent on exactly when it is a bus command for a mapped servo of a known and routed protocol and the router latch admits it, and then to its servo's port and protocol |
| ProtocolRouter.BusProtocolRouter.CallDriverSafety | src/execution/servo_hardware/servo_hardware/bus_protocol_router.py:536-563 | true exactly when the port answered and is in the requested state; a silent port may still have applied it |
| ProtocolRouter.BusProtocolRouter.HandleDriverSafety | src/execution/servo_hardware/servo_hardware/bus_protocol_router.py:646-685 | succeeds exactly when every port with servos answered in the requested state and the router is in it; a failed release leaves router latch and fence; every such port is called |
| ExecutionManager.StopDriverActuators | src/execution/execution_manager/execution_manager/execution_manager_node.py:575-636 | every actuator is tried whatever happened before; sent exactly when all succeeded; timed out exactly when some call did |
| ExecutionManager.ExecutionManagerNode.NextDriverSafetyStamp | src/execution/execution_manager/execution_manager/execution_manager_node.py:733-741 | stamps strictly increase and are never behind the clock |
| ExecutionManager.ExecutionManagerNode.HandleCommand | src/execution/execution_manager/execution_manager/execution_manager_node.py:258-301 | a published move carries the manager's clock, and none is published while a stop is registered |
| ExecutionManager.ExecutionManagerNode.HandleTaskControl | src/execution/execution_manager/execution_manager/execution_manager_node.py:330-371 | a start during a stop is refused before it reaches the lease machine; all else follows the arbitrator |
| ExecutionManager.ExecutionManagerNode.HandleTeleopControl | src/execution/execution_manager/execution_manager/execution_manager_node.py:303-328 | teleop control reaches the arbitrator even while a stop is registered |
| ExecutionManager.ExecutionManagerNode.BeginEstop | src/execution/execution_manager/execution_manager/execution_manager_node.py:373-400 | the e-stop and its token are set in one region; no token without known bus servos |
| ExecutionManager.ExecutionManagerNode.BeginEstopRelease | src/execution/execution_manager/execution_manager/execution_manager_node.py:428-441 | a release begins only under e-stop with no fault and no token, and then holds the only token |
| ExecutionManager.ExecutionManagerNode.BeginStopOperation | src/execution/execution_manager/execution_manager/execution_manager_node.py:638-656 | a stop service call gets a token exactly when it holds the task lease |
| ExecutionManager.ExecutionManagerNode.FinishStopOperation | src/execution/execution_manager/execution_manager/execution_manager_node.py:658-668 | the token is dropped quietly exactly when another stop, a fault or an e-stop remains |
| ExecutionManager.ExecutionManagerNode.StopReleased | src/execution/execution_manager/execution_manager/execution_manager_node.py:670-686 | false is published exactly when no token, fault or e-stop remains |
| ExecutionManager.ExecutionManagerNode.EstopReleased | src/execution/execution_manager/execution_manager/execution_manager_node.py:442-459 | e-stop and token are cleared together |
| ExecutionManager.ExecutionManagerNode.LatchStopFault | src/execution/execution_manager/execution_manager/execution_manager_node.py:688-698 | fault and e-stop are set together, for a registered token only |
| StopInvariants.RunKeepsInv | src/execution/execution_manager/execution_manager/execution_manager_node.py:373-459 | every reachable state: tokens are held by their coroutines, an e-stop release is alone, a fault holds the e-stop and an orphan token, release stamps are acknowledged |
| StopTheorems.MovesNeedAQuietManager | src/execution/execution_manager/execution_manager/execution_manager_node.py:263-284 | a move is published only with no token and no e-stop, stamped with the manager clock |
| StopTheorems.FaultIsAbsorbing | src/execution/execution_manager/execution_manager/execution_manager_node.py:547-569 | a fault, its e-stop and its orphaned token are never left |
| StopTheorems.NothingMovesAfterAFault | src/execution/execution_manager/execution_manager/execution_manager_node.py:688-698 | after a fault one and the same token is held in every later state, no move is published, no task control accepted |
| StopTheorems.OrphanBlocksForever | src/execution/execution_manager/execution_manager/execution_manager_node.py:547-569 | a token whose coroutine ended without giving it back is held forever and blocks every command, start and e-stop release, fault or not |
| StopFailures.OrphanAppearsExactlyWhen | src/execution/execution_manager/execution_manager/execution_manager_node.py:547-569 | a token is orphaned if and only if a fault is latched for it, or its stop service raises |
| StopFailures.FaultAppearsExactlyWhen | src/execution/execution_manager/execution_manager/execution_manager_node.py:688-698 | a fault appears if and only if the latching region runs |
| StopFailures.StopIsJudgedByItsOutcome | src/execution/execution_manager/execution_manager/execution_manager_node.py:387-421 | an operation goes on to latch a fault if and only if its stop came back unsuccessful; a raising stop service ends, a raising e-stop goes on to finish |
| StopFailures.UnsuccessfulStopLatches | src/execution/execution_manager/execution_manager/execution_manager_node.py:547-569 | over any run, an unsuccessful stop latches its fault next and then keeps token, fault and e-stop |
| StopFailures.EstopTokenIsDropped | src/execution/execution_manager/execution_manager/execution_manager_node.py:658-668 | over any run, the e-stop callback's own operation finds the e-stop on and drops its token without asking |
| StopFailures.RaisedEstopIsDropped | src/execution/execution_manager/execution_manager/execution_manager_node.py:387-421 | over any run, an exception in the e-stop's stop loop ends in a dropped token and never in a fault |
| StopFailures.FailedStopLatchesExactlyWhen | src/execution/execution_manager/execution_manager/execution_manager_node.py:387-421 | over any run, a stop that was not written latches a fault if and only if it did not raise, and keeps its token if and only if it was not the e-stop callback that raised |
| StopWitnesses.RaisedStopLeavesAnOrphan | src/execution/execution_manager/execution_manager/execution_manager_node.py:547-569 | a run in which a stop service raises and leaves its token, no fault and no e-stop |
| StopWitnesses.RaisedEstopLeavesNothing | src/execution/execution_manager/execution_manager/execution_manager_node.py:387-421 | a run in which the e-stop's stop loop raises and leaves no token, no fault and an e-stop that may be lifted |
| StopTheorems.TokenGoesExactlyWhen | src/execution/execution_manager/execution_manager/execution_manager_node.py:658-686 | a token goes if and only if its acknowledged release ends, or it is dropped while another stop, a fault or the e-stop is present |
| StopTheorems.EstopGoesExactlyWhen | src/execution/execution_manager/execution_manager/execution_manager_node.py:428-459 | the e-stop goes off if and only if an acknowledged e-stop release ends |
| StopTheorems.ActiveNoticeIsAStop | src/execution/execution_manager/execution_manager/execution_manager_node.py:381-426 | every active authority message is published while its stop is in force, with a stamp not behind the clock |
| StopTheorems.StopFence | src/execution/execution_manager/execution_manager/execution_manager_node.py:263-284 | the end-to-end fence, for router and ports, over adversarial channels |
| StopLeases.ArbitratorOfARun | src/execution/execution_manager/execution_manager/execution_manager_node.py:258-459 | in every state of every run the arbitrator is what the calls made so far make of the initial one, so all of `LeaseRuns` applies |
| StopLeases.PublishedTaskMoveHoldsItsLease | src/execution/execution_manager/execution_manager/execution_manager_node.py:258-301 | a move published for a task carries the most recent fresh lease, unended and renewed in time |
| StopLeases.TaskLeaseKeepsOthersOut | src/execution/execution_manager/execution_manager/execution_manager_node.py:258-301 | while a task lease lasts no move is published for teleop or motion |
| StopDeliveries.EveryStopIsAnnounced | src/execution/execution_manager/execution_manager/execution_manager_node.py:373-426 | over any run, no stop, e-stop or fault gets past its announcement without an active authority message, whose stamp is newer than every message and release request before |
| StopDeliveries.AnnouncementOutlastsEarlierReleases | src/execution/execution_manager/execution_manager/execution_manager_node.py:688-741 | a driver that hears that message is latched, and no release requested or announced before unlatches it |
| StopDeliveries.OperationsBeginWithTheirAnnouncement | src/execution/execution_manager/execution_manager/execution_manager_node.py:373-459 | every operation starts before its announcement, or before its request if it is an e-stop release; a fault is announced exactly when it was latched |
| StopDeliveries.StampsOfARun | src/execution/execution_manager/execution_manager/execution_manager_node.py:733-741 | no stamp in use is newer than the last one given out |
| StopDeliveries.QuietReleaseIsAnnounced | src/execution/execution_manager/execution_manager/execution_manager_node.py:670-686 | a release that leaves nothing behind is published with the acknowledged stamp |
| StopDeliveries.ReleaseIsAsked | src/execution/execution_manager/execution_manager/execution_manager_node.py:700-731 | a release is requested with a stamp of its own, newer than all before, or fails as unavailable |
| StopDeliveries.LiftingBeginsExactlyWhen | src/execution/execution_manager/execution_manager/execution_manager_node.py:428-441 | a request to lift the e-stop starts a release if and only if the last e-stop call was active, nothing failed and nothing is being stopped |
| StopOperations.FinishDropsExactlyWhen | src/execution/execution_manager/execution_manager/execution_manager_node.py:658-668 | a written stop drops its token if and only if another stop, a fault or the e-stop of the last e-stop call is there; else it keeps it and goes on to ask for a release |
| StopOperations.StopServiceBeginsExactlyWhen | src/execution/execution_manager/execution_manager/execution_manager_node.py:638-656 | over any run, a stop service begins its stop if and only if it carries the most recent fresh lease, unended and in time |
| StopOperations.EstopTakesEffect | src/execution/execution_manager/execution_manager/execution_manager_node.py:373-400 | an e-stop is in force at once, and its announcement or its own operation is under way |
| StopOperations.NextPhase | src/execution/execution_manager/execution_manager/execution_manager_node.py:547-736 | which phase of an operation follows which, by which event, and with which reason for a failure |
| StopOperations.StopIsWrittenBeforeItsRelease | src/execution/execution_manager/execution_manager/execution_manager_node.py:547-569 | over any run, a stop service asks for a release only after it announced its stop and then wrote it to the drivers |
| StopDeliveries.MovesAreThoseForwarded | src/execution/execution_manager/execution_manager/execution_manager_node.py:258-301 | an accepted command is published with the manager clock and makes its servo known; nothing else publishes a move |
| StopDeliveries.CommandIsForwardedExactlyWhen | src/execution/execution_manager/execution_manager/execution_manager_node.py:258-301 | over any run, a command is forwarded if and only if no stop is registered and the leases and e-stop in force allow it, for each entrance |
| StopDeliveries.KnownServosOfARun | src/execution/execution_manager/execution_manager/execution_manager_node.py:258-301 | the servos known are exactly those that reported a state or got a forwarded command |
| StopDeliveries.LatchOfARun | src/execution/servo_hardware/servo_hardware/bus_protocol_router.py:267-281 | over any run, the latch of the router and of every port is the replay of the signals it got, so all of `SafetyLatch` applies |
| StopDeliveries.ForwardedExactlyWhen | src/execution/servo_hardware/servo_hardware/bus_protocol_router.py:287-325 | over any run, the router forwards a move if and only if every stop it heard was released and the move is newer than all of them, with the exception of a zero fence |
| StopDeliveries.ReleasesAreAnswered | src/execution/servo_hardware/servo_hardware/bus_protocol_router.py:646-685 | every release call is carried and answered: a port tells whether it let go, the router whether all did |
| StopDeliveries.ReleaseIsAppliedUnlessAPortFails | src/execution/servo_hardware/servo_hardware/bus_protocol_router.py:646-685 | a router release counts as not applied if and only if, since it began, a port was unreachable, silent or answered otherwise |
| StopDeliveries.FaultTellsWhatFailed | src/execution/execution_manager/execution_manager/execution_manager_node.py:547-569 | the reason of a latched fault is that of a stop or release which failed so earlier in the run |
| StopTheorems.FenceGrows | src/execution/servo_hardware/servo_hardware/safety_latch.py:61-83 | no step of any component lowers the fence of any driver |
| StopReleases.RouterReleaseIsAllOrNothing | src/execution/servo_hardware/servo_hardware/bus_protocol_router.py:646-685 | a release succeeds only if every port with servos answered unlatched during it; no move is forwarded meanwhile; what failure leaves unchanged, exactly |
| StopReleases.HeardMeansLetGo | src/execution/servo_hardware/servo_hardware/bus_protocol_router.py:536-563 | a good answer heard for a call was given by the port asked, to that call and stamp, during this release |
| StopReleases.AuthoritativeFalseIsAcknowledged | src/execution/execution_manager/execution_manager/execution_manager_node.py:670-719 | every later authoritative false has an acknowledged release with its stamp behind it, and leaves no token, fault or e-stop |
| StopReleases.TokenWasReleasedOrDropped | src/execution/execution_manager/execution_manager/execution_manager_node.py:658-686 | over any run, a token that is gone was dropped quietly under that guard, or a router release for it was acknowledged by every port with servos |
| StopReleases.EstopWasReleased | src/execution/execution_manager/execution_manager/execution_manager_node.py:428-459 | over any run, an e-stop that is off again was released, every port with servos having acknowledged |
| StopWitnesses.TokenGoesWithoutARelease | src/execution/execution_manager/execution_manager/execution_manager_node.py:658-668 | a run of two overlapping stop operations in which a token goes although no driver was ever asked to release |
| StopWitnesses.FailedReleaseLeavesATrace | src/execution/servo_hardware/servo_hardware/bus_protocol_router.py:667-685 | a run in which every port lets go, the router's release fails, and its last authority changes |
| StopReleases.OldReleaseCannotUnlatch | src/execution/servo_hardware/servo_hardware/safety_latch.py:84-91 | a release not newer than an active message a driver heard does not unlatch it, by topic or service |
| StopReleases.LatchedUntilANewerRelease | src/execution/servo_hardware/servo_hardware/safety_latch.py:67-91 | a driver stays latched through any run in which it hears no newer release |
| Arbitrator.CommandArbitrator.constructor | src/execution/execution_manager/execution_manager/arbitrator.py:25-83 | negative timeouts become zero and others are kept; the tombstone limit is at least one; nothing is held |
| Arbitrator.CommandArbitrator.RememberTaskIdentity | src/execution/execution_manager/execution_manager/arbitrator.py:776-789 | deque and set are updated together, evicting before inserting |
| Arbitrator.CommandArbitrator.RefreshMode | src/execution/execution_manager/execution_manager/arbitrator.py:699-724 | expiry of both leases and the mode follow the value specification |
| Arbitrator.CommandArbitrator.Tick | src/execution/execution_manager/execution_manager/arbitrator.py:517-524 | a refresh is one call of the object's history, to which every theorem of `LeaseRuns` applies |
| Arbitrator.CommandArbitrator.ReceiveCommand | src/execution/execution_manager/execution_manager/arbitrator.py:85-157 | new state and answer of a command, and the object stays what its calls make of the initial arbitrator |
| Arbitrator.CommandArbitrator.ReceiveTaskControl | src/execution/execution_manager/execution_manager/arbitrator.py:159-307 | new state and answer of start, keepalive, finish and cancel, and the object stays what its calls make of the initial arbitrator |
| Arbitrator.CommandArbitrator.ReceiveTeleopControl | src/execution/execution_manager/execution_manager/arbitrator.py:392-488 | new state and answer of claim, keepalive and release, and the object stays what its calls make of the initial arbitrator |
| Arbitrator.CommandArbitrator.ValidateTaskOperation | src/execution/execution_manager/execution_manager/arbitrator.py:346-390 | answer of a validation, which changes nothing but expiry |
| Arbitrator.CommandArbitrator.SetEstop | src/execution/execution_manager/execution_manager/arbitrator.py:490-515 | an e-stop drops and records every lease |
| LeaseRuns.RunStaysSane | src/execution/execution_manager/execution_manager/arbitrator.py:699-803 | after any calls at any times: deque and set agree, distinct and bounded; a held identity is complete and not among them; e-stop excludes every lease |
| LeaseRuns.TaskCommandAcceptance | src/execution/execution_manager/execution_manager/arbitrator.py:93-157 | a task command is accepted if and only if it names the task and carries the lease of the most recent fresh start, nothing ended it and no renewal gap exceeded the timeout |
| LeaseRuns.TaskLeaseIsExclusive | src/execution/execution_manager/execution_manager/arbitrator.py:93-157 | during a task lease no teleop lease exists and no teleop or motion command or claim is accepted |
| LeaseRuns.LeaseIsStored | src/execution/execution_manager/execution_manager/arbitrator.py:240-305 | while a lease lasts, the arbitrator stores its identity, its minted id and the time of its last renewal |
| LeaseRuns.StoredLeaseWasMinted | src/execution/execution_manager/execution_manager/arbitrator.py:240-305 | any stored lease was minted by an accepted fresh start that nothing ended since |
| LeaseRuns.EstopIsTheLastCall | src/execution/execution_manager/execution_manager/arbitrator.py:490-515 | the e-stop is on if and only if the last e-stop call was active |
| LeaseRuns.EstopDropsEveryLease | src/execution/execution_manager/execution_manager/arbitrator.py:497-515 | under e-stop nobody holds anything and nothing is accepted |
| LeaseRuns.TombstonesAreTheLastTerminated | src/execution/execution_manager/execution_manager/arbitrator.py:776-789 | deque and set equal the last N terminated identities, without duplicates, without the active one |
| LeaseRuns.FreshStartAcceptance | src/execution/execution_manager/execution_manager/arbitrator.py:208-251 | a start mints a lease if and only if it is complete, no e-stop or lease is in force and it is not among the last N terminated |
| LeaseRuns.LeaseUseAcceptance | src/execution/execution_manager/execution_manager/arbitrator.py:208-307 | a keepalive, finish, cancel, renewing start or validation is accepted if and only if it names the identity and carries the lease of the most recent fresh start, unended and in time |
| LeaseRuns.UnknownActionIsRefused | src/execution/execution_manager/execution_manager/arbitrator.py:180-185 | any other task action is refused |
| TeleopRuns.MotionAcceptance | src/execution/execution_manager/execution_manager/arbitrator.py:136-143 | a motion command is accepted if and only if no e-stop, task lease or teleop lease is in force |
| TeleopRuns.TeleopCommandAcceptance | src/execution/execution_manager/execution_manager/arbitrator.py:118-134 | a teleop command is accepted if and only if a teleop lease is in force, it names the claimant and carries the lease minted at the claim |
| TeleopRuns.ClaimAcceptance | src/execution/execution_manager/execution_manager/arbitrator.py:392-440 | a claim is accepted if and only if no e-stop, task lease or other claimant is in force |
| TeleopRuns.HolderAcceptance | src/execution/execution_manager/execution_manager/arbitrator.py:441-488 | a keepalive or release is accepted if and only if it comes from the claimant of the lease in force, with its lease or with none |
| TeleopRuns.ReleasedNeedsAnotherClaim | src/execution/execution_manager/execution_manager/arbitrator.py:441-488 | after an accepted release no teleop command is accepted before another accepted claim |
| TeleopRuns.TeleopLeaseIsStored | src/execution/execution_manager/execution_manager/arbitrator.py:392-488 | while a teleop lease lasts, the arbitrator stores its claimant, its minted lease and the time of its last renewal |
| TeleopRuns.StoredTeleopWasClaimed | src/execution/execution_manager/execution_manager/arbitrator.py:392-488 | any stored teleop lease was claimed, and not released, ended or outlasted since |
| RefusalRuns.CommandRefusalNamesItsCause | src/execution/execution_manager/execution_manager/arbitrator.py:93-157 | during a task lease each refusal of a command or claim is given exactly for its cause, the first that applies |
| RefusalRuns.LeaseRefusalNamesItsCause | src/execution/execution_manager/execution_manager/arbitrator.py:215-295 | during a task lease a control or validation is refused exactly for the first of task, trace, session and lease that differs from the fresh start |
| RefusalRuns.RefusalWithoutALease | src/execution/execution_manager/execution_manager/arbitrator.py:240-273 | without lease and e-stop: not granted, a replay, or teleop active |
| RefusalRuns.RefusalUnderEstop | src/execution/execution_manager/execution_manager/arbitrator.py:93-101 | under an e-stop, refusals of commands, validations, claims and complete controls say so |
| RefusalRuns.IncompleteControlIsRefused | src/execution/execution_manager/execution_manager/arbitrator.py:187-206 | a control is refused for the first missing part of its identity, whatever is held |
| RefusalRuns.TeleopRefusalNamesItsCause | src/execution/execution_manager/execution_manager/arbitrator.py:118-134 | against a teleop lease each refusal of a teleop command, claim, keepalive or release is given exactly for its cause |
| RefusalRuns.TeleopRefusalWithoutALease | src/execution/execution_manager/execution_manager/arbitrator.py:441-488 | with no teleop lease in force, keepalive and release are refused as not granted |
| StatusRuns.MotionTimeOfARun | src/execution/execution_manager/execution_manager/arbitrator.py:136-143 | the stored motion time is that of the last accepted motion command that no fresh start or e-stop followed |
| StatusRuns.ModeTellsWhoDrives | src/execution/execution_manager/execution_manager/arbitrator.py:699-724 | after any calls the mode is the first that applies of e-stop, task lease, teleop lease, recent motion and idle |
| StatusRuns.LatestNoteIsShown | src/execution/execution_manager/execution_manager/arbitrator.py:240-307 | the last action, identity, answer and reason shown are those of the last task control or of the call at which a lease was lost |
| StatusRuns.StatusTellsHowItEnded | src/execution/execution_manager/execution_manager/arbitrator.py:821-842 | the published status tells what is in force, or else how the last control or lease ended: finished, cancelled, rejected, expired, blocked or idle |
| LeaseRuns.TerminatedIdentityCannotRestart | src/execution/execution_manager/execution_manager/arbitrator.py:241-251 | a terminated identity mints no lease before N leases have ended |
| ReplayMemory.PushKeepsLastN | src/execution/execution_manager/execution_manager/arbitrator.py:776-789 | evicting the oldest and inserting a new key keeps "the last N keys" in queue and set |
| SceneGate.SceneAdmissionGate.Update | src/control/parallel_3dof_controller/parallel_3dof_controller/scene_admission.py:174-208 | stored exactly when the id is empty or not among the last N accepted ones; a repeat refreshes nothing; memory stays the last N |
| SceneGate.SceneAdmissionGate.Evaluate | src/control/parallel_3dof_controller/parallel_3dof_controller/scene_admission.py:238-267 | ready if and only if present, good, identified, of this session, not from the future, not stale and geometrically admissible |
| SceneGate.SceneAdmissionGate.CommitIfAccepted | src/control/parallel_3dof_controller/parallel_3dof_controller/scene_admission.py:222-236 | a batch is committed exactly when ready, on the scene that was judged |
| TaskReports.ControllerNode.OnTaskState | src/control/parallel_3dof_controller/parallel_3dof_controller/controller_node.py:416-441 | the pending book after a report, edited in place, and the cancels published for it |
| TaskReports.ControllerNode.RegisterPendingStartCleanup | src/control/parallel_3dof_controller/parallel_3dof_controller/controller_node.py:1071-1088 | an identity shown terminal leaves the book; any other enters it, with its cancel if a lease is shown |
| ControllerAccounting.CallKeepsCoreInv | src/execution/execution_manager/execution_manager/arbitrator.py:240-305 | any call keeps: every granted lease is held or has ended, and what the arbitrator shows about an identity is so |
| ControllerTheorems.NewReportIsTruthful | src/control/parallel_3dof_controller/parallel_3dof_controller/motion_execution.py:75-133 | the report predicates conclude only what happened: terminal means the lease ended, rejected means handled and never granted, an active lease is the one granted |
| ControllerTheorems.RunKeepsInv | src/control/parallel_3dof_controller/parallel_3dof_controller/controller_node.py:546-763 | in every run messages use granted leases, one unhandled start at most is under way per identity, reports are truthful and all starts accounted for |
| ControllerTheorems.EveryStartIsAccountedFor | src/control/parallel_3dof_controller/parallel_3dof_controller/controller_node.py:586-763 | every identity with a published start is running, pending cleanup or settled; settled means handled and holding no lease |
| ControllerTheorems.SettledIsForever | src/control/parallel_3dof_controller/parallel_3dof_controller/controller_node.py:1020-1088 | no later step gives a settled identity a lease |
| ControllerTheorems.RepeatStartAcceptance | src/execution/execution_manager/execution_manager/arbitrator.py:240-251 | a repeated start of a settled identity is accepted if and only if no e-stop, no lease in force, and not among the last N ended |
| ControllerTheorems.EndedIdentityIsRefused | src/execution/execution_manager/execution_manager/arbitrator.py:240-251 | a settled identity that held a lease is refused until N leases have ended |
| ControllerTheorems.RejectedIdentityIsNotRemembered | src/execution/execution_manager/execution_manager/arbitrator.py:240-251 | a settled identity that never held a lease is refused only by an e-stop or another lease |
| ControllerTheorems.ARefusedStartCouldStartAgain | src/execution/execution_manager/execution_manager/execution_manager_node.py:330-352 | a run in which a start is refused by a pending stop and a second copy would be granted |
| ControllerTheorems.DeliveredCancelSettles | src/control/parallel_3dof_controller/parallel_3dof_controller/controller_node.py:1043-1054 | one delivered cancel or finish settles its identity, also after expiry or e-stop |
| ControllerTheorems.ActiveReportIsAnswered | src/control/parallel_3dof_controller/parallel_3dof_controller/controller_node.py:421-441 | a pending identity shown active gets a cancel with the lease it was granted |
| ControllerDeliveries.ReportSettlesExactlyWhen | src/control/parallel_3dof_controller/parallel_3dof_controller/controller_node.py:416-441 | over any run, a report drops a pending identity if and only if it shows its lease over or its start refused, unless it shows a lease whose cancel it triggers |
| ControllerDeliveries.BookEmptiesOnlyBySettlement | src/control/parallel_3dof_controller/parallel_3dof_controller/controller_node.py:1071-1088 | an identity leaves the book in no other way, except when its own goal ends with its lease shown over |
| ControllerDeliveries.RunningGoalIsNotInTheBook | src/control/parallel_3dof_controller/parallel_3dof_controller/controller_node.py:1071-1088 | over any run, the identity of the running goal is not pending |
| ControllerDeliveries.LatestReportOfARun | src/control/parallel_3dof_controller/parallel_3dof_controller/controller_node.py:416-421 | over any run, the latest report is the last one received and all received ones are counted |
| ControllerDeliveries.GoalEndsInTheBookUnlessSettled | src/control/parallel_3dof_controller/parallel_3dof_controller/controller_node.py:1020-1088 | a goal that published its start ends in the book, marked as cancelled if and only if its lease is shown, unless its lease is shown over or it ends because its start is shown refused |
| ControllerDeliveries.ControllerMessagesAreSent | src/control/parallel_3dof_controller/parallel_3dof_controller/controller_node.py:586-763 | start, keepalive, finish and cancel are sent, with the lease the goal holds |
| ControllerDeliveries.GoalTakesTheShownLease | src/control/parallel_3dof_controller/parallel_3dof_controller/motion_execution.py:75-133 | a goal starts moving only on a later report that shows its own start accepted, with the lease shown there |
| ControllerDeliveries.NextReportTellsTheOutcome | src/execution/execution_manager/execution_manager/execution_manager_node.py:843-891 | the report published on handling a control shows the granted lease, the refusal, or the end by finish or cancel |
| Bytes.I16RoundTrip | src/hardware/src/yb_imu_sensor.cpp:144-151 | every signed 16-bit value is decoded from its two bytes and from no others |
| ImuFrames.WriteSerialCommand | src/hardware/src/yb_imu_sensor.cpp:556-571 | the bytes written are heads, total length, function, payload and checksum; refused exactly above 255 bytes |
| ImuStream.YbImuParser.ParseOne | src/hardware/src/yb_imu_sensor.cpp:594-648 | one loop round on the buffer in place |
| ImuStream.YbImuParser.ParseSerialBuffer | src/hardware/src/yb_imu_sensor.cpp:594-649 | the loop drains the buffer, every round shrinking it |
| ImuStream.ChunkingDoesNotMatter | src/hardware/src/yb_imu_sensor.cpp:594-649 | any cut of a stream gives the same events and the same leftover, shorter than 64 bytes |
| ImuStream.FrameIsDelivered | src/hardware/src/yb_imu_sensor.cpp:618-646 | a frame in front of any bytes is delivered whole if and only if it has at most 64 bytes |
| ImuStream.StreamRoundTrip | src/hardware/src/yb_imu_sensor.cpp:594-649 | a stream of written frames is parsed into exactly those frames, with nothing left |
| ImuSoundness.DeliveredFramesAreSound | src/hardware/src/yb_imu_sensor.cpp:594-649 | every frame delivered from any bytes stands in them and is the encoding of a message of at most 64 bytes |
| ImuSoundness.DamagedFrameIsSkipped | src/hardware/src/yb_imu_sensor.cpp:618-646 | behind a refused frame without a second header, cut off or not, the next frame is delivered |
| ImuSoundness.ReceivedFramesAreSound | src/execution/sensor_hardware/sensor_hardware/imu_serial_driver.py:243-289 | every frame the byte receiver delivers from any bytes stands in them, with heads, length and checksum right, and is an encoding unless its length byte is below 5 |
| ImuSoundness.ShortLengthIsDelivered | src/execution/sensor_hardware/sensor_hardware/imu_serial_driver.py:243-289 | a frame with a length byte below 5 is delivered by the byte receiver, not by the parser, and encodes no message |
| ImuSoundness.ReceiverSkipsADamagedFrame | src/execution/sensor_hardware/sensor_hardware/imu_serial_driver.py:276-289 | a frame with a wrong checksum costs the byte receiver nothing but itself |
| ImuStream.ImuSerialDriver.ReceiveData | src/execution/sensor_hardware/sensor_hardware/imu_serial_driver.py:243-289 | one byte through the five receiver states; a frame with a bad checksum is dropped |
| ImuStream.TwinsAgree | src/execution/sensor_hardware/sensor_hardware/imu_serial_driver.py:243-289 | on a stream of written frames the byte receiver delivers what the stream parser delivers and ends idle |
| ImuStream.NoiseSeparatesTheTwins | src/execution/sensor_hardware/sensor_hardware/imu_serial_driver.py:243-289 | behind any noise without a header and for every frame, the byte receiver delivers the frame if and only if the noise ends in an even run of head bytes, the stream parser if and only if it has at most 64 bytes |
| ImuStream.FrameBehindNoise | src/execution/sensor_hardware/sensor_hardware/imu_serial_driver.py:243-289 | what else the byte receiver delivers there: nothing, and it ends idle, in the even case and for frames without further head bytes |
| ImuStream.StrayHeadSeparatesTheTwins | src/execution/sensor_hardware/sensor_hardware/imu_serial_driver.py:243-276 | a single stray head byte costs the byte receiver the next frame, whatever it holds, and the stream parser nothing |
| ServoFrames.BuildLxPacket | src/hardware/src/bus_servo_protocol.cpp:34-48 | the LX packet: clamped id, length, command, parameters and complemented sum |
| ServoFrames.LxPacketLayout | src/hardware/src/bus_servo_protocol.cpp:34-48 | heads, clamped id, length, command and parameters by position; from the id on the bytes add up to 255 |
| ServoFrames.LxMoveAddressesTheServo | src/hardware/src/bus_servo_protocol.cpp:137-155 | the LX move frame carries the servo id and the move command, with a valid checksum |
| ServoFrames.ZlFramesAddressTheServo | src/hardware/src/bus_servo_protocol.cpp:50-56 | every ZL frame holds the servo id in three digits up to 999, and its body, between hash and end mark |
| ServoFrames.DecodeLxPosition | src/hardware/src/bus_servo_protocol.cpp:58-88 | the position in the first checksum-valid reply for this id; nothing exactly when there is none |
| ServoFrames.LxEchoThenReply | src/hardware/src/bus_servo_protocol.cpp:34-88 | after the request's echo the reply is the first one found, for every id up to 253 and every value; beyond, nothing is found |
| ServoFrames.LxDamageIsRejected | src/hardware/src/bus_servo_protocol.cpp:58-88 | changing any byte but the length byte makes a reply no reply |
| ServoFrames.DecodeZlPosition | src/hardware/src/bus_servo_protocol.cpp:90-118 | the number in the first all-digit frame for this id, cut to 32 bits; nothing when there is none |
| ServoFrames.NegativePositionsParse | src/hardware/src/bus_servo_protocol.cpp:90-118 | digits behind a minus sign are read as the negative number |
| ServoFrames.ZlEchoThenReply | src/hardware/src/bus_servo_protocol.cpp:50-118 | after the request's echo the reply is found, for every id and position |
| ServoFrames.ZlReplyBehindBytes | src/hardware/src/bus_servo_protocol.cpp:90-118 | behind any bytes the reply is the first one found if and only if those hold no reply for the servo and no unterminated prefix for it |
| ServoFrames.ZlTruncatedFrameHidesTheNext | src/hardware/src/bus_servo_protocol.cpp:90-118 | a frame without its end mark swallows the complete one behind it |
| ServoFrames.MoveCarriesTheClampedTarget | src/hardware/src/bus_servo_protocol.cpp:137-155 | both move frames carry the clamped position and duration |
| UnitConversion.ReadBackIsWithinOne | src/execution/servo_hardware/servo_hardware/bus_port_driver.py:354-376 | for every pulse in range and either protocol, writing and reading back changes it by at most one |
| UnitConversion.ReadBackIsNotExact | src/execution/servo_hardware/servo_hardware/bus_port_driver.py:354-376 | pulses of both protocols that do come back one off |
| UnitConversion.ReadBackIsExactWhen | src/execution/servo_hardware/servo_hardware/bus_port_driver.py:354-376 | a pulse comes back unchanged if and only if some unit stands for it, and the residues for which that is so in each protocol |
| UnitConversion.UnitIsReadBackExactly | src/execution/servo_hardware/servo_hardware/bus_port_driver.py:354-376 | unit to pulse to unit is the identity |
| UnitConversion.NormalizationIsConsistent | src/execution/servo_hardware/servo_hardware/bus_port_driver.py:378-416 | any integer becomes a unit and pulse in range that belong together |
| UnitConversion.NormalizationReadsTheCommand | src/execution/servo_hardware/servo_hardware/bus_port_driver.py:378-416 | a position is taken as a pulse if it is one, else as an angle if it is one, else as a unit clamped into the range |
| UnitConversion.ConversionsKeepDirection | src/execution/servo_hardware/servo_hardware/bus_port_driver.py:340-376 | all conversions are monotone and map the ends, and the middle angle, where they belong |
| UnitConversion.ConversionsAreNearest | src/execution/servo_hardware/servo_hardware/bus_port_driver.py:340-376 | the unit of a pulse and the pulse of an angle are nearest to their exact place |
| UnitConversion.TiesGoToEven | src/execution/servo_hardware/servo_hardware/bus_port_driver.py:340-376 | half-way values go to the even neighbour |
| MotionFeedback.EvaluateTargetFeedback | src/control/parallel_3dof_controller/parallel_3dof_controller/motion_execution.py:198-219 | the number of reached targets, and the first error among fresh observations |
| MotionFeedback.SettledServosAreReached | src/control/parallel_3dof_controller/parallel_3dof_controller/motion_execution.py:173-219 | servos exactly at their commanded units all count as reached under every tolerance a goal may carry |
| MotionFeedback.StablePositionTracker.Update | src/control/parallel_3dof_controller/parallel_3dof_controller/motion_execution.py:238-243 | stable exactly when the last N samples all hit |
| Calibration.ReadBackIsTheClampedPosition | src/hardware/include/robot_hardware/conversion.hpp:54-80 | reading what was written is the clamped position, and the position itself if and only if it was in range |
| Calibration.WriteBackIsTheClampedRaw | src/hardware/include/robot_hardware/conversion.hpp:54-80 | writing what was read is the clamped raw value |
| Calibration.EndsMapToEnds | src/hardware/include/robot_hardware/conversion.hpp:54-66 | positions at or beyond an end of the range are written as that end of the raw range |
| Calibration.WritingIsIncreasing | src/hardware/include/robot_hardware/conversion.hpp:54-66 | within the range, a higher directed position is written higher |
| Calibration.RoundedPositionIsReadWithinHalfAStep | src/hardware/include/robot_hardware/conversion.hpp:54-80 | under every valid calibration, rounding the raw value in between moves the position by at most half a raw step |
| Calibration.CarriedIsTheRoundedRaw | src/hardware/src/bus_servo_system.cpp:132-147 | the frame carries the rounded raw value if and only if that lies between zero and the encoder's limit |
| Calibration.WrittenPositionIsReadWithinHalfAStep | src/hardware/src/bus_servo_system.cpp:132-147 | under every valid calibration, what a move frame carries is read back within half a raw step if and only if the raw value fits the encoder |
| Calibration.WideRangeIsCutByTheEncoder | src/hardware/src/bus_servo_protocol.cpp:137-155 | an LX servo with raw values up to 2000 is written 1000 for its upper end and read in the middle |
| Calibration.ReadingIsLipschitz | src/hardware/include/robot_hardware/conversion.hpp:68-80 | reading moves by at most one raw step per unit of raw value |
| RodLength.ConstraintEquations | src/control/parallel_3dof_controller/parallel_3dof_controller/tdpm.py:254-280 | the three constraint values of the filled array |
| RodLength.RotationIsRollPitchYaw | src/control/parallel_3dof_controller/parallel_3dof_controller/tdpm.py:44-77 | the written-out matrix is the composition of the three plane rotations |
| RodLength.RotationKeepsNorm | src/control/parallel_3dof_controller/parallel_3dof_controller/tdpm.py:44-77 | the rotation preserves norms for every attitude |
| RodLength.RodLengthIdentity | src/control/parallel_3dof_controller/parallel_3dof_controller/tdpm.py:272-280 | each squared rod length is l2^2 - l1^2 less twice its constraint value |
| RodLength.SatisfiedConstraintsBoundTheRods | src/control/parallel_3dof_controller/parallel_3dof_controller/tdpm.py:475-501 | passing the check with tolerance tol bounds each squared length within 2 tol of its theoretical value |
| RodLength.SolvableMechanismHasARodLength | src/control/parallel_3dof_controller/parallel_3dof_controller/tdpm.py:485-501 | if the constraints can be met, the theoretical rod length is real |
| RodLength.PlatformIsEquilateral | src/control/parallel_3dof_controller/parallel_3dof_controller/tdpm.py:34-41 | the corners of either platform are an equilateral triangle around the axis at its height |
| RodLength.LevelRodsAreUpright | src/control/parallel_3dof_controller/parallel_3dof_controller/tdpm.py:254-280 | in the level attitude every rod is upright and reaches from l1 below to l2 above |
| FeedbackPolling.BusServoSystem.ReadServo | src/hardware/src/bus_servo_system.cpp:283-305 | a servo's error counter is the length of its current failure streak |
| FeedbackPolling.BusServoSystem.Read | src/hardware/src/bus_servo_system.cpp:212-242 | a cycle polls the next servos in order; an error comes if and only if a polled servo has failed N polls in a row, from the first such one, and then the index stays |
| FeedbackPolling.PollingIsFair | src/hardware/src/bus_servo_system.cpp:230-241 | in any ceil(n / count) consecutive successful reads, the polls those reads made include every servo |
| BvhHandover.AtMostOneWorker | src/tools/record_load_action/record_load_action/bvh_player.py:755-861 | in every interleaving at most one worker is in the playback loop or about to enter it |
| BvhHandover.StoppedMeansSilent | src/tools/record_load_action/record_load_action/bvh_player.py:801-834 | after stop returned true nothing is published until a later play installs a new worker |
| BvhHandover.StopSignalIsHeeded | src/tools/record_load_action/record_load_action/bvh_player.py:943-995 | a worker whose stop event is set publishes at most once more |
| BvhStops.StopCallOfARun | src/tools/record_load_action/record_load_action/bvh_player.py:755-834 | a stop tells the worker it found before waiting; it answers true only if none was found or it is dead, false only from that worker itself or after a wait in vain |
| BvhStops.HandleOfARun | src/tools/record_load_action/record_load_action/bvh_player.py:755-861 | over any run, the handle names exactly the worker that has not left its loop |
| BvhStops.InstalledWorkerIsNotStopped | src/tools/record_load_action/record_load_action/bvh_player.py:755-800 | a newly installed worker has a stop event of its own, not set |
| BvhStops.OnlyACallStopsAWorker | src/tools/record_load_action/record_load_action/bvh_player.py:801-834 | only a call that found the worker tells it to stop |
| BvhStops.CheckedWorkerLeavesWhenTold | src/tools/record_load_action/record_load_action/bvh_player.py:943-995 | a worker that looks at its stop event leaves the loop if and only if it was told to |

## Left out

- Diagnostic state: accepted and rejected counters, the last teleop and last task command records, remaining seconds and
  the recoverable flag of published states.
- Text handling: trimming and lower-casing of identifiers, and the command-name classifiers; a command arrives already
  classified as stop, motion or other.
- ROS topics, services, executors and serial, I2C and socket I/O; services are requests and replies that may time out.
- PCA servos, protocol probing and the protocol registry, and raw motion sent to the router from outside the manager.
- Bodies of execute-command forwarding, and the read-actuator service beyond its lease check.
- Move targets for protocols other than LX and ZL, which the port driver passes on after the pulse clamp.
- IEEE floating point, quaternion normalisation, trigonometry, Jacobians, Newton iteration and rod-length warnings.
- The contents of IMU frames (`parse_serial_frame` field decoding) apart from 16-bit words; the serial receive loop stops
  early once it has what it waits for, and the parser is modelled without that wrapper.
- Scene geometry policy, speech intent, WebSocket messages, task bridge mapping, BVH file parsing, MuJoCo viewer.
- Manager restart; identities used for more than one goal.
- The coroutines of the motion controller are steps of one goal; feedback messages, servo reads and stop requests during
  a goal are not steps, because they do not touch the lease bookkeeping.
- SafetyLatch.DriverSafetyLatch.AdmitProtocolCommand: does not model how a command string is classified.
- Arbitrator.CommandArbitrator.SetEstop: leaves out the stored stop reason and the returned snapshot, which decide nothing.
- SceneGate.SceneAdmissionGate.Evaluate: takes the geometry policy's verdict on a scene as given.
- Calibration.WrittenPositionIsReadWithinHalfAStep: raw values beyond the range of the C++ rounding function are rounded
  exactly.
- ServoFrames.LxDamageIsRejected: says nothing about a changed length byte, which moves the checksum to another byte, so
  that the frame may be accepted.
- ControllerTheorems.EveryStartIsAccountedFor: a pending identity whose start was lost stays pending, since no report ever
  mentions it.
