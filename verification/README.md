# A verified model of the RMD motor SDK

The SDK drives RMD motors over CAN and EtherCAT, exchanges frames between threads without locks, reads
an IMU from a serial line and fits torque models.  This project models its concurrent exchange, its
numeric and codec kernels, its realtime cycle and its motor bookkeeping, and proves what they promise.

| file | modules | models |
|---|---|---|
| `SnapshotBuffer.dfy` | `SnapshotProtocol` | the lock-free three-slot exchange as a state machine of single memory accesses |
| `SnapshotBufferClass.dfy` | `SnapshotBufferClass` | its class, each method interleaved with an arbitrary schedule of the other thread |
| `LeastSquares.dfy` | `LinearAlgebra`, `LinearSolver` | the in-place Gauss-Jordan solver |
| `TorqueFit.dfy` | `LeastSquares`, `TorqueFit` | normal equations and the torque fit |
| `HalfFloat.dfy` | `HalfFloat` | half-float conversion against IEEE 754-2008 (encodings of section 3.4, roundTiesToEven of section 4.3.1) |
| `EthercatPdo.dfy` | `EthercatPdo` | process data layouts, control word, packers, parsers, command watchdog |
| `EthercatLayouts.dfy` | `EthercatLayouts` | the drive's view of those layouts and units, for round trips |
| `EthercatSnapshot.dfy` | `EthercatSnapshot` | reading and writing the domain buffer, directly and prepacked |
| `EthercatCycle.dfy` | `EthercatCycle` | the body of the realtime loop |
| `EthercatSafety.dfy` | `EthercatSafety`, `DriveLoop` | safety over runs of cycles; the loop closed with a CiA DSP 402 drive (chapter 10, Device Control, version 2.0) |
| `EthercatBindings.dfy` | `EthercatBindings` | from the registry to the bindings of each domain |
| `StartupGate.dfy` | `StartupGate` | the wait for ready feedback |
| `CanReceive.dfy` | `FeedbackTracking`, `CanReceive` | reply masks and the CAN receive loop |
| `CanTransmit.dfy` | `CanTransmit` | the CAN transmit loop |
| `MitCodec.dfy` | `MitCodec` | quantisation and packing of CAN commands and replies |
| `Crc.dfy`, `Imu.dfy` | `CrcPolynomial`, `Crc`, `ImuChecks`, `Framer` | CRC-16, frame checks and the byte framer of the IMU |
| `JointPath.dfy` | `MinimumJerk`, `JointPath` | minimum-jerk sampling of joint paths |
| `Registry.dfy` | `MotorConfiguration`, `MotorRegistry` | loading motor entries, grouping motors by bus and master |
| `DriverSdk.dfy` | `DriverSdk` | init, setTargets and getActuals |
| `EndToEnd.dfy` | `EndToEnd` | from the caller's targets to the motors, and from their feedback to the caller |
| `RmdTypes.dfy`, `BitArithmetic.dfy`, `RealArithmetic.dfy` | `RmdTypes`, `BitArithmetic`, `RealArithmetic` | shared value types, bit operations on naturals, facts about reals |

Conventions.  Control-path floats are `real`.  Half floats, CRC, masks and packed fields are exact.
A bitset of motors is the set of its indexes.  An exception or error code is an `Option`, a `Result` or a
boolean.  Clocks, received bytes, schedules of the other thread and everything the operating system or
the EtherCAT master decides are inputs, so every theorem is for all of them.  Code that updates state in
place is a class or a loop whose `ensures` equates the new state with a specification function; the
properties are lemmas about that function and about runs of it.

What the proofs show about the code beyond its comments:

- Prepacked and direct writing leave the same image exactly when every motor with a place in it is
  commanded (`EthercatSafety.WritersAgreeIff`); a motor without a valid target gets a default target from
  one and zeros from the other.
- setTargets chooses a layout by mode alone, the bindings also look at the device type.  The two agree
  exactly when no motor of another type is in mode 5 (`EthercatBindings.PackedForBindingsIff`);
  configuring the slaves refuses such a type, so a started backend is not affected.
- A drive that is sent the fault reset word stays in operation; every other loss of drive ends it
  (`DriveLoop.StaysInOperationIff`).
- The stale bits of the CAN loop tell the truth in every run exactly when the slave ids are distinct and
  between 0 and 63 (`CanReceive.TruthfulIff`), which nothing checks; a shared id hides a silent motor and an
  id out of range makes a motor that replied look silent.
- The torque fit gives up only on a normal matrix with a nonzero combination of columns that nearly
  vanishes (`LinearSolver.SolveLinearSystem`), and never accepts features that cancel exactly
  (`TorqueFit.FittedFeaturesIndependent`).
- On CAN a position target is clamped before and after the sign and offset are applied, so with limits
  that are not symmetric it need not come back (`DriverSdk.LimitedTargetComesBackIff`).
- A CAN motor that is told no torque is told half a step, because zero lies between two codes
  (`CanTransmit.ZeroTorqueIsHalfAStep`).
- The last reply of a motor may be missing from a published CAN frame only if its frame id is also that of
  another motor's reply (`CanReceive.RecordsFollowReplies`); with ids as loading demands them and slave ids that
  are distinct and below 64 nothing is ever missing (`CanReceive.NothingIsMissing`).
- A read of the snapshot buffer may return the previous frame again, but only after three refused attempts.
- The initial frame of a buffer may look ready to the startup gate; it never counts, because its sequence number is 0.

## Model

| member | source | states |
|---|---|---|
| SnapshotProtocol.PackUnpack | include/rmd_can_sdk/rmd_snapshot_buffer.h:51-61 | version and slot index come back out of the packed word while versions stay below 2^62 |
| SnapshotProtocol.ProducerStepKeepsInv | include/rmd_can_sdk/rmd_snapshot_buffer.h:18-24 | every word copied and the exchange keep the invariant: slot ownership, whole frames, versions |
| SnapshotProtocol.ConsumerStepKeepsInv | include/rmd_can_sdk/rmd_snapshot_buffer.h:32-48 | load, weak compare-exchange (also when it fails for no reason), copy and return keep the invariant |
| SnapshotProtocol.RunKeepsInv | include/rmd_can_sdk/rmd_snapshot_buffer.h:18-48 | the invariant holds in every state of every interleaving |
| SnapshotProtocol.SlotsNeverShared | include/rmd_can_sdk/rmd_snapshot_buffer.h:63-70 | writer, exchange and reader always hold three different slots, and no producer step changes the slot being read |
| SnapshotProtocol.PublishedIsSent | include/rmd_can_sdk/rmd_snapshot_buffer.h:18-24 | the published history is the initial frame followed by what publish was given, in order |
| SnapshotProtocol.ReadsReturnWholeFrames | include/rmd_can_sdk/rmd_snapshot_buffer.h:32-48 | every read returns, word for word, one frame that was published (or the initial one) |
| SnapshotProtocol.ReadsNeverGoBack | include/rmd_can_sdk/rmd_snapshot_buffer.h:32-48 | versions of successive reads never decrease |
| SnapshotProtocol.SuccessMeansNoPublish | include/rmd_can_sdk/rmd_snapshot_buffer.h:34-45 | a successful compare-exchange proves that nothing was published since the load (no ABA) |
| SnapshotProtocol.CallRecord | include/rmd_can_sdk/rmd_snapshot_buffer.h:32-48 | the record kept of a call says what really happened since the call began |
| SnapshotProtocol.NewestTakesEveryValue | include/rmd_can_sdk/rmd_snapshot_buffer.h:20-22 | the newest version passes through every value in between |
| SnapshotProtocol.ReadIsFreshOrRefused | include/rmd_can_sdk/rmd_snapshot_buffer.h:32-48 | a read returns a frame that was newest at some instant of the call, or, after three refusals, the frame of the read before |
| SnapshotProtocol.ReadsAreWaitFree | include/rmd_can_sdk/rmd_snapshot_buffer.h:33-47 | every reader step shortens the call, no producer step lengthens it |
| SnapshotBufferClass.SnapshotBuffer.constructor | include/rmd_can_sdk/rmd_snapshot_buffer.h:12-16 | the constructed buffer is the initial state of the protocol |
| SnapshotBufferClass.SnapshotBuffer.Publish | include/rmd_can_sdk/rmd_snapshot_buffer.h:18-24 | whatever the reader does meanwhile, exactly the given frame becomes the next version |
| SnapshotBufferClass.SnapshotBuffer.ExchangeLatest | include/rmd_can_sdk/rmd_snapshot_buffer.h:20-23 | the exchange and the private updates after it are the protocol's exchange step |
| SnapshotBufferClass.SnapshotBuffer.CompareExchangeLatest | include/rmd_can_sdk/rmd_snapshot_buffer.h:39-45 | the compare-exchange is the protocol's step, spurious failure included |
| SnapshotBufferClass.SnapshotBuffer.ReadInto | include/rmd_can_sdk/rmd_snapshot_buffer.h:32-48 | whatever the producer does meanwhile, the frame returned was published whole and is fresh, or three attempts were refused |
| LinearSolver.SolveLinearSystem | examples/rmd_ecat_pvt_torque_fit.cpp:89-123 | true: the result solves the original system and nothing else does; false: some combination of the columns of the original matrix, with weight 1 on its last column, has every entry below 1e-12 |
| LinearSolver.FindPivot | examples/rmd_ecat_pvt_torque_fit.cpp:92-97 | the pivot has the largest magnitude at or below the diagonal |
| LinearSolver.NoPivotMeansNearlyDependent | examples/rmd_ecat_pvt_torque_fit.cpp:92-100 | a reduced matrix without a pivot of 1e-12 in a column gives such a combination of the original columns |
| LinearSolver.PlacePivot | examples/rmd_ecat_pvt_torque_fit.cpp:101-109 | swap and division keep the solutions and leave a pivot row |
| LinearSolver.ClearColumn | examples/rmd_ecat_pvt_torque_fit.cpp:110-119 | subtracting from column col on only is enough: the column becomes a unit column, the earlier ones stay so |
| LinearSolver.SwapRows | examples/rmd_ecat_pvt_torque_fit.cpp:101-104 | swapping two rows keeps exactly the solutions |
| LinearSolver.ScaleRow | examples/rmd_ecat_pvt_torque_fit.cpp:105-109 | dividing a row by its pivot keeps exactly the solutions |
| LinearSolver.SubtractRow | examples/rmd_ecat_pvt_torque_fit.cpp:114-118 | subtracting a multiple of another row keeps exactly the solutions |
| LeastSquares.NormalIffOrthogonal | examples/rmd_ecat_pvt_torque_fit.cpp:130-138 | the normal equations hold exactly when the residual is orthogonal to every feature column |
| LeastSquares.NormalSolutionIsUniqueMinimum | examples/rmd_ecat_pvt_torque_fit.cpp:130-141 | the only solution of the normal equations has strictly the smallest sum of squares |
| TorqueFit.NormalEquations | examples/rmd_ecat_pvt_torque_fit.cpp:127-138 | the two accumulation loops build the normal equations of the feature matrix |
| TorqueFit.MeasureError | examples/rmd_ecat_pvt_torque_fit.cpp:145-153 | the error loop computes the sum of squared residuals |
| TorqueFit.Report | examples/rmd_ecat_pvt_torque_fit.cpp:144-155 | after a successful solve: the coefficients and the mean square of the residuals, zero for no points |
| TorqueFit.FitModel | examples/rmd_ecat_pvt_torque_fit.cpp:125-156 | for any points and any feature function: success gives the unique global minimiser and its mean square; failure gives no coefficients and an infinite error, and features that nearly cancel |
| TorqueFit.DegenerateFeaturesAreSmall | examples/rmd_ecat_pvt_torque_fit.cpp:127-143 | what a failed fit says of the data: a nonzero combination of the features whose sum of squares over all points is at most 1e-12 times the sum of the absolute weights |
| TorqueFit.FittedFeaturesIndependent | examples/rmd_ecat_pvt_torque_fit.cpp:140-143 | features of which a nonzero combination is zero at every point never fit |
| HalfFloat.SingleToHalfIsCorrectlyRounded | src/common.cpp:8-40 | every number rounds to a nearest binary16 value, ties to even, overflow to infinity, sign kept |
| HalfFloat.SingleToHalfIsMonotone | src/common.cpp:8-40 | a larger float never converts to a smaller half |
| HalfFloat.NanStaysNan | src/common.cpp:14-17 | a NaN converts to a quiet NaN of the same sign |
| HalfFloat.SubnormalRounds | src/common.cpp:22-33 | results in the subnormal range are correctly rounded |
| HalfFloat.NormalRounds | src/common.cpp:34-39 | results in the normal range are correctly rounded, the carry into the exponent included |
| HalfFloat.RoundedShiftMeaning | src/common.cpp:27-31 | the two bit tests are round half to even |
| HalfFloat.HalfToSingleIsExact | src/common.cpp:42-61 | conversion of a finite half keeps its value, subnormals included |
| HalfFloat.SubnormalPattern | src/common.cpp:54-59 | a subnormal half is normalised without loss |
| HalfFloat.RoundTrip | src/common.cpp:8-61 | converting up and back returns every half; a NaN comes back with the quiet bit set |
| EthercatPdo.LeRoundTrip | include/rmd_can_sdk/heima_ecat_types.h:36-80 | a field stored little-endian reads back modulo its width |
| EthercatPdo.SignedRoundTrip | include/rmd_can_sdk/heima_ecat_types.h:36-80 | a signed value that fits its field reads back unchanged |
| EthercatPdo.ApplyCommandWatchdog | src/rmd_ethercat_pdo.cpp:153-174 | an expired command leaves every commanded motor disabled, everything else as it was, and counts those that were enabled |
| EthercatLayouts.RxRoundTrip | include/rmd_can_sdk/heima_ecat_types.h:37-56 | a drive that reads the packed command finds every field unchanged, in either layout |
| EthercatLayouts.TargetArrives | src/rmd_ethercat_pdo.cpp:92-151 | a target whose values are in the range of their fields: the drive reads the control word put there, the mode, position, velocity, torque, current limit (standard layout) and gains (PVT layout, mode 5, within 0.0005) of the target |
| EthercatLayouts.PackedIsUnderstood | src/rmd_ethercat_pdo.cpp:92-132 | packing keeps what the target says, whatever its values: no torque in mode 8 or without a scale, gains in mode 5 only |
| EthercatLayouts.TxRoundTrip | src/rmd_ethercat_pdo.cpp:176-201 | feedback packed by a drive is parsed to the fields it was packed from, in physical units, in either layout |
| EthercatLayouts.PositionArrives | src/rmd_ethercat_pdo.cpp:12-33 | a commanded position, read back, is within half a count of the clamped target |
| EthercatLayouts.VelocityArrives | src/rmd_ethercat_pdo.cpp:18-40 | a commanded velocity, read back, is within half a count |
| EthercatLayouts.TorqueArrives | src/rmd_ethercat_pdo.cpp:42-48 | outside modes 8 and 10 a commanded torque, read back, is within one raw unit of the clamped target |
| EthercatLayouts.LimitedTorqueIsNearest | src/rmd_ethercat_pdo.cpp:50-63 | in mode 10 the stored torque keeps the current limit and is a nearest value that does |
| EthercatSnapshot.WriteDirect | src/rmd_ethercat_snapshot.cpp:99-133 | the loop stores, in order, each motor's freshly packed bytes where its declared size fits |
| EthercatSnapshot.WritePrepacked | src/rmd_ethercat_snapshot.cpp:135-171 | the loop stores, in order, each motor's prepacked bytes with the control word replaced, where its declared size fits |
| EthercatSnapshot.PrepackedAgreesWithDirect | src/rmd_ethercat_snapshot.cpp:99-171 | for targets packed with the binding's profile both writers leave the same image, byte for byte |
| EthercatSnapshot.InvalidTargetDiffers | src/rmd_ethercat_snapshot.cpp:114-117 | for a motor without a valid target one writer stores the default target (mode 8, current limit 1000), the other zeros, both disabled: the slots differ in the mode byte |
| EthercatSnapshot.OutsideUntouched | src/rmd_ethercat_snapshot.cpp:135-171 | bytes outside every in-range slot are left alone |
| EthercatSnapshot.InsideWritten | src/rmd_ethercat_snapshot.cpp:135-171 | with disjoint slots every byte of a slot holds that slot's byte |
| EthercatSnapshot.OrderIrrelevant | src/rmd_ethercat_snapshot.cpp:140-170 | with disjoint slots the order of writing does not matter |
| EthercatSafety.BindingOrderIrrelevant | src/rmd_ethercat_snapshot.cpp:135-171 | with disjoint ranges the order of the bindings does not matter |
| EthercatSafety.WritersAgreeIff | src/rmd_ethercat_snapshot.cpp:99-171 | with disjoint ranges the two writers leave the same image exactly when every motor that has a place in it is commanded |
| EthercatSnapshot.WatchdogTouchesControlWords | src/rmd_ethercat_pdo.cpp:153-174 | the watchdog firing changes nothing of the image but control-word bytes |
| EthercatSnapshot.ReadDomain | src/rmd_ethercat_snapshot.cpp:37-97 | the loop folds one motor's reading over the bindings |
| EthercatSnapshot.ReadDecides | src/rmd_ethercat_snapshot.cpp:42-96 | a bound motor is valid and parsed from its own bytes when they are there, else stale, invalid and 0xffff |
| EthercatSnapshot.ReadKeepsOthers | src/rmd_ethercat_snapshot.cpp:42-96 | motors not bound in this domain keep their records |
| EthercatCycle.RmdEthercatRuntime.Cycle | src/rmd_ethercat_backend.cpp:605-661 | one pass of the loop, in place on the domain buffers, is exactly one cycle of the specification |
| EthercatCycle.RmdEthercatRuntime.ReceiveDomains | src/rmd_ethercat_backend.cpp:608-639 | each domain is read when its working counter is complete and marked stale otherwise |
| EthercatCycle.RmdEthercatRuntime.WriteDomains | src/rmd_ethercat_backend.cpp:656-659 | each domain is written from the watched targets and this cycle's actuals |
| EthercatSafety.StoredWord | src/rmd_ethercat_snapshot.cpp:155-168 | the word found in the image is the control word computed for that motor |
| EthercatSafety.StoredBytes | src/rmd_ethercat_snapshot.cpp:155-168 | a motor's range of the image holds exactly the bytes made for it |
| EthercatSafety.DomainDecides | src/rmd_ethercat_backend.cpp:608-639 | across all domains a motor's record is parsed from its own bytes of this cycle, or marked stale and invalid with status 0xffff |
| EthercatSafety.SentWord | src/rmd_ethercat_backend.cpp:608-659 | the control word sent follows from the motor's fresh status and the command in force |
| EthercatSafety.EnabledOnlyWhenSafe | src/rmd_ethercat_backend.cpp:608-662 | in every run: 0x0007 or 0x000f only with complete feedback of this cycle, the matching status, enabled = 1 and a command younger than the timeout |
| EthercatSafety.ExpiredMeansDisabled | src/rmd_ethercat_backend.cpp:652-659 | for every interleaving with the target buffer: once a command has expired, every later cycle sends 0x0006 or has read a newer version |
| EthercatSafety.SameCommandStaysExpired | src/rmd_ethercat_pdo.cpp:153-174 | a command found expired is expired, and its motors told to disable, in every later cycle that finds the same one |
| EthercatSafety.SequencesCountCycles | src/rmd_ethercat_backend.cpp:605-607 | every cycle publishes the next sequence number |
| DriveLoop.ReachesAndKeepsOperation | src/rmd_ethercat_pdo.cpp:73-90 | fed and commanded, a drive reaches Operation Enabled within three responses and stays there |
| DriveLoop.EnablingProgress | src/rmd_ethercat_pdo.cpp:81-89 | each driving cycle brings the drive one state nearer |
| DriveLoop.LeavesOperation | src/rmd_ethercat_pdo.cpp:73-90 | expiry, lost feedback (fault reset aside) or disabling ends operation at the next response |
| DriveLoop.StaysInOperationIff | src/rmd_ethercat_pdo.cpp:73-90 | a drive stays in operation exactly while it is driven or sent the fault reset word |
| DriveLoop.EntersOperationOnlyDriven | src/rmd_ethercat_pdo.cpp:81-89 | operation is entered only from Switched On in a driving cycle |
| DriveLoop.FaultReset | src/rmd_ethercat_pdo.cpp:74-76 | a fault is cleared exactly by a reset request that was not there the cycle before |
| EthercatBindings.BuildEthercatPdoBindings | src/rmd_ethercat_bindings.cpp:7-39 | one binding for each motor of the group, in order; none for a CAN group; refused outside the registry |
| EthercatBindings.AssignEthercatPdoProfiles | src/rmd_ethercat_bindings.cpp:41-54 | each MT_Device binding gets the layout and sizes of its mode; refused exactly when a mode is missing |
| EthercatBindings.BuiltAndProfiled | src/rmd_ethercat_backend.cpp:687-690 | building and profiling give the bindings that the theorems about a started backend speak of: an MT_Device has the extended feedback layout, the PVT command layout in mode 5, and the sizes of its layouts |
| EthercatBindings.GroupByDomain | src/rmd_ethercat_backend.cpp:713-729 | one list for each domain id, each with exactly its bindings in order |
| EthercatBindings.LayoutIsOk | src/rmd_ethercat_backend.cpp:713-729 | the grouped bindings are a layout as the cycle needs it, and none is lost |
| EthercatBindings.StartedDistinct | src/rmd_ethercat_bindings.cpp:17-37 | bindings of one backend have distinct motors and sizes that agree with their layouts |
| EthercatBindings.PackedForBindingsIff | src/rmd_driver_sdk.cpp:210-217 | what setTargets packs fits the bindings exactly when no other device type is in mode 5 |
| EthercatBindings.StartedBackendWritesTargets | src/rmd_driver_sdk.cpp:208-217 | a started backend stores the image that packing the caller's targets in the cycle would give |
| StartupGate.FrameReadyForBindings | src/rmd_ethercat_backend.cpp:207-219 | true exactly when every bound motor is valid, not stale, not 0xffff and free of errors |
| StartupGate.WaitForStartupReady | src/rmd_ethercat_backend.cpp:361-393 | opens exactly when, before the deadline, an unbroken stretch of reads shows the required number of different ready frames; at once for timeout zero |
| StartupGate.GateReadsSnapshots | src/rmd_ethercat_backend.cpp:372-374 | for every run of cycles, every interleaving with the buffer and every encoding of frames in words that gives the published frames back, the frames read never go back and a number names one frame |
| StartupGate.WordsExist | include/rmd_can_sdk/rmd_snapshot_buffer.h:12-48 | for every run of cycles and every size of the buffer there is such an encoding |
| StartupGate.InitialFrameNeverOpens | src/rmd_ethercat_backend.cpp:369-374 | the frame with sequence 0 never counts |
| StartupGate.GateStep | src/rmd_ethercat_backend.cpp:373-383 | the counter reaches the required number exactly when a stretch is complete |
| FeedbackTracking.MarkedMeaning | src/rmd_types.cpp:23-34 | a reply completes the mask exactly when all other expected slaves had replied, and then it starts over |
| FeedbackTracking.CompleteIff | src/rmd_types.cpp:15-34 | the mask equals the expected one exactly when every expected slave is in it |
| FeedbackTracking.MaskTracker.SetExpectedFromSlaveIds | src/rmd_types.cpp:15-21 | the expected mask is the union of the slaves' bits, the current one empty |
| FeedbackTracking.MaskTracker.MarkReceived | src/rmd_types.cpp:23-34 | the in-place update is the specified one |
| FeedbackTracking.FeedbackFrameTracker.MarkReceived | src/rmd_types.cpp:62-75 | unexpected slaves change nothing; the first reply starts the frame, the last one ends it |
| FeedbackTracking.FeedbackFrameTracker.Reset | src/rmd_types.cpp:85-88 | the frame starts over |
| CanReceive.RmdCanBackend.constructor | src/rmd_can_backend.cpp:11-32 | own motors valid, all of them expected |
| CanReceive.CreateRmdCanBackend | src/rmd_can_backend.cpp:19-30 | a backend is made exactly when the frames have room for every motor of the group |
| CanTransmit.SendTick | src/rmd_can_backend.cpp:110-130 | one command frame for each motor: its limited target within half a step, or no gains when it is not enabled; a status request for each in every twentieth tick |
| CanTransmit.TxLoop | src/rmd_can_backend.cpp:99-141 | the loop sends this in every tick |
| CanTransmit.OtherIsLimp | src/rmd_can_backend.cpp:114-120 | a motor that is not enabled is sent zero gains |
| CanTransmit.StatusIsRequested | src/rmd_can_backend.cpp:124-130 | in any twenty ticks in a row exactly one asks every motor for its status |
| CanTransmit.ZeroTorqueIsHalfAStep | src/rmd_protocol.cpp:88-101 | torque zero is sent as code 2048, which stands for a 4095th of the torque scale |
| CanReceive.RmdCanBackend.HandleOne | src/rmd_can_backend.cpp:156-174 | one motor's look at a frame is the specified step |
| CanReceive.RmdCanBackend.MarkMissingStale | src/rmd_can_backend.cpp:83-97 | exactly the motors missing from the mask are marked |
| CanReceive.RmdCanBackend.RxLoop | src/rmd_can_backend.cpp:143-176 | the loop over any events is the run of the specification |
| CanReceive.ReceivedKeepsInv | src/rmd_can_backend.cpp:156-174 | a received frame, wherever its motor stands in the loop, keeps the invariant |
| CanReceive.TimeoutKeepsInv | src/rmd_can_backend.cpp:147-154 | a timeout keeps the invariant |
| CanReceive.MasksAgree | src/rmd_types.cpp:57-88 | in every run the current mask lies within the expected one and the tracker is active exactly when it is not empty |
| CanReceive.StaleMeansSilent | src/rmd_can_backend.cpp:143-176 | in every published frame a motor is stale exactly when no valid reply of it came since the frame before, and otherwise shows the position and velocity of its last one; without a timeout none is stale |
| CanReceive.RecordsFollowReplies | src/rmd_can_backend.cpp:156-174 | in every published frame of every run each motor shows position, velocity, torque and temperature of its last valid reply and status reply among all events up to the publication, zero if there was none; only a frame that is also a reply of another motor may be missing |
| CanReceive.RecordsFollowRepliesExactly | src/rmd_protocol.cpp:171-187 | when no frame id is shared by two motors nothing is ever missing |
| CanReceive.NothingIsMissing | src/rmd_can_backend.cpp:143-176 | for positive ids and slave ids of their own, below 64, nothing is ever missing |
| CanReceive.SharedIdsShowOldRecord | src/rmd_can_backend.cpp:156-169 | two motors that share both ids: one reply publishes a frame in which the second motor still shows nothing of it |
| CanReceive.TruthfulIff | src/rmd_can_backend.cpp:143-176 | for distinct motors whose ids can reply: in all runs the stale bits and the values shown tell the truth if and only if the slave ids are distinct and between 0 and 63 |
| CanReceive.WindowsPartitionEvents | src/rmd_can_backend.cpp:77-81 | the windows of the published frames partition the events: none lost, none counted twice |
| CanReceive.SharedSlaveIdHidesSilence | src/rmd_types.cpp:50-55 | two motors with one slave id, anywhere in the list: there is a run in which the silent one is published as not stale |
| CanReceive.IdWithoutBitStaysStale | src/rmd_types.cpp:50-55 | a slave id outside 0 to 63, anywhere in the list: there is a run in which its motor replies and is published as stale |
| MitCodec.CodeRoundTrip | src/rmd_protocol.cpp:88-101 | every code survives decoding and encoding |
| MitCodec.HalfStep | src/rmd_protocol.cpp:88-101 | the quantisation error is at most half a step |
| MitCodec.NearestCode | src/rmd_protocol.cpp:88-93 | no other code's value is closer |
| MitCodec.EncodeMonotone | src/rmd_protocol.cpp:88-93 | a larger value never gets a smaller code |
| MitCodec.DecodeMonotone | src/rmd_protocol.cpp:95-101 | a larger code has a larger value, up to the largest |
| MitCodec.CodeInRange | src/rmd_protocol.cpp:88-93 | a code fits its bits, whatever the value |
| MitCodec.CommandRoundTrip | src/rmd_protocol.cpp:111-120 | the five fields are read back out of the eight bytes |
| MitCodec.FrameRoundTrip | src/rmd_protocol.cpp:111-120 | every eight bytes are the frame of exactly one command |
| MitCodec.CommandArrives | src/rmd_protocol.cpp:103-121 | a motor that unpacks a command finds every value within half a step of the clamped one; the torque scale is its own limit, or 24 Nm if that is not positive |
| MitCodec.ReplyParses | src/rmd_protocol.cpp:35-53 | a reply parses to the id and values it was made from, on the same scales |
| MitCodec.ReplyRoundTrip | src/rmd_protocol.cpp:35-53 | parsing loses nothing: the six bytes can be rebuilt |
| MitCodec.Status2Parses | src/rmd_protocol.cpp:55-68 | a status reply parses back to its signed temperature and current |
| CrcPolynomial.CrcLinear | src/rs232_imu_backend.cpp:129-143 | the CRC is linear over exclusive or |
| CrcPolynomial.CrcBitsAppend | src/rs232_imu_backend.cpp:129-143 | the CRC of a concatenation continues from the CRC of the first part |
| CrcPolynomial.BurstDetected | src/rs232_imu_backend.cpp:129-143 | equal-length messages that differ by a burst of at most 16 bits have different CRCs |
| Crc.UnmaskedStep | src/rs232_imu_backend.cpp:134-140 | the unmasked 32-bit shift step does to the low half what the 16-bit step does |
| Crc.CrcUpdate | src/rs232_imu_backend.cpp:129-143 | the loop computes the masked 16-bit CRC of the bytes |
| Crc.CrcComposes | src/rs232_imu_backend.cpp:167-172 | updating twice is updating with the concatenation |
| Crc.Uint16LeIs | src/rs232_imu_backend.cpp:167-172 | the two stored bytes, low byte first, stand for that number |
| ImuChecks.ValidXsens | src/rs232_imu_backend.cpp:145-165 | true exactly when the identifiers of the three blocks match and bytes 1 to 49 sum to 0 modulo 256 |
| ImuChecks.IdsForceNegation | src/rs232_imu_backend.cpp:155-163 | on frames with valid ids the sum always exceeds 255, so the conditional negation always happens |
| ImuChecks.ValidHiPNUC | src/rs232_imu_backend.cpp:167-172 | true exactly when the CRC over bytes 0-3 and 6-81, as a number, is byte 4 plus 256 times byte 5 |
| ImuChecks.BurstInvalidatesFrame | src/rs232_imu_backend.cpp:167-172 | a valid frame hit by a short burst is not valid any more |
| ImuChecks.WrongByteInvalidatesXsens | src/rs232_imu_backend.cpp:145-165 | a valid frame with one wrong byte is not valid any more |
| Framer.FeedAppend | src/rs232_imu_backend.cpp:309-347 | how the stream is split into reads does not matter |
| Framer.FramerRefinesScan | src/rs232_imu_backend.cpp:316-346 | the frames cut out are those of the greedy leftmost scan for the header pair |
| Framer.ScanIsOrdered | src/rs232_imu_backend.cpp:316-346 | the candidates are contiguous, do not overlap and begin with the header |
| Framer.CleanStreamDecodes | src/rs232_imu_backend.cpp:316-346 | gaps without a header pair between frames decode to exactly those frames |
| Framer.PublishedFramesAreGood | src/rs232_imu_backend.cpp:309-347 | whatever the stream, every published frame has the length and header of its protocol and passes its check |
| Framer.CleanStreamIsPublished | src/rs232_imu_backend.cpp:309-347 | good frames between gaps without a header pair are all published, in order |
| Framer.ReadLoop.TakeByte | src/rs232_imu_backend.cpp:316-346 | the in-place buffer and index follow the framer; the index stays below the frame length |
| Framer.ReadLoop.Consume | src/rs232_imu_backend.cpp:316-346 | one read hands every byte to the framer |
| MinimumJerk.ProgressSpeed | src/rmd_joint_path.cpp:18-20 | the blend never runs backwards and at most 15/8 as fast as a straight line |
| MinimumJerk.ProgressRange | src/rmd_joint_path.cpp:18-20 | it runs from 0 to 1 and stays between |
| MinimumJerk.LeavesSlowly | src/rmd_joint_path.cpp:18-20 | it leaves like the cube of the time, without speed or acceleration, and arrives as it left |
| JointPath.ValidateLegJointPath | src/rmd_joint_path.cpp:33-52 | accepts exactly the valid paths, and complains in the order of the checks |
| JointPath.SampleLegJointPath | src/rmd_joint_path.cpp:54-78 | refuses exactly the invalid paths; on a valid one a segment is always found and its point returned |
| JointPath.SampleIsUnique | src/rmd_joint_path.cpp:60-75 | segments meet at waypoints, so a time has one sample |
| JointPath.WaypointsAreReached | src/rmd_joint_path.cpp:60-75 | each waypoint is returned at its time |
| JointPath.StaysBetweenWaypoints | src/rmd_joint_path.cpp:22-29 | every joint stays between the two neighbouring waypoints |
| JointPath.LimitsHold | src/rmd_joint_path.cpp:54-78 | limits met at all waypoints hold at all times |
| JointPath.MovesMonotonically | src/rmd_joint_path.cpp:67-75 | within a segment a joint moves one way, at most 15/8 as fast as on a straight line |
| JointPath.SpeedLimitHolds | src/rmd_joint_path.cpp:54-78 | over any stretch of time a joint moves at most 15/8 times the speed limit of the straight segments |
| MotorConfiguration.UpsertIsMapUpdate | src/rmd_can_config.cpp:108-117 | aliases stay unique, and the list changes as an update changes a map |
| MotorConfiguration.ConfigReader.UpsertMotor | src/rmd_can_config.cpp:108-117 | the search loop and the in-place overwrite are the specified update |
| MotorConfiguration.ConfigReader.ReadMotorParameterMap | src/rmd_can_config.cpp:90-106 | the last element of an alias wins; the count is the largest positive alias |
| MotorConfiguration.ConfigReader.ReadEntry | src/rmd_can_config.cpp:143-168 | which entries are refused, skipped or upserted |
| MotorConfiguration.ConfigReader.LoadConfig | src/rmd_can_config.cpp:263-338 | CAN slaves, then ECAT slaves, then explicit placements: loading succeeds exactly when no entry is refused, and holds the entries upserted in that order |
| MotorConfiguration.LastEntryWins | src/rmd_can_config.cpp:108-117 | each alias is configured by its last entry |
| MotorConfiguration.LoadedIffKept | src/rmd_can_config.cpp:119-168 | an alias is configured exactly when an entry for it is a slave, an EtherCAT placement, or a CAN placement without a type or with one that begins with RMD |
| MotorConfiguration.PlacementOverrides | src/rmd_can_config.cpp:332-333 | an alias named by an explicit placement is configured by its last one, whatever the earlier sections said |
| MotorConfiguration.LoadedConfigOk | src/rmd_can_config.cpp:90-117 | loaded aliases are unique and between 1 and the total count, with the parameters of their alias |
| MotorRegistry.FromConfig | src/rmd_motor_registry.cpp:8-47 | refused exactly for an alias out of range; otherwise the groups partition the motors, with unique keys and pointers both ways |
| MotorRegistry.AddMotor | src/rmd_motor_registry.cpp:18-43 | adding a motor, with or without a new group, keeps the partition |
| MotorRegistry.LoadedNeverRefused | src/rmd_motor_registry.cpp:14-16 | a configuration that loaded is never refused |
| MotorRegistry.GroupedByKey | src/rmd_motor_registry.cpp:18-26 | two motors share a group exactly when they share bus and master |
| DriverSdk.ConversionsAreInverse | src/rmd_driver_sdk.cpp:29-86 | a CAN motor that follows its converted target is seen where the caller's clamped target put it |
| DriverSdk.LimitedTargetComesBackIff | src/rmd_driver_sdk.cpp:219-221 | after the second clamping a position comes back exactly when it also lies within the limits in the motor's own frame |
| DriverSdk.Impl.Init | src/rmd_driver_sdk.cpp:121-177 | succeeds exactly when modes and current limits count one per motor, the frames have room for every motor and all backends start; modes and limits left unset are 8 and 1000 for every motor |
| DriverSdk.Impl.GetActuals | src/rmd_driver_sdk.cpp:236-260 | every registered motor gets, field by field, the record of its own backend's frame (CAN motors in the caller's direction and without the offset), other slots stay empty, the result is minus the number of invalid or stale motors |
| DriverSdk.SeenStep | src/rmd_driver_sdk.cpp:248-250 | the nested loops visit each motor once |
| DriverSdk.AllCounted | src/rmd_driver_sdk.cpp:244-259 | counting group by group counts every registered motor exactly once |
| DriverSdk.Impl.SetTargets | src/rmd_driver_sdk.cpp:194-234 | each motor's converted and limited target stands in the frame of its own bus and only there, under the next sequence number and the present time, and each backend is sent the frame of its bus |
| EndToEnd.EthercatTargetReachesDrive | src/rmd_driver_sdk.cpp:208-217 | when a cycle finds the frame setTargets published, the drive reads the caller's target, gains, mode and current limit included, under the control word its fresh status and the unexpired command call for |
| EndToEnd.EthercatFeedbackReachesCaller | src/rmd_driver_sdk.cpp:244-259 | what the drive stores in a cycle is what getActuals reports of it, in physical units |
| EndToEnd.CanTargetReachesMotor | src/rmd_driver_sdk.cpp:218-223 | the command frame of a CAN motor carries the caller's target in the motor's direction and with its offset, gains clamped; no gains when not enabled |
| EndToEnd.CanFeedbackReachesCaller | src/rmd_driver_sdk.cpp:244-259 | getActuals reports what the motor last replied up to the frame read, and counts it as lost exactly when it was silent since the frame before |

## Left out

- Memory orderings weaker than an interleaving of single accesses (the atomics are acquire-release; each access is one step here).
- More than 2^62 publishes through one snapshot buffer: the packed version would wrap.
- Rounding, overflow, NaN and infinity of floats in the control path and in the fit: those values are reals.
- TorqueFit.Report: the root of the mean square is not taken, because the model states the mean square itself.
- EthercatSafety.EnabledOnlyWhenSafe: assumes that a command frame with a zero timestamp commands no motor, as the initial frame and those of setTargets do; the watchdog ignores such frames.
- EthercatSafety.StoredWord: rests on disjoint byte ranges, which PDO registration by the EtherCAT master provides.
- CanReceive.TruthfulIff: motors with equal ids or with ids that no reply frame carries (outside 1 to 255) are not part of it.
- CanReceive.RmdCanBackend.constructor: takes motors the frames have room for; CreateRmdCanBackend decides the others.
- EthercatSnapshot.WriteDirect: declared sizes below those of the profile's layout are excluded; with them the source writes past the range it has checked.
- EthercatSnapshot.WritePrepacked: the same.
- EthercatSnapshot.ReadDomain: the same, for reading.
- EthercatLayouts.TargetArrives: values whose exact counts, torque or gains lie outside their 16- or 32-bit fields are excluded.
- Conversions of reals beyond the range of a 16- or 32-bit field are cut to the field's width; in the source they are undefined.
- FeedbackFrameTracker's publish timeout: the receive loop never asks for it.
- StartupGate.WaitForStartupReady: the clock is assumed to reach the deadline; the text printed on failure is not modelled.
- JointPath.SampleLegJointPath: the four joints are reals; the texts of its errors are an enumeration.
- MotorConfiguration.ConfigReader.LoadConfig: entries come as values, with disabled slaves and other device types already left out of the CAN and ECAT sections; XML itself, masters, domain divisions and the IMU section are not modelled.
- EthercatBindings.BuildEthercatPdoBindings: the spelling of device type names is a parameter.
- The YESENSE decoder and the decoding of valid IMU frames into angles and rates.
- Status-1 and multi-turn replies, SDO access, and the conversion heimaHalf2Single, which treats subnormals differently from halfToSingle.
- Polarities other than 1 and -1: the unit round trips are stated for these two.
- Threads, sleeping, process locks, environment variables, counters of the backend status, logging, leg kinematics and the example programs apart from the fit.
