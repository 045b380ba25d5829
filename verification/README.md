# Gripper and tactile sensor models

This project models the parts of the gripper and tactile sensor SDKs where a mistake would be hard to
see, and proves what they promise. Verify it with `dafny verify dfyconfig.toml`.

**The exchange runtime** (`exchange_runtime.dfy` and the `runtime_*`, `send_and_wait`, `handshake`,
`activation` files) is a concurrent protocol: one commander, one exchange thread, any number of waiters, one
closer and the device, as a machine whose steps are the locked sections, the atomic operations and the wire
transactions of the C++ code. A wire transaction is one step that may fail with or without its write applied
(section 6.17 of the MODBUS Application Protocol Specification V1.1b3: the write is performed before the
read). The loop test and the latch of the block are two steps, so one more cycle can start after `stop` has
cleared the flag. The condition variable meets its interface contract: unlocking and blocking is one step, and
it may return at any time. Beside the program's variables the state keeps the history of cycles, of device
states before and after each of them, and of published records, so the theorems speak of whole runs.
`process_image.dfy`, `exchange_thread.dfy` and `pacing.dfy` hold the code itself as methods; `ExchangeOnce` is
proved to be a run of the machine's steps, and `runtime_looks.dfy` proves that a run is a lawful world for the
wait loops and that waiting in it is a run of the commander's steps. The device under it is
`register_model.dfy`, a register file with rACT edge tracking, behind the byte packing of `blocks.dfy`.

**The Fourier transform** (`complex.dfy`, `fft_theory.dfy`, `fft.dfy`) is the in-place one: bit reversal
by an incremental counter and swaps, then butterflies, on two arrays. It is proved equal to the plain sum
for every power-of-two length, given any stage roots with w_2 = -1 and w_{2L}^2 = w_L, and to run out of
the buffers for every other length but zero.

**Streams and codecs**: the CRC-16 of Modbus RTU (sections 2.5.1.2 and 6.2.2 of the MODBUS over Serial
Line Specification and Implementation Guide V1.02) and the force/torque stream that relies on it
(`crc16.dfy`, `ft_stream.dfy`); the two USB framers and the two field parsers of the tactile sensor
(`usb_framing.dfy`, `sensor_fields.dfy`, `sensor_records.dfy`); the bootloader's packets and its flashing
loops (`bootloader.dfy`).

**Two algorithms**: outline simplification with an explicit stack (`simplification.dfy`) and the ThreadX
emulation of a condition variable with its tick arithmetic (`threadx_condition.dfy`, `threadx_ticks.dfy`).

Code that updates fields or arrays in place is modelled as classes and methods on arrays, proved against
specification functions; the theorems are then about those functions, or about every run of a machine.

## Where the code does not do what is said of it

- A record returned by `setCommandAndWaitForExchange` is said to prove that the gripper has the block
  (`grippers/sdk_cpp/tests/test_wait_for_exchange.cpp:333`). It does exactly when the call does not start
  while an older cycle carrying an equal block is still unpublished, the image already holds another block
  and further cycles follow: `SendProvesUnlessStale`. Such states are reached from every device and every two
  blocks of different wire bytes: `StaleIsReachable`. A caller cannot see the cycle in flight, but it is safe
  with any block once a single record was published since it last set the image: `SendAfterARecordProves`.
- The ThreadX emulation is said to lose no notification
  (`grippers/sdk_cpp/ports/threadx/threadx_platform.hpp:76-79`). That holds while at most one thread waits
  at a time, and with two threads that wait there is a run in which one is lost:
  `LosesNothingIffOneWaiter`. It takes a newcomer: until one comes there is a token for each:
  `EveryWaiterHasAToken`.
- `create_command_packet` lets 256 bytes through its size check and then cannot append their count.
- `_parse_response` reads a packet of `_make_packet` back only when the command byte happens to be the
  code of a status; otherwise its table lookup raises `KeyError`: `FrameParses`.
- The C++ field parser does not know the magnetometer that the Python one does, and takes its payload for
  type bytes. It is unharmed exactly when none of the six payload bytes looks like the type byte of a
  record it knows: `MagnetometerHarmlessIffInert`; `MagnetometerIsMisread` is a reading that harms it.
- A flash attempt that is refused leaves the chunks it had sent of that row staged, and the next attempt
  writes them in front of its first row. The second attempt is faithful exactly when the first was refused
  at a row's first packet: `RetryFaithfulIffRefusedAtFirstPacket`, and `RetryCanCorrupt` is an honest device
  that refuses later. After any number of refused attempts the accepted one is faithful exactly when the last
  one to have moved beyond the first packet of all was refused at a row's first packet, or none has and the
  device was clean: `FaithfulAfterRefusals`. The program sends Enter Bootloader before
  every attempt (`tsf/firmware/bootloader_host.py:445`); the model assumes that this command leaves the
  staging buffer alone, which the repository does not say either way.
- The resynchronisation of the force/torque stream loses a frame after noise exactly when the noise ends in
  an odd number of first header bytes: `FramesAfterNoise`.
- "Any time left at all is worth at least one tick" fails for tick rates beyond 4.29e18 per second, and for
  no others: `ZeroOnlyWithoutTimeLeft`.

## Model

| member | source | states |
|---|---|---|
| RuntimeTheorems.EveryRecordIsItsCycle | grippers/sdk_cpp/src/gripper_state.cpp:75-104 | in every reachable state the history holds the device before and after every cycle, and record n pairs the block latched by the nth successful cycle with the status the device answered to that very write; no success goes unrecorded but the one being published |
| RuntimeTheorems.LinkHealth | grippers/sdk_cpp/src/gripper_state.cpp:88-108 | between cycles the link is Faulted iff at least three failures follow the last success or the seed, even across counter wrap; at every point Faulted means three failures since the newest record; log lines alternate |
| RuntimeTheorems.NoMissedWakeUp | grippers/sdk_cpp/src/process_image.cpp:76-107 | over every interleaving a caller blocked past its count or behind a close has a notifyAll to come, and every return has a reason |
| RuntimeTheorems.NoSleepPastDeadline | grippers/sdk_cpp/src/process_image.cpp:90-98 | on every run a caller found asleep was already asleep, in the same call, when its deadline passed: nobody falls asleep late |
| RuntimeTheorems.ShutMeansAwake | grippers/sdk_cpp/src/process_image.cpp:100-107 | in every reachable state the image is closed from the close on, and once the close has notified nobody is asleep; the thread is told to stop by the stop and by nothing else |
| RuntimeTheorems.BlockGoesOutByTheSecondCycle | grippers/sdk_cpp/src/process_image.cpp:52-62 | with no further set, every cycle from the second to end after the image's block was set carries it, failed ones included: after a bare set and after those inside a blocking call, whatever else the commander does |
| RuntimeTheorems.SendProvesUnlessStale | grippers/sdk_cpp/src/wait.cpp:18-31 | a returned record proves that the device holds the block, over every run of the call, iff the call did not start beside an unpublished cycle with an equal block while the image held another and further cycles were to follow |
| RuntimeTheorems.StaleIsReachable | grippers/sdk_cpp/src/wait.cpp:18-31 | it happens: for every device at the start and every two blocks of different wire bytes, a reachable state in which a send proves nothing |
| RuntimeTheorems.SendAfterARecordProves | grippers/sdk_cpp/src/wait.cpp:18-31 | a condition the caller can see: once one record was published since the image was last set, bare or inside a call, a send of any block is proved |
| RuntimeTheorems.SendOfHeldBlockProves | grippers/sdk_cpp/src/wait.cpp:18-31 | besides, the record proves the block whenever the image already holds its wire bytes |
| RuntimeTheorems.StaleRun | grippers/sdk_cpp/src/wait.cpp:18-31 | the run that breaks the proof, from every state in which the call starts stale |
| RuntimeTheorems.RunsAreLawful | grippers/sdk_cpp/src/process_image.cpp:76-107 | along every run time, counts and closing only go forward and a count names one record |
| RuntimeLooks.LooksAreLawful | grippers/sdk_cpp/src/process_image.cpp:76-107 | the looks a thread takes at a run of the runtime are a lawful world, which is what sync and the waits are proved against |
| RuntimeLooks.CountsArePublishes | grippers/sdk_cpp/src/process_image.cpp:76-88 | along every run the count grows by exactly the number of publishes |
| RuntimeLooks.WaitIsARun | grippers/sdk_cpp/include/Robotiq/gripper/wait.hpp:30-50 | what the wait loop returns in such a world the machine reaches by its own steps: each hand-over is an Observe, giving up is a GiveUp, and the other threads run on in between |
| RuntimeTheorems.StepHolds | grippers/sdk_cpp/src/gripper_state.cpp:73-109 | every step of every thread keeps all the invariants of the runtime |
| RuntimeTheorems.CallRemembersItsStart | grippers/sdk_cpp/src/gripper.cpp:152-214 | a blocking call keeps what it sampled when it began through every step of every thread |
| RuntimeRecords.HistoryStep | grippers/sdk_cpp/src/gripper_state.cpp:75-104 | every step keeps the records paired with the cycles and device states behind them |
| RuntimeWaits.LinkStep | grippers/sdk_cpp/src/gripper_state.cpp:88-108 | every step keeps counter, link state and log in agreement with the cycles that ended |
| RuntimeWaits.WaiterStep | grippers/sdk_cpp/src/process_image.cpp:90-107 | every step keeps a notification due for each sleeper that has reason to wake |
| RuntimeWaits.NotifyWakesEveryone | grippers/sdk_cpp/include/Robotiq/gripper/platform.hpp:38-40 | after a notification, by publisher or closer, no thread is asleep |
| RuntimeCommander.CommanderStep | grippers/sdk_cpp/src/gripper.cpp:123-214 | every step keeps what a blocking call has learnt so far true of the history |
| RuntimeCommander.NeverInProgress | grippers/sdk_cpp/src/fake/register_model.cpp:104-126 | no record of this device shows an activation in progress, since it completes at once |
| SendAndWait.SendStep | grippers/sdk_cpp/src/wait.cpp:18-31 | every step keeps device, image and wire agreeing once a matching record is published in a call that did not start stale |
| Handshake.ActivatedMeansReactivated | grippers/sdk_cpp/src/gripper.cpp:152-214 | Activated implies, within the call, an answered exchange that left rACT clear and no fault, a rising rACT edge after it, and a Complete status answered after that edge, in a history that holds the device before and after every cycle; the image keeps the caller's other bytes and bits with GoTo clear |
| Handshake.OtherResultsKeepTheBlock | grippers/sdk_cpp/src/gripper.cpp:163-204 | what every other result leaves of the caller's block: all of it, a timeout in the clear phase included, unless rACT was already seen clear |
| Handshake.NoMotionDuringCall | grippers/sdk_cpp/src/gripper.cpp:152-174 | at every moment of the call the image holds the caller's block, or one that asks for no motion and differs in rACT and rGTO alone |
| Activation.FirstRecordDecides | grippers/sdk_cpp/src/gripper.cpp:176-214 | on every run that returns, the record that ended the first wait was published after the call began and decides: a major fault, a complete or a running activation leave the image alone, otherwise it is set iff the handshake was allowed; with no record a timeout; and what is answered in each case |
| Activation.EarlyAnswers | grippers/sdk_cpp/src/gripper.cpp:186-194 | FaultLatched iff that record shows a major fault, AlreadyActive iff it shows none and a complete activation; neither sets the image at any step |
| Activation.StatusShows | grippers/sdk_cpp/include/Robotiq/gripper/fault_status.hpp:68-92 | which fault codes are major, the unknown ones included, and which bits say complete and in progress |
| Handshake.RecoveryCanSucceed | grippers/sdk_cpp/src/gripper.cpp:206-214 | from every reachable state of a running thread, wherever it stands in its cycle, answered cycles and enough time make a recovery return Activated |
| Handshake.ActivationCanSucceed | grippers/sdk_cpp/src/gripper.cpp:176-204 | so do they an activation whose image does not ask for rACT yet, whatever the device showed before |
| Handshake.RecordsProveReactivation | grippers/sdk_cpp/src/gripper.cpp:163-172 | two records of one call, rACT clear and then Complete, enclose a rising edge, even with failed cycles whose writes landed |
| Handshake.LandShows | grippers/sdk_cpp/src/fake/register_model.cpp:96-131 | what a landed write leaves: the edge bit and gACT follow rACT, a clear rACT drops the fault, Complete iff rACT |
| ExchangeThread.GripperState.ExchangeOnce | grippers/sdk_cpp/src/gripper_state.cpp:73-109 | one pass of the code, behind its loop test, is a run of the machine's exchange steps that ends exactly one cycle, with this image, device, counter, link state and log |
| ExchangeThread.GripperState.Accept | grippers/sdk_cpp/src/gripper_state.cpp:99-108 | the answered half: the link turns before the record that announces it |
| ExchangeThread.GripperState.Announce | grippers/sdk_cpp/src/gripper_state.cpp:103-108 | the record, its notification and then the log line of a recovery |
| ExchangeThread.GripperState.Catch | grippers/sdk_cpp/src/gripper_state.cpp:88-97 | the failed half: the counter, the third failure and its log line |
| ExchangeThread.GripperState.InitializeImage | grippers/sdk_cpp/src/gripper_state.cpp:42-71 | succeeds iff one of three reads answers, and then leaves a state the machine starts from, the command's rACT, rGTO and position those the device shows, speed and force at their maximum and all else zero; otherwise changes nothing |
| ProcessImage.LockedImage.Seed | grippers/sdk_cpp/src/process_image.cpp:40-50 | the whole image after a seed: count zero, one record, its command |
| ProcessImage.LockedImage.SetCommand | grippers/sdk_cpp/src/process_image.cpp:52-56 | replaces the block and nothing else |
| ProcessImage.LockedImage.Publish | grippers/sdk_cpp/src/process_image.cpp:76-86 | one more count, and the record of one exchange as a whole |
| ProcessImage.LockedImage.Close | grippers/sdk_cpp/src/process_image.cpp:100-105 | closes and keeps the record |
| ProcessImage.LockedImage.Sync | grippers/sdk_cpp/src/process_image.cpp:90-98 | against any lawful interference, returns the record at the first look that allows it: past the count, closed or late, and no earlier look did |
| ProcessImage.LockedImage.WaitForExchangeCount | grippers/sdk_cpp/src/gripper.cpp:79-89 | the newest record when it reached the count, empty otherwise, and empty only when closed or the timeout is over; it blocks at no look past the timeout |
| ProcessImage.LockedImage.NextExchange | grippers/sdk_cpp/include/Robotiq/gripper/wait.hpp:40-44 | one pass of the loop never gives up before the outer deadline, and blocks past it only by the rounding to a millisecond and what goes by between its two readings of the clock |
| ProcessImage.LockedImage.WaitForExchangeAfter | grippers/sdk_cpp/include/Robotiq/gripper/wait.hpp:30-50 | hands over records with strictly increasing counts past the start, each the newest at its moment, returns the first that satisfies the predicate, gives up only when closed or the timeout is over with nothing newer, no pass blocking past the timeout but for that slack, and terminates on finitely many publishes |
| ProcessImage.SkippedWereReplaced | grippers/sdk_cpp/include/Robotiq/gripper/wait.hpp:33-44 | a count that is skipped was published after one hand-over and replaced before the next: at least two publishes fell in between |
| ProcessImage.DeadlineNeverOverflows | grippers/sdk_cpp/include/Robotiq/gripper/wait.hpp:21-28 | the deadline is now plus the timeout iff that is at most 4611686018427 ms, earlier otherwise, and stays on the clock |
| ProcessImage.RemainingMs | grippers/sdk_cpp/src/gripper.cpp:106-110 | what is left is rounded up to a millisecond, never short and less than one too long |
| ProcessImage.WaitsLongEnough | grippers/sdk_cpp/include/Robotiq/gripper/wait.hpp:40-44 | a deadline recomputed from what is left is no earlier than the outer one |
| Pacing.ExchangeLoop | grippers/sdk_cpp/src/gripper_state.cpp:115-136 | for all durations, failures and late sleeps an exchange never starts before the one in front of it is over, is due a period after that one was due or at once when it took longer, and is due whole periods later as long as none takes longer |
| Pacing.NoBurst | grippers/sdk_cpp/src/gripper_state.cpp:133-136 | any window of width W starts at most floor(W / P) + 2 exchanges |
| Pacing.BoundIsTight | grippers/sdk_cpp/src/gripper_state.cpp:133-136 | for every period and every width, a schedule that reaches the bound |
| RegisterModel.Model.Write | grippers/sdk_cpp/src/fake/register_model.cpp:58-68 | a range past the file changes nothing; any other write lands whole and the device acts on its command block |
| RegisterModel.Model.ProcessCommand | grippers/sdk_cpp/src/fake/register_model.cpp:96-131 | the next status field by field and the edge bits, from the command's bits and the edge bits before; it is the device's reaction |
| RegisterModel.Model.Read | grippers/sdk_cpp/src/fake/register_model.cpp:41-56 | command registers read as zero, others as they are, and a range past the file leaves the buffer alone |
| RegisterModel.Model.ReadCommand | grippers/sdk_cpp/src/fake/register_model.cpp:70-78 | the command the registers hold |
| RegisterModel.Model.ReadStatus | grippers/sdk_cpp/src/fake/register_model.cpp:80-88 | the status the registers hold |
| RegisterModel.Model.SetStatus | grippers/sdk_cpp/src/fake/register_model.cpp:90-94 | replaces the status block and no other register |
| RegisterModel.Model.Exchange | grippers/sdk_cpp/include/Robotiq/gripper/modbus_client.hpp:82-83 | a transaction on registers is the machine's atomic wire step: the command's bytes lie in registers 1000 to 1002, the first of each pair in the upper half, and the status comes from 2000 to 2002 in the same way |
| RegisterModel.ContainsRange | grippers/sdk_cpp/src/fake/register_model.cpp:27-31 | which ranges are in the file, with the 32-bit wrap of an empty one at address zero |
| RegisterModel.SetActivated | grippers/sdk_cpp/src/fake/status_writer.cpp:40-44 | sets gACT, bit 0, to its code and keeps every other bit of the flags and every other byte of the status |
| RegisterModel.SetGoToEnabled | grippers/sdk_cpp/src/fake/status_writer.cpp:46-50 | sets gGTO, bit 3, to its code and keeps every other bit of the flags and every other byte of the status |
| RegisterModel.SetActivationState | grippers/sdk_cpp/src/fake/status_writer.cpp:52-58 | sets gSTA, bits 4 and 5, to its code and keeps every other bit of the flags and every other byte of the status |
| RegisterModel.SetObjectDetection | grippers/sdk_cpp/src/fake/status_writer.cpp:60-66 | sets gOBJ, bits 6 and 7, to its code and keeps every other bit of the flags and every other byte of the status |
| RegisterModel.ReactSettles | grippers/sdk_cpp/src/fake/register_model.cpp:66-68 | after any write the status reports exactly the command block, the sweep done iff rACT is held |
| RegisterModel.ConnectingDoesNotDisturb | grippers/sdk_cpp/src/gripper_state.cpp:67-71 | the command seeded from a written-to device's own status reproduces its status block byte for byte and causes no rACT edge |
| RegisterModel.ConnectingShowsOnUnwrittenDevice | grippers/sdk_cpp/src/gripper_state.cpp:67-71 | a device nothing was ever written to is the exception |
| Blocks.RegistersFromBytes | grippers/sdk_cpp/include/Robotiq/detail/byte_packing.hpp:27-36 | the loop packs the leading bytes, the first of a pair in the upper half of its register |
| Blocks.BytesFromRegisters | grippers/sdk_cpp/include/Robotiq/detail/byte_packing.hpp:38-46 | the loop overwrites the leading bytes of the block, upper halves first, and keeps its tail |
| Blocks.UnpackPack | grippers/sdk_cpp/include/Robotiq/detail/byte_packing.hpp:27-46 | unpacking what was packed gives the bytes back |
| Blocks.PackUnpack | grippers/sdk_cpp/include/Robotiq/detail/byte_packing.hpp:27-46 | packing what was unpacked gives the registers back |
| Fft.Transform | tsf/sensor_quickstart/web_viewer.py:534-569 | for every power-of-two number of samples bin k of the two buffers is the discrete Fourier sum of the samples; no samples give no bins, and any other number runs out of the buffers |
| Fft.Permute | tsf/sensor_quickstart/web_viewer.py:539-549 | for power-of-two lengths the swap loop stays inside the buffers and moves every sample to its bit-reversed index |
| Fft.NextReversed | tsf/sensor_quickstart/web_viewer.py:542-546 | the carry loop, on the bits of any two numbers; for power-of-two lengths the incremental counter steps from the reversal of i - 1 to the reversal of i |
| Fft.Stages | tsf/sensor_quickstart/web_viewer.py:556-568 | one pass of butterflies in place combines every pair of half blocks, and runs out of the buffers iff they are not made of whole blocks |
| Fft.Block | tsf/sensor_quickstart/web_viewer.py:558-568 | the butterflies of one block, the running factor being the power of the root; runs out of the buffers iff the block does |
| FftTheory.PassAdvances | tsf/sensor_quickstart/web_viewer.py:552-569 | each pass takes the spectra of the strided sub-sequences to those of twice the length |
| FftTheory.ShuffledIsStageZero | tsf/sensor_quickstart/web_viewer.py:539-549 | bit reversal is exactly the order the first pass needs |
| FftTheory.BumpReverses | tsf/sensor_quickstart/web_viewer.py:542-546 | adding one from the top bit down is bit reversal of adding one |
| FftTheory.ReverseInvolutive | tsf/sensor_quickstart/web_viewer.py:547-549 | reversing twice gives the index back, so the swaps are that permutation |
| FftTheory.CombineSpectra | tsf/sensor_quickstart/web_viewer.py:559-568 | butterflies turn the spectra of even and odd samples into the spectrum of all |
| ComplexNumbers.DftIsEval | tsf/sensor_quickstart/web_viewer.py:534-535 | the reference sum is the samples' polynomial at a power of the root |
| Crc16.Compute | tsf/sensor_quickstart/ft_modbus.py:50-57 | the two bytes returned, their bits in the order they are sent in, are the remainder of the message, its first sixteen bits inverted, times x^16 by x^16 + x^15 + x^2 + 1 |
| Crc16.RegisterIsRemainder | tsf/sensor_quickstart/ft_modbus.py:50-57 | the register, lowest bit first, holds that remainder for messages of any length |
| Crc16.RunDivides | tsf/sensor_quickstart/ft_modbus.py:54-56 | whatever the register held, it ends with the remainder of what entered it: one shift is one step of the long division |
| Crc16.CheckValue | tsf/sensor_quickstart/ft_modbus.py:48-57 | the nine digits give 0x4B37 |
| Crc16.PassesMeansZero | tsf/sensor_quickstart/ft_modbus.py:289-291 | a frame of any length passes iff the register runs to zero over all of it |
| Crc16.FramedPasses | tsf/sensor_quickstart/ft_modbus.py:60-61 | a payload followed by its own CRC passes |
| Crc16.OnlyOwnBytesClear | tsf/sensor_quickstart/ft_modbus.py:50-57 | two bytes clear a register iff they are its own low and high byte |
| Crc16.PairsStayApart | tsf/sensor_quickstart/ft_modbus.py:54-56 | from one register, different pairs of bytes lead to different registers |
| Crc16.AdjacentDamageIsCaught | tsf/sensor_quickstart/ft_modbus.py:289-291 | two frames that differ only within two adjacent bytes, across the CRC boundary too, cannot both pass |
| Crc16.RegisterIsRun | tsf/sensor_quickstart/ft_modbus.py:50-57 | the byte loop is the register that takes the message bit by bit |
| Crc16.BurstsStayApart | tsf/sensor_quickstart/ft_modbus.py:50-57 | from one register, strings of at most sixteen bits lead to one register iff they are equal |
| Crc16.BurstIsCaught | tsf/sensor_quickstart/ft_modbus.py:289-291 | two frames that differ only within sixteen consecutive bits, anywhere and over three bytes too, cannot both pass |
| ForceTorqueStream.Reader.Receive | tsf/sensor_quickstart/ft_modbus.py:277-294 | the consume loop terminates, and delivers and leaves what draining old residue and new chunk does |
| ForceTorqueStream.DrainInParts | tsf/sensor_quickstart/ft_modbus.py:280-294 | a stream can be cut anywhere |
| ForceTorqueStream.ChunkingDoesNotMatter | tsf/sensor_quickstart/ft_modbus.py:276-294 | every chunking of the input delivers the same frames and leaves the same residue |
| ForceTorqueStream.DeliveredFramesAreReal | tsf/sensor_quickstart/ft_modbus.py:282-294 | every delivered frame is in the stream with header and valid CRC, disjoint from and later than the one before |
| ForceTorqueStream.FramesAfterNoise | tsf/sensor_quickstart/ft_modbus.py:282-294 | valid frames after any noise in which no valid frame begins are all delivered, in order and nothing else, iff the noise ends in an even number of first header bytes; otherwise fewer are delivered |
| ForceTorqueStream.NoiseWithoutTheByte | tsf/sensor_quickstart/ft_modbus.py:282-294 | noise without the first header byte costs nothing |
| ForceTorqueStream.StrayHeaderBytes | tsf/sensor_quickstart/ft_modbus.py:286-288 | one stray first header byte before a frame costs that frame, and two cost nothing |
| UsbFraming.ByteReader.ReadByte | tsf/sdk_cpp/RobotiqTactileSensor.cpp:138-172 | one byte: the buffer never overflows, and holds the incomplete packet or the one just completed |
| UsbFraming.PacketParser.FeedBytes | tsf/sensor_quickstart/protocol.py:127-170 | one chunk: the packets returned and the buffer left are those of parsing old buffer and new bytes, and the buffer never holds more than the start of one packet |
| UsbFraming.RestIsIncomplete | tsf/sensor_quickstart/protocol.py:135-170 | what is left of any buffer is too short for a header or begins a packet that is not complete |
| UsbFraming.PacketParser.CreateCommandPacket | tsf/sensor_quickstart/protocol.py:82-95 | the start byte 0x9A, a zero, the command, the count and then the data; more than 256 bytes are too large, and 256 have a count that does not fit |
| UsbFraming.PushAllIsSplit | tsf/sdk_cpp/RobotiqTactileSensor.cpp:138-172 | the C++ framer, byte by byte, computes the meaning of the stream |
| UsbFraming.ParseSplits | tsf/sensor_quickstart/protocol.py:135-170 | the Python loop computes it too, up to leading bytes that start no packet |
| UsbFraming.SplitInParts | tsf/sensor_quickstart/protocol.py:132-170 | a stream of packets can be cut anywhere |
| UsbFraming.FramersAgree | tsf/sdk_cpp/RobotiqTactileSensor.cpp:138-172 | on every stream and every chunking both framers emit the same packets and hold the same bytes up to leading non-start bytes |
| UsbFraming.EncodingsDecode | tsf/sensor_quickstart/protocol.py:82-95 | concatenated encodings decode to exactly themselves |
| UsbFraming.SentPacketsArrive | tsf/sensor_quickstart/protocol.py:82-170 | so both framers return the packets sent, however the bytes arrive |
| UsbFraming.MessagesArrive | tsf/sensor_quickstart/protocol.py:82-170 | and each packet returned carries the command and the data it was made of |
| SensorFields.ExtractUint16 | tsf/sdk_cpp/RobotiqTactileSensor.cpp:179-189 | overwrites the front of the buffer with the complete big-endian numbers there are, and keeps the rest |
| SensorFields.ExtractUint64 | tsf/sdk_cpp/RobotiqTactileSensor.cpp:199-207 | the same for eight bytes |
| SensorFields.ParseBigEndian2 | tsf/sdk_cpp/RobotiqTactileSensor.cpp:174-177 | the value of two big-endian bytes |
| SensorFields.ParseBigEndian8 | tsf/sdk_cpp/RobotiqTactileSensor.cpp:191-197 | the value of eight big-endian bytes |
| SensorFields.FingerData.Extract | tsf/sdk_cpp/RobotiqTactileSensor.cpp:223-259 | one branch writes one field of one finger, signed where it is declared so, flags it and keeps the others |
| SensorFields.ParseSensors | tsf/sdk_cpp/RobotiqTactileSensor.cpp:209-261 | on any payload the index strictly advances and never passes the end, and both fingers hold what the records say |
| SensorFields.ExtractUint16Array | tsf/sensor_quickstart/protocol.py:254-266 | the complete numbers, and the bytes stepped over, an odd one included |
| SensorFields.ExtractInt16Array | tsf/sensor_quickstart/protocol.py:289-304 | the same, signed |
| SensorFields.ExtractUint64Array | tsf/sensor_quickstart/protocol.py:268-287 | the complete numbers of eight bytes |
| SensorFields.PythonParser.ParseSensorPacket | tsf/sensor_quickstart/protocol.py:172-252 | the parser's fingers and the flags returned, for any packet, a short one included |
| SensorFields.PythonParser.ParseData | tsf/sensor_quickstart/protocol.py:184-250 | the loop over the records stores what they say on any payload, its index advancing to the end |
| SensorFields.PythonParser.Extract | tsf/sensor_quickstart/protocol.py:206-250 | what each branch stores and how far it steps, incomplete data included |
| SensorFields.CutShortInCpp | tsf/sdk_cpp/RobotiqTactileSensor.cpp:179-207 | a record cut short overwrites the front of its buffer with the complete numbers there are |
| SensorFields.CutShortInPython | tsf/sensor_quickstart/protocol.py:206-250 | a record cut short shortens the tactile list, clears a vector and leaves a single number alone, and how far each is stepped over |
| SensorRecords.CppInverts | tsf/sdk_cpp/RobotiqTactileSensor.cpp:209-261 | parsing any list of complete records serialised into one payload consumes it exactly and stores each in order |
| SensorRecords.PythonInverts | tsf/sensor_quickstart/protocol.py:172-252 | so does the Python parser, the magnetometer included |
| SensorRecords.LastRecordWins | tsf/sdk_cpp/RobotiqTactileSensor.cpp:209-261 | a field is left at the values of the last record about it, with their sign |
| SensorRecords.UnnamedStays | tsf/sdk_cpp/RobotiqTactileSensor.cpp:209-261 | a field no record is about keeps its value |
| SensorRecords.FlagsAreNamed | tsf/sdk_cpp/RobotiqTactileSensor.cpp:223-253 | exactly the fingers named are flagged, beside those flagged before |
| SensorRecords.ParsersAgree | tsf/sensor_quickstart/protocol.py:172-252 | both parsers agree on every payload of complete records both know, bytes for absent fingers in between |
| SensorRecords.SerializedIsClean | tsf/sensor_quickstart/protocol.py:182-250 | serialised records are such a payload |
| SensorRecords.UntouchedIffInert | tsf/sdk_cpp/RobotiqTactileSensor.cpp:211-258 | the C++ parser leaves fingers without new data alone, on any payload, iff every byte of it is of an absent finger or an unknown kind |
| SensorRecords.MagnetometerHarmlessIffInert | tsf/sdk_cpp/RobotiqTactileSensor.cpp:211-258 | a magnetometer record leaves them alone iff that holds of its six payload bytes |
| SensorRecords.InertMagnetometersAreIgnored | tsf/sdk_cpp/RobotiqTactileSensor.cpp:211-258 | a list of records whose magnetometer payloads are so parses to the other records stored in order |
| SensorRecords.MagnetometerIsMisread | tsf/sdk_cpp/RobotiqTactileSensor.cpp:255-258 | a well-formed magnetometer record that changes the dynamic tactile value the C++ parser reports and not the one Python reports |
| Bootloader.Checksum | tsf/firmware/bootloader_host.py:103-115 | the complement that brings the bytes' sum to a multiple of 2^16 |
| Bootloader.Complement | tsf/firmware/bootloader_host.py:103-115 | sum and checksum add up to zero in sixteen bits |
| Bootloader.MakePacket | tsf/firmware/bootloader_host.py:117-146 | up to 57 data the packet byte by byte: report byte, start, command, length and checksum low byte first, the low bytes of the data, the end, all summing to a multiple of 2^16; the length assertion otherwise |
| Bootloader.ParseResponse | tsf/firmware/bootloader_host.py:148-180 | the response, or the exception, in the order the code runs into it |
| Bootloader.ParseErrors | tsf/firmware/bootloader_host.py:162-178 | which responses raise AssertionError at their start and KeyError, and which are long enough to be read to their end |
| Bootloader.FrameParses | tsf/firmware/bootloader_host.py:117-180 | a packet without its report byte parses back to its data with a good checksum iff its command is one of the eleven status codes; otherwise KeyError |
| Bootloader.OnlyFramesParse | tsf/firmware/bootloader_host.py:148-180 | a response with a good checksum begins with exactly such a packet |
| Bootloader.SendCommand | tsf/firmware/bootloader_host.py:182-197 | one command reaches the device as written, and its answer is parsed |
| Bootloader.SendData | tsf/firmware/bootloader_host.py:254-266 | succeeds iff the device accepts, and then the bytes are staged |
| Bootloader.ProgramRow | tsf/firmware/bootloader_host.py:218-235 | succeeds iff the device accepts, and then the row is written behind what was staged |
| Bootloader.FlashRow | tsf/firmware/bootloader_host.py:275-302 | a row of any length is staged and programmed whole iff every packet is accepted; after a refusal exactly the chunks accepted before it are staged, and no row is written |
| Bootloader.SendChunks | tsf/firmware/bootloader_host.py:284-287 | stages the chunks up to the first refusal, and says how many that was |
| Bootloader.PiecesFit | tsf/firmware/bootloader_host.py:280-300 | a row takes as many packets as it takes pieces of at most 48 bytes, and one when it is empty |
| Bootloader.Flash | tsf/firmware/bootloader_host.py:273-304 | True iff there are rows and every packet is accepted; the rows written are the firmware's, in order, up to the first refusal and nothing else, and what is left staged is the accepted part of the refused row; no packet trips the length assertion; no rows give False |
| Bootloader.FaithfulIffNothingStaged | tsf/firmware/bootloader_host.py:273-304 | the rows an attempt writes equal the firmware's iff nothing was staged before it |
| Bootloader.RetryFaithfulIffRefusedAtFirstPacket | tsf/firmware/bootloader_host.py:273-304 | of two attempts in a row, the first refused and the second accepted, the second writes the firmware's rows iff the first was refused at a row's first packet |
| Bootloader.RefusalLeaves | tsf/firmware/bootloader_host.py:273-304 | from any staging, a refused attempt leaves exactly the accepted chunks of the refused row, behind the old staging when that is the first row; nothing iff refused at a row's first packet with nothing in front |
| Bootloader.FaithfulAfterRefusals | tsf/firmware/bootloader_host.py:273-304 | after any number of refused attempts, from any staging, an accepted one writes the firmware's rows iff the places of the refusals leave the device clean |
| Bootloader.RetryCanCorrupt | tsf/firmware/bootloader_host.py:273-304 | for every firmware whose first row takes several packets, with an honest device that refuses only the second packet, an accepted second attempt writes other rows |
| Bootloader.WholeIffAccepted | tsf/firmware/bootloader_host.py:273-304 | all rows go through iff every packet is accepted |
| Simplification.Simplify | tsf/sensor_quickstart/tools/build_gripper_geometry.py:352-376 | terminates, raises on no points, keeps the ends and exactly the points the recursive procedure keeps, in order; with the Euclidean norm every point passed over has a point of its chord's line within tolerance, and every inner one kept has none on the line through two others kept around it |
| Simplification.Visit | tsf/sensor_quickstart/tools/build_gripper_geometry.py:359-375 | one popped segment: its farthest point is kept and splits it iff it is beyond the tolerance |
| Simplification.OneSegment | tsf/sensor_quickstart/tools/build_gripper_geometry.py:358-375 | kept points and stacked segments always account for the final outline, and the work on the stack shrinks |
| Simplification.ArgMax | tsf/sensor_quickstart/tools/build_gripper_geometry.py:370 | the first index of the greatest distance |
| Simplification.DistanceIsLeast | tsf/sensor_quickstart/tools/build_gripper_geometry.py:362-369 | no point of the line through a chord is nearer than what is measured |
| Simplification.DistanceIsReached | tsf/sensor_quickstart/tools/build_gripper_geometry.py:362-369 | and one is as near, also when the chord has no length |
| Simplification.NearIffMeasured | tsf/sensor_quickstart/tools/build_gripper_geometry.py:362-371 | comparing what is measured with the tolerance tells whether the line comes as near as that |
| Simplification.DroppedPointsAreClose | tsf/sensor_quickstart/tools/build_gripper_geometry.py:352-376 | every dropped point is within tolerance of the chord between the kept points around it |
| Simplification.MaskOutlines | tsf/sensor_quickstart/tools/build_gripper_geometry.py:352-376 | so the selected points, at ascending places from the first to the last, pass every other point within tolerance of the chord that passes it |
| Simplification.KeptPointsAreFar | tsf/sensor_quickstart/tools/build_gripper_geometry.py:370-375 | every inner point kept was beyond the tolerance of a chord between two kept points, none between them farther |
| Simplification.MaskApproximates | tsf/sensor_quickstart/tools/build_gripper_geometry.py:352-376 | so the points selected approximate the others in terms of the norm alone, and none of them but the ends lies near the line through two others around it |
| ThreadXCondition.NoLostNotification | grippers/sdk_cpp/ports/threadx/threadx_platform.hpp:96-112 | while at most one thread waits at a time, a waiter behind a change of the image has a token or a notifier that will still give it one |
| ThreadXCondition.LosesNothingIffOneWaiter | grippers/sdk_cpp/ports/threadx/threadx_platform.hpp:76-112 | no notification is lost on any run iff at most one thread ever waits |
| ThreadXCondition.EveryWaiterHasAToken | grippers/sdk_cpp/ports/threadx/threadx_platform.hpp:76-112 | with any number of waiters and notifiers, from the count being read until another thread comes to wait there are as many tokens put or to be put as threads waiting |
| ThreadXCondition.TokenCanBeStolen | grippers/sdk_cpp/ports/threadx/threadx_platform.hpp:76-112 | with two waiters or more, a run that leaves one blocked behind a change with no wake-up due |
| ThreadXCondition.InvHolds | grippers/sdk_cpp/ports/threadx/threadx_platform.hpp:96-112 | the waiter count is the number of threads in the wait, and the mutex excludes, in every state with any number of threads |
| ThreadXTicks.BlockingTicks | grippers/sdk_cpp/ports/threadx/threadx_ticks.hpp:23-38 | for every rate and every 64-bit duration no intermediate overflows and the result is below TX_WAIT_FOREVER |
| ThreadXTicks.MaxNs | grippers/sdk_cpp/ports/threadx/threadx_ticks.hpp:30-31 | the longest duration whose ticks stay below it |
| ThreadXTicks.ExactCeiling | grippers/sdk_cpp/ports/threadx/threadx_ticks.hpp:36-37 | the exact ceiling in ticks of the duration, or of the clamp |
| ThreadXTicks.Monotone | grippers/sdk_cpp/ports/threadx/threadx_ticks.hpp:23-38 | a longer duration never blocks for fewer ticks |
| ThreadXTicks.ZeroOnlyWithoutTimeLeft | grippers/sdk_cpp/ports/threadx/threadx_ticks.hpp:17-22 | zero iff no time is left or the clamp is below a nanosecond |
| ThreadXTicks.ClampedIsLongest | grippers/sdk_cpp/ports/threadx/threadx_ticks.hpp:30-37 | up to a tick per nanosecond, a clamped duration blocks for the most ticks there are |

## Left out

- The exchange count is unbounded here; its wrap after 2^64 exchanges is not modelled.
- Serial ports, nanoMODBUS, HID and the bytes of a gripper transaction: a wire transaction is one step that
  may fail; the write lands before the read.
- The hosted condition variable's own loop, which can block again between the bump of its generation and
  its notify; the runtime is proved against the interface contract.
- A second commander: calls that overlap on one gripper are outside the handshake's contract.
- Whether a blocking call gives up in time: a call may time out whenever its record is not there yet, so
  the results hold for every timing; that a recovery and an activation can
  succeed is shown by runs.
- The handshake's own timing arithmetic: whether half the timeout is left is a free choice of the step.
- Sensor payloads that end inside a record, or hold kinds only one parser knows, are modelled for each
  parser, but agreement is claimed only for complete records both know.
- Staging a device state through the register file from outside, and the debug asserts of the fake.
- The resynchronisation branch behind a CRC mismatch in `usbReadByte`, unreachable with the placeholder CRC.
- Force/torque noise in which a valid frame begins by accident: it is delivered, and what follows it depends
  on where it ends.
- Scaling of force/torque frames, register requests, units, fingertip filters, linkage and polygon areas:
  floating point or one-line arithmetic.
- Rounding: the transform and the simplification are over exact reals, the roots of the transform and the
  norm of the simplification are parameters, and the magnitudes' square roots are not taken.
- The device behind the bootloader: it stages, programs and clears as its commands say, a refused command is
  not applied, and a taken one is answered with success; lost or forged answers are not modelled.
- Erasing rows, entering and leaving the bootloader, and reading firmware files; entering is taken to leave
  the staging buffer alone.
- Deprecated polling waits, loggers and their throttle, baselines, version requests, user interfaces.
- `FingerData.baseline` and the packet-level timestamp of the C++ structure, which no parser writes.
