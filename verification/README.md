# Verified models of the USB and camera core

The repository shows what a Kinect camera sees. Its hard logic is in the two libraries it brings along:
libusb-1.0, which moves data over USB, and libfreenect, which turns it into frames. This project models
that logic in Dafny 4.11 and proves what it is for. `dafny verify dfyconfig.toml` checks all of it.

| file | what it models |
|---|---|
| `EventProtocol.dfy` | any number of threads handling events, opening and closing devices on one libusb context, one shared access at a time |
| `Progress.dfy` | that the threads of that protocol get somewhere |
| `BulkEngine.dfy` | bulk and interrupt transfers on Linux: URBs, partial submission, short packets, errors, cancellation, completion |
| `BulkVerdict.dfy` | which report such a transfer ends with |
| `IsoEngine.dfy` | isochronous transfers on Linux: splitting into URBs, returning each packet's result |
| `CameraStream.dfy` | reassembly of camera frames from packets that may get lost |
| `BitUnpack.dfy`, `DepthFrames.dfy` | unpacking of 8 to 16 bit samples, and the way of a depth frame from the camera to the user |
| `Bayer.dfy` | the demosaic with its rolling registers |
| `IntrusiveList.dfy`, `FlyingList.dfy` | the linked list, the list of flying transfers sorted by timeout, and the timer |
| `Timeouts.dfy` | which transfers are cancelled because they have timed out |
| `Disconnect.dfy` | draining the transfers of a device that is gone |
| `Descriptors.dfy` | the parser for USB configuration descriptors, with a serialiser to invert |
| `DescriptorInput.dfy` | on which bytes the outcome of that parser depends |
| `DescriptorLayout.dfy` | where the parser finds each field, what it skips and what it refuses |
| `BufferRing.dfy` | the three buffers of the synchronous interface, driven by a camera stream |
| `IsoShutdown.dfy` | starting and stopping a stream of isochronous transfers |
| `Arithmetic.dfy`, `Bytes.dfy` | shared lemmas about division, bytes and memmove |

Objects whose functions update them in place are classes (`BulkTransfer`, `IsoTransfer`, `PacketStream`,
`Context`, `Sync`, `IsoStream`, `Node`) and loops are loops. Each method is proved equal to a function of
the old state; the theorems about that function, over single calls and whole runs, are lemmas. What the
kernel, the clock, the device or another thread decides is a parameter or a free choice of the model.

## Where the code falls short

Some guarantees hold only under a condition. For each of them there is a counterexample, and a lemma saying
exactly when the guarantee holds.

- If writing to the control pipe fails, an event waiter can be left asleep with nobody to wake it, until its
  timeout, and a device can be closed while another thread handles events (`EventProtocol.FailedOpen`,
  `FailedClose`; `SafeIffWritesSucceed`, and for a single run `SafeUntilAWriteFails`).
- After a stalled URB that was reaped in normal mode, a later URB that succeeds leaves a hole in the data
  (`BulkEngine.StalledThenSuccess`, `IntactIffClean`). The comment at linux_usbfs.c:1830-1834 says that holes
  are closed.
- An isochronous packet longer than 32768 bytes is never submitted, nor is any packet after it
  (`IsoEngine.LongPacketStays`, `AllPlacedIff`). After a URB that failed, the results of the following ones
  are copied to other packets' descriptors (`IsoEngine.ResultSlips`, `ResultsLandIff`).
- A camera stream stays in step through a loss of at most five packets modulo 256, provided that the
  multiple of 256 that is overlooked is a whole number of frames (`CameraStream.StaysInStepIff`); losing 256
  packets of the 11-bit depth stream breaks it (`CameraStream.DepthStreamSlips`, `DepthStreamSlipped`). It is
  never out of step for long: two frames' worth of packets in a row set it right (`CameraStream.SelfStabilises`).
- A transfer that is resubmitted without timeout keeps its old deadline (`FlyingList.StaleDeadline`,
  `DeadlineAsAskedIff`).
- A deadline may have a full million microseconds, and then the timer cannot be set to it
  (`FlyingList.TimerRefused`): a submission fails and leaves the transfer in flight, and a completion does not
  call back. It is so exactly if the clock's nanoseconds and the timeout's milliseconds make a whole second
  (`FlyingList.DeadlineIsLater`) and that deadline is to be set next (`FlyingList.Context.SubmitTransfer`,
  `CompleteTransfer`).
- A new transfer that is the next to expire, but stands behind transfers that have timed out already, does
  not get the timer set (`FlyingList.TimerForgotten`, `TimerAfterSubmitIff`). The timer is right again after
  the next completion.
- io.c:1242 promises LIBUSB_ERROR_BUSY for a transfer that is in flight already. By the time the backend says
  so, the transfer has been linked into the list again, and the one behind it is lost. The list is intact
  after a submission if and only if the transfer was not in flight (`FlyingList.SubmitLinked`; wherever it is
  linked, `IntrusiveList.AddTwice`, `AddThenDelete`).
- The loop that drains a disconnected device does not end if its callbacks keep putting transfers of the
  device back in flight (`Disconnect.ResubmitsItself`). It ends if and only if some generation of them is
  empty, where the next generation is what the callbacks of this one put back (`Disconnect.DisconnectEndsIff`).
- The descriptor parser checks only for a configuration's extras that they end within wTotalLength. Otherwise
  the outcome may depend on up to 253 bytes behind it (`DescriptorInput.FarthestByte`). It depends on the
  input only if and only if no other descriptor that is kept ends behind it and no endpoint is looked for at
  its end, unless parsing fails anyway (`DescriptorInput.DependsOnInputIff`).
- Extra descriptors of a configuration without interfaces are dropped (`Descriptors.ExtraIsLost`,
  `ConfigRoundTripIff`).
- If a submission of an isochronous stream's transfer ever fails, stopping the stream waits for ever, and
  otherwise it ends, after a bounded number of steps (`IsoShutdown.FailedResubmission`, `StopCanEndIff`,
  `HaltedIsFreedIff`).

The descriptor parser, on the other hand, ends on every input: an interface descriptor of length 0 is refused,
because it is read again as the descriptor that follows it.

## Model

| member | source | states |
|---|---|---|
| EventProtocol.ReachableKeepsInv | ext/libusb/libusb/io.c:1473-1541 | In every reachable state mutexes are held where the program says so, the active flag and both counters agree with where the threads are, and, if pipe writes succeed, whoever is about to sleep has someone left to wake it. |
| EventProtocol.StepKeepsInv | ext/libusb/libusb/io.c:1951-1994 | The invariant is inductive for each of the program's steps, of any thread. |
| EventProtocol.NoLostWakeup | ext/libusb/libusb/io.c:1671-1698 | While a thread sleeps on event_waiters_cond, some thread has raised the active flag or pollfd_modify and has still to broadcast; for any number of threads and every interleaving. |
| EventProtocol.DebtsArePaidByWaking | ext/libusb/libusb/io.c:1529-1541 | That duty ends only with a broadcast, and a broadcast leaves nobody asleep or about to sleep. |
| EventProtocol.DebtCountsDown | ext/libusb/libusb/core.c:1069-1086 | Whoever owes a broadcast gives it after at most 13 steps of its own. |
| EventProtocol.WokenInTime | ext/libusb/libusb/io.c:1529-1541 | In every part of a run in which a thread that owes a broadcast takes 13 steps, however the others move in between, there is a state in which nobody sleeps or is about to. |
| EventProtocol.ReadNeverBlocks | ext/libusb/libusb/core.c:879-882 | A thread that goes to read the control pipe finds a byte. |
| EventProtocol.NoDeadlock | ext/libusb/libusb/io.c:1964-1994 | If a thread is awake inside a call, some such thread can take a step, even when pipe writes fail. |
| EventProtocol.Conservation | ext/libusb/libusb/core.c:861-890 | pollfd_modify is the number of threads between increment and decrement (modulo the range of an unsigned int), and the control pipe holds one byte for each thread between write and read. |
| EventProtocol.FlagImpliesLock | ext/libusb/libusb/io.c:1488-1533 | The active flag is set exactly while the holder of the events lock has it set. |
| EventProtocol.HandlingIsExclusive | ext/libusb/libusb/core.c:1053-1086 | No two threads handle events or change the poll set at a time. |
| EventProtocol.NoClashWithoutFailure | ext/libusb/libusb/core.c:1077-1086 | If pipe writes succeed, no device is closed while another thread handles events. |
| EventProtocol.FailedOpen | ext/libusb/libusb/core.c:868-874 | With a failing write, a state is reachable where a waiter sleeps and nobody will wake it. |
| EventProtocol.FailedClose | ext/libusb/libusb/core.c:1060-1067 | With a failing write, a device is closed while another thread handles events. |
| EventProtocol.SafeIffWritesSucceed | ext/libusb/libusb/core.c:1058-1067 | No lost wake-up, and no close during event handling, in all reachable states, if and only if pipe writes cannot fail. |
| EventProtocol.SafeUntilAWriteFails | ext/libusb/libusb/core.c:865-874 | In any single run, up to the first write that fails, no wake-up is lost and no device is closed during event handling. |
| Progress.TriesAndHandles | ext/libusb/libusb/io.c:1473-1494 | A thread that calls libusb_handle_events_timeout, while the poll set is not being modified and no other thread holds the events lock, handles events after five steps of its own, however the others move. |
| Progress.TurnedAwayOnlyIfBusy | ext/libusb/libusb/io.c:1473-1494 | It comes to the waiting half only if, since it called, the poll set was being modified or another thread held the events lock. |
| Progress.AppHandles | ext/libusb/libusb/io.c:1514-1519 | A thread that locks the events itself gets the lock when it is free, and handles events then. |
| Progress.DecidesToSleep | ext/libusb/libusb/io.c:1972-1993 | A thread that has been turned away decides to sleep within five steps of its own, if the poll set is being modified or a handler is active all the while. |
| Progress.CanSleep | ext/libusb/libusb/io.c:1671-1698 | Then it can, giving up the waiters lock as it does. |
| Progress.SleepsOnlyIfBusy | ext/libusb/libusb/io.c:1972-1993 | A thread sleeps only if, since it called, the poll set was being modified or a handler was active. |
| Progress.CloseCloses | ext/libusb/libusb/core.c:1053-1086 | If pipe writes succeed, libusb_close does not return before it has closed the device, with the events lock held. |
| Progress.Choices | ext/libusb/libusb/io.c:1951-1994 | An idle thread can make each of the calls, a handler can report completions and stop, and a sleeper can wake up by itself. |
| BulkEngine.UrbsTile | ext/libusb/libusb/os/linux_usbfs.c:1384-1397 | The URBs tile the transfer's buffer: each starts where the one before ends, and the last ends with the buffer. |
| BulkEngine.ReapFrame | ext/libusb/libusb/os/linux_usbfs.c:1835-1845 | Reaping moves data only towards the front, stays within the buffer, and touches neither the data received before nor the region of a URB that the kernel still has. |
| BulkEngine.ReapRetires | ext/libusb/libusb/os/linux_usbfs.c:1847-1854 | A reap reports the transfer exactly when it makes num_retired equal num_urbs. |
| BulkEngine.ReportedExactlyOnce | ext/libusb/libusb/os/linux_usbfs.c:1814-1937 | Over any course of reaps and cancellations a transfer in flight is reported once, and only when no URB is left with the kernel. |
| BulkEngine.SubmissionReported | ext/libusb/libusb/os/linux_usbfs.c:1402-1459 | A transfer whose first URB is refused is never reported; one with any URB accepted is reported once, when all accepted ones are back. |
| BulkEngine.DataGrows | ext/libusb/libusb/os/linux_usbfs.c:1857-1859 | `transferred` is the total of the counted payloads, and received data never changes again. |
| BulkEngine.DataIntact | ext/libusb/libusb/os/linux_usbfs.c:1835-1859 | In a clean run, one in which no counted data follows a hole in normal mode, the first `transferred` bytes are the payloads in URB order. |
| BulkEngine.IntactIffClean | ext/libusb/libusb/os/linux_usbfs.c:1862-1894 | For a given course of events, what is reported is what the device sent, whatever it sent, if and only if the run is clean. |
| BulkEngine.StalledThenSuccess | ext/libusb/libusb/os/linux_usbfs.c:1867-1871 | Three URBs of which the first stalls and the second succeeds are a run that is not clean. |
| BulkEngine.CompletedIffSmooth | ext/libusb/libusb/os/linux_usbfs.c:1847-1852 | The user is told COMPLETED if and only if nothing was cancelled and no error was reaped in normal mode, and submission went through or stopped early because the data was complete. |
| BulkVerdict.WhatIsReported | ext/libusb/libusb/os/linux_usbfs.c:1814-1937 | Over any run, which report it is, as a function of the kernel's answers and the events alone: cancelled if and only if a cancellation met the transfer in flight before any bus error in normal mode; else the first stall, overflow or error reaped in normal mode; else error if and only if submission was refused in the middle for another reason than that the data was complete; else completed. |
| BulkEngine.ReapCounts | ext/libusb/libusb/os/linux_usbfs.c:1835-1859 | Which URBs' data is added to `transferred`: in normal mode good and short ones and the one that overflows, else any. |
| BulkEngine.UrbFlags | ext/libusb/libusb/os/linux_usbfs.c:1368-1388 | Offset, length and flags of each URB: short reads are errors for IN transfers only, all but the first are continuations, and both only if the kernel knows the flags. |
| BulkEngine.DiscardsRest | ext/libusb/libusb/os/linux_usbfs.c:1906-1926 | A reap discards precisely the URBs behind it, if it is the first to fail, or short with others behind it, and the kernel does not do so itself. |
| BulkEngine.BulkTransfer.Submit | ext/libusb/libusb/os/linux_usbfs.c:1340-1463 | Submission leaves the transfer as specified for any answers of the kernel, with every submitted URB's offset, length and flags, and says which URBs it discards. |
| BulkEngine.BulkTransfer.HandleCompletion | ext/libusb/libusb/os/linux_usbfs.c:1802-1937 | One completion takes the transfer and its buffer to the specified state, report and discarded URBs, and keeps it valid. |
| BulkEngine.BulkTransfer.CancelTransfer | ext/libusb/libusb/os/linux_usbfs.c:1714-1736 | Cancelling marks a transfer in flight unless a low-level error did before, and discards every URB. |
| Bytes.Memmove | ext/libusb/libusb/os/linux_usbfs.c:1842-1842 | Moving bytes within a buffer, with overlap, gives the buffer that `Move` describes. |
| IsoEngine.CountUrbs | ext/libusb/libusb/os/linux_usbfs.c:1490-1501 | The counting loop, with its unsigned comparison, counts one URB plus those that `Count` says are added. |
| IsoEngine.SplitDivides | ext/libusb/libusb/os/linux_usbfs.c:1525-1538 | The URBs partition the packets in order, none holds more than 32768 bytes, and none is empty if there is a packet. |
| IsoEngine.SplitIsMinimal | ext/libusb/libusb/os/linux_usbfs.c:1485-1501 | No division of at least one packet into consecutive URBs uses fewer. |
| IsoEngine.PassesAgree | ext/libusb/libusb/os/linux_usbfs.c:1490-1564 | When no packet is longer than a URB, the counting pass gives the number of URBs that the filling pass needs, and the latter produces that partition. |
| IsoEngine.PacketAddresses | ext/libusb/libusb/os/linux_usbfs.c:1517-1563 | Packet j of URB k is the transfer's next packet, with its length, at the address that the lengths of all packets before it add up to. |
| IsoEngine.AllPlacedIff | ext/libusb/libusb/os/linux_usbfs.c:1526-1538 | Every packet is in some URB if and only if none is longer than 32768 bytes. |
| IsoEngine.LongPacketStays | ext/libusb/libusb/os/linux_usbfs.c:1526-1538 | With packets of 32769 and 8 bytes, two URBs are made and neither packet is in one. |
| IsoEngine.GetIsoPacketBuffer | ext/libusb/libusb/libusb.h:1135-1156 | The packet's address is the sum of the lengths before it, and there is none past the last packet. |
| IsoEngine.SubmitFlies | ext/libusb/libusb/os/linux_usbfs.c:1566-1616 | A submission of which the kernel takes at least one URB, with any packet lengths, puts that many in flight and counts the others as retired. |
| IsoEngine.SubmissionAnswer | ext/libusb/libusb/os/linux_usbfs.c:1480-1616 | Submission answers BUSY if and only if the transfer is in flight, NO_DEVICE or IO if and only if the first URB is refused for that reason, and else success. |
| IsoEngine.RetireReports | ext/libusb/libusb/os/linux_usbfs.c:1977-2018 | A transfer is reported at precisely the reap of its last submitted URB. |
| IsoEngine.ReportedOnce | ext/libusb/libusb/os/linux_usbfs.c:1950-2018 | However reaps and cancellations interleave, there is one report, at the end: cancelled if the user ever cancelled, else failed if a URB was refused, else completed. |
| IsoEngine.ReportSays | ext/libusb/libusb/os/linux_usbfs.c:1983-2018 | From submission on: the report is cancelled if and only if there was a cancellation, else failed if and only if the kernel refused a URB, else completed. |
| IsoEngine.ResultsLand | ext/libusb/libusb/os/linux_usbfs.c:1965-1975 | While URBs succeed, each packet descriptor gets its own packet's result, once, and those of packets in flight are untouched. |
| IsoEngine.ResultsLandIff | ext/libusb/libusb/os/linux_usbfs.c:1965-1975 | The results of every successful URB go to its own packets if and only if no URB that failed, with packets in it, came before one that succeeded. |
| IsoEngine.TransferLandsIff | ext/libusb/libusb/os/linux_usbfs.c:1965-1975 | From any submission without packets that are too long: if and only if no URB that failed came before one that succeeded, for then no URB is empty. |
| IsoEngine.ResultSlips | ext/libusb/libusb/os/linux_usbfs.c:1965-1975 | Of two packets submitted in two URBs, the first fails, and the second one's result ends up in the first one's descriptor. |
| IsoEngine.TransferReturnsResults | ext/libusb/libusb/os/linux_usbfs.c:1465-1620 | From submission to report: if all URBs that the kernel takes succeed, every packet in them has its own result in its descriptor, no other descriptor has changed, and one report is made. If all URBs are taken, it says completed, and they hold all packets if and only if none is too long. |
| IsoEngine.IsoTransfer.Submit | ext/libusb/libusb/os/linux_usbfs.c:1465-1620 | Submission gives BUSY, NO_DEVICE or IO, or starts the transfer as specified, for any number of URBs that the kernel takes; if it takes some and refuses one, those it took are discarded. |
| IsoEngine.IsoTransfer.FillUrbs | ext/libusb/libusb/os/linux_usbfs.c:1516-1564 | The filling loops produce the specified URBs for any packet lengths. |
| IsoEngine.IsoTransfer.HandleCompletion | ext/libusb/libusb/os/linux_usbfs.c:1939-2023 | A URB that is none of the transfer's is refused and changes nothing; one that is has its results copied if it succeeded, is counted, and reported as specified. |
| IsoEngine.IsoTransfer.CancelTransfer | ext/libusb/libusb/os/linux_usbfs.c:1738-1758 | Cancelling finds a transfer in flight, marks it and discards each of its URBs. |
| CameraStream.InitConfigValid | ext/libfreenect/src/cameras.c:205-208 | Packets tile the frame: all but the last are full, and the last carries the rest. |
| CameraStream.ProcessValid | ext/libfreenect/src/cameras.c:75-178 | Whatever packet arrives, got_pkts <= pkt_num < pkts_per_frame while synced, every copy stays inside the frame, and a call returns 0 or the frame size. |
| CameraStream.ReportedFrameCounts | ext/libfreenect/src/cameras.c:91-178 | A reported frame counts as many valid packets as positions were filled: all of them if and only if no packet of the frame was lost or dropped. |
| CameraStream.ReportedTimestamp | ext/libfreenect/src/cameras.c:91-178 | Each reported frame is counted once, and bears the stream's last timestamp, or that of the packet that completes it. |
| CameraStream.StampLands | ext/libfreenect/src/cameras.c:91-178 | A packet that lands leaves its timestamp as the last one, and one that is dropped does not; a frame that its last packet completes bears that packet's, and one that is ended by a loss bears the last one. |
| CameraStream.LossReportsLastStamp | ext/libfreenect/src/cameras.c:91-178 | Over any tolerable run: a frame that is ended by a loss is reported with the timestamp of the last packet that landed. |
| CameraStream.TimestampIs | ext/libfreenect/src/cameras.c:166-166 | The timestamp is the little-endian number in bytes 8 to 11 of the packet. |
| CameraStream.WireFormat | ext/libfreenect/src/cameras.c:34-69 | What the header of the sender's packets looks like: magic, flag and sequence number at their offsets, payload from byte 12. |
| CameraStream.PayloadLands | ext/libfreenect/src/cameras.c:91-178 | With at most five packets missing, a payload lands at its original offset and nothing else changes, oversized ones are dropped in step, and a frame is reported exactly when it is over. |
| CameraStream.StaysInStepIff | ext/libfreenect/src/cameras.c:90-111 | For any loss at all, the receiver stays in step if and only if at most five packets are missing modulo 256 and the overlooked multiple of 256 is a whole number of frames. |
| CameraStream.DepthStreamSlips | ext/libfreenect/src/cameras.c:90-111 | A loss of 256 to 261 packets puts the depth stream of 11-bit samples, 242 packets a frame, out of step without the receiver noticing. |
| CameraStream.DepthStreamSlipped | ext/libfreenect/src/cameras.c:90-111 | For instance, one that expects packet 0 and is sent packet 256. |
| CameraStream.Resync | ext/libfreenect/src/cameras.c:75-88 | A receiver out of step gets into step at any frame's first packet and ignores all others. |
| CameraStream.ResyncCounts | ext/libfreenect/src/cameras.c:75-88 | It starts counting the frame's packets afresh then. |
| CameraStream.SelfStabilises | ext/libfreenect/src/cameras.c:75-131 | From any state, in step or not, and whether the receiver knows it or not, two frames' worth of consecutive packets that are not too long bring it into step. |
| CameraStream.Lockstep | ext/libfreenect/src/cameras.c:75-178 | Through any number of tolerable losses and oversized packets, the packet number stays the sender's modulo the frame. |
| CameraStream.FrameReproduced | ext/libfreenect/src/cameras.c:113-178 | A frame whose packets all arrive full is in the buffer byte for byte, and counts as complete. |
| CameraStream.PacketStream.Init | ext/libfreenect/src/cameras.c:182-209 | Starting a stream chooses the buffers and sizes as specified and leaves it valid and out of sync. |
| CameraStream.PacketStream.SetBuf | ext/libfreenect/src/cameras.c:223-244 | Changing the buffer takes effect at once on a running stream, is refused if there would be none, and keeps the stream valid. |
| CameraStream.PacketStream.ProcessPacket | ext/libfreenect/src/cameras.c:48-180 | One packet takes the stream's fields and raw buffer to the specified state and result. |
| BitUnpack.UnpackPack | ext/libfreenect/src/cameras.c:246-260 | Unpacking inverts big-endian packing, for every width and every number of samples. |
| BitUnpack.SampleOfNumber | ext/libfreenect/src/cameras.c:247-260 | Sample k is (N >> (8n - (k+1)vw)) mod 2^vw, where N is the big-endian number in the n bytes of the buffer. |
| BitUnpack.ShiftInByte | ext/libfreenect/src/cameras.c:252-256 | Shifting a byte into the 32-bit accumulator keeps its low bits the bits of the buffer, though old bits fall out. |
| BitUnpack.ConvertPackedTo16Bit | ext/libfreenect/src/cameras.c:247-260 | For widths 8 to 16 the loop writes sample after sample as cut from the string of bits, and reads exactly ceil(len * vw / 8) bytes. |
| BitUnpack.HalfwordIs | ext/libfreenect/src/cameras.c:258-258 | A 16-bit sample is stored low byte first. |
| BitUnpack.ConvertPackedTo8Bit | ext/libfreenect/src/cameras.c:263-275 | The 8-bit unpacker gives what the 16-bit one gives, shifted right by vw - 8, from as many bytes. |
| DepthFrames.SamplesSurvive | ext/libfreenect/src/cameras.c:277-308 | Samples packed by the camera and cut into packets that all arrive come out of the unpacker as they were. |
| Bayer.AverageOfAverages | ext/libfreenect/src/cameras.c:373-379 | A nested truncating average is the floor average of the four samples, or one below exactly if both pairs were rounded and the sum is a multiple of four. |
| Bayer.FourSamples | ext/libfreenect/src/cameras.c:373-379 | The four-sample channels of configurations 2 and 3 are the documented averages minus that loss, with mirrored borders. |
| Bayer.Channels | ext/libfreenect/src/cameras.c:358-386 | Every channel of every pixel is the pixel's own sample, the mean of two neighbours or that of four (minus the loss), as the four configurations say, with mirrored borders. |
| Bayer.ColoursKept | ext/libfreenect/src/cameras.c:344-386 | If all green samples are g, all red ones r and all blue ones b, every pixel is (r, g, b). |
| Bayer.ConvertLine | ext/libfreenect/src/cameras.c:415-504 | The rolling registers give every pixel of a line the colours of its configuration, and nothing else is written. |
| Bayer.ConvertBayerToRgb | ext/libfreenect/src/cameras.c:344-506 | For any width from 2 and height from 3, every pixel of the image is the four-configuration formula with mirrored borders, so that a scene of one colour is shown in that colour. |
| IntrusiveList.Add | ext/libusb/libusb/libusbi.h:83-90 | Adding after a node yields the ring with the entry at that place, in both directions. |
| IntrusiveList.AddTail | ext/libusb/libusb/libusbi.h:92-100 | Adding before a node yields the ring with the entry there; before the head is the end. If the entry is in the list already, no node leads to the one that was behind it any more. |
| IntrusiveList.Delete | ext/libusb/libusb/libusbi.h:102-106 | Deleting an element yields the ring without it, with the same head; in a list with a node that is lost, it stays lost. |
| IntrusiveList.AddThenDelete | ext/libusb/libusb/io.c:1262-1268 | An entry that is in no list can be added anywhere and deleted again without a trace. |
| IntrusiveList.AddTwice | ext/libusb/libusb/io.c:1262-1268 | An entry that is in the list already, added before any node and deleted again, leaves the node behind it lost, always. |
| IntrusiveList.LostIsNoRing | ext/libusb/libusb/libusbi.h:92-106 | Then there is no order in which the nodes are a list. |
| FlyingList.CalculateTimeout | ext/libusb/libusb/io.c:1083-1110 | The deadline is computed as specified, left alone if there is no timeout, and fails if the clock does. |
| FlyingList.DeadlineIsLater | ext/libusb/libusb/io.c:1100-1108 | A deadline is the clock plus the timeout to the microsecond, never looks unset, and has a million microseconds, which the timer cannot be set to, at exactly one instant. |
| FlyingList.DeadlineAsAskedIff | ext/libusb/libusb/io.c:1087-1091 | Over any sequence of submissions of one transfer, its deadline is the clock plus the timeout of the latest, or unset if that has none, if and only if the latest has a timeout or none ever had. |
| FlyingList.StaleDeadline | ext/libusb/libusb/io.c:1087-1091 | A transfer submitted with a timeout and then without one still expires. |
| FlyingList.LaterRespectsTime | ext/libusb/libusb/io.c:1144-1146 | The lexicographic comparison respects real time in spite of such deadlines. |
| FlyingList.AddKeepsSorted | ext/libusb/libusb/io.c:1133-1155 | Adding keeps the list ordered by timeout, those without one last. |
| FlyingList.RemoveKeepsSorted | ext/libusb/libusb/io.c:1398-1398 | So does removing. |
| FlyingList.AddLinked | ext/libusb/libusb/io.c:1115-1159 | On the linked list, through its pointers, adding yields the ring of the sequence with the transfer inserted in order; a transfer that is in the list already makes it lose the node behind. |
| FlyingList.DeleteLinked | ext/libusb/libusb/io.c:1398-1398 | On the linked list, deleting yields the ring of the sequence without the transfer. |
| FlyingList.SubmitLinked | ext/libusb/libusb/io.c:1254-1268 | On the linked list, accepted or refused: if the transfer was not in flight, the ring is the one that the sequence says; if it was, the nodes are no list any more. |
| FlyingList.Context.AddToFlyingList | ext/libusb/libusb/io.c:1115-1159 | The transfer goes behind all that expire no later; the result is 1 if and only if it has a timeout and is the new head. |
| FlyingList.Context.SubmitTransfer | ext/libusb/libusb/io.c:1245-1285 | Submission of a transfer that is not in flight adds it with its deadline and sets the timer if it is the head, with result 0; if the backend refuses it, list and timer are left alone and its error is the result; LIBUSB_ERROR_OTHER if the clock fails, or, with the transfer in flight, if and only if the timer is to be set to a million microseconds. |
| FlyingList.TimerRefused | ext/libusb/libusb/io.c:1104-1107 | A timeout of half a second from one and a half gives such a deadline; the transfer is in flight, the timer is not set, and a completion before it does not call back. |
| FlyingList.Context.HandleTimeoutsLocked | ext/libusb/libusb/io.c:1723-1763 | The scan that stops early flags exactly what a full scan would, and cancels those newly flagged, in order. |
| Timeouts.ScanCancels | ext/libusb/libusb/io.c:1740-1761 | A scan cancels a transfer once if it is not flagged and has a deadline that is not after the clock, and otherwise not at all. |
| Timeouts.CancelledOnceDue | ext/libusb/libusb/io.c:1723-1798 | Over any run of submissions, completions, scans and timer triggers: while it is in flight, a transfer is flagged, and has been cancelled once, if a scan has come at or after its deadline; if not, it is not flagged and has not been cancelled. |
| Timeouts.CancelCount | ext/libusb/libusb/io.c:1723-1798 | In numbers: at most once, and once if and only if a scan came at or after the deadline. |
| Timeouts.CancelsInOrder | ext/libusb/libusb/io.c:1740-1761 | Transfers are cancelled in the order of their deadlines. |
| FlyingList.NextTimerIsSmallest | ext/libusb/libusb/io.c:1341-1360 | The first transfer with a timeout that is not flagged has the smallest such timeout. |
| FlyingList.Context.ArmForNextTimeout | ext/libusb/libusb/io.c:1337-1363 | The timer is set to that timeout, or left alone if there is none or it cannot be set. |
| FlyingList.Context.CompleteTransfer | ext/libusb/libusb/io.c:1397-1428 | Completion removes the transfer and sets the timer to the next timeout, or disarms it; it goes on to the callback if and only if the next timeout, if any, can be set. |
| FlyingList.Context.HandleTimerfdTrigger | ext/libusb/libusb/io.c:1777-1798 | A trigger flags what has expired and sets the timer to the next timeout, or leaves it disarmed. |
| FlyingList.TimerAfterSubmitIff | ext/libusb/libusb/io.c:1270-1276 | A timer that was right is right after a submission if and only if the new transfer has no timeout, is the head and can be armed, or stands behind one that is not flagged. |
| FlyingList.TimerForgotten | ext/libusb/libusb/io.c:1270-1276 | A run from the empty list in which a transfer times out, another is submitted, and the timer is not set for it. |
| FlyingList.TimerAgrees | ext/libusb/libusb/io.c:1262-1279 | In every run that submits no transfer in flight: none is in the list twice; while none is flagged or has a deadline of a million microseconds, the timer is set to the smallest timeout in flight, if any; after each completion and trigger it is set to the smallest that is not flagged, if and only if it can be. |
| FlyingList.Context.GetNextTimeout | ext/libusb/libusb/io.c:2114-2177 | Without timerfd, the result is the smallest remaining time of all transfers with a timeout that are not flagged, at least 0, and nothing if there is no such transfer. |
| Disconnect.AddOther | ext/libusb/libusb/io.c:2331-2335 | Adding another device's transfer leaves the ones of a device, and commutes with leaving them out. |
| Disconnect.HandleDisconnect | ext/libusb/libusb/io.c:2307-2345 | Whenever the loop ends, it completes each transfer of the device and each one put back, once, in list order if none is put back, and leaves the others in order, with those that callbacks submitted among them; for callbacks that submit nothing that is in flight. |
| Disconnect.DisconnectEndsIff | ext/libusb/libusb/io.c:2328-2343 | The loop ends if and only if some generation of resubmissions is empty, whatever the callbacks submit. |
| Disconnect.ResubmittingNeverEnds | ext/libusb/libusb/io.c:2328-2343 | If every callback of the device puts one of its transfers back, one is in flight after any number of rounds. |
| Disconnect.ResubmitsItself | ext/libusb/libusb/io.c:2328-2343 | It is so for a single transfer that is resubmitted by its callback. |
| Disconnect.ForOthersEnds | ext/libusb/libusb/io.c:2328-2343 | If no callback puts a transfer of the device back, the first generation is all there is: one round for each transfer. |
| Descriptors.ParseDescriptor | ext/libusb/libusb/descriptor.c:42-70 | The format interpreter reads the fields that the format describes, words in bus order or in the host's, and consumes their width. |
| Descriptors.SkipDescriptors | ext/libusb/libusb/descriptor.c:115-134 | The skipping loop passes over class and vendor descriptors up to a standard one or the end, and fails on an invalid length. |
| Descriptors.ReadEndpoint | ext/libusb/libusb/descriptor.c:78-156 | Endpoint parsing gives the specified endpoint, extras and position, or fails as specified, on any input. |
| Descriptors.ParseAlt | ext/libusb/libusb/descriptor.c:198-308 | One round over an alternate setting, if it succeeds, takes at least one byte, so that the loop ends on any input. |
| Descriptors.ReadInterface | ext/libusb/libusb/descriptor.c:183-315 | The interface loop terminates and equals the recursive parser on any input. |
| Descriptors.ReadConfiguration | ext/libusb/libusb/descriptor.c:330-422 | Configuration parsing equals the recursive parser on any input, including which extras are kept. |
| Descriptors.EndpointRoundTrip | ext/libusb/libusb/descriptor.c:103-153 | Parsing a serialised endpoint of 7 or 9 bytes with its extras gives it back and consumes exactly its bytes. |
| Descriptors.InterfaceRoundTrip | ext/libusb/libusb/descriptor.c:196-312 | Parsing serialised alternate settings gives them back, and stops before the next interface. |
| Descriptors.ConfigRoundTripIff | ext/libusb/libusb/descriptor.c:330-422 | Parsing a well-formed configuration's serialisation consumes wTotalLength, leaves 0 and yields the same tree with the same extras, if and only if it has an interface or no extras. |
| Descriptors.ExtraIsLost | ext/libusb/libusb/descriptor.c:371-413 | A configuration with a class specific descriptor and no interface is parsed without the descriptor, and with its two bytes left over. |
| Descriptors.SerialisationIsUnique | ext/libusb/libusb/descriptor.c:330-422 | Two well-formed configurations with interfaces that serialise alike are equal. |
| DescriptorLayout.SkipOutcome | ext/libusb/libusb/descriptor.c:115-134 | Skipping passes class and vendor specific descriptors; it fails at one shorter than its header (or, in a configuration, one that ends behind the input), and else stops at the first standard one or when no header is left. |
| DescriptorLayout.EndpointOutcome | ext/libusb/libusb/descriptor.c:89-156 | A descriptor longer than what is left is refused, one of another type consumes nothing, and an endpoint's fields are at the offsets of table 9-13, with what is skipped as its extras. |
| DescriptorLayout.EndpointsOutcome | ext/libusb/libusb/descriptor.c:276-297 | As many endpoints as announced are parsed, one behind the other. |
| DescriptorLayout.SettingOutcome | ext/libusb/libusb/descriptor.c:214-308 | An alternate setting's fields are at the offsets of table 9-12; a configuration or device descriptor behind it ends it without endpoints, more than 32 endpoints are refused, and it is the last one unless an interface descriptor with a setting other than 0 follows. |
| DescriptorLayout.SettingsOutcome | ext/libusb/libusb/descriptor.c:196-312 | Settings are parsed one behind the other up to the last one; fewer than nine bytes hold none. |
| DescriptorLayout.InterfacesOutcome | ext/libusb/libusb/descriptor.c:361-413 | As many interfaces as announced are parsed; what is skipped before the first of them that has any is the configuration's extras. |
| DescriptorLayout.ConfigOutcome | ext/libusb/libusb/descriptor.c:340-359 | A configuration's fields are at the offsets of table 9-10, and more than 32 interfaces are refused. |
| DescriptorInput.OutcomeIsLocal | ext/libusb/libusb/descriptor.c:330-422 | No byte further than 253 behind wTotalLength makes a difference to what is parsed or whether it is; none behind it does if the parser stays inside. |
| DescriptorInput.DependsOnInputIff | ext/libusb/libusb/descriptor.c:115-150 | What is parsed is the same for all memories with the same input if and only if the parser stays inside. |
| DescriptorInput.WellFormedInside | ext/libusb/libusb/descriptor.c:330-422 | It does on what well-formed configurations are serialised to. |
| DescriptorInput.FarthestByte | ext/libusb/libusb/descriptor.c:214-248 | An input of 20 bytes whose outcome depends on the 253rd byte behind it. |
| BufferRing.StepKeepsInv | ext/libfreenect/wrappers/c_sync/libfreenect_sync.c:141-153 | Writes, completed frames and gets, in any order, keep the three slots distinct, the driver's buffer slot 2, and the consumer's buffer holding the frame that it got. |
| BufferRing.ConsumerUndisturbed | ext/libfreenect/wrappers/c_sync/libfreenect_sync.c:144-148 | Between gets the consumer's buffer neither changes nor changes place. |
| BufferRing.EveryGetIsNewest | ext/libfreenect/wrappers/c_sync/libfreenect_sync.c:318-331 | In every interleaving the callback's assertion holds, and each get returns the newest frame with its own timestamp, each frame at most once and in order of production. |
| BufferRing.Sync.Start | ext/libfreenect/wrappers/c_sync/libfreenect_sync.c:240-250 | A stream that is started with slot 2 as its buffer is wired to the ring. |
| BufferRing.Sync.ProducerCallback | ext/libfreenect/wrappers/c_sync/libfreenect_sync.c:141-153 | The callback exchanges slots 1 and 2 and gives the stream the new slot 2. |
| BufferRing.Sync.SyncGet | ext/libfreenect/wrappers/c_sync/libfreenect_sync.c:318-331 | A get that finds a frame exchanges slots 0 and 1 and returns the last produced frame and its timestamp; one that finds none changes nothing. |
| BufferRing.Sync.ProcessPacket | ext/libfreenect/src/cameras.c:277-308 | A packet that completes a frame delivers it, as it is or unpacked to 16 bits or 8, with the stream's timestamp; no packet changes the consumer's buffer. |
| IsoShutdown.StepKeepsInv | ext/libfreenect/src/usb_libusb10.c:172-196 | Every step keeps dead_xfers the number of dead transfers, and what is dead or lost stays so. |
| IsoShutdown.Conservation | ext/libfreenect/src/usb_libusb10.c:215-228 | In every reachable state, the transfers not yet submitted, in flight or in a callback, dead_xfers and the failed submissions add up to num_xfers. |
| IsoShutdown.FreedIsQuiet | ext/libfreenect/src/usb_libusb10.c:239-254 | When the transfers are freed, each has been counted dead and none is in flight. |
| IsoShutdown.CallbackDoes | ext/libfreenect/src/usb_libusb10.c:172-196 | A transfer that comes back is counted dead if the stream is to stop or the transfer failed, and else is in flight again if libusb takes it. |
| IsoShutdown.AliveStreamIsFull | ext/libfreenect/src/usb_libusb10.c:172-232 | While nothing stops the stream, all transfers complete and no submission fails, none is counted dead, and once started all are in flight or about to be again. |
| IsoShutdown.StopCanEndIff | ext/libfreenect/src/usb_libusb10.c:244-246 | In every run that is at the wait, it can come to an end if and only if no submission or resubmission of the run has failed. |
| IsoShutdown.StoppingIsBounded | ext/libfreenect/src/usb_libusb10.c:239-246 | Once the stream is to stop, every course of events is over after a bounded number of steps. |
| IsoShutdown.HaltedIsFreedIff | ext/libfreenect/src/usb_libusb10.c:244-254 | When nothing can happen any more, the transfers have been freed if no submission ever failed, and fnusb_stop_iso is still waiting if one did. |
| IsoShutdown.FailedResubmission | ext/libfreenect/src/usb_libusb10.c:190-190 | A run with one resubmission that fails, at whose end fnusb_stop_iso waits and nothing can happen. |
| IsoShutdown.IsoStream.constructor | ext/libfreenect/src/usb_libusb10.c:198-232 | Starting submits every transfer once; those refused are never in flight. |
| IsoShutdown.IsoStream.IsoCallback | ext/libfreenect/src/usb_libusb10.c:172-196 | A callback counts the transfer dead, or resubmits it if the stream is alive and it completed. |
| IsoShutdown.IsoStream.StopIso | ext/libfreenect/src/usb_libusb10.c:234-256 | Stopping ends exactly when all transfers are dead. |

## Left out

- EventProtocol: memory is sequentially consistent; timeouts of sleepers and spurious wake-ups are free choices; mutexes are those of the system.
- EventProtocol.NoDeadlock: libusb_open and libusb_close called from a transfer's callback, which wait for the events lock that their own thread holds, are not modelled; callbacks return.
- EventProtocol.SafeIffWritesSucceed: a write that fails is a free choice of the model; a lost wake-up lasts until the sleeper's timeout.
- BulkEngine: URBs of one transfer are reaped in submission order, only the last one overflows (linux_usbfs.c:1873), and actual_length is at most buffer_length; allocation succeeds; for bulk OUT transfers the payload is what the kernel says it took.
- IsoEngine: URBs of one transfer are reaped in submission order; allocation succeeds.
- CameraStream: the mode of packets of variable length is never switched on and not modelled; frame sizes are above five packets, as all real ones are; valid_frames does not overflow.
- CameraStream.ReportedFrameCounts: says nothing about which bytes a frame holds that is closed by a loss across its end, where the next frame's first packet is already in the buffer.
- BitUnpack.ConvertPackedTo16Bit: the machine is little-endian.
- FlyingList.TimerAgrees: runs submit no transfer that is in flight (SubmitLinked says what happens then); calls are atomic; timerfd_settime fails for a million microseconds only. Where there is no timerfd, setting it always fails; that is not modelled.
- FlyingList.Context.SubmitTransfer: requires that the transfer is not in flight, since the sequence cannot be what the linked list is afterwards; SubmitLinked covers both cases.
- Disconnect.HandleDisconnect: what a callback submits depends on the transfer only, is not in flight, and has deadlines that the timer can be set to, as have those in flight; submissions by other threads are those of the callbacks.
- Disconnect.DisconnectEndsIff: takes it, as well, that every completion calls back and that what is submitted is not in flight; otherwise see FlyingList.Context.CompleteTransfer and FlyingList.SubmitLinked.
- Disconnect.SubmitEach: a callback's transfers come with their deadlines computed, and are accepted.
- Descriptors.ParseDescriptor: the alignment of words in the destination, which is a sequence of fields here. The parsers above it are modelled with words in bus order (host_endian == 0), and allocation succeeds.
- Descriptors.ConfigRoundTripIff: a well-formed tree has alternate setting 0 first in every interface, extras of at least two bytes with other types than the standard ones, and descriptors of their standard lengths.
- BufferRing.Sync.SyncGet: waiting for the callback's signal and trying again.
- BufferRing.Sync.ProcessPacket: the Bayer and YUV formats are not delivered through the ring, and the change of format, which frees the consumer's buffer, is not modelled.
- IsoShutdown: the kernel may return any transfer in flight at any time; the data that callbacks deliver is the matter of CameraStream.
- Control transfers, reference counts and the device list of core.c, the poll set itself, USB enumeration and sysfs, string descriptors.
- convert_uyvy_to_rgb, the tables of formats and sizes, the camera's commands and registers, motor and LED: easy members.
- The Windows and Darwin backends, the display program, fakenect, recording, and the wrappers for other languages.
