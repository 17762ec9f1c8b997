# robot-hal: proofs about the shared-memory ring, the adapters and the release order

robot-hal gives programs access to cameras, serial ports and CAN buses. This project models the
parts of it where being wrong is easy and being sure is hard, and proves what they promise. The
files follow the program's components:

| files | component |
|---|---|
| `Layout`, `Ring`, `RingInvariant`, `RingHistory`, `RingTheorems`, `RingTallies`, `RingSpoil` | the camera frame ring as a sequence of slots, every operation an atomic step, and the theorems about all runs |
| `LittleEndian`, `RingBytes`, `RingHeader`, `BrokerMapping`, `MappingRuns` | the same ring as one byte array with fixed offsets: a class whose methods refine the slot-level steps, and whole runs of it read by another process |
| `CameraPlanes` | from a native V4L2 or Media Foundation sample to a publishable frame |
| `SerialIo`, `SerialActor` | the serial worker: its deadline-bounded loops, and its protocol with clients |
| `SocketCanLink`, `SocketCanLease`, `SocketCanStuck` | configuring a CAN link, verifying it, giving it back, and the links that cannot be given back |
| `PcanTiming`, `PcanCodec` | the exact bit-timing solver and the CAN message codec |
| `CameraClaims`, `CaptureWorker` | ownership of cameras across sessions, workers and reapers; the AVFoundation capture worker |
| `ReleaseOrder` | the order in which the release tool packages crates |
| `Prelude`, `Arithmetic` | shared types, facts about products and remainders |

What is imperative in the source is imperative here: the mapping, the serial port, the CAN interface
and the link lease are classes whose methods change their fields, and the search, scan, transfer and
sorting loops are loops with invariants. Protocols between threads are state machines whose steps are
single atomic actions, and their theorems quantify over all interleavings.

## Promises the code does not keep everywhere

Each of these is stated exactly, with the condition under which the promise holds and an input on
which it does not.

- A publish that takes over a Ready slot and then fails puts back only the state word. The frame in
  that slot can be leased afterwards with other bytes in it. `IntegrityIffNeverSpoils` proves that
  every frame stays exact if and only if no publish meets a full ring with a payload that is refused
  after its copier left other bytes over the oldest frame; `FailedReuseSpoilsAFrame` gives the
  breaking run for every configuration and every publishable frame.
- The header check does not compare the declared length with the length its own fields imply.
  `AcceptedHeaderBoundsIff` says when the slots of an accepted header fit; `ShortMappingIsAccepted`
  builds, for every configuration, an accepted mapping that holds none of its slots.
- The V4L2 check bounds a sample by the tightly packed frame size, so it accepts only tight rows and
  never NV12 of odd height (`V4l2AcceptsOnlyTightRows`). NV12 of odd width, and MJPEG with stride
  zero, pass the adapter and are refused by the ring (`V4l2SamplePublishableIff`,
  `MediaFoundationSamplePublishableIff`, `OddNv12SampleIsRefused`, `StrideZeroMjpegIsRefused`).
- The AVFoundation stall rule counts a deadline expiry even while a frame that the sink has already
  accepted is being recorded, so a session can be declared unplugged with one expiry since the last
  accepted frame (`ThreeExpiriesSinceAcceptedIff`, `UnpluggedDespiteFreshFrame`).
- A CAN link whose original state lacks a field that the configuration wrote cannot be given back:
  `RollbackRestoresIff` and `ConfigureThenClose` are exact about it, and `FreshLinkIsKept` configures
  a link that never had a bit timing and cannot close it.
- A close whose restore fails keeps the lease, but the next close compares the half-restored link
  with the applied fingerprint. `CloseTwice` proves that it refuses exactly if the writes that did
  succeed changed the up state, the MTU or a parameter; from then on every close refuses
  (`CloseRepeatedly`). `StuckLink` is a link that was up and whose MTU write fails.

Conversely, one branch is dead: no run ever drops a frame because no slot is writable
(`NoSlotDropNeverHappens`).

## Assumptions

- `usize` has 64 bits. Constants of the camera crate (slot counts, frame and mapping limits) are the
  repository's own.
- Ring operations run under the operating system's lock, so each is one step; a failed attempt at the
  lock is an outcome of the step. Copiers may leave any bytes and return any length or fail.
- Frame metadata comes out of its checked constructor. Where a theorem needs publishers to use the
  negotiated format, or distinct (sequence, generation) pairs, its `requires` says so.
- Native calls, clocks, device queries, netlink and other threads are arbitrary functions or step
  parameters. Contracts that rely on more (a punctual port, a masked-update kernel, nobody else
  writing the link) name that assumption.
- The PCAN clock is 80 MHz; the default sample point is a parameter.

## Model

| member | source | states |
|---|---|---|
| `Layout.AlignUpIsLeastMultiple` | adapters/shared-memory/src/layout.rs:436-441 | rounding up gives the least multiple of the alignment that is not smaller |
| `Layout.ConfigAcceptedIff` | adapters/shared-memory/src/layout.rs:352-398 | a configuration is accepted exactly when format, slot count and payload capacity are in bounds; the overflow and mapping-size branches are dead |
| `Layout.AcceptedSizes` | adapters/shared-memory/src/layout.rs:352-398 | an accepted configuration has the least aligned stride that holds header and payload, and a total length that is header plus slots, within the mapping limit |
| `Layout.SlotsFit` | adapters/shared-memory/src/layout.rs:372-398 | every slot of every accepted configuration starts on a 64-byte boundary after the header and ends inside the mapping |
| `Layout.SlotsDisjoint` | adapters/shared-memory/src/layout.rs:372-398 | different slots never share a byte |
| `Layout.NeighbourTestIsDisjointness` | adapters/shared-memory/src/layout.rs:459-519 | sorting the planes and comparing neighbours is pairwise disjointness |
| `Layout.PlanesAcceptedIff` | adapters/shared-memory/src/layout.rs:459-519 | accepted are exactly: for NV12 a luma plane of all rows and a disjoint chroma plane of half as many, for YUYV one plane of two bytes a pixel, for MJPEG any one range, all inside the payload |
| `Layout.WorstCaseIsLeast` | crates/robot-hal-camera/src/lib.rs:74-93 | the worst case of an uncompressed format is exactly the least payload in which some frame of it is accepted |
| `Layout.RowsStayInside` | adapters/shared-memory/src/layout.rs:459-519 | every pixel row the format has, by width and height, lies in an accepted frame inside its plane and the payload |
| `Layout.RowsAreDisjoint` | adapters/shared-memory/src/layout.rs:459-519 | two different pixel rows of an accepted frame, of one plane or of two, never share a byte |
| `RingInvariant.StepKeepsInvariant` | adapters/shared-memory/src/ring.rs:170-226 | publish, lease, acquire, release and close, with every lock outcome and copier, leave no slot Writing, at most one Pinned, and the pin naming exactly that slot |
| `RingInvariant.PublishKeepsInvariant` | adapters/shared-memory/src/ring.rs:476-543 | a locked publish, committed or failed, keeps the ring invariant and the pin |
| `RingInvariant.LeaseKeepsInvariant` | adapters/shared-memory/src/ring.rs:170-202 | leasing keeps the ring invariant and never reports an error |
| `RingInvariant.ReleaseKeepsInvariant` | adapters/shared-memory/src/ring.rs:215-226 | releasing keeps the ring invariant and leaves nothing pinned |
| `RingInvariant.InitialInvariant` | adapters/shared-memory/src/ring.rs:55-91 | a freshly created ring satisfies the invariant |
| `RingInvariant.SelectionIs` | adapters/shared-memory/src/ring.rs:344-359 | the scan finds the first Free slot, else the oldest Ready slot, else nothing because all are Pinned |
| `RingInvariant.LatestReadyIs` | adapters/shared-memory/src/ring.rs:170-202 | the lease scan finds the first Ready slot of greatest sequence |
| `RingInvariant.PublishFindsSlot` | adapters/shared-memory/src/ring.rs:476-500 | with two or more slots a publish that holds the lock finds a slot |
| `RingInvariant.LeaseIsNewest` | adapters/shared-memory/src/ring.rs:170-202 | a lease is granted exactly when a Ready frame exists, names the newest one, and becomes the pin |
| `RingInvariant.OverwritesNewestIff` | adapters/shared-memory/src/ring.rs:344-359 | a publish takes the slot the next lease would return exactly when no slot is Free and all Ready frames have one sequence |
| `RingInvariant.NewestSurvivesPublish` | adapters/shared-memory/src/ring.rs:344-359 | with three or more slots and distinct sequences the newest unleased frame survives every publish |
| `RingHistory.AdvanceTracksStep` | adapters/shared-memory/src/ring.rs:454-543 | recording the history of a run never changes what the ring does |
| `RingHistory.AdvancePreserves` | adapters/shared-memory/src/ring.rs:454-543 | every operation keeps slots in agreement with the commits they hold, leases with commits, and the two balances |
| `RingTheorems.EveryRunKeepsInvariant` | adapters/shared-memory/src/ring.rs:170-226 | the invariant holds after every run of operations |
| `RingTheorems.PublishAlwaysFindsSlot` | adapters/shared-memory/src/ring.rs:476-543 | in every reachable state a locked publish commits exactly when its payload is accepted, fails otherwise, and is stopped only by a full counter |
| `RingTallies.PublishOutcome` | adapters/shared-memory/src/ring.rs:476-543 | a locked publish counts a drop exactly when no slot is Free, and commits exactly when its payload is accepted and that drop can be counted |
| `RingTheorems.Conservation` | adapters/shared-memory/src/ring.rs:379-399 | commits equal leases plus Ready slots plus overwritten frames, and the header counter equals overwritten frames plus failed takeovers plus contention drops, in every run |
| `RingTheorems.NoSlotDropNeverHappens` | adapters/shared-memory/src/ring.rs:481-484 | no run ever drops a frame for want of a slot |
| `RingTheorems.LeasedAtMostOnce` | adapters/shared-memory/src/ring.rs:170-202 | no commit is ever leased twice |
| `RingTheorems.LeaseValidity` | adapters/shared-memory/src/ring.rs:643-677 | in every reachable state a reader gets a frame for a lease exactly when the mapping is open, the lease is the current pin, and its generation is the one insisted on, if any; otherwise nothing, never an error |
| `RingTheorems.ReleasedLeaseIsDead` | adapters/shared-memory/src/ring.rs:215-226 | after a release no lease whatever is readable |
| `RingTheorems.SupersededLeaseIsDead` | adapters/shared-memory/src/ring.rs:170-202 | the next lease operation makes every earlier lease unreadable |
| `RingTheorems.CloseIsFinal` | adapters/shared-memory/src/ring.rs:123-155 | after the closed flag is written no later operations make any lease readable again |
| `RingTheorems.MetadataIntegrity` | adapters/shared-memory/src/ring.rs:679-736 | whatever else a run did, a copied frame has the planes, timestamp and drop count of the publish its lease was issued for |
| `RingTheorems.FaithfulStepIff` | adapters/shared-memory/src/ring.rs:502-541 | one step keeps all held payloads exactly when it is not a failed takeover that left other bytes |
| `RingTheorems.FrameIntegrity` | adapters/shared-memory/src/ring.rs:643-736 | after a clean run a copied frame is exactly the one published by the commit its lease was issued for |
| `RingTheorems.ReadyIsEventuallyLeased` | adapters/shared-memory/src/ring.rs:170-202 | without further publishes every Ready frame is leased after finitely many leases, unchanged |
| `RingTheorems.IntegrityIff` | adapters/shared-memory/src/ring.rs:476-543 | at every point of a run every frame that can still be leased is exact, if and only if every failed takeover of a Ready slot left that slot's bytes as they were |
| `RingTheorems.CleanStepIff` | adapters/shared-memory/src/ring.rs:481-541 | for a locked publish: it leaves all frames intact unless no slot is Free, the counter has room, the payload is not accepted, and the bytes over the oldest Ready frame differ |
| `RingTheorems.IntegrityIffNeverSpoils` | adapters/shared-memory/src/ring.rs:476-543 | every leasable frame is exact at every point of a run, if and only if no publish of the run meets that condition on the ring it finds |
| `RingTheorems.NoFailedReuseIsClean` | adapters/shared-memory/src/ring.rs:486-488 | a run in which no failed takeover of a Ready slot was counted keeps every frame exact |
| `RingTheorems.AcquiredFrameIsExact` | adapters/shared-memory/src/ring.rs:231-290 | an acquire returns nothing exactly when nothing is pinned afterwards, and otherwise the committed frame of the slot it pinned; it is unavailable exactly without the exclusive lock, or without the shared one when there is a frame |
| `RingTallies.DroppedIsFramesLost` | adapters/shared-memory/src/ring.rs:379-399 | in every run the counter is the number of publishes that met another lock holder twice or a ring with no Free slot, held at its largest value |
| `RingTallies.CommitsAreFramesAdded` | adapters/shared-memory/src/ring.rs:454-543 | in every run the committed frames are exactly the locked publishes whose payload was accepted and whose drop could be counted, in order, each with the frames lost up to it |
| `RingTallies.ClosedIff` | adapters/shared-memory/src/ring.rs:123-155 | the mapping is CLOSED exactly when some close of the run held the lock, and done with exactly when one also removed the name |
| `RingSpoil.FailedReuseSpoilsAFrame` | adapters/shared-memory/src/ring.rs:502-542 | for every configuration and frame: filling the ring and failing one more publish makes some leasable frame inexact |
| `RingSpoil.SmallestSpoiledRun` | adapters/shared-memory/src/ring.rs:502-542 | a concrete ring of four slots of two YUYV pixels on which that happens |
| `LittleEndian.DecodeEncode` | adapters/shared-memory/src/ring.rs:968-997 | every word that fits its width is read back as written |
| `LittleEndian.EncodeDecode` | adapters/shared-memory/src/ring.rs:968-997 | every byte string is the encoding of the word it decodes to |
| `LittleEndian.DigitOf` | adapters/shared-memory/src/ring.rs:968-997 | byte i of an encoded word is its digit of weight 256 to the i |
| `RingBytes.StateCodec` | adapters/shared-memory/src/layout.rs:167-186 | the raw state words and the slot states are in one-to-one correspondence, other words being corrupt |
| `RingBytes.WordWritten` | adapters/shared-memory/src/ring.rs:14-39 | storing one word of one slot changes exactly that word of that slot: no other slot, neither counter, and no byte of the fixed header |
| `RingBytes.PlaneWritten` | adapters/shared-memory/src/ring.rs:14-39 | storing one plane entry changes exactly that entry of that slot, and no byte of the fixed header |
| `RingBytes.PayloadWritten` | adapters/shared-memory/src/ring.rs:14-39 | filling one payload area changes exactly that slot's payload, and no byte of the fixed header |
| `RingBytes.DroppedWritten` | adapters/shared-memory/src/ring.rs:379-399 | storing the drop counter changes no slot, not the terminal flag, and no byte of the fixed header |
| `RingBytes.TerminalWritten` | adapters/shared-memory/src/ring.rs:123-155 | storing the terminal flag changes no slot, not the drop counter, and no byte of the fixed header |
| `RingHeader.StoredFieldReads` | adapters/shared-memory/src/ring.rs:292-332 | every header field reads back as written, whatever was written after it |
| `RingHeader.HeaderAcceptedIff` | adapters/shared-memory/src/ring.rs:891-966 | a header written for a configuration is accepted, with that configuration, by exactly those who present its length, identity and token hash |
| `RingHeader.AcceptedIsHeaderOf` | adapters/shared-memory/src/ring.rs:891-966 | any bytes validate with a configuration exactly when they are long enough and every field is that of an accepted configuration, this length, this identity and this token hash |
| `RingHeader.HeaderRoundTrip` | adapters/shared-memory/src/ring.rs:292-332 | writing a header over any memory and validating it returns the same configuration |
| `RingHeader.HeaderPersists` | adapters/shared-memory/src/ring.rs:14-39 | whatever happens to the counters and the slots, a header stays the header of its configuration |
| `RingHeader.AcceptedHeaderBoundsIff` | adapters/shared-memory/src/ring.rs:929-966 | the slots of an accepted header lie inside the length it declares, and inside the mapped length, exactly when that length is at least the configuration's total |
| `RingHeader.ShortMappingIsAccepted` | adapters/shared-memory/src/ring.rs:929-951 | for every configuration, 192 bytes with its header validate although they hold none of its slots |
| `BrokerMappings.ReadMetadataAt` | adapters/shared-memory/src/ring.rs:679-736 | reading metadata from the bytes is reading it from the slot they represent |
| `BrokerMappings.ReadPlanesAt` | adapters/shared-memory/src/ring.rs:702-715 | the loop over plane entries returns the slot's planes, or fails on the first malformed one |
| `BrokerMappings.ReadFrameAt` | adapters/shared-memory/src/ring.rs:643-677 | a frame read from the bytes is the slot's frame |
| `BrokerMappings.BrokerMapping.constructor` | adapters/shared-memory/src/ring.rs:55-91 | a created mapping represents the initial ring and carries the header of its configuration |
| `BrokerMappings.BrokerMapping.Openable` | adapters/shared-memory/src/ring.rs:891-966 | every mapping the broker's methods leave behind validates, with its configuration, for exactly its length, identity and token hash |
| `BrokerMappings.BrokerMapping.WriteHeader` | adapters/shared-memory/src/ring.rs:292-332 | the header fields are stored and the slots stay as they were |
| `BrokerMappings.BrokerMapping.StateOfSlot` | adapters/shared-memory/src/ring.rs:361-372 | the decoded state word is the slot's state |
| `BrokerMappings.BrokerMapping.IncrementDroppedLocked` | adapters/shared-memory/src/ring.rs:379-399 | the counter grows by one or the call fails at its maximum; slots, terminal flag and header stay |
| `BrokerMappings.BrokerMapping.Close` | adapters/shared-memory/src/ring.rs:123-155 | close refines the slot-level close, with every lock and unlink outcome |
| `BrokerMappings.BrokerMapping.ReleasePinLocked` | adapters/shared-memory/src/ring.rs:215-226 | release on bytes refines release on slots |
| `BrokerMappings.BrokerMapping.ScanLatest` | adapters/shared-memory/src/ring.rs:172-181 | the scan loop over state and sequence words finds the newest Ready slot, or a corrupt word |
| `BrokerMappings.BrokerMapping.PinSlot` | adapters/shared-memory/src/ring.rs:188-201 | pinning a scanned slot: its state, the lease with its sequence and generation, and the broker's pin |
| `BrokerMappings.BrokerMapping.NextFrameLeaseLocked` | adapters/shared-memory/src/ring.rs:170-202 | leasing on bytes refines leasing on slots, result and new state |
| `BrokerMappings.BrokerMapping.NextFrameLease` | adapters/shared-memory/src/ring.rs:159-168 | the same behind the exclusive lock |
| `BrokerMappings.BrokerMapping.ReleaseLease` | adapters/shared-memory/src/ring.rs:204-213 | the same for release |
| `BrokerMappings.BrokerMapping.SelectWritableSlot` | adapters/shared-memory/src/ring.rs:344-359 | the selection loop over the bytes returns what slot-level selection returns |
| `BrokerMappings.BrokerMapping.WritePlanes` | adapters/shared-memory/src/ring.rs:524-529 | the loop overlays the first entries of the plane table |
| `BrokerMappings.BrokerMapping.WriteFrameHeader` | adapters/shared-memory/src/ring.rs:518-534 | all header words of the slot become those of the frame; other slots, counters and the mapping header stay |
| `BrokerMappings.BrokerMapping.FillSlot` | adapters/shared-memory/src/ring.rs:489-542 | marking, copying, checking and then committing or restoring is one slot-level commit or failed takeover |
| `BrokerMappings.BrokerMapping.PublishLockedWith` | adapters/shared-memory/src/ring.rs:476-543 | the locked publish on bytes refines the slot-level publish, result and new state |
| `BrokerMappings.BrokerMapping.PublishWith` | adapters/shared-memory/src/ring.rs:454-474 | with lock outcomes: refines the slot-level step, counting contention only after a retry |
| `BrokerMappings.BrokerMapping.Acquire` | adapters/shared-memory/src/ring.rs:231-259 | lease then view, refining the slot-level acquire and its result |
| `BrokerMappings.BrokerMapping.ViewFrame` | adapters/shared-memory/src/ring.rs:261-290 | the broker's view of a leased slot is the slot-level view |
| `BrokerMappings.BrokerMapping.Perform` | adapters/shared-memory/src/ring.rs:123-543 | any operation on the bytes refines the slot-level step and keeps the header |
| `BrokerMappings.ReadOnlyMapping.Open` | adapters/shared-memory/src/ring.rs:606-615 | opening succeeds exactly when the header validates, with the configuration it holds |
| `BrokerMappings.ReadOnlyMapping.Copy` | adapters/shared-memory/src/ring.rs:629-677 | a reader's copy from bytes is the slot-level copy |
| `MappingRuns.PerformRange` | adapters/shared-memory/src/ring.rs:454-543 | after any sequence of operations the bytes stand for the ring of that run |
| `MappingRuns.OpenThenCopy` | adapters/shared-memory/src/ring.rs:606-677 | a reader that opens the bytes at any point of any run succeeds with exactly the mapping's length, identity and token hash; later it gets a frame exactly for the current pin of an open ring, and after a clean run with distinct keys exactly the frame its lease was issued for |
| `CameraPlanes.Nv12PublishableIff` | crates/robot-hal-runtime/src/camera_manager.rs:388-420 | an NV12 sample long enough for its stride reaches a slot exactly when both dimensions are even and it fits |
| `CameraPlanes.PackedPublishableIff` | crates/robot-hal-runtime/src/camera_manager.rs:388-420 | a packed or compressed sample reaches a slot exactly when its stride is not zero and it fits |
| `CameraPlanes.ChecksAgree` | crates/robot-hal-camera/src/lib.rs:196-279 | what the public camera check accepts the ring's check accepts too, and for the dimensions the ring carries the two are equivalent |
| `CameraPlanes.V4l2AcceptsOnlyTightRows` | adapters/v4l2/src/native.rs:451-493 | accepted uncompressed V4L2 samples have tight rows, and NV12 ones even height |
| `CameraPlanes.V4l2SamplePublishableIff` | adapters/v4l2/src/native.rs:495-526 | every accepted V4L2 sample reaches a slot, except odd-width NV12 and MJPEG of stride zero |
| `CameraPlanes.MediaFoundationSamplePublishableIff` | adapters/mediafoundation/src/native.rs:600-672 | an accepted Media Foundation sample reaches a slot exactly when it fits and NV12 dimensions are even |
| `CameraPlanes.OddNv12SampleIsRefused` | adapters/mediafoundation/src/native.rs:608-672 | a concrete sample both adapters accept and the ring refuses |
| `CameraPlanes.StrideZeroMjpegIsRefused` | adapters/v4l2/src/native.rs:495-526 | for every MJPEG configuration, a sample of stride zero that the V4L2 adapter accepts and no ring takes |
| `SerialIo.NormalizedTimeout` | adapters/serialport/src/session.rs:778-784 | native timeouts are whole milliseconds from 1 to 100, cover the remaining time up to the cap, and exceed it by less than one |
| `SerialIo.Prepare` | adapters/serialport/src/session.rs:698-717 | before every transfer: closed exactly when the load finds it so, timeout exactly past the deadline, native exactly when setting the timeout fails, else a native timeout in range that overshoots the deadline by less than 1 ms |
| `SerialIo.WriteAllBounded` | adapters/serialport/src/session.rs:691-735 | under all partial writes and retries the port accepted a prefix of the bytes, all exactly on success; closed and disconnected are reported exactly when the last load or transfer shows them, native errors only with a cause; timeouts in range; over less than 1 ms past the deadline |
| `SerialIo.ReadBounded` | adapters/serialport/src/session.rs:642-689 | success exactly when the last transfer moved bytes: the next bytes of the line, at least one and at most the limit; a failure consumes nothing and has its cause as for writing; same time bounds |
| `SerialIo.FlushBounded` | adapters/serialport/src/session.rs:597-631 | success exactly at the first poll that reports an empty queue, native exactly when a poll fails, closed exactly when the last load found the session closed; with exact sleeps it never outlasts the deadline and polls at least every 5 ms |
| `SerialActor.InvariantStep` | adapters/serialport/src/session.rs:497-582 | every action of clients, cancellers and worker keeps commands accounted for, resources in step with the worker's position, and errors with what will be reported |
| `SerialActor.EveryStateOfEveryRun` | adapters/serialport/src/session.rs:497-582 | the same in every state of every interleaving |
| `SerialActor.RunsOnlyGoOnward` | adapters/serialport/src/session.rs:196-230 | the lifecycle never moves backwards, no finished command is answered again, the first recorded error stays first |
| `SerialActor.EveryAnswerHasAReason` | adapters/serialport/src/session.rs:543-582 | in every run a command is told what its last transfer or look at the port came out as, or, if the session was no longer open when the worker rechecked the command, looked before a transfer or drained the queue, that it is closed |
| `SerialActor.DirectCommandIsTransferred` | adapters/serialport/src/session.rs:543-582 | a command taken up on an open session without another load is transferred before anything else happens to it, or lost to a panic; it is never answered before |
| `SerialActor.CommandIsServed` | adapters/serialport/src/session.rs:514-582 | whatever the port answers, a command queued or in the worker's hand is answered after thirteen undisturbed actions that repeat no transfer |
| `SerialActor.FlushTimeoutCloses` | adapters/serialport/src/session.rs:543-582 | in every run a flush that timed out has asked the session to close before its error is recorded |
| `SerialActor.OpenUntilClosed` | adapters/serialport/src/session.rs:196-230 | in every run the session is open exactly until someone asks to close, a flush times out, the last client is gone with nothing queued, or the worker is on its way out |
| `SerialActor.FirstFailureIsFirst` | adapters/serialport/src/session.rs:205-223 | the failure on record is the first of the run that was not itself caused by the closing, and there is none if there was none |
| `SerialActor.AtMostOneLateTransfer` | adapters/serialport/src/session.rs:543-582 | after the session starts closing at most one native transfer is still started |
| `SerialActor.EveryWorkerEnding` | adapters/serialport/src/session.rs:497-541 | completion is published at most once, only by an ended worker, after port and receiver are gone; it reports the panic or the first recorded error; every command is answered or its channel dropped, and without a panic only the last can be dropped |
| `SerialActor.ClosingWorkerEnds` | adapters/serialport/src/session.rs:514-541 | a closing worker ends after at most fifteen actions of its own, whatever the port answers |
| `SocketCanLink.VerificationIsTheRequest` | adapters/socketcan/src/link.rs:617-639 | on a readable link the configuration check holds exactly when the link meets the request |
| `SocketCanLink.FingerprintsAgreeIff` | adapters/socketcan/src/link.rs:872-919 | two fingerprints are equal exactly when the physical identities, the names, the up states, the MTUs and every CAN parameter and mode agree |
| `SocketCanLink.ConfiguredMeetsRequest` | adapters/socketcan/src/link.rs:303-368 | on a controller that keeps what it is asked for, every proper request leaves a readable link with the requested bitrates, sample points, jump widths, modes, MTU and restart delay; the up state and the other modes stay |
| `SocketCanLink.ConfigureWritesDown` | adapters/socketcan/src/link.rs:303-368 | configuring writes parameters and MTU only while the link is down, and leaves it up or down as it was |
| `SocketCanLink.RestoreWritesDown` | adapters/socketcan/src/link.rs:370-395 | a restore writes parameters and MTU only while the link is down, and leaves it up or down as the snapshot was |
| `SocketCanLink.ModesComeBack` | adapters/socketcan/src/link.rs:949-982 | restoring only the changed control modes brings all nine back |
| `SocketCanLink.RestoreTouchesIff` | adapters/socketcan/src/link.rs:949-982 | a restore touches exactly those of the nine modes that configuring changed |
| `SocketCanLink.RollbackRestoresIff` | adapters/socketcan/src/link.rs:370-426 | from every stage of a configuration the restore returns the link to its snapshot exactly when the snapshot has a value for everything written |
| `SocketCanLink.Interface.TakeFingerprint` | adapters/socketcan/src/link.rs:872-919 | a fingerprint exists exactly when name and identity resolve, and covers the link's fields |
| `SocketCanLink.ConfigureLink` | adapters/socketcan/src/link.rs:303-368 | the writes run in order up to the first failure; rollback is asked for exactly if one succeeded, and modes are to be restored exactly if the parameters were written |
| `SocketCanLink.RestoreSnapshot` | adapters/socketcan/src/link.rs:370-395 | the restore writes run in order up to the first failure, and nothing else is attempted |
| `SocketCanLease.RestoreAndVerify` | adapters/socketcan/src/link.rs:428-449 | succeeds exactly when every restore write succeeds and the link then fingerprints, identity included, as the snapshot; otherwise the error names what failed |
| `SocketCanLease.RollbackAfterFailure` | adapters/socketcan/src/link.rs:451-461 | the primary error survives exactly a rollback that succeeds |
| `SocketCanLease.LinkLease.Close` | adapters/socketcan/src/link.rs:192-220 | whoever else writes: a write is attempted exactly when this call's own query gave the applied fingerprint, identity included; any other fingerprint is a conflict and leaves the link untouched; success exactly when the restore succeeds; a failure keeps the lease |
| `SocketCanLease.Configure` | adapters/socketcan/src/link.rs:95-186 | succeeds exactly when the interface resolves to the selected identity, every write succeeds and the result verifies; if nobody else writes, every failure leaves the link as it was or says that the rollback failed |
| `SocketCanLease.ConfigureProper` | adapters/socketcan/src/link.rs:95-186 | with masked updates, steady queries, such a controller and nobody else writing, configuring a named link with a proper request succeeds and the link meets the request |
| `SocketCanLease.VerifyConfigured` | adapters/socketcan/src/link.rs:129-178 | accepts a link exactly when it is readable, consistent, meets the request and resolves to the selected identity |
| `SocketCanLease.ConfigureThenClose` | adapters/socketcan/src/link.rs:95-220 | on a masked-update kernel: configuring succeeds exactly when the link is named and the configured link verifies; closing then succeeds exactly when the original link had a value for every field written, and gives it back |
| `SocketCanStuck.DisturbsIff` | adapters/socketcan/src/link.rs:370-395 | the first writes of a restore change the fingerprint exactly if they change the up state, the MTU, a timing, the restart delay, the termination or a mode |
| `SocketCanStuck.CloseTwice` | adapters/socketcan/src/link.rs:192-220 | after a close that failed with so many writes done, the next close refuses exactly if those writes changed the fingerprint |
| `SocketCanStuck.CloseRepeatedly` | adapters/socketcan/src/link.rs:202-215 | on a link that no longer fingerprints as applied every close refuses and writes nothing |
| `SocketCanStuck.StuckLink` | adapters/socketcan/src/link.rs:192-220 | a link that is configured and then stuck after its MTU write failed |
| `SocketCanStuck.FreshLinkIsKept` | adapters/socketcan/src/link.rs:397-426 | a link without bit timing that is configured and cannot be closed |
| `PcanTiming.CandidateIff` | adapters/pcan/src/channel.rs:701-723 | the divisibility tests of the search hold exactly for the settings with zero error |
| `PcanTiming.BestIsUnique` | adapters/pcan/src/channel.rs:679-745 | at most one setting is best |
| `PcanTiming.ExactWithQuanta` | adapters/pcan/src/channel.rs:709-737 | the inner loop finds the exact setting with a given number of quanta, if there is one |
| `PcanTiming.ExactPhase` | adapters/pcan/src/channel.rs:679-745 | succeeds exactly when some in-range setting meets bitrate, sample point and jump width without error; returns the one nearest the preferred quanta, fewer on a tie; 32-bit arithmetic never overflows |
| `PcanTiming.ReadBackIff` | adapters/pcan/src/channel.rs:747-768 | an in-range setting reads back as a bitrate and sample point exactly when it meets them without error |
| `PcanTiming.SolutionReadsBack` | adapters/pcan/src/channel.rs:747-768 | what the solver returns reads back as what was requested |
| `PcanCodec.DlcTablesAreInverse` | adapters/pcan/src/channel.rs:1319-1345 | the length and code tables are inverse, defined on exactly the valid lengths and codes 0 to 15 |
| `PcanCodec.LongerHasLargerCode` | adapters/pcan/src/channel.rs:1319-1345 | longer data has the larger length code |
| `PcanCodec.ToClassicMessage` | adapters/pcan/src/channel.rs:1222-1253 | encodes exactly the Classical frames, field by field, and decoding gives the frame back |
| `PcanCodec.ToFdMessage` | adapters/pcan/src/channel.rs:1255-1299 | encodes exactly the frames that are not error frames, field by field, and decoding gives the frame back |
| `PcanCodec.ClassicDecodesIff` | adapters/pcan/src/channel.rs:1160-1185 | a Classical message that is no status or error report decodes to a frame exactly when the frame is valid and has its identifier, kind and data |
| `PcanCodec.FdDecodesIff` | adapters/pcan/src/channel.rs:1187-1220 | an FD message that is no status or error report decodes to a frame exactly when the frame is valid and has its identifier, kind, flags and data |
| `PcanCodec.CanonicalFdIsUnique` | adapters/pcan/src/channel.rs:1187-1220 | a frame has one canonical FD message, the encoder's |
| `PcanCodec.CanonicalClassicIsUnique` | adapters/pcan/src/channel.rs:1160-1185 | a frame has one canonical Classical message, the encoder's |
| `CameraClaims.ReleasesWhatItHolds` | adapters/v4l2/src/lib.rs:142-169 | for all three adapters, a session's step removes the claim exactly when the session stops holding it |
| `CameraClaims.StepKeepsInv` | adapters/v4l2/src/native.rs:593-644 | every open, close, drop, worker exit and reaper keeps claims and holders in one-to-one correspondence |
| `CameraClaims.EveryStateOfEveryRun` | adapters/avfoundation/src/native.rs:1109-1188 | the same in every state of every interleaving, including closes that time out or are cancelled |
| `CameraClaims.AtMostOneRunningWorker` | adapters/v4l2/src/native.rs:63-101 | a camera never has two sessions whose workers reported ready and have not exited |
| `CameraClaims.OpenRefusedIff` | adapters/mediafoundation/src/native.rs:77-107 | an open is refused exactly while some session is opening, has its worker, or waits for it to exit |
| `CameraClaims.OnlyTheHolderReleases` | adapters/mediafoundation/src/native.rs:735-778 | a claim disappears only through its holder's own step, after its worker exited; no session removes another's claim |
| `CameraClaims.OpenClaimsTheCamera` | adapters/v4l2/src/native.rs:63-101 | in every run an open of an unclaimed camera claims it for a new session; its worker runs once ready, and the camera is free again if it fails to start |
| `CameraClaims.GivingUpFreesTheCamera` | adapters/v4l2/src/native.rs:593-644 | for all three adapters, closing or dropping a session that still holds its claim leaves it to a reaper, and once the worker has exited that reaper frees the camera |
| `CameraClaims.ReaperFreesTheCamera` | adapters/avfoundation/src/native.rs:1109-1188 | at any time of any run a session without its worker holds its claim only through a reaper that frees the camera once the worker has exited |
| `CaptureWorker.StepKeepsInv` | adapters/avfoundation/src/native.rs:670-808 | every step of worker, callback and notifier keeps each command with one holder until it has one answer, and all counters exact |
| `CaptureWorker.EveryRunKeepsInv` | adapters/avfoundation/src/native.rs:670-823 | the same after every interleaving |
| `CaptureWorker.AnsweredExactlyOnce` | adapters/avfoundation/src/native.rs:986-995 | no command is answered twice; when the worker has ended all are answered, save one the notifier has in hand and answers next |
| `CaptureWorker.UnansweredIsHeld` | adapters/avfoundation/src/native.rs:670-823 | at any time of any run a received command is answered, or with the worker, the callback or the notifier |
| `CaptureWorker.WorkerAnswersInTime` | adapters/avfoundation/src/native.rs:732-808 | a command with the worker whose deadline has passed is answered after seven of its steps at the latest |
| `CaptureWorker.CallbackAnswersInTime` | adapters/avfoundation/src/native.rs:328-351 | a command the callback took is answered after three of its steps at the latest |
| `CaptureWorker.UnpluggedAnswersInTime` | adapters/avfoundation/src/native.rs:670-823 | on an unplugged session a command with the worker is answered after six of its steps at the latest, whatever its deadline |
| `CaptureWorker.CloseEndsTheWorker` | adapters/avfoundation/src/native.rs:732-808 | a close answers the waiting command, leaves none behind and ends the worker after three steps |
| `CaptureWorker.DisconnectUnplugs` | adapters/avfoundation/src/native.rs:670-823 | wherever the worker asks for the device, a device found gone unplugs the session |
| `CaptureWorker.NotificationUnplugs` | adapters/avfoundation/src/native.rs:810-823 | after a notification the session is unplugged |
| `CaptureWorker.SuccessMeansAFrame` | adapters/avfoundation/src/native.rs:328-351 | commands told of success are never more than the frames the sink accepted, and as many whenever the callback rests |
| `CaptureWorker.CountersAreObserved` | adapters/avfoundation/src/native.rs:1236-1289 | the counters of expiries since a recorded and since an accepted frame, and of accepted frames, are those of the run |
| `CaptureWorker.FramesAreNumberedInOrder` | adapters/avfoundation/src/native.rs:328-351 | accepted frames are numbered 1, 2, 3 and so on until the counter saturates |
| `CaptureWorker.RunsOnlyGoOnward` | adapters/avfoundation/src/native.rs:810-823 | unplugged never resets, and no answer or accepted frame is taken back |
| `CaptureWorker.StallUnplugsIff` | adapters/avfoundation/src/native.rs:1236-1289 | with the device present an expiry unplugs exactly when it is the third since a frame was recorded |
| `CaptureWorker.ThreeExpiriesSinceAcceptedIff` | adapters/avfoundation/src/native.rs:1252-1289 | counted from the last accepted frame there were three, unless that frame is still being recorded and was accepted with expiries outstanding |
| `CaptureWorker.UnpluggedDespiteFreshFrame` | adapters/avfoundation/src/native.rs:328-351 | a run on which the rule fires one expiry after a frame was accepted |
| `ReleaseOrder.BuildNeeds` | scripts/release/release_tool.py:2479-2494 | fails exactly on a malformed node, else returns the selected dependencies of the last node of each selected package |
| `ReleaseOrder.ByIdIsLast` | scripts/release/release_tool.py:2457-2461 | a package id stands for the last package of the metadata that carries it |
| `ReleaseOrder.NeedsAreListed` | scripts/release/release_tool.py:2479-2494 | the needs of a selected package are exactly the selected packages its last node lists |
| `ReleaseOrder.SortByName` | scripts/release/release_tool.py:2497-2500 | lists exactly the given ids by name in code point order |
| `ReleaseOrder.BeforeIff` | scripts/release/release_tool.py:2497-2500 | one name is before another exactly when it is a proper prefix or has the smaller code point where they first differ |
| `ReleaseOrder.TopologicalOrder` | scripts/release/release_tool.py:2495-2507 | fails exactly on a cycle, else lists every node once, after all it needs, by depth and then by name |
| `ReleaseOrder.OrderedIsAcyclic` | scripts/release/release_tool.py:2501-2502 | a graph that has an order has no cycle |
| `ReleaseOrder.StuckHasCycle` | scripts/release/release_tool.py:2501-2502 | a remainder in which everything waits contains a cycle of the graph |
| `ReleaseOrder.OrderIsDetermined` | scripts/release/release_tool.py:2495-2507 | with distinct names graph and names leave exactly one order |
| `ReleaseOrder.OrderSelected` | scripts/release/release_tool.py:2463-2508 | answers every case of the selection: nothing to package, invalid package, invalid graph, cycle, or the order |
| `ReleaseOrder.PackageableWorkspaceMembers` | scripts/release/release_tool.py:2451-2508 | answers every metadata value with the right failure, in the order of the checks, or the right packages, and each answer means, over the metadata alone, what `AnswerIsSound` says |
| `ReleaseOrder.AnswerIsSound` | scripts/release/release_tool.py:2451-2508 | over the metadata alone: each fault is reported exactly when it is there and none that is checked before it; otherwise the packages are exactly the packageable members, each once, after all that its last node lists, layer on layer and by name within a layer, or there is a closed walk along listed dependencies |
| `ReleaseOrder.AnswerIsDetermined` | scripts/release/release_tool.py:2451-2508 | with distinct names the answer depends on nothing but the metadata |

## Left out

- adapters/shared-memory/src/platform.rs: mapping, flock and mutex calls; they appear only as lock outcomes, and failures while unlocking are not modelled.
- Hashing and comparing session tokens; a token hash is 32 opaque bytes.
- BrokerMappings.BrokerMapping.WriteHeader: the thirteen field stores are a loop over a table of fields rather than thirteen statements.
- SerialIo.WriteAllBounded: that the loop ends assumes a native call that moves nothing takes some time, as does ReadBounded; a frozen clock would loop forever.
- SerialActor, CameraClaims and CaptureWorker: the fields that threads share are components of one state value and every atomic action is one step, so memory orders weaker than sequential consistency are not captured.
- SerialActor: the text of errors, the client's own timeouts and the cancellation guard appear only as requests to close at any time.
- SocketCanLink: netlink message encoding, interface discovery and the text of errors; a failed write is assumed to leave the link it found.
- PcanTiming.ReadBackIff: driver-reported values are summed without 32-bit wrap-around, which matters only beyond the register ranges.
- PCAN driver calls, initialisation strings and status handling.
- CameraClaims: the ways in which a worker fails to start, and runtimes that are shut down before a reaper has run.
- CaptureWorker: the readiness probe before the loop, dropped-sample counting, and poisoned locks.
- ReleaseOrder: everything else of the release tool (packaging, downloads, manifests, archives); ties between equal names are broken arbitrarily.
- The native parts of the camera adapters (device enumeration, format negotiation, pixel-buffer access), USB, GPIO, the broker process and the Python bindings: input, output and plumbing, or easy members only.
