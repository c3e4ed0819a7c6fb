# Verified model of NWIPC

NWIPC connects a web renderer and a native process through shared memory. This project models its
shared ring and the channel on top of it, the control plane that creates and replaces session
generations, and the smaller protocols around them, and proves what each of them is for.

## What is modelled

**The ring and the channel.** A producer and a consumer share a byte array and two wrapping 32-bit
cursors. The writer plans contiguous records with wrap padding, writes them unpublished and moves one
cursor; the reader validates, copies and consumes. Above it, messages are split into fragments that are
published in one batch and reassembled.

- `Words`, `Record`, `RingCore`, `Geometry`, `Layout`: fixed-width arithmetic, the record codec, wrap
  planning, and where stream positions live in the ring.
- `RingMemory`, `BatchPlan`, `RingWriter`, `RingReader`, `Fragmentation`, `Reassembly`, `FlowControl`,
  `Delivery`, `ChannelCore`: the code of one endpoint as classes over the shared ring, each method proved
  against the records the ring holds.
- `StreamLaws`: what the receiving side makes of any stream of records, said of the stream itself.
- `Progress`, `ChannelProgress`: exactly which configurations let an empty ring take every message.
- `RingSystem`, `RingInvariant`, `RingSteps`, `RingTheorems`, `RingLiveness`, `RingCrash`, `RingBounds`,
  `RingIdentities`: the same planning, checking and decoding functions as a state machine over every
  interleaving of the two sides, one memory access at a time and down to single copied bytes. The history
  in its states (`published`, `log`, `sent`, `got`, `events`) is never read by a step.
- `RingAgreement`: the steps of one side, run alone, end where the contract of the class's method ends.
- `Wraparound`: which capacities survive the wrap of the cursors.

**The generation lifecycle.** `StateTable`, `Sessions`, `Machines`, `Registry` and `RegistryTheorems`:
transition table, resource ownership, the session machine and the runtime registry as classes, each
proved against a function on values; the theorems are about every run of that function, with preparations
and releases that fail in any pattern.

**Smaller protocols.** `ChunkPool` (slab ownership), `Bootstrap`, `BootstrapFields`, `BootstrapCodec`
(the envelope codec), `Handshake` (capabilities, versions, HELLO/ACK), `ProtectedFrames` (frame counters
around an abstract cipher), `SignalCoalescing` (hint suppression), `RendererPorts` (document-scoped ports
and their event queue) and `PortLives` (rounds of polling, sends and a close of one port in any order).

## Where the code needs a condition

- **Capacity.** Any multiple of eight is accepted as a capacity, but offsets are `cursor % capacity` on a
  cursor that wraps at 2^32. `Wraparound.WritesAvoidCommittedIff` and
  `Geometry.CellsDistinctIffCapacityDivides` show that exactly the capacities that divide 2^32 keep live
  positions apart for ever, and `Wraparound.WrapOverlapsAt96` gives an accepted capacity with a batch
  planned across itself. The ring theorems assume `Seamless`: the capacity divides 2^32, or the stream has
  not come within one lap of position 2^32.
- **Progress.** The capacity check asks for `maximum_batch_bytes` with fragmentation on and for one
  record with fragmentation off, and the writer clamps the inline limit to 1 MiB where the fragmenter does
  not. `ChannelProgress.ProgressIff` says for every configuration that passes the check whether an empty
  ring takes every message from every position: if and only if the inline limit is at most 1 MiB and the
  capacity holds `maximum_batch_bytes`, which is a condition only with fragmentation off.
  `ChannelProgress.InlineOnlyRefusal` is a configuration that passes the check with an empty ring that
  refuses a message, and `RingAgreement.RefusalIsReached` gets every such ring with an inline limit of at
  most 1 MiB there, by one shorter message sent and received; `ChannelCore.ChannelEndpoint.DrainedRingSends` gives the condition message by message.
- **Record kinds.** `RecordKind::Unknown` may carry the wire value of a known kind; `Record.KindRoundTrip`
  says exactly when a kind survives the wire. `Record.SentIsReadableIff` shows that a record of any other
  kind reads back as the kind its wire value names, and that `Unknown(8)`, the wire value of padding, is
  the one kind no reader accepts. The writer's methods publish it like any other; `Delivery.PoisonBlocks`
  shows that it and everything behind it then stay on the ring for ever.
- **Stale receipts.** `consume` documents that it refuses a stale receipt, but it knows one by its 32-bit
  cursor and, for a record, its sequence number. `RingReader.ReceiptAcceptedIff` gives the exact condition
  under which an old receipt is accepted: a multiple of 2^32 bytes was consumed since, a record's sequence
  number is the expected one again, and its range lies in what is committed.
  `RingReader.OldReceiptSwallows` is an old padding receipt that is accepted and takes an unread record.
- **Version zero.** A HELLO configuration may offer version zero, which no decoder accepts;
  `Handshake.BothAgree` carries that condition.

## Model

| member | source | states |
|---|---|---|
| Record.DecodeExactly | crates/protocol/nwipc-record/src/lib.rs:229-289 | A committed range decodes to a header if and only if it starts with that header's prefix, holds the whole record, and the header is one the constructors produce |
| Record.RecordRoundTrip | crates/protocol/nwipc-record/src/lib.rs:203-289 | Header and payload of every encodable record are read back from the front of any longer range |
| Record.PaddingReadsBack | crates/protocol/nwipc-record/src/lib.rs:180-289 | A padding record of every aligned length reads back with its length and sequence number |
| Record.KindRoundTrip | crates/protocol/nwipc-record/src/lib.rs:40-73 | A kind survives the wire exactly when it is canonical; an unknown kind can come back as padding |
| Record.SentIsReadableIff | crates/protocol/nwipc-record/src/lib.rs:40-289 | Whatever kind a sender uses, its record is read back under the kind the wire value names, except exactly the unknown kind with padding's value, which every reader refuses |
| Record.EncodeUnpublished | crates/protocol/nwipc-record/src/lib.rs:203-221 | Fills exactly the record with the prefix and zeros, leaves the rest, and refuses a short buffer unchanged |
| Record.FillPayload | crates/protocol/nwipc-record/src/lib.rs:305-308 | The payload goes to its exact range of an encoded record |
| Record.EncodeRecord | crates/protocol/nwipc-record/src/lib.rs:203-308 | A fresh buffer ends up as prefix, payload and zero fill |
| RingCore.SnapshotExactly | crates/data-plane/nwipc-ring-core/src/lib.rs:17-42 | A snapshot exists exactly for a valid capacity and a producer cursor at most one capacity ahead around 2^32, holds that distance, and otherwise names the refused argument |
| Geometry.CellsDistinctIffCapacityDivides | crates/data-plane/nwipc-ring-core/src/lib.rs:59-67 | No two live stream positions share a physical cell, for every window, if and only if the capacity divides 2^32 |
| Geometry.CellIsOffset | crates/data-plane/nwipc-atomic/src/lib.rs:179 | Up to a seamless position the wrapped cursor has the offset of the unwrapped one |
| Wraparound.WritesAvoidCommittedIff | crates/data-plane/nwipc-atomic/src/lib.rs:166-193 | Every write the memory check accepts stays off the bytes in flight if and only if the capacity divides 2^32 |
| Wraparound.OverwritesCommitted | crates/data-plane/nwipc-atomic/src/lib.rs:166-193 | For every other accepted capacity there is an accepted write onto a byte in flight |
| Wraparound.WrapOverlapsAt96 | crates/data-plane/nwipc-ring-core/src/lib.rs:84-113 | Capacity 96: after n received empty messages with 24 n = 2^32 - 40, a batch of three more is planned with its third record across its first |
| Wraparound.EmptiesAdvance | crates/data-plane/nwipc-ring-core/src/lib.rs:84-113 | Below 2^32 each received empty message really moves the cursors of that ring by 24 bytes |
| Layout.PadsAreFollowedByRecords | crates/data-plane/nwipc-ring-writer/src/lib.rs:210-224 | Two paddings are never adjacent and none is last; the record behind a padding starts at offset zero |
| RingMemory.WriteAccepted | crates/data-plane/nwipc-atomic/src/lib.rs:166-193 | A write inside the free space is accepted at the offset of its position |
| RingMemory.ReadAccepted | crates/data-plane/nwipc-atomic/src/lib.rs:273-298 | A read inside the committed range is accepted at the offset of its position |
| RingMemory.NextWrite | crates/data-plane/nwipc-atomic/src/lib.rs:166-193 | A write behind staged items keeps both the committed and the staged bytes |
| RingMemory.PublishStaged | crates/data-plane/nwipc-atomic/src/lib.rs:200-214 | Publication of staged items is accepted and commits exactly them |
| RingMemory.SharedRing.Create | crates/data-plane/nwipc-atomic/src/lib.rs:79-97 | A ring is created, empty, exactly for valid capacities |
| RingMemory.SharedRing.constructor | crates/data-plane/nwipc-atomic/src/lib.rs:79-97 | A new ring is zeroed and empty |
| RingMemory.SharedRing.Write | crates/data-plane/nwipc-atomic/src/lib.rs:166-193 | Copies the source to its checked range and nothing else; a refusal changes nothing |
| RingMemory.SharedRing.Publish | crates/data-plane/nwipc-atomic/src/lib.rs:200-214 | Stores the cursor exactly when it stays in the free space |
| RingMemory.SharedRing.Read | crates/data-plane/nwipc-atomic/src/lib.rs:273-298 | Returns the checked range, byte for byte |
| RingMemory.SharedRing.Consume | crates/data-plane/nwipc-atomic/src/lib.rs:305-319 | Stores the cursor exactly when it stays in the committed range |
| BatchPlan.PlanAtPosition | crates/data-plane/nwipc-ring-core/src/lib.rs:84-113 | The planner accepts an aligned record exactly when record and wrap tail fit the space it believes free, and places both |
| BatchPlan.PlannedOffsetIsWritten | crates/data-plane/nwipc-ring-core/src/lib.rs:84-143 | The record offset a plan reports is the one its write really uses |
| BatchPlan.PlanBatchAccepts | crates/data-plane/nwipc-ring-writer/src/lib.rs:106-145 | A batch is planned if and only if every fragment is sendable and the whole span fits; sendable fragments fail with backpressure only |
| BatchPlan.PlanBatchReady | crates/data-plane/nwipc-ring-writer/src/lib.rs:106-145 | The plans of a batch carry one identity and consecutive sequence numbers at their stream positions |
| BatchPlan.ReadyIsPlaced | crates/data-plane/nwipc-ring-writer/src/lib.rs:106-158 | A planned batch is a well-placed run of paddings and records, and its last plan publishes its end |
| RingWriter.RingWriter.constructor | crates/data-plane/nwipc-ring-writer/src/lib.rs:21-29 | Starts at identity one and sequence zero with the inline limit clamped, over any ring; exactly which rings it can then go on from |
| RingWriter.RingWriter.BufferedAmount | crates/data-plane/nwipc-ring-writer/src/lib.rs:35-37 | The bytes published and not consumed |
| RingWriter.RingWriter.PaddingBytes | crates/data-plane/nwipc-ring-writer/src/lib.rs:210-224 | A wrap tail is a padding record when a prefix fits and zeros otherwise |
| RingWriter.RingWriter.WritePadding | crates/data-plane/nwipc-ring-writer/src/lib.rs:210-224 | The wrap tail of a plan is written behind the staged items and cannot fail |
| RingWriter.RingWriter.PlanFragments | crates/data-plane/nwipc-ring-writer/src/lib.rs:116-145 | The planning loop is the batch planner, and every record is encoded |
| RingWriter.RingWriter.WriteBatch | crates/data-plane/nwipc-ring-writer/src/lib.rs:146-150 | After planning no write fails, and the committed bytes stay as they are |
| RingWriter.RingWriter.SendFragments | crates/data-plane/nwipc-ring-writer/src/lib.rs:106-158 | Batch atomicity: succeeds if and only if the batch is sendable and fits; either nothing changes or exactly its records join the ring with one cursor move, and the next batch gets the next identity |
| RingWriter.RingWriter.Prepare | crates/data-plane/nwipc-ring-writer/src/lib.rs:47-82 | Writes one record unpublished: what is committed, the cursors and the counters stay; size, kind, flags and backpressure decide the error |
| RingWriter.RingWriter.Commit | crates/data-plane/nwipc-ring-writer/src/lib.rs:187-198 | Publishes exactly the prepared record and advances the sequence by one and the identity to the next u32 but zero |
| RingWriter.RingWriter.Send | crates/data-plane/nwipc-ring-writer/src/lib.rs:89-97 | Publishes one record or changes nothing |
| RingReader.GlanceSees | crates/data-plane/nwipc-ring-reader/src/lib.rs:37-56 | However stale the producer cursor, an implicit tail, a record or emptiness is recognised as the writer laid it out |
| RingReader.InspectSees | crates/data-plane/nwipc-ring-reader/src/lib.rs:57-86 | Fetched bytes decode to exactly the item the writer placed, and to an error only if its kind reads as padding |
| RingReader.InspectExactly | crates/data-plane/nwipc-ring-reader/src/lib.rs:57-86 | On any bytes a record is reported exactly if it decodes, lies in what is committed and carries the expected sequence number |
| RingReader.RingReader.Peek | crates/data-plane/nwipc-ring-reader/src/lib.rs:37-86 | Reports exactly the head of the committed items, and refuses exactly a record whose kind reads as padding |
| RingReader.RingReader.Consume | crates/data-plane/nwipc-ring-reader/src/lib.rs:93-121 | Takes any receipt: another cursor or sequence number is refused and changes nothing, that of the head removes exactly the head |
| RingReader.CurrentConsumes | crates/data-plane/nwipc-ring-reader/src/lib.rs:93-121 | The receipt of the head passes every check and leaves exactly the items behind the head |
| RingReader.ReceiptAcceptedIff | crates/data-plane/nwipc-ring-reader/src/lib.rs:88-121 | Exactly when the receipt of an item seen earlier is accepted later, by cursor, sequence number and range, and what it then consumes |
| RingReader.OldReceiptSwallows | crates/data-plane/nwipc-ring-reader/src/lib.rs:88-121 | A padding receipt from 2^32 bytes ago is accepted and consumes an unread record with its tail, without counting it |
| RingReader.RingReader.Receive | crates/data-plane/nwipc-ring-reader/src/lib.rs:128-146 | Returns the oldest record in flight unchanged and removes only it, or leaves a record whose kind reads as padding where it is; terminates over any padding |
| Fragmentation.PiecesRejoin | crates/data-plane/nwipc-fragment/src/lib.rs:60-85 | The fragments put together are the message |
| Fragmentation.PieceAt | crates/data-plane/nwipc-fragment/src/lib.rs:60-85 | Fragment k is chunk k, and only the last one ends the message |
| Fragmentation.WireSumClosed | crates/data-plane/nwipc-fragment/src/lib.rs:254-268 | The closed wire-size formula is the sum over the chunks |
| Fragmentation.WireBytesIsBatchLength | crates/data-plane/nwipc-fragment/src/lib.rs:254-279 | For every non-empty message `wire_bytes` is the total aligned length of its fragments, and fails exactly when that total or a largest record is not a u32 |
| Progress.SpanBound | crates/data-plane/nwipc-fragment/src/lib.rs:106-118 | A batch wraps with padding at most once and takes at most its records plus the largest record less eight |
| Progress.EmptyRingFitsEveryMessage | crates/data-plane/nwipc-channel-core/src/lib.rs:70-81 | With `maximum_batch_bytes` of capacity every message fits an empty ring from every producer position; the writer takes it exactly when the inline limit or the message is at most 1 MiB |
| Progress.InlineProgressIffBatchBytes | crates/data-plane/nwipc-ring-core/src/lib.rs:84-113 | A record and its wrap tail fit an empty ring at every aligned position if and only if there is room for the longest wrap tail too |
| ChannelProgress.ProgressIff | crates/data-plane/nwipc-channel-core/src/lib.rs:70-81 | Of the configurations the capacity check passes, exactly those plan every message on every empty ring whose inline limit is at most 1 MiB and whose capacity holds `maximum_batch_bytes` |
| ChannelProgress.BatchBytesSufficeIffInline | crates/data-plane/nwipc-fragment/src/lib.rs:106-118 | With `maximum_batch_bytes` of capacity an empty ring plans every message at every position if and only if the inline limit is at most 1 MiB |
| ChannelProgress.InlineOnlyRefusal | crates/data-plane/nwipc-channel-core/src/lib.rs:70-81 | The capacity check passes 128 bytes for inline messages of 64, and the planner then refuses such a message on an empty ring at position 48 |
| Reassembly.Reassembler.Push | crates/data-plane/nwipc-fragment/src/lib.rs:162-228 | Buffers, completes or refuses as specified; every error leaves nothing pending |
| Reassembly.PendingIsARun | crates/data-plane/nwipc-fragment/src/lib.rs:162-228 | On any stream a pending message is the join of the latest uninterrupted run of fragments of one identity |
| Reassembly.CompletedIsARun | crates/data-plane/nwipc-fragment/src/lib.rs:162-228 | On any stream a completed message is one same-identity run within the limit |
| Reassembly.PiecesPush | crates/data-plane/nwipc-fragment/src/lib.rs:60-228 | Pushing the fragments of a message answers pending until the last one and then gives the message |
| Reassembly.TooLargeExactly | crates/data-plane/nwipc-fragment/src/lib.rs:162-228 | Exactly the fragments that would carry their own message over the limit are refused as too large |
| FlowControl.FlowControl.Create | crates/data-plane/nwipc-flow-control/src/lib.rs:21-32 | Watermarks are accepted exactly when low < high <= capacity |
| FlowControl.FlowControl.Update | crates/data-plane/nwipc-flow-control/src/lib.rs:39-57 | Applies the throttle to an observation and reports the edge back to writable once |
| FlowControl.ThrottledSince | crates/data-plane/nwipc-flow-control/src/lib.rs:39-57 | A throttled producer saw the high watermark and since then never the low one |
| FlowControl.ThrottledIff | crates/data-plane/nwipc-flow-control/src/lib.rs:39-57 | A producer is throttled if and only if it observed the high watermark and since then never the low one |
| FlowControl.EdgeIff | crates/data-plane/nwipc-flow-control/src/lib.rs:39-57 | An observation is the writable edge if and only if it is the first of the low watermark since one of the high watermark |
| FlowControl.EdgesAlternate | crates/data-plane/nwipc-flow-control/src/lib.rs:39-57 | Between two writable edges the high watermark was observed |
| Delivery.DeliverAnnounced | crates/data-plane/nwipc-channel-core/src/lib.rs:131-258 | However a message is fragmented, delivering its batch yields the message itself; closing records yield their event |
| Delivery.ReceiveIsDelivery | crates/data-plane/nwipc-channel-core/src/lib.rs:217-258 | Repeating `receive` walks through the delivered events one by one |
| Delivery.DeliverAppend | crates/data-plane/nwipc-channel-core/src/lib.rs:217-258 | Delivering two stretches of records in turn is delivering them together |
| Delivery.PoisonBlocks | crates/data-plane/nwipc-channel-core/src/lib.rs:217-258 | Neither a record whose kind reads as padding nor anything behind it is taken by any number of receive calls |
| StreamLaws.DeliveryIsTheStream | crates/data-plane/nwipc-channel-core/src/lib.rs:217-258 | On any stream delivery goes through exactly if every record is admissible where it stands; the events are then the messages, closes and control records of the stream, each message the join of the data since the last one |
| ChannelCore.ChannelEndpoint.FromMemories | crates/data-plane/nwipc-channel-core/src/lib.rs:102-124 | Builds an endpoint if and only if limits, capacities and watermarks are valid, whatever the rings hold; exactly which rings it can then go on from |
| ChannelCore.ChannelEndpoint.RefreshFlow | crates/data-plane/nwipc-channel-core/src/lib.rs:265-267 | Re-observes the occupancy and reports the edge |
| ChannelCore.ChannelEndpoint.Send | crates/data-plane/nwipc-channel-core/src/lib.rs:131-146 | Accepts a message exactly under the stated conditions; then exactly the batch that announces it joins the ring, otherwise nothing does; a close, the throttle, the size and the ring decide the error |
| ChannelCore.ChannelEndpoint.DrainedRingSends | crates/data-plane/nwipc-channel-core/src/lib.rs:131-146 | Once the ring is drained an open endpoint of sufficient capacity sends a message within its limit, whatever the throttle, exactly when the inline limit or the message is at most 1 MiB |
| ChannelCore.ChannelEndpoint.Finish | crates/data-plane/nwipc-channel-core/src/lib.rs:183-208 | `close` and `reset`: one closing record behind everything sent before, and nothing can be sent afterwards |
| ChannelCore.ChannelEndpoint.Receive | crates/data-plane/nwipc-channel-core/src/lib.rs:217-258 | The receiving loop answers, consumes and reassembles as specified on the records in flight, and leaves a refused record on the ring |
| RingInvariant.StartKeeps | crates/data-plane/nwipc-ring-writer/src/lib.rs:106-145 | Planning from a stale consumer cursor claims free space only |
| RingSteps.BeginWriteKeeps | crates/data-plane/nwipc-atomic/src/lib.rs:166-180 | A planned write is accepted whatever the reader did since |
| RingSteps.CopyByteKeeps | crates/data-plane/nwipc-atomic/src/lib.rs:181-193 | Copying a byte touches no published byte |
| RingSteps.StorePublishKeeps | crates/data-plane/nwipc-atomic/src/lib.rs:200-214 | One cursor store publishes a whole batch and with it one event |
| RingSteps.AbandonKeeps | crates/data-plane/nwipc-ring-writer/src/lib.rs:169-198 | Dropping a batch in any stage keeps the invariant |
| RingSteps.LookKeeps | crates/data-plane/nwipc-ring-reader/src/lib.rs:37-56 | A glance through any loaded producer cursor keeps the invariant |
| RingSteps.LoadByteKeeps | crates/data-plane/nwipc-atomic/src/lib.rs:273-298 | No torn read: a copied byte is the published one while the writer goes on |
| RingSteps.DecideKeeps | crates/data-plane/nwipc-ring-reader/src/lib.rs:57-86 | The copied bytes decode to the published item |
| RingSteps.CheckConsumeKeeps | crates/data-plane/nwipc-ring-reader/src/lib.rs:93-106 | The receipt is current and carries the expected sequence number |
| RingSteps.StoreConsumeKeeps | crates/data-plane/nwipc-atomic/src/lib.rs:305-319 | Consuming gives exactly the head's bytes back |
| RingSteps.FinishConsumeKeeps | crates/data-plane/nwipc-channel-core/src/lib.rs:217-258 | Handing a record to the channel never faults |
| RingTheorems.ReachableInv | crates/data-plane/nwipc-ring-writer/src/lib.rs:106-158 | The invariant holds in every state that any interleaving reaches |
| RingTheorems.RingIsFifo | crates/data-plane/nwipc-ring-reader/src/lib.rs:37-146 | In every interleaving the records received are a prefix, byte for byte, of those published; no call fails half-way; in every phase of both sides the sequence counters count the records in between |
| RingTheorems.StepRefinesQueue | crates/data-plane/nwipc-ring-writer/src/lib.rs:106-158 | Every step refines a queue: publishing appends one whole announced batch, consuming removes the oldest record, nothing else changes it |
| RingIdentities.IdentitiesCount | crates/data-plane/nwipc-ring-writer/src/lib.rs:151-154 | Over every schedule the n-th batch carries identity 1 + n mod (2^32 - 1), and the log is exactly the batches of the events sent, one after the other |
| RingIdentities.SameIdentityIff | crates/data-plane/nwipc-ring-writer/src/lib.rs:106-198 | Records of batches fewer than 2^32 - 1 apart carry the same identity if and only if they belong to the same batch |
| RingTheorems.RemoteCloseStops | crates/data-plane/nwipc-channel-core/src/lib.rs:131-208 | Once an idle writer heard that the other side closed, whatever is tried sends nothing but a closing event |
| RingTheorems.EndToEnd | crates/data-plane/nwipc-channel-core/src/lib.rs:131-258 | The events received are a prefix of the events sent, with a closing event only as the last; with nothing in flight none is missing |
| RingTheorems.RaceFreedom | crates/data-plane/nwipc-atomic/src/lib.rs:166-298 | The bytes being written and the bytes being read never overlap |
| RingLiveness.WriterFinishes | crates/data-plane/nwipc-ring-writer/src/lib.rs:106-158 | From every reachable state the writer's own steps publish a planned batch whole |
| RingLiveness.ReaderDrains | crates/data-plane/nwipc-ring-reader/src/lib.rs:128-146 | Receiving terminates: the reader's own steps empty the ring from every reachable state |
| RingLiveness.EverythingArrives | crates/data-plane/nwipc-channel-core/src/lib.rs:217-258 | From every reachable state the reader alone delivers everything sent |
| RingBounds.ReceivesAnswer | crates/data-plane/nwipc-ring-reader/src/lib.rs:128-146 | In every interleaving the reader's own steps are bounded by the receives of the ring they answer: a record is at most one padding and `capacity` bytes away |
| RingBounds.ChannelReceivesAnswer | crates/data-plane/nwipc-channel-core/src/lib.rs:217-258 | The same for the receive of the channel, since every fragment of a pending message brings a byte at least |
| RingBounds.ReceiveIsWaitFree | crates/data-plane/nwipc-channel-core/src/lib.rs:217-258 | In every reachable state, whatever the writer does, k times 2 (capacity + 6) reader steps answer k receives of the ring, and 1 + maximumMessage times as many k receives of the channel |
| RingBounds.BatchesAppear | crates/data-plane/nwipc-ring-writer/src/lib.rs:106-158 | In every interleaving the steps of a writer that never gives up a batch are bounded by the batches it publishes |
| RingBounds.PublishIsWaitFree | crates/data-plane/nwipc-ring-writer/src/lib.rs:106-158 | In every reachable state, whatever the reader does, k times 5/4 capacity + 2 steps of such a writer publish k batches |
| RingAgreement.SendAgrees | crates/data-plane/nwipc-ring-writer/src/lib.rs:106-158 | Run alone from an idle world, the interleaved steps of one message take the decision of `send_fragments` and leave the ring and the counters as its contract says |
| RingAgreement.FinishAgrees | crates/data-plane/nwipc-channel-core/src/lib.rs:183-208 | The same for the closing records |
| RingAgreement.ReaderReturns | crates/data-plane/nwipc-ring-reader/src/lib.rs:128-146 | From every state, in the middle of a receive too, the reader's own steps return exactly the oldest record not yet returned |
| RingAgreement.ReceiveAgrees | crates/data-plane/nwipc-ring-reader/src/lib.rs:128-146 | Run alone, the interleaved steps of one receive return and remove what `receive` returns and removes, with the same counters |
| RingAgreement.RefusalIsReached | crates/data-plane/nwipc-channel-core/src/lib.rs:70-81 | Every inline-only ring that passes the capacity check without `maximum_batch_bytes`, with an inline limit of at most 1 MiB, reaches, by one message sent and received, a drained state in which it refuses its largest message |
| RingLiveness.DrainedRingAccepts | crates/data-plane/nwipc-channel-core/src/lib.rs:70-146 | In every reachable state with a drained ring an idle open writer plans a message within the limits exactly when the inline limit or the message is at most 1 MiB |
| RingCrash.CrashInvisible | crates/data-plane/nwipc-ring-writer/src/lib.rs:39-82 | Batches begun and dropped, interleaved with the reader at will, leave cursors, endpoints, queue and every later send and receive as if they had never begun |
| RingCrash.AttemptStep | crates/data-plane/nwipc-ring-writer/src/lib.rs:169-198 | An unpublished write is seen by no step of the reader |
| StateTable.LivesAreShort | crates/domain/nwipc-state/src/lib.rs:46-71 | Every accepted event makes a session older: no state comes back and at most eight events are accepted |
| StateTable.OpensOnlyInOrder | crates/domain/nwipc-state/src/lib.rs:46-71 | A session opens if and only if the opening events come in their one order |
| StateTable.TerminalIffDeaf | crates/domain/nwipc-state/src/lib.rs:32-34 | A state accepts no event exactly when it is terminal |
| StateTable.LeadsInto | crates/domain/nwipc-state/src/lib.rs:46-71 | Exactly which states and events lead into draining, disconnected, failed and closed, and the one error of every refusal |
| Sessions.PreparedResources.Cleanup | crates/runtime/nwipc-session/src/lib.rs:76-90 | The first call releases every resource in reverse order and reports the first failure; later calls release nothing |
| Sessions.FirstFailureIff | crates/runtime/nwipc-session/src/lib.rs:76-90 | A sweep reports a failure exactly when some release fails, and then that of the resource acquired last among them |
| Sessions.Session.Apply | crates/runtime/nwipc-session/src/lib.rs:155-158 | Moves along the table or changes nothing |
| Sessions.Session.InstallResources | crates/runtime/nwipc-session/src/lib.rs:167-171 | Takes over resources exactly when preparing; otherwise they are released at once |
| Sessions.Session.Cleanup | crates/runtime/nwipc-session/src/lib.rs:192-197 | Invalidates both endpoints and releases the resources once |
| Machines.SessionMachine.Prepare | crates/runtime/nwipc-session-machine/src/lib.rs:55-64 | A prepared generation waits for the renderer with unreleased resources |
| Machines.SessionMachine.Handle | crates/runtime/nwipc-session-machine/src/lib.rs:76-113 | Applies an event with its state, endpoint and release effects as specified |
| Machines.SessionMachine.CloseDown | crates/runtime/nwipc-session-machine/src/lib.rs:115-129 | Closes by draining, or by failing an unopened generation |
| Machines.HandleKeepsSettled | crates/runtime/nwipc-session-machine/src/lib.rs:76-129 | After every call, also a failing one, the state determines both endpoints and whether resources are released |
| Machines.CloseTwice | crates/runtime/nwipc-session-machine/src/lib.rs:115-129 | A close that failed succeeds when repeated and releases nothing again |
| Machines.ReleasedOnce | crates/runtime/nwipc-session-machine/src/lib.rs:76-129 | Over any life the resources are released exactly once, in reverse, exactly when the live states are left |
| Machines.OpensExactly | crates/runtime/nwipc-session-machine/src/lib.rs:76-113 | Over any events a prepared session opens if and only if renderer, peer and handshake are reported in this order and nothing but such reports comes in between |
| Machines.OpenerLeadsOn | crates/runtime/nwipc-session-machine/src/lib.rs:84-98 | The awaited report leads on; any other one changes nothing and is refused, or ignored when the session is over |
| Machines.InvalidatesExactly | crates/runtime/nwipc-session-machine/src/lib.rs:99-111 | Exactly which events invalidate a session in which state, the state it is left in, and that it asks for a replacement exactly if no release fails |
| Machines.ClosesExactly | crates/runtime/nwipc-session-machine/src/lib.rs:115-129 | Closing succeeds exactly if no release fails, and the state it leads to in every case |
| Registry.Runtime.constructor | crates/runtime/nwipc-runtime/src/lib.rs:117-125 | An empty registry issues from one |
| Registry.Runtime.CreateSession | crates/runtime/nwipc-runtime/src/lib.rs:137-147 | A fresh session under a fresh generation, or the exhaustion or preparation error |
| Registry.Runtime.Route | crates/runtime/nwipc-runtime/src/lib.rs:157-180 | Handles the event of an active handle and replaces an invalidated generation |
| Registry.Runtime.Replace | crates/runtime/nwipc-runtime/src/lib.rs:189-201 | Retries a replacement of an invalidated session only |
| Registry.Runtime.CloseSession | crates/runtime/nwipc-runtime/src/lib.rs:208-211 | Closes the active generation of a handle |
| Registry.Runtime.PrepareMachine | crates/runtime/nwipc-runtime/src/lib.rs:250-259 | A prepared machine waits for the renderer; a failing preparation releases what it acquired |
| Registry.Runtime.InstallSession | crates/runtime/nwipc-runtime/src/lib.rs:237-248 | Issues, prepares and installs one generation; the machine it replaces is dropped |
| Registry.Runtime.OthersKeep | crates/runtime/nwipc-runtime/src/lib.rs:284-296 | Work on one session leaves every other session alone |
| RegistryTheorems.GenerationsAreFresh | crates/runtime/nwipc-runtime/src/lib.rs:137-297 | Over every run generations strictly increase and no two sessions are active under one |
| RegistryTheorems.CleanedExactlyOnce | crates/runtime/nwipc-runtime/src/lib.rs:157-248 | Over every run the resources of a generation are all released once, last first, or all in use |
| RegistryTheorems.ReplacedOnlyAfterCleanup | crates/runtime/nwipc-runtime/src/lib.rs:157-248 | When a generation is prepared, every earlier one of its session is completely released |
| RegistryTheorems.StaleForever | crates/runtime/nwipc-runtime/src/lib.rs:273-296 | A stale handle is refused for ever and the refused call changes nothing |
| RegistryTheorems.ReplacementRetiresHandle | crates/runtime/nwipc-runtime/src/lib.rs:157-180 | A replacement makes the old handle stale and its own the active one |
| RegistryTheorems.ReplacedIff | crates/runtime/nwipc-runtime/src/lib.rs:157-180 | After any run a route replaces the generation if and only if the event invalidates it, its releases succeed, a generation is left and the preparation succeeds; otherwise the old one stays active, in the state and with the effect that the event gives |
| RegistryTheorems.CreatedIff | crates/runtime/nwipc-runtime/src/lib.rs:137-147 | After any run a session is created if and only if both counters are left and the preparation succeeds; it is active, in its initial state, and no other session changes |
| RegistryTheorems.ReplaceRetiresHandle | crates/runtime/nwipc-runtime/src/lib.rs:189-248 | A direct replacement succeeds exactly from a replaceable state with a generation left and a preparation that succeeds; the old handle is then stale for ever and a newer one active, and a refusal leaves the old one active |
| RegistryTheorems.DropLeaksNothing | crates/runtime/nwipc-session/src/lib.rs:98-102 | Dropping the runtime after any run leaves every resource ever prepared released exactly once |
| ChunkPool.Pool.constructor | crates/data-plane/nwipc-chunk-pool/src/lib.rs:28-61 | Every slab of a new pool is free |
| ChunkPool.Pool.Create | crates/data-plane/nwipc-chunk-pool/src/lib.rs:17-62 | A pool is created exactly for non-empty, addressable configurations whose slabs can be allocated; what fails decides the error |
| ChunkPool.Pool.Loan | crates/data-plane/nwipc-chunk-pool/src/lib.rs:90-111 | Loans the slab that has been free longest; only size and backpressure refuse it |
| ChunkPool.Filled | crates/data-plane/nwipc-chunk-pool/src/lib.rs:139-152 | The producer rewrites exactly the payload prefix of a loan: identity, length and the bytes behind it stay |
| ChunkPool.Pool.Commit | crates/data-plane/nwipc-chunk-pool/src/lib.rs:161-167 | The payload joins the end of the committed ones |
| ChunkPool.Pool.DropLoan | crates/data-plane/nwipc-chunk-pool/src/lib.rs:170-181 | A dropped loan frees its slab |
| ChunkPool.Pool.Receive | crates/data-plane/nwipc-chunk-pool/src/lib.rs:196-212 | Hands out the oldest committed payload not yet received, unchanged, and never an internal error |
| ChunkPool.Pool.Release | crates/data-plane/nwipc-chunk-pool/src/lib.rs:247-264 | A released receipt frees its slab |
| ChunkPool.Pool.Exchange | crates/data-plane/nwipc-chunk-pool/src/lib.rs:342-362 | Loan, fill, commit, receive and release: the consumer reads exactly the bytes written, and every slab that was free is free again |
| ChunkPool.Pool.Diagnostics | crates/data-plane/nwipc-chunk-pool/src/lib.rs:281-290 | The four counts add up to all slabs |
| ChunkPool.OneOwner | crates/data-plane/nwipc-chunk-pool/src/lib.rs:70-76 | Free, ready, loaned and received slabs are pairwise disjoint and together all slabs |
| BootstrapFields.CarriedDecodes | crates/bootstrap/nwipc-bootstrap-codec/src/lib.rs:58-142 | Seven components in any order, between unknown optional fields, decode to their envelope |
| BootstrapFields.DecodedIsCarried | crates/bootstrap/nwipc-bootstrap-codec/src/lib.rs:58-142 | Every accepted input is such a sequence of fields |
| BootstrapFields.FirstBadFieldDecides | crates/bootstrap/nwipc-bootstrap-codec/src/lib.rs:58-126 | The first field that cannot be taken decides the error: unknown and required, repeated, or invalid |
| BootstrapFields.MissingIsTruncated | crates/bootstrap/nwipc-bootstrap-codec/src/lib.rs:91-142 | Fields that leave a component out are refused as truncated |
| BootstrapFields.ProvidersFit | crates/bootstrap/nwipc-bootstrap-schema/src/lib.rs:279-305 | Exactly which providers an envelope may name for memory and for signals |
| BootstrapFields.RoundTrip | crates/bootstrap/nwipc-bootstrap-codec/src/lib.rs:28-142 | Encoding then decoding gives every valid envelope back |
| BootstrapFields.OrderIndependent | crates/bootstrap/nwipc-bootstrap-codec/src/lib.rs:91-126 | A permutation of the fields of an accepted input decodes to the same envelope |
| BootstrapFields.CanonicalFits | crates/bootstrap/nwipc-bootstrap-codec/src/lib.rs:47-49 | No valid envelope is refused for its length |
| BootstrapCodec.Encode | crates/bootstrap/nwipc-bootstrap-codec/src/lib.rs:28-51 | Encodes every valid envelope within the limit to bytes that decode to it |
| BootstrapCodec.Decode | crates/bootstrap/nwipc-bootstrap-codec/src/lib.rs:58-142 | The decoding loop is the specified decoder, error for error |
| Handshake.NegotiationBetween | crates/domain/nwipc-capabilities/src/lib.rs:159-178 | Required within selected within requested, and the largest such selection that is supported |
| Handshake.VersionIsGreatestCommon | crates/protocol/nwipc-protocol/src/lib.rs:94-113 | The newest common version, and a failure if and only if there is none |
| Handshake.EncodeHello | crates/protocol/nwipc-protocol/src/lib.rs:226-247 | Fills the frame with exactly the fields at their places |
| Handshake.EncodeAck | crates/protocol/nwipc-protocol/src/lib.rs:457-468 | Fills the frame with exactly the fields at their places |
| Handshake.HelloDecodes | crates/protocol/nwipc-protocol/src/lib.rs:376-416 | A HELLO decodes to its configuration, unless it offers version zero |
| Handshake.InitiatorHandshake.Create | crates/protocol/nwipc-protocol/src/lib.rs:213-219 | An initiator is created exactly for a positive message limit and a proof of valid length |
| Handshake.AcceptorHandshake.Create | crates/protocol/nwipc-protocol/src/lib.rs:320-326 | An acceptor is created exactly for a positive message limit and a proof of valid length |
| Handshake.InitiatorHandshake.SendHello | crates/protocol/nwipc-protocol/src/lib.rs:226-247 | One HELLO from the ready state, a failure afterwards |
| Handshake.InitiatorHandshake.Acknowledge | crates/protocol/nwipc-protocol/src/lib.rs:254-300 | Opens on an acceptable ACK after the HELLO and fails otherwise |
| Handshake.AcceptorHandshake.Accept | crates/protocol/nwipc-protocol/src/lib.rs:333-360 | Judges the first frame as specified and refuses every later one |
| Handshake.BothAgree | crates/protocol/nwipc-protocol/src/lib.rs:226-360 | The acceptor answers exactly the compatible initiators with the newest common version, all capabilities both can use and the largest message both take, and the initiator then opens with the identical selection exactly when the role is the expected one |
| Handshake.AcceptedSelection | crates/protocol/nwipc-protocol/src/lib.rs:333-360 | For any accepted frame the selection contains what is required, lies within the acceptor's policy and gives up nothing that both sides offered |
| Handshake.RefusedBecause | crates/protocol/nwipc-protocol/src/lib.rs:333-360 | Why a HELLO is refused: identity, generation, proof, version or capabilities, each with its error and in this order |
| Handshake.StaleAckRefused | crates/protocol/nwipc-protocol/src/lib.rs:254-300 | An ACK of another generation is refused as stale |
| Handshake.ContainsBits | crates/domain/nwipc-capabilities/src/lib.rs:159-178 | Containment of capability sets is containment of every bit |
| Handshake.WireUnique | crates/protocol/nwipc-protocol/src/lib.rs:554-568 | Every eight bytes are the wire form of exactly the capability set they decode to |
| Handshake.AckUnique | crates/protocol/nwipc-protocol/src/lib.rs:418-468 | A frame that decodes as an ACK is, byte for byte, the encoding of what it decodes to |
| Handshake.HelloUnique | crates/protocol/nwipc-protocol/src/lib.rs:376-416 | A frame that decodes as a HELLO is, byte for byte, the encoding of a valid configuration |
| Handshake.OpensExactlyWithinPolicy | crates/protocol/nwipc-protocol/src/lib.rs:254-300 | Whatever bytes arrive, an initiator opens with a selection if and only if they are its encoding for the session, generation and expected role, and it is within the initiator's policy |
| Handshake.AcceptorAnswersOnce | crates/protocol/nwipc-protocol/src/lib.rs:333-360 | Over any frames an acceptor judges the first alone and refuses every later one |
| Handshake.OnlyTheNegotiatedSelection | crates/protocol/nwipc-protocol/src/lib.rs:254-360 | Whatever frames reach an acceptor, an initiator that opens on one of its answers opens with the one selection it negotiated, within both policies and giving up nothing both offered |
| Handshake.InitiatorOpensOnce | crates/protocol/nwipc-protocol/src/lib.rs:201-306 | Over any calls an initiator sends one HELLO at most and opens at most once, after it |
| ProtectedFrames.FrameSealer.Prepare | crates/data-plane/nwipc-crypto/src/lib.rs:158-187 | Seals under the next counter without consuming it |
| ProtectedFrames.FrameSealer.Commit | crates/data-plane/nwipc-crypto/src/lib.rs:204-206 | Consumes the counter of a published frame |
| ProtectedFrames.FrameOpener.Open | crates/data-plane/nwipc-crypto/src/lib.rs:233-269 | Opens the expected frame; a rejected one changes nothing |
| ProtectedFrames.AcceptedIsPrefix | crates/data-plane/nwipc-crypto/src/lib.rs:158-269 | Whatever the wire does, accepted plaintexts are a prefix of the committed ones; the sealer's frame k is sealed under counter k, without gaps or reuse, up to exhaustion at 2^64 |
| ProtectedFrames.AcceptedIffNext | crates/data-plane/nwipc-crypto/src/lib.rs:233-269 | Bytes are accepted if and only if they are the next frame on the wire, and every other frame of the wire is refused as a replay |
| ProtectedFrames.ForgeriesFail | crates/data-plane/nwipc-crypto/src/lib.rs:233-269 | Short bytes, and bytes under the expected counter that do not open, fail authentication and change nothing |
| SignalCoalescing.SignalCoalescer.MarkChanged | crates/signal/nwipc-signal-coalescing/src/lib.rs:29-35 | Sets the flag and elects exactly the caller that found it clear |
| SignalCoalescing.SignalCoalescer.Rearm | crates/signal/nwipc-signal-coalescing/src/lib.rs:41-43 | Clears the flag |
| SignalCoalescing.PendingHasOneCarrier | crates/signal/nwipc-signal-coalescing/src/lib.rs:29-43 | Pending means exactly one elected poster, hint or draining consumer, and not pending means none |
| SignalCoalescing.NoLostWakeUp | crates/signal/nwipc-signal-coalescing/src/lib.rs:37-43 | A consumer never sleeps on an unseen change with no hint coming; in quiescence it has seen everything |
| SignalCoalescing.InspectionIsNeeded | crates/signal/nwipc-signal-coalescing/src/lib.rs:37-43 | Without the inspection after re-arming a suppressed change would be missed for ever |
| RendererPorts.RendererCore.InstallBinding | crates/renderer/nwipc-renderer-core/src/lib.rs:287-296 | A newer document replaces the active one and nothing of the old one stays |
| RendererPorts.RendererCore.InvalidateDocument | crates/renderer/nwipc-renderer-core/src/lib.rs:298-305 | Ports and waiting events of the document are gone, all others stay |
| RendererPorts.RendererCore.Connect | crates/renderer/nwipc-renderer-core/src/lib.rs:68-89 | A port opens under an identity never issued before, in the active document only |
| RendererPorts.RendererCore.RegisterCallback | crates/renderer/nwipc-renderer-core/src/lib.rs:96-109 | Fresh callback identities in order of registration |
| RendererPorts.RendererCore.RemoveCallback | crates/renderer/nwipc-renderer-core/src/lib.rs:112-119 | The callback disappears from every port and waiting event and nothing else changes |
| RendererPorts.WithoutCallbackExactly | crates/renderer/nwipc-renderer-core/src/lib.rs:112-119 | Removal takes out every occurrence of a callback and nothing else |
| RendererPorts.WithoutCallbackKeepsOrder | crates/renderer/nwipc-renderer-core/src/lib.rs:112-119 | The other callbacks keep their order |
| RendererPorts.RendererCore.Send | crates/renderer/nwipc-renderer-core/src/lib.rs:126-139 | Only an open port of the active document reaches its transport |
| RendererPorts.RendererCore.Close | crates/renderer/nwipc-renderer-core/src/lib.rs:160-173 | Starts one close; a transport that cannot close queues one failure and ends the port |
| RendererPorts.RendererCore.Finish | crates/renderer/nwipc-renderer-core/src/lib.rs:243-253 | A terminal event is queued once and ends its port |
| RendererPorts.RendererCore.PopEvent | crates/renderer/nwipc-renderer-core/src/lib.rs:190-197 | Events leave in the order in which they were queued; none of another document is ever waiting |
| RendererPorts.RendererCore.PollPort | crates/renderer/nwipc-renderer-core/src/lib.rs:199-229 | One polling round queues exactly what the answers up to the next pause call for, with the callbacks of the port, and touches no other port |
| RendererPorts.RendererCore.HandleAnswer | crates/renderer/nwipc-renderer-core/src/lib.rs:199-229 | One answer of a transport is queued with the callbacks of its port, ends the port, clears its backpressure or ends the round |
| RendererPorts.RendererCore.DispatchReadable | crates/renderer/nwipc-renderer-core/src/lib.rs:307-313 | One dispatch polls every port for one round, in whatever order; each port's events are queued in transport order and with its callbacks |
| RendererPorts.PollEndsOnce | crates/renderer/nwipc-renderer-core/src/lib.rs:199-229 | A round queues at most one terminal event, last, and exactly when it ends the port |
| RendererPorts.RoundsAreOnePoll | crates/renderer/nwipc-renderer-core/src/lib.rs:199-229 | With no send in between, rounds queue a beginning of what polling without pauses queues, writable edges included, and all of it once every pause is passed |
| RendererPorts.RoundsEndOnce | crates/renderer/nwipc-renderer-core/src/lib.rs:199-229 | Over any number of rounds at most one terminal event is queued, and nothing after it |
| PortLives.LifeTells | crates/renderer/nwipc-renderer-core/src/lib.rs:126-241 | Over rounds, sends and successful closes in any order, what was queued apart from writable edges and what the transport still has to tell are together what it had to tell |
| PortLives.EdgesAreOwed | crates/renderer/nwipc-renderer-core/src/lib.rs:126-241 | Over any such life every writable edge answers a backpressured send of its own |
| PortLives.ThrottlingsEnd | crates/renderer/nwipc-renderer-core/src/lib.rs:126-229 | Every throttling of a port ends with exactly one writable edge, unless a later send ends it or it still lasts |
| PortLives.WritableIsReported | crates/renderer/nwipc-renderer-core/src/lib.rs:199-229 | A throttled port is told that it is writable, behind everything told before, exactly when a round comes past the answer, and stays throttled until then |
| PortLives.ClosingIsFinal | crates/renderer/nwipc-renderer-core/src/lib.rs:126-173 | A close that was asked for is final: the port never opens again and no send throttles it |
| PortLives.EndsExactlyWhen | crates/renderer/nwipc-renderer-core/src/lib.rs:126-253 | A port ends exactly in the round past the last pause in front of the end its transport reports, whatever is sent or asked in between |
| PortLives.LifeEndsOnce | crates/renderer/nwipc-renderer-core/src/lib.rs:126-253 | Over any life, refused closes included, at most one terminal event is queued, as the last one |
| PortLives.LifeEnding | crates/renderer/nwipc-renderer-core/src/lib.rs:243-253 | A port that ended is in the state its last event leads to and has no callbacks |
| PortLives.CloseReportedLater | crates/renderer/nwipc-renderer-core/src/lib.rs:160-241 | Behind any messages and pauses, a reported close makes the port done exactly one round after the last pause, with everything told before queued before it |
| RendererPorts.TerminalIsLast | crates/renderer/nwipc-renderer-core/src/lib.rs:160-305 | Of all events ever queued for a port at most one is terminal, and it is the last |

## Left out

- Platform providers, rendezvous, renderer scripting bindings, framework adapters, bundling, diagnostics
  and asynchronous wrappers: foreign calls and plumbing. Memory is the in-process ring; its loads and
  stores do not fail, so the mapped variant is not part of this model.
- Weak memory: acquire loads and release stores are atomic steps of an interleaving.
- RingTheorems.ReachableInv: the interleaved model is one direction of a channel, which sends data and
  closing records only; the other direction is the same model with the sides exchanged. A call that the throttle refuses takes no step in it.
- RingWriter.RingWriter.SendFragments: the classes are the code of a call without interference; what the
  other side may do between two memory accesses is covered by the state machine in `RingSystem`, and
  `RingAgreement` relates the two.
- ChannelCore.ChannelEndpoint.Finish: stands for both `close` and `reset`, which differ in the record kind.
- RingWriter.RingWriter.constructor: message identities are non-zero by type, so the internal error for a
  zero identity cannot arise.
- Notification hints at channel level are not claimed to be exact: whether a hint is due comes from an
  earlier snapshot, and `send` itself may consume a writable edge.
- Registry.Runtime.CreateSession: what the provider does is a parameter, including a failing preparation
  that releases what it acquired.
- ChunkPool.Pool.Create: whether the slabs can be allocated is a parameter.
- ChunkPool.Pool.Loan: any number of loans and receipts may be outstanding, more than the borrow checker
  allows; the poisoned-lock error is not modelled.
- ProtectedFrames.AcceptedIsPrefix: key derivation and the cipher are abstract; a faithful round trip and
  ideal authenticity are hypotheses, and secrets are not erased.
- BootstrapCodec.Decode: the seen mask is a set of kinds instead of bits of an integer.
- RendererPorts.RendererCore.Connect: a renderer transport is the list of answers that all its later polls
  will give, with the ones that say nothing is ready; what its `send` and `close` answer are parameters.
- The region layout validator, the channel polling transport and the TypeScript client.
- Error categories, recoverability and operation names: only success and the error code are kept.
