# Temnion in Dafny

Temnion is an event-history engine: a causal graph over events, lossless column codecs, a packet
protocol with live subscriptions, pruning summaries and projections, a canonical binary format, a
query expression language, checkpoint replay, a background task graph, tiered storage, bounded
in-memory logs and a truth maintenance system. This project models those algorithms and proves what
they promise. `dafny verify dfyconfig.toml` checks everything.

Each component has a value-level specification (functions, state machines) and, where the code works
by changing things, a class or a loop method proved against it. The modules follow the system:

| component | modules |
|---|---|
| causal graph | `CausalSpec`, `CausalTrace`, `KahnSpec`, `KahnEnds`, `CausalSort`, `CausalGraph`, `CausalCsr` over `Digraph` |
| checksums and packets | `Bits`, `Bytes`, `Crc32`, `TnpFrame`, `TnpClient`, `TnpChannel`, `TnpExact` |
| codecs | `CodecFrame`, `CodecRle`, `BitPacking`, `BitStream`, `CodecPack`, `CodecXor`, `CodecLayout`, `CodecScorer` |
| stored pages | `Frames` |
| live subscriptions | `Subscription`, `SubscriptionRuns`, `SubscriptionHub` |
| logs and paging | `EventLog`, `EventPages` |
| indexes | `Bloom`, `Pruning`, `PruneExact`, `Morton`, `MortonIntervals`, `Projection` |
| binary format | `Fields`, `FormatRecord`, `FormatBatch`, `FormatCursor`, `FormatSegment`, `FormatLayout` |
| query expressions | `ExprLexer`, `ExprParser`, `ExprGrammar`, `ExprSpelling` |
| replay | `RawEntityMap`, `Replay`, `ReplayRaw` |
| runtime | `TaskGraph`, `TaskDag`, `Tiering` |
| knowledge | `TruthSpec`, `TruthMaintenance`, `TruthCases`, `Provenance` |

Shared vocabulary (identities, clocks, filters, small arithmetic) is in `Core`; `Slices` has two facts about slices.

## Where the code does less than one might expect

Each of these is proved, with the exact condition under which the expected behaviour holds.

- Registering an event again with fewer causes leaves stale `effects` entries: `effects` keeps every
  cause ever accepted (`CausalSpec.EffectsRemember`). The causal relation stays acyclic, but
  `topological_sort` never ends exactly when `effects` has a cycle (`KahnEnds.EndsExactly`,
  `CausalSort.ReRegistrationNeverEnds`). When it ends, it answers Ok exactly when no known event has a
  stale effect (`KahnSpec.SortsExactlyWithoutStale`), and otherwise reports a cycle that is not there
  (`CausalSort.ForgottenCauseErrs`).
- The subscribe branch asks the snapshot scan for as many rows as the snapshot is long, but the scan
  counts rows from sequence 0. Replaying from a positive sequence therefore loses the newest events,
  against docs/HOW_TO_GUIDE.md:502-504 (`Subscription.ReplayFromLosesNewest`). The scan is one page,
  which also ends at the frame that breaks its budget of 65,536 events or 32 MiB, and one filter
  error on it suppresses the whole replay (`Subscription.FullReplayExactly`,
  `Subscription.ReplayFromStartExactly`). An append between the length read and the registration, or a
  full queue, leaves a gap in the live part; nothing else does (`Subscription.GaplessExactly`).
- XOR coding stores a 64-bit length in six bits. It loses data exactly when two neighbouring words
  differ in both their highest and their lowest bit (`CodecXor.StreamReadsBack`, `CodecXor.LossExample`).
- A segment summary only looks at the clock of its first block, and a block summary at the clock of
  its first record. With two valid clocks in one block a whole segment can be skipped although it
  holds a match (`Pruning.MixedValidClocksLose`, `Pruning.SegmentSafeExactly`).
- `reconstruct_at_sequence` reads one page, and a page charges whole frames to its budgets of 65,536
  events and 64 MiB, the records before the first one wanted included. When the frames from the first
  event wanted to the target do not fit, it returns an earlier state without an error
  (`Replay.ReplayEngine.ReconstructAtSequence`, `Replay.SecondFrameOutOfReach`,
  `Replay.ShortSuffixOutOfReach`). An engine that already replayed without a checkpoint continues with
  a generator that has moved on (`Replay.ReusedEngineDiffers`).
- `record_access` returns the tier before capacities are enforced; it is still the segment's tier
  exactly when the segment fits there by itself (`Tiering.TieredStorageManager.RecordAccess`).
- No status change looks at the task's own status. A task can be completed before its dependencies
  (`TaskDag.EarlyCompletionBreaks`), and a completed task can be started again or failed under a
  running dependent (`TaskDag.RestartBreaks`). Started tasks have completed dependencies throughout a
  run exactly when each step keeps that (`TaskDag.RunHonestExactly`).
- `retract_belief` recurses along dependents without remembering where it has been: it ends exactly
  when nothing that rests on the target also rests on itself (`TruthMaintenance.EndsExactly`). `why`
  recurses along premises in the same way: it returns exactly when nothing the target rests on rests
  on itself (`Provenance.ReturnsExactly`). A single belief that names its own number as its premise
  makes both run forever (`Provenance.OwnPremiseNeverEnds`). A
  proposition contradicts itself exactly when it contains both words of a pair, so every one with the
  word "inactive" does (`TruthSpec.SelfOpposedExactly`, `TruthSpec.InactiveOpposesItself`).
- A string with a double quote, a negative integer or a keyword as a field name does not survive
  printing and parsing; without floats, everything else does (`ExprParser.RoundTripExactly`).
- The comments of the packet protocol speak of CRC32C; the code computes the CRC-32 of IEEE 802.3, and so
  does the model (crates/temnion-protocol/src/lib.rs:163, `Crc32.GeneratorIs`).
- Posting lists are merged as sorted lists but grow in the order of indexing. All queries are answered
  rightly exactly when the events of one entity, and those of one schema, are indexed in sequence
  order (`Projection.AnswersExactly`, `Projection.LateArrivalLost`).

## Model

| member | source | states |
|---|---|---|
| `CausalSpec.RunSound` | crates/temnion-causal/src/lib.rs:89-148 | over every run of `add_event`, rejected calls and re-registrations included, `causes` stays acyclic, rows stay sorted or duplicate-free, and every cause is matched by an effect entry |
| `CausalSpec.RejectsExactlyCycles` | crates/temnion-causal/src/lib.rs:94-107 | a call is rejected if and only if accepting it would close a cycle |
| `CausalSpec.ConverseAfterAdd` | crates/temnion-causal/src/lib.rs:109-119 | `effects` stays the converse of `causes` if and only if no cause declared earlier for the event is dropped |
| `CausalSpec.RunConverse` | crates/temnion-causal/src/lib.rs:89-121 | a run that drops no cause ends with `effects` the converse of `causes` |
| `CausalSpec.OnceRegisteredDropsNoCause` | crates/temnion-causal/src/lib.rs:89-121 | registering each id at most once drops no cause |
| `CausalSpec.EffectsRemember` | crates/temnion-causal/src/lib.rs:109-119 | `effects` holds exactly the causes declared by accepted calls, whatever later calls dropped |
| `CausalGraph.CausalGraph.AddEvent` | crates/temnion-causal/src/lib.rs:89-121 | the loops of `add_event` compute the specified graph, succeed exactly when nothing declared has the event as an ancestor, and otherwise name the smallest such cause |
| `CausalGraph.CausalGraph.IsAncestorOf` | crates/temnion-causal/src/lib.rs:123-148 | the breadth-first search answers whether a walk along causes exists |
| `CausalGraph.CausalGraph.TraceCauses` | crates/temnion-causal/src/lib.rs:164-190 | the upstream trace is the trace of the causal relation |
| `CausalGraph.CausalGraph.TraceEffects` | crates/temnion-causal/src/lib.rs:193-219 | the downstream trace is the trace of the effect relation |
| `CausalGraph.CausalGraph.TopologicalSort` | crates/temnion-causal/src/lib.rs:223-265 | the sort of the stored graph, with the same three outcomes told apart: no answer in any number of rounds exactly when `effects` has a cycle; otherwise an answer within two to the power of the known events, Ok with a topological order exactly when nothing is stale and the error exactly when something is |
| `CausalTrace.Trace` | crates/temnion-causal/src/lib.rs:164-219 | the bounded breadth-first loop visits exactly the events within the depth, each once, with its true distance and exactly the edges followed |
| `CausalTrace.TraceMembership` | crates/temnion-causal/src/lib.rs:164-219 | an event is in a trace if and only if a short enough walk leads to it, and its recorded depth is the length of a shortest walk |
| `CausalTrace.EdgesExactly` | crates/temnion-causal/src/lib.rs:164-219 | the edges of a trace are exactly the pairs of an event above the last level and an event of its row |
| `CausalTrace.TracesDual` | crates/temnion-causal/src/lib.rs:164-219 | upstream and downstream traces mirror each other for all roots and depths if and only if `effects` is the converse of `causes` |
| `CausalSort.TopologicalSort` | crates/temnion-causal/src/lib.rs:223-265 | Kahn's loop, watched for a number of rounds on any graph, three outcomes told apart: no answer in any number of rounds exactly when `effects` has a cycle; otherwise an answer within two to the power of the known events, Ok with a topological order exactly when nothing is stale and the error exactly when something is |
| `KahnSpec.SortsExactlyWithoutStale` | crates/temnion-causal/src/lib.rs:223-265 | the length test answers Ok after some number of rounds if and only if no known event has a stale effect, and then the output is a topological order |
| `KahnSpec.StaleNeverOk` | crates/temnion-causal/src/lib.rs:223-265 | with a stale effect of a known event the output is too long whenever the queue empties, so no run answers Ok |
| `KahnEnds.EndsExactly` | crates/temnion-causal/src/lib.rs:223-265 | the loop comes to an end if and only if `effects` has no cycle |
| `KahnEnds.AcyclicEnds` | crates/temnion-causal/src/lib.rs:223-265 | without a cycle it ends within two to the power of the number of known events, since the number of effect walks from what is queued falls every round |
| `KahnEnds.CountsRise` | crates/temnion-causal/src/lib.rs:223-265 | in a loop that has ended, counts of outputs rise along effects, and a walk on which they stay equal is a walk of causes backwards |
| `CausalSort.ReRegistrationNeverEnds` | crates/temnion-causal/src/lib.rs:109-119 | after three accepted calls the loop's queue alternates between two events forever |
| `CausalSort.ForgottenCauseErrs` | crates/temnion-causal/src/lib.rs:258-264 | after three accepted calls the loop ends and answers the cycle error although `causes` has no cycle |
| `CausalSort.OnceRegisteredSorts` | crates/temnion-causal/src/lib.rs:223-265 | when each id is registered at most once the sort succeeds, for every run |
| `CausalCsr.ToCsr` | crates/temnion-causal/src/lib.rs:268-318 | all known events in order, and offsets that cut the index lists into their rows in both directions |
| `CausalCsr.CsrKeepsGraph` | crates/temnion-causal/src/lib.rs:335-351 | for every reachable graph the row read at a position names exactly the event's causes, or effects, in order |
| `Crc32.BuildTable` | clients/typescript/src/crc32.ts:7-16 | entry `i` of the table is `i` after eight bitwise steps |
| `Crc32.ShiftByte` | clients/typescript/src/crc32.ts:11-14 | the inner loop shifts one byte out bit by bit |
| `Crc32.TableStep` | clients/typescript/src/crc32.ts:20-22 | one table step equals eight bitwise steps |
| `Crc32.Checksum` | clients/typescript/src/crc32.ts:18-24 | the table-driven loop computes the bit-at-a-time CRC-32 (section 3.2.9 of IEEE 802.3) of every buffer |
| `Crc32.BurstDetected` | clients/typescript/src/crc32.ts:18-24 | buffers of equal length that differ only within four consecutive bytes have different checksums |
| `Crc32.GeneratorIs` | clients/typescript/src/crc32.ts:7-16 | the generator polynomial by its exponents, reversed |
| `Crc32.AllOnesByte` | clients/typescript/src/crc32.ts:18-24 | the register starts with ones and is complemented: the checksum of the byte 255 is 0xFF000000 |
| `TnpClient.Encode` | clients/typescript/src/protocol.ts:38-64 | the field-by-field writes into an allocated buffer produce the packet layout, or the error for an oversized payload or field |
| `TnpClient.RoundTrip` | clients/typescript/src/protocol.ts:66-107 | an encoded packet is decoded from the front of any longer buffer |
| `TnpClient.PayloadBurstRejected` | clients/typescript/src/protocol.ts:66-107 | changing payload bytes within a window of four makes `decode` report a checksum mismatch |
| `TnpChannel.DecodeWhole` | crates/temnion-protocol/src/lib.rs:186-243 | the server's decoder reads back every sendable packet and how much it consumed |
| `TnpChannel.DecodePart` | crates/temnion-protocol/src/lib.rs:186-243 | every proper prefix of an encoded packet is reported as incomplete, and as nothing else |
| `TnpChannel.Channel.Receive` | crates/temnion-protocol/src/lib.rs:804-837 | the `recv` loop over its buffer and its reads computes the specified outcome |
| `TnpChannel.RecvOne` | crates/temnion-protocol/src/lib.rs:804-837 | one `recv` returns the next packet or a timeout, and keeps every byte not yet returned |
| `TnpChannel.ReassemblyExact` | crates/temnion-protocol/src/lib.rs:804-837 | however the encodings are cut into reads, with timeouts anywhere, repeated `recv` returns exactly the packets in order |
| `TnpExact.FrameLayout` | crates/temnion-protocol/src/lib.rs:162-183 | a packet byte by byte: magic, little-endian fields, payload, checksum |
| `TnpExact.ServerExactly` | crates/temnion-protocol/src/lib.rs:186-243 | the server accepts a buffer if and only if it starts with the encoding of a packet of version 1, type 1 to 16 and at most 16 MiB, and returns that packet and length |
| `TnpExact.ServerRefusals` | crates/temnion-protocol/src/lib.rs:186-243 | which error every other buffer gets, in the order of the checks |
| `TnpExact.ServerRejectsDamage` | crates/temnion-protocol/src/lib.rs:186-243 | damage within four bytes is never accepted; in the payload it is a checksum mismatch, for the decoder and for `recv` |
| `TnpExact.RecvReports` | crates/temnion-protocol/src/lib.rs:804-837 | timeouts, failed reads and the end of the stream are reported as such and keep the buffer |
| `TnpExact.ClientExactly` | clients/typescript/src/protocol.ts:66-107 | the client accepts exactly the encodings of packets of version 1 and at most 16 MiB |
| `CodecFrame.VerifyFramed` | crates/temnion-codec/src/lib.rs:104-172 | a framed body passes verification and comes back unchanged |
| `CodecFrame.VerifyExactly` | crates/temnion-codec/src/lib.rs:104-172 | a frame is accepted if and only if it is a frame of this codec and length around that body, whatever its two flag bytes |
| `CodecFrame.FrameLayout` | crates/temnion-codec/src/lib.rs:104-131 | a frame byte by byte: magic, codec number, version, flags, length and the two checksums |
| `CodecRle.EncodeBody` | crates/temnion-codec/src/lib.rs:218-253 | the run-length body expands to the input, has exactly the size given by its runs and literals, and is at most one byte in 128 longer |
| `CodecRle.DecodeBody` | crates/temnion-codec/src/lib.rs:255-298 | the decoder's loop computes the expansion, with its length checks |
| `CodecRle.ExpandRun` | crates/temnion-codec/src/lib.rs:262-277 | a tag from 128 on repeats the next byte three times and more, or is refused when truncated or too long |
| `CodecRle.ExpandLiterals` | crates/temnion-codec/src/lib.rs:278-290 | a tag below 128 copies one byte more than its value, with the same refusals |
| `BitPacking.Pack` | crates/temnion-codec/src/lib.rs:341-357 | packing writes the bits of every word in order, within the bit buffer's width, into the expected number of bytes |
| `BitPacking.Unpack` | crates/temnion-codec/src/lib.rs:407-424 | unpacking cuts the bit string into words |
| `CodecLayout.BitOfBytes` | crates/temnion-codec/src/lib.rs:341-357 | packed bits go byte after byte, each from its least significant bit |
| `BitStream.BitWriter.WriteBits` | crates/temnion-codec/src/lib.rs:604-642 | the writer appends exactly the given low bits |
| `BitStream.BitWriter.Flush` | crates/temnion-codec/src/lib.rs:629-635 | pads to whole bytes and no further |
| `BitStream.BitReader.ReadBits` | crates/temnion-codec/src/lib.rs:645-678 | the reader returns the next bits, or fails exactly when too few are left |
| `CodecPack.BitPackEncode` | crates/temnion-codec/src/lib.rs:317-364 | every input below 4 GiB is encoded, and the body decodes to the input and has the size given by the highest word |
| `CodecPack.BitPackDecodeBody` | crates/temnion-codec/src/lib.rs:366-439 | the decoder's loops compute the specified decoding, errors included |
| `CodecPack.BitPackRestores` | crates/temnion-codec/src/lib.rs:317-439 | a body of width, count, packed words and left-over bytes decodes to the words and those bytes |
| `CodecLayout.BitPackOutcome` | crates/temnion-codec/src/lib.rs:366-439 | which bodies bit-packing refuses and how; any other decodes to the expected length |
| `CodecPack.ForEncode` | crates/temnion-codec/src/lib.rs:458-519 | frame-of-reference coding of every input below 4 GiB decodes to the input, in the size given by the distance from the lowest word to the highest |
| `CodecPack.ForDecodeBody` | crates/temnion-codec/src/lib.rs:521-591 | the decoder's loops compute the specified decoding, errors included |
| `CodecPack.ForRestores` | crates/temnion-codec/src/lib.rs:458-591 | a body of base, width, count, packed offsets and left-over bytes decodes to the rebased words and those bytes |
| `CodecLayout.ForOutcome` | crates/temnion-codec/src/lib.rs:521-591 | the same for frame-of-reference coding |
| `CodecXor.StreamReadsBack` | crates/temnion-codec/src/lib.rs:692-793 | the bit stream reads back if and only if no difference of neighbours has both end bits set |
| `CodecXor.LosslessExactly` | crates/temnion-codec/src/lib.rs:692-793 | the encoder's body decodes to the input under exactly that condition |
| `CodecXor.XorEncode` | crates/temnion-codec/src/lib.rs:692-734 | every input below 4 GiB is encoded, losslessly exactly when it is codable, in the size given by its bit stream |
| `CodecXor.XorDecodeBody` | crates/temnion-codec/src/lib.rs:736-793 | the decoder, with shifts wrapping as in a release build, computes the specified decoding |
| `CodecXor.LossExample` | crates/temnion-codec/src/lib.rs:711-725 | the words 0 and 0x8000000000000001: the stream never reads back, whatever follows it |
| `CodecLayout.DifferenceBits` | crates/temnion-codec/src/lib.rs:704-728 | a difference is a one, five bits of leading zeros, six bits of length and its significant bits |
| `CodecLayout.NoDifference` | crates/temnion-codec/src/lib.rs:704-728 | no difference is a single zero bit |
| `CodecLayout.LeadingCapped` | crates/temnion-codec/src/lib.rs:704-728 | leading zeros of the 64-bit difference, counted up to 31 |
| `CodecLayout.TrailingCapped` | crates/temnion-codec/src/lib.rs:704-728 | trailing zeros, counted up to 31 |
| `CodecLayout.XorBody` | crates/temnion-codec/src/lib.rs:692-734 | the body is the number of words, the first word, the stream and the bytes left over |
| `CodecScorer.Encode` | crates/temnion-codec/src/lib.rs:97-100 | each codec's framed output decodes to the input exactly when the codec is lossless on it, and has a size known from the input |
| `CodecScorer.EvaluateCandidate` | crates/temnion-codec/src/lib.rs:830-867 | a candidate is accepted exactly when it gives the data back |
| `CodecScorer.SelectBest` | crates/temnion-codec/src/lib.rs:870-901 | the choice is the first codec of lowest score among all lossless ones that make the data smaller, or Raw when there are none, with scores given by the input and the timings alone; it gives the data back, and fails exactly on inputs of 4 GiB and more |
| `Subscription.RunInv` | crates/temnion-protocol/src/lib.rs:1064-1194 | the protocol invariant holds after every interleaving of appends, length reads, registrations, scans of pages cut anywhere, sends, drains and removals |
| `Subscription.EveryRunDeliversProperly` | crates/temnion-protocol/src/lib.rs:1064-1194 | each subscriber receives sequences at most once, strictly increasing, snapshot before live, and only live records that satisfy the filter |
| `Subscription.GaplessExactly` | crates/temnion-protocol/src/lib.rs:1072-1085 | the live part has no gaps if and only if nothing matching fell between length read and registration and no offer met a full queue |
| `SubscriptionRuns.Joins` | crates/temnion-protocol/src/lib.rs:1072-1085 | a subscription announces the present end for new events only, and otherwise the asked sequence or the first, not beyond the end; nobody else is touched |
| `SubscriptionRuns.ReplaySends` | crates/temnion-protocol/src/lib.rs:1101-1141 | the replay puts exactly the snapshot rows on the wire, in order and not flagged live, nothing when the scan fails, and then the subscription is live |
| `SubscriptionRuns.Drains` | crates/temnion-protocol/src/lib.rs:1144-1152 | k drains put exactly the first k queued events on the wire, in order and flagged live, and change nothing else |
| `SubscriptionRuns.Queued` | crates/temnion-protocol/src/lib.rs:717-760 | while 1024 slots are not used up exactly the matching appended events are queued, in order |
| `SubscriptionRuns.FullQueueLoses` | crates/temnion-protocol/src/lib.rs:717-760 | a matching event that meets 1024 queued ones is lost |
| `SubscriptionRuns.AppendAllLog` | crates/temnion-protocol/src/lib.rs:717-760 | appended events get the next sequences in order |
| `SubscriptionRuns.SubscriberGets` | crates/temnion-protocol/src/lib.rs:1064-1194 | from any reachable state, an undisturbed subscriber gets exactly the matching events of its snapshot that the page holds, and exactly the matching events appended later |
| `SubscriptionRuns.LeaverGetsNothing` | crates/temnion-protocol/src/lib.rs:1155-1167 | after unsubscribing, whatever anyone does, no further event is queued or sent |
| `Subscription.ReplayExactly` | crates/temnion-protocol/src/lib.rs:1101-1141 | which events a snapshot replay sends: those that match, lie within the row limit counted from sequence 0 and within the page's reach, provided no filter error is on the page |
| `Subscription.FullReplayExactly` | crates/temnion-protocol/src/lib.rs:1101-1141 | the replay is complete if and only if everything matching lies within the snapshot's own size and the page's reach, and no filter error is met |
| `Subscription.ReplayFromLosesNewest` | crates/temnion-protocol/src/lib.rs:1101-1141 | replaying from a positive sequence loses the newest event, whatever the page's reach |
| `Frames.ReachesEndExactly` | crates/temnion-storage/src/lib.rs:817-890 | a page of whole frames reaches the end of the log if and only if the frames that are read fit the event and byte budgets together |
| `Frames.ReadPage` | crates/temnion-storage/src/lib.rs:817-890 | the loop over frames returns the first accepted events within reach, and refuses exactly when the first frame to be read breaks a budget by itself |
| `Frames.ReachesFromExactly` | crates/temnion-storage/src/lib.rs:844-859 | from any start, a position is reached if and only if the frames from the one that holds the start to the one that holds the position fit both budgets |
| `Frames.BytesEndPage` | crates/temnion-storage/src/lib.rs:844-859 | the byte budget alone can end a page |
| `Subscription.ScanPage` | crates/temnion-query/src/lib.rs:527-541 | the scan behind a replay is the page within reach, or the refusal of its first frame |
| `Subscription.ReplayFromStartExactly` | crates/temnion-protocol/src/lib.rs:1101-1141 | from sequence 0 the replay of a log whose events all match is complete if and only if its frames fit 65,536 events and 32 MiB |
| `SubscriptionHub.Hub.Register` | crates/temnion-protocol/src/lib.rs:698-705 | a fresh id and an empty queue of 1024 slots; other subscribers are untouched |
| `SubscriptionHub.Hub.Unregister` | crates/temnion-protocol/src/lib.rs:708-714 | removes exactly the subscriber and reports whether it was there |
| `SubscriptionHub.Hub.DispatchEvents` | crates/temnion-protocol/src/lib.rs:717-760 | every event is offered to every subscriber in order and those found disconnected are removed |
| `SubscriptionHub.DispatchIsAppends` | crates/temnion-protocol/src/lib.rs:717-760 | dispatching a committed batch leaves the subscribers as appending its events one at a time does |
| `EventLog.AppendKeepsOrder` | crates/temnion-events/src/lib.rs:164-232 | an accepted batch keeps ids contiguous and known times ordered on one clock |
| `EventPages.AdmittedExactly` | crates/temnion-events/src/lib.rs:164-232 | a batch is admitted if and only if it is non-empty, fits, and each input follows the one before on its clock; which error the others get, with its numbers |
| `EventLog.Log.Append` | crates/temnion-events/src/lib.rs:194-207 | one event is stored at the next sequence with its receipt, or nothing changes and the error is the first check that fails |
| `EventLog.Log.AppendBatch` | crates/temnion-events/src/lib.rs:209-232 | all or nothing: accepted exactly when it is non-empty, fits and is in known-time order, with the receipt or the error of the first check that fails |
| `EventLog.Log.History` | crates/temnion-events/src/lib.rs:246-325 | the scan loop returns the specified page, or the specified error for a bad budget, cursor or clock |
| `EventLog.PagesAreOneFilter` | crates/temnion-events/src/lib.rs:246-325 | for any positive budgets and any appends between calls, no call is refused, the pages together are one filtering of the original snapshot, and paging ends |
| `EventPages.PagedExactly` | crates/temnion-events/src/lib.rs:246-325 | finished pages hold the events at increasing positions of the snapshot, exactly those of the asked entity, known by the cut-off and with the asked time, by the events' own fields |
| `EventPages.CutOffIsPrefix` | crates/temnion-events/src/lib.rs:294-310 | with a cut-off alone the pages are a prefix of the snapshot |
| `EventPages.PageExactly` | crates/temnion-events/src/lib.rs:286-325 | a page ends early only when a budget is used up, and its cursor continues where it stopped |
| `EventPages.RefusedExactly` | crates/temnion-events/src/lib.rs:246-282 | which history calls are refused, and in which order the checks are made |
| `EventLog.ContinuationFits` | crates/temnion-events/src/lib.rs:246-325 | a returned cursor is accepted by every later state of the log |
| `EventLog.LaterPages` | crates/temnion-events/src/lib.rs:246-325 | from any accepted cursor, no later call is refused and the pages are one filtering of what is left of the snapshot |
| `EventLog.PageWithinBudget` | crates/temnion-events/src/lib.rs:286-313 | no page exceeds its result budget |
| `EventLog.KnownAsOfIsPrefix` | crates/temnion-events/src/lib.rs:294-310 | a known-as-of cut-off selects a prefix of the log |
| `Bloom.EntityBloomFilter.Insert` | crates/temnion-index/src/lib.rs:177-188 | exactly the entity's four bits are added |
| `Bloom.EntityBloomFilter.MayContain` | crates/temnion-index/src/lib.rs:190-204 | true if and only if all four bits are set, so an inserted entity is never missed |
| `Pruning.BlockSummary.constructor` | crates/temnion-index/src/lib.rs:233-258 | the summary of a block of one record |
| `Pruning.BlockSummary.Update` | crates/temnion-index/src/lib.rs:261-272 | the summary of a block extends to one more record |
| `Pruning.BlockSummary.MatchesFilter` | crates/temnion-index/src/lib.rs:275-313 | scanning is demanded exactly when the zones and the Bloom filter allow a match |
| `Pruning.SummaryCovers` | crates/temnion-index/src/lib.rs:261-272 | a summary's zones and bits cover every record of its block |
| `Pruning.SummaryTight` | crates/temnion-index/src/lib.rs:68-75 | the ends of the sequence range are sequences of records in the block |
| `Pruning.SequencesSafe` | crates/temnion-index/src/lib.rs:316-322 | a block that holds a sequence of the range is scanned for it |
| `Pruning.BlockSummary.MatchesSequenceRange` | crates/temnion-index/src/lib.rs:316-322 | a block is skipped exactly when all its records lie before the range or all after it, and then none lies in it |
| `Pruning.SequencesExactly` | crates/temnion-index/src/lib.rs:316-322 | the sequence test on a summary excludes a block if and only if all its records lie on one side of the range |
| `Pruning.SegmentCounts` | crates/temnion-index/src/lib.rs:357-381 | the segment's total is the number of records in its blocks |
| `Pruning.BlockSafeExactly` | crates/temnion-index/src/lib.rs:275-313 | no filter loses a record of the block if and only if no record is known before the summary's minimum |
| `Pruning.OneClockBlockSafe` | crates/temnion-index/src/lib.rs:275-313 | with one known clock no block that holds a match is skipped |
| `PruneExact.BlockSkippedExactly` | crates/temnion-index/src/lib.rs:275-313 | a block is skipped if and only if its records all miss the asked entity, the cut-off, or the range on the valid or known axis |
| `PruneExact.SchemasExactly` | crates/temnion-index/src/lib.rs:261-272 | the schema mask holds exactly the schemas below 64 that occur in the block |
| `Pruning.BuildSegment` | crates/temnion-index/src/lib.rs:340-394 | the loop over blocks builds the segment summary; no blocks is an error |
| `Pruning.SegmentSafeExactly` | crates/temnion-index/src/lib.rs:399-429 | no filter loses a record of the segment if and only if every record on the segment's clocks lies in its ranges and none is known earlier |
| `Pruning.OneClockSegmentSafe` | crates/temnion-index/src/lib.rs:399-429 | with one known clock and one valid clock in each block no segment that holds a match is skipped |
| `Pruning.MixedValidClocksLose` | crates/temnion-index/src/lib.rs:340-429 | a segment with two valid clocks in a block that skips a match |
| `PruneExact.SegmentSkippedExactly` | crates/temnion-index/src/lib.rs:399-429 | a segment is skipped if and only if its blocks' ranges all miss the asked entity, cut-off or range |
| `Morton.DecodeEncode` | crates/temnion-index/src/lib.rs:635-664 | decoding a 2D Morton code gives the coordinates back |
| `Morton.EncodeDecode` | crates/temnion-index/src/lib.rs:657-664 | encoding decoded coordinates gives the code back |
| `Morton.CodeInjective` | crates/temnion-index/src/lib.rs:657-659 | different chunks have different codes |
| `Morton.CodeDigits` | crates/temnion-index/src/lib.rs:635-659 | the binary digits of the two coordinates alternate in a code, which determines every code |
| `Morton.OriginCode` | crates/temnion-index/src/lib.rs:657-659 | the code of the origin is zero |
| `MortonIntervals.MergeConsecutive` | crates/temnion-index/src/lib.rs:815-835 | the merged intervals hold exactly the given codes, are ordered, and could not be merged further |
| `MortonIntervals.IntervalsOfBox` | crates/temnion-index/src/lib.rs:729-743 | a point is selected if and only if its chunk lies in the box's chunk rectangle |
| `MortonIntervals.BoxInRectangle` | crates/temnion-index/src/lib.rs:729-731 | every point of the box has its chunk in the rectangle |
| `Projection.IntersectSorted` | crates/temnion-index/src/lib.rs:1021-1037 | the merge loop returns only common elements, and of sorted lists exactly those, sorted |
| `Projection.ProjectionIndex.IndexEvent` | crates/temnion-index/src/lib.rs:1054-1073 | for sequences in any order all four projections keep agreeing with the posting lists of the indexed events |
| `Projection.ProjectionIndex.SequencesInRange` | crates/temnion-index/src/lib.rs:941-951 | sorted, exactly the sequences of events in the time span, and so the linear filter when sequences increase |
| `Projection.ProjectionIndex.SequencesInIntervals` | crates/temnion-index/src/lib.rs:974-984 | sorted, exactly the sequences of events in the Morton intervals, and so the linear filter when sequences increase |
| `Projection.ProjectionIndex.SequencesInBox` | crates/temnion-index/src/lib.rs:986-989 | sorted, exactly the sequences of events whose code is that of a chunk in the box's rectangle |
| `Projection.ProjectionIndex.QueryIntersect` | crates/temnion-index/src/lib.rs:1076-1129 | right for every query when events of one entity and of one schema came in sequence order; exactly the linear filter when sequences increase, except that a query without predicates selects nothing |
| `Projection.PostedIncreasingExactly` | crates/temnion-index/src/lib.rs:905-910 | a posting list is sorted and free of repetitions if and only if its events were indexed in sequence order |
| `Projection.AnswersExactly` | crates/temnion-index/src/lib.rs:1054-1129 | every query is answered with exactly the sequences that meet each of its predicates, sorted, if and only if events of one entity and of one schema were indexed in sequence order |
| `Projection.AnswerHolds` | crates/temnion-index/src/lib.rs:1076-1129 | an answer holds a sequence if and only if for each predicate some event of that sequence satisfies it, by the events' own fields |
| `Projection.AnswerSound` | crates/temnion-index/src/lib.rs:1054-1129 | in whatever order events were indexed, a sequence in an answer meets every predicate |
| `Projection.AnswerIsFilter` | crates/temnion-index/src/lib.rs:1054-1129 | with increasing sequences the answer is the linear filter's |
| `Projection.LateArrivalLost` | crates/temnion-index/src/lib.rs:1054-1129 | an event that is indexed after a later one of its entity is lost to a query on entity and time |
| `Projection.BoxExact` | crates/temnion-index/src/lib.rs:974-989 | a positioned event is accepted if and only if its chunk is in the rectangle, hence whenever it is inside the box |
| `FormatRecord.ParsePutRecord` | crates/temnion-format/src/lib.rs:468-591 | a written record is read back, whatever follows |
| `FormatRecord.PutParsedRecord` | crates/temnion-format/src/lib.rs:508-591 | whatever parses as a record is the encoding of that record, within the limits |
| `FormatCursor.WriteRecord` | crates/temnion-format/src/lib.rs:468-506 | appending field by field produces the record layout, or the error for a length that does not fit |
| `FormatCursor.ReadRecord` | crates/temnion-format/src/lib.rs:508-591 | reading at a cursor agrees with the parser and advances past the record |
| `FormatLayout.HeadLayout` | crates/temnion-format/src/lib.rs:468-495 | the fixed part of a record, field by field at its offset |
| `FormatLayout.TailLayout` | crates/temnion-format/src/lib.rs:495-506 | the observed time, the causes in order and the payload at their offsets |
| `FormatCursor.EncodeBatch` | crates/temnion-format/src/lib.rs:164-202 | the two loops compute the specified batch, or the first broken limit |
| `FormatCursor.DecodeBatch` | crates/temnion-format/src/lib.rs:241-272 | the cursor loop computes the specified decoding |
| `FormatBatch.DecodeEncoded` | crates/temnion-format/src/lib.rs:164-272 | an encoded batch decodes to its records |
| `FormatBatch.EncodeDecoded` | crates/temnion-format/src/lib.rs:204-272 | an accepted batch is the one encoding of its records under the same limits |
| `FormatBatch.PrefixIncomplete` | crates/temnion-format/src/lib.rs:204-248 | every proper prefix of a batch is incomplete, with the number of bytes needed |
| `FormatLayout.BatchLayout` | crates/temnion-format/src/lib.rs:164-202 | a batch by offsets: magic, version, flags, length, count, checksums, records |
| `FormatLayout.BodiesSnoc` | crates/temnion-format/src/lib.rs:188-190 | records follow each other in order |
| `FormatLayout.EncodableExactly` | crates/temnion-format/src/lib.rs:164-202 | a batch is encoded if and only if its number of records, every record and the whole are within the limits |
| `FormatSegment.DecodeEncoded` | crates/temnion-format/src/lib.rs:274-436 | an encoded segment decodes to its header and records |
| `FormatSegment.EncodeDecoded` | crates/temnion-format/src/lib.rs:334-436 | an accepted segment is the one encoding of its header and records under the same limits |
| `FormatSegment.PrefixIncomplete` | crates/temnion-format/src/lib.rs:334-370 | every proper prefix of a segment is incomplete |
| `FormatLayout.SegmentLayout` | crates/temnion-format/src/lib.rs:274-332 | a segment by offsets: header, batch and footer |
| `ExprLexer.Tokenize` | crates/temnion-query/src/lib.rs:1368-1482 | the tokenizer's loop computes the token list |
| `ExprLexer.LexShow` | crates/temnion-query/src/lib.rs:207-216 | the printed form lexes to the expression's tokens, whatever follows it |
| `ExprLexer.Printed` | crates/temnion-query/src/lib.rs:73-216 | how literals, fields, operators and NOT are printed |
| `ExprLexer.QuoteSpoils` | crates/temnion-query/src/lib.rs:1368-1482 | a string with an inner double quote lexes to a proper prefix, so the constants and names read are not those of the expression |
| `ExprSpelling.SpelledLexes` | crates/temnion-query/src/lib.rs:1368-1482 | every spelling of every token, words in any case, both quotes and all operator signs included, is read as that token |
| `ExprSpelling.LexedIsSpelled` | crates/temnion-query/src/lib.rs:1368-1482 | whatever the tokenizer accepts is made of blanks and such spellings |
| `ExprSpelling.DigitsMean` | crates/temnion-query/src/lib.rs:1437-1459 | integers are read as decimal numbers, most significant digit first |
| `ExprParser.ParseExpr` | crates/temnion-query/src/lib.rs:1339-1353 | the recursive descent over a mutable position computes the grammar's parse |
| `ExprParser.ParseOr` | crates/temnion-query/src/lib.rs:1484-1500 | the left-joining loop agrees with the grammar |
| `ExprParser.ParseAnd` | crates/temnion-query/src/lib.rs:1502-1518 | the left-joining loop agrees with the grammar |
| `ExprGrammar.ParsesExactly` | crates/temnion-query/src/lib.rs:1339-1592 | a text is parsed to an expression if and only if its tokens are a way of writing it: OR below AND below comparisons below NOT, chains to the left, comparisons unchained, more parentheses allowed |
| `ExprGrammar.Unambiguous` | crates/temnion-query/src/lib.rs:1484-1592 | no token list has two readings |
| `ExprGrammar.Precedence` | crates/temnion-query/src/lib.rs:1484-1592 | the six basic cases of precedence and grouping, written out |
| `ExprGrammar.BriefParses` | crates/temnion-query/src/lib.rs:1484-1592 | tokens with no more parentheses than needed parse back, for every expression |
| `ExprSpelling.SpelledParses` | crates/temnion-query/src/lib.rs:1339-1592 | every expression, in any spelling and with no more parentheses than needed, parses back |
| `ExprParser.ParseTokens` | crates/temnion-query/src/lib.rs:1484-1592 | the tokens of an expression parse to it from any position |
| `ExprParser.ParsedIsWritable` | crates/temnion-query/src/lib.rs:1368-1592 | whatever parses has only non-negative 64-bit integers and legal fields |
| `ExprParser.ParsedLeaves` | crates/temnion-query/src/lib.rs:1484-1592 | the constants and fields of a parsed expression are the constant and name tokens, in order |
| `ExprParser.RoundTripExactly` | crates/temnion-query/src/lib.rs:207-216 | without floats, the printed form parses back if and only if every integer and field can be written and no string contains a double quote |
| `ExprParser.QuoteBreaksRoundTrip` | crates/temnion-query/src/lib.rs:73-80 | no expression with a double quote in a string parses back from its printed form |
| `RawEntityMap.EncodeRawEntityMap` | crates/temnion-replay/src/lib.rs:533-545 | the encoded map decodes to the map, in whatever order entries are written |
| `RawEntityMap.DecodeRawEntityMap` | crates/temnion-replay/src/lib.rs:547-590 | the offset loop computes the decoding, truncation included |
| `RawEntityMap.EntryLayout` | crates/temnion-replay/src/lib.rs:533-545 | an entry by offsets |
| `RawEntityMap.OneEntry` | crates/temnion-replay/src/lib.rs:547-590 | the count comes first, in four little-endian bytes |
| `Replay.DeterministicRng.NextU64` | crates/temnion-replay/src/lib.rs:145-152 | the next state and number of SplitMix64, with its constants and shifts |
| `Replay.SnapshotReplays` | crates/temnion-replay/src/lib.rs:160-172 | a restored snapshot yields the same numbers again |
| `Replay.FindLatest` | crates/temnion-replay/src/lib.rs:344-366 | the directory scan finds the highest checkpoint up to the target, in any order |
| `Replay.ReplayEngine.ReconstructAtSequence` | crates/temnion-replay/src/lib.rs:621-696 | with faithful checkpoints the result is the fold from scratch up to where one page reaches: same state, sequence, times and generator; that is the target exactly when the frames from the first event wanted to the target fit 65,536 events and 64 MiB; refused exactly when the first of these frames breaks a budget alone; without a checkpoint up to the target the fold starts from the engine's present generator |
| `Replay.SecondFrameOutOfReach` | crates/temnion-replay/src/lib.rs:667-676 | with two frames of 40,000 events no target in the second is reached |
| `Replay.ShortSuffixOutOfReach` | crates/temnion-replay/src/lib.rs:667-676 | a suffix of two events is cut to one when its first event ends a frame of 40,000 |
| `Replay.SavedIsFaithful` | crates/temnion-replay/src/lib.rs:308-332 | saving a rebuilt state keeps all checkpoints faithful |
| `Replay.ReusedEngineDiffers` | crates/temnion-replay/src/lib.rs:643-664 | a reused engine without checkpoints rebuilds the same sequence with a different generator |
| `ReplayRaw.Save` | crates/temnion-replay/src/lib.rs:533-545 | a raw map saved as a checkpoint is faithful |
| `ReplayRaw.LatestWins` | crates/temnion-replay/src/lib.rs:521-531 | the raw fold maps each entity to its last change |
| `TaskGraph.HasCycle` | crates/temnion-runtime/src/lib.rs:419-455 | the detector answers exactly whether there is a cycle, repeated dependencies included |
| `TaskDag.RunAcyclic` | crates/temnion-runtime/src/lib.rs:320-395 | every reachable task graph is acyclic |
| `TaskDag.RunHonest` | crates/temnion-runtime/src/lib.rs:359-395 | starting only ready tasks and ending only running ones keeps the dependencies of started tasks completed |
| `TaskDag.HonestExactly` | crates/temnion-runtime/src/lib.rs:359-395 | where started tasks have completed dependencies, a step keeps that if and only if it takes no completed task from a started dependent and completes no task before its dependencies |
| `TaskDag.RunHonestExactly` | crates/temnion-runtime/src/lib.rs:320-395 | over every run from the empty graph: dependencies of started tasks are completed throughout if and only if every step keeps that |
| `TaskDag.TransitivelyDone` | crates/temnion-runtime/src/lib.rs:359-395 | wherever that holds, dependencies at any distance are completed |
| `TaskDag.Progress` | crates/temnion-runtime/src/lib.rs:398-417 | with a pending task and none running or failed, some task is ready |
| `TaskDag.EarlyCompletionBreaks` | crates/temnion-runtime/src/lib.rs:378-385 | a run that completes a task whose dependency is still pending |
| `TaskDag.RestartBreaks` | crates/temnion-runtime/src/lib.rs:359-376 | a run that starts a completed task again under a running dependent |
| `TaskDag.TaskDag.AddTask` | crates/temnion-runtime/src/lib.rs:320-353 | refused exactly for an unknown dependency, which is named, and then nothing changes; otherwise the task is entered as pending under the next id; the cycle check never refuses |
| `TaskDag.TaskDag.MarkRunning` | crates/temnion-runtime/src/lib.rs:359-376 | starts the task exactly when every dependency is completed, and changes nothing else |
| `TaskDag.TaskDag.MarkCompleted` | crates/temnion-runtime/src/lib.rs:378-385 | completes a known task and changes nothing else |
| `TaskDag.TaskDag.MarkFailed` | crates/temnion-runtime/src/lib.rs:387-394 | fails a known task and changes nothing else |
| `TaskDag.TaskDag.ReadyTasks` | crates/temnion-runtime/src/lib.rs:398-417 | exactly the pending tasks whose dependencies are all completed, higher class first, then the older task |
| `Tiering.TotalBytesInTier` | crates/temnion-runtime/src/lib.rs:623-629 | the sum of the sizes in the tier |
| `Tiering.LeastRecentlyUsed` | crates/temnion-runtime/src/lib.rs:634-640 | the least recently used segment of the tier, smaller id first between equals |
| `Tiering.Evict` | crates/temnion-runtime/src/lib.rs:633-648 | ends with the tier within capacity, having demoted only the oldest segments and no more than needed |
| `Tiering.EnforcedMeans` | crates/temnion-runtime/src/lib.rs:632-666 | nothing is lost, nothing rises, both tiers fit, and whatever stays was used more recently than whatever was demoted |
| `Tiering.AllBytesConserved` | crates/temnion-runtime/src/lib.rs:632-666 | the bytes of all tiers together are unchanged |
| `Tiering.RecentKeepsExactly` | crates/temnion-runtime/src/lib.rs:633-648 | the most recently used segment keeps its tier if and only if it fits by itself |
| `Tiering.TieredStorageManager.RegisterSegment` | crates/temnion-runtime/src/lib.rs:561-575 | the segment is entered, or replaced, as unused at the present step; capacities are not enforced |
| `Tiering.TieredStorageManager.EnforceCapacity` | crates/temnion-runtime/src/lib.rs:632-666 | the two loops in sequence |
| `Tiering.TieredStorageManager.RecordAccess` | crates/temnion-runtime/src/lib.rs:586-606 | the step always advances, a cold segment used twice becomes warm, capacities hold, and when the returned tier is still current |
| `Tiering.UsedTwice` | crates/temnion-runtime/src/lib.rs:586-606 | a new cold segment stays cold on its first use and is warm after the second if it fits there |
| `Tiering.TieredStorageManager.Migrate` | crates/temnion-runtime/src/lib.rs:609-620 | the segment is moved, then capacities hold |
| `TruthSpec.Symmetric` | crates/temnion-eks/src/lib.rs:484-511 | contradiction is symmetric |
| `TruthCases.OpposedExactly` | crates/temnion-eks/src/lib.rs:484-511 | the test is direct negation or one of the five pairs of words, written out |
| `TruthSpec.SelfOpposedExactly` | crates/temnion-eks/src/lib.rs:484-511 | a proposition opposes itself if and only if it contains both words of an antonym pair |
| `TruthSpec.InactiveOpposesItself` | crates/temnion-eks/src/lib.rs:494-508 | every proposition that contains "inactive" opposes itself |
| `TruthSpec.InferConsistent` | crates/temnion-eks/src/lib.rs:275-332 | inferring keeps active beliefs free of contradictions |
| `TruthCases.InferExactly` | crates/temnion-eks/src/lib.rs:275-332 | exactly the active beliefs whose texts clash with the new one become contradicted, and the new one with them |
| `TruthCases.TwoBeliefs` | crates/temnion-eks/src/lib.rs:275-332 | two beliefs in an empty system: both stand, or both are contradicted and the pair is recorded, exactly as their texts clash |
| `TruthSpec.RunConsistent` | crates/temnion-eks/src/lib.rs:275-423 | at every reachable state no two active beliefs contradict each other |
| `TruthMaintenance.TruthMaintenanceSystem.InferBelief` | crates/temnion-eks/src/lib.rs:275-332 | the loops compute the specified beliefs and record exactly the contradictions found |
| `TruthMaintenance.TruthMaintenanceSystem.RetractBelief` | crates/temnion-eks/src/lib.rs:403-423 | whenever the cascade ends at all, it retracts exactly what rests on the target, changes nothing else and keeps active beliefs consistent; an unknown target is reported |
| `TruthMaintenance.TruthMaintenanceSystem.Cascade` | crates/temnion-eks/src/lib.rs:403-423 | the recursion over dependents retracts exactly what rests on its belief |
| `TruthMaintenance.EndsExactly` | crates/temnion-eks/src/lib.rs:403-423 | the cascade from a target ends if and only if nothing that rests on the target rests on itself |
| `TruthMaintenance.EarlierEnds` | crates/temnion-eks/src/lib.rs:275-423 | when premises name earlier ids it ends from every target |
| `Provenance.ReturnsExactly` | crates/temnion-eks/src/lib.rs:426-464 | the recursion of `why` returns if and only if nothing the target rests on rests on itself |
| `Provenance.Why` | crates/temnion-eks/src/lib.rs:426-464 | whenever it returns at all: the tree of records, known premises in order and the contradictions of each belief; an unknown target is reported |
| `Provenance.WhyExactly` | crates/temnion-eks/src/lib.rs:426-464 | a provenance trace mentions a belief if and only if the target rests on it |
| `Provenance.OwnPremiseNeverEnds` | crates/temnion-eks/src/lib.rs:275-464 | after one accepted call neither `why` nor `retract_belief` ends on the new belief |

## Left out

- Storage files, segments on disk, sockets, threads, clocks, operating system randomness and allocation failure: the store is the sequence of its events, reads of a channel are a script of chunks, timeouts and failures, frames and segments are given by their number of events and bytes, and finding the one that holds a sequence is a scan.
- Error texts: errors keep their kind and the numbers they carry, not their wording.
- Integer overflow of counters and buffer lengths that would need more memory than a machine has (`usize` sums in the format, step and sequence counters); 32-bit and 64-bit wrap-around is modelled where the code computes with it (checksums, hashes, bit packing, XOR shifts, the generator).
- The iteration order of maps: loops over maps take keys in any order, so results proved here hold for the ordered maps of the code.
- Floating point: codec timings are arbitrary reals, and a float in an expression is its text, so floats are outside the printing round trip.
- Unicode tables: character classes, case mapping and trimming are parameters with the ASCII facts they need.
- The binary encoding of the CSR form, 3D Morton codes, checkpoint, summary and projection files, handshakes: fixed-offset layouts and index arithmetic that would add only easier members beside the format and the 2D case.
- SQL, TemQL and compact query texts, the planner and the executor: the subscription's pushdown filter is an arbitrary function with a match, no match or error verdict.
- Branches, evolution, flight, adapter, MCP, schema, transform and state crates, the C interface, command line, daemon, Studio and the Python client.
- CausalSort.TopologicalSort: the loop need not end, so it is watched for a number of rounds of the caller's choice and gives no answer when it has not ended by then.
- CausalGraph.CausalGraph.TopologicalSort: the same.
- TruthMaintenance.TruthMaintenanceSystem.RetractBelief: belief sets on which the recursion never ends are excluded; `TruthMaintenance.EndsExactly` says which those are.
- Provenance.Why: rules, evidence and assumptions of a justification are not in the trace, and belief sets on which the recursion never returns are excluded; `Provenance.ReturnsExactly` says which those are.
- Subscription.ScanPage: skipped frames are taken to hold no match; `Pruning.BlockSafeExactly` says when that is so.
- Replay.ReplayEngine.ReconstructAtSequence: after a reducer error the generator's state is not specified.
- Projection.ProjectionIndex.QueryIntersect: bounds must be ordered, because a range of an ordered map with its start after its end does not return.
- FormatSegment.DecodeEncoded: writing a segment into a zeroed buffer at offsets is modelled as the concatenation of its fields.
- ReplayRaw.Save: maps and payloads beyond 32-bit lengths, which the encoder truncates, are excluded.
