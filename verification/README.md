# Pulse wire-v2 client: codec, stream reader and sig-first pipeline

A Dafny model of the core of the Pulse Go client, with proofs of what it
guarantees. `dafny verify dfyconfig.toml` checks the whole project.

**The wire codec.** `Parsing` defines prefix parsers and the two laws that tie a
printer to a parser: what is printed is read back and any tail is left alone
(`Prints`), and whatever is accepted begins with the printing of its result
(`Reads`). `Transactions` gives the positional transaction body in that style and
derives round trip, canonicity, injectivity, locality and prefix-freedom.
`Layouts` describes the same body a second time, by offsets and written-out bytes,
and proves that parser and printer follow it. `Codec` holds the cursor object and
the loops of the decoder and the encoder, proved against both. `Tlvs` and `Frames`
add the type-length-value trailer and the msg_type/flags frame, `FrameLaws` the
frame round trip and forward compatibility.
`Datagrams` is the datagram codec, which writes into a caller's buffer.

**The stream reader.** `Streams` models a byte source that delivers arbitrary
chunks, `io.ReadFull`, `FullSub.Next` and the preamble check. Contracts speak of
the bytes still to come only, so chunking cannot matter. `StreamLaws` describes
every run on every byte stream.

**The sig-first pipeline.** `Gaps` is the watermark and gap counter with its exact
accounting. `SigPipeline` is a state machine whose atomic steps are the
producer's receive, first send, eviction, retry, store-error and close, and the
consumers' receive and give-up; a schedule is any sequence of them.
`SigPipelineLaws` proves its laws for every schedule. `SigFirst` is the
subscription object written as the code is, with arbitrary consumer calls between
any two channel operations, each operation proved to be steps of the machine.

**Derived fields.** `Derive` covers the static writable accounts and program ids.

Go's `[]byte` values are `seq<Byte>`, its 32- and 64-byte arrays are length-checked
sequences, `uint64` addition is taken modulo 2^64, and `uint16(v)` and `byte(v)`
conversions keep the low bits, as `LittleEndian` and `% 256` do.

Where the code and its comments differ, the model follows the code:

- `EncodeFullTx` is called the inverse of `DecodeFullTx` (frame.go:243-244). It is,
  exactly for transactions whose header counts and program indexes fit a byte and
  whose encoding is at most 64 KiB (`RoundTrip`; `RoundTripDiffers` gives one with
  a signature count of 256). The other way round, re-encoding gives an accepted body
  back exactly when its byte 11 is 0 or 1 (`ReencodingIff`; `ReencodingDiffers`
  gives one with a 2).
- A transport failure that is neither a clean end nor an application close is
  reported by the stream reader as a bad frame even when no byte of the next
  length prefix was read (pulse.go:820-832), although the comment there speaks of
  a partial prefix (`BadFrameIff` says exactly when a run ends so).
- An eviction need not take its item from a full queue (`EvictionBelowCapacity`
  gives a schedule). It does exactly when no consumer received between the push's
  full first try and its eviction (`EvictionAtCapacity`), and an item is evicted at
  all exactly when the first try was full and fewer than capacity receives came in
  between (`OnePush`).
- The gap counter counts lost numbers exactly when no number above the baseline was
  overtaken, before its first arrival, by an item or a heartbeat naming a number as
  large (`GapsNeverUnderReport`). The comment speaks of a later item arriving early;
  a heartbeat that overtakes an item is charged as well (`OvertakingHeartbeatIsCharged`).

## Model

| member | source | states |
|---|---|---|
| Bytes.TwoBytes | frame.go:214-220 | two bytes read as first + 256 * second, and a printed u16 is its low byte, then the next, of any number |
| Bytes.EightBytes | frame.go:222-228 | eight bytes read as the sum of byte i times 256^i, first byte lowest |
| Bytes.FourBytes | pulse.go:834 | four bytes of a length prefix read, and are printed, highest byte first |
| Parsing.CountGuardIsPure | frame.go:230-241 | refusing a count early, for any element with a minimum size, never changes what is accepted nor the result |
| Transactions.GuardsArePure | frame.go:97-161 | the guards 64, 32, 5 and 36 leave the accepted language and every result unchanged |
| Transactions.TxPrints | frame.go:64-190 | any fitting transaction, written with any raw version byte and followed by any tail, is read back with the tail untouched |
| Transactions.TxReads | frame.go:64-190 | whatever the body parser accepts is the printing of its result, up to byte 11, followed by the rest, and every decoded number fits its width |
| Transactions.CapImpliesFits | frame.go:40-44 | an encoding of at most 64 KiB truncated no u16 count or length |
| Transactions.PrefixRoundTrip | frame.go:59-63 | decoding an encoding followed by any tail within the cap yields the transaction and stops at the tail |
| Transactions.RoundTrip | frame.go:243-295 | a transaction survives encoding and decoding if and only if its header counts and program indexes fit a byte and its encoding is within the cap |
| Transactions.RoundTripDiffers | frame.go:260-263 | some transaction within the cap, with a signature count of 256, does not survive the round trip |
| Transactions.AcceptedPrefixes | frame.go:59-66 | the prefix decoder accepts exactly the printings of fitting transactions, followed by anything, under the cap |
| Transactions.Canonicity | frame.go:46-57 | re-encoding an accepted body gives it back with byte 11 normalised to 0 or 1 |
| Transactions.ReencodingIff | frame.go:243-244 | re-encoding an accepted body gives the same bytes if and only if its byte 11 is 0 or 1 |
| Transactions.ReencodingDiffers | frame.go:87-90 | some accepted body, with a 2 in byte 11, re-encodes to other bytes |
| Transactions.DecodingIsInjective | frame.go:46-57 | two bodies with the same decoding agree everywhere but in byte 11, and there on being zero |
| Transactions.Locality | frame.go:59-64 | the result depends on the consumed bytes alone, whatever tail within the cap follows them |
| Transactions.PrefixFreedom | frame.go:197-204 | no proper prefix of the consumed bytes is accepted |
| Transactions.NoBodyExtendsAnother | frame.go:46-57 | no accepted standalone body is a proper prefix of another |
| Layouts.DecodesIffLaidOut | frame.go:64-190 | the prefix decoder returns a transaction if and only if the input is within 64 KiB, every number fits its field, and each field's bytes stand at its offset in the input; the rest starts where the last field ends |
| Layouts.PrintedBody | frame.go:245-295 | the printed body of any transaction, truncated numbers included, stands at the front of the input if and only if each field's bytes stand at its offset |
| Layouts.AcceptedFront | frame.go:69-121 | in every accepted body: slot in bytes 0 to 7 low byte first, the three counts in 8, 9 and 10, versioned in 11, blockhash in 12 to 43, the signature count in 44 and 45, signature i at 46 + 64 i, then the key count and the keys |
| Layouts.AcceptedInstruction | frame.go:123-150 | instruction i of an accepted body, by offset: program index, length and bytes of the account indexes, length and bytes of the data |
| Layouts.AcceptedLookup | frame.go:152-187 | lookup i of an accepted body, by offset: table key, length and bytes of the writable indexes, then of the readonly ones |
| Codec.Decoder.Take | frame.go:197-204 | n bytes off the cursor or an error that leaves the cursor alone; a negative n is refused |
| Codec.Decoder.U8 | frame.go:206-212 | one byte, cursor advanced by one or not at all |
| Codec.Decoder.U16 | frame.go:214-220 | a u16 with its low byte first, written out by bytes; cursor advanced by two or not at all |
| Codec.Decoder.U64 | frame.go:222-228 | a u64 with its low byte first, written out by bytes; cursor advanced by eight or not at all |
| Codec.Decoder.Count | frame.go:230-241 | succeeds exactly when a count is there and count times the element minimum fits in what remains, before anything is allocated |
| Codec.DecodeFullTxPrefix | frame.go:64-190 | the guarded loops return a transaction if and only if it fits and its fields stand at their offsets within 64 KiB, together with the offset behind the body; every failure is the bad-frame error |
| Codec.DecodeFullTx | frame.go:46-57 | the same with the input ending exactly where the last field does |
| Codec.EncodeFullTx | frame.go:245-295 | the append loops write every field at its offset and nothing else, low bytes of what does not fit, byte 11 being 1 or 0 |
| Tlvs.TrailerBijection | frame.go:335-361 | a trailer parses to a list if and only if the list has distinct types and 16-bit lengths and serialises to that trailer |
| Tlvs.TrailerLength | frame.go:338-361 | an accepted trailer has at most 256 records |
| Tlvs.ParseTlvs | frame.go:338-361 | the parse loop with its duplicate scan accepts exactly those trailers, and terminates |
| Tlvs.PutTlv | frame.go:435-442 | appends one record: type, length low byte first, value |
| Frames.AddressesBijection | frame.go:363-380 | address lists and their flat byte form are in one-to-one correspondence |
| Frames.Flatten32 | frame.go:363-369 | the flat form of a list |
| Frames.Unflatten32 | frame.go:371-380 | the list of a flat form, refused when the length is not a multiple of 32 |
| Frames.FlattenAt | frame.go:363-369 | key i of a list is bytes 32 i to 32 i + 31 of its flat form |
| Frames.DecodeFrame | frame.go:444-531 | the decoder with its two trailer loops computes the frame's meaning, a function of flags, body and the set of records |
| Frames.EncodeFrameTx | frame.go:412-433 | the written frame: type, flag, body, and a record for each non-empty list |
| FrameLaws.EncodedFrame | frame.go:412-433 | the bytes of a written frame: 1, the flag bit, the body, then 1, a u16 length and the writable keys, then 2, a u16 length and the readonly keys, an empty list writing nothing |
| FrameLaws.FrameByType | frame.go:444-529 | a frame's first byte alone decides its kind: under two bytes is refused, and any type but 1 and 2 decodes to an unknown frame carrying that type, whatever follows |
| FrameLaws.TxFrameVerdict | frame.go:457-496 | the outcome for every frame made of a fitting body and whole records: refused for reserved flags, for more than the cap or for a repeated type, else decided by body and fields |
| FrameLaws.HeartbeatVerdict | frame.go:497-527 | the outcome for every heartbeat frame: all flag bits reserved, repeated types refused, no cap |
| FrameLaws.TxMeaning | frame.go:457-496 | a transaction frame decodes to a given flag and address lists if and only if its flags, size and distinct records say exactly that, an absent record standing for the empty list |
| FrameLaws.HeartbeatMeaning | frame.go:497-527 | a heartbeat frame decodes to two numbers if and only if its flags are zero and its distinct records give those numbers in eight bytes, an absent record standing for zero |
| FrameLaws.FrameRoundTrip | frame.go:412-433 | an encoded frame decodes to what was encoded if and only if the transaction's bytes fit and body plus trailer are within the cap |
| FrameLaws.TxTrailerOrder | frame.go:478-495 | reordering the records of a transaction frame's trailer leaves the outcome unchanged |
| FrameLaws.TxUnknownRecord | frame.go:335-337 | a record of a new unknown type may be inserted anywhere without effect, unless it exceeds the cap, when the frame is refused |
| FrameLaws.HeartbeatTrailerOrder | frame.go:506-527 | the same reordering for heartbeat frames |
| FrameLaws.HeartbeatUnknownRecord | frame.go:506-527 | the same insertion for heartbeat frames, with no cap |
| FrameLaws.RepeatedTypeIsRefused | frame.go:352-356 | a repeated type is refused whatever it is |
| Datagrams.SigFirstAccepted | frame.go:604-617 | a datagram decodes to a sig-first item if and only if it begins with that item's bytes |
| Datagrams.HeartbeatAccepted | frame.go:618-625 | a datagram decodes to a heartbeat if and only if it begins with that heartbeat's bytes |
| Datagrams.DatagramBytes | frame.go:604-625 | type 1 with 81 bytes and type 2 with 17 bytes always decode, their numbers low byte first at offsets 1 and 9, the signature at 17 |
| Datagrams.RefusalsAndTrailingBytes | frame.go:596-629 | only empty datagrams, type 1 under 81 bytes and type 2 under 17 are refused; any other type is kept with its number; trailing bytes never matter |
| Datagrams.EncodeDGSigFirst | frame.go:579-586 | writes the item's bytes over the whole buffer |
| Datagrams.EncodeDGHeartbeat | frame.go:588-594 | writes the heartbeat's bytes over the whole buffer |
| Streams.Source.ReadFull | pulse.go:817-819 | n bytes however they are chunked, or all there was with the reason it fell short |
| Streams.FullSub.Next | pulse.go:780-863 | result, unread bytes and stored heartbeat are those of one call on the bytes to come, independent of chunking |
| Streams.FullSub.Collect | pulse.go:774-784 | a caller's loop over Next until it fails performs one whole run |
| Streams.VerifyPreamble | pulse.go:749-772 | accepts exactly the six bytes PLS2, 2, 0, and names the error for each way the stream can be short |
| StreamLaws.NextByPrefix | pulse.go:834-861 | one call by the four prefix bytes, high byte first: over 196614 is refused with nothing more read, a short body gives the close or a bad frame, an unknown frame or heartbeat continues behind the record, a transaction or undecodable frame ends the call |
| StreamLaws.UnknownIsSkipped | pulse.go:851-853 | the record of a frame of any unassigned type, within the ceiling, leaves calls and whole runs as they are on what follows it |
| StreamLaws.RecordBytes | pulse.go:816-834 | a record is its length, high byte first, and the frame |
| StreamLaws.NextOverRecords | pulse.go:815-863 | one call skips unknown frames and heartbeats, returns the next transaction, stands just behind it, and stores the last heartbeat before it |
| StreamLaws.RunOverRecords | pulse.go:774-784 | over good records a run delivers exactly the transactions, in order, each with the last heartbeat before it |
| StreamLaws.ExpectedIndexes | pulse.go:851-861 | what a run delivers, by index: one entry for each frame carrying a transaction, in order, each with the heartbeat stored at that point |
| StreamLaws.LastHeartbeatIs | pulse.go:854-856 | the stored heartbeat holds the two numbers of the last heartbeat frame, or is unchanged when there was none |
| StreamLaws.EveryRun | pulse.go:815-863 | on every byte stream: good records at the front, then a truncation, an oversized prefix or an undecodable record that fixes the final error and what is left unread |
| StreamLaws.EofIff | pulse.go:829-831 | a run ends with EOF if and only if the source ends cleanly on a boundary of good records |
| StreamLaws.BadFrameIff | pulse.go:820-850 | a run ends with a bad frame if and only if good records are followed by an undecodable record, by a clean end inside a record, or by a transport failure anywhere, a record boundary included |
| StreamLaws.CloseIff | pulse.go:820-828 | a run ends with the peer's own close if and only if the peer closed on a boundary of good records, and with a close inside a frame if and only if it closed inside a record behind good ones |
| StreamLaws.TooLargeIff | pulse.go:834-837 | a run ends with a too-large error naming n if and only if n is over 196614 and good records are followed by a prefix of that number |
| StreamLaws.EndToEnd | pulse.go:774-784 | sendable transactions, encoded, framed and read back, arrive complete, unchanged and in order, and the run ends with the close's error, EOF or a bad frame as the source does |
| StreamLaws.Session | pulse.go:731-784 | preamble check and reading together: whatever sendable transactions the peer wrote behind the preamble, in whatever chunks, exactly those are returned, in order, followed by the source's end |
| Gaps.Watermark | pulse.go:565-571 | the watermark is set by the first informing observation and is always the largest number observed |
| Gaps.SentinelSaysNothing | pulse.go:600-603 | every item and every heartbeat but 2^64 - 1 sets the watermark at its number or above; the sentinel heartbeat changes nothing |
| Gaps.Conservation | pulse.go:572-617 | watermark minus baseline equals the gaps plus the items that raised the watermark, so the u64 counter cannot wrap |
| Gaps.GapsNeverWrap | pulse.go:575-580 | one more observation, even an item carrying the sentinel, never wraps or lowers the counter |
| Gaps.RaisersAreFirstRaises | pulse.go:580-583 | a number raised the watermark if and only if its first arrival did |
| Gaps.GapsAreExact | pulse.go:560-631 | the counter equals the numbers above the baseline that never arrived plus those that first arrived late; the two sets are disjoint |
| Gaps.LateMeansOvertaken | pulse.go:664-671 | in terms of the observations alone: a number is late if and only if it is above the baseline and an earlier item or heartbeat had named one as large |
| Gaps.MissingMeansSkipped | pulse.go:560-563 | in terms of the observations alone: a number is missing if and only if it is above the baseline, never arrived, and something observed is as large |
| Gaps.GapsNeverUnderReport | pulse.go:660-671 | the counter never under-reports the missing numbers, and equals them if and only if no number above the baseline was overtaken before its first arrival by an item or heartbeat naming one as large |
| Gaps.ReorderingIsCharged | pulse.go:664-671 | a lossless reordered sequence on which the counter is 1 |
| Gaps.OvertakingHeartbeatIsCharged | pulse.go:604-608 | a lossless sequence on which a heartbeat overtakes an item and the counter is 1 |
| SigPipeline.Invariant | pulse.go:509-558 | every state reachable by any schedule satisfies the queue, script and ending invariants |
| SigPipelineLaws.QueueSafety | pulse.go:540-558 | items sent are the items departed, in order, then the queue; consumers got the departures that were not evictions; sent = got + evicted + queued; only the item in mid-push is begun and not sent; the queue is within capacity |
| SigPipelineLaws.DeliveredInOrder | pulse.go:509-538 | what consumers received is a subsequence of the script's sig-first items |
| SigPipelineLaws.RetrySucceeds | pulse.go:544-556 | with one producer the retry always finds room: its last branch is never taken |
| SigPipelineLaws.OnePush | pulse.go:540-558 | under any interleaving a push evicts an item if and only if the queue was full at its first try and fewer than capacity receives came before its eviction step; never more than one |
| SigPipelineLaws.EvictionAtCapacity | pulse.go:541-550 | between a full first try and the eviction the queue is capacity less the receives so far, so the eviction finds it full if and only if there were none |
| SigPipelineLaws.EvictionBelowCapacity | pulse.go:547-551 | a schedule on which an item is evicted although a slot is free |
| SigPipelineLaws.StalledSurvivors | pulse.go:447-451 | with nobody receiving, the queue holds exactly the last capacity items and the rest are counted as dropped |
| SigPipelineLaws.ScheduleIsImmaterial | pulse.go:523-537 | gap counter and pushed items depend on the datagrams read alone, not on capacity, consumers or scheduling |
| SigPipelineLaws.ScriptMeaning | pulse.go:523-537 | what one more datagram adds, by its bytes: a heartbeat's bytes one observation of its highest number, an item's bytes one observation and that item, anything else nothing |
| SigPipelineLaws.DrainIsAFold | pulse.go:509-538 | a closed queue was sent exactly the script's sig-first items in arrival order; malformed, unknown and heartbeat datagrams push nothing |
| SigPipelineLaws.GapsOfAFinishedRun | pulse.go:509-538 | the counter of any finished run is the exact account of its datagrams |
| SigPipelineLaws.TrailingLoss | pulse.go:590-612 | a finished run whose last datagram is a heartbeat has counted every number from the watermark up to the one it names |
| SigPipelineLaws.TerminalOrder | pulse.go:674-690 | a call reports the end only after the stored error is set and every item has left the queue; the error is the close the peer sent, EOF for a clean end, the failure otherwise; later calls return nothing else |
| SigPipelineLaws.ConsumersLeaveTheProducerAlone | pulse.go:680-690 | a consumer call takes exactly the queue's head and records it, or reports the stored error of a closed empty queue, or moves nothing; the producer's state is untouched |
| SigFirst.SigFirstSub.NoteItemSeq | pulse.go:572-588 | updates watermark, flag and counter as one step of the tracker |
| SigFirst.SigFirstSub.NoteHeartbeatSeq | pulse.go:600-617 | likewise for a heartbeat, the sentinel changing nothing |
| SigFirst.SigFirstSub.RetrySend | pulse.go:552-556 | the second send always enqueues; its default branch is unreachable |
| SigFirst.SigFirstSub.Push | pulse.go:540-558 | with consumers interfering between its channel operations the item is always sent, at most one item is evicted and counted, and only after a full first try |
| SigFirst.SigFirstSub.Next | pulse.go:680-690 | returns the head, or the stored error once closed and empty, or the context's end with nothing moved |
| SigFirst.SigFirstSub.Drain | pulse.go:509-538 | ends closed with the close, EOF or failure stored as the source ended, all sig-first items sent in order and the counter equal to its fold, whatever the consumers do |
| Derive.StaticWritableAccounts | derive.go:54-74 | the keys at an increasing list of exactly these indexes: signers in front of the readonly signers and non-signers in front of the readonly non-signers, for all header counts |
| Derive.ProgramIDs | derive.go:34-52 | the invoked programs without repetition in order of first use, out-of-range indexes skipped |
| Derive.InvokedIndexes | derive.go:39-46 | the invoked programs by index: one key for each instruction whose program index is in range, in instruction order |
| Derive.ListingIsUnique | derive.go:34-52 | that description leaves exactly one answer |

## Left out

- Dialing, TLS, pinning and the other options: library plumbing. A positive queue capacity is taken from options.go:163-171 and 56-62.
- Control messages, acknowledgements and the one-subscription flag: JSON is not modelled, and the checks on their own are single branches.
- Deadlines and contexts: a context is the choice, at any moment, to end a waiting call.
- Error texts, wrapping and retry classes: errors are values; an application close is carried as it is.
- Blocking: a blocked read or receive is a step that is not yet possible; nothing is claimed about progress.
- Nil and empty slices are one value: an absent address list and an empty one are both the empty sequence.
- Aliasing of decoded slices with the input: decoded values are immutable sequences.
- Counter updates as steps of their own: an eviction and the count of it, and a datagram's receipt and its gap update, are one atomic step each here and two in the code, so a counter read between the two is not modelled.
- Handing an item straight to a waiting receiver is taken as a send followed by a receive, to which it is equivalent.
- FeePayer, the compute-budget fields, Heartbeat, Dropped, Gaps, Queued and QueueStats: one-branch facts.
- The code's one prefix-decoding function is split here by list and element, and the frame encoder's trailer is a method of its own; slices it fills by index are sequences appended to.
- The Go library's io.Reader and io.ReadFull are modelled from their documented behaviour; a source never delivers bytes after its end.
