# AirFerry, verified

AirFerry moves a file one way, as a stream of QR frames, and rebuilds it on the other side from
whatever subset of the frames a camera catches. This Dafny project models the Rust core
(`core/transfer-engine`, `core/qr-protocol`, `core/raptorq-core`) and proves what that core
promises. `dafny verify dfyconfig.toml` checks all of it.

## What is modelled

**Wire formats.** `Crc32` (bitwise definition, table method) and `CrcPolynomials` (the remainder it
is), `Frames` (60-byte header, payload, two CRCs), `Descriptors` and `Utf8` (object layout, file
metadata, segment coordinates, filenames cut on character boundaries), `IngestStatus` (the 64-bit
status word). Buffers, cursors and loops are methods proved against byte-string functions; the
functions are proved inverse to each other. `WireOrder` says independently of them which byte means
what, and `FrameHeaders` what the header of every frame sent says.

**Codec boundary.** The RaptorQ solver is a parameter, `BlockCodecs.BlockCodec`: `encode`,
`sufficient`, `solve`, under the laws `Lawful` (more symbols never hurt, K are needed, genuine
symbols give the block back, symbols have the symbol size, the K source symbols suffice). A block
is opaque bytes: how the library lays its symbols out, in how many sub-blocks, is not fixed. A
small repetition code meets the laws, so they are consistent. The way the library cuts an object
into blocks is a parameter too (`Encoders.Layout`), under the promise `Partitions`; `Layouts` has a
greedy layout that keeps it. `Metadata` is the gate every layout passes before a decoder is built;
`Decoders` is the per-object decoder.

**Receiver.** `ReceiverStates` gives the session as a step function over classified frames: another
session's, a refused descriptor, an acceptable descriptor, data. `Receivers.ReceiverSession` is the
object with its fields, caches and loops; every method is proved to move the object exactly as the
step function says. `Gates` lists in numbers what a descriptor or checkpoint must satisfy, `Tallies`
which frames count as seen, duplicate or corrupt, `Unpackings` what a finished session answers.
`ReceiverInvariants`, `LateJoin`, `Gauges` and `CacheBound` are about whole runs. `Resumes` saves
and restores sessions, and `Origins` states what holds of a session however it began. The order in
which a hash map yields its keys is a parameter; the results hold for every order.

**Sender.** `SourcePlans` (round-robin source pass, repair ids up to the 24-bit limit of
section 3.2 of RFC 6330), `Encoders` (padding, symbol lookup), `Senders.SenderSession` (the object
with its cursors and cadence), `Emissions` (whole runs in closed form, exhaustion), `Rotations`
(which screen slots get descriptors), `Fairness` (how the emitted ids share out among blocks).

**Large transfers.** `Fnv`, `RootIds` and `SessionIds` (ids of transfers and of their segments),
`Segments`, `Splitters.NativeSender` (cutting a payload, selecting segments), `Announcements` (what
it announces), `Assemblers.TransferAssembler`, `Offerings` (its answers), `Wedges` (when a transfer
can still be completed), and `Names` (what names the segments announce). `KnownAnswers` has check
values of the hashes and the layout of what is hashed.

**Statistics.** `Windows.Stats`, a bounded queue refining a scan of everything ever pushed.

**End to end.** `EndToEnd` joins sender, wire and receiver; `Beginnings` does so for sessions that
start with a layout or from a checkpoint; `Acceptance` says which objects can be received at all;
`Transfers` joins all segments on one channel with the assembler; `Broadcasts` shows that every
sendable transfer can be recovered in finitely many frames; `Captures` and `Hosts` run the sender
and receiver objects against each other; `Witnesses` exhibits a session, and a transfer of two
segments, that meet every premise of these theorems.

`Words` (machine words, big-endian bytes, sums, division, greatest common divisors) and `Bits`
(bitwise operators on naturals) are shared tools.

## What the proofs turned up

- A receiver that joins late can miss a symbol an early one takes, for one of two reasons: more
  distinct keys arrive before the descriptor than the cache admits, or the cache keeps the first
  copy of a key and that copy later proves to have the wrong size. Within the cap nothing else is
  lost (`LateJoin.LosslessByFirstCopies`), and when all copies fit, nothing is lost exactly up to
  the cap (`LateJoin.LosslessExactlyWithinCap`). Joining late then ends like joining early if and
  only if the object is complete anyway or what was lost comes again (`LateJoin.LateJoinExactly`).
- `received_symbols` can drop when the descriptor is confirmed, exactly when a cached symbol does
  not fit, and in no other step (`Gauges.GaugeFallsExactly`). It passes `total_symbols` there
  exactly when more fitting symbols were cached than there are (`Gauges.OvershootsExactly`).
- The comment on the bootstrap cache speaks of a budget of about 32 MiB. That holds up to one
  symbol for one symbol size, and for sizes that never shrink (`CacheBound.GrowingSizesKeepBudget`).
  Shrinking sizes, all of which a QR code can carry, nearly double it
  (`CacheBound.MixedSizesPassTheBudget`), and what holds for any is a bound of the first entry plus
  19 budgets (`CacheBound.MixedBound`).
- The status word's streak is masked, not clamped as its comment says. It reads as the clamped
  streak exactly below 2^16 or when its low sixteen bits are all ones
  (`IngestStatus.StreakReadsClampedExactly`).
- The bounded sample queue gives the rates of the last 4096 pushes exactly while the clock has not
  gone back before the point its evicted samples fix (`Windows.QueueRefinesExactly`).
- A stored segment shorter than its canonical range is accepted and never replaced. A transfer can
  still be completed if and only if it fits in memory and every stored segment fills its range
  (`Wedges.CompletableExactly`), so the first offer accepted for a slot decides
  (`Wedges.AcceptedOfferDecides`). One byte offered for a file of two passes every gate and loses
  the transfer (`Wedges.ShortSegmentIsAccepted`).
- The filename a segment announces is cut to the room its own descriptor leaves, which depends on
  its number of source blocks. All segments can be sent under one name if and only if each can be
  sent and no character of the name ends between the rooms of two of them (`Names.OneNameExactly`),
  and exactly then the assembler gives the payload back (`Names.AssemblesExactlyUnderOneName`),
  because it refuses a name other than the first it saw. A 60-letter name at symbol size 256, for a
  payload one byte longer than a segment, is cut twice differently (`Witnesses.NamesDiverge`).
- The 128-bit offset basis in use is not the published one, although its comment calls it that: from
  the published offset the same steps give the published answer (`KnownAnswers.PublishedAnswerOfA`),
  from the one in use another (`KnownAnswers.AnswerOfA`). Ids are unaffected as long as all sides
  share it. The 64-bit hash is the published one (`KnownAnswers.PublishedAnswerOfA64`).
- FNV-1a over 128 bits tells any two inputs apart that differ within eight neighbouring bytes
  (`Fnv.WindowChangesId`). So child ids never clash, and files that differ only in size, only in
  time, or only in fingerprint never share a root id.
- A checkpoint taken once the layout is known carries no symbols: restoring it starts the object
  over (`Resumes.CheckpointStartsOver`).
- Descriptor interval 1 sends descriptors only (`Emissions.CadenceIsExact`: data frame `n` needs
  an `n` that the interval does not divide). Once the id space is spent no frame goes out any more,
  not even a descriptor, until the interval is changed.
- The sender does not check the receiver's byte budgets. A session can be received if and only if
  its descriptor passes the receiver's gates (`Acceptance.CanCompleteExactly`), and of these gates
  what a sender builds can fail only the 32 MiB ceiling, the block count, the library's
  transmission information and the file metadata (`Acceptance.PreparedAcceptedExactly`). A payload
  over the ceiling is sent without an error and never received
  (`Acceptance.OversizeIsNeverReceived`, `Witnesses.OversizedIsSentInVain`). The native sender cuts
  its payloads below it (`Acceptance.ChildAcceptedExactly`).
- One sender's frames are never counted corrupt, repeated and reordered as they may be, exactly as
  long as those before the first descriptor carry no more distinct keys than the cache admits
  (`Tallies.OwnFramesCorruptExactly`).
- A session that starts with a layout and completes before it hears a descriptor hands out the
  object as it came, with its padding and still compressed (`Beginnings.ResultFromAnywhere`,
  `Witnesses.PaddingIsHandedOut`). An uncompressed payload comes out right if and only if a
  descriptor was heard or no padding was needed (`Beginnings.HandsOutPayloadExactly`).
- With several codes on screen, a slot gets descriptors exactly when its number is a multiple of
  the greatest common divisor of interval and slot count, and only as long as ids last
  (`Rotations.SlotIsReachedExactly`, `Rotations.ShownExactly`).
- Building a descriptor forgets the two `*_known` flags: parsing always sets both.

## Model

| member | source | states |
|---|---|---|
| `Crc32.TableChecksum` | core/transfer-engine/tests/cffi_e2e.rs:179-197 | the table-driven loop computes the bitwise CRC-32, for every byte string |
| `Crc32.BurstChangesChecksum` | core/qr-protocol/src/frame.rs:238-242 | two strings of equal length that differ only inside four consecutive bytes have different checksums |
| `Crc32.TailAndChecksum` | core/qr-protocol/src/frame.rs:112-124 | damage that spans the end of a message and the checksum stored after it cannot cancel out |
| `CrcPolynomials.ChecksumIsRemainder` | core/transfer-engine/tests/cffi_e2e.rs:179-197 | a polynomial of degree below 32 is the complement of the checksum if and only if it is congruent, by the IEEE 802.3 generator, to the message with 32 ones added at its front and 32 zeros after it |
| `CrcPolynomials.OnesRegister` | core/transfer-engine/tests/cffi_e2e.rs:179-197 | the register starts as 32 ones |
| `Frames.ToBytes` | core/qr-protocol/src/frame.rs:112-189 | the growing buffer ends as header fields, payload and footer in wire order |
| `Frames.ParseFrame` | core/qr-protocol/src/frame.rs:126-235 | the cursor walk answers what the field-by-field reading does, with the errors in the same order |
| `WireOrder.FrameLayout` | core/qr-protocol/src/frame.rs:112-189 | a printed frame has magic, version, flags, and each field as the byte sum at its offset, the payload from byte 60 and the frame CRC in the last four bytes |
| `WireOrder.ParseExactly` | core/qr-protocol/src/frame.rs:126-235 | on exactly which bytes each error is answered, and that an accepted frame's fields are the byte sums at their offsets |
| `Frames.ParseOfWireBytes` | core/qr-protocol/src/frame.rs:112-168 | a frame survives printing and parsing if and only if its declared length and both CRCs are right |
| `Frames.WireBytesOfParse` | core/qr-protocol/src/frame.rs:126-168 | accepted bytes re-serialise to themselves |
| `Frames.BuiltFramesRoundTrip` | core/qr-protocol/src/frame.rs:74-110 | built frames parse back to themselves |
| `Frames.BurstIsCaught` | core/qr-protocol/src/frame.rs:126-168 | any change confined to four consecutive bytes, anywhere in an accepted frame, makes it unparseable |
| `Utf8.Truncate` | core/transfer-engine/src/descriptor.rs:172-178 | the longest prefix within the limit that is valid UTF-8 (section 3 of RFC 3629) |
| `Utf8.ValidPrefix` | core/transfer-engine/src/descriptor.rs:172-178 | a prefix of valid text is valid exactly when it ends on a character boundary |
| `Utf8.TruncateAgrees` | core/transfer-engine/src/descriptor.rs:172-178 | two limits cut a name alike exactly when no character ends between them |
| `Utf8.ValidExactly` | core/transfer-engine/src/descriptor.rs:172-178 | bytes are valid text if and only if they encode some sequence of Unicode scalar values |
| `Metadata.Validate` | core/raptorq-core/src/meta.rs:116-199 | the chain of early returns accepts exactly the layouts that meet the budget, block-table and transmission-information conditions (sections 3.3.2 and 3.3.3 of RFC 6330) |
| `Metadata.ScanBlocks` | core/raptorq-core/src/meta.rs:155-181 | the accumulating loop accepts exactly canonical block tables and totals their symbols and bytes |
| `Gates.ObjectPassesExactly` | core/raptorq-core/src/meta.rs:116-199 | the layouts let through, in numbers, with the transmission information read byte by byte |
| `Descriptors.BuildPayloadBuffer` | core/transfer-engine/src/descriptor.rs:154-247 | the moving-offset writer, with its shrinking filename loop, produces the specified payload or the size error |
| `Descriptors.ParseDescriptor` | core/transfer-engine/src/descriptor.rs:261-405 | the moving-offset reader answers what the version-gated specification does, on every input |
| `Descriptors.BuildSucceedsExactly` | core/transfer-engine/src/descriptor.rs:154-215 | building succeeds exactly when 50 + 16 per block (+ 104 for a segment) bytes fit the symbol, whatever the filename |
| `Descriptors.BuiltParsesBack` | core/transfer-engine/src/descriptor.rs:154-405 | parsing a built payload gives the same metadata, the filename as cut, and both known flags true |
| `Descriptors.ParseIgnoresSuffix` | core/transfer-engine/src/descriptor.rs:261-405 | bytes appended to a parseable payload do not change the parse |
| `WireOrder.DescriptorExactly` | core/transfer-engine/src/descriptor.rs:261-405 | reading succeeds on exactly the payloads with a known version and room for every part, and gives the byte sums at their offsets |
| `WireOrder.WrittenLayout` | core/transfer-engine/src/descriptor.rs:154-247 | what is written has every announced field at its offset, version 3 or 5, and zeros to the end of the symbol |
| `SessionIds.DeriveSegmentId` | core/qr-protocol/src/session.rs:50-63 | the byte-by-byte loop computes the hash of tag, root and index |
| `SessionIds.ChildIdsDistinct` | core/qr-protocol/src/session.rs:50-63 | for every root, distinct 32-bit indices have distinct child ids |
| `KnownAnswers.ChildMaterial` | core/qr-protocol/src/session.rs:50-63 | what is hashed is the text AirFerry.segment.v1, sixteen bytes of root and four of index, the most significant first, from the offset in use |
| `KnownAnswers.AnswerOfA` | core/qr-protocol/src/session.rs:26-35 | the hash of one letter from the offset in use |
| `KnownAnswers.AnswersOfText` | core/qr-protocol/src/session.rs:26-35 | both hashes of a one-letter text, 128 and 64 bits |
| `KnownAnswers.PublishedAnswerOfA` | core/qr-protocol/src/session.rs:26-35 | the published answer from the published offset, which is another |
| `RootIds.ContentFingerprint` | core/qr-protocol/src/session.rs:75-85 | the 64-bit hash loop over both ends of the file, in little-endian bytes |
| `RootIds.DeriveRootId` | core/qr-protocol/src/session.rs:23-41 | feeding name, size, time and fingerprint one after the other hashes the whole identity material |
| `KnownAnswers.RootMaterial` | core/qr-protocol/src/session.rs:23-41 | what is hashed is the name, size and time with the least significant byte first, and the fingerprint |
| `KnownAnswers.FingerprintMaterial` | core/qr-protocol/src/session.rs:75-85 | the fingerprint spells the 64-bit hash of the first and last 1024 bytes |
| `KnownAnswers.PublishedAnswerOfA64` | core/qr-protocol/src/session.rs:75-85 | the 64-bit hash gives the published answer |
| `Fnv.WindowChangesId` | core/qr-protocol/src/session.rs:23-63 | hashed material changed within eight neighbouring bytes always gives another id |
| `RootIds.SizesTellFilesApart` | core/qr-protocol/src/session.rs:23-41 | files that differ only in size never share an id, for all 64-bit sizes |
| `RootIds.TimesTellFilesApart` | core/qr-protocol/src/session.rs:23-41 | nor do files that differ only in modification time |
| `RootIds.FingerprintsTellFilesApart` | core/qr-protocol/src/session.rs:23-41 | nor do files that differ only in the content fingerprint |
| `BlockCodecs.RepetitionIsLawful` | core/raptorq-core/src/decoder.rs:88-99 | a concrete code meets every law asked of the erasure code |
| `Decoders.Decoder.AddSymbol` | core/raptorq-core/src/decoder.rs:65-98 | only the addressed block moves, only on fitting symbols, and a solved block stays as it is |
| `Decoders.Decoder.Assemble` | core/raptorq-core/src/decoder.rs:111-122 | the recovered blocks in order, cut to the transfer length, and nothing before all are there |
| `Receivers.ReceiverSession.NewPending` | core/transfer-engine/src/receiver.rs:137-200 | a session that buffers until a descriptor arrives |
| `Receivers.ReceiverSession.NewConfirmed` | core/transfer-engine/src/receiver.rs:124-180 | a session with an empty decoder for a valid layout, and an error for every other |
| `Receivers.ReceiverSession.Ingest` | core/transfer-engine/src/receiver.rs:236-428 | one call moves the object exactly as the step function moves its abstract state, and answers completeness or the mismatch |
| `Receivers.ReceiverSession.ParseGated` | core/transfer-engine/src/receiver.rs:244-300 | a descriptor is taken exactly when it parses and passes every gate |
| `Gates.ClassifyExactly` | core/transfer-engine/src/receiver.rs:236-300 | which frames are foreign, refused descriptors, taken descriptors or data, with every gate in numbers |
| `Gates.SegmentPassesExactly` | core/transfer-engine/src/segment.rs:65-118 | the segment coordinates let through, in numbers |
| `Receivers.ReceiverSession.IngestDescriptor` | core/transfer-engine/src/receiver.rs:301-335 | write-once metadata: equal descriptors change nothing, conflicting ones count as corrupt |
| `Receivers.ReceiverSession.BufferSymbol` | core/transfer-engine/src/receiver.rs:349-368 | the bootstrap cache keeps the first copy of a key, within the cap of the frame's own size |
| `Receivers.ReceiverSession.IngestSymbol` | core/transfer-engine/src/receiver.rs:369-428 | a confirmed session rejects bad coordinates, freezes when complete, ignores known ids, and otherwise takes the symbol into decoder, set and counters |
| `Tallies.StepCounts` | core/transfer-engine/src/receiver.rs:236-483 | each counter of each step: own frames are seen; data cached, received or recovered already is duplicate; refused descriptors, keys over the cap and misfits, cached ones included, are corrupt; only foreign frames make the mismatch streak |
| `Tallies.OwnFramesCorruptExactly` | core/transfer-engine/src/receiver.rs:340-428 | one sender's frames leave the corrupt count at zero if and only if those before the first descriptor carry no more distinct keys than the cap |
| `Receivers.ReceiverSession.ApplyMetadata` | core/transfer-engine/src/receiver.rs:432-483 | the layout is set and the cache replayed, in whatever order the map yields, with misfits counted as corrupt |
| `Receivers.ReceiverSession.DecodedCounts` | core/transfer-engine/src/receiver.rs:485-504 | the loop totals K of solved blocks, source symbols of the others, and solved blocks |
| `Receivers.ReceiverSession.Assemble` | core/transfer-engine/src/receiver.rs:535-625 | nothing until complete, then the recovered bytes cut to the announced size and unpacked, with each error case |
| `Unpackings.FileExactly` | core/transfer-engine/src/receiver.rs:535-625 | a complete session hands out exactly what decompressing the trimmed object under its tag and size cap gives, when the size is right |
| `Unpackings.HandsOutFileExactly` | core/transfer-engine/src/receiver.rs:535-625 | after the descriptor of carried content, a complete session hands out a file if and only if unpacking the sender's payload as announced gives it |
| `Unpackings.FailsExactly` | core/transfer-engine/src/receiver.rs:535-625 | and answers each error on exactly its condition |
| `Unpackings.FileComesBack` | core/transfer-engine/src/receiver.rs:535-625 | a decompressor that undoes the compressor gives the original file back |
| `ReceiverInvariants.RunKeepsInvariant` | core/transfer-engine/src/receiver.rs:236-504 | solver states, id sets, counters, cache and gauges agree in every reachable state |
| `ReceiverInvariants.DecodedIffSufficient` | core/transfer-engine/src/receiver.rs:402-428 | a block is solved exactly when the ids received for it suffice |
| `ReceiverInvariants.GaugesTellCompletion` | core/transfer-engine/src/progress.rs:218-220 | the progress record's completeness and decoded = total both mean that the decoder is complete |
| `ReceiverInvariants.ReceivedSymbolsBound` | core/raptorq-core/src/meta.rs:146-151 | the symbol count never passes 255 times 2^24, so 32 bits are enough |
| `ReceiverInvariants.FramesAreConserved` | core/transfer-engine/src/receiver.rs:247-478 | every frame seen is a duplicate, corrupt, a held symbol or a recognised descriptor, across the cache replay too |
| `ReceiverInvariants.RunIsLater` | core/transfer-engine/src/receiver.rs:304-401 | layout and file metadata are written once, completion and decoded symbols never go back, and a complete session is frozen |
| `LateJoin.OutcomeAfterDescriptor` | core/transfer-engine/src/receiver.rs:349-483 | the end of any run in closed form: solved blocks and gauges are those of the ids in hand |
| `LateJoin.LateJoinExactly` | core/transfer-engine/src/receiver.rs:349-483 | whatever follows, data before the descriptor ends like data after it if and only if the object is complete or later frames make good what the cache lost |
| `LateJoin.LateJoinExactlyAtOnce` | core/transfer-engine/src/receiver.rs:349-483 | at the descriptor itself the two ends agree if and only if the object is complete or nothing was lost |
| `LateJoin.OutcomeIgnoresOrderAndRepeats` | core/transfer-engine/src/receiver.rs:432-483 | order, repeats, position of the descriptor and hash-map order do not matter |
| `LateJoin.LosslessExactlyWithinCap` | core/transfer-engine/src/receiver.rs:46-64 | a backlog of fitting frames is kept whole if and only if it has no more distinct keys than the cap |
| `LateJoin.LosslessByFirstCopies` | core/transfer-engine/src/receiver.rs:349-368 | within the cap a backlog loses nothing if and only if the first copy of every delivered key fits |
| `LateJoin.WrongSizedFirstCopyIsLost` | core/transfer-engine/src/receiver.rs:349-367 | the input on which late joining does lose a symbol |
| `Gauges.GaugeAtConfirmation` | core/transfer-engine/src/receiver.rs:452-483 | the symbol gauge becomes the number of cached symbols that fit the layout, out of all cached |
| `Gauges.GaugeFallsExactly` | core/transfer-engine/src/receiver.rs:236-483 | the gauge falls in exactly the step that confirms a layout some cached symbol does not fit |
| `Gauges.OvershootsExactly` | core/transfer-engine/src/receiver.rs:452-483 | at confirmation it passes the total exactly when more fitting symbols were cached than the object has |
| `Gauges.ReceivedMayDrop` | core/transfer-engine/src/receiver.rs:452-483 | an input on which it falls |
| `Gauges.ReceivedMayOvershoot` | core/transfer-engine/src/receiver.rs:452-483 | an input on which it passes the total |
| `CacheBound.EntriesAreBudgeted` | core/transfer-engine/src/receiver.rs:46-64 | over any stream the cache holds at most 2^19 entries, and one entered when m were present has size times m below 2^25 |
| `CacheBound.UniformBound` | core/transfer-engine/src/receiver.rs:349-367 | with one size s the cache stays below 2^25 + s bytes |
| `CacheBound.MixedBound` | core/transfer-engine/src/receiver.rs:349-367 | with any sizes it stays below the first entry plus 19 times 2^25 bytes, by a harmonic sum over doublings |
| `CacheBound.GrowingSizesKeepBudget` | core/transfer-engine/src/receiver.rs:46-64 | when entering sizes never shrink the cache stays below the budget plus the last entry |
| `CacheBound.MixedSizesPassTheBudget` | core/transfer-engine/src/receiver.rs:46-64 | a stream of payloads a QR code can carry whose cache takes nearly twice the budget |
| `Resumes.ValidateResume` | core/transfer-engine/src/resume.rs:42-87 | the two loops accept exactly the checkpoints within the count, coordinate, size and byte limits |
| `Gates.CheckpointPassesExactly` | core/transfer-engine/src/resume.rs:42-87 | the checkpoints let through, in numbers |
| `Resumes.Restore` | core/transfer-engine/src/receiver.rs:678-705 | an invalid checkpoint is refused; a valid one gives the session that took in its stored symbols |
| `Resumes.SaveState` | core/transfer-engine/src/receiver.rs:651-670 | nothing before the layout is known, then exactly the cached symbols and their ids per block |
| `Resumes.RestoredInvariant` | core/transfer-engine/src/receiver.rs:678-705 | a restored session satisfies everything a live one does |
| `Origins.CountersAgree` | core/transfer-engine/src/receiver.rs:369-504 | in every run from every kind of start: the gauge is the cache size, then the number of distinct ids held, source counters count distinct source ids, the cache is gone once the layout is known |
| `Origins.ProgressAddsUp` | core/transfer-engine/src/receiver.rs:485-504 | decoded symbols add up K of each solved block and the distinct source symbols of the others, decoded blocks the solved ones |
| `Resumes.CheckpointStartsOver` | core/transfer-engine/src/receiver.rs:645-706 | a checkpoint of a known layout restores to the empty session for it |
| `IngestStatus.Pack` | core/transfer-engine/src/ingest_status.rs:39-54 | the successive ORs build the documented layout, within 64 bits |
| `IngestStatus.Unpacks` | core/transfer-engine/src/ingest_status.rs:15-19 | unpacking gives the flags, the count, and the streak modulo 2^16 |
| `IngestStatus.SentinelExactly` | core/transfer-engine/src/ingest_status.rs:31-34 | exactly which arguments read as the error sentinel |
| `IngestStatus.StatusIsNeverTheSentinel` | core/transfer-engine/src/ingest_status.rs:21-34 | no reachable session state produces it |
| `IngestStatus.StreakReadsClampedExactly` | core/transfer-engine/src/ingest_status.rs:47-49 | for exactly which streaks the field reads as the clamped streak |
| `IngestStatus.StreakWraps` | core/transfer-engine/src/ingest_status.rs:47-49 | 2^16 mismatches in a row read as none |
| `SourcePlans.BuildSourcePlan` | core/transfer-engine/src/sender.rs:345-366 | the nested loops list the rows of source ids in turn |
| `SourcePlans.PlanIsExact` | core/transfer-engine/src/sender.rs:345-366 | the plan holds exactly the source ids of all blocks, sorted by id then block, each once |
| `SourcePlans.RepairIdExactly` | core/transfer-engine/src/sender.rs:368-380 | repair symbol c is symbol K + c / n of block c mod n, while that id has 24 bits |
| `SourcePlans.SourcePassIsFair` | core/transfer-engine/src/sender.rs:335-366 | after any prefix no block is more than one symbol ahead of a block with symbols left, for unequal K |
| `Fairness.LeadingIdsAreFair` | core/transfer-engine/src/sender.rs:296-380 | among the first data ids, of any number the id space yields, no block has two source symbols more than one with some left, or two repair symbols more than another |
| `Fairness.EmissionIsFair` | core/transfer-engine/src/sender.rs:238-380 | so it is in what any run of any calls has emitted |
| `SourcePlans.RepairSupplyIsExact` | core/transfer-engine/src/sender.rs:374-380 | repair ids end exactly at n times (2^24 - Kmax) plus the index of the first largest block |
| `SourcePlans.DataSupplyIsExact` | core/transfer-engine/src/sender.rs:307-380 | every data index below the supply names a symbol, and the one at the supply does not |
| `SourcePlans.DataIdInRange` | core/transfer-engine/src/sender.rs:284-295 | every id names an existing block, is below 2^24, and is a source id exactly during the source pass |
| `SourcePlans.DataIdsDistinct` | core/transfer-engine/src/sender.rs:296-380 | two data indices never name the same symbol |
| `Encoders.PadToSymbols` | core/qr-protocol/src/chunker.rs:16-27 | the data followed by the zeros that complete its last symbol |
| `Encoders.PaddingIsTight` | core/qr-protocol/src/chunker.rs:11-27 | whole symbols, less than one symbol of padding, and cutting it off gives the data back |
| `Encoders.NewEncoderIsValid` | core/raptorq-core/src/encoder.rs:22-49 | construction fails exactly on empty data or a bad symbol size, and else publishes a layout that describes the data |
| `Encoders.SourceIdsFetch` | core/raptorq-core/src/encoder.rs:67-75 | a source symbol is handed out exactly for source ids of existing blocks |
| `Encoders.RepairIdsFetch` | core/raptorq-core/src/encoder.rs:77-102 | one repair symbol is handed out exactly while its id stays below 2^24 |
| `Senders.PreparedExactly` | core/transfer-engine/src/sender.rs:129-177 | construction succeeds exactly for a legal redundancy, data, symbol size and descriptor size |
| `Senders.PreparedIsValid` | core/transfer-engine/src/sender.rs:129-177 | and then transmits the padded payload |
| `Senders.SenderSession.New` | core/transfer-engine/src/sender.rs:93-100 | a plain session at its start, or the first failing check's error |
| `Senders.SenderSession.NewSegment` | core/transfer-engine/src/sender.rs:103-127 | a segment session at its start, refused unless its coordinates and length are valid |
| `Senders.SenderSession.SetDescriptorInterval` | core/transfer-engine/src/sender.rs:181-183 | intervals below one count as one; nothing else moves |
| `Senders.SenderSession.NextFrame` | core/transfer-engine/src/sender.rs:219-282 | descriptor or next data frame by the cadence, byte for byte; an exhausted id space moves nothing |
| `FrameHeaders.HeaderOfShot` | core/transfer-engine/src/sender.rs:219-282 | parsed again, every frame carries the session's id and sizes, its own number, the clock of its call, its flags and coordinates, and its symbol or descriptor |
| `FrameHeaders.FrameAtCall` | core/transfer-engine/src/sender.rs:238-282 | the frame of call n at a fixed interval is numbered n + 1 and stamped with that call's clock |
| `Senders.SenderSession.NextSymbolId` | core/transfer-engine/src/sender.rs:307-322 | the two cursors walk one data sequence without gaps |
| `Senders.SenderSession.FetchSymbol` | core/transfer-engine/src/sender.rs:284-295 | every id the session picks is fetched, never an error |
| `Senders.RepairCursorFits` | core/transfer-engine/src/sender.rs:307-322 | the 64-bit repair cursor cannot overflow before ids run out |
| `Emissions.DataFramesInOrder` | core/transfer-engine/src/sender.rs:238-322 | whatever the interval is set to on the way, data frames carry the ids 0, 1, 2, … of the data sequence |
| `Emissions.DataNeverRepeats` | core/transfer-engine/src/sender.rs:296-322 | no run of any calls sends a symbol twice |
| `Emissions.FailsExactlyWhenSpent` | core/transfer-engine/src/sender.rs:307-322 | a call fails exactly when data is due and the supply is spent, and then changes nothing |
| `Emissions.FixedIntervalRun` | core/transfer-engine/src/sender.rs:238-282 | where a session stands after any number of calls at a fixed interval |
| `Emissions.CadenceIsExact` | core/transfer-engine/src/sender.rs:238-282 | call n emits a descriptor exactly when the interval divides n, numbered n + 1, else the next data id, and errors exactly from the stopping call on |
| `Emissions.SourcePassIsWhole` | core/transfer-engine/src/sender.rs:296-313 | once as many data frames are out as there are source symbols, each source symbol is |
| `Emissions.SourcePassLength` | core/transfer-engine/src/sender.rs:238-282 | the number of calls after which the last source symbol is out |
| `Rotations.ShownExactly` | core/transfer-engine/src/sender.rs:238-282 | call n of a run at a fixed interval shows a descriptor in a slot exactly when the interval divides n, n is that slot modulo the slot count, and the id space is not spent |
| `Rotations.SlotIsReachedExactly` | core/transfer-engine/src/sender.rs:165-172 | in every period of calls before the session falls silent, a slot gets a descriptor if and only if its number is a multiple of the greatest common divisor of interval and slot count |
| `Rotations.SlotsRotate` | core/transfer-engine/src/sender.rs:165-172 | a coprime interval shows exactly one descriptor in each slot in every such period |
| `Rotations.RotationExactlyWhenCoprime` | core/transfer-engine/src/sender.rs:165-172 | every slot gets a descriptor in every such period of every run if and only if interval and slot count are coprime, or no whole period fits before the ids are spent |
| `Rotations.DefaultReachesEverySlot` | core/transfer-engine/src/sender.rs:642-671 | the default interval shows a descriptor in every slot of one, two and four codes within the first period of any run |
| `Rotations.OldIntervalSticks` | core/transfer-engine/src/sender.rs:165-172 | interval 16 never shows one in slot 1 of two or four codes |
| `Windows.Stats.PushSampleAt` | core/transfer-engine/src/progress.rs:115-124 | the two eviction loops leave the queue of the whole push history |
| `Windows.PushExactly` | core/transfer-engine/src/progress.rs:115-124 | what a push leaves: stale samples go from the front while more than two remain, then all but the last 4096 |
| `Windows.Stats.RecordSent` | core/transfer-engine/src/progress.rs:42-46 | a sent frame adds its bytes |
| `Windows.Stats.RecordReceived` | core/transfer-engine/src/progress.rs:48-58 | duplicates count as frames but bring no bytes |
| `Windows.Stats.WindowRates` | core/transfer-engine/src/progress.rs:129-151 | frames and bytes of the samples of the last three seconds, and the time from the first of them to the last; of the last 4096 pushes, and at most three seconds, unless the clock went back |
| `Windows.QueueRefinesExactly` | core/transfer-engine/src/progress.rs:115-151 | for any pushes and any clock, the bounded queue and the last 4096 pushes give the same rates if and only if the clock is past what the evicted samples settled |
| `Windows.QueueRefinesHistory` | core/transfer-engine/src/progress.rs:115-151 | in particular at any clock not before the last push |
| `Windows.ClockStepBackShows` | core/transfer-engine/src/progress.rs:115-151 | an input where the clock goes back and the rates differ |
| `Assemblers.TransferAssembler.New` | core/transfer-engine/src/assembler.rs:70-115 | slots for a consistent descriptor, or the first failing check's error |
| `Assemblers.TransferAssembler.AddSegment` | core/transfer-engine/src/assembler.rs:171-229 | one offer answers and moves the state as specified, checks in order |
| `Offerings.StartExactly` | core/transfer-engine/src/assembler.rs:70-115 | each error of starting on exactly its condition, and the empty assembly otherwise |
| `Offerings.AddExactly` | core/transfer-engine/src/assembler.rs:171-229 | each answer to an offer on exactly its condition, and the only change: a sound segment fills its empty slot |
| `Assemblers.TransferAssembler.Reassemble` | core/transfer-engine/src/assembler.rs:234-252 | the concatenation exactly when all slots are filled, the root fits in memory and the lengths add up |
| `Offerings.ReassembledExactly` | core/transfer-engine/src/assembler.rs:234-252 | exactly which bytes come out: all slots filled, at most 256 MiB, the segments in order, of the root's length |
| `Assemblers.AddKeeps` | core/transfer-engine/src/assembler.rs:171-229 | refused and repeated offers change nothing, filled slots are never rewritten, counts and digests stay in step |
| `Assemblers.RangesTile` | core/transfer-engine/src/assembler.rs:273-291 | the canonical lengths add up to the stream |
| `Assemblers.ReassemblySqueeze` | core/transfer-engine/src/assembler.rs:171-252 | bytes come out if and only if every slot holds a segment of exactly its canonical length and the root fits in memory |
| `Assemblers.SegmentsAtTheirOffsets` | core/transfer-engine/src/assembler.rs:234-291 | segment i then sits at i times the segment size |
| `Wedges.CompletableExactly` | core/transfer-engine/src/assembler.rs:171-252 | further offers can complete a transfer if and only if it fits in memory and every stored segment has its canonical length; then offers with canonical coordinates do |
| `Wedges.AcceptedOfferDecides` | core/transfer-engine/src/assembler.rs:199-229 | after an accepted offer the transfer stays completable if and only if its bytes have the canonical length |
| `Wedges.ShortSegmentWedges` | core/transfer-engine/src/assembler.rs:199-252 | after a short segment is stored no further offers complete the transfer |
| `Wedges.ShortSegmentIsAccepted` | core/transfer-engine/src/assembler.rs:199-229 | one byte offered for a file of two passes the descriptor's validation, is stored, and the transfer can no longer be completed |
| `Splitters.CutIsExact` | core/transfer-engine/src/cffi.rs:79-92 | the slices in order are the payload |
| `Splitters.SlicesAreCanonical` | core/transfer-engine/src/cffi.rs:79-92 | every slice is non-empty and of canonical length |
| `Splitters.SliceMetaIsValid` | core/transfer-engine/src/segment.rs:65-118 | every slice's metadata passes validation for its derived child session |
| `Splitters.PaddedSliceFits` | core/transfer-engine/src/segment.rs:24-31 | padded at any legal symbol size, a slice fits one object |
| `Splitters.SplitAssembleIdentity` | core/transfer-engine/src/cffi.rs:55-118 | slices offered in any order, with repeats and any first one, reassemble to the payload |
| `Splitters.SegmentsAreSendable` | core/transfer-engine/src/cffi.rs:55-118 | a segment's session fails exactly on the redundancy setting or a descriptor longer than a symbol |
| `Announcements.WholeIsAnnounced` | core/transfer-engine/src/cffi.rs:55-78 | a file of at most one segment goes out whole under the root id, with its name, size, checksum and no compression |
| `Announcements.SegmentIsAnnounced` | core/transfer-engine/src/cffi.rs:79-118 | segment i carries its 33488904 bytes under its child id, with its place, the file's size and checksum and both digests |
| `Splitters.NativeSender.New` | core/transfer-engine/src/cffi.rs:120-175 | size, symbol size and redundancy are checked first; then segment 0 of the transfer, under the root id of its name, size, time and content, is on screen, or its error is returned |
| `Splitters.NativeSender.Identify` | core/transfer-engine/src/cffi.rs:138-145 | the root id is that of the name, the size, the time and both ends of the payload |
| `Splitters.NativeSender.SelectSegment` | core/transfer-engine/src/cffi.rs:177-195 | a refused selection leaves everything, an accepted one starts that segment afresh |
| `EndToEnd.ShotIsHeard` | core/transfer-engine/src/sender.rs:238-282 | an emitted frame, printed and parsed, is classified as its descriptor or its data |
| `EndToEnd.DamageIsHarmless` | core/qr-protocol/src/frame.rs:126-168 | a frame damaged within four consecutive bytes cannot be taken for anything else |
| `EndToEnd.CompleteMeansPayload` | core/transfer-engine/src/receiver.rs:535-625 | whatever subset, order, repetition, damage and foreign traffic, a complete receiver unpacks the sender's payload |
| `EndToEnd.UncompressedSafety` | core/transfer-engine/src/receiver.rs:535-625 | without compression it answers the payload itself, or nothing yet |
| `Beginnings.ResultFromAnywhere` | core/transfer-engine/src/receiver.rs:535-625 | begun afresh, confirmed out of band or from a checkpoint of genuine symbols, a complete session answers the unpacked payload if it heard a descriptor, else the padded object |
| `Beginnings.HandsOutPayloadExactly` | core/transfer-engine/src/receiver.rs:535-625 | a complete session hands out an uncompressed payload itself if and only if it heard a descriptor or the payload needs no padding |
| `Beginnings.CompletesFromLayout` | core/transfer-engine/src/receiver.rs:678-705 | a session begun with a layout is complete if and only if the ids stored in its checkpoint and those that arrived suffice |
| `Witnesses.PaddingIsHandedOut` | core/transfer-engine/src/receiver.rs:535-625 | a confirmed session that completes on one symbol without a descriptor and answers the padded payload |
| `EndToEnd.LateJoinAssemblesAlike` | core/transfer-engine/src/receiver.rs:349-483 | with one sender's frames, data before or after the descriptor assembles to the same answer, if its distinct keys are within the cap or what was lost comes again |
| `EndToEnd.CompletesByHand` | core/transfer-engine/src/receiver.rs:349-483 | after a descriptor a receiver is complete if and only if the ids the cache kept and those heard later suffice for every block |
| `EndToEnd.CompletesExactly` | core/transfer-engine/src/receiver.rs:349-483 | with no more distinct early keys than the cap, if and only if the ids that arrived suffice |
| `EndToEnd.NeverCompleteWithoutDescriptor` | core/transfer-engine/src/receiver.rs:340-368 | without an acceptable descriptor it never is |
| `Acceptance.CanCompleteExactly` | core/transfer-engine/src/receiver.rs:250-300 | some harmless traffic completes a receiver if and only if the content's descriptor passes the gates |
| `Acceptance.AcceptedExactly` | core/raptorq-core/src/meta.rs:116-199 | for an encoder's own layout the gates come to the object ceiling, at most 255 blocks, consistent transmission information and the file metadata conditions |
| `Acceptance.PreparedAcceptedExactly` | core/transfer-engine/src/sender.rs:129-177 | for what a sender prepares they can be told from the padded length, the layout and the file metadata |
| `Acceptance.OversizeIsNeverReceived` | core/transfer-engine/src/sender.rs:93-177 | a payload over 32 MiB is prepared like any other and can never be received |
| `Acceptance.ChildAcceptedExactly` | core/transfer-engine/src/cffi.rs:55-118 | a segment the native sender cuts is accepted if and only if its layout has at most 255 blocks and consistent transmission information |
| `Witnesses.OversizedIsSentInVain` | core/transfer-engine/src/sender.rs:129-177 | a concrete payload one byte over the ceiling, prepared without error and never received |
| `EndToEnd.LosslessCaptureCompletes` | core/transfer-engine/src/sender.rs:219-322 | heard from its first frame, a session delivers the payload within its source pass, however the interval changes |
| `Witnesses.EndToEndHappens` | core/transfer-engine/src/cffi.rs:1204-1245 | a world, a content and a run that meet every premise of the end-to-end theorem, so that its conclusion is not empty |
| `Transfers.SiblingsAreHarmless` | core/qr-protocol/src/session.rs:42-63 | another segment's frames never reach a segment's receiver |
| `Transfers.HandoverIsSlice` | core/transfer-engine/src/receiver.rs:535-625 | a finished receiver hands over exactly its slice under its canonical coordinates |
| `Transfers.TransferIsRecovered` | core/transfer-engine/src/assembler.rs:1-27 | with all segments on one lossy channel, complete receivers and an assembler give back the payload in any order |
| `Names.OneNameExactly` | core/transfer-engine/src/descriptor.rs:160-178 | all segments can be sent under one name if and only if each can be sent and no character of the name ends between the rooms of any two |
| `Names.OtherNameNeverLands` | core/transfer-engine/src/assembler.rs:192-196 | a segment announced under another name than the first never lands |
| `Names.TwoNamesNeverAssemble` | core/transfer-engine/src/assembler.rs:171-252 | when two segments announce different names, no assembler started from either ever answers the file |
| `Names.AssemblesExactlyUnderOneName` | core/transfer-engine/src/assembler.rs:171-252 | the receivers' results assemble to the payload if and only if no character of the name ends between two rooms |
| `Witnesses.NamesDiverge` | core/transfer-engine/src/descriptor.rs:160-178 | a transfer every segment of which can be sent, but not under one name |
| `Broadcasts.ShowRecoversTransfer` | core/transfer-engine/src/cffi.rs:1204-1245 | every segment's source pass shown once, one after the other, completes a receiver for each, and their results in any order assemble to the payload |
| `Broadcasts.EveryTransferCanBeRecovered` | core/transfer-engine/src/cffi.rs:1204-1245 | for every transfer sendable under one name whose descriptors are accepted, calls exist that recover it |
| `Witnesses.TransferHappens` | core/transfer-engine/src/cffi.rs:1204-1245 | a world and a transfer of two segments that meet every premise of the transfer theorems, recovered |
| `Hosts.IngestBytes` | core/transfer-engine/src/cffi.rs:402-439 | bytes that do not parse leave the session and answer the sentinel; others move it one step and answer its status word, never the sentinel |
| `Hosts.StatusReads` | core/transfer-engine/src/ingest_status.rs:15-19 | the status word after a frame tells completion, whether a symbol was taken in, the mismatches in a row and the symbols held |
| `Hosts.NextBytes` | core/transfer-engine/src/cffi.rs:262-284 | too small a buffer changes nothing; else the wire bytes of the next frame, of exactly the size asked for, or nothing when the session fails |
| `Hosts.FrameFillsWire` | core/qr-protocol/src/frame.rs:64-70 | every frame of a session, descriptor or data, is exactly wire_size long |
| `Hosts.Loopback` | core/transfer-engine/src/cffi.rs:1204-1245 | the sender object and the receiver object face to face end with the payload |

## Left out

- The RaptorQ solver, its matrix arithmetic, its sub-blocks and its choice of block sizes: foreign code, taken as parameters with laws. A frame's first copy of an id is assumed to be the one the solver keeps.
- Compression libraries and streaming decompression to files: decompression is a parameter, and the end-to-end theorem for it is stated up to that parameter.
- QR rendering and scanning, the JNI, WASM and C wrappers beyond the two calls in `Hosts`, the Swift and web applications, scripts and builds.
- Wall clocks and floating-point rates: timestamps are inputs, and the rates stop at span, frames and bytes.
- JSON of checkpoints, logging, the texts of error messages, and the deprecated single-block metadata guess.
- 64-bit frame counters and the 32-bit mismatch streak are assumed not to wrap, and padded objects to be shorter than 2^64 bytes; allocation never fails.
- SHA-256 is a parameter.
- The statistics kept inside a sender session, the segment range listing of the assembler, and plain accessors: they would only add easy members.
- Errors of segment validation and of construction carry a kind, not a message.
