# Verified models of TezEdge components

A Dafny project that models the parts of TezEdge whose correctness is hard to see from the code, and
proves what they promise, over all inputs, all runs and all interleavings. Nothing in it is executed;
`dafny verify dfyconfig.toml` checks everything.

**The single-producer single-consumer ring** (`tezos/spsc`). `SpscRing` reads the lap-and-index words
of `head` and `tail` as positions, down to the masks and wrapping sums. `SpscMachine` interleaves the
two ends one memory access at a time. An atomic word is the sequence of all stores to it, and a load
may return any store that the loading end has not seen superseded, so every proof survives stale loads.
`SpscTheorems`, `SpscOperations` and `SpscClosing` hold the results over all runs, `SpscQueue` the object with its buffer
updated in place.

**The schema-driven codec** (`tezos/encoding`, `tezos/encoding-derive`). `Schema` has the values, the
writer schemas and the representation that both derive macros start from; `Encoder` gives the bytes of
a value as a function and `BinaryWriter` the writer with its buffer and back-patched lengths;
`NomReader` is the generated reader; `BitUtils`, `Zarith` and `ZarithLoops` do the big numbers bit by
bit. `Shapes` says which representations are well formed, `RoundTrip` and `NormalForm` go from values
to bytes and back; `ReaderSteps`, `ParsedValues`, `Canonical` and `Acceptance` from bytes to values and
back. `ReaderErrors` says how the reader fails, `SchemaLaws` covers the encodings without a reader.

**The encrypted chunk channel** (`p2p_fuzzer`, `generator`, `crypto`). `Nonces` counts, `Chunks` cuts,
encrypts and frames, `ChunkBuffers` reassembles from a stream that delivers bytes in arbitrary
portions, `Channel` goes from message to message, `Sessions` through whole conversations in both
directions, and `PeerMessages` puts codec and channel together.
Encryption is any pair of functions with `open(seal(m, n), n) = m` and 16 bytes of overhead, digests are
any function. Draws of the random generator and portions of the network are arbitrary choices.

**The OCaml executor** (`tezos/interop`). `Executor` interleaves polls of futures with the executor
thread around the two mutexes of each task; `ExecutorTheorems` and `ExecutorWakeups` hold the results
over all schedules.

**The lazily loaded context tree** (`tezos/new_context`). `ContextTree` is the tree as a value, with
everything loaded, and what is found along a path; `ContextListing` enumerates it, `ContextKeys` has the
keys as text, `ContextDumps` the dumps. `LazyTree` has the nodes that remember their entry after the
first visit.

**Two arithmetic machines** (`crypto`). `ProofOfWork` and `SeededStep`.

`Basics`, `Words`, `Bytes`, `Utf8` and `Nom` are shared vocabulary.

## Where the code does not do what one would expect

The code is modelled as it is. Each point has lemmas that show it and say exactly when the expected
property holds.

- A slice longer than the ring can be accepted by `push_slice`: `SpscQueue.LongSliceAccepted`.
  `SpscQueue.SliceRefusal` says which ones are, and `SpscQueue.Queue.PushSlice` which of them panic and what
  the others leave in the queue.
- `len` of a closed ring is wrong at one extreme: `SpscRing.LenIsDistance`.
- A consumer's close can be overwritten by a push in flight (`SpscTheorems.ConsumerCloseCanBeLost`). It is
  kept exactly while no push stores after it (`SpscClosing.ConsumerCloseKeptIff`), and for good once a push
  has answered `Closed` (`SpscClosing.AnsweredClosedIsPermanent`).
- Answers can be stale: empty or full at a time when the queue is not (`SpscTheorems.EmptyCanBeStale`,
  `SpscTheorems.FullCanBeStale`). `SpscOperations.PopDecision` and `SpscOperations.FullMeansNoRoom` say what
  they mean for the words that were loaded.
- Once the encoded tail reaches the closed bit an open ring reads as closed: `SpscQueue.LooksClosedIff`.
- `mutez` reads what the writer writes only for amounts below 64: `ZarithLoops.BigNumberRoundTrip`.
- Text of 2^32 bytes or more is written with a truncated length, and bytes that are no text are written
  as they are: `RoundTrip.TextComesBackIff`. A variant
  written without the payload its tag has is read with bytes that follow: `ParsedValues.PayloadLeftOut`.
  In general `ParsedValues.UnchangedIff` says which accepted values come back.
- The writer does not always reproduce what the reader accepts: `Canonical.ReproducedIff` says on which
  bytes it does.
- A chunk of the maximal content length, which `write_bytes_encrypted` produces for long messages, is one
  byte longer than the receive buffer, and `read_chunk` then loops forever: `ChunkBuffers.FrontChunk`,
  `Channel.UnsplitDeliveredIff`. A first chunk shorter than the length field makes `read_msg` panic:
  `Channel.DeliveredIff`, `Channel.ShortFirstChunkPanics`. A message that does not parse is never
  answered at all: `Channel.UnparsedIsNeverReturned`.
- A future polled again after it has answered can wait forever (`ExecutorWakeups.PollAfterAnswerHangs`):
  exactly when that poll registers after the executor took the waker (`ExecutorWakeups.WokenIff`).
- A commit below a tree is enumerated through but not looked through (`ContextListing.CommitListsMore`);
  the two agree exactly when no blob lies under a commit (`ContextListing.EnumerationIsLookupIff`). A slash
  inside a key fragment is lost in enumerations: `ContextKeys.SlashInKeyIsLost`,
  `ContextKeys.PushedIsKeyValuesIff`.
- A dump with a depth limit can succeed where the full one fails: `ContextDumps.PrefixDumpOkIff`.
- The step generator leaves 32 bits at its three hundred and tenth call: `SeededStep.Step.Next`.

## Model

| member | source | states |
|---|---|---|
| `SpscRing.ClosedForm` | tezos/spsc/src/lib.rs:137-152 | The word of position p is (p / n) * mask_bit + p % n, and its slot is p % n |
| `SpscRing.WordFacts` | tezos/spsc/src/lib.rs:165-247 | On every word that stands for a position below the closed bit, closed or not, the masks give the slot, the word without the bit, and the bit |
| `SpscRing.NextIsSuccessor` | tezos/spsc/src/lib.rs:213-217 | Both branches of the advance give the word of the next position |
| `SpscRing.NextSliceIsSum` | tezos/spsc/src/lib.rs:267-273 | `next_tail` is the word of the position after the slice, for slices up to the capacity and every wrap position |
| `SpscRing.LapAhead` | tezos/spsc/src/lib.rs:203-203 | `head + mask_bit` is the word of the position one lap ahead, without wrapping |
| `SpscRing.LenIsDistance` | tezos/spsc/src/lib.rs:171-187 | `len` of the words of two positions is their distance while the bit is clear; with it only the extreme that `ClosedLen` names is wrong, for every capacity |
| `SpscMachine.RefusalMeaning` | tezos/spsc/src/lib.rs:203-275 | Both refusal tests, on possibly stale words, hold exactly when the elements do not fit behind the loaded head |
| `SpscMachine.WriteSlotIsFree` | tezos/spsc/src/lib.rs:206-292 | A slot that a push under way still has to write holds no unread element |
| `SpscMachine.SeesEmptyMeaning` | tezos/spsc/src/lib.rs:229-236 | The emptiness test on a possibly stale tail holds exactly when everything published by that store has been popped |
| `SpscMachine.StepKeepsInv` | tezos/spsc/src/lib.rs:165-297 | Every step of either end keeps the invariant on words, contents, views and closing |
| `SpscTheorems.QueueOrder` | tezos/spsc/src/lib.rs:197-251 | In every run the popped elements are a prefix of the pushed ones, at most n remain, and the live slots hold exactly the remainder |
| `SpscTheorems.SlotExclusion` | tezos/spsc/src/lib.rs:206-292 | In every run the slots a half-finished push writes differ from the slot a half-finished pop reads and from all unread slots; a pop reads an initialised slot |
| `SpscOperations.ReservationHolds` | tezos/spsc/src/lib.rs:193-293 | In every run, a slice of at most `available()` elements goes on to be written, whatever pops and stale loads come in between, unless the queue was closed |
| `SpscOperations.FullMeansNoRoom` | tezos/spsc/src/lib.rs:198-293 | In every run, the step that decides a push or slice goes on to write exactly its elements if and only if the loaded tail is open and they fit behind the loaded head; otherwise the operation is over and nothing else changes |
| `SpscOperations.AvailableExact` | tezos/spsc/src/lib.rs:171-195 | In every run, `available` on an open tail tells exactly the room behind the loaded head |
| `SpscOperations.PushAppends` | tezos/spsc/src/lib.rs:205-296 | In every run, a push or slice that went ahead has, when it is finished, appended exactly its elements |
| `SpscOperations.PopDecision` | tezos/spsc/src/lib.rs:225-240 | In every run, the step that decides a pop goes on with the oldest element left if and only if the loaded tail store published something not yet popped; otherwise it answers empty or closed as the loaded word says |
| `SpscOperations.PopTakes` | tezos/spsc/src/lib.rs:236-250 | In every run, a pop that found something has, when it is finished, taken and answered exactly that element |
| `SpscTheorems.ConsumerLenExact` | tezos/spsc/src/lib.rs:171-187 | `len` by the consumer is the length at its tail load; after the close, except at that extreme |
| `SpscTheorems.ProducerLenExact` | tezos/spsc/src/lib.rs:171-195 | `len` by the producer is the length at its head load; after a close, except at that extreme |
| `SpscTheorems.CloseDrains` | tezos/spsc/src/lib.rs:111-251 | Pop answers are the pushed elements in order; `Closed` is answered only after the producer is gone and all was popped, and nothing else follows it |
| `SpscTheorems.DrainAfterDrop` | tezos/spsc/src/lib.rs:111-251 | After the producer is dropped, pops that see its close deliver every remaining element in order and then only `Closed` |
| `SpscTheorems.DropThenDrain` | tezos/spsc/src/lib.rs:111-251 | The same from the state that any run has reached |
| `SpscTheorems.ConsumerCloseCanBeLost` | tezos/spsc/src/lib.rs:117-219 | A run, for every capacity, in which the consumer is dropped and a push in flight leaves the newest tail open |
| `SpscTheorems.EmptyCanBeStale` | tezos/spsc/src/lib.rs:225-234 | A run, for every capacity, in which a pop answers empty although an element has been pushed |
| `SpscTheorems.FullCanBeStale` | tezos/spsc/src/lib.rs:197-204 | A run in which a push is refused as full although the queue is empty |
| `SpscClosing.ConsumerCloseKeptIff` | tezos/spsc/src/lib.rs:117-219 | In every run and at every later time, the consumer's close is still there exactly when no push has stored since or the producer has closed too |
| `SpscClosing.LoadedCloseIsPermanent` | tezos/spsc/src/lib.rs:198-219 | Once a load of the producer has returned a closed word, whoever closed, no push stores again and the tail stays closed |
| `SpscClosing.AnsweredClosedIsPermanent` | tezos/spsc/src/lib.rs:198-203 | After a push has answered `Closed` the close is permanent, and every later push answers `Closed` |
| `SpscQueue.Queue.constructor` | tezos/spsc/src/lib.rs:137-152 | A new queue is open and empty |
| `SpscQueue.Queue.SetClosedBit` | tezos/spsc/src/lib.rs:165-169 | Closing keeps the contents |
| `SpscQueue.Queue.Len` | tezos/spsc/src/lib.rs:171-187 | The length; of a closed queue, except at that extreme |
| `SpscQueue.Queue.Push` | tezos/spsc/src/lib.rs:197-223 | Appends exactly when open and not full, otherwise nothing changes and the answer says why; the push that reaches the lap bound leaves a queue that reads as closed |
| `SpscQueue.Queue.Pop` | tezos/spsc/src/lib.rs:225-251 | Takes the oldest element exactly when there is one; otherwise says empty or closed |
| `SpscQueue.Queue.Drain` | tezos/spsc/src/lib.rs:123-130 | Dropping the queue pops every remaining element once, in order |
| `SpscQueue.Queue.PushEach` | tezos/spsc/src/lib.rs:197-223 | Single pushes take elements in order until there are no more, the ring is full or the lap bound is reached, and nothing when the queue is closed |
| `SpscQueue.Queue.PushSlice` | tezos/spsc/src/lib.rs:255-297 | Up to the capacity: full exactly when the room is too small and then unchanged, otherwise the same contents and word as single pushes, up to and at the lap bound. Beyond the capacity: the exact conditions for the refusal, for the panic, which leaves contents and tail as they were, and for the acceptance, which leaves the last elements of the slice in place of the contents |
| `SpscQueue.SliceRefusal` | tezos/spsc/src/lib.rs:267-276 | The refusal test on positions for slices of every length |
| `SpscQueue.LongSliceAccepted` | tezos/spsc/src/lib.rs:267-276 | An empty queue of any capacity accepts a slice of twice its capacity |
| `SpscQueue.LooksClosedIff` | tezos/spsc/src/lib.rs:201-204 | The word of an open queue reads as closed exactly from the closed bit on |
| `NormalForm.FindFirst` | tezos/encoding/src/binary_writer.rs:643-651 | The field found under a name is the first one with that name |
| `Schema.NewTagMap` | tezos/encoding/src/encoding.rs:77-98 | The loop fills both maps so that later tags replace earlier ones, and its debug assertion fails exactly for a repeated id |
| `Schema.TagFound` | tezos/encoding/src/encoding.rs:100-108 | With distinct ids and variants every tag is found by its id and by its variant |
| `Schema.LastTagWins` | tezos/encoding/src/encoding.rs:77-108 | Of tags with the same id or variant the last one is found |
| `Schema.VariantKnown` | tezos/encoding/src/encoding.rs:104-108 | Only variants of the list are found |
| `BitUtils.BitOperations` | tezos/encoding/src/bit_utils.rs:69-99 | At every place the masks and shifts of `get`, `set` and `take` test, replace and remove exactly the weight of that bit, and places beyond the byte are errors |
| `BitUtils.TrimLeft` | tezos/encoding/src/bit_utils.rs:146-159 | Trimming drops exactly the leading zeros, so the number stays |
| `BitUtils.Reverse` | tezos/encoding/src/bit_utils.rs:132-138 | The bits in opposite order: the number read from the other end |
| `ZarithLoops.PopBits` | tezos/encoding/src/binary_writer.rs:606-629 | Popping bits off the end splits the number at that place |
| `ZarithLoops.PackChunks` | tezos/encoding/src/binary_writer.rs:616-635 | The loop over seven-bit groups gives the groups of the number with continuation bits |
| `ZarithLoops.PackZ` | tezos/encoding/src/binary_writer.rs:598-640 | The bit loops give the packing of sign and magnitude from 64 on; below, a missing bit is an error and exactly from 32 on the index computation underflows |
| `ZarithLoops.EncodeZ` | tezos/encoding/src/binary_writer.rs:568-641 | The whole writer of big numbers against its arithmetic description, every text included, and which padded texts underflow |
| `ZarithLoops.HexTextParses` | tezos/encoding/src/ser.rs:447-455 | The text of every integer is parsed to its sign and magnitude |
| `ZarithLoops.HexOfMeaning` | tezos/encoding/src/ser.rs:447-455 | The text of every integer is a minus for negative ones and the lower-case hexadecimal digits of its magnitude without leading zeros |
| `ZarithLoops.ParseZMeaning` | tezos/encoding/src/binary_writer.rs:568-589 | The writer accepts exactly hexadecimal digits behind at most one ASCII character that is neither letter nor digit, as the number they stand for, negative exactly behind a minus |
| `ZarithLoops.HexDigitTable` | tezos/encoding/src/binary_writer.rs:584-589 | The digits are the sixteen characters, in lower or upper case |
| `Zarith.ZRoundTrip` | tezos/encoding/src/nom.rs:460-509 | Reading inverts the packing of every sign and magnitude and leaves the suffix alone |
| `Zarith.MutezOnZBytes` | tezos/encoding/src/nom.rs:511-537 | On the same bytes `mutez` gives 128 * (v / 64) + v % 64 plus the sign bit: the number exactly for 0 <= v < 64 |
| `Zarith.ZSize` | tezos/encoding/src/binary_writer.rs:590-640 | One byte below 64, otherwise one plus ceil((bits - 6) / 7) |
| `Zarith.ZCanonicalIff` | tezos/encoding/src/nom.rs:460-509 | Accepted bytes are the packing of the number exactly when they are not minus zero and do not end in an empty group |
| `Zarith.MutezCanonicalIff` | tezos/encoding/src/nom.rs:511-537 | Bytes that `mutez` accepts are the packing of the amount exactly when they are one byte below 64 |
| `ZarithLoops.BigNumberRoundTrip` | tezos/encoding/src/nom.rs:460-537 | For every integer: text, writer and reader invert each other, the size, and when `mutez` agrees |
| `ZarithLoops.ZarithReader` | tezos/encoding/src/nom.rs:460-509 | The bit-pushing loop, the padding and the reversal compute the reader's number, on every input |
| `ZarithLoops.MutezReader` | tezos/encoding/src/nom.rs:511-537 | The same for `mutez` |
| `BinaryWriter.Write` | tezos/encoding/src/binary_writer.rs:51-63 | The bytes returned are those of the pure encoder; an error exactly when it has one |
| `BinaryWriter.EncodeAny` | tezos/encoding/src/binary_writer.rs:65-77 | The old buffer is kept and exactly the returned number of bytes follows it, those of the pure encoder |
| `BinaryWriter.WriteRecord` | tezos/encoding/src/binary_writer.rs:79-111 | The same for records, field by field |
| `BinaryWriter.WriteTuple` | tezos/encoding/src/binary_writer.rs:113-137 | The same for tuples |
| `BinaryWriter.WriteList` | tezos/encoding/src/binary_writer.rs:282-322 | The same for lists |
| `BinaryWriter.WriteRawBytes` | tezos/encoding/src/binary_writer.rs:323-378 | The same for byte lists and hashes |
| `BinaryWriter.WriteOption` | tezos/encoding/src/binary_writer.rs:379-414 | The same for both kinds of options |
| `BinaryWriter.WriteDynamic` | tezos/encoding/src/binary_writer.rs:415-471 | A placeholder patched after the block is written gives the length and the block, with nothing before it touched, at any nesting |
| `BinaryWriter.WriteTag` | tezos/encoding/src/binary_writer.rs:497-566 | The id of the variant's tag and the payload |
| `BinaryWriter.WriteNumber` | tezos/encoding/src/binary_writer.rs:153-220 | Numbers in big-endian two's complement, `Int31` behind its mask test and `Uint32` behind its sign test |
| `BinaryWriter.MaskIsRangeTest` | tezos/encoding/src/binary_writer.rs:188-198 | The mask test of `Int31` on the 32-bit pattern lets exactly the numbers from 0 to 2^31 - 1 through |
| `BinaryWriter.WriteZ` | tezos/encoding/src/binary_writer.rs:239-242 | Big numbers as packed by `encode_z` |
| `BinaryWriter.EncodeBlock` | tezos/encoding/src/binary_writer.rs:415-496 | Length-prefixed, sized and bounded blocks with their size checks |
| `NomReader.Parse` | tezos/encoding-derive/src/nom.rs:26-45 | Whatever the reader accepts, the rest is a suffix of the input |
| `NomReader.ReadBoundedList` | tezos/encoding/src/nom.rs:341-371 | A bounded list is accepted only if nothing is left |
| `RoundTrip.RoundTrip` | tezos/encoding/src/binary_writer.rs:146-552 | For every well-formed representation, every accepted value and every suffix: the reader gives back the value in normal form and exactly the suffix (none after a greedy part) |
| `RoundTrip.EmptyInput` | tezos/encoding/src/nom.rs:328-371 | On no input every reader succeeds without reading or reports a recoverable error, so that lists end |
| `RoundTrip.TextRoundTrip` | tezos/encoding/src/nom.rs:287-302 | Every text of Unicode characters whose encoding is shorter than 2^32 bytes and within its bound comes back |
| `RoundTrip.LongTextIsLost` | tezos/encoding/src/binary_writer.rs:243-252 | Longer text, bounded or not, is written but does not come back |
| `RoundTrip.TextComesBackIff` | tezos/encoding/src/nom.rs:287-302 | A string that the writer accepts comes back exactly when it is the UTF-8 encoding of some text and shorter than 2^32 bytes |
| `Utf8.Utf8Iff` | tezos/encoding/src/nom.rs:287-302 | The test on bytes passes exactly the encodings (section 3 of RFC 3629) of sequences of Unicode scalar values |
| `Utf8.TextIsUnique` | tezos/encoding/src/nom.rs:287-302 | Different texts have different bytes |
| `ReaderErrors.UnknownTagInList` | tezos/encoding-derive/src/nom.rs:205-225 | Behind items that were written, an unknown tag is a failure of the whole list and does not end it |
| `ReaderErrors.BlockCutShortInList` | tezos/encoding/src/nom.rs:328-397 | Behind items that were written, a block that is cut short makes the whole list ask for more input |
| `ReaderErrors.NumberCutShortInList` | tezos/encoding/src/nom.rs:328-339 | A number that is cut short ends the list and stays unread |
| `ReaderErrors.BoundedListGoesOn` | tezos/encoding/src/nom.rs:341-372 | Behind items that were written, a bounded list that is not full ends as the next item says, and a full one looks no further |
| `ReaderErrors.RecordGoesOn` | tezos/encoding-derive/src/nom.rs:26-45 | Behind fields that were written, the next field that cannot be read decides for the record |
| `ReaderErrors.StructPassesOn` | tezos/encoding-derive/src/nom.rs:26-45 | And the record answers what its fields answer |
| `ReaderErrors.NoProgress` | tezos/encoding/src/nom.rs:328-372 | A list whose items can be read without using input is an error |
| `ReaderErrors.WhoCanFail` | tezos/encoding/src/nom.rs:249-537 | Only a representation with a block inside asks for more input and only one with variants inside gives an unrecoverable failure; every other one that cannot go on reports an error |
| `ReaderErrors.BlockIncompleteIff` | tezos/encoding/src/nom.rs:374-397 | A block asks for more input exactly when its size is there, allowed and larger than what is left |
| `ReaderErrors.BlockPassesOn` | tezos/encoding/src/nom.rs:374-397 | A failure inside a block that is all there is that of the block, a request for more input becomes an error |
| `SchemaLaws.TupleIsRecord` | tezos/encoding/src/binary_writer.rs:79-137 | A tuple is written like the record of its items under any distinct names, a short one being an error like a missing field |
| `SchemaLaws.OptionKinds` | tezos/encoding/src/binary_writer.rs:379-414 | The two kinds of options accept the same values and write the same payload behind different marker bytes |
| `SchemaLaws.GreedyIsContents` | tezos/encoding/src/binary_writer.rs:496-496 | A greedy block is its contents |
| `SchemaLaws.OrdinalIsByte` | tezos/encoding/src/binary_writer.rs:266-281 | An ordinal is written like a byte, and is an error from 256 on |
| `RoundTrip.VariantBytes` | tezos/encoding/src/binary_writer.rs:497-547 | An accepted variant is written as the id of its own tag and its payload |
| `NormalForm.NormalIff` | tezos/encoding/src/ser.rs:126-455 | The normal form of an accepted value is the value itself exactly when it looks as serialised |
| `ParsedValues.UnchangedIff` | tezos/encoding-derive/src/nom.rs:26-45 | Any accepted value comes back unchanged exactly when its fields, ordinals and numbers are as serialisation gives them and it fits its type |
| `ParsedValues.ParsedFits` | tezos/encoding-derive/src/nom.rs:26-45 | Every value that is read has numbers in range, text in UTF-8 and payloads where its variants have them |
| `ParsedValues.PayloadLeftOut` | tezos/encoding/src/binary_writer.rs:522-547 | A variant written without its payload is its id alone, and the reader takes the payload from what follows |
| `Canonical.WrittenBack` | tezos/encoding/src/nom.rs:249-426 | Without big numbers: if the writer accepts what the reader made of some bytes, it writes exactly the bytes that were read |
| `Canonical.ReproducedIff` | tezos/encoding/src/nom.rs:249-537 | For every well-formed representation and every input that is read: the writer accepts the value and writes exactly the bytes that were read if and only if every wide number in them has its top bit clear, every sized block is filled, every big number is canonical, every tez amount is one byte below 64 and every tag has one or two bytes |
| `ReaderSteps.DynamicRead` | tezos/encoding/src/nom.rs:374-396 | What a length-prefixed reader accepts is the prefix of a block that the inner reader uses up |
| `ReaderSteps.NumberRead` | tezos/encoding-derive/src/nom.rs:47-110 | Every number that is read is the one in the range of its Rust type with those big-endian bytes, in two's complement if negative |
| `Acceptance.ReadWriteRead` | tezos/encoding/src/nom.rs:249-426 | On the fragment without big numbers, `Int31`, `Uint32` and partly filled sized blocks, every value read is accepted and written back as the same bytes |
| `Acceptance.SizedAcceptedIff` | tezos/encoding/src/nom.rs:305-312 | A sized block is accepted again exactly when its contents filled it |
| `Acceptance.WideNumberAcceptedIff` | tezos/encoding/src/binary_writer.rs:188-209 | A number read as `Int31` or `Uint32` is accepted again exactly when its top bit is clear |
| `Nonces.GetBytesMeaning` | crypto/src/nonce.rs:55-88 | The 24-byte form exists exactly below 2^192 and is the value in big-endian order |
| `Nonces.NoncesNeverRepeat` | crypto/src/nonce.rs:34-88 | Different nonces have different bytes |
| `Nonces.NoncesMatchCrosswise` | crypto/src/nonce.rs:106-135 | What one role takes for its own nonce the other takes for its peer's, in both directions |
| `Nonces.StartingNonces` | crypto/src/nonce.rs:106-135 | For every digest and both roles, the 24 bytes of each starting nonce are the first 24 of the digest of initiator message, responder message and the direction in words |
| `Nonces.DirectionsDiffer` | crypto/src/nonce.rs:106-135 | Under a digest whose first 24 bytes tell different texts apart, the two directions start from different nonces, and so do conversations with different messages |
| `Chunks.DrawSizes` | generator/src/lib.rs:129-143 | Whatever is drawn, the sizes are positive, below the limit and add up |
| `Chunks.Shuffle` | generator/src/lib.rs:116-118 | Swapping gives a permutation |
| `Chunks.ShuffleKeeps` | generator/src/lib.rs:145-145 | A permutation keeps the sum and the bounds of the sizes |
| `Chunks.GenByteChunks` | generator/src/lib.rs:157-184 | For every draw and shuffle, non-empty pieces that concatenate to the bytes |
| `Chunks.GenChunks` | generator/src/lib.rs:120-155 | For every draw and shuffle, non-empty plain chunks within the limit that concatenate to the message, chunk i sealed with the start nonce plus i; the panic exactly for limit zero and more than one byte |
| `Chunks.SealEach` | p2p_fuzzer/src/bin/p2p_fuzzer.rs:236-245 | The loop seals and frames chunk by chunk and advances the nonce by one each |
| `Chunks.SealedIff` | crypto/src/crypto_box.rs:169-187 | Chunks within the limit are sealed exactly while the nonces stay within 2^192 |
| `Chunks.ChunkOnWire` | p2p_fuzzer/src/bin/p2p_fuzzer.rs:200-252 | Chunk i on the wire is a two-byte length and the chunk sealed under the big-endian bytes of the i-th nonce |
| `Chunks.DecryptEncrypt` | crypto/src/crypto_box.rs:169-187 | Decrypting with the nonce of the encryption gives the chunk back; encryption fails exactly from 2^192 on |
| `Chunks.SlicesPartition` | p2p_fuzzer/src/bin/p2p_fuzzer.rs:236-239 | The full-size cutting is a partition |
| `ChunkBuffers.Stream.Read` | p2p_fuzzer/src/bin/p2p_fuzzer.rs:154-154 | A read delivers some of the pending bytes in order, and none only at the end or into a full buffer |
| `ChunkBuffers.ChunkBuffer.Drop` | p2p_fuzzer/src/bin/p2p_fuzzer.rs:145-148 | The in-place shift loses nothing |
| `ChunkBuffers.ChunkBuffer.ReadChunk` | p2p_fuzzer/src/bin/p2p_fuzzer.rs:135-165 | The answer depends on the unread bytes only, not on how they were cut into reads; the bytes after the chunk are kept in order |
| `ChunkBuffers.FrontChunk` | p2p_fuzzer/src/bin/p2p_fuzzer.rs:135-165 | A framed content in front comes out exactly when it is shorter than the maximal content |
| `ChunkBuffers.StuckOnlyAtTheEnd` | p2p_fuzzer/src/bin/p2p_fuzzer.rs:139-154 | With at most 65534 bytes of content there is room in the buffer while the chunk is incomplete |
| `Channel.WriteBytes` | p2p_fuzzer/src/bin/p2p_fuzzer.rs:172-198 | However the bytes are split, exactly they are appended to the stream |
| `Channel.WriteBytesEncrypted` | p2p_fuzzer/src/bin/p2p_fuzzer.rs:200-252 | A partition of the message, sealed with consecutive nonces, is appended to the stream; nothing is, exactly when no chunk size can be drawn or the partition cannot be sealed |
| `Channel.ReadMsg` | p2p_fuzzer/src/bin/p2p_fuzzer.rs:270-308 | Result, unread bytes and nonce are a function of the unread bytes before, for every fragmentation, errors and panics included |
| `Channel.DeliveredIff` | p2p_fuzzer/src/bin/p2p_fuzzer.rs:270-308 | A message is returned, with the rest of the stream untouched and the reader's nonce at the sender's, exactly when its first chunk carries the length field and no chunk has the maximal length |
| `Channel.UnsplitDeliveredIff` | p2p_fuzzer/src/bin/p2p_fuzzer.rs:236-245 | Without splitting, a message is returned exactly when it is shorter than one full chunk |
| `Channel.HandshakeDeliveredIff` | p2p_fuzzer/src/bin/p2p_fuzzer.rs:284-306 | Without a length field the message is returned exactly when no chunk has the maximal length and no earlier part that ends with a chunk parses |
| `Channel.Interrupted` | p2p_fuzzer/src/bin/p2p_fuzzer.rs:270-308 | When only a part of a message arrives as sent, that part is taken in and the read ends as the bytes behind it say: a decryption error with the nonce of the chunk that does not open, the end of the stream, or the endless loop |
| `Channel.ReceiveFails` | p2p_fuzzer/src/bin/p2p_fuzzer.rs:270-308 | Whatever was read before and with or without a length field, a chunk that does not open ends the read with the nonce unchanged |
| `Channel.ShortFirstChunkPanics` | p2p_fuzzer/src/bin/p2p_fuzzer.rs:270-308 | A first chunk too short for the length field makes the reader panic |
| `Channel.UnparsedIsNeverReturned` | p2p_fuzzer/src/bin/p2p_fuzzer.rs:270-308 | A message that arrives whole and does not parse is never answered, however it was cut and whatever follows |
| `Channel.AllDelivered` | p2p_fuzzer/src/bin/p2p_fuzzer.rs:200-308 | Every sequence of deliverable messages comes out in order and both sides end with the same nonce |
| `Channel.NoncesAgreeAfterEach` | p2p_fuzzer/src/bin/p2p_fuzzer.rs:239-303 | After each message the reader's nonce is the sender's and the unread bytes are those of the messages that follow |
| `Sessions.SendAll` | p2p_fuzzer/src/bin/p2p_fuzzer.rs:200-268 | Messages written one after the other put their transmission on the stream, for every draw; all are written while there are chunk sizes to draw and nonces left, and otherwise the first one that is not is one that lacks them |
| `Sessions.ReceiveAll` | p2p_fuzzer/src/bin/p2p_fuzzer.rs:270-308 | Calls of `read_msg` in a row read what the unread bytes say, for every fragmentation |
| `Sessions.BothDirections` | crypto/src/nonce.rs:106-135 | Under the nonces both roles derive from the exchanged messages, deliverable sequences arrive in order in both directions with equal nonces at the end |
| `Sessions.Deliver` | p2p_fuzzer/src/bin/p2p_fuzzer.rs:200-308 | The writing and reading methods put together: for all draws and fragmentations, everything is written while there are chunk sizes to draw and nonces left, and arrives if it is deliverable; short messages that are not split always are |
| `Sessions.Converse` | crypto/src/nonce.rs:106-135 | A conversation in both directions, from the derived nonces on; it fails only if the digest is too short for nonces or one direction has no room to send |
| `PeerMessages.SerialisedMessage` | tezos/messages/src/p2p/binary_message.rs:46-64 | A serialised value of a length-prefixed representation says its own length and is parsed back |
| `PeerMessages.ValuesDelivered` | p2p_fuzzer/src/bin/p2p_fuzzer.rs:254-308 | Every sequence of accepted values arrives in order and in normal form, through codec, chunking, encryption and fragmentation |
| `Executor.PollKeeps` | tezos/interop/src/runtime.rs:65-77 | Every step of a poll keeps the agreement of locks, result and waker |
| `Executor.ExecKeeps` | tezos/interop/src/runtime.rs:107-147 | Every step of the executor on its task keeps it |
| `Executor.StepKeepsInv` | tezos/interop/src/runtime.rs:65-221 | Every step of any thread keeps the invariant |
| `ExecutorTheorems.ResultsAreSequential` | tezos/interop/src/runtime.rs:107-147 | Whatever the interleaving, each future answers at most once, with the outcome its job has when all jobs run one after the other in send order, a panic included |
| `ExecutorTheorems.NoLostWakeup` | tezos/interop/src/runtime.rs:65-147 | Once the iteration for a task is over, a future that has not answered has its result waiting, and the waker of its last pending poll has been woken |
| `ExecutorWakeups.PendingPollsAreWoken` | tezos/interop/src/runtime.rs:65-147 | A future whose callers stop polling after the answer has the waker of its last pending poll woken |
| `ExecutorWakeups.WokenIff` | tezos/interop/src/runtime.rs:65-147 | In every run, once the iteration for a task is over, its last poll, if pending, has been woken exactly when it registered before the executor took the waker |
| `ExecutorTheorems.QuietIsDone` | tezos/interop/src/runtime.rs:65-147 | No deadlock: when nothing can move, every poll has returned and every task sent is finished |
| `ExecutorTheorems.EveryScheduleEnds` | tezos/interop/src/runtime.rs:137-149 | Under every schedule the work under way ends within a bound known beforehand |
| `ExecutorTheorems.QuietMeansWoken` | tezos/interop/src/runtime.rs:65-147 | And then every future without an answer has its result and its wakeup |
| `ExecutorWakeups.LatePollNeverWoken` | tezos/interop/src/runtime.rs:65-77 | A poll after the answer and after the iteration finds nothing and is never woken |
| `ExecutorWakeups.PollAfterAnswerHangs` | tezos/interop/src/runtime.rs:65-77 | For every job, a run in which the future has answered, is polled again, returns pending and is not woken although nothing can move any more |
| `ExecutorWakeups.WakersAreTaken` | tezos/interop/src/runtime.rs:137-147 | In every run, no waker that is still registered has been woken, so each is woken at most once |
| `ContextTree.LookupFinds` | tezos/new_context/src/tezedge_context.rs:329-345 | A lookup gives the blob at the end of the path and nothing else |
| `ContextTree.RawTreeIs` | tezos/new_context/src/tezedge_context.rs:263-306 | The tree at a path is an error exactly when a commit or a missing entry blocks the way, and otherwise the edges of the tree there, none where the path leads nowhere or to a blob |
| `ContextListing.EnumerationIsLookup` | tezos/new_context/src/tezedge_context.rs:360-421 | While no blob below the prefix lies under a commit, enumeration lists exactly the pairs that lookup finds below the prefix |
| `ContextListing.EnumerationIsLookupIff` | tezos/new_context/src/tezedge_context.rs:360-421 | Enumeration and lookup agree on all pairs if and only if no blob below the prefix lies under a commit |
| `ContextListing.ListingFinds` | tezos/new_context/src/tezedge_context.rs:385-421 | The recursion lists exactly the blobs that can be reached, through commits or not |
| `ContextListing.EnumerationHasNoDuplicates` | tezos/new_context/src/tezedge_context.rs:360-421 | No key is listed twice, below commits either |
| `ContextListing.CommitListsMore` | tezos/new_context/src/tezedge_context.rs:416-419 | A commit inside a tree is listed through but not looked through |
| `ContextListing.KeyValuesCases` | tezos/new_context/src/tezedge_context.rs:360-421 | An enumeration is an error exactly when the way to the prefix is blocked, a child there is missing or a commit below has lost its root; otherwise it has no pairs exactly when no blob can be reached |
| `ContextKeys.KeyTextRoundTrip` | tezos/new_context/src/tezedge_context.rs:155-162 | Keys without slashes survive their text form |
| `ContextKeys.SlashInKeyIsLost` | tezos/new_context/src/tezedge_context.rs:155-162 | Keys with a slash do not |
| `ContextKeys.PushedIsKeyValues` | tezos/new_context/src/tezedge_context.rs:360-396 | In a tree without slashes the pairs pushed are the pairs of the tree |
| `ContextKeys.PushedIsKeyValuesIff` | tezos/new_context/src/tezedge_context.rs:360-396 | In every tree, the pairs pushed are the pairs of the tree if and only if no listed key has a slash in a fragment |
| `ContextDumps.PrefixDumpIsTruncation` | tezos/new_context/src/tezedge_context.rs:184-254 | The dump to a depth is every deeper dump that succeeds, the full one included, cut at that depth |
| `ContextDumps.PrefixDumpOkIff` | tezos/new_context/src/tezedge_context.rs:184-254 | A dump succeeds exactly when nothing blocks the way to the prefix, no entry down to its depth is missing and none above it is a commit |
| `ContextDumps.PrefixDumpShows` | tezos/new_context/src/tezedge_context.rs:184-254 | At every path and for every depth, a dump shows the entry of the tree at that path, and an empty object where the prefix leads nowhere |
| `ContextDumps.DumpIsLookup` | tezos/new_context/src/tezedge_context.rs:184-345 | The leaf at a path is the hexadecimal text of the value that a lookup finds there, and there is none where it finds nothing |
| `ContextDumps.HexDecodes` | tezos/new_context/src/tezedge_context.rs:220-254 | That text decodes to the value |
| `LazyTree.Index.GetEntry` | tezos/new_context/src/tezedge_context.rs:90-95 | An entry read from the store stands for what the store says, over new unloaded nodes |
| `LazyTree.Index.NodeEntry` | tezos/new_context/src/tezedge_context.rs:164-180 | The entry of a node stands for what the node stands for, remembered or loaded, and remembering keeps every node in agreement with the store |
| `LazyTree.Index.FindRawTree` | tezos/new_context/src/tezedge_context.rs:263-306 | However much is loaded, the answer is that of the fully loaded tree |
| `LazyTree.Index.GetFromTree` | tezos/new_context/src/tezedge_context.rs:329-345 | The same for lookups, error cases included |
| `LazyTree.Index.GetHistory` | tezos/new_context/src/tezedge_context.rs:314-327 | The value of a key in a commit is that of the store |
| `LazyTree.HistoryFinds` | tezos/new_context/src/tezedge_context.rs:314-345 | A commit has a value for a key exactly when its root is a tree and the blob is found there |
| `LazyTree.Index.KeyValuesBelow` | tezos/new_context/src/tezedge_context.rs:385-421 | The recursion pushes the pairs of the fully loaded subtree, in order |
| `LazyTree.Index.KeyValuesByPrefix` | tezos/new_context/src/tezedge_context.rs:360-382 | The enumeration is that of the fully loaded tree |
| `LazyTree.Index.DumpEntry` | tezos/new_context/src/tezedge_context.rs:220-254 | The recursive dump is that of the fully loaded tree |
| `LazyTree.Index.DumpByPrefix` | tezos/new_context/src/tezedge_context.rs:184-216 | The dump by prefix is that of the fully loaded tree |
| `ProofOfWork.MakeTargetIsPower` | crypto/src/proof_of_work.rs:136-150 | At every integral target t the bound is 2^(256 - t) - 1 |
| `ProofOfWork.CheckMeansLeadingZeros` | crypto/src/proof_of_work.rs:109-134 | The check asks for a digest number below 2^(256 - t) |
| `ProofOfWork.CheckOnBytes` | crypto/src/proof_of_work.rs:109-134 | For a 32-byte digest: its last t / 8 bytes are zero and the byte before them is below 2^(8 - t % 8) |
| `ProofOfWork.Increment` | crypto/src/proof_of_work.rs:80-104 | The three-limb carry adds one modulo 2^192 and leaves the key bytes alone |
| `ProofOfWork.Generate` | crypto/src/proof_of_work.rs:65-107 | Whenever some nonce qualifies the search ends, with the first qualifying nonce from the random start, and it passes the check |
| `SeededStep.Step.constructor` | crypto/src/seeded_step.rs:36-48 | The first state: step 1, ten calls to go, and the digest of sender, receiver and block hash as seed |
| `SeededStep.Step.Next` | crypto/src/seeded_step.rs:50-88 | Call k sees step 2^(k/10) and counter 9 - k % 10; the first ten results are 1, and from then on the step minus the result is congruent to the seed's signed number modulo half the step plus one, at most half a step and on its side of zero, and the seed is hashed; the doubling overflows exactly at call 309 |
| `SeededStep.GapMeaning` | crypto/src/seeded_step.rs:50-74 | Exactly one number has these properties, and it is the gap |
| `SeededStep.ResultBounds` | crypto/src/seeded_step.rs:50-88 | Every result is positive, within half a step of the step and in 32 bits |
| `SeededStep.LocatorGrowth` | crypto/src/seeded_step.rs:50-88 | The first 10 * j results add up to at least 10 * 2^(j-1) |

## Left out

- `Encoding::Float`, `RangedInt`, `RangedFloat` and `Custom`: floating point, unimplemented in the writer, or opaque code.
- Error messages, error locations and the fields skipped by the derive macros; sizes are unbounded numbers, so the overflow checks on `usize` sums in the writer are not modelled.
- The serde layer: the theorems start from the intermediate value; `NormalForm.Normal` says what serialising a Rust value gives.
- Greedy blocks, plain options, tuples and ordinal-only enums of the writer have no generated reader; they are covered by the writer refinement and by `SchemaLaws`.
- ZarithLoops.EncodeZ: a first character outside ASCII that is neither letter nor digit makes the original panic when it cuts the text; here it is an error like the other texts that are no number.
- BinaryWriter.WriteZ: reports the underflow that `ZarithLoops.EncodeZ` names as an error; the original panics there.
- RoundTrip.RoundTrip: asks that the value fits its representation, as Rust's types and serde guarantee; `ParsedValues.UnchangedIff` drops the condition and shows that it is necessary.
- Canonical.WrittenBack: no big numbers, whose reader accepts padded forms; `Canonical.ReproducedIff` covers them.
- Acceptance.ReadWriteRead: a fragment that can be told from the representation alone; `Canonical.ReproducedIff` is the condition on the bytes.
- SpscMachine.StepKeepsInv: slices longer than the capacity are not pushed in the interleaved model; `SpscQueue.Queue.PushSlice` treats them without interference.
- SpscTheorems.QueueOrder: holds while the encoded tail is below the closed bit, which is the real lap bound of the code (`SpscQueue.LooksClosedIff`); capacities are below 2^63.
- The order of element destructors and the memory of uninitialised slots of the ring are not modelled beyond "a slot holds an element or nothing".
- The executor is a state machine over values: the mutexes, wakers and channel are its fields, `wake` only records the waker, and mutex poisoning cannot arise because panics are caught. Shutdown of the runtime is not modelled.
- Timing, sleeps, socket errors, bit flips, incomplete sends and several messages per chunk in the fuzzer's channel.
- ChunkBuffers.Stream.Read: a peer that neither sends nor closes is not told apart from the end of its bytes.
- BitUtils.BitOperations: bytes only; the 16- and 32-bit instances of the same trait are not used by the codec.
- Digest and cipher internals; errors of the digest library.
- ContextListing.EnumerationIsLookupIff: speaks of enumerations that succeed, and `ContextListing.KeyValuesCases` says which do; keys are distinct in every tree, as they are in the original's maps.
- The fully loaded tree comes from a store whose entries refer to entries of smaller rank. `LazyTree.Index.DumpEntry` leaves out the path that the original builds and does not use.
- The working tree, the key-value stores, garbage collection, string interning and `RefCell` borrow errors of the context.
- Fractional proof-of-work targets: `make_target` then computes in floating point.
- The RPC fuzzer, the random message generators, the wrapper and its process pool, timing statistics, base58 and typed hashes, FFI conversions and build scripts: thin wrappers or easy loops around code that is not part of this model.
