# Verified model of the Klayr SDK's serialisation, pool and signing core

The project models, in Dafny, the parts of the Klayr SDK on which ids, signatures and consensus rest, and proves
what they promise. `dafny verify dfyconfig.toml` checks everything.

* **Codec** (`Varint`, `Schema`, `Codec`, `CodecLoops`, `CodecCache`, `RoundTrip`, `Decoding`, `Clashes`,
  `RoundTripExact`, `Injective`, `NoClipping`, `Canonical`, `CodecCases`, `WireFormat`, `Rejections`, `Trimming`). `Codec` is the encoder and decoder as functions over a
  compiled schema; `CodecLoops` holds the source's mutually recursive loops, proved against them. Transaction and block
  ids are hashes of these bytes, so both directions are settled: no two messages share an encoding, and it is said
  exactly which messages survive a round trip and exactly which accepted inputs are the encoding of their message. The
  decoder has a flag `strict`: without it, it is the code; with it, it adds the guards the code omits, and it serves as
  the condition under which accepted input is canonical.
* **Transaction pool** (`MinHeap`, `NonceList`, `TransactionList`, `PoolModel`, `PoolProtocol`,
  `Reorganization`, `PassProtocol`, `PoolOutcomes`, `PoolCases`, `TransactionPool`). `NonceList` and `PoolModel` are the state as values, with what every operation keeps;
  `TransactionList` and `TransactionPool` are the mutable classes, proved to go through those values; `PoolProtocol`
  interleaves check, commit, removal and promotion steps as the `await`s allow, proves safety of every run and says exactly
  which runs keep the lists ordered; `PassProtocol` refines it by reorganisation passes as the code makes them, open to
  interruption at every answer of the verifier; `PoolCases` are runs of that in which the pool's promises fail.
* **Klayr32 addresses** (`Regroup`, `Checksum`, `ErrorDetection`, `Klayr32`, `PublishedAddresses`).
* **Fees and signatures** (`Transactions`, `Fee`, `MultiSig`, `AggregationBits`).
* **Validator set updates** (`ValidatorsUpdate`, `UpdateCheck`, `UpdateMeaning`): the sender's diff, the receiver's check and patch.

Foreign code is a parameter: UTF-8 validity with NFC normalisation (`TextCheck`), public keys, signatures and the
hash of an id (`Scheme`), the BLS aggregate check, the transaction verifier, and the map from an id to the transaction
it hashes (`content`, which says that no two transactions share an id). An address in the pool stands for the hash of the
sender's public key. The pool's transaction size is at least one byte.

## Where the code falls short of its own words

* The fuzz script (elements/codec/fuzz/round_trip.js:106-118) expects every accepted input to re-encode to itself.
  The reader of arrays never looks at the wire type, so transaction bytes whose first signature key is 0x38 instead
  of 0x3a are accepted as a second encoding (`WrongWireTypeIsAccepted`, `TransactionCanonicalIff`); packed arrays may
  overrun their length (`PackedOverrunIsAccepted`). `CanonicalIff` gives the exact condition.
* A leading byte order mark is dropped by the text decoder (`ByteOrderMarkIsLost`), and array items that encode to
  nothing are skipped (`EmptyItemIsLost`). `RoundTripIff` gives the exact condition for every well-formed schema.
* Array elements are recognised by the first byte of their key, so from field number 16 on an array can swallow the
  field behind it (`SixteenSwallowsThirtyTwo`); `RoundTripIff` covers this too.
* For two empty validator sets the bitmap has one byte instead of none (`BitmapLengthIff`), and a new validator of
  weight zero does not come back (`PatchRestoresIff`); the receiver rejects an update that adds one
  (`UpdateIsAcceptedIff`).
* The comment on `add` (transaction_pool.ts:124-130) rejects priorities lower than the lowest one. The code also rejects
  an equal one, only when the pool is full, and makes room instead when at least half of the pool is unprocessable. And
  a replaced transaction stays in the priority queue (`ReplacementLeavesEntry`) until the next removal rebuilds it, so a
  full pool can let in a transaction cheaper than everything in it (`CheaperIsAdmitted`). `PriorityRejectionIff` and,
  over runs, `RejectionsIff` give the exact condition.
* The processable nonces of an account are meant to be a consecutive run starting at its lowest nonce. A reorganisation
  pass promotes what it read before it awaited the verifier; if a replacement comes in between, the run gets a gap
  (`StalePromotionIsReachable`). A lower nonce that becomes processable late is not put in front
  (`LowNonceIsPassedOver`). No later pass mends an account whose processable nonces are not its lowest: it does not
  touch it (`UnorderedIsUntouched`). `PromoteKeepsLowestIff` and `AddKeepsLowestIff` give the exact conditions,
  `RunsKeepOrderIff` carries them to all interleavings.
* getUnprocessable skips as many nonces as are processable, whichever those are. On a list that has lost its order
  eviction takes a processable transaction for an unprocessable one (`ProcessableIsEvicted`); `UnprocessableExactIff`
  gives the exact condition.
* A replacement has to pay a minimum difference (transaction_list.ts:61-66), but a full pool makes room before it looks
  at the list: if the old holder of the nonce is what is evicted, the new one comes in without paying (`ReplacementUnpaid`).
  `CommitPays` says that this is the only way.
* With a capacity or an account limit of zero the pool's promises fail (`ZeroCapacityIsExceeded`,
  `ZeroAccountLimitLeavesEmptyList`); with at least one each they hold in every reachable state.

## Model

| member | source | states |
|---|---|---|
| Varint.WriteUInt | elements/codec/src/varint.ts:22-67 | the writing loop gives the shortest-form varint of the value, or the range error, for both widths |
| Varint.ReadUInt | elements/codec/src/varint.ts:80-120 | the reading loop, with its shifts, last-byte limit and shortest-form test, agrees with the reader it is specified by at every offset of every buffer |
| Varint.ScanSound | elements/codec/src/varint.ts:80-148 | bytes the scan accepts in shortest form are exactly the bytes written for the value, and the value is in range |
| Varint.ScanComplete | elements/codec/src/varint.ts:80-120 | whatever follows them, the written bytes of an in-range value are read back as that value and their length |
| Varint.ReadVarintIff | elements/codec/src/varint.ts:22-148 | a read yields (v, n) if and only if v is in range and the n bytes at the offset are exactly the varint of v |
| Varint.VarintInjective | elements/codec/src/varint.ts:22-67 | no buffer starts, at one offset, with the varints of two different values |
| Varint.VarintMeans | elements/codec/src/varint.ts:22-67 | all bytes of a varint but the last have the highest bit set, and their groups of seven bits, the lowest first, weigh up to the value |
| Varint.ReadOutcomes | elements/codec/src/varint.ts:80-148 | the reader on any bytes: after k continuation bytes too many bytes or a last byte above the limit are out of range, an ended buffer is too short, a last byte of zero is not the shortest form, and otherwise the value is the weight of the groups |
| Varint.WidthsMean | elements/codec/src/varint.ts:22-78 | the widths and limits in numbers: five bytes with four bits in the last one for a uint32, ten with one bit for a uint64 |
| Varint.ZigZagBijection | elements/codec/src/varint.ts:40-49 | zigzag and its inverse undo each other, and map the signed range onto the unsigned one, extremes included |
| Varint.ZigZagOrder | elements/codec/src/varint.ts:40-49 | zigzag counts the integers by magnitude from zero on, the negative one first |
| Varint.ReadSignedIff | elements/codec/src/varint.ts:40-136 | the same if-and-only-if for sint32 and sint64 |
| Varint.VarintLengthMonotone | elements/codec/src/varint.ts:51-67 | a greater number never has a shorter varint |
| Varint.VarintLengthBound | elements/codec/src/varint.ts:51-67 | a number within a width takes at most that width's bytes (10 for uint64) |
| Schema.KeyRange | elements/codec/src/utils/key.ts:33-38 | keys of permitted field numbers are uint32; below 16 they are one byte, from 16 on their first byte has the continuation bit |
| Codec.KeyRoundTrip | elements/codec/src/keys.ts:20-29 | readKey recovers field number and wire type from the key of every field |
| Codec.DelimitedAt | elements/codec/src/bytes.ts:16-22 | a written byte string is found behind its exact length prefix |
| Codec.DelimitedBack | elements/codec/src/bytes.ts:16-22 | a length prefix whose bytes are all there is the prefix writeBytes would write |
| Schema.SmallRepeatedIsClashFree | elements/codec/src/collection.ts:217-260 | if on every level the arrays of strings, byte strings and objects are numbered below 16, no following field starts like their key |
| WireFormat.SplitJoin | elements/codec/src/utils/key.ts:19-38 | a reader without schema takes any numbered units apart again: after wire type 0 a varint, after wire type 2 a length and as many bytes |
| WireFormat.EncodingIsUnits | elements/codec/src/collection.ts:56-118 | every encoding, also of messages with missing scalars, is the units of its fields in the order of the schema: scalars one each, nested objects a block, strings, byte strings and objects of an array a block each, its numbers one block |
| WireFormat.SplitEncoding | elements/codec/src/collection.ts:56-118 | so the reader without schema splits the encoding of every message exactly at its fields and finds their numbers and values |
| WireFormat.PackedAreNumbers | elements/codec/src/collection.ts:56-118 | the block of an array of numbers is their varints, one after the other |
| WireFormat.ScalarEncodesIff | elements/codec/src/varint.ts:22-78 | exactly the values of a type within its range are written |
| WireFormat.MissingOutcomes | elements/codec/src/collection.ts:56-118 | of what is missing, scalars are left out and an object without properties goes out empty; anything else is an error |
| WireFormat.MismatchOutcomes | elements/codec/src/collection.ts:56-118 | a property of the wrong type, or a scalar out of range, is an error |
| RoundTrip.VacuousIffEmpty | elements/codec/src/collection.ts:56-118 | an object encodes to no bytes if and only if all its properties are empty arrays |
| RoundTrip.RepeatedComplete | elements/codec/src/collection.ts:256-282 | where no such key follows, the loop over strings or byte strings stops exactly where the encoder stopped and returns the items |
| RoundTrip.PackedComplete | elements/codec/src/collection.ts:283-297 | the packed loop returns the encoded numbers and ends exactly at the declared length |
| RoundTrip.ItemsComplete | elements/codec/src/collection.ts:227-253 | the loop over objects returns the encoded objects, provided none of them is empty on the wire |
| RoundTrip.FieldComplete | elements/codec/src/collection.ts:120-203 | one field read in front of any remaining fields yields its value and ends where its encoding ends |
| RoundTrip.FieldsComplete | elements/codec/src/collection.ts:120-203 | reading the encoding of an object at any offset gives the object back, through all nesting |
| RoundTripExact.BadItems | elements/codec/src/collection.ts:227-253 | an array of objects some of which lose something or clash inside is read wrongly |
| RoundTripExact.BadFields | elements/codec/src/collection.ts:120-298 | an object that loses something, or in which an array runs on into the next field, is read wrongly, or its end is passed |
| RoundTripExact.RoundTripIff | elements/codec/src/codec.ts:90-108 | for every well-formed schema and every message of it: decode(encode(m)) = m if and only if no string of m starts with a byte order mark, no array of m holds an object that encodes to nothing, and no non-empty array of strings, byte strings or objects is directly followed, in the encoding, by a field whose key starts with the same byte |
| Trimming.DecodeTrims | elements/codec/src/codec.ts:90-108 | what comes back otherwise: unless an array runs on into the next field, decoding gives the message without the leading byte order marks of its strings and without those objects of its arrays all of whose properties are empty arrays, and with everything else |
| Injective.ScalarInjective | elements/codec/src/collection.ts:46-54 | one place of a buffer starts with the encoding of at most one scalar |
| Injective.EndsOrGoesOn | elements/codec/src/collection.ts:300-333 | where the encoding of an array may end, no further element of it can stand |
| Injective.FieldsInjective | elements/codec/src/collection.ts:56-118 | two objects of one schema encoded at the same place agree on all its fields |
| Injective.PartialInjective | elements/codec/src/collection.ts:96-100 | the same for messages in which scalars are missing on any level, which the writer skips: different ones have different encodings |
| Injective.EncodeInjective | elements/codec/src/codec.ts:90-98 | different complete messages of a well-formed schema have different encodings, without any condition on the messages |
| RoundTripExact.SafeSchemaRoundTrip | elements/codec/src/codec.ts:90-108 | a condition on the schema alone (no strings, array items with a scalar or object property, small array numbers) under which every message comes back |
| NoClipping.NothingIsClipped | elements/codec/src/bytes.ts:19-22 | for every schema: whatever bytes stand behind an accepted byte string, the decoder reads the same from it, so no slice of it was cut short by the end of the buffer |
| Rejections.KeyOutcomes | elements/codec/src/collection.ts:120-203 | in front of a scalar or an object an unknown wire type, another field number and another wire type than the property's are rejected, each with its error, in this order |
| Rejections.MissingScalar | elements/codec/src/collection.ts:120-203 | a buffer that is over before a scalar is rejected as missing it |
| Rejections.AbsentOutcomes | elements/codec/src/collection.ts:205-225 | an array is empty if the object or the buffer is over or a key with another number follows; an unknown wire type is rejected |
| Rejections.BooleanOutcomes | elements/codec/src/boolean.ts:20-26 | booleans are one byte, zero or one, and nothing else |
| Rejections.FirstRejected | elements/codec/src/collection.ts:120-203 | the first property that is rejected rejects the object, with its error |
| Rejections.TrailingBytes | elements/codec/src/collection.ts:197-203 | bytes behind a message without arrays are rejected |
| Canonical.ScalarSound | elements/codec/src/collection.ts:32-54 | a scalar the strict reader accepts without clipping is exactly what the writer writes |
| Canonical.RepeatedSound | elements/codec/src/collection.ts:256-282 | a strictly read array of strings or byte strings re-encodes to the bytes it was read from |
| Canonical.PackedSound | elements/codec/src/collection.ts:283-297 | a strictly read packed array re-encodes to the bytes it was read from |
| Canonical.ItemsSound | elements/codec/src/collection.ts:227-253 | a strictly read array of objects re-encodes to the bytes it was read from |
| Canonical.FieldsSound | elements/codec/src/collection.ts:120-203 | a strictly read object conforms to the schema and re-encodes to the bytes it was read from |
| Canonical.FieldsRefine | elements/codec/src/collection.ts:120-298 | whatever the strict decoder accepts the code accepts too, with the same result |
| Canonical.FieldsConform | elements/codec/src/collection.ts:120-298 | every message the code accepts has exactly the properties of the schema, each of its type and in range |
| Canonical.StrictIsCanonical | elements/codec/src/codec.ts:90-108 | input accepted strictly is the encoding of the message it decodes to |
| Canonical.CanonicalIff | elements/codec/src/codec.ts:90-108 | for every well-formed schema, accepted input re-encodes to itself if and only if the strict decoder accepts it, i.e. no string had a byte order mark, all array keys were the canonical ones, no array item or packed array was empty and no packed array overran its length |
| CodecCases.PlainSchemaCanonical | elements/codec/src/collection.ts:120-203 | for schemas of scalars other than strings and nested objects every accepted input re-encodes to itself |
| CodecCases.TrailingBytesCanonicalIff | elements/codec/src/collection.ts:219-224 | with a last array of byte strings numbered below 16, accepted input is canonical if and only if the fields before it pass the strict decoder and the array is absent or its first key carries wire type 2 |
| CodecCases.ByteArraysCanonicalIff | elements/codec/src/collection.ts:205-282 | for schemas of non-string scalars, arrays of byte strings numbered below 16 and objects of these, on any level: accepted input re-encodes to itself if and only if every non-empty array in it starts with its key of wire type 2 |
| RoundTrip.RepeatedThen | elements/codec/src/collection.ts:256-282 | the loop returns the encoded items followed by whatever it finds behind them |
| RoundTrip.ItemsThen | elements/codec/src/collection.ts:227-253 | the same for objects |
| RoundTrip.ClashFreeSeparates | elements/codec/src/collection.ts:217-260 | in a clash-free schema no message has an array directly followed by a key that starts like its own |
| Clashes.FirstByteShowsWireType | elements/codec/src/utils/key.ts:33-38 | the first byte of a key shows its wire type, so keys that start alike have the same one |
| Clashes.RepeatedCount | elements/codec/src/collection.ts:256-282 | whatever it reads, the loop over strings or byte strings reads as many elements as were written before it goes on |
| Clashes.RepeatedOverrun | elements/codec/src/collection.ts:256-282 | an array of strings or byte strings followed by a key that starts like its own comes back longer, or not at all |
| Clashes.ItemsEnd | elements/codec/src/collection.ts:227-253 | where the loop over objects stops does not depend on what it reads |
| Clashes.SwallowedUnit | elements/codec/src/collection.ts:234-249 | the loop over objects takes a field of wire type 2 whole, or its first element |
| Clashes.Swallows | elements/codec/src/collection.ts:227-253 | a loop over objects that runs on has swallowed whole fields, and stops in front of a field |
| Clashes.AfterSwallowing | elements/codec/src/collection.ts:120-203 | fields that were swallowed do not come back: the object read is wrong, or its end is passed |
| Clashes.Overrun | elements/codec/src/collection.ts:205-298 | whatever it holds, a non-empty array followed by a key that starts like its own is read wrongly, or has swallowed a field that is then missed |
| CodecCases.SixteenSwallowsThirtyTwo | elements/codec/src/collection.ts:256-260 | an array numbered 16 in front of a byte string numbered 32 never comes back, whatever their contents |
| CodecCases.ByteOrderMarkIsLost | elements/codec/src/string.ts:24-31 | the string consisting of U+FEFF is lost |
| CodecCases.EmptyItemIsLost | elements/codec/src/collection.ts:241-243 | an empty object inside an array is lost |
| CodecCases.WrongWireTypeIsAccepted | elements/codec/src/collection.ts:219-224 | two different inputs, with keys of wire types 0 and 2, decode to the same message |
| CodecCases.PackedOverrunIsAccepted | elements/codec/src/collection.ts:288-295 | a packed array whose last number runs past the declared length is accepted |
| CodecLoops.WriteObject | elements/codec/src/collection.ts:56-118 | chunks appended to those given, whose concatenation is the encoding; the returned size is the total length of the chunks appended; errors agree |
| CodecLoops.WriteField | elements/codec/src/collection.ts:62-116 | the same for one property, including missing scalars and missing containers |
| CodecLoops.WriteDelimited | elements/codec/src/collection.ts:76-90 | the same for a nested object, whose length prefix is its exact size |
| CodecLoops.WriteArray | elements/codec/src/collection.ts:300-351 | the same for arrays of all three kinds |
| CodecLoops.WriteItems | elements/codec/src/collection.ts:310-323 | the same for arrays of objects |
| CodecLoops.WriteRepeated | elements/codec/src/collection.ts:324-333 | the same for arrays of strings and byte strings |
| CodecLoops.WritePacked | elements/codec/src/collection.ts:334-350 | the same for packed arrays, whose length prefix is the sum of the item sizes |
| CodecLoops.ReadObject | elements/codec/src/collection.ts:120-203 | the reading loop gives the object and the index of the specified decoder, or its error, and insists on ending at the terminate index |
| CodecLoops.ReadField | elements/codec/src/collection.ts:128-193 | one round of that loop |
| CodecLoops.ReadArray | elements/codec/src/collection.ts:205-298 | readArray agrees with the specified decoder, including the peeked key and the empty results |
| CodecLoops.ReadItems | elements/codec/src/collection.ts:227-253 | the loop over objects, which skips items of size zero |
| CodecLoops.ReadRepeated | elements/codec/src/collection.ts:256-282 | the loop over strings and byte strings |
| CodecLoops.ReadPacked | elements/codec/src/collection.ts:288-297 | the packed loop |
| CodecCache.CompileIsWellFormed | elements/codec/src/codec.ts:154-265 | compiling a valid schema gives strictly ascending field numbers and distinct names on every level |
| CodecCache.DeclarationOrderIrrelevant | elements/codec/src/codec.ts:154-265 | two declarations of the same properties, in different orders on any level, compile to the same schema, so they encode alike |
| CodecCache.CompileReorders | elements/codec/src/codec.ts:160-200 | compiling only reorders: the compiled schema has the declared properties, with their names, numbers and types, on every level |
| CodecCache.Cache.AddSchema | elements/codec/src/codec.ts:81-88 | the cache maps the id to the compiled schema |
| CodecCache.Cache.Encode | elements/codec/src/codec.ts:90-98 | if the cache holds what was registered, the result is the encoding under the compiled schema, and the cache stays right |
| CodecCache.Cache.Decode | elements/codec/src/codec.ts:100-108 | the same for decoding |
| CodecCache.Cache.ClearCache | elements/codec/src/codec.ts:150-152 | the cache is empty |
| Sorting.SortPermutes | elements/codec/src/codec.ts:169-171 | sorting keeps every element with its multiplicity |
| Sorting.SortSorted | elements/codec/src/codec.ts:169-171 | the result is in order |
| Sorting.SortOrderIndependent | elements/transactions/src/sign.ts:187-188 | where only equal elements rank equal, sorting does not depend on the order of the input |
| Sorting.LexIsOrder | elements/transactions/src/sign.ts:187-188 | Buffer.compare is a total order in which only equal buffers rank equal |
| Sorting.LexMeans | elements/transactions/src/sign.ts:187-188 | a prefix comes before the longer buffer, else the lower byte at the first difference decides |
| Regroup.ConvertRoundTrip | elements/cryptography/src/address.ts:25-51 | regrouping there and back is the identity, for every pair of widths and every sequence that leaves no bits over |
| Regroup.ConvertKeepsNumber | elements/cryptography/src/address.ts:25-51 | the number that the digits spell, the first one the highest, does not change |
| Regroup.ToInt32Mod | elements/cryptography/src/address.ts:40-41 | wrapping to 32 bits does not change the low bits |
| Regroup.ConvertUIntArray | elements/cryptography/src/address.ts:25-51 | the loop with its overflowing accumulator gives the regrouped bit string, or nothing when an entry is out of range |
| Checksum.TimesLinear | elements/cryptography/src/address.ts:78-90 | the checksum step is linear over exclusive or |
| Checksum.StepInjective | elements/cryptography/src/address.ts:78-90 | the 30-bit step is injective in its state |
| Checksum.ChecksumIff | elements/cryptography/src/address.ts:95-107 | for symbols of any number and any six symbols c: the sequence followed by c is accepted if and only if c is its checksum |
| Checksum.PolymodLeading | elements/cryptography/src/address.ts:76-93 | the remainder is that of the polynomial whose coefficients are 1 and then the symbols |
| Checksum.ZeroInFront | elements/cryptography/src/address.ts:76-93 | no accepted sequence stays accepted with a zero symbol put in front |
| Checksum.BurstDetected | elements/cryptography/src/address.ts:95-107 | two sequences that differ only within six neighbouring symbols are never both accepted |
| Checksum.SingleErrorDetected | elements/cryptography/src/address.ts:107-107 | changing any one symbol of an accepted sequence of any length makes it rejected |
| ErrorDetection.TimesDouble | elements/cryptography/src/address.ts:78-90 | the checksum step commutes with multiplication by the primitive element of the field of 32 symbols |
| ErrorDetection.OneError | elements/cryptography/src/address.ts:78-90 | within the length of an address a wrong symbol never becomes a single symbol of the remainder again |
| ErrorDetection.TwoErrors | elements/cryptography/src/address.ts:78-90 | and two wrong symbols never become words that differ in the last symbol only |
| ErrorDetection.ThreeErrorsDetected | elements/cryptography/src/address.ts:95-107 | two different accepted sequences of at most 38 symbols differ in at least four places |
| Checksum.PolymodLoop | elements/cryptography/src/address.ts:76-93 | the nested loops compute the polynomial remainder |
| Checksum.CreateChecksumLoop | elements/cryptography/src/address.ts:95-105 | the loop unpacks the remainder into the six checksum symbols |
| Klayr32.AddressRoundTrip | elements/cryptography/src/address.ts:109-185 | every 20-byte address is decoded back from its text |
| Klayr32.TextIsCanonical | elements/cryptography/src/address.ts:129-180 | every accepted text is the text of the 20-byte address it decodes to |
| Klayr32.AcceptedIff | elements/cryptography/src/address.ts:129-180 | the accepted texts are exactly the texts of the 20-byte addresses |
| Klayr32.ValidateOutcomes | elements/cryptography/src/address.ts:129-162 | which error a text gets: for its length, its prefix, a character outside the alphabet, or last six characters that are not the checksum of the others, in this order |
| PublishedAddresses.SampleAddress | elements/cryptography/test/address.spec.ts:141-196 | a published address has its published text, in both directions |
| PublishedAddresses.OtherAddress | framework/test/unit/modules/validators/method.spec.ts:1042-1044 | a further published text is accepted; the two use every character of the alphabet |
| Klayr32.AddressesDiffer | elements/cryptography/src/address.ts:129-162 | two different accepted texts differ in at least four characters behind the prefix, so up to three mistyped ones are noticed |
| Klayr32.AddressToText | elements/cryptography/src/address.ts:109-117 | the encoding pipeline computes that text |
| Klayr32.ValidateText | elements/cryptography/src/address.ts:129-162 | validation with the checksum loop gives the specified result, each error in its order |
| Klayr32.TextToAddress | elements/cryptography/src/address.ts:164-180 | validation and decoding agree with the specified decoder |
| AggregationBits.WriteBit | elements/cryptography/src/bls.ts:47-58 | exactly the addressed bit of the buffer changes |
| AggregationBits.CreateBits | elements/cryptography/src/bls.ts:71-82 | the bitmap has ceil(n/8) bytes and marks exactly the listed keys among the signers |
| AggregationBits.VerifyAggregationBits | elements/cryptography/src/bls.ts:92-107 | accepts exactly the buffers of length ceil(n/8) with no bit set at n or above |
| AggregationBits.BitMeans | elements/cryptography/src/bls.ts:39-45 | bit i of a bitmap is bit i % 8, the lowest first, of byte i / 8 |
| AggregationBits.ByteCountMeans | elements/cryptography/src/bls.ts:92-97 | the length of a bitmap is the least number of bytes that hold its bits |
| AggregationBits.SelectAt | elements/cryptography/src/bls.ts:145-154 | each marked key comes behind as many as are marked before it, and no other is there |
| AggregationBits.TotalSplit | elements/cryptography/src/bls.ts:145-154 | the weight is the sum |
| AggregationBits.Collect | elements/cryptography/src/bls.ts:145-154 | the loop selects the marked keys in list order and sums their weights, or fails exactly when a marked key has no weight; other weights need not be there |
| AggregationBits.MarksRoundTrip | elements/cryptography/src/bls.ts:71-154 | for distinct keys, every buffer that marks a set of signers is read back as exactly those signers and the sum of their weights |
| AggregationBits.CreateThenCollect | elements/cryptography/src/bls.ts:71-154 | the bitmap built for any signers passes the check and rebuilds them in list order with the sum of their weights |
| AggregationBits.BitmapUnique | elements/cryptography/src/bls.ts:71-82 | the bitmap depends only on the set of signers |
| AggregationBits.VerifyWeightedAggSig | elements/cryptography/src/bls.ts:132-161 | accepts exactly when the bitmap is well formed, the marked weights are there and reach the threshold and the aggregate of the marked keys verifies; fails exactly when the bitmap is well formed and a marked key has no weight |
| ValidatorsUpdate.GetActiveValidatorsUpdate | framework-plugins/chain-connector/src/active_validators_update.ts:51-123 | the update lists the added keys in order, and weights and bitmap of exactly the changed validators over the sorted union of keys |
| ValidatorsUpdate.CompareSets | framework-plugins/chain-connector/src/active_validators_update.ts:63-90 | the two loops collect new, re-weighted and removed validators |
| ValidatorsUpdate.BuildBitmap | framework-plugins/chain-connector/src/active_validators_update.ts:98-103 | the bits set are those of the changed keys |
| ValidatorsUpdate.BitmapLengthIff | framework-plugins/chain-connector/src/active_validators_update.ts:99-116 | the bitmap has ceil(n/8) bytes if and only if there is any validator; with none it has one byte |
| UpdateMeaning.UpdateMeans | framework-plugins/chain-connector/src/active_validators_update.ts:51-123 | the update byte by byte: bit i from the right end of the bitmap is set if and only if the i-th validator of the sorted union is not the same in both sets, and the weights are those of the set bits in order, as in the new set or zero |
| UpdateMeaning.BitmapBits | framework/src/modules/interoperability/utils.ts:227-235 | the bits of the number a bitmap stands for are its bits counted from the right end |
| UpdateMeaning.PatchMeans | framework/src/modules/interoperability/utils.ts:227-240 | patching any validators succeeds exactly when there is one weight for each set bit of a validator, and puts them there in order |
| UpdateMeaning.CheckWeightsMeans | framework/src/modules/interoperability/base_interoperability_internal_methods.ts:347-366 | for any update the loop stops at the first key of it whose bit is not set, or whose weight is zero, with that error |
| UpdateMeaning.VerifyOutcomes | framework/src/modules/interoperability/base_interoperability_internal_methods.ts:320-345 | for any update: unsorted keys, repeated keys, a bitmap of the wrong length and a wrong number of weights are rejected, each with its error, in this order |
| UpdateMeaning.CountBitsMeans | framework/src/modules/interoperability/base_interoperability_internal_methods.ts:338-345 | the number of ones of the bitmap, counted place by place |
| UpdateMeaning.LimitsMean | framework/src/modules/interoperability/base_interoperability_internal_methods.ts:374-389 | 1 to 199 validators, and a total of at most 2^64 - 1 |
| UpdateCheck.VerifyValidatorsUpdate | framework/src/modules/interoperability/base_interoperability_internal_methods.ts:320-389 | the receiver's checks, each error in its order: sorted keys, no duplicates, bitmap length, as many set bits as weights, the loop over the weights of the added validators, and the limits on number and total weight of the new set |
| UpdateCheck.VerifyLimits | framework/src/modules/interoperability/base_interoperability_internal_methods.ts:374-389 | the loop over the new validators stops exactly when there are none, too many, or their total weight exceeds a uint64 |
| UpdateCheck.WeightsPassIff | framework/src/modules/interoperability/base_interoperability_internal_methods.ts:347-366 | on the bitmap and the weights of a diff the loop passes if and only if every added key has a positive weight |
| UpdateCheck.UpdateIsAcceptedIff | framework/src/modules/interoperability/base_interoperability_internal_methods.ts:320-389 | the receiver accepts the computed update if and only if every added validator has a positive weight, 1 to 199 validators of the new set have weight, and their total is a uint64 |
| ValidatorsUpdate.DiffThenPatch | framework/src/modules/interoperability/utils.ts:216-242 | for any two sets with distinct keys, patching the current set with the update gives exactly the validators of the new set that have weight, in key order |
| ValidatorsUpdate.PatchRestoresIff | framework/src/modules/interoperability/utils.ts:216-242 | so the new set comes back if and only if all its weights are positive |
| ValidatorsUpdate.CalculateNewActiveValidators | framework/src/modules/interoperability/utils.ts:216-242 | the receiver's loop computes the specified patch, or the error about weights left |
| Transactions.SigningBytesIgnoreSignatures | elements/transactions/src/sign.ts:63-70 | the signing bytes do not depend on the signatures present |
| Transactions.SigningBytesCover | elements/transactions/src/sign.ts:63-70 | what is signed is everything else: transactions with the same signing bytes differ in nothing but their signatures |
| Transactions.SigningLayout | elements/transactions/src/sign.ts:63-70 | the signing bytes are the first six units of the bytes of the transaction |
| Transactions.TransactionLayout | elements/transactions/src/schema.ts:21-58 | read without the schema, a transaction is module, command, nonce, fee, public key and parameters under the numbers 1 to 6, and the signatures under 7 |
| Transactions.BaseTransactionWellFormed | elements/transactions/src/schema.ts:21-58 | the transaction schema meets the hypotheses of the codec results |
| Transactions.TransactionRoundTrip | elements/transactions/src/sign.ts:89-93 | a transaction comes back from its bytes if and only if module and command start with no byte order mark |
| Transactions.TransactionCanonicalIff | elements/transactions/src/sign.ts:89-93 | accepted transaction bytes are the bytes of the decoded transaction if and only if module and command stand there without a byte order mark and there is no signature or the first signature's key is 0x3a |
| Transactions.StringStrictIff | elements/codec/src/string.ts:24-31 | a string on the wire that is accepted is read unchanged if and only if it has no byte order mark |
| Transactions.SizeOfNumber | elements/transactions/src/sign.ts:89-93 | changing one uint64 property changes the size by the difference of the two varint lengths |
| Fee.SizeOfFee | elements/transactions/src/fee.ts:78-81 | a transaction encodes exactly when its fee is a uint64, and its size is a constant plus the length of the fee |
| Fee.LeastFee | elements/transactions/src/fee.ts:76-87 | at most eleven rounds; the result is the least fee that pays for the transaction carrying it, with equality; an error exactly when no uint64 fee does |
| Fee.MockedSize | elements/transactions/src/fee.ts:61-74 | each full stand-in for a signature adds 66 bytes to the transaction without signatures, each empty one two |
| Fee.ComputeMinFee | elements/transactions/src/fee.ts:56-87 | within eleven rounds the least fee that pays, per byte, for the transaction carrying it with its signatures of 64 bytes or none, with equality; an error exactly when no uint64 fee does |
| MultiSig.Transaction.Sign | elements/transactions/src/sign.ts:166-212 | rejects a missing chain id or a key of the wrong length before changing anything; else sorts the caller's key lists, fills the signer's slots, pads unfilled ones and returns the hash of the resulting bytes |
| MultiSig.SlotsAfterRun | elements/transactions/src/sign.ts:200-209 | after any signers in any order, slot i holds key i's signature if it signed and empty bytes otherwise |
| MultiSig.SignOrderIrrelevant | elements/transactions/src/sign.ts:166-212 | the result depends only on the set of signers |
| MultiSig.AccountKeysOrderIndependent | elements/transactions/src/sign.ts:187-198 | the slots do not depend on the order in which keys were given |
| MultiSig.AccountKeysMeans | elements/transactions/src/sign.ts:187-198 | the first slots belong to the mandatory keys, the others to the optional ones, each in ascending order |
| MultiSig.SignInTurn | elements/transactions/src/sign.ts:166-212 | signing in turn on one transaction object leaves those slots, although each signer sees the signatures before it |
| MinHeap.MinHeap.Push | elements/utils/src/data_structures/min_heap.ts:27-31 | one node is added to the multiset and the heap order kept |
| MinHeap.MinHeap.Pop | elements/utils/src/data_structures/min_heap.ts:33-48 | a node of least key is removed and returned, and only that one |
| MinHeap.MinHeap.Peek | elements/utils/src/data_structures/min_heap.ts:50-56 | a node of least key, if there is any |
| MinHeap.MinHeap.MoveUp | elements/utils/src/data_structures/min_heap.ts:78-91 | restores the order above a hole and permutes the nodes |
| MinHeap.MinHeap.MoveDown | elements/utils/src/data_structures/min_heap.ts:93-117 | restores the order below a hole and permutes the nodes |
| MinHeap.MinHeap.Clone | elements/utils/src/data_structures/min_heap.ts:58-60 | a new heap with the same nodes |
| MinHeap.TopIsLeast | elements/utils/src/data_structures/min_heap.ts:119-130 | in a heap no key is less than the top one |
| NonceList.RunSpec | elements/transaction-pool/src/transaction_list.ts:197-205 | the run is consecutive and cannot be extended |
| NonceList.GettersCoverList | elements/transaction-pool/src/transaction_list.ts:142-171 | getProcessable followed by getUnprocessable is the whole list in nonce order |
| NonceList.UnprocessableExactIff | elements/transaction-pool/src/transaction_list.ts:151-171 | getUnprocessable returns exactly the nonces that are not processable if and only if the processable ones are the lowest of the list |
| NonceList.RemoveKeepsLowest | elements/transaction-pool/src/transaction_list.ts:98-116 | removing any nonce leaves a consecutive lowest run processable |
| NonceList.AddKeepsLowestIff | elements/transaction-pool/src/transaction_list.ts:55-96 | exactly when an addition keeps an ordered list ordered: it replaces, is refused, or comes behind the processable nonces, or is the lowest nonce if it is to be the first of them; the size stays within the limit in any case |
| NonceList.PromotableExtends | elements/transaction-pool/src/transaction_list.ts:173-208 | the processable nonces followed by any prefix of the promotable ones are again the lowest consecutive run |
| NonceList.PromotableMeansPrefix | elements/transaction-pool/src/transaction_list.ts:173-208 | in any list, ordered or not: where anything is promotable, the processable nonces are the lowest of the list and the promotable ones continue them without a gap |
| NonceList.PromoteKeepsLowest | elements/transaction-pool/src/transaction_list.ts:118-136 | promoting such a prefix makes exactly these nonces processable |
| NonceList.PromoteKeepsLowestIff | elements/transaction-pool/src/transaction_list.ts:118-136 | promoting any transactions, read at any time, keeps an ordered list ordered if and only if it fails or, beside nonces already processable, promotes exactly the first few of what is promotable now |
| NonceList.LegalRunKeepsLowest | elements/transaction-pool/src/transaction_list.ts:55-136 | after any additions, removals and promotions that meet these conditions the processable nonces are a consecutive run forming the lowest part of the list, each transaction sits under its nonce, and the size is within the limit |
| NonceList.RunsKeepLowestIff | elements/transaction-pool/src/transaction_list.ts:55-136 | a run keeps its list ordered throughout if and only if each of its operations meets its condition where it is taken |
| PoolOutcomes.AddedIff | elements/transaction-pool/src/transaction_list.ts:55-85 | a list takes a transaction over one of the same nonce if and only if its fee is higher by the minimum difference, and one of a new nonce if and only if there is room or the nonce is below the highest one; otherwise it does not change |
| PoolOutcomes.ReplaceEffect | elements/transaction-pool/src/transaction_list.ts:68-73 | a replacement changes the holder of the nonce, and the nonces from it on are no longer processable |
| PoolOutcomes.AppendEffect | elements/transaction-pool/src/transaction_list.ts:87-95 | with room the transaction comes in, and is processable at once only as the first one |
| PoolOutcomes.DisplaceEffect | elements/transaction-pool/src/transaction_list.ts:75-95 | without room the highest nonce makes way |
| PoolOutcomes.ReplacementsPay | elements/transaction-pool/src/transaction_list.ts:55-136 | in every run of a list, as long as a nonce stays its fee never falls, and a different holder pays at least the difference more |
| TransactionList.TransactionList.Add | elements/transaction-pool/src/transaction_list.ts:55-96 | the object goes through the specified addition and returns its status; the heap keys stay the keys of the map |
| TransactionList.TransactionList.Remove | elements/transaction-pool/src/transaction_list.ts:98-116 | the nonce leaves map and heap, everything from it on is demoted, and the id is returned |
| TransactionList.TransactionList.Promote | elements/transaction-pool/src/transaction_list.ts:118-136 | succeeds exactly when all transactions are still there with their ids; then their nonces are processable as well, else nothing changes |
| TransactionList.TransactionList.GetProcessable | elements/transaction-pool/src/transaction_list.ts:142-149 | the transactions of the processable nonces, in order |
| TransactionList.TransactionList.GetUnprocessable | elements/transaction-pool/src/transaction_list.ts:151-171 | popping a clone of the heap gives the remaining transactions in nonce order |
| TransactionList.TransactionList.GetPromotable | elements/transaction-pool/src/transaction_list.ts:173-208 | exactly the longest consecutive run that continues the processable nonces, although the loop goes on past gaps |
| TransactionList.TransactionList.DemoteAfter | elements/transaction-pool/src/transaction_list.ts:210-213 | keeps exactly the nonces below the bound, in order |
| TransactionList.TransactionList.HighestNonce | elements/transaction-pool/src/transaction_list.ts:215-230 | the greatest nonce, or -1 |
| TransactionList.RunSnoc | elements/transaction-pool/src/transaction_list.ts:199-205 | a scanned nonce extends the run only while no gap was met |
| PoolModel.RemoveConsistent | elements/transaction-pool/src/transaction_pool.ts:267-292 | remove keeps pool and lists consistent, drops an emptied list and leaves an exact queue |
| PoolModel.RemoveKeeps | elements/transaction-pool/src/transaction_pool.ts:267-292 | remove keeps the whole invariant, for any transaction, pooled or not |
| PoolModel.SomethingToEvict | elements/transaction-pool/src/transaction_pool.ts:310-373 | a consistent pool that is not empty has an unprocessable transaction or a processable head |
| PoolModel.EvictionKeeps | elements/transaction-pool/src/transaction_pool.ts:310-373 | either eviction keeps the invariant and removes exactly one transaction if it evicts |
| PoolModel.HeadEvictionKeepsProcessable | elements/transaction-pool/src/transaction_pool.ts:340-373 | evicting a head removes the highest processable nonce of one account and leaves every other processable nonce of every account |
| PoolModel.UnprocessableEvictionKeepsProcessable | elements/transaction-pool/src/transaction_pool.ts:310-338 | evicting what getUnprocessable returned leaves all processable nonces of all accounts, if those of its account are the lowest of the list |
| PoolModel.RemovalKeepsProcessableIff | elements/transaction-pool/src/transaction_pool.ts:267-292 | in any list, removing a pooled transaction leaves all processable nonces if and only if those of its account are below it |
| PoolModel.UnprocessableMeans | elements/transaction-pool/src/transaction_list.ts:151-171 | where the processable nonces of an account are the lowest, what getUnprocessable returns are its pooled transactions that are not processable |
| PoolModel.EvictionIsLeast | elements/transaction-pool/src/transaction_pool.ts:310-338 | where every account's processable nonces, consecutive or not, are its lowest, _evictUnprocessable takes one of least priority among all pooled transactions that are not processable |
| PoolModel.CheckKeeps | elements/transaction-pool/src/transaction_pool.ts:131-193 | the part of add before the await keeps the invariant |
| PoolOutcomes.PriorityMeans | elements/transaction-pool/src/transaction_pool.ts:306-308 | the priority is the fee per byte, rounded down |
| PoolOutcomes.CheckOutcomes | elements/transaction-pool/src/transaction_pool.ts:131-193 | when a check answers what: too long, duplicate, and below the entrance fee per byte, in this order; otherwise it goes on or rejects for priority |
| PoolOutcomes.CheckLoses | elements/transaction-pool/src/transaction_pool.ts:167-193 | a check evicts, the cheapest per byte of what is not processable, if and only if the transaction passes the first tests, the pool is full, nothing queued has a lower priority, half of the pool is unprocessable and there is something unprocessable |
| PoolOutcomes.UnprocessableCount | elements/transaction-pool/src/transaction_pool.ts:174-177 | where processable nonces are the lowest, the count is the number of pooled transactions that are not processable |
| PoolModel.PriorityRejectionIsJust | elements/transaction-pool/src/transaction_pool.ts:167-193 | a rejection for fee priority means the pool is full and every pooled transaction has at least the incoming priority |
| PoolModel.QueueTestIff | elements/transaction-pool/src/transaction_pool.ts:168-173 | the test holds if and only if the pool is full, the queue is not empty, and nothing in the queue, stale entries included, has a lower priority |
| PoolModel.PriorityRejectionIff | elements/transaction-pool/src/transaction_pool.ts:167-193 | once the earlier tests are passed, add rejects for fee priority if and only if the pool is full, less than half of it is unprocessable, and nothing in the queue, pooled or stale, has a lower priority |
| PoolModel.ReplacementLeavesEntry | elements/transaction-pool/src/transaction_pool.ts:243-261 | a replacement leaves the entry of the replaced transaction in the queue although its id has left the pool |
| PoolModel.LowEntryAdmits | elements/transaction-pool/src/transaction_pool.ts:168-173 | while any entry of lower priority is queued, stale or not, Continue is the only outcome of the check of an admissible transaction |
| PoolModel.AddPlaces | elements/transaction-pool/src/transaction_pool.ts:231-241 | what a list does with an incoming transaction: refuses it unchanged, or places it and displaces at most one |
| PoolModel.InsertConsistent | elements/transaction-pool/src/transaction_pool.ts:220-261 | adding to list, id map and queue keeps consistency, adds the transaction or changes nothing, and grows the pool by at most one |
| PoolModel.MakesRoomKeeps | elements/transaction-pool/src/transaction_pool.ts:205-218 | after the evictions of a commit there is room |
| PoolModel.CommitKeeps | elements/transaction-pool/src/transaction_pool.ts:198-265 | the part of add after the await keeps the invariant, whatever happened since the check |
| PoolOutcomes.CommitOutcome | elements/transaction-pool/src/transaction_pool.ts:198-265 | what a commit does to the pool: with room nothing is evicted, else exactly one transaction, the cheapest per byte of those not processable or, when all are processable, of the highest processable ones; then the incoming one comes in or not, and only its own account can lose another to it |
| PoolOutcomes.CommitPays | elements/transaction-pool/src/transaction_pool.ts:205-241 | a commit that changes the holder of a nonce pays the difference, unless the pool was full and the old holder was evicted to make room |
| PoolModel.PromoteKeeps | elements/transaction-pool/src/transaction_list.ts:118-136 | promoting any transactions, stale ones included, keeps the invariant |
| PoolModel.PoolIsUnionOfLists | elements/transaction-pool/src/transaction_pool.ts:131-292 | the pool holds exactly the ids found in the lists |
| PoolModel.UnionIsDisjoint | elements/transaction-pool/src/transaction_pool.ts:131-292 | no id is found in two places |
| PoolModel.RemoveKeepsAllLowest | elements/transaction-pool/src/transaction_pool.ts:267-292 | removal keeps all lists ordered |
| PoolModel.InsertKeepsAllLowestIff | elements/transaction-pool/src/transaction_pool.ts:231-234 | inserting a transaction keeps all lists ordered if and only if the addition to its list does |
| PoolModel.ZeroAccountLimitLeavesEmptyList | elements/transaction-pool/src/transaction_pool.ts:220-241 | with an account limit of zero an empty list is left behind, so the limit of at least one is needed |
| PoolModel.ZeroCapacityIsExceeded | elements/transaction-pool/src/transaction_pool.ts:205-258 | with a capacity of zero the pool exceeds it, so a capacity of at least one is needed |
| PoolProtocol.StepKeepsSafe | elements/transaction-pool/src/transaction_pool.ts:131-449 | every step of every call, interleaved at the awaits, keeps the invariant |
| PoolProtocol.SafeNeverThrows | elements/transaction-pool/src/transaction_pool.ts:276-280 | in a safe state the sender of every pooled id has a list, so remove never fails |
| PoolProtocol.RunsAreSafe | elements/transaction-pool/src/transaction_pool.ts:131-449 | in every state of every interleaving pool and lists agree, no list is empty, the capacity is kept and the queue holds every pooled id with its true priority |
| PoolProtocol.CapacityOverRuns | elements/transaction-pool/src/transaction_pool.ts:198-258 | no reachable state exceeds the capacity of the pool or of an account |
| PoolProtocol.StepsAreEnabled | elements/transaction-pool/src/transaction_pool.ts:131-292 | in every safe state any transaction can be checked or removed and any in flight committed: an eviction that is called for always has a candidate |
| PoolProtocol.StepKeepsOrderIff | elements/transaction-pool/src/transaction_pool.ts:131-449 | exactly when a step keeps every list ordered: checks and removals always do, a commit if it inserts in order into the list it meets after the evictions, a promotion, read at any time, if it changes nothing or fills up from what is promotable now |
| PoolProtocol.CommitKeepsOrderIff | elements/transaction-pool/src/transaction_pool.ts:198-265 | whatever it evicts, a commit keeps the lists ordered if and only if it inserts in order |
| PoolProtocol.LegalCommitIsOrderly | elements/transaction-pool/src/transaction_pool.ts:198-265 | seen from before the evictions: a commit whose nonce is not below the processable ones, and is flagged only if it is the lowest, inserts in order |
| PoolProtocol.PromoteKeepsOrderIff | elements/transaction-pool/src/transaction_pool.ts:424-425 | the condition on a promotion, for the whole pool |
| PoolProtocol.OrderlyRunsKeepOrder | elements/transaction-pool/src/transaction_pool.ts:131-449 | as long as every step met its condition, each account's processable nonces are a consecutive run forming the lowest part of its list |
| PoolProtocol.RunsKeepOrderIff | elements/transaction-pool/src/transaction_pool.ts:131-449 | an interleaving keeps every list ordered throughout if and only if each of its steps meets its condition |
| PoolProtocol.StartIsSafe | elements/transaction-pool/src/transaction_pool.ts:74-97 | the new pool is safe and ordered |
| PoolProtocol.RejectionsAreJust | elements/transaction-pool/src/transaction_pool.ts:167-193 | whenever a run rejects for fee priority the pool is full, stays as it is, and holds nothing of lower priority |
| PoolProtocol.RejectionsIff | elements/transaction-pool/src/transaction_pool.ts:167-193 | in every run, an admissible transaction is rejected for fee priority if and only if the pool is full, less than half of it is unprocessable, and nothing queued, pooled or stale, has a lower priority |
| PoolProtocol.ReachableIsSafe | elements/transaction-pool/src/transaction_pool.ts:131-449 | every state that a run from the new pool ends in is safe |
| PoolCases.StalePromotion | elements/transaction-pool/src/transaction_list.ts:118-136 | a list on which promoting what was promotable before a legal replacement leaves the processable nonces 1 and 3 of 1, 2 and 3, and getUnprocessable returns 3 |
| PoolCases.StalePromotionIsReachable | elements/transaction-pool/src/transaction_pool.ts:375-449 | a run from the empty pool, with passes as the code makes them, leads there: a pass reads the list, a commit replaces nonce 2 between two answers of the verifier, and the end of the pass promotes nonce 3 |
| PoolCases.LowNonceIsPassedOver | elements/transaction-pool/src/transaction_list.ts:87-93 | a run in which a lower nonce, reported processable after a higher one, is left unprocessable behind it |
| PoolCases.ProcessableIsEvicted | elements/transaction-pool/src/transaction_pool.ts:310-338 | a reachable pool in which _evictUnprocessable takes a processable transaction and passes over an unprocessable one of lower priority |
| PoolCases.CheaperIsAdmitted | elements/transaction-pool/src/transaction_pool.ts:167-261 | a reachable full pool, all of it processable, in which the only outcome of checking a transaction cheaper than everything in it is Continue, and a reachable pool after its commit, which holds it in place of a dearer one |
| PoolCases.ReplacementUnpaid | elements/transaction-pool/src/transaction_pool.ts:205-241 | a run that ends with a nonce in other hands for less than the minimum difference: the old holder was evicted to make room for the new one |
| Reorganization.PromotesPrefix | elements/transaction-pool/src/transaction_pool.ts:424-425 | in any list, what a pass promotes is a prefix of the promotable run: those of it that verified |
| Reorganization.ReorganizeEffect | elements/transaction-pool/src/transaction_pool.ts:375-449 | in any list, ordered or not: if nothing is promotable nothing changes; if the k-th considered transaction is invalid, exactly the considered ones before it are processable afterwards and it and all later considered ones have left pool and list; if all verified they are all processable; otherwise nothing changes |
| Reorganization.SuccessesIff | elements/transaction-pool/src/transaction_pool.ts:390-422 | the loop goes exactly up to the first transaction that is neither processable nor unprocessable but next in line behind one that passed |
| Reorganization.PassOutcome | elements/transaction-pool/src/transaction_pool.ts:375-449 | the effect of a pass in terms of the answers of the verifier alone |
| Reorganization.UnorderedIsUntouched | elements/transaction-pool/src/transaction_pool.ts:379-385 | a pass leaves the pool as it is if the processable nonces of the account are not its lowest |
| Reorganization.ConsideredBreaks | elements/transaction-pool/src/transaction_pool.ts:390-422 | among promotable transactions the loop breaks off only at an invalid one, elsewhere also at the first one or behind a gap |
| Reorganization.OrderedBreaks | elements/transaction-pool/src/transaction_pool.ts:390-422 | on an ordered list it breaks off at an invalid one or at once |
| Reorganization.FirstInvalidStops | elements/transaction-pool/src/transaction_pool.ts:390-422 | on consecutive nonces the loop stops at the first invalid transaction, unless the first one is unprocessable |
| Reorganization.RemoveEachRun | elements/transaction-pool/src/transaction_pool.ts:435-447 | removing ascending nonces of one account one by one takes exactly them out of pool and list |
| Reorganization.ReorganizeKeepsAllLowest | elements/transaction-pool/src/transaction_pool.ts:375-449 | a pass keeps every list ordered |
| PassProtocol.StepRefines | elements/transaction-pool/src/transaction_pool.ts:375-449 | an answer that ends a pass is a promotion and removals of the protocol; every other step of a pass leaves the pool alone |
| PassProtocol.PassRunsRefine | elements/transaction-pool/src/transaction_pool.ts:375-449 | every state of every run with interruptible passes is reachable and safe in the protocol, so all that is shown of its runs holds for these |
| PassProtocol.AnswerEffect | elements/transaction-pool/src/transaction_pool.ts:427-447 | whatever happened since a pass read its list: an invalid answer takes the transaction it was for and all later ones the pass read out of the pool, and nothing else; any other answer leaves the transactions of the pool alone |
| PassProtocol.UninterruptedPass | elements/transaction-pool/src/transaction_pool.ts:375-449 | a pass that nothing interrupts can be made from every reachable state, and has the specified effect of one pass |
| TransactionPool.TransactionPool.Remove | elements/transaction-pool/src/transaction_pool.ts:267-292 | the objects go through the specified removal, and the result says whether the id was pooled |
| TransactionPool.TransactionPool.RebuildQueue | elements/transaction-pool/src/transaction_pool.ts:282-289 | the rebuilt queue holds exactly the pooled ids with their priorities |
| TransactionPool.TransactionPool.EvictUnprocessable | elements/transaction-pool/src/transaction_pool.ts:310-338 | removes a transaction of least priority among all that getUnprocessable returns for the accounts, or reports that there is none |
| TransactionPool.TransactionPool.EvictProcessable | elements/transaction-pool/src/transaction_pool.ts:340-373 | removes a transaction of least priority among the highest processable ones of the accounts, or reports that there is none |
| TransactionPool.TransactionPool.TotalUnprocessable | elements/transaction-pool/src/transaction_pool.ts:174-177 | the sum over the lists is the number of transactions getUnprocessable returns for the accounts, and nothing changes |
| TransactionPool.TransactionPool.AddCheck | elements/transaction-pool/src/transaction_pool.ts:131-193 | goes through the specified check, in the order of its tests |
| TransactionPool.TransactionPool.AddCommit | elements/transaction-pool/src/transaction_pool.ts:198-265 | goes through the specified commit: nothing for an invalid transaction, else eviction from a full pool, then insertion |
| TransactionPool.TransactionPool.Insert | elements/transaction-pool/src/transaction_pool.ts:220-261 | creates the list of a new account, adds, and updates id map and queue |
| TransactionPool.VerifyInTurn | elements/transaction-pool/src/transaction_pool.ts:387-422 | the verification loop returns the ids of the transactions that verified before it broke off, and the invalid one if that was the reason |
| TransactionPool.TransactionPool.RemoveFromNonce | elements/transaction-pool/src/transaction_pool.ts:435-447 | the loop removes exactly the considered transactions from the nonce on |
| TransactionPool.TransactionPool.ReorganizeList | elements/transaction-pool/src/transaction_pool.ts:379-448 | one uninterrupted pass over one account does what is specified |

## Left out

- String contents: Unicode is not modelled; a string is its bytes, with an arbitrary predicate for NFC-normalised UTF-8, and writing is taken not to change a normalised string.
- JSON conversion, schema validation through Ajv, and the `dataPath` and header entries of compiled schemas, which neither reader nor writer uses.
- Numbers that are negative or not integers in unsigned fields, and values of the wrong JavaScript type, are one type error.
- UpdateCheck.VerifyValidatorsUpdate: the certificate, its threshold and the validators hash, which are checked before and after what is modelled, are left out.
- Hashing, Ed25519, BLS pairing, Argon2 and AES: parameters, or not modelled. The tag and the chain id of a signed message are part of the `sign` parameter.
- MultiSig.Transaction.Sign: does not model the validation of the transaction against its parameter schema; an absent signatures array is not representable.
- Fee.ComputeMinFee: multiplies exactly, where the source multiplies size and fee per byte as floating-point numbers before it converts, which differs only beyond 2^53; the parameters are taken as already encoded bytes.
- MinHeap.MinHeap.MoveUp: writes the moving node at every step, where the source writes it once at the end; the nodes after the loop are the same. MoveDown likewise.
- ValidatorsUpdate.CalculateNewActiveValidators: works on values; the source also overwrites the weights in the caller's validator objects.
- TransactionList.TransactionList.Promote: compares ids as bytes, where the source compares buffer identity; the pool protocol lets a promotion fail at any time to cover the difference.
- TransactionPool.TransactionPool.ReorganizeList: one account, without interruption; the outer loop over accounts repeats it. Passes that are interrupted while they await the verifier are modelled on values, in `PassProtocol`.
- Events, logging, timers, the reorganisation and expiry jobs and `receivedAt`: only the removals they cause are modelled. The order in which the accounts are visited, and which of several transactions of least priority is evicted, is left open.
- The default values of options, `getAddressFromPublicKey` and the other helpers of the modelled files, which would add only easy members.
- Merkle trees, the state store, BFT, the p2p layer, the framework, the plugins other than the validator update, the API client and the command line.
