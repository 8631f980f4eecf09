# Verification model of barrique

barrique stores a value as a stream of *regions*: the bytes an `Encode` implementation writes are gathered greedily
into regions of at most 65535 bytes, each region is compressed with LZ4 against its predecessor, and a 12-byte header
with sizes and an optional hash goes in front. Decoding pulls region after region back into a pair of buffers and hands
the bytes to a `Decode` implementation. A *frame* puts a magic number, a descriptor and a label before the stream.

This project models that pipeline in Dafny and proves that it gives values back.

* **Machines.** The two bearers are classes over real arrays with lengths (`Memory`, `Encoder`, `Decoder`). The LZ4
  streams hold no copy of their dictionary, only a place in memory; their contract demands that the bytes there are
  still the ones of the previous region, and the bearers are verified to keep it, through resets of the length to
  zero, reallocation and the opposite moments at which the two sides swap.
* **Specifications.** The encoder refines a state machine on values, which refines greedy grouping followed by framing
  (`Regions`, `Packing`). The decoder refines a *tape* (`Tapes`): the unread bytes of the current region, the regions
  that can still be pulled out of whatever bytes the source holds, and the error behind them. `Bearer` joins both. `Reuse`
  and the second half of `Tapes` say when a buffer that was used before shows.
* **Values.** `Values` has a schema for every encodable type, nested and derived ones included, the writes of a value
  and decoding from a tape; `RoundTrip` and `ValueLaws` relate them, `ValueCodec` runs them on the machines, `EndToEnd`
  composes everything. The proofs do not care where region boundaries fall. `Exactness` gives the exact condition of
  the round trip, `Canonical` the other direction, from accepted bytes to their value.
* **Beside the stream.** `Frames` is the second format, `Cursor` the buffered reader over a source that reads short, and
  `Ownership` the guards that drop half-decoded values. `Counterexamples` has an input for each property that fails.

LZ4, XXH64 and the allocator are a `Platform` of functions. Every theorem holds for every platform that meets the laws
in `Lz4.Platform.Lawful`: decompression undoes compression under the same dictionary, the compressed size is positive
and within `compress_bound`, a hash has 64 bits, and an allocation is at least as large as requested. `ShiftingIsLawful`
gives a platform that meets them and whose output depends on the dictionary, `PaddingIsLawful` one that cannot compress. Allocator choices that do not matter are
covered for all values; short and failing reads follow a script, over which the theorems quantify. `usize` is 64 bits wide and never overflows in
the model.

## Where the code differs from what is written about it

* The specification says the magic number is a 64-bit integer (`SPEC:51-52`); the code writes four bytes. The model
  follows the code.
* The example for reusing buffers (`src/encode.rs:316-338`) takes the raw buffer without flushing. Pending bytes then
  lead the *next* stream. A `RegionBuffer` that comes from a decoder shows even more: up to its first error its current
  side always holds the last region, read or not (`StreamDecoder.IntoRaw`), and its other side comes in with the first switch, after which the
  region can exceed 65535 bytes and the subtraction in `src/region.rs:123-125` no longer be defined. `ReuseIsInvisibleIff`
  says for every run when reuse is unnoticeable, `ReuseIsAlwaysInvisibleIff` for all runs together.
* `flush` does not swap the buffers (`src/encode.rs:344-346`), so that the next write lands on the compressor's
  dictionary, against the demand in `src/lz4/mod.rs:56-57`. `StreamEncoder.Append` says exactly when the demand survives:
  within the capacity of the buffer, if one of the new bytes and the flushed region is a prefix of the other; beyond it
  the block with the dictionary is given up. `StreamEncoder.Flush` says exactly when a flush ends the run.
* A decoder over a reused buffer behaves as a fresh one on exactly those sources in which no packet inflates to more than
  the largest size announced so far for its buffer, by its own header or an earlier one, because the decompressor is
  given the whole spare capacity: `BufferHistoryIsInvisibleIff`. `UsedBufferTakesMore` has a packet that a fresh decoder
  refuses and a used one accepts.
* A compressed size above 65535 is truncated by the cast in `src/region.rs:391`: `PacketPullsBackIffFits` shows that
  a region comes back exactly if its compressed body fits, `FullRegionIsLost` has one that does not, and
  `SmallStreamsFit` names a size that is always safe.
* A stream into which nothing was written, such as that of `()`, cannot be opened again: `StreamRoundTrip` and
  `FrameRoundTripIff` give the exact outcome.
* Lengths and tags are cast, so a value with a string, vector, map or set of 2^32 or more entries or an enum tag beyond
  its type, at whatever depth, does not come back: `ValueReadsBackIff`, with `LongVectorComesBackEmpty` and
  `LastVariantComesBackAsFirst` as inputs.
* The decoder of a `char` checks the continuation bytes and nothing else (`src/impl/mod.rs:162-182`). It hands out
  surrogates and numbers above 0x10FFFF as characters and accepts longer forms than necessary: `CharIsEncodedIff` gives
  the exact bytes, `MalformedCharsAreAccepted` an input for each. Strings are validated as a whole and not
  affected: `StringsAreCharacters`.
* A derived struct whose skipped field is followed by one that fails to decode leaks the default of the skipped field:
  `FailureLeaksNothingIff` gives the types for which no failing run leaks, `SkippedFieldLeaks` the smallest other one.
* `CursorReader` counts only the fresh bytes in `end` after a refill that carried leftover bytes, and then never refills
  again; `Frozen` and the contract of `ReadBorrow` say when, and what a window shows in every case.

## Model

| member | source | states |
|---|---|---|
| Lz4.ShiftingIsLawful | src/lz4/mod.rs:56-83 | the laws asked of the compressor can be met together, by a platform whose output really depends on the dictionary |
| Lz4.BoundFitsSixteenBits | src/lz4/mod.rs:97-103 | 65264 is the largest raw size for which `compress_bound` guarantees a 16-bit compressed size |
| Lz4.BoundIsDefinedIff | src/lz4/mod.rs:97-103 | `compress_bound` is positive exactly up to 2113929216 bytes, and then exceeds the size by one byte in 255 and 16 |
| Bytes.FromToLe | src/impl/mod.rs:24-89 | `from_le_bytes` undoes `to_le_bytes` for every integer that fits the width |
| Bytes.ToFromLe | src/region.rs:191-201 | `to_le_bytes` undoes `from_le_bytes`, and the integer fits the width |
| Regions.HeaderRoundTrip | src/region.rs:187-213 | a header in range is parsed back from its bytes, whatever follows them |
| Regions.HeaderBytesRoundTrip | src/region.rs:187-213 | every 12 bytes are the serialisation of the header parsed from them, which is in range |
| Regions.HeaderLayout | src/region.rs:170-179 | the layout of the specification: both sizes and the hash, least significant byte first |
| Regions.PacketNamesHash | src/region.rs:390-394 | the hash field of a packet is XXH64 of the raw bytes under the seed, and zero without one |
| Regions.WriteAllRefinesGrouping | src/encode.rs:368-381 | at every step of a run the destination holds the framing of the regions closed so far, the compressor remembers the last of them, and the open region holds the rest |
| Regions.GroupingConserves | src/encode.rs:368-381 | closed regions and gathered bytes together are exactly the bytes written so far, in order |
| Regions.FlushedRunIsFraming | src/encode.rs:344-381 | refinement: after writes and a flush the destination is its old content followed by the framing of the greedy grouping |
| Regions.StandbyComesIn | src/encode.rs:374-378 | a run over a used buffer closes and gathers as many bytes as were pending and written, and those on the other side as well exactly if it switches |
| Reuse.ReuseIsInvisibleIff | src/encode.rs:227-236 | run by run, regions fitting their size fields: an encoder over a used buffer writes what a new one writes if and only if nothing is pending in it and its other side is empty or the run never switches |
| Reuse.ReuseIsAlwaysInvisibleIff | src/region.rs:102-110 | over all runs together the output is a new encoder's if and only if both sides of the used buffer are empty |
| Packing.GreedyRegionsArePacked | src/encode.rs:368-378 | regions are non-empty, at most 65535 bytes, and no two neighbours would have fitted into one |
| Packing.GreedyRegionsConserve | src/encode.rs:368-381 | the regions of a flushed run are exactly the written bytes |
| Packing.PackedRegionCount | src/region.rs:123-125 | T raw bytes make at most 2 * (T / 65536) + 1 regions |
| Packing.GreedyStaysAhead | src/encode.rs:374-378 | against any other placement of whole writes, greedy is never behind in closed regions and gathered bytes |
| Packing.GreedyIsFewest | src/encode.rs:374-378 | a flushed run has the fewest regions of all groupings that never split a write |
| Packing.FramingSize | src/region.rs:371-413 | compression and headers cost at most one byte in 255 and 28 bytes a region, however early regions were switched |
| Packing.StreamSize | src/region.rs:371-413 | the size bound of a flushed stream in terms of the total written alone |
| Packing.MaxEncodedSizeBoundsFullRegions | src/region.rs:14-24 | `max_encoded_size` bounds every stream of full regions with one shorter region at the end |
| Packing.MaxEncodedSizeValue | src/region.rs:14-24 | the value of `max_encoded_size`: 65808 bytes a full region, the bound of what is left over, and 12 a header |
| Packing.BytewiseStreamSize | src/region.rs:14-24 | `max_encoded_size` bounds every stream that was written byte by byte |
| Tapes.PacketHeader | src/region.rs:390-394 | the raw size is stored without loss, the compressed size modulo 65536, and the body follows the header |
| Tapes.PacketPullsBackIffFits | src/region.rs:281-326 | a packet is pulled back with the source left right behind it if and only if its compressed body fits 16 bits |
| Tapes.FramingPullsBack | src/region.rs:281-326 | a framed stream pulls back into exactly its regions, for all buffer capacities, and then reports the end |
| Tapes.SafeRegionsFit | src/lz4/mod.rs:97-103 | regions of at most 65264 bytes always fit |
| Tapes.OtherSeedIsNoticedIff | src/region.rs:319-322 | a packet written under one seed, or none, is accepted under another exactly if XXH64 of its bytes is the same under both, and has an invalid hash otherwise |
| Tapes.CutPacketIsRefused | src/region.rs:282-289 | every proper prefix of a packet is a read failure below 12 bytes and has an invalid size hint from there on |
| Tapes.CutStreamYieldsWholeRegions | src/region.rs:281-326 | a stream cut at any byte yields exactly the regions whose packets are whole, and then says whether the next one lacks its header or its body |
| Tapes.BadBodyIsMalformed | src/region.rs:306-311 | a whole packet whose body does not inflate, or to nothing, is malformed |
| Tapes.PulledRegionIsHeld | src/region.rs:281-326 | an accepted packet, told by its bytes: sizes and hash at their offsets, the body inflating to the region, and the integer in its hash field XXH64 of the region under the seed |
| Tapes.PullIsRefused | src/region.rs:281-326 | each error of a pull, told by the bytes: too few for a header, too few for the body, a body that does not inflate within the capacity, another hash |
| Tapes.PulledRegionsAreGenuine | src/region.rs:281-326 | what arbitrary bytes yield: consecutive packets from the front, each inflated with its predecessor as dictionary and with the hash named in its header, the source advanced by exactly the sum of 12 and their compressed sizes, up to bytes that show the reason reported for refusing them |
| Bearer.ReadsStayWithinRegions | src/decode.rs:334-343 | on any tape, every piece a run of reads returns is a contiguous part of a single region, and the pieces lie in the order of the stream without overlapping |
| Bearer.ReturnedBytesAreVerified | src/decode.rs:219-230 | on arbitrary source bytes, the pieces returned up to the first error lie, in order, in the consecutive packets at the front of the source whose hashes matched |
| Tapes.PullIgnoresCapacityIff | src/region.rs:300-317 | the outcome of a pull is the same for all capacities from a given one on if and only if the packet does not inflate beyond that capacity and its announced size |
| Tapes.BufferHistoryIsInvisibleIff | src/decode.rs:187-197 | a source yields the same regions and error in buffers of all capacities, new or used, if and only if no packet inflates beyond the largest size announced so far for its buffer |
| Bearer.ReadPiece | src/decode.rs:334-343 | reading the first piece of the next write returns it and leaves the rest of that write and all later ones |
| Bearer.CutsReadBack | src/decode.rs:334-343 | however each write is cut into reads, the reads return the pieces in order and leave the later writes |
| Bearer.GroupingAligns | src/encode.rs:374-378 | greedy grouping splits no write over two regions |
| Bearer.FirstRegionLoaded | src/decode.rs:219-230 | pulling the first region when a decoder is built loses nothing |
| Bearer.NothingWritten | src/region.rs:364-369 | a flushed run emits no region if and only if no byte was written |
| Bearer.StreamOpensIffWritten | src/decode.rs:219-230 | a flushed stream opens into a tape with its writes if and only if a byte was written; otherwise building a decoder reports a read failure |
| Bearer.ReadFailsIff | src/decode.rs:334-343 | a read fails exactly if neither the current nor the next region has enough bytes, with the error of the pull if there is no next one and out of bounds otherwise |
| Bearer.BearersRoundTrip | src/decode.rs:334-343 | both bearers together: any writes, each cut into reads at will, come back as the pieces written, with nothing left; reading on is a read failure |
| Memory.WriteTo | src/encode.rs:129-148 | copies the source into place and changes nothing else |
| Memory.ByteVec.Reserve | src/encode.rs:110-117 | keeps the contents and provides the requested spare capacity, in the same memory exactly if it was there already and in fresh memory otherwise |
| Memory.ByteVec.ExtendFromSlice | src/region.rs:97-100 | appends exactly the slice |
| Memory.RegionBuffer.Swap | src/region.rs:71-74 | exchanges the two vectors and moves no byte |
| Memory.RegionBuffer.Read | src/region.rs:148-154 | returns the next bytes and advances, or refuses and stays |
| Memory.CompressStream.Compress | src/lz4/mod.rs:47-84 | compresses against the bytes that lie in memory where the last region was, which must be unmodified, and then remembers the new region's place |
| Memory.DecompressStream.Decompress | src/lz4/mod.rs:134-173 | inflates against the bytes that lie in memory where the last region was, within the capacity given |
| Encoder.Push.WritePacket | src/region.rs:371-395 | the arena holds the packet of the region, compressed against the window the compressor remembers |
| Encoder.Push.Pass | src/region.rs:363-414 | one push is one step of the encoder machine, and leaves the buffer empty with its bytes still in memory |
| Encoder.StreamEncoder.constructor | src/encode.rs:349-362 | a new encoder starts a run with nothing remembered and nothing pending |
| Encoder.StreamEncoder.FromRaw | src/encode.rs:227-262 | an encoder over a used buffer of any bearer starts with the bytes that are left on both of its sides |
| Encoder.StreamEncoder.IntoRaw | src/encode.rs:339-341 | hands out the buffer with the pending bytes on its current side |
| Encoder.StreamEncoder.SwitchRegion | src/encode.rs:374-377 | after push and swap the dictionary lies in the other buffer, intact, and gathering goes on behind what the other side held |
| Encoder.StreamEncoder.Append | src/region.rs:160-162 | between flushes the bytes are gathered; right after a non-empty flush they go over the dictionary, which in place holds on if and only if the new bytes and the flushed ones agree, and which is given up if the buffer must grow |
| Encoder.StreamEncoder.Write | src/encode.rs:368-381 | one write is one step of the machine, keeps the dictionary intact, and is refused without effect above 65535 bytes; the first write after a non-empty flush is specified by the capacity of the buffer |
| Encoder.StreamEncoder.Flush | src/encode.rs:343-346 | a flush pushes what is pending, and ends the run exactly if something was |
| Decoder.SliceReader.Advance | src/decode.rs:81-93 | drops exactly the bytes advanced over |
| Decoder.Pull.Pass | src/region.rs:281-326 | one pull has exactly the specified outcome on arbitrary bytes, errors included, with the previous region as dictionary, and advances the source on success by the packet and on an error not at all |
| Decoder.StreamDecoder.Build | src/decode.rs:219-230 | building over any region buffer yields the tape of the source, its first region being the first accepted, or the specified error with the source in place |
| Decoder.StreamDecoder.IntoRaw | src/decode.rs:306-308 | hands out the buffer, whose current side holds the last region accepted |
| Decoder.StreamDecoder.SwitchRegion | src/decode.rs:335-338 | swap and pull move the tape to its next region, which is the next one accepted, or return the error at its end with the source in place |
| Decoder.StreamDecoder.Read | src/decode.rs:334-343 | one read is one read of the tape, on arbitrary bytes; what it returns is part of the region accepted last; up to and including the first error the source has advanced by exactly the packets of the accepted regions |
| Utf8.BitsAreDigits | src/impl/mod.rs:162-182 | the masks and shifts of the decoder on bytes and 32-bit words give the number decoded here, and refuse the same bytes |
| Utf8.CharRoundTrip | src/impl/mod.rs:139-217 | every scalar value is recovered from its one to four bytes, and the leading byte asks for exactly the bytes written after it |
| Utf8.DecodedCharIsScalarIff | src/impl/mod.rs:177-181 | what is decoded is a scalar value if and only if the bytes are in range: no surrogate in three bytes or in four, and nothing above 0x10FFFF |
| Utf8.DecodedCharIsCanonicalIff | src/impl/mod.rs:162-182 | a scalar value decoded would be encoded as the same bytes if and only if they are its shortest form |
| Utf8.EncodedCharsAreValid | src/impl/alloc.rs:315-325 | the bytes of every string are accepted back |
| Utf8.ValidUtf8Iff | src/impl/alloc.rs:315-325 | the bytes accepted as a string are exactly the encodings of sequences of scalar values |
| RoundTrip.CharReadsBack | src/impl/mod.rs:184-217 | a character written at once is read back as one byte and then the others |
| RoundTrip.NumberReadsBack | src/impl/mod.rs:24-137 | integers of all widths and signs and booleans come back |
| RoundTrip.SliceReadsBack | src/impl/mod.rs:467-477 | the byte slice of a string comes back, one write a byte after the length |
| RoundTrip.OptionReadsBack | src/impl/mod.rs:219-258 | options come back |
| RoundTrip.ResultReadsBack | src/impl/mod.rs:260-304 | results come back, the two tags told apart |
| RoundTrip.ListReadsBack | src/impl/mod.rs:363-465 | arrays and the items of sequences come back item by item |
| RoundTrip.CountedReadsBack | src/impl/alloc.rs:214-263 | length-prefixed sequences come back |
| RoundTrip.FieldsReadBack | derive/src/decode/struct_.rs:20-90 | the fields of tuples and derived structs come back in order, skipped ones as their defaults |
| RoundTrip.EnumReadsBack | derive/src/decode/enum_.rs:20-139 | derived enums come back as the same variant |
| RoundTrip.ValueReadsBack | src/impl/mod.rs:11-477 | for every schema, a countable value next on a tape decodes to its meaning and exactly the writes behind it are left, wherever the region boundaries are |
| Exactness.DecodedIsCompact | src/impl/alloc.rs:214-263 | whatever is decoded, from any bytes, has lengths below 2^32 and tags within their type at every depth |
| Exactness.CompactMeansCountable | src/impl/mod.rs:349-355 | a value whose meaning has such lengths and tags had them itself, entries of maps and sets being told apart by what they mean |
| Exactness.UncountableIsNeverDecoded | src/impl/mod.rs:349-355 | no bytes whatever decode to a value with a length or a tag beyond its type |
| Exactness.ValueReadsBackIff | src/impl/mod.rs:11-477 | for every schema, maps and sets included, a value next on a tape comes back with exactly the later writes left if and only if all its lengths and tags survive their casts; keys and elements are to differ in what they mean |
| Exactness.PlainSetIsDistinctIff | src/impl/seq.rs:59-87 | sets of elements without skipped fields qualify exactly if the elements differ |
| Exactness.PlainMapIsDistinctIff | src/impl/seq.rs:14-46 | maps of entries without skipped fields qualify exactly if the keys differ |
| Canonical.AcceptedIsEncoded | src/impl/mod.rs:219-477 | whatever a type without single characters, maps, sets and skipped fields accepts is a value of the type, and the bytes taken are its encoding |
| Canonical.DecodesIffEncoded | src/impl/mod.rs:219-477 | for such types decoding and encoding are inverse both ways: a value is decoded with a rest left over if and only if the bytes are its encoding followed by the rest |
| Canonical.CharIsEncodedIff | src/impl/mod.rs:184-217 | the exact bytes for which a decoded character is a scalar value, and for which they are its encoding |
| Canonical.OneFormIff | src/impl/mod.rs:219-477 | the types of `AcceptedIsEncoded` and `DecodesIffEncoded`: numbers of 1 to 16 bytes, booleans, units, strings, and what is composed of them without skipped fields |
| Canonical.StringsAreCharacters | src/impl/alloc.rs:315-325 | a complete byte vector decodes to a string exactly if it encodes scalar values, and is an invalid pattern otherwise |
| RoundTrip.VecReadsBackIffCountable | src/impl/mod.rs:349-355 | a vector comes back if and only if its length survives the cast to `u32` |
| RoundTrip.EnumReadsBackIffTagFits | derive/src/encode/enum_.rs:69-80 | an enum value comes back if and only if its tag survives the cast to the tag type |
| ValueLaws.EncodingIsPrefixFree | src/impl/mod.rs:219-379 | no encoding is a proper prefix of another of the same type, and equal encodings mean the same |
| ValueLaws.PlainValuesAreKept | src/impl/mod.rs:11-477 | without skipped fields, maps and sets a value means itself, so decoding returns it unchanged |
| ValueLaws.SkippedFieldsAreReplaced | derive/src/decode/struct_.rs:66-90 | decoding replaces exactly the skipped fields, each by its default |
| ValueLaws.SkippedFieldsAreNotWritten | derive/src/encode/struct_.rs:19-49 | the content of skipped fields does not influence the encoding |
| ValueLaws.MapKeepsLastValues | src/impl/seq.rs:34-46 | for arbitrary decoded pairs the map has exactly their keys, each with its last value |
| ValueLaws.MapOrderIsForgotten | src/impl/seq.rs:14-46 | a map decodes to the same map in whatever order its entries were written |
| ValueLaws.SetOrderIsForgotten | src/impl/seq.rs:59-87 | a set decodes to the same set in whatever order its elements were written |
| ValueLaws.IntegersAreLittleEndian | src/impl/mod.rs:24-104 | byte i of every integer of every width and signedness is its digit of weight 256^i |
| ValueLaws.IntegersInRange | src/impl/mod.rs:24-104 | integers have 1 to 16 bytes and all values of their width and signedness |
| ValueLaws.TagBytes | src/impl/mod.rs:106-304 | false, none and errors are written as 0, true, some and successes as 1, and the content follows |
| ValueLaws.LengthsComeFirst | src/impl/mod.rs:344-379 | sequences, strings, maps and sets begin with four bytes of length, enums with their tag, and the content follows |
| ValueLaws.UnknownTagsAreInvalid | src/impl/mod.rs:106-304 | other tag bytes, enum tags without a variant and bytes that start no character are invalid patterns |
| ValueCodec.EncodeValue | src/impl/mod.rs:11-477 | the encoder machine receives exactly the writes of the value |
| ValueCodec.EncodeList | src/impl/mod.rs:344-379 | the loop over items writes them in order |
| ValueCodec.EncodeFields | derive/src/encode/struct_.rs:19-62 | fields are written in declaration order without the skipped ones |
| ValueCodec.EncodeEnum | derive/src/encode/enum_.rs:19-136 | the tag and then the fields of the variant are written |
| ValueCodec.EncodeString | src/impl/alloc.rs:305-313 | the length and then every byte is written |
| ValueCodec.DecodeValue | src/impl/mod.rs:11-477 | on arbitrary input the decoder machine returns what decoding from its tape returns, errors included, and is left where the tape is left |
| ValueCodec.ReadChar | src/impl/mod.rs:184-217 | on arbitrary input a character is read as specified: a wrong leading or continuation byte is refused, and nothing else |
| ValueCodec.DecodeItems | src/impl/mod.rs:439-465 | the decoding loop of arrays and sequences |
| ValueCodec.DecodeSlice | src/impl/alloc.rs:241-260 | the decoding loop of a string's bytes |
| ValueCodec.InsertItems | src/impl/seq.rs:34-46 | the decoding loop of maps inserts every decoded pair |
| ValueCodec.CollectItems | src/impl/seq.rs:77-87 | the decoding loop of sets inserts every decoded element |
| ValueCodec.DecodeRecord | derive/src/decode/struct_.rs:20-64 | fields are decoded in order |
| ValueCodec.DecodeEnum | derive/src/decode/enum_.rs:20-139 | tag dispatch, with the refusal of unknown tags |
| EndToEnd.WritesAreSmall | src/impl/mod.rs:11-477 | no implementation requests a write that the encoder refuses |
| EndToEnd.SmallStreamsFit | src/region.rs:390-394 | a value of at most 65264 encoded bytes is never hit by the truncated size field |
| EndToEnd.StreamRoundTrip | src/decode.rs:28-40 | a decoder on a countable value's flushed stream opens if and only if the value wrote a byte, and then yields its meaning with nothing left |
| EndToEnd.StreamRoundTripIff | src/decode.rs:28-40 | of the values that wrote a byte, exactly the countable ones come back from their flushed stream |
| EndToEnd.AppendStream | src/encode.rs:349-381 | encoding through a new encoder and flushing appends exactly the value's stream |
| EndToEnd.DecodeStream | src/decode.rs:219-230 | building a decoder and decoding has the specified result on every source |
| EndToEnd.EncodeAndDecode | src/lib.rs:34-48 | on the machines, encoding, flushing and decoding gives the value's meaning back if it wrote something and is countable, a read failure if it wrote nothing, and never its meaning if it is not countable |
| Frames.MetadataBytes | src/frame.rs:242-263 | the metadata takes 4 + 1 + 8 if there is a timestamp + 1 + label length bytes |
| Frames.MetadataLayout | src/frame.rs:186-206 | magic number, flag bits, timestamp and label are where the format puts them |
| Frames.MetadataReadsBackIff | src/frame.rs:213-237 | metadata reads back with the stream left right behind it if and only if nine bytes follow the magic number |
| Frames.ValidMetadataIff | src/frame.rs:66-78 | labels are up to 255 ASCII characters, all of them |
| Frames.LabelOutcome | src/frame.rs:114-133 | the outcome of parsing a label on every source, told by its bytes |
| Frames.MetadataOutcome | src/frame.rs:213-237 | the outcome of parsing metadata on every source, told by its bytes |
| Frames.ParsedMetadataIsWrittenIff | src/frame.rs:303-359 | parsed metadata is valid, and the bytes parsed are the ones that would be written if and only if the reserved bits are zero |
| Frames.WriteMetadata | src/frame.rs:239-263 | appends exactly the metadata |
| Frames.EncodeFrame | src/frame.rs:478-493 | appends exactly the metadata, flagged as seeded if there is a seed, and the value's stream |
| Frames.OpenFrame | src/frame.rs:213-237 | parses like the specification on every source and consumes exactly the metadata despite the lookahead |
| Frames.ReadLabel | src/frame.rs:114-133 | labels, with the refusal of short and non-ASCII ones |
| Frames.DecodeFrame | src/frame.rs:511-574 | opening and getting the value has the specified result on every source |
| Frames.FrameRoundTripIff | src/frame.rs:478-574 | a frame gives its value back if and only if the value wrote a byte and is countable, and what happens if it wrote nothing |
| Frames.FrameOpensAndChecksEnvironment | src/frame.rs:511-574 | metadata is available without the value, and a differing presence of a seed is refused |
| Cursor.CursorReader.constructor | src/cursor.rs:233-255 | a new reader has received and consumed nothing |
| Cursor.CursorReader.ReadBorrow | src/cursor.rs:278-325 | a request within the buffer is served and touches nothing; beyond it, it is out of bounds if the buffer is not full, and otherwise reads the source once, fails exactly if the source does, and receives exactly what it delivers; a window shows the next source bytes as far as they were received and zeros behind |
| Cursor.CursorReader.Grow | src/cursor.rs:290-310 | a refill keeps the position in the source, has the amortised size, succeeds exactly if the source does, counts only what was delivered, and freezes the reader if it carried leftover bytes |
| Cursor.CursorReader.Advance | src/cursor.rs:327-329 | consumes exactly the bytes advanced over |
| Cursor.CursorReader.ReceivedWindowIsSource | src/cursor.rs:278-288 | a window within the bytes received is exactly the next bytes of the source |
| Cursor.ReadInTwo | src/cursor.rs:217-222 | the documentation's example for all sizes: a source delivered at once is read back in two parts |
| Ownership.TupleArmCountsDown | derive/src/tuple_drop_guard.rs:13-43 | the generated arm for a count drops the fields below it, each once, last one first |
| Ownership.DropByArm | src/impl/tuple.rs:35-40 | the tuple guard drops exactly the complete fields, and is never asked for the unreachable arm |
| Ownership.DropInOrder | derive/src/decode/struct_.rs:92-130 | array, vector and struct guards drop exactly the complete parts that are not skipped |
| Ownership.Decode | src/impl/mod.rs:439-465 | for every number of elementary decodes after which the source fails: decoding succeeds if and only if that is enough, success leaves every slot live, failure exactly the state foretold; no slot is initialised or dropped twice or dropped uninitialised |
| Ownership.DecodeParts | src/impl/tuple.rs:42-60 | the decoding loop of all composite values with its guard, for every point of failure |
| Ownership.AbandonedIff | src/impl/mod.rs:429-436 | the states failing runs leave behind are exactly those in which one part failed, the guard released the parts before it and those behind were never begun |
| Ownership.BegunAreTouched | src/impl/alloc.rs:241-260 | in every failed state exactly the leaves begun before the failure have been touched |
| Ownership.FailureDropsPrefix | src/impl/alloc.rs:108-205 | when a leak-free type fails to decode, exactly the leaves initialised so far have been dropped |
| Ownership.SomeFailureLeaks | derive/src/decode/struct_.rs:97-113 | every type that is not leak-free has a failing run that leaves a live leaf |
| Ownership.FailureLeaksNothingIff | derive/src/decode/struct_.rs:92-130 | no failing run leaves a live leaf if and only if no part that can fail follows a skipped field with content |
| Ownership.UnskippedIsLeakFree | src/impl/mod.rs:381-465 | arrays, tuples, vectors, boxed slices and structs without skipped fields are leak-free |
| Counterexamples.FullRegionIsLost | src/region.rs:390-394 | a lawful platform and a region of 65535 bytes whose stream yields nothing but an error |
| Counterexamples.UsedBufferTakesMore | src/region.rs:300-313 | a packet that a buffer without capacity refuses as malformed and a used one accepts |
| Counterexamples.OutgrowingCanStayHidden | src/region.rs:300-313 | a packet that inflates beyond its header in a source that no buffer tells from another |
| Counterexamples.LongVectorComesBackEmpty | src/impl/mod.rs:349-355 | 2^32 units are written with length zero and come back as none |
| Counterexamples.LastVariantComesBackAsFirst | derive/src/encode/enum_.rs:69-80 | the last of 257 variants under a one-byte tag comes back as the first |
| Counterexamples.MalformedCharsAreAccepted | src/impl/mod.rs:184-217 | a surrogate, a number above all code points and a zero in two bytes are accepted as characters |
| Counterexamples.SkippedFieldLeaks | derive/src/decode/struct_.rs:97-113 | a failing run of a two-field struct that leaks a default; with an empty array as second field none can fail |

## Left out

- StreamEncoder.Write: says what the first write after a non-empty flush does to the compressor's dictionary, but no further steps are modelled from there; the documentation calls an explicit flush the final one. Runs are of the form writes, then one flush. It asks for a current side of at most 65535 bytes, without which the subtraction of the remaining room is not defined in the source; in the step function on values the difference is an unbounded integer.
- StreamEncoder.FromRaw: takes buffers with up to two gigabytes on a side, far beyond what any bearer leaves in one.
- StreamDecoder.Read: is stated up to the first error. After a failed read the buffers are swapped and the cursor is stale, and nothing is promised about later reads.
- CursorReader.Advance: is stated for advances within the last window returned, as the only user makes them.
- DecompressStream.Decompress: does not model what a failed decompression leaves in the spare capacity.
- Ownership.Decode: counts elementary decodes instead of reading bytes; the freeing of the heap block of a boxed slice is not modelled. Decoded values are returned by the other modules, not written into place. The fields of enum variants are local variables that the language drops, and have no guard.
- Canonical.DecodesIffEncoded: is about a single region, where no bytes are given up at a boundary; single characters have their own condition, maps, sets and skipped fields more than one encoding of what they mean.
- LZ4 and XXH64 themselves, and the alternative contiguous-buffer mode of LZ4.
- The writers over slices, over `Cursor` and over `std::io::Write`: the destination is a `Vec<u8>`, which never refuses space.
- `Decode` for `Box<T>`, `Arc<T>` and `Rc<T>` of a single value; their encoding is that of the value.
- Tuple structs with skipped fields, `encode_with` and `decode_with` functions, and the token-level work of the derive macros.
- `size_of` hints, which only choose initial capacities.
- Errors of real I/O other than as a failing read, error texts, `no_std` configuration and targets with 32-bit `usize`.
