# Verified model of the zserio C++ runtime

This project models the parts of the zserio C++17 runtime library that turn values into bits and text and back, and
proves that they fit together. It holds two models.

**The bit-level codec.** `BitStreamWriter` writes shifted and masked bytes in place; `BitStreamReader` reads through a
32-bit or 64-bit cache; nine variable-length integer formats have size tables kept apart from encoder and decoder;
`DeltaContext` packs arrays of numbers as differences; the array functions traverse an array up to four times (size,
offsets, write, read). The common ground is an abstract stream: a sequence of bits, most significant bit first. Every
method is proved against functions on that sequence, and the round trips are proved about these functions and then
carried back to runs of the methods on real buffers. Around the codec are the order and the hash code of bit buffers
and the conversion of half-precision floats.

**The JSON printer, tokenizer and parser.** The printer keeps the state of separators and levels; the tokenizer decodes
a text that arrives in chunks; the parser is a recursive descent that calls an observer; the walker drives the printer
and can be cut short by filters. The common ground is the token list of a text.

| file | models |
|---|---|
| Bits.dfy | machine words as numbers: shifts, masks, bit strings |
| VarInt.dfy | size tables, layout and decoding of variable-length integers |
| Streams.dfy, Items.dfy | results of reading; the bits of every kind of item |
| BitStreamWriter.dfy, BitStreamReader.dfy | the writer and the cached reader as classes |
| Serialization.dfy | whole runs of both |
| DeltaContext.dfy, ArrayView.dfy | delta packing and arrays |
| BitBuffer.dfy, FloatUtil.dfy | bit buffers, half-precision floats |
| JsonDecoder.dfy, JsonTokenizer.dfy, JsonParser.dfy, JsonWriter.dfy | JSON values, tokens, grammar, printer |
| JsonRoundTrip.dfy | printing and parsing |
| Walker.dfy, JsonWalk.dfy | the walk with its filters; the walk that prints |
| ObjectRoundTrip.dfy | from an object to its text and back |

Integers are unbounded; widths, wrap-around and truncation are written out where the code depends on them. An exception
is a value of a result type. `size_t` positions are not bounded, `BitSize` is reduced modulo 2^32.

Where a property the code suggests does not hold, a lemma or method gives a concrete case and the exact condition is
proved beside it:

- `varsize` accepts some numbers above 2^32 and returns them modulo 2^32 (`VarInt.OverlongVarSize`,
  `VarInt.VarSizeLongForm`).
- A failed read leaves cached bits that no longer belong to the position, until the next successful seek; from then on
  reads are served from them, even beyond the end (`Serialization.FailedReadLeavesStaleCache`), unless nothing was
  cached or the cached bits happen to come twice (`Reader.MovedPastCache`).
- Packing is given up for arrays whose 32-bit size wraps around (`DeltaPacking.HugeArrayIsNotPacked`,
  `DeltaPacking.OptimalIffSameAnswer`).
- An implicit array of variable-length integers does not yield its own length unless its elements take one byte each
  (`Arrays.ImplicitVarints`, `Arrays.TwoByteElement`).
- Aligning positions in 32 bits commutes with wrapping around only for alignments that divide 2^32
  (`Arrays.AlignWrappedIff`; the position 2^32 shows it for every other one).
- Padding of more than 64 bits cannot be written (`Writer.AlignmentReached`, `Writer.AlignmentMissed`).
- A text that ends with a value may lose that value, depending on the chunks (`JsonTokens.ChunksMatterForOpenTexts`):
  this happens exactly to texts in which something complete precedes the value (`JsonTokens.LostOnlyThere`,
  `JsonTokens.ReadWithoutLast`) and in exactly the chunks described by `JsonTokens.ReadTokens` and
  `JsonTokens.LosingBoundary`.
- Finite floats from 65536 on become infinity only when the kept significand bits are zero; others become a NaN or even
  a zero of the opposite sign, although the comment at runtime/src/zserio/FloatUtil.cpp:119 speaks of an overflow to
  infinity (`HalfFloats.LargeIsInfinityIff`, `HalfFloats.LargeNumbersLost`).
- Floats of half the smallest half-precision number and above, but below that number, become zero although the
  smallest number is nearer (`HalfFloats.SmallNumberLost`); only half of it lies exactly between, and for everything
  smaller zero is nearest (`HalfFloats.ZeroIsNearestIff`).
- The regular-expression filter does not look at the paths of compounds when it decides about the array they are in, so
  it hides an array in which only such a path matches (`Walking.ElementHidden`); everything that matches is shown iff
  there is no such array (`Walking.RegexCompound`).
- runtime/src/zserio/BitBuffer.h:235 promises that unused bits of the last byte are zero, but the constructors keep
  whatever the given bytes hold (`BitBuffers.UnusedBitsSet`, `BitBuffers.UnusedBitsZeroIff`); equality, order and hash
  code are proved not to depend on them.

## Model

| member | source | states |
|---|---|---|
| `VarInt.BitSizeOfVarIntImpl` | runtime/src/zserio/Types.cpp:90-110 | The loop over a size table returns eight times the position of the first bound that covers the value, and an exception when none does |
| `VarInt.BytesNeededIsLeast` | runtime/src/zserio/Types.cpp:90-110 | The byte count found in a table is the least one whose bound covers the value |
| `VarInt.BitSizeOf` | runtime/src/zserio/Types.cpp:118-166 | For all nine formats the size exists exactly for the values in range, the smallest 64-bit integer taking 8 bits as `varint` |
| `VarInt.VarBytesIsLeast` | runtime/src/zserio/Types.cpp:11-166 | A value takes at most `k` bytes iff the `k`-th table bound covers its magnitude (or it is the smallest integer of `varint`) |
| `VarInt.TableFitsGroups` | runtime/src/zserio/Types.cpp:11-87 | The size tables never promise more bits than the byte layout and the accumulator of the reader have room for |
| `VarInt.TableIsCapacity` | runtime/src/zserio/Types.cpp:11-87 | Every entry of every size table is the number of bits an encoding of that many bytes has room for, 31 for the fifth byte of `varsize` |
| `VarInt.ShortestForm` | runtime/src/zserio/Types.cpp:90-166 | The encoding is the shortest one: it takes `n` bytes iff the number fits `n` bytes but not fewer |
| `VarInt.RangeIsCapacity` | runtime/src/zserio/Types.cpp:90-166 | A value is in range iff it fits the longest form of its format, the smallest integer of `varint` being the exception |
| `VarInt.FormRoundTrip` | runtime/src/zserio/BitStreamWriter.cpp:622-661 | Any byte form of a number that fits it is read back as that number and its sign, and exactly its bytes are consumed |
| `VarInt.VarRoundTrip` | runtime/src/zserio/BitStreamReader.cpp:462-820 | In every format, for every value in range and whatever bits surround it, the decoder inverts the encoder and stops after the bytes the size tables give |
| `VarInt.NegativeZero` | runtime/src/zserio/BitStreamWriter.cpp:415-425 | The byte written for the smallest 64-bit integer, negative zero, is read back as that integer |
| `VarInt.VarSizeLongForm` | runtime/src/zserio/BitStreamReader.cpp:782-820 | The five-byte form of `varsize` yields its 36 bits modulo 2^32, or an exception above 2^31 - 1; it yields the number itself iff that is at most 2^31 - 1 |
| `VarInt.OverlongVarSize` | runtime/src/zserio/BitStreamReader.cpp:782-820 | A concrete number above 2^32 that is read as 1 |
| `Writer.BitStreamWriter.WriteUnsignedBits32Impl` | runtime/src/zserio/BitStreamWriter.cpp:551-596 | Writes exactly the given bits, big-endian, at the position; every other bit of the buffer is unchanged; fails iff they do not fit; without a buffer only the position moves |
| `Writer.BitStreamWriter.WriteUnsignedBits64Impl` | runtime/src/zserio/BitStreamWriter.cpp:598-609 | The same for up to 64 bits, written as two words |
| `Writer.WritableIsRepresentable` | runtime/src/zserio/BitStreamWriter.cpp:349-539 | The conditions under which the writer is described leave out nothing that it accepts but the largest blocks of bytes |
| `Writer.BitStreamWriter.WriteUnsignedBits32` | runtime/src/zserio/BitStreamWriter.cpp:349-358 | The same for checked arguments; bad bit counts and values that do not fit are refused and change nothing |
| `Writer.BitStreamWriter.WriteUnsignedBits64` | runtime/src/zserio/BitStreamWriter.cpp:360-369 | The same for up to 64 bits |
| `Writer.BitStreamWriter.WriteSignedBits32` | runtime/src/zserio/BitStreamWriter.cpp:371-381 | Writes the two's complement of a number in range, refuses any other |
| `Writer.BitStreamWriter.WriteSignedBits64` | runtime/src/zserio/BitStreamWriter.cpp:383-393 | The same for up to 64 bits |
| `Writer.BitStreamWriter.WriteBool` | runtime/src/zserio/BitStreamWriter.cpp:395-398 | Writes one bit |
| `Writer.BitStreamWriter.WriteVarNum` | runtime/src/zserio/BitStreamWriter.cpp:622-661 | The byte loop writes the byte form of the number, header bits included |
| `Writer.VarNumByteIsVarByte` | runtime/src/zserio/BitStreamWriter.cpp:622-661 | The byte put together with shifts and masks is the byte of the format's layout |
| `Writer.BitStreamWriter.WriteVar` | runtime/src/zserio/BitStreamWriter.cpp:400-450 | Writes the encoding of a value in range and refuses any other, for all nine formats |
| `Writer.BitStreamWriter.WriteBytewise` | runtime/src/zserio/BitStreamWriter.cpp:476-483 | The path for unaligned positions writes the bytes one after another |
| `Writer.BitStreamWriter.WriteBlock` | runtime/src/zserio/BitStreamWriter.cpp:484-492 | The block copy at a byte boundary writes the same bits as the bytewise path |
| `Writer.BitStreamWriter.WriteRawBytes` | runtime/src/zserio/BitStreamWriter.cpp:474-492 | Either path writes the bits of the bytes; at a byte boundary, from 2^29 bytes on, a writer without a buffer advances modulo 2^32 |
| `Writer.BitStreamWriter.WriteBytes` | runtime/src/zserio/BitStreamWriter.cpp:470-493 | Writes the size as `varsize` and then the bytes |
| `Writer.BitStreamWriter.WriteString` | runtime/src/zserio/BitStreamWriter.cpp:495-519 | Writes the size as `varsize` and then the characters |
| `Writer.BitStreamWriter.WriteRawBits` | runtime/src/zserio/BitStreamWriter.h:244-271 | Both paths for the full bytes and the rest bits write exactly the used bits of a bit buffer |
| `Writer.BitStreamWriter.WriteBitBuffer` | runtime/src/zserio/BitStreamWriter.h:239-272 | Writes the size in bits as `varsize` and then the bits |
| `Writer.BitStreamWriter.SetBitPosition` | runtime/src/zserio/BitStreamWriter.cpp:521-529 | Moves to a position inside the buffer, to any position without a buffer |
| `Writer.BitStreamWriter.AlignTo` | runtime/src/zserio/BitStreamWriter.cpp:531-539 | Writes the padding as zeros; the skip is an 8-bit number and more than 64 bits are refused |
| `Writer.AlignmentReached` | runtime/src/zserio/BitStreamWriter.cpp:531-539 | The written padding ends at a multiple of the alignment iff it is at most 64 bits |
| `Writer.AlignmentMissed` | runtime/src/zserio/BitStreamWriter.cpp:531-539 | Two concrete positions and alignments, one refused and one stopping short of the multiple |
| `Reader.BitStreamReader.LoadCacheNext` | runtime/src/zserio/BitStreamReader.cpp:232-292 | From any position the cache is filled with the bits from the byte of that position on, for both cache widths and near the end of the buffer; it fails iff fewer bits are left than asked for |
| `Reader.ParseIsNumber` | runtime/src/zserio/BitStreamReader.cpp:147-198 | The word parsed from some bytes is the number their bits denote |
| `Reader.BitStreamReader.ReadUnsignedBitsImpl` | runtime/src/zserio/BitStreamReader.cpp:295-320 | In any state returns the cached bits followed by those a refill yields; these are the bits at the position when the cache fits it; fails iff they are neither cached nor there; after a failed read the cache fits iff it is empty or its bits come twice in the stream, up to a byte boundary or the end |
| `Reader.BitStreamReader.ReadUnsignedBits64Impl` | runtime/src/zserio/BitStreamReader.cpp:342-353 | On the 32-bit build two reads return the bits of one |
| `Reader.BitStreamReader.ReadUnsignedBits32` | runtime/src/zserio/BitStreamReader.cpp:399-404 | Agrees with the plain bits; bad bit counts are refused |
| `Reader.BitStreamReader.ReadUnsignedBits64` | runtime/src/zserio/BitStreamReader.cpp:406-420 | The same for up to 64 bits on both builds |
| `Reader.BitStreamReader.ReadSignedBitsImpl` | runtime/src/zserio/BitStreamReader.cpp:323-338 | Sign extension by shifting and or-ing gives the two's complement value of the bits |
| `Reader.BitStreamReader.ReadSignedBits32` | runtime/src/zserio/BitStreamReader.cpp:450-455 | Agrees with the plain bits |
| `Reader.BitStreamReader.ReadSignedBits64` | runtime/src/zserio/BitStreamReader.cpp:422-448 | Agrees with the plain bits on both builds |
| `Reader.BitStreamReader.ReadBool` | runtime/src/zserio/BitStreamReader.cpp:457-460 | One bit |
| `Reader.BitStreamReader.ReadVar` | runtime/src/zserio/BitStreamReader.cpp:462-820 | Every variable-length reader agrees with the decoder of the format on the plain bits |
| `Reader.BitStreamReader.SetBitPosition` | runtime/src/zserio/BitStreamReader.cpp:847-861 | Goes to any position up to the end and makes the reader valid again, also after a failed read |
| `Reader.BitStreamReader.AlignTo` | runtime/src/zserio/BitStreamReader.cpp:863-871 | Skips to the next multiple of an alignment up to 64; for larger ones the skip is the padding modulo 256; stays at a multiple |
| `Reader.BitStreamReader.ReadBytes` | runtime/src/zserio/BitStreamReader.h:291-317 | Both paths return the bytes the bits denote, the size checked first |
| `Reader.BitStreamReader.ReadString` | runtime/src/zserio/BitStreamReader.h:327-355 | The same for characters |
| `Reader.BitStreamReader.ReadBitBuffer` | runtime/src/zserio/BitStreamReader.h:365-400 | Both paths return the bits, padded with zeros to a whole byte |
| `Items.TwosComplement` | runtime/src/zserio/BitStreamReader.cpp:323-338 | Signed decoding inverts signed encoding for every number of bits |
| `Items.ItemRoundTrip` | runtime/src/zserio/BitStreamWriter.cpp:349-539 | Every kind of item is read back from a stream that holds its bits and reading stops where they end |
| `Items.StreamRoundTrip` | runtime/src/zserio/BitStreamWriter.cpp:349-539 | Any sequence of items is read back item by item, whatever surrounds it |
| `Serialization.WriteItems` | runtime/src/zserio/BitStreamWriter.cpp:349-539 | Any sequence of writes leaves the stream of its items at the position and nothing else changed; it fails iff the stream does not fit; the bound of the block copy is asked for only at byte boundaries |
| `Serialization.ReadItems` | runtime/src/zserio/BitStreamReader.cpp:399-871 | Any sequence of reads agrees with the plain bits up to the first failure |
| `Serialization.WriteThenRead` | runtime/src/zserio/BitStreamWriter.cpp:349-539 | Writing at any position of a buffer with any content and reading with either cache width returns equal items at the same end position |
| `Serialization.ReadWithBothCaches` | runtime/src/zserio/BitStreamReader.cpp:232-354 | Readers with a 32-bit and a 64-bit cache return the same results and fail together |
| `Reader.AheadIsNext` | runtime/src/zserio/BitStreamReader.cpp:295-320 | With a cache that fits the position, cached bits and a refill are the next bits of the stream |
| `Serialization.RunReader` | runtime/src/zserio/BitStreamReader.cpp:232-871 | Over every run of reads, alignments and seeks the cached reader gives, step by step, the outcomes the plain bits determine; between a failed read and the next successful seek reads are not determined, and after that seek they are again |
| `Serialization.UndeterminedIff` | runtime/src/zserio/BitStreamReader.cpp:232-871 | The position is undetermined exactly after a failed read that no successful seek follows |
| `Reader.MovedPastCache` | runtime/src/zserio/BitStreamReader.cpp:301-306 | A cache that has been moved past by its own length fits its new position iff it is empty or its bits come twice |
| `Serialization.FailedReadLeavesStaleCache` | runtime/src/zserio/BitStreamReader.cpp:301-306 | A concrete failed read after which the next read does not fail at the end but returns the last four bits once more and moves beyond it |
| `DeltaPacking.AbsDeltaBitLength` | runtime/src/zserio/DeltaContext.h:19-29 | The shifting loop counts the binary digits |
| `DeltaPacking.BitLengthIsLeast` | runtime/src/zserio/DeltaContext.h:19-29 | That count is the least number of bits that holds the number |
| `DeltaPacking.CalcBitLength` | runtime/src/zserio/DeltaContext.h:32-40 | 64-bit subtraction of converted values gives the bit length of their true distance |
| `DeltaPacking.DeltaExact` | runtime/src/zserio/DeltaContext.h:44-48 | The unchecked difference is the true one whenever that fits 64 signed bits |
| `DeltaPacking.DeltaUndone` | runtime/src/zserio/DeltaContext.h:166-169 | Adding a difference modulo 2^64 to the previous word gives the next word |
| `DeltaPacking.WordRoundTrip` | runtime/src/zserio/DeltaContext.h:98-109 | Values of every element type, narrow and signed ones included, survive the conversion to a 64-bit word and back |
| `DeltaPacking.HasIffWritable` | runtime/src/zserio/Types.h:42-60 | The elements of a numeric type are the numbers the writer accepts for it |
| `DeltaPacking.EveryWidth` | runtime/src/zserio/Types.h:198-260 | Integers of every number of bits up to 64 are covered |
| `DeltaPacking.LargestDeltaIsLeast` | runtime/src/zserio/DeltaContext.h:95-110 | The bit length found by the initialization pass is the least one that holds the distances of all neighbours |
| `DeltaPacking.LargestDeltaBounds` | runtime/src/zserio/DeltaContext.h:95-110 | So it bounds the distance of every pair of neighbours |
| `DeltaPacking.DeltaContext.Init` | runtime/src/zserio/DeltaContext.h:82-112 | One initialization step keeps the context equal to what the elements seen so far determine |
| `DeltaPacking.DeltaContext.FinishInit` | runtime/src/zserio/DeltaContext.h:211-224 | Packing stays chosen iff it makes the array smaller, in 32-bit sizes |
| `DeltaPacking.DeltaContext.BitSizeOf` | runtime/src/zserio/DeltaContext.h:122-139 | The size of an element is the number of bits that will be written for it |
| `DeltaPacking.DeltaContext.Write` | runtime/src/zserio/DeltaContext.h:183-208 | Writes the bits of the element, descriptor first, and keeps the context in step; fails iff they do not fit |
| `DeltaPacking.DeltaContext.WriteDescriptor` | runtime/src/zserio/DeltaContext.h:258-266 | Writes the descriptor bits |
| `DeltaPacking.DeltaContext.Read` | runtime/src/zserio/DeltaContext.h:149-174 | Reads what the bits and the state of the context determine |
| `DeltaPacking.DeltaContext.ReadDescriptor` | runtime/src/zserio/DeltaContext.h:238-249 | Reads the descriptor; the largest bit length is below 64 |
| `DeltaPacking.FirstThereAndBack` | runtime/src/zserio/DeltaContext.h:149-158 | The descriptor and the first element are read back |
| `DeltaPacking.NextThereAndBack` | runtime/src/zserio/DeltaContext.h:158-174 | Every later element is read back, stored as it is, as a difference, or not at all |
| `DeltaPacking.SizeOfElements` | runtime/src/zserio/DeltaContext.h:211-236 | The total size, packed or not |
| `DeltaPacking.PackedIff` | runtime/src/zserio/DeltaContext.h:95-110 | Below 2^32 bits an array is packed iff it has two elements, all neighbours are closer than 2^62, and packing saves a bit |
| `DeltaPacking.PackedExample` | runtime/src/zserio/DeltaContext.h:211-224 | Four numbers 300 apart are packed into 101 bits |
| `DeltaPacking.PackingIsOptimal` | runtime/src/zserio/DeltaContext.h:211-224 | Below 2^32 bits an array takes the smaller of its packed and its unpacked size, so packing costs at most one bit |
| `DeltaPacking.OptimalIffSameAnswer` | runtime/src/zserio/DeltaContext.h:211-224 | An array takes the smaller of its packed and its unpacked size iff comparing the sizes in 32 bits gives the same answer as comparing them |
| `DeltaPacking.HugeArrayIsNotPacked` | runtime/src/zserio/DeltaContext.h:215-219 | A concrete array of 2^32 bits for which the 32-bit sizes wrap and packing is given up |
| `Arrays.AlignToIsLeast` | runtime/src/zserio/BitPositionUtil.h:19-24 | For any alignment the result is the least multiple from the position on, as long as that is below 2^32 |
| `Arrays.AlignWrappedIff` | runtime/src/zserio/BitPositionUtil.h:19-24 | Aligning in 32 bits commutes with wrapping around at every position iff the alignment divides 2^32 |
| `Arrays.PowerDivides` | runtime/src/zserio/BitPositionUtil.h:19-24 | Every power of two up to 2^32 does |
| `Arrays.AlignWrapped` | runtime/src/zserio/BitPositionUtil.h:19-24 | The gap before an element of an aligned array, computed in 32 bits |
| `Arrays.BitSizeOf` | runtime/src/zserio/ArrayView.h:515-536 | The size of an array of any type at any position is the length of its layout, modulo 2^32; it throws iff the length that is stored or an element has no size |
| `Arrays.InitializeOffsets` | runtime/src/zserio/ArrayView.h:544-577 | Reaches the same position as the size traversal and records the start of every element of an aligned array |
| `Arrays.BitSizeOfPacked` | runtime/src/zserio/ArrayView.h:673-716 | The same size for packed arrays |
| `Arrays.InitializeOffsetsPacked` | runtime/src/zserio/ArrayView.h:718-772 | The same offsets for packed arrays |
| `Arrays.Write` | runtime/src/zserio/ArrayView.h:654-671 | Writes the layout of the array at the position; fails iff it does not fit |
| `Arrays.WritePacked` | runtime/src/zserio/ArrayView.h:774-813 | The same for packed arrays |
| `Arrays.ReadArrayLength` | runtime/src/zserio/ArrayView.h:579-595 | The length as the array type determines it |
| `Arrays.Read` | runtime/src/zserio/ArrayView.h:597-629 | Reads what the plain bits determine, with the check of the length against the buffer |
| `Arrays.ReadPacked` | runtime/src/zserio/ArrayView.h:815-853 | The same for packed arrays |
| `Arrays.LayoutHolds` | runtime/src/zserio/ArrayView.h:654-671 | A stream that holds an array holds every element at its start, after the gap of an aligned array |
| `Arrays.PlainArray` | runtime/src/zserio/ArrayView.h:654-671 | Arrays of the types that are not aligned are their elements one after the other, after the length for `AUTO` |
| `Arrays.AlignedArray` | runtime/src/zserio/ArrayView.h:654-671 | Every element of an `ALIGNED` or `ALIGNED_AUTO` array starts at the first byte boundary after the one before it, with zeros in between |
| `Arrays.LongestArray` | runtime/src/zserio/ArrayView.h:507-507 | Arrays have up to 2^31 - 1 elements |
| `Arrays.ArrayRoundTrip` | runtime/src/zserio/ArrayView.h:597-629 | Arrays of every type and of numbers, bytes, strings and bit buffers are read back and reading stops where writing stopped |
| `Arrays.PackedRoundTrip` | runtime/src/zserio/ArrayView.h:815-853 | Packed arrays of every numeric type are read back, whether or not packing has paid off |
| `Arrays.ElementSizeIsLeast` | runtime/src/zserio/ArrayTraits.h:80-83 | The size of a default element is a lower bound for every element, and exact for fixed widths |
| `Arrays.GuardAcceptsWritten` | runtime/src/zserio/ArrayView.h:603-611 | The check of the length never rejects what has been written |
| `Arrays.ImplicitLength` | runtime/src/zserio/ArrayView.h:590-594 | An implicit array yields the length `n` iff what is left of the buffer is `n` default elements and less than one more |
| `Arrays.ImplicitElements` | runtime/src/zserio/ArrayView.h:590-594 | The element types an implicit array can have |
| `Arrays.ImplicitFixedWidth` | runtime/src/zserio/ArrayView.h:590-594 | An implicit array of fixed-width elements yields its length iff fewer bits than one element follow it |
| `Arrays.ImplicitVarints` | runtime/src/zserio/ArrayView.h:590-594 | An implicit array of variable-length numbers yields its length iff less than a byte follows it and every element takes one byte |
| `Arrays.ImplicitOverrun` | runtime/src/zserio/ArrayView.h:590-629 | At the end of a stream an implicit array with a longer element is not read back: reading runs past the end |
| `Arrays.TwoByteElement` | runtime/src/zserio/ArrayView.h:590-629 | The number 128, written as two bytes, counts as two elements and reading fails |
| `Arrays.ExactLength` | runtime/src/zserio/ArrayView.h:579-595 | When nothing follows an array its length is known iff it is not implicit or every varying-length element takes one byte |
| `Arrays.OffsetsAreTrue` | runtime/src/zserio/ArrayView.h:718-813 | Of an array that ends below 2^32 every recorded offset is the byte where the element starts in the written stream, whatever follows |
| `Arrays.SeekByOffset` | runtime/src/zserio/ArrayView.h:544-577 | Reading at a recorded offset gives the element |
| `Arrays.StoreAndLoad` | runtime/src/zserio/ArrayView.h:515-671 | An array written to a new buffer of exactly its size never runs out of capacity and comes back, for every array type, position and cache width, unless it is implicit and has an element of several bytes, which makes the read fail |
| `Arrays.StoreAndLoadPacked` | runtime/src/zserio/ArrayView.h:673-853 | The same for packed arrays |
| `BitBuffers.LastIsWindow` | runtime/src/zserio/BitBuffer.h:477-486 | The masked last byte holds the used bits followed by zeros |
| `BitBuffers.EqualIffSameBits` | runtime/src/zserio/BitBuffer.h:336-365 | Buffers are equal iff their stored bits are, whatever the unused bits hold |
| `BitBuffers.Less` | runtime/src/zserio/BitBuffer.h:367-412 | The order is exactly the lexicographic order of the stored bits |
| `BitBuffers.LexTrichotomy` | runtime/src/zserio/BitBuffer.h:367-412 | Of two different bit strings exactly one is smaller |
| `BitBuffers.LexTransitive` | runtime/src/zserio/BitBuffer.h:367-412 | The order is transitive |
| `BitBuffers.OrderAgreesWithEquality` | runtime/src/zserio/BitBuffer.h:336-412 | The order is a strict total order whose ties are the equal buffers |
| `BitBuffers.HashCode` | runtime/src/zserio/BitBuffer.h:414-433 | The hash code is a function of the stored bits |
| `BitBuffers.HashBoth` | runtime/src/zserio/BitBuffer.h:414-433 | Equal buffers hash equally |
| `BitBuffers.HashIsSum` | runtime/src/zserio/HashCodeUtil.h:20-50 | The hash code of some bytes is the polynomial in 37 that starts with 23, wrapped around once |
| `BitBuffers.HashCodeOf` | runtime/src/zserio/BitBuffer.h:414-433 | The hash code of a buffer is that polynomial of its bytes, the unused bits cleared |
| `BitBuffers.ReadBackIsEqual` | runtime/src/zserio/BitStreamReader.h:365-400 | A bit buffer comes back from a stream equal to the one written, with zeros in its unused bits |
| `BitBuffers.UnusedBitsSet` | runtime/src/zserio/BitBuffer.h:235-240 | A valid buffer whose unused bits are set, equal to one whose unused bits are zero |
| `BitBuffers.UnusedBitsZeroIff` | runtime/src/zserio/BitBuffer.h:235-240 | The unused bits are zero iff masking does not change the last byte |
| `HalfFloats.ConvertUInt16ToFloat` | runtime/src/zserio/FloatUtil.cpp:32-81 | Masks, shifts and the normalizing loop give the widened sign, exponent and significand; the loop ends |
| `HalfFloats.NormalizeScales` | runtime/src/zserio/FloatUtil.cpp:48-60 | Normalizing keeps significand and exponent in step |
| `HalfFloats.WideningIsExact` | runtime/src/zserio/FloatUtil.cpp:32-81 | A widened finite number has the value and the sign of the half-precision number |
| `HalfFloats.WideningKeepsSpecial` | runtime/src/zserio/FloatUtil.cpp:62-66 | An infinity stays one and a NaN keeps its payload |
| `HalfFloats.ConvertFloatToUInt16` | runtime/src/zserio/FloatUtil.cpp:83-167 | Truncation and the rounding bit give the significand rounded to nearest, with a carry into the exponent |
| `HalfFloats.HalfRoundTrip` | runtime/src/zserio/FloatUtil.cpp:32-167 | Narrowing inverts widening on every half-precision bit pattern |
| `HalfFloats.WidenThenNarrow` | runtime/src/zserio/FloatUtil.cpp:32-167 | The same for the two conversions run one after the other |
| `HalfFloats.NearestTiesAway` | runtime/src/zserio/FloatUtil.cpp:114-166 | For rebiased exponents from -9 to 30 no half-precision number is nearer than the result, ties go away from zero (roundTiesToAway, section 4.3.1 of IEEE 754-2008), and the sign is kept |
| `HalfFloats.SmallBecomesZero` | runtime/src/zserio/FloatUtil.cpp:99-129 | Smaller magnitudes become a zero of the same sign |
| `HalfFloats.ZeroIsNearestIff` | runtime/src/zserio/FloatUtil.cpp:99-129 | For every exponent up to rebiased -10, subnormal numbers included, the result is a zero of the same sign, and no half-precision number is nearer iff the exponent is smaller or the significand is zero |
| `HalfFloats.SmallNumberLost` | runtime/src/zserio/FloatUtil.cpp:125-129 | A concrete pattern that becomes zero although the smallest half-precision number is nearer |
| `HalfFloats.LargeIsInfinityIff` | runtime/src/zserio/FloatUtil.cpp:117-150 | For larger exponents the result is infinity iff the kept significand bits are zero and nothing is carried into them |
| `HalfFloats.LargeNumbersLost` | runtime/src/zserio/FloatUtil.cpp:117-163 | 98304 becomes a NaN and the largest number below 131072 becomes minus zero |
| `JsonCoding.EncodeString` | runtime/src/zserio/JsonEncoder.cpp:50-107 | The text is the quoted and escaped string |
| `JsonCoding.ControlCharacters` | runtime/src/zserio/JsonEncoder.cpp:50-107 | The escapes by the codes of the characters |
| `JsonCoding.DecodeLiteral` | runtime/src/zserio/JsonDecoder.h:157-180 | Compares up to the first difference, the end of the input or the end of the literal |
| `JsonCoding.DecodeString` | runtime/src/zserio/JsonDecoder.h:183-258 | The iterator loop reads the escapes one after the other and says how many characters it has read |
| `JsonCoding.DecodeUnicodeEscape` | runtime/src/zserio/JsonDecoder.h:260-303 | Reads the two hexadecimal digits after `00` |
| `JsonCoding.HexIff` | runtime/src/zserio/JsonDecoder.h:305-322 | The values of hexadecimal digits in lower and in upper case |
| `JsonCoding.CheckNumber` | runtime/src/zserio/JsonDecoder.h:324-386 | Finds the end of a number and whether it is a floating-point one |
| `JsonCoding.DecodeNumber` | runtime/src/zserio/JsonDecoder.h:388-458 | Integers by value, with the overflow flag outside 64 bits |
| `JsonCoding.DecodeValue` | runtime/src/zserio/JsonDecoder.h:109-141 | Dispatch on the first character |
| `JsonCoding.IntegerDigits` | runtime/src/zserio/JsonDecoder.h:399-413 | Every character of an integer is a digit, so the library conversion reads all of them |
| `JsonCoding.DecodeStable` | runtime/src/zserio/JsonTokenizer.h:234-238 | A decode that stops before the end of its input does not change when text is appended |
| `JsonCoding.DecodeMore` | runtime/src/zserio/JsonTokenizer.h:234-238 | A decode that reaches the end of its input reads at least as far when text is appended |
| `JsonCoding.StringRoundTrip` | runtime/src/zserio/JsonEncoder.cpp:50-107 | Decoding an encoded string, whatever follows, gives the string and consumes exactly the encoded part |
| `JsonCoding.IntegerRoundTrip` | runtime/src/zserio/JsonDecoder.h:415-441 | 64-bit integers come back by value, negative ones as signed numbers |
| `JsonCoding.NumberLimits` | runtime/src/zserio/JsonDecoder.h:415-441 | Decimal numbers from 2^64 on or below -2^63 are out of range, all others have their value |
| `JsonCoding.OverflowIsInteger` | runtime/src/zserio/JsonDecoder.h:415-441 | Nothing else is reported as out of range |
| `JsonCoding.FloatLiterals` | runtime/src/zserio/JsonDecoder.h:109-141 | The literals for not a number and the infinities |
| `JsonTokens.JsonTokenizer.SkipWhitespaces` | runtime/src/zserio/JsonTokenizer.h:247-282 | Skips what has been read like the whole text, lines and columns included; a carriage return at the end of a chunk waits for more |
| `JsonTokens.JsonTokenizer.DecodeNext` | runtime/src/zserio/JsonTokenizer.h:196-245 | Finds the next token of the part that has been read, asks for more, or fails |
| `JsonTokens.JsonTokenizer.SetTokenValue` | runtime/src/zserio/JsonTokenizer.h:313-327 | Makes the decoded value the current token |
| `JsonTokens.JsonTokenizer.Next` | runtime/src/zserio/JsonTokenizer.h:160-186 | The next token with its value, line, column and the place after it is that of the whole remaining text, in whatever parts it is read; a value at the end of the text is found or refused with its place and column, or lost exactly when the part read before looked like the end |
| `JsonTokens.LexemeStable` | runtime/src/zserio/JsonTokenizer.h:196-245 | A token found in a part of the text is the token of the longer text |
| `JsonTokens.ReadTokens` | runtime/src/zserio/JsonTokenizer.h:160-186 | For every text and all chunks, asking for tokens until the end gives the reading of the text, a value at its end included, unless a chunk ends where all tokens before that value are complete and the value has not begun: then it is lost |
| `JsonTokens.SkipFollows` | runtime/src/zserio/JsonTokenizer.h:247-282 | Skipped whitespace moves the line by its line breaks, one for a carriage return with a line feed, and the column by its characters, or restarts it after the last line break |
| `JsonTokens.TokenFollows` | runtime/src/zserio/JsonTokenizer.h:206-241 | A token moves the column by the number of its characters and keeps the line |
| `JsonTokens.LinesAndColumns` | runtime/src/zserio/JsonTokenizer.h:106-130 | The line and the column of every token as the text determines them: each from the token before it and the whitespace in between |
| `JsonTokens.ReadInTwoWays` | runtime/src/zserio/JsonTokenizer.h:160-194 | Two ways to cut a text into chunks give the same tokens, values, lines and columns iff both lose the last value or neither does; neither does when the text before it is empty or not complete on its own |
| `JsonTokens.LosesStep` | runtime/src/zserio/JsonTokenizer.h:160-186 | Taking a token, whatever chunks are read for it, changes nothing about whether the last value will be lost |
| `JsonTokens.LosesAtEnd` | runtime/src/zserio/JsonTokenizer.h:166-178 | Before the last value it is lost iff the part that has been read looks like the end of the text |
| `JsonTokens.LosingBoundary` | runtime/src/zserio/JsonTokenizer.h:160-194 | The chunk boundaries that lose the last value are those in the whitespace before it or directly before it at which the text is complete |
| `JsonTokens.LostOnlyThere` | runtime/src/zserio/JsonTokenizer.h:160-194 | Chunks lose the last value only of texts in which something complete precedes it |
| `JsonTokens.ReadWithoutLast` | runtime/src/zserio/JsonTokenizer.h:160-194 | For every such text there are chunks that lose it, so the condition is exact |
| `JsonTokens.NumberNotLost` | runtime/src/zserio/JsonTokenizer.h:160-194 | A text that is nothing but a number is read as that number, whatever the chunks |
| `JsonTokens.AbuttingNotLost` | runtime/src/zserio/JsonTokenizer.h:160-194 | A value that directly follows another one is not lost either |
| `JsonTokens.ChunksMatterForOpenTexts` | runtime/src/zserio/JsonTokenizer.h:166-178 | A concrete text that ends with a value and depends on the chunks |
| `JsonParsing.JsonParser.ParseElement` | runtime/src/zserio/JsonParser.h:185-206 | Observes what the grammar says and stops at the token after the element, or fails |
| `JsonParsing.JsonParser.ParseObject` | runtime/src/zserio/JsonParser.h:208-221 | The same for objects |
| `JsonParsing.JsonParser.ParseMembers` | runtime/src/zserio/JsonParser.h:223-232 | The same for the loop over members |
| `JsonParsing.JsonParser.ParseMember` | runtime/src/zserio/JsonParser.h:234-250 | The same for a member; a key must be a string |
| `JsonParsing.JsonParser.ParseArray` | runtime/src/zserio/JsonParser.h:252-265 | The same for arrays |
| `JsonParsing.JsonParser.ParseElements` | runtime/src/zserio/JsonParser.h:267-276 | The same for the loop over elements |
| `JsonParsing.JsonParser.ParseValue` | runtime/src/zserio/JsonParser.h:278-314 | Visits the value and moves on |
| `JsonParsing.JsonParser.ConsumeToken` | runtime/src/zserio/JsonParser.h:316-330 | Moves on iff the current token is the expected one |
| `JsonParsing.JsonParser.Parse` | runtime/src/zserio/JsonParser.h:123-138 | Parses one element and says whether the end of the text follows, for every text and all chunks; a value that is lost is not there for the grammar |
| `JsonWriting.JsonWriter.BeginItem` | runtime/src/zserio/JsonWriter.h:308-322 | Separator unless first, line break and indentation |
| `JsonWriting.JsonWriter.WriteIndent` | runtime/src/zserio/JsonWriter.h:378-392 | Indentation by level |
| `JsonWriting.IndentationIsSpaces` | runtime/src/zserio/JsonWriter.h:378-392 | The indentation of a level is that many times the number of spaces |
| `JsonWriting.ExampleText` | runtime/src/zserio/JsonWriter.h:308-400 | The text of a small document with and without indentation |
| `JsonWriting.JsonWriter.WriteByteArray` | runtime/src/zserio/JsonWriter.h:479-491 | The loop over bytes prints the array of their numbers |
| `JsonWriting.JsonWriter.WriteBitBuffer` | runtime/src/zserio/JsonWriter.h:476-497 | Prints the tree of a bit buffer |
| `JsonWriting.JsonWriter.WriteBytes` | runtime/src/zserio/JsonWriter.h:499-515 | Prints the tree of bytes |
| `JsonWriting.JsonWriter.BeginCompound` | runtime/src/zserio/JsonWriter.h:269-281 | Item, key unless it is an element, and opening brace |
| `JsonWriting.JsonWriter.EndCompound` | runtime/src/zserio/JsonWriter.h:283-290 | Closing brace at the level outside; something has been printed |
| `JsonWriting.JsonWriter.BeginArrayItem` | runtime/src/zserio/JsonWriter.h:250-259 | Item, key and opening bracket |
| `JsonWriting.JsonWriter.EndArrayItem` | runtime/src/zserio/JsonWriter.h:261-267 | Closing bracket at the level outside |
| `JsonWriting.JsonWriter.WriteValue` | runtime/src/zserio/JsonWriter.h:402-474 | Dispatches scalars, bytes and bit buffers to the text of their trees |
| `JsonWriting.JsonWriter.VisitValue` | runtime/src/zserio/JsonWriter.h:292-306 | Prints a scalar, bytes or a bit buffer as an item |
| `JsonWriting.JsonWriter.Print` | runtime/src/zserio/JsonWriter.h:250-306 | The calls for a field print its text and restore the level |
| `JsonWriting.JsonWriter.PrintRoot` | runtime/src/zserio/JsonWriter.h:237-248 | The calls for a document print its text |
| `JsonRoundTrip.TreeTokens` | runtime/src/zserio/JsonWriter.h:308-400 | The text of a tree, with or without indentation and followed by anything that ends a number, has the tokens of the tree |
| `JsonRoundTrip.TreeParses` | runtime/src/zserio/JsonParser.h:185-276 | The grammar gives an observer the tree of its tokens and stops after it |
| `JsonRoundTrip.DocumentTokens` | runtime/src/zserio/JsonWriter.h:237-248 | The tokens of a printed document are those of its tree and the end of the text |
| `JsonRoundTrip.ParsePrinted` | runtime/src/zserio/JsonParser.h:123-138 | Parsing a printed document, in whatever chunks, gives the observer the same structure, keys and values in order |
| `JsonRoundTrip.PrintThenParse` | runtime/src/zserio/JsonWriter.h:308-400 | Printing and parsing run one after the other return the tree |
| `JsonRoundTrip.SameTree` | runtime/src/zserio/JsonParser.h:185-276 | The calls an observer gets determine the tree |
| `JsonRoundTrip.PrintedOnce` | runtime/src/zserio/JsonWriter.h:308-400 | Different documents are printed differently, even with different indentation |
| `JsonRoundTrip.ParseBareNumber` | runtime/src/zserio/JsonParser.h:123-138 | A document that is nothing but a number is observed as that number, in whatever chunks |
| `Walking.Walker.WalkRoot` | runtime/src/zserio/Walker.h:464-482 | Walks a compound between two root calls, refuses anything else |
| `Walking.PathTextIs` | runtime/src/zserio/Walker.h:634-646 | The text of a path is its names with points in between |
| `Walking.Walker.WalkFieldsOf` | runtime/src/zserio/Walker.h:484-515 | All fields until the filter stops the walk, or only the chosen one |
| `Walking.Walker.WalkOneField` | runtime/src/zserio/Walker.h:517-541 | An array between the calls of the filter, with the loop over its elements |
| `Walking.Walker.WalkValue` | runtime/src/zserio/Walker.h:543-566 | A compound or a value between the calls of the filter |
| `Walking.SearchCompound` | runtime/src/zserio/Walker.h:678-763 | The subtree filter ends with a match iff some path below satisfies the regular expression, and its path is restored |
| `Walking.MatchSubtree` | runtime/src/zserio/Walker.h:863-881 | The early-terminating search is exact |
| `Walking.BeforeArray` | runtime/src/zserio/Walker.h:773-798 | The loop over the elements of an array, with its early return, decides as specified and leaves a path that differs in the last name only |
| `Walking.RegexCompound` | runtime/src/zserio/Walker.h:764-881 | With the regular-expression filter an observer gets exactly the calls for the nodes whose path or a path below matches iff no array is hidden by mistake, and otherwise misses some; the path is restored |
| `Walking.CompoundTraced` | runtime/src/zserio/Walker.h:464-566 | The calls from which these are taken are those of the walk without a filter |
| `Walking.WalkMatching` | runtime/src/zserio/Walker.h:764-881 | The same for a walk of a root object |
| `Walking.ElementHidden` | runtime/src/zserio/Walker.h:773-798 | A concrete object in which the path of a compound in an array matches and nothing is shown |
| `Walking.DepthCompound` | runtime/src/zserio/Walker.h:568-629 | With the depth filter an observer sees exactly the object cut off at that depth, and the depth is restored |
| `Walking.WalkToDepth` | runtime/src/zserio/Walker.h:568-629 | The same for the two walks run one after the other |
| `JsonWalk.Observe` | runtime/src/zserio/JsonWriter.h:237-306 | One call of the walker does to the printer what its text says; floating-point values are not covered |
| `JsonWalk.FieldPrints` | runtime/src/zserio/Walker.h:517-541 | The calls for a field print its item |
| `JsonWalk.WalkAndPrint` | runtime/src/zserio/Walker.h:464-482 | Walking an object with the printer as observer prints the tree of the object, bytes and bit buffers included |
| `ObjectRoundTrip.ValueTree` | runtime/src/zserio/JsonWriter.h:402-474 | The tree printed for an object has the calls defined on the object itself: a key for every field, every value by its number, flag or text, bytes and bit buffers by their numbers |
| `ObjectRoundTrip.ChosenTree` | runtime/src/zserio/Walker.h:484-501 | Of a union or a choice that is the first field with the chosen name |
| `ObjectRoundTrip.PrintAndParse` | runtime/src/zserio/JsonParser.h:123-138 | An object is walked, printed, read in chunks of any size and parsed: the observer is told what the object holds |

## Left out

- Reader.BitStreamReader.ReadVar: the nine unrolled readers are one method with a loop over the bytes, since they differ only in their numbers of bytes and bits.
- Reader.BitStreamReader.LoadCacheNext: the eight unrolled byte parsers are one function of the bytes; the buffer of the reader is a sequence, so that nobody can change it under the reader.
- Writer.BitStreamWriter.WriteBytes: with a buffer and at a byte boundary it asks for fewer than 2^29 bytes, the bound of its 32-bit product; without a buffer the wrapped advance is stated. `Arrays.Write` asks for this bound at every position.
- Arrays.Write: elements are in range, as after `validate`; single items out of range are refused by `Writer.BitStreamWriter.WriteItem`.
- JsonWriting.JsonWriter.WriteValue: floating-point values and enumerations printed by name are not values of the model.
- Arrays.InitializeOffsets: elements and lengths are those for which `Arrays.BitSizeOf` does not throw.
- DeltaPacking.PackingIsOptimal: sizes from 2^32 bits on are excluded, since they wrap around; `DeltaPacking.OptimalIffSameAnswer` covers them.
- JsonCoding.DecodeNumber: `strtod` is a parameter; `strtoll` and `strtoull` are decimal notation with an overflow flag.
- HalfFloats.NearestTiesAway: exponents below -9 and above 30 and NaN payloads are outside; `HalfFloats.ZeroIsNearestIff` and `HalfFloats.LargeIsInfinityIff` describe the rest.
- Floating-point items of streams are their bit patterns, which are fixed-width numbers; JSON text of floating-point numbers is not modelled, because its library conversions are not exact inverses.
- Dynamic bit fields, enumerations and bitmasks are integers of their number of bits; generated objects and their packing contexts are not modelled.
- Custom separators and arbitrary indentation strings.
- The array length filter and the combination of filters; regular expressions are arbitrary predicates on the text of a path.
- Preallocation limits, allocators, message texts and the position of an exception inside a read.
- The reader of JSON into objects, files, SQLite, services and type information.
