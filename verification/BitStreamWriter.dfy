/** The bit stream writer: masked and shifted bytes stored in place into a caller's buffer. */
module Writer {
  import opened Bits
  import opened Streams
  import opened VarInt
  import opened Items

  /** How a write ends: normally, or with one of the two exceptions of the writer. */
  datatype WriteResult = Written | InsufficientCapacity | ValueRejected

  // ----- bytes stored by a write -----

  function ToByte(v: nat): (b: Byte)
    ensures b == Truncate(v, 8)
  {
    assert Pow2(8) == 256;
    Truncate(v, 8)
  }

  function Complement8(v: nat): nat
    requires v < 256
  {
    255 - v
  }

  /** The free low bits of a partly used byte, filled with the high bits of the data. */
  function HeadByte(byte: Byte, data: nat, shiftNum: nat, bitsUsed: nat): Byte
    requires bitsUsed < 8
  {
    ShrBound8(bitsUsed);
    var maskedByte := BitAnd(byte, Complement8(Shr(0xFF, bitsUsed)));
    ToByte(BitOr(maskedByte, Shr(data, shiftNum)))
  }

  function MiddleByte(data: nat, restNumBits: nat): Byte {
    ToByte(BitAnd(Shr(data, restNumBits), MaxUnsigned(8)))
  }

  /** `restNumBits` bits of a byte, `shiftNum` bits above its end, filled with the low bits of the data. */
  function TailByte(byte: Byte, data: nat, restNumBits: nat, shiftNum: nat): Byte
    requires restNumBits + shiftNum <= 8
  {
    var mask := MaxUnsigned(restNumBits);
    MaskBound8(restNumBits, shiftNum);
    var maskedByte := BitAnd(byte, Complement8(Shl(mask, shiftNum)));
    ToByte(BitOr(maskedByte, Shl(BitAnd(data, mask), shiftNum)))
  }

  lemma ShrBound8(k: nat)
    requires k < 8
    ensures Shr(0xFF, k) < Pow2(8 - k) && Shr(0xFF, k) < 256
  {
    assert Pow2(8) == 256;
    ShrBound(0xFF, k, 8 - k);
    Pow2Monotone(8 - k, 8);
  }

  lemma MaskBound8(n: nat, k: nat)
    requires n + k <= 8
    ensures Shl(MaxUnsigned(n), k) < 256
  {
    assert Pow2(8) == 256;
    ShlBound(MaxUnsigned(n), k, n);
    Pow2Monotone(n + k, 8);
  }

  lemma ByteBit(v: nat, i: nat)
    requires i < 8
    ensures Bit(ToByte(v), i) == Bit(v, i)
  {
    TruncateBit(v, 8, i);
  }

  lemma HeadByteBit(byte: Byte, data: nat, shiftNum: nat, bitsUsed: nat, i: nat)
    requires bitsUsed < 8 && data < Pow2(shiftNum + 8 - bitsUsed) && i < 8
    ensures Bit(HeadByte(byte, data, shiftNum, bitsUsed), i)
            == if i < 8 - bitsUsed then Bit(data, i + shiftNum) else Bit(byte, i)
  {
    ShrBound8(bitsUsed);
    assert Pow2(8) == 256;
    var low := Shr(0xFF, bitsUsed);
    var maskedByte := BitAnd(byte, Complement8(low));
    ByteBit(BitOr(maskedByte, Shr(data, shiftNum)), i);
    OrBit(maskedByte, Shr(data, shiftNum), i);
    AndBit(byte, Complement8(low), i);
    ComplementBit(low, 8, i);
    ShrBit(0xFF, bitsUsed, i);
    MaskBit(8, i + bitsUsed);
    ShrBit(data, shiftNum, i);
    if i >= 8 - bitsUsed {
      HighBitsClear(data, shiftNum + 8 - bitsUsed, i + shiftNum);
    }
  }

  lemma MiddleByteBit(data: nat, restNumBits: nat, i: nat)
    requires i < 8
    ensures Bit(MiddleByte(data, restNumBits), i) == Bit(data, i + restNumBits)
  {
    ByteBit(BitAnd(Shr(data, restNumBits), MaxUnsigned(8)), i);
    AndBit(Shr(data, restNumBits), MaxUnsigned(8), i);
    MaskBit(8, i);
    ShrBit(data, restNumBits, i);
  }

  lemma TailByteBit(byte: Byte, data: nat, restNumBits: nat, shiftNum: nat, i: nat)
    requires restNumBits + shiftNum <= 8 && i < 8
    ensures Bit(TailByte(byte, data, restNumBits, shiftNum), i)
            == if shiftNum <= i < shiftNum + restNumBits then Bit(data, i - shiftNum) else Bit(byte, i)
  {
    MaskBound8(restNumBits, shiftNum);
    assert Pow2(8) == 256;
    var mask := MaxUnsigned(restNumBits);
    var maskedByte := BitAnd(byte, Complement8(Shl(mask, shiftNum)));
    ByteBit(BitOr(maskedByte, Shl(BitAnd(data, mask), shiftNum)), i);
    OrBit(maskedByte, Shl(BitAnd(data, mask), shiftNum), i);
    AndBit(byte, Complement8(Shl(mask, shiftNum)), i);
    ComplementBit(Shl(mask, shiftNum), 8, i);
    ShlBit(mask, shiftNum, i);
    ShlBit(BitAnd(data, mask), shiftNum, i);
    if i >= shiftNum {
      MaskBit(restNumBits, i - shiftNum);
      AndBit(data, mask, i - shiftNum);
    }
  }

  /** Storing one byte changes the eight bits it stands for. */
  lemma StoreByte(bytes: seq<Byte>, j: nat, b: Byte, from: nat, bits: seq<bool>)
    requires j < |bytes| && from + |bits| <= 8
    requires ToBits(b, 8) == Splice(ToBits(bytes[j], 8), from, bits)
    ensures BytesToBits(bytes[j := b]) == Splice(BytesToBits(bytes), 8 * j + from, bits)
  {
    var r, e := BytesToBits(bytes[j := b]), Splice(BytesToBits(bytes), 8 * j + from, bits);
    forall i | 0 <= i < 8 * |bytes| ensures r[i] == e[i] {
      if i / 8 == j {
        assert ToBits(b, 8)[i % 8] == Splice(ToBits(bytes[j], 8), from, bits)[i % 8];
      }
    }
  }

  lemma StoreHead(bytes: seq<Byte>, j: nat, data: nat, shiftNum: nat, bitsUsed: nat)
    requires j < |bytes| && bitsUsed < 8 && data < Pow2(shiftNum + 8 - bitsUsed)
    ensures BytesToBits(bytes[j := HeadByte(bytes[j], data, shiftNum, bitsUsed)])
            == Splice(BytesToBits(bytes), 8 * j + bitsUsed, ToBits(Shr(data, shiftNum), 8 - bitsUsed))
  {
    var b := HeadByte(bytes[j], data, shiftNum, bitsUsed);
    var bits := ToBits(Shr(data, shiftNum), 8 - bitsUsed);
    forall k | 0 <= k < 8 ensures ToBits(b, 8)[k] == Splice(ToBits(bytes[j], 8), bitsUsed, bits)[k] {
      HeadByteBit(bytes[j], data, shiftNum, bitsUsed, 7 - k);
      ShrBit(data, shiftNum, 7 - k);
    }
    StoreByte(bytes, j, b, bitsUsed, bits);
  }

  lemma StoreMiddle(bytes: seq<Byte>, j: nat, data: nat, restNumBits: nat)
    requires j < |bytes|
    ensures BytesToBits(bytes[j := MiddleByte(data, restNumBits)])
            == Splice(BytesToBits(bytes), 8 * j, ToBits(Shr(data, restNumBits), 8))
  {
    var b, bits := MiddleByte(data, restNumBits), ToBits(Shr(data, restNumBits), 8);
    forall k | 0 <= k < 8 ensures ToBits(b, 8)[k] == Splice(ToBits(bytes[j], 8), 0, bits)[k] {
      MiddleByteBit(data, restNumBits, 7 - k);
      ShrBit(data, restNumBits, 7 - k);
    }
    StoreByte(bytes, j, b, 0, bits);
  }

  lemma StoreTail(bytes: seq<Byte>, j: nat, data: nat, restNumBits: nat, shiftNum: nat)
    requires j < |bytes| && restNumBits + shiftNum <= 8
    ensures BytesToBits(bytes[j := TailByte(bytes[j], data, restNumBits, shiftNum)])
            == Splice(BytesToBits(bytes), 8 * j + 8 - shiftNum - restNumBits, ToBits(data, restNumBits))
  {
    var b, bits := TailByte(bytes[j], data, restNumBits, shiftNum), ToBits(data, restNumBits);
    var from := 8 - shiftNum - restNumBits;
    forall k | 0 <= k < 8 ensures ToBits(b, 8)[k] == Splice(ToBits(bytes[j], 8), from, bits)[k] {
      TailByteBit(bytes[j], data, restNumBits, shiftNum, 7 - k);
    }
    StoreByte(bytes, j, b, from, bits);
  }

  /** Bits already written and the next `k` bits of the data are together the bits down to `rest`. */
  lemma NextBits(data: nat, rest: nat, m: nat, k: nat)
    ensures ToBits(Shr(data, rest + k), m) + ToBits(Shr(data, rest), k) == ToBits(Shr(data, rest), m + k)
  {
    ToBitsSplit(Shr(data, rest), m, k);
    ShrTwice(data, rest, k);
  }

  /** The first `numBits - rest` bits of the data are in place. */
  ghost predicate PartlyWritten(bytes: seq<Byte>, before: seq<bool>, pos: nat, data: nat, numBits: nat, rest: nat) {
    && rest <= numBits
    && |before| == 8 * |bytes|
    && pos + numBits <= |before|
    && BytesToBits(bytes) == Splice(before, pos, ToBits(Shr(data, rest), numBits - rest))
  }

  lemma NothingWritten(bytes: seq<Byte>, pos: nat, data: nat, numBits: nat)
    requires pos + numBits <= 8 * |bytes|
    ensures PartlyWritten(bytes, BytesToBits(bytes), pos, data, numBits, numBits)
  {
  }

  lemma AllWritten(bytes: seq<Byte>, before: seq<bool>, pos: nat, data: nat, numBits: nat)
    requires PartlyWritten(bytes, before, pos, data, numBits, 0)
    ensures pos + numBits <= |before| && BytesToBits(bytes) == Splice(before, pos, ToBits(data, numBits))
  {
  }

  lemma HeadWritten(bytes: seq<Byte>, pos: nat, data: nat, numBits: nat)
    requires pos + numBits <= 8 * |bytes| && 8 - pos % 8 < numBits && data < Pow2(numBits)
    ensures var rest, j := numBits - (8 - pos % 8), pos / 8;
            PartlyWritten(bytes[j := HeadByte(bytes[j], data, rest, pos % 8)], BytesToBits(bytes), pos, data,
                numBits, rest)
  {
    StoreHead(bytes, pos / 8, data, numBits - (8 - pos % 8), pos % 8);
  }

  lemma MiddleWritten(bytes: seq<Byte>, before: seq<bool>, pos: nat, data: nat, numBits: nat, rest: nat, j: nat)
    requires PartlyWritten(bytes, before, pos, data, numBits, rest + 8) && 8 * j == pos + numBits - rest - 8
    ensures PartlyWritten(bytes[j := MiddleByte(data, rest)], before, pos, data, numBits, rest)
  {
    StoreMiddle(bytes, j, data, rest);
    NextBits(data, rest, numBits - rest - 8, 8);
    SpliceTwice(before, pos, ToBits(Shr(data, rest + 8), numBits - rest - 8), ToBits(Shr(data, rest), 8));
  }

  lemma TailWritten(bytes: seq<Byte>, before: seq<bool>, pos: nat, data: nat, numBits: nat, rest: nat,
      shiftNum: nat, j: nat)
    requires PartlyWritten(bytes, before, pos, data, numBits, rest)
    requires rest > 0 && rest + shiftNum <= 8 && 8 * j + 8 - shiftNum - rest == pos + numBits - rest
    ensures PartlyWritten(bytes[j := TailByte(bytes[j], data, rest, shiftNum)], before, pos, data, numBits, 0)
  {
    StoreTail(bytes, j, data, rest, shiftNum);
    NextBits(data, 0, numBits - rest, rest);
    SpliceTwice(before, pos, ToBits(Shr(data, rest), numBits - rest), ToBits(data, rest));
  }

  /** The sign bit and the bit announcing another byte, above `numBits` bits still free. */
  function VarNumHeader(isNegative: bool, hasNextByte: bool, numBits: nat): Byte {
    var byte := if isNegative then ToByte(BitOr(0, 0x80)) else 0;
    if hasNextByte then ToByte(BitOr(byte, ToByte(Shl(0x01, numBits)))) else byte
  }

  /** Number of bits of byte `i` left for the number. */
  function VarNumBits(hasSign: bool, maxVarBytes: nat, numVarBytes: nat, i: nat): nat {
    8 - (if hasSign && i == 0 then 1 else 0) - (if i < numVarBytes - 1 || numVarBytes != maxVarBytes then 1 else 0)
  }

  function VarNumShift(maxVarBytes: nat, numVarBytes: nat, i: nat): nat
    requires i < numVarBytes
  {
    (numVarBytes - (i + 1)) * 7 + (if numVarBytes == maxVarBytes && i < numVarBytes - 1 then 1 else 0)
  }

  /** Byte `i` of a variable-length number, built from its header bits and its group. */
  function VarNumByte(value: nat, hasSign: bool, isNegative: bool, maxVarBytes: nat, numVarBytes: nat, i: nat): Byte
    requires i < numVarBytes
  {
    var numBits := VarNumBits(hasSign, maxVarBytes, numVarBytes, i);
    var header := VarNumHeader(hasSign && i == 0 && isNegative, i < numVarBytes - 1, numBits);
    var group := BitAnd(Shr(value, VarNumShift(maxVarBytes, numVarBytes, i)), MaxUnsigned(numBits));
    ToByte(BitOr(header, ToByte(group)))
  }

  lemma GroupOfByte(t: VarType, n: nat, i: nat)
    requires i < n
    ensures VarNumBits(t.Signed(), t.MaxBytes(), n, i) == GroupBits(t, n, i)
    ensures VarNumShift(t.MaxBytes(), n, i) == BitsBelow(t, n, i)
    ensures i + 1 < n || (t.Signed() && i == 0) ==> GroupBits(t, n, i) <= 7
    ensures i + 1 < n && t.Signed() && i == 0 ==> GroupBits(t, n, i) == 6
  {
    hide VarType.MaxBytes, VarType.Signed;
  }

  lemma Shifts()
    ensures Shl(0, 6) == 0 && Shl(0, 7) == 0 && Shl(0, 8) == 0
    ensures Shl(1, 6) == 64 && Shl(1, 7) == 128 && Shl(2, 6) == 128 && Shl(3, 6) == 192
    ensures Pow2(6) == 64 && Pow2(7) == 128 && Pow2(8) == 256
  {
  }

  lemma HeaderByte(isNegative: bool, hasNextByte: bool, numBits: nat) returns (high: nat)
    requires 6 <= numBits <= 8 && (hasNextByte || isNegative ==> numBits <= 7)
    requires isNegative && hasNextByte ==> numBits == 6
    ensures VarNumHeader(isNegative, hasNextByte, numBits)
            == (if isNegative then 0x80 else 0) + (if hasNextByte then Pow2(numBits) else 0)
            == Shl(high, numBits)
  {
    Shifts();
    hide Shl, BitOr;
    OrIsSum(0, 0x80, 8);
    OrIsSum(0, 0x40, 8);
    OrIsSum(1, 0x40, 7);
    SmallTruncate(0x40, 8);
    SmallTruncate(0x80, 8);
    SmallTruncate(0xC0, 8);
    high := if isNegative && numBits == 6 then (if hasNextByte then 3 else 2)
            else if isNegative || hasNextByte then 1 else 0;
  }

  lemma JoinGroup(header: Byte, high: nat, bits: nat, group: nat)
    requires group < Pow2(bits) && 6 <= bits <= 8 && header == Shl(high, bits) && header + group < 256
    ensures ToByte(BitOr(header, ToByte(group))) == header + group
  {
    OrIsSum(high, group, bits);
    SmallTruncate(group, 8);
    SmallTruncate(header + group, 8);
  }

  /** The byte built by the writer is the byte of the layout. */
  lemma VarNumByteIsVarByte(t: VarType, value: nat, isNegative: bool, n: nat, i: nat)
    requires i < n && (isNegative ==> t.Signed()) && 2 <= t.MaxBytes()
    ensures VarNumByte(value, t.Signed(), isNegative, t.MaxBytes(), n, i) == VarByte(t, isNegative, value, n, i)
  {
    hide Shl, BitOr, BitAnd, Shr, Truncate, Pow2, MaxUnsigned, VarNumHeader, VarType.MaxBytes, VarType.Signed, ToByte;
    hide VarNumBits, VarNumShift, BitsBelow, GroupBits, HasFlag;
    GroupOfByte(t, n, i);
    var bits := GroupBits(t, n, i);
    var group := Truncate(Shr(value, BitsBelow(t, n, i)), bits);
    var high := HeaderByte(t.Signed() && i == 0 && isNegative, i < n - 1, bits);
    AndMask(Shr(value, BitsBelow(t, n, i)), bits);
    GroupFits(t, n, i, group);
    JoinGroup(VarNumHeader(t.Signed() && i == 0 && isNegative, i < n - 1, bits), high, bits, group);
  }

  lemma LowWord(data: nat, numBits: nat)
    requires numBits <= 32 && data < Pow2(numBits)
    ensures Truncate(data, 32) == data
  {
    Pow2Monotone(numBits, 32);
    SmallTruncate(data, 32);
  }

  lemma SplitWords(data: nat, numBits: nat)
    requires 32 < numBits <= 64 && data < Pow2(numBits)
    ensures Truncate(Shr(data, 32), 32) < Pow2(numBits - 32)
    ensures ToBits(data, numBits) == ToBits(Truncate(Shr(data, 32), 32), numBits - 32) + ToBits(Truncate(data, 32), 32)
  {
    hide Shr, Truncate, Pow2;
    ShrBound(data, 32, numBits - 32);
    Pow2Monotone(numBits - 32, 32);
    SmallTruncate(Shr(data, 32), 32);
    ToBitsSplit(data, numBits - 32, 32);
    forall i | 0 <= i < 32 ensures ToBits(data, 32)[i] == ToBits(Truncate(data, 32), 32)[i] {
      TruncateBit(data, 32, 31 - i);
    }
  }

  /** Masking a machine word keeps the two's complement of a narrower width. */
  lemma {:induction false} MaskedWord(data: int, width: nat, numBits: nat)
    requires numBits <= width
    ensures BitAnd(Truncate(data, width), MaxUnsigned(numBits)) == Truncate(data, numBits)
  {
    AndMask(Truncate(data, width), numBits);
    Pow2Sum(numBits, width - numBits);
    TruncateTwice(data, Pow2(numBits), Pow2(width - numBits));
  }

  lemma BytesToBitsConcat(a: seq<Byte>, b: seq<Byte>)
    ensures BytesToBits(a + b) == BytesToBits(a) + BytesToBits(b)
  {
  }

  lemma OneByteBits(b: Byte)
    ensures BytesToBits([b]) == ToBits(b, 8) && b < Pow2(8)
  {
    assert Pow2(8) == 256;
  }

  lemma OneMoreByte(bytes: seq<Byte>, i: nat)
    requires i < |bytes|
    ensures BytesToBits(bytes[..i + 1]) == BytesToBits(bytes[..i]) + ToBits(bytes[i], 8)
    ensures BytesToBits(bytes) == BytesToBits(bytes[..i + 1]) + BytesToBits(bytes[i + 1..])
    ensures bytes[i] < Pow2(8)
  {
    assert bytes[..i + 1] == bytes[..i] + [bytes[i]];
    assert bytes == bytes[..i + 1] + bytes[i + 1..];
    BytesToBitsConcat(bytes[..i], [bytes[i]]);
    BytesToBitsConcat(bytes[..i + 1], bytes[i + 1..]);
    OneByteBits(bytes[i]);
  }

  /** From this number of bytes on, eight times the number no longer fits into 32 bits. */
  const BLOCK_LIMIT: nat := 0x2000_0000

  /** What the C++ types of the arguments already guarantee about an item, and the bounds of its block copies. */
  predicate Representable(item: Item) {
    match item
    case Signed(_, value) => FitsSigned(64, value)
    case Variable(varType, value) => varType.Signed() || value >= 0
    case Bytes(bytes) => |bytes| < BLOCK_LIMIT
    case Text(chars) => |chars| < BLOCK_LIMIT
    case BitString(data, bitSize) => bitSize <= 8 * |data|
    case Alignment(to) => 1 <= to <= 64
    case _ => true
  }

  /** Everything the writer accepts is representable, except that bytes are limited. */
  lemma WritableIsRepresentable(item: Item)
    requires Writable(item)
    requires (item.Bytes? ==> |item.bytes| < 0x2000_0000) && (item.Text? ==> |item.chars| < 0x2000_0000)
    ensures Representable(item)
  {
    hide Pow2;
    if item.Signed? {
      Pow2Monotone(item.numBits - 1, 63);
    } else if item.Variable? {
      RangeIsCapacity(item.varType, item.number);
    }
  }

  predicate AllRepresentable(items: seq<Item>) {
    forall i :: 0 <= i < |items| ==> Representable(items[i])
  }

  /** Only at a byte boundary bytes are copied as a block. */
  predicate RepresentableAt(item: Item, pos: nat) {
    Representable(item) || ((item.Bytes? || item.Text?) && pos % 8 != 0)
  }

  lemma ZeroBits(n: nat)
    ensures ToBits(0, n) == Zeros(n)
    ensures 0 < Pow2(n)
  {
    forall i | 0 <= i < n ensures ToBits(0, n)[i] == Zeros(n)[i] {
      ZeroBit(n - 1 - i);
    }
  }

  lemma NoZeros()
    ensures Zeros(0) == BytesToBits([])
  {
  }

  lemma CopyBits(bytes: seq<Byte>, j: nat, data: seq<Byte>)
    requires j + |data| <= |bytes|
    ensures BytesToBits(Splice(bytes, j, data)) == Splice(BytesToBits(bytes), 8 * j, BytesToBits(data))
  {
    var r, s, b := BytesToBits(Splice(bytes, j, data)), BytesToBits(bytes), BytesToBits(data);
    hide Bit;
    forall i | 0 <= i < |s|
      ensures r[i] == if 8 * j <= i < 8 * j + |b| then b[i - 8 * j] else s[i]
    {
      if 8 * j <= i < 8 * j + |b| {
        assert (i - 8 * j) / 8 == i / 8 - j && (i - 8 * j) % 8 == i % 8;
      }
    }
    SpliceIs(s, 8 * j, b, r);
  }

  lemma SpliceIs<T>(s: seq<T>, pos: nat, b: seq<T>, r: seq<T>)
    requires pos + |b| <= |s| == |r|
    requires forall i :: 0 <= i < |s| ==> r[i] == if pos <= i < pos + |b| then b[i - pos] else s[i]
    ensures r == Splice(s, pos, b)
  {
  }

  /** The bits of a bit buffer beyond its full bytes: the high bits of its last byte. */
  function RestBits(data: seq<Byte>, bitSize: nat): (b: seq<bool>)
    requires bitSize <= 8 * |data|
    ensures |b| == bitSize % 8
  {
    if bitSize % 8 == 0 then [] else ToBits(Shr(data[bitSize / 8], 8 - bitSize % 8), bitSize % 8)
  }

  lemma RestIs(data: seq<Byte>, bitSize: nat)
    requires bitSize <= 8 * |data|
    ensures RestBits(data, bitSize)
            == if bitSize % 8 == 0 then [] else ToBits(Shr(data[bitSize / 8], 8 - bitSize % 8), bitSize % 8)
  {
  }

  /** A bit buffer is its full bytes followed by the rest. */
  lemma BitBufferParts(data: seq<Byte>, bitSize: nat)
    requires bitSize <= 8 * |data|
    ensures BytesToBits(data)[..bitSize] == BytesToBits(data[..bitSize / 8]) + RestBits(data, bitSize)
    ensures bitSize % 8 != 0 ==> Shr(data[bitSize / 8], 8 - bitSize % 8) < Pow2(bitSize % 8)
  {
    hide BytesToBits, ToBits, Shr;
    var full, rest := bitSize / 8, bitSize % 8;
    FullBytes(data, full);
    SplitAt(BytesToBits(data), 8 * full, bitSize);
    if rest > 0 {
      HighBits(data, full, rest);
      assert Pow2(8) == 256;
      ShrBound(data[full], 8 - rest, rest);
    }
  }

  lemma SplitAt<T>(s: seq<T>, i: nat, n: nat)
    requires i <= n <= |s|
    ensures s[..n] == s[..i] + s[i..n]
  {
  }

  lemma FullBytes(data: seq<Byte>, full: nat)
    requires full <= |data|
    ensures BytesToBits(data)[..8 * full] == BytesToBits(data[..full])
  {
  }

  lemma HighBits(data: seq<Byte>, full: nat, rest: nat)
    requires full < |data| && 0 < rest < 8
    ensures BytesToBits(data)[8 * full..8 * full + rest] == ToBits(Shr(data[full], 8 - rest), rest)
  {
    var b, e := BytesToBits(data)[8 * full..8 * full + rest], ToBits(Shr(data[full], 8 - rest), rest);
    hide Shr;
    forall i | 0 <= i < rest ensures b[i] == e[i] {
      ShrBit(data[full], 8 - rest, rest - 1 - i);
      assert b[i] == BytesToBits(data)[8 * full + i] == Bit(data[full], 7 - i);
    }
  }

  /**
    Aligning moves the position to a multiple of the alignment exactly when the padding is at most 64 bits; beyond,
    the writer refuses or, the padding being kept in eight bits, stops short of the multiple.
  */
  lemma AlignmentReached(pos: nat, alignment: nat)
    requires alignment > 0
    ensures var padding := Padding(pos, alignment);
            (padding == 0 || 1 <= padding % 256 <= 64) && (pos + padding % 256) % alignment == 0 <==> padding <= 64
  {
    var padding, q, offset := Padding(pos, alignment), pos / alignment, pos % alignment;
    assert pos == q * alignment + offset;
    var move := padding % 256;
    if padding == 0 {
    } else if move < padding {
      ModIsRemainder(pos + move, alignment, q, offset + move);
    } else {
      assert (q + 1) * alignment == q * alignment + alignment;
      ModIsRemainder(pos + padding, alignment, q + 1, 0);
    }
  }

  /** Aligning to 128 bits after one bit is refused, and aligning to 512 bits stops at position 256. */
  lemma AlignmentMissed()
    ensures Padding(1, 128) % 256 == 127 > 64
    ensures Padding(192, 512) % 256 == 64 && (192 + 64) % 512 != 0
  {
  }

  lemma SmallestIsInRange()
    ensures InRange(VarInt, INT64_MIN)
  {
  }

  lemma EncodeVarForms(t: VarType, data: int)
    ensures InRange(t, data) ==>
              EncodeVar(t, data) == if t.VarInt? && data == INT64_MIN then [0x80]
                                    else FormBytes(t, data < 0, Magnitude(data), VarBytes(t, data))
    ensures InRange(t, data) && data < 0 ==> t.Signed()
  {
  }

  lemma SizeBitsAre(n: nat)
    requires n <= VARSIZE_MAX_VALUE
    ensures InRange(VarSize, n) && SizeBits(n) == BytesToBits(EncodeVar(VarSize, n)) && |SizeBits(n)| % 8 == 0
  {
    SizeInRange(n);
  }

  // ----- the writer -----

  class BitStreamWriter {
    const buffer: array?<Byte>
    const bufferBitSize: nat
    var bitIndex: nat

    ghost predicate Valid()
      reads this
    {
      buffer != null ==> bitIndex <= bufferBitSize <= 8 * buffer.Length
    }

    /** All bits of the buffer; none when the writer only counts. */
    ghost function Content(): seq<bool>
      reads this, buffer
    {
      if buffer == null then [] else BytesToBits(buffer[..])
    }

    predicate HasRoom(numBits: nat)
      reads this
    {
      buffer == null || bitIndex + numBits <= bufferBitSize
    }

    /** The bits `b` have been written at `pos` and nothing else has changed. */
    ghost predicate Appended(before: seq<bool>, pos: nat, b: seq<bool>)
      reads this, buffer
    {
      && Valid()
      && bitIndex == pos + |b|
      && (buffer != null ==> pos + |b| <= |before| && Content() == Splice(before, pos, b))
    }

    /** Some first part of the bits `b` has been written. */
    ghost predicate AppendedPrefix(before: seq<bool>, pos: nat, b: seq<bool>)
      reads this, buffer
    {
      exists k | 0 <= k <= |b| :: Appended(before, pos, b[..k])
    }

    /** A write of the bits `b` has ended with `r`: it fails exactly when they do not fit. */
    twostate predicate Wrote(r: WriteResult, b: seq<bool>)
      reads this, buffer
    {
      && r == (if old(HasRoom(|b|)) then Written else InsufficientCapacity)
      && (r.Written? ==> Appended(old(Content()), old(bitIndex), b))
      && (r.InsufficientCapacity? ==> AppendedPrefix(old(Content()), old(bitIndex), b))
    }

    /** A write has been refused because of its value and nothing has changed. */
    twostate predicate Refused(r: WriteResult)
      reads this, buffer
    {
      r == ValueRejected && Valid() && bitIndex == old(bitIndex) && Content() == old(Content())
    }

    /** Bits written after the bits `a` extend them. */
    lemma AppendedAfter(before: seq<bool>, pos: nat, a: seq<bool>, mid: seq<bool>, b: seq<bool>)
      requires buffer != null ==> pos + |a| <= |before| && mid == Splice(before, pos, a)
      requires Appended(mid, pos + |a|, b)
      ensures Appended(before, pos, a + b)
    {
      if buffer != null {
        SpliceTwice(before, pos, a, b);
      }
    }

    lemma PrefixAfter(before: seq<bool>, pos: nat, a: seq<bool>, mid: seq<bool>, b: seq<bool>)
      requires buffer != null ==> pos + |a| <= |before| && mid == Splice(before, pos, a)
      requires AppendedPrefix(mid, pos + |a|, b)
      ensures AppendedPrefix(before, pos, a + b)
    {
      var k :| 0 <= k <= |b| && Appended(mid, pos + |a|, b[..k]);
      AppendedAfter(before, pos, a, mid, b[..k]);
      assert (a + b)[..|a| + k] == a + b[..k];
    }

    lemma PrefixBefore(before: seq<bool>, pos: nat, a: seq<bool>, b: seq<bool>)
      requires AppendedPrefix(before, pos, a)
      ensures AppendedPrefix(before, pos, a + b)
    {
      var k :| 0 <= k <= |a| && Appended(before, pos, a[..k]);
      assert (a + b)[..k] == a[..k];
    }

    lemma NothingAppended(b: seq<bool>)
      requires Valid() && (buffer != null ==> bitIndex <= |Content()|)
      ensures AppendedPrefix(Content(), bitIndex, b)
    {
      assert b[..0] == [];
      assert Appended(Content(), bitIndex, b[..0]);
    }

    constructor (buffer: array?<Byte>, bufferBitSize: nat)
      requires buffer != null ==> bufferBitSize <= 8 * buffer.Length
      ensures Valid() && this.buffer == buffer && this.bufferBitSize == bufferBitSize && bitIndex == 0
    {
      this.buffer := buffer;
      this.bufferBitSize := bufferBitSize;
      this.bitIndex := 0;
    }

    method WriteUnsignedBits32Impl(data: nat, numBits: nat) returns (r: WriteResult)
      requires Valid() && numBits <= 32 && data < Pow2(numBits)
      modifies this`bitIndex, buffer
      ensures Wrote(r, ToBits(data, numBits))
    {
      hide HeadByte, MiddleByte, TailByte, ToBits, BytesToBits, Pow2, Splice, PartlyWritten, AppendedPrefix;
      if buffer == null {
        bitIndex := bitIndex + numBits;
        return Written;
      }
      if bitIndex + numBits > bufferBitSize {
        NothingAppended(ToBits(data, numBits));
        return InsufficientCapacity;
      }

      ghost var before := Content();
      NothingWritten(buffer[..], bitIndex, data, numBits);
      var restNumBits: nat := numBits;
      var bitsUsed := bitIndex % 8;
      var bitsFree := 8 - bitsUsed;
      var byteIndex := bitIndex / 8;

      if restNumBits > bitsFree {
        // fill the byte at the position
        var shiftNum := restNumBits - bitsFree;
        HeadWritten(buffer[..], bitIndex, data, numBits);
        buffer[byteIndex] := HeadByte(buffer[byteIndex], data, shiftNum, bitsUsed);
        byteIndex := byteIndex + 1;
        restNumBits := restNumBits - bitsFree;

        // whole bytes
        while restNumBits >= 8
          modifies buffer
          invariant restNumBits < numBits && 8 * byteIndex == bitIndex + numBits - restNumBits
          invariant PartlyWritten(buffer[..], before, bitIndex, data, numBits, restNumBits)
        {
          restNumBits := restNumBits - 8;
          MiddleWritten(buffer[..], before, bitIndex, data, numBits, restNumBits, byteIndex);
          buffer[byteIndex] := MiddleByte(data, restNumBits);
          byteIndex := byteIndex + 1;
        }

        bitsFree := 8;
      }

      // the bits left go to the top of the free part of a byte
      if restNumBits > 0 {
        var shiftNum := bitsFree - restNumBits;
        TailWritten(buffer[..], before, bitIndex, data, numBits, restNumBits, shiftNum, byteIndex);
        buffer[byteIndex] := TailByte(buffer[byteIndex], data, restNumBits, shiftNum);
      }
      AllWritten(buffer[..], before, bitIndex, data, numBits);
      bitIndex := bitIndex + numBits;
      return Written;
    }

    method WriteUnsignedBits32(data: nat, numBits: nat) returns (r: WriteResult)
      requires Valid()
      modifies this`bitIndex, buffer
      ensures if 1 <= numBits <= 32 && data < Pow2(numBits) then Wrote(r, ToBits(data, numBits)) else Refused(r)
    {
      if numBits == 0 || numBits > 32 || data > MaxUnsigned(numBits) {
        return ValueRejected;
      }
      r := WriteUnsignedBits32Impl(data, numBits);
    }

    method WriteUnsignedBits64Impl(data: nat, numBits: nat) returns (r: WriteResult)
      requires Valid() && numBits <= 64 && data < Pow2(numBits)
      modifies this`bitIndex, buffer
      ensures Wrote(r, ToBits(data, numBits))
    {
      hide ToBits, Pow2, Splice, Shr, Truncate, BytesToBits, AppendedPrefix;
      if numBits <= 32 {
        LowWord(data, numBits);
        r := WriteUnsignedBits32Impl(Truncate(data, 32), numBits);
      } else {
        SplitWords(data, numBits);
        var high, low := Truncate(Shr(data, 32), 32), Truncate(data, 32);
        ghost var a, b := ToBits(high, numBits - 32), ToBits(low, 32);
        r := WriteUnsignedBits32Impl(high, numBits - 32);
        if r != Written {
          PrefixBefore(old(Content()), old(bitIndex), a, b);
          return;
        }
        ghost var mid := Content();
        r := WriteUnsignedBits32Impl(low, 32);
        if r.Written? {
          AppendedAfter(old(Content()), old(bitIndex), a, mid, b);
        } else {
          PrefixAfter(old(Content()), old(bitIndex), a, mid, b);
        }
      }
    }

    method WriteUnsignedBits64(data: nat, numBits: nat) returns (r: WriteResult)
      requires Valid()
      modifies this`bitIndex, buffer
      ensures if 1 <= numBits <= 64 && data < Pow2(numBits) then Wrote(r, ToBits(data, numBits)) else Refused(r)
    {
      if numBits == 0 || numBits > 64 || data > MaxUnsigned(numBits) {
        return ValueRejected;
      }
      r := WriteUnsignedBits64Impl(data, numBits);
    }

    method WriteSignedBits32(data: int, numBits: nat) returns (r: WriteResult)
      requires Valid() && FitsSigned(32, data)
      modifies this`bitIndex, buffer
      ensures if 1 <= numBits <= 32 && FitsSigned(numBits, data) then Wrote(r, ToBits(Truncate(data, numBits), numBits))
              else Refused(r)
    {
      if numBits == 0 || numBits > 32 || data < 0 - Pow2(numBits - 1) || data > MaxUnsigned(numBits - 1) {
        return ValueRejected;
      }
      MaskedWord(data, 32, numBits);
      r := WriteUnsignedBits32Impl(BitAnd(Truncate(data, 32), MaxUnsigned(numBits)), numBits);
    }

    method WriteSignedBits64(data: int, numBits: nat) returns (r: WriteResult)
      requires Valid() && FitsSigned(64, data)
      modifies this`bitIndex, buffer
      ensures if 1 <= numBits <= 64 && FitsSigned(numBits, data) then Wrote(r, ToBits(Truncate(data, numBits), numBits))
              else Refused(r)
    {
      if numBits == 0 || numBits > 64 || data < 0 - Pow2(numBits - 1) || data > MaxUnsigned(numBits - 1) {
        return ValueRejected;
      }
      MaskedWord(data, 64, numBits);
      r := WriteUnsignedBits64Impl(BitAnd(Truncate(data, 64), MaxUnsigned(numBits)), numBits);
    }

    method WriteBool(data: bool) returns (r: WriteResult)
      requires Valid()
      modifies this`bitIndex, buffer
      ensures Wrote(r, [data])
    {
      var bit := if data then 1 else 0;
      assert ToBits(bit, 1)[0] == Bit(bit, 0) == data;
      assert ToBits(bit, 1) == [data];
      r := WriteUnsignedBits32Impl(bit, 1);
    }

    /** Writes the next one of some bytes. */
    method WriteNextByte(byte: Byte, ghost bytes: seq<Byte>, ghost i: nat, ghost before: seq<bool>, ghost pos: nat)
      returns (r: WriteResult)
      requires i < |bytes| && byte == bytes[i]
      requires Appended(before, pos, BytesToBits(bytes[..i])) && (buffer != null ==> |before| == |Content()|)
      modifies this`bitIndex, buffer
      ensures r == if old(HasRoom(8)) then Written else InsufficientCapacity
      ensures r.Written? ==> Appended(before, pos, BytesToBits(bytes[..i + 1]))
      ensures r.InsufficientCapacity? ==> AppendedPrefix(before, pos, BytesToBits(bytes))
    {
      hide ToBits, BytesToBits, Splice, AppendedPrefix, Content;
      ghost var mid := Content();
      ghost var done := BytesToBits(bytes[..i]);
      OneMoreByte(bytes, i);
      r := WriteUnsignedBits32Impl(byte, 8);
      if r.Written? {
        AppendedAfter(before, pos, done, mid, ToBits(byte, 8));
      } else {
        PrefixAfter(before, pos, done, mid, ToBits(byte, 8));
        PrefixBefore(before, pos, BytesToBits(bytes[..i + 1]), BytesToBits(bytes[i + 1..]));
      }
    }

    /** Writes the `numVarBytes`-byte form of a number, byte by byte. */
    method WriteVarNum(value: nat, hasSign: bool, isNegative: bool, maxVarBytes: nat, numVarBytes: nat,
        ghost t: VarType)
      returns (r: WriteResult)
      requires Valid() && hasSign == t.Signed() && maxVarBytes == t.MaxBytes() && (isNegative ==> hasSign)
      modifies this`bitIndex, buffer
      ensures Wrote(r, BytesToBits(FormBytes(t, isNegative, value, numVarBytes)))
    {
      hide ToBits, BytesToBits, Splice, VarNumByte, VarByte, AppendedPrefix, Content, VarType.Signed, VarType.MaxBytes;
      ghost var before, pos := Content(), bitIndex;
      ghost var bytes := FormBytes(t, isNegative, value, numVarBytes);
      NothingWrittenYet();
      for i := 0 to numVarBytes
        invariant Appended(before, pos, BytesToBits(bytes[..i]))
      {
        AtLeastTwoBytes(t);
        VarNumByteIsVarByte(t, value, isNegative, numVarBytes, i);
        var byte := VarNumByte(value, hasSign, isNegative, maxVarBytes, numVarBytes, i);
        r := WriteNextByte(byte, bytes, i, before, pos);
        if r != Written {
          return;
        }
      }
      assert bytes[..numVarBytes] == bytes;
      r := Written;
    }

    lemma NothingWrittenYet()
      requires Valid()
      ensures Appended(Content(), bitIndex, BytesToBits([]))
    {
    }

    method WriteVar(t: VarType, data: int) returns (r: WriteResult)
      requires Valid() && (t.Signed() || data >= 0)
      modifies this`bitIndex, buffer
      ensures if InRange(t, data) then Wrote(r, BytesToBits(EncodeVar(t, data))) else Refused(r)
    {
      hide ToBits, BytesToBits, Splice, AppendedPrefix, VarByte, FormBytes, EncodeVar, VarBytes, InRange,
          VarType.MaxBytes;
      SmallestIsInRange();
      EncodeVarForms(t, data);
      if t == VarInt && data == INT64_MIN {
        OneByteBits(0x80);
        r := WriteUnsignedBits32Impl(0x80, 8); // the pattern of negative zero stands for it
      } else {
        var size := BitSizeOf(t, data);
        if size == None {
          return ValueRejected;
        }
        r := WriteVarNum(Magnitude(data), t.Signed(), data < 0, t.MaxBytes(), size.value / 8, t);
      }
    }

    method SetBitPosition(position: nat) returns (r: WriteResult)
      requires Valid()
      modifies this`bitIndex
      ensures r == if buffer == null || position <= bufferBitSize then Written else InsufficientCapacity
      ensures Valid() && bitIndex == if r.Written? then position else old(bitIndex)
    {
      if buffer != null && position > bufferBitSize {
        return InsufficientCapacity;
      }
      bitIndex := position;
      return Written;
    }

    /** The path of the unaligned writer: one byte after another. */
    method WriteBytewise(data: seq<Byte>) returns (r: WriteResult)
      requires Valid()
      modifies this`bitIndex, buffer
      ensures Wrote(r, BytesToBits(data))
    {
      hide ToBits, BytesToBits, Splice, AppendedPrefix;
      ghost var before, pos := Content(), bitIndex;
      NothingWrittenYet();
      for i := 0 to |data|
        invariant Appended(before, pos, BytesToBits(data[..i]))
      {
        r := WriteNextByte(data[i], data, i, before, pos);
        if r != Written {
          return;
        }
      }
      assert data[..|data|] == data;
      r := Written;
    }

    /** The path of the aligned writer: the position moves by `advance` bits, then the bytes are copied as a block. */
    method WriteBlock(data: seq<Byte>, advance: nat) returns (r: WriteResult)
      requires Valid() && bitIndex % 8 == 0
      requires buffer != null ==> advance == 8 * |data|
      modifies this`bitIndex, buffer
      ensures advance == 8 * |data| ==> Wrote(r, BytesToBits(data))
      ensures buffer == null ==> r == Written && bitIndex == old(bitIndex) + advance
    {
      hide ToBits, BytesToBits, Splice, AppendedPrefix;
      var begin := bitIndex;
      r := SetBitPosition(begin + advance);
      if r != Written {
        NothingAppended(BytesToBits(data));
        return;
      }
      if buffer != null {
        ghost var before := buffer[..];
        CopyBits(before, begin / 8, data);
        forall i | 0 <= i < |data| {
          buffer[begin / 8 + i] := data[i];
        }
        assert buffer[..] == Splice(before, begin / 8, data) by { SpliceIs(before, begin / 8, data, buffer[..]); }
      }
    }

    /** Whether bytes are written as they are: one by one, or as a block whose bit size fits into 32 bits. */
    predicate Copyable(data: seq<Byte>)
      reads this
    {
      bitIndex % 8 != 0 || |data| < BLOCK_LIMIT
    }

    /** Writes bytes one by one or, at a byte boundary, as a block whose bit size is a 32-bit product. */
    method WriteRawBytes(data: seq<Byte>) returns (r: WriteResult)
      requires Valid() && (buffer != null ==> Copyable(data))
      modifies this`bitIndex, buffer
      ensures old(Copyable(data)) ==> Wrote(r, BytesToBits(data))
      ensures !old(Copyable(data)) ==> r == Written && bitIndex == old(bitIndex) + 8 * |data| % TWO_TO_32
    {
      hide BytesToBits, AppendedPrefix;
      if bitIndex % 8 != 0 {
        r := WriteBytewise(data);
      } else {
        r := WriteBlock(data, |data| * 8 % TWO_TO_32);
      }
    }

    /** Bytes preceded by their number; a string of characters is written in the same way. */
    method WriteBytes(data: seq<Byte>) returns (r: WriteResult)
      requires Valid() && (buffer != null ==> Copyable(data))
      modifies this`bitIndex, buffer
      ensures |data| > VARSIZE_MAX_VALUE ==> Refused(r)
      ensures |data| <= VARSIZE_MAX_VALUE && old(Copyable(data)) ==> Wrote(r, SizeBits(|data|) + BytesToBits(data))
      ensures |data| <= VARSIZE_MAX_VALUE && !old(Copyable(data)) ==>
                r == Written && bitIndex == old(bitIndex) + |SizeBits(|data|)| + 8 * |data| % TWO_TO_32
    {
      hide BytesToBits, Splice, AppendedPrefix, Content, EncodeVar, SizeBits, InRange, Pow2;
      if |data| > VARSIZE_MAX_VALUE {
        return ValueRejected;
      }
      SizeBitsAre(|data|);
      ghost var size, bits := SizeBits(|data|), BytesToBits(data);
      r := WriteVar(VarSize, |data|);
      if r != Written {
        PrefixBefore(old(Content()), old(bitIndex), size, bits);
        return;
      }
      assert Copyable(data) == old(Copyable(data));
      ghost var mid := Content();
      r := WriteRawBytes(data);
      if old(Copyable(data)) {
        if r.Written? {
          AppendedAfter(old(Content()), old(bitIndex), size, mid, bits);
        } else {
          PrefixAfter(old(Content()), old(bitIndex), size, mid, bits);
        }
      }
    }

    method WriteString(data: seq<Byte>) returns (r: WriteResult)
      requires Valid() && (buffer != null ==> Copyable(data))
      modifies this`bitIndex, buffer
      ensures |data| > VARSIZE_MAX_VALUE ==> Refused(r)
      ensures |data| <= VARSIZE_MAX_VALUE && old(Copyable(data)) ==> Wrote(r, SizeBits(|data|) + BytesToBits(data))
      ensures |data| <= VARSIZE_MAX_VALUE && !old(Copyable(data)) ==>
                r == Written && bitIndex == old(bitIndex) + |SizeBits(|data|)| + 8 * |data| % TWO_TO_32
    {
      r := WriteBytes(data);
    }

    /** The full bytes of a bit buffer, then the bits left in its last byte. */
    method WriteRawBits(data: seq<Byte>, bitSize: nat) returns (r: WriteResult)
      requires Valid() && bitSize <= 8 * |data|
      modifies this`bitIndex, buffer
      ensures Wrote(r, BytesToBits(data)[..bitSize])
    {
      hide BytesToBits, Splice, AppendedPrefix, Shr, RestBits, ToBits, Pow2, Content;
      var numBytesToWrite := bitSize / 8;
      var numRestBits := bitSize - numBytesToWrite * 8;
      var data' := data[..numBytesToWrite];
      ghost var full, rest := BytesToBits(data'), RestBits(data, bitSize);
      BitBufferParts(data, bitSize);
      if bitIndex % 8 != 0 {
        r := WriteBytewise(data');
      } else {
        r := WriteBlock(data', numBytesToWrite * 8);
      }
      if r != Written {
        PrefixBefore(old(Content()), old(bitIndex), full, rest);
        return;
      }
      RestIs(data, bitSize);
      if numRestBits > 0 {
        ghost var mid := Content();
        r := WriteUnsignedBits32Impl(Shr(data[numBytesToWrite], 8 - numRestBits), numRestBits);
        if r.Written? {
          AppendedAfter(old(Content()), old(bitIndex), full, mid, rest);
        } else {
          PrefixAfter(old(Content()), old(bitIndex), full, mid, rest);
        }
      } else {
        assert full + rest == full;
      }
    }

    /** The bits of a bit buffer preceded by their number. */
    method WriteBitBuffer(data: seq<Byte>, bitSize: nat) returns (r: WriteResult)
      requires Valid() && bitSize <= 8 * |data|
      modifies this`bitIndex, buffer
      ensures if bitSize <= VARSIZE_MAX_VALUE then Wrote(r, SizeBits(bitSize) + BytesToBits(data)[..bitSize])
              else Refused(r)
    {
      hide BytesToBits, Splice, AppendedPrefix, Content, EncodeVar, SizeBits, InRange;
      if bitSize > VARSIZE_MAX_VALUE {
        return ValueRejected;
      }
      SizeBitsAre(bitSize);
      ghost var size, bits := SizeBits(bitSize), BytesToBits(data)[..bitSize];
      r := WriteVar(VarSize, bitSize);
      if r != Written {
        PrefixBefore(old(Content()), old(bitIndex), size, bits);
        return;
      }
      ghost var mid := Content();
      r := WriteRawBits(data, bitSize);
      if r.Written? {
        AppendedAfter(old(Content()), old(bitIndex), size, mid, bits);
      } else {
        PrefixAfter(old(Content()), old(bitIndex), size, mid, bits);
      }
    }

    method AlignTo(alignment: nat) returns (r: WriteResult)
      requires Valid() && alignment > 0
      modifies this`bitIndex, buffer
      ensures var padding := Padding(old(bitIndex), alignment);
              if padding == 0 || 1 <= padding % 256 <= 64 then Wrote(r, Zeros(padding % 256)) else Refused(r)
    {
      hide ToBits, Zeros, Splice, AppendedPrefix;
      var offset := bitIndex % alignment;
      if offset != 0 {
        var skip := (alignment - offset) % 256;
        ZeroBits(skip);
        r := WriteUnsignedBits64(0, skip);
      } else {
        NoZeros();
        NothingWrittenYet();
        r := Written;
      }
    }

    lemma PaddingInByte(pos: nat, to: nat)
      requires 1 <= to <= 64
      ensures Padding(pos, to) % 256 == Padding(pos, to) < 64
    {
    }

    /** Writes one item with the method for its kind. */
    method WriteItem(item: Item) returns (r: WriteResult)
      requires Valid() && RepresentableAt(item, bitIndex)
      modifies this`bitIndex, buffer
      ensures if Writable(item) then Wrote(r, ItemBits(item, old(bitIndex))) else Refused(r)
    {
      hide ToBits, BytesToBits, Zeros, Splice, AppendedPrefix, SizeBits, EncodeVar, InRange, Truncate, Pow2, Content;
      hide Padding, FitsSigned;
      if item.Alignment? {
        PaddingInByte(bitIndex, item.to);
      }
      match item
      case Unsigned(numBits, value) => r := WriteUnsignedBits64(value, numBits);
      case Signed(numBits, value) => r := WriteSignedBits64(value, numBits);
      case Flag(value) => r := WriteBool(value);
      case Variable(varType, value) => r := WriteVar(varType, value);
      case Bytes(bytes) => r := WriteBytes(bytes);
      case Text(chars) => r := WriteString(chars);
      case BitString(data, bitSize) => r := WriteBitBuffer(data, bitSize);
      case Alignment(to) => r := AlignTo(to);
    }
  }
}
