/** The bit stream reader: bits taken from a cached machine word that is refilled from the buffer. */
module Reader {
  import opened Bits
  import opened Streams
  import opened VarInt
  import opened Items

  datatype ReadResult<+T> = Value(value: T) | Error(error: ReadError)

  /** The big-endian word made of some bytes. */
  function ParseBytes(bytes: seq<Byte>): nat {
    if bytes == [] then 0
    else BitOr(Shl(ParseBytes(bytes[..|bytes| - 1]), 8), bytes[|bytes| - 1])
  }

  lemma {:induction false} ParsedBit(bytes: seq<Byte>, i: nat)
    requires i < 8 * |bytes|
    ensures Bit(ParseBytes(bytes), i) == BytesToBits(bytes)[8 * |bytes| - 1 - i]
    decreases |bytes|
  {
    var front, last := bytes[..|bytes| - 1], bytes[|bytes| - 1];
    OrBit(Shl(ParseBytes(front), 8), last, i);
    ShlBit(ParseBytes(front), 8, i);
    if i >= 8 {
      assert Pow2(8) == 256;
      HighBitsClear(last, 8, i);
      ParsedBit(front, i - 8);
    }
  }

  /** The word is the number that the bits of the bytes denote. */
  lemma ParseIsNumber(bytes: seq<Byte>)
    ensures ParseBytes(bytes) == FromBits(BytesToBits(bytes))
  {
    hide BytesToBits, FromBits, Bit;
    ParseBound(bytes);
    forall j | 0 <= j < 8 * |bytes| ensures Bit(ParseBytes(bytes), 8 * |bytes| - 1 - j) == BytesToBits(bytes)[j] {
      ParsedBit(bytes, 8 * |bytes| - 1 - j);
    }
    WordOfBits(ParseBytes(bytes), BytesToBits(bytes));
  }

  lemma {:induction false} ParseBound(bytes: seq<Byte>)
    ensures ParseBytes(bytes) < Pow2(8 * |bytes|)
    decreases |bytes|
  {
    hide Pow2, BitOr, Shl;
    assert Pow2(8) == 256 && Pow2(0) == 1 by { ByteAndOne(); }
    if bytes != [] {
      var front := bytes[..|bytes| - 1];
      ParseBound(front);
      ShlBound(ParseBytes(front), 8, 8 * |front|);
      Pow2Monotone(8, 8 * |bytes|);
      OrBound(Shl(ParseBytes(front), 8), bytes[|bytes| - 1], 8 * |bytes|);
    }
  }

  lemma ByteAndOne()
    ensures Pow2(8) == 256 && Pow2(0) == 1
  {
  }

  /** The first `n` bits of some bytes are their word shifted right by the rest. */
  lemma ParsedPrefix(bytes: seq<Byte>, n: nat)
    requires n <= 8 * |bytes|
    ensures ToBits(Shr(ParseBytes(bytes), 8 * |bytes| - n), n) == BytesToBits(bytes)[..n]
  {
    var k := 8 * |bytes| - n;
    forall i | 0 <= i < n ensures ToBits(Shr(ParseBytes(bytes), k), n)[i] == BytesToBits(bytes)[i] {
      ShrBit(ParseBytes(bytes), k, n - 1 - i);
      ParsedBit(bytes, n - 1 - i + k);
    }
  }

  lemma BytesToBitsSlice(bytes: seq<Byte>, from: nat, to: nat, n: nat)
    requires from <= to <= |bytes| && n <= 8 * (to - from)
    ensures BytesToBits(bytes[from..to])[..n] == BytesToBits(bytes)[8 * from..8 * from + n]
  {
  }

  /** What is left of the old cache above `n` bits of the new one. */
  lemma JoinCaches(oldCache: nat, oldNumBits: nat, newCache: nat, newNumBits: nat, n: nat, width: nat)
    requires n <= newNumBits && oldNumBits + n <= width
    ensures var high := BitAnd(oldCache, MaxUnsigned(oldNumBits));
            var value := if n < width then Truncate(Shl(high, n), width) else high;
            BitOr(value, BitAnd(Shr(newCache, newNumBits - n), MaxUnsigned(n)))
            == FromBits(ToBits(oldCache, oldNumBits) + ToBits(newCache, newNumBits)[..n])
  {
    hide BitAnd, BitOr, Shl, Shr, Truncate, MaxUnsigned, Pow2, Bit;
    var high := BitAnd(oldCache, MaxUnsigned(oldNumBits));
    var value := if n < width then Truncate(Shl(high, n), width) else high;
    var low := BitAnd(Shr(newCache, newNumBits - n), MaxUnsigned(n));
    var b := ToBits(oldCache, oldNumBits) + ToBits(newCache, newNumBits)[..n];
    HighPart(oldCache, oldNumBits, n, width);
    MaskBound(Shr(newCache, newNumBits - n), n);
    Pow2Monotone(n, oldNumBits + n);
    OrBound(value, low, oldNumBits + n);
    forall i | 0 <= i < |b| ensures Bit(BitOr(value, low), |b| - 1 - i) == b[i] {
      var j := |b| - 1 - i;
      OrBit(value, low, j);
      ShlBit(high, n, j);
      if j >= n {
        AndBit(oldCache, MaxUnsigned(oldNumBits), j - n);
        MaskBit(oldNumBits, j - n);
      }
      AndBit(Shr(newCache, newNumBits - n), MaxUnsigned(n), j);
      MaskBit(n, j);
      ShrBit(newCache, newNumBits - n, j);
    }
    WordOfBits(BitOr(value, low), b);
  }

  lemma MaskBound(v: nat, n: nat)
    ensures BitAnd(v, MaxUnsigned(n)) < Pow2(n)
  {
    AndBound(v, MaxUnsigned(n), n);
  }

  /** Shifting what is left of the old cache loses nothing. */
  lemma HighPart(oldCache: nat, oldNumBits: nat, n: nat, width: nat)
    requires oldNumBits + n <= width
    ensures var high := BitAnd(oldCache, MaxUnsigned(oldNumBits));
            && (if n < width then Truncate(Shl(high, n), width) else high) == Shl(high, n)
            && Shl(high, n) < Pow2(oldNumBits + n)
  {
    hide BitAnd, Truncate, MaxUnsigned;
    var high := BitAnd(oldCache, MaxUnsigned(oldNumBits));
    MaskBound(oldCache, oldNumBits);
    ShlBound(high, n, oldNumBits);
    Pow2Monotone(oldNumBits + n, width);
    SmallTruncate(Shl(high, n), width);
    if n == width {
      assert high == 0;
      ShlZero(n);
    }
  }

  lemma ShlZero(n: nat)
    ensures Shl(0, n) == 0
  {
  }

  /** Reading only from the cache. */
  lemma CachedBits(cache: nat, cacheNumBits: nat, n: nat)
    requires n <= cacheNumBits
    ensures BitOr(0, BitAnd(Shr(cache, cacheNumBits - n), MaxUnsigned(n))) == FromBits(ToBits(cache, cacheNumBits)[..n])
  {
    assert BitAnd(0, MaxUnsigned(0)) == 0;
    ShlZero(n);
    SmallTruncate(0, n + 1);
    JoinCaches(0, 0, cache, cacheNumBits, n, n + 1);
    assert ToBits(0, 0) + ToBits(cache, cacheNumBits)[..n] == ToBits(cache, cacheNumBits)[..n];
  }

  /** Reinterprets an unsigned word of the given width as a signed one. */
  function AsSigned(v: nat, width: nat): int
    requires width > 0
  {
    if v >= Pow2(width - 1) then v - Pow2(width) else v
  }

  /** The signed value computed from the bits read: the correction wraps around in the width of the word. */
  function SignExtended(value: nat, numBits: nat, width: nat): int
    requires 0 < numBits <= width
  {
    if numBits < width && value >= Shl(1, numBits - 1) then AsSigned(Truncate(value - Shl(1, numBits), width), width)
    else AsSigned(value, width)
  }

  lemma SignExtension(b: seq<bool>, width: nat)
    requires 0 < |b| <= width
    ensures SignExtended(FromBits(b), |b|, width) == FromSignedBits(b)
  {
    var n, value := |b|, FromBits(b);
    FromBitsBit(b, n - 1);
    assert b[0] == Bit(value, n - 1);
    TopBit(value, n);
    ShlIsProduct(1, n - 1);
    ShlIsProduct(1, n);
    if n < width {
      Pow2Monotone(n, width - 1);
      if b[0] {
        ModIsRemainder(value - Pow2(n), Pow2(width), -1, value - Pow2(n) + Pow2(width));
      }
    }
  }

  lemma SliceOfPrefix<T>(s: seq<T>, n: nat, from: nat, to: nat)
    requires from <= to <= n <= |s|
    ensures s[..n][from..to] == s[from..to]
  {
  }

  /** A cached word holds the next bits of `s`, up to a byte boundary or to the end. */
  ghost predicate Caches(s: seq<bool>, bitIndex: nat, cache: nat, cacheNumBits: nat) {
    && bitIndex + cacheNumBits <= |s|
    && ((bitIndex + cacheNumBits) % 8 == 0 || bitIndex + cacheNumBits == |s|)
    && ToBits(cache, cacheNumBits) == s[bitIndex..bitIndex + cacheNumBits]
  }

  lemma EmptyCache(s: seq<bool>, bitIndex: nat, cache: nat)
    requires bitIndex <= |s| && bitIndex % 8 == 0
    ensures Caches(s, bitIndex, cache, 0)
  {
    assert ToBits(cache, 0) == [];
  }

  /** The cache has been filled at the position: its bits start with the byte in which the position lies. */
  ghost predicate LoadedAt(s: seq<bool>, bitIndex: nat, cache: nat, cacheNumBits: nat) {
    var begin := bitIndex / 8 * 8;
    && bitIndex + cacheNumBits <= |s|
    && ((bitIndex + cacheNumBits) % 8 == bitIndex % 8 || bitIndex + cacheNumBits == |s|)
    && ToBits(cache, cacheNumBits) == s[begin..begin + cacheNumBits]
  }

  /** Bytes read as a word, without the last bits, are the bits of the stream from their position on. */
  lemma WordIsContent(buffer: seq<Byte>, bitSize: nat, bitIndex: nat, word: seq<Byte>, n: nat)
    requires bitSize <= 8 * |buffer| && bitIndex / 8 + |word| <= |buffer|
    requires word == buffer[bitIndex / 8..bitIndex / 8 + |word|]
    requires n <= 8 * |word| && bitIndex + n <= bitSize && (n % 8 == 0 || bitIndex + n == bitSize)
    ensures LoadedAt(BytesToBits(buffer)[..bitSize], bitIndex, Shr(ParseBytes(word), 8 * |word| - n), n)
  {
    hide BytesToBits, ToBits, Shr, ParseBytes;
    var j := bitIndex / 8;
    assert j * 8 == 8 * j <= bitIndex;
    assert n % 8 == 0 ==> (bitIndex + n) % 8 == bitIndex % 8;
    WordBits(buffer, bitSize, j, word, n);
  }

  lemma WordBits(buffer: seq<Byte>, bitSize: nat, j: nat, word: seq<Byte>, n: nat)
    requires bitSize <= 8 * |buffer| && j + |word| <= |buffer| && word == buffer[j..j + |word|]
    requires n <= 8 * |word| && 8 * j + n <= bitSize
    ensures ToBits(Shr(ParseBytes(word), 8 * |word| - n), n) == BytesToBits(buffer)[..bitSize][8 * j..8 * j + n]
  {
    hide BytesToBits, ToBits, Shr, ParseBytes;
    ParsedPrefix(word, n);
    BytesToBitsSlice(buffer, j, j + |word|, n);
    SliceOfPrefix(BytesToBits(buffer), bitSize, 8 * j, 8 * j + n);
  }

  lemma LoadedFits(s: seq<bool>, bitIndex: nat, cache: nat, cacheNumBits: nat)
    requires LoadedAt(s, bitIndex, cache, cacheNumBits) && bitIndex % 8 == 0
    ensures Caches(s, bitIndex, cache, cacheNumBits)
  {
  }

  /** The next `n` bits of a reader in any state: those that are cached, then those a refill of the cache yields. */
  function Ahead(s: seq<bool>, bitIndex: nat, cache: nat, cacheNumBits: nat, n: nat): (b: seq<bool>)
    requires n <= cacheNumBits || bitIndex + n <= |s|
    ensures |b| == n
  {
    if n <= cacheNumBits then ToBits(cache, cacheNumBits)[..n]
    else
      var begin := (bitIndex + cacheNumBits) / 8 * 8;
      ToBits(cache, cacheNumBits) + s[begin..begin + n - cacheNumBits]
  }

  lemma AheadCached(s: seq<bool>, bitIndex: nat, cache: nat, cacheNumBits: nat, n: nat)
    requires n <= cacheNumBits
    ensures Ahead(s, bitIndex, cache, cacheNumBits, n) == ToBits(cache, cacheNumBits)[..n]
  {
  }

  /** With a cache that fits, these are the next bits of the stream. */
  lemma AheadIsNext(s: seq<bool>, bitIndex: nat, cache: nat, cacheNumBits: nat, n: nat)
    requires Caches(s, bitIndex, cache, cacheNumBits) && bitIndex + n <= |s|
    ensures Ahead(s, bitIndex, cache, cacheNumBits, n) == s[bitIndex..bitIndex + n]
  {
    hide ToBits, Ahead;
    if n <= cacheNumBits {
      AheadCached(s, bitIndex, cache, cacheNumBits, n);
      SliceOfSlice(s, bitIndex, bitIndex + cacheNumBits, 0, n);
    } else {
      var mid := bitIndex + cacheNumBits;
      AheadRefilled(s, bitIndex, cache, cacheNumBits, n);
      SliceJoin(s, bitIndex, mid, bitIndex + n);
    }
  }

  lemma AheadRefilled(s: seq<bool>, bitIndex: nat, cache: nat, cacheNumBits: nat, n: nat)
    requires cacheNumBits < n && bitIndex + n <= |s| && (bitIndex + cacheNumBits) % 8 == 0
    ensures Ahead(s, bitIndex, cache, cacheNumBits, n)
            == ToBits(cache, cacheNumBits) + s[bitIndex + cacheNumBits..bitIndex + n]
  {
    hide ToBits;
    assert (bitIndex + cacheNumBits) / 8 * 8 == bitIndex + cacheNumBits;
  }

  lemma SliceJoin<T>(s: seq<T>, from: nat, mid: nat, to: nat)
    requires from <= mid <= to <= |s|
    ensures s[from..mid] + s[mid..to] == s[from..to]
  {
  }

  /** Reading what is left of the old cache and `n` bits of a cache that has just been filled. */
  lemma JoinedRead(s: seq<bool>, bitIndex: nat, oldCache: nat, oldNumBits: nat, newCache: nat, newNumBits: nat,
      n: nat, width: nat)
    requires LoadedAt(s, bitIndex + oldNumBits, newCache, newNumBits)
    requires 0 < n <= newNumBits && oldNumBits + n <= width
    ensures var high := BitAnd(oldCache, MaxUnsigned(oldNumBits));
            var value := if n < width then Truncate(Shl(high, n), width) else high;
            BitOr(value, BitAnd(Shr(newCache, newNumBits - n), MaxUnsigned(n)))
            == FromBits(Ahead(s, bitIndex, oldCache, oldNumBits, oldNumBits + n))
  {
    hide BitAnd, BitOr, Shl, Shr, Truncate, MaxUnsigned, ToBits, FromBits;
    JoinCaches(oldCache, oldNumBits, newCache, newNumBits, n, width);
    var begin := (bitIndex + oldNumBits) / 8 * 8;
    assert s[begin..begin + newNumBits][..n] == s[begin..begin + n];
  }

  /** Taking `n` bits from the cache leaves the bits after them. */
  lemma DropFromCache(s: seq<bool>, bitIndex: nat, cache: nat, cacheNumBits: nat, n: nat)
    requires Caches(s, bitIndex, cache, cacheNumBits) && n <= cacheNumBits
    ensures Caches(s, bitIndex + n, cache, cacheNumBits - n)
  {
    assert ToBits(cache, cacheNumBits - n) == ToBits(cache, cacheNumBits)[n..];
  }

  /** The `c` bits from `b` on come twice, and the second time they end like a filled cache. */
  predicate ComesTwice(s: seq<bool>, b: nat, c: nat) {
    && b + 2 * c <= |s|
    && ((b + 2 * c) % 8 == 0 || b + 2 * c == |s|)
    && s[b..b + c] == s[b + c..b + 2 * c]
  }

  /** Moving past the cached bits without dropping them leaves a cache that fits only by coincidence. */
  lemma MovedPastCache(s: seq<bool>, b: nat, cache: nat, c: nat)
    requires Caches(s, b, cache, c)
    ensures Caches(s, b + c, cache, c) <==> c == 0 || ComesTwice(s, b, c)
  {
    if c == 0 {
      assert ToBits(cache, 0) == s[b..b];
    }
  }

  lemma CachesBounds(s: seq<bool>, bitIndex: nat, cache: nat, cacheNumBits: nat)
    requires Caches(s, bitIndex, cache, cacheNumBits)
    ensures bitIndex + cacheNumBits <= |s|
    ensures (bitIndex + cacheNumBits) % 8 == 0 || bitIndex + cacheNumBits == |s|
  {
  }

  lemma {:induction false} FromBitsConcat(a: seq<bool>, b: seq<bool>)
    ensures FromBits(a + b) == Shl(FromBits(a), |b|) + FromBits(b)
    decreases |b|
  {
    if b == [] {
      assert a + b == a;
    } else {
      assert (a + b)[..|a + b| - 1] == a + b[..|b| - 1];
      FromBitsConcat(a, b[..|b| - 1]);
    }
  }

  /** Two words read one after the other make one. */
  lemma JoinWords(s: seq<bool>, pos: nat, n: nat)
    requires pos + 32 + n <= |s| && n <= 32
    ensures BitOr(Truncate(Shl(FromBits(s[pos..pos + 32]), n), 64), FromBits(s[pos + 32..pos + 32 + n]))
            == FromBits(s[pos..pos + 32 + n])
  {
    hide FromBits, Shl, BitOr, Truncate, Bit, Pow2;
    var a, b := s[pos..pos + 32], s[pos + 32..pos + 32 + n];
    var v := FromBits(a);
    FromBitsBit(a, 0);
    FromBitsBit(b, 0);
    ShlBound(v, n, 32);
    Pow2Monotone(n + 32, 64);
    SmallTruncate(Shl(v, n), 64);
    OrIsSum(v, FromBits(b), n);
    FromBitsConcat(a, b);
    assert a + b == s[pos..pos + 32 + n];
  }

  lemma IsByte(v: nat)
    ensures v < Pow2(8) <==> v < 256
  {
    assert Pow2(8) == 256;
  }

  lemma TopOfByte(v: nat, n: nat)
    requires v < Pow2(n) && n <= 8
    ensures Shl(v, 8 - n) < 256
  {
    ShlBound(v, 8 - n, n);
    IsByte(Shl(v, 8 - n));
  }

  lemma EightBits(b: seq<bool>)
    requires |b| == 8
    ensures FromBits(b) < 256
  {
    FromBitsBit(b, 0);
    assert Pow2(8) == 256;
  }

  /** The masks of the first byte of a variable-length number. */
  lemma FirstByteFields(signed: bool, byte: nat)
    ensures BitAnd(byte, 0x80) != 0 <==> Bit(byte, 7)
    ensures BitAnd(byte, if signed then 0x3F else 0x7F) == Truncate(byte, if signed then 6 else 7)
    ensures BitAnd(byte, if signed then 0x40 else 0x80) != 0 <==> Bit(byte, if signed then 6 else 7)
  {
    assert Pow2(6) == 0x40 && Pow2(7) == 0x80;
    AndSingleBit(byte, 6);
    AndSingleBit(byte, 7);
    AndMask(byte, 6);
    AndMask(byte, 7);
  }

  /** The masks and shifts of the other bytes. */
  lemma NextByteFields(result: nat, byte: nat)
    requires byte < 256
    ensures BitAnd(byte, 0x80) != 0 <==> Bit(byte, 7)
    ensures BitOr(Shl(result, 7), BitAnd(byte, 0x7F)) == 128 * result + Truncate(byte, 7)
    ensures BitOr(Shl(result, 8), byte) == 256 * result + byte
  {
    assert Pow2(7) == 0x80 && Pow2(8) == 0x100;
    AndSingleBit(byte, 7);
    AndMask(byte, 7);
    OrIsSum(result, Truncate(byte, 7), 7);
    OrIsSum(result, byte, 8);
    ShlIsProduct(result, 7);
    ShlIsProduct(result, 8);
  }

  lemma SliceOfSlice<T>(s: seq<T>, from: nat, to: nat, i: nat, j: nat)
    requires i <= j && from + j <= to <= |s|
    ensures s[from..to][i..j] == s[from + i..from + j]
  {
    var a, b := s[from..to][i..j], s[from + i..from + j];
    assert |a| == |b|;
    forall k | 0 <= k < |a| ensures a[k] == b[k] {
      assert a[k] == s[from..to][i + k];
    }
  }

  lemma NoBytes(s: seq<bool>, pos: nat)
    requires pos <= |s|
    ensures BitsToBytes(s[pos..pos]) == []
  {
  }

  lemma NextByte(s: seq<bool>, begin: nat, i: nat)
    requires begin + 8 * i + 8 <= |s|
    ensures FromBits(s[begin + 8 * i..begin + 8 * i + 8]) < 256
    ensures BitsToBytes(s[begin..begin + 8 * (i + 1)])
            == BitsToBytes(s[begin..begin + 8 * i]) + [FromBits(s[begin + 8 * i..begin + 8 * i + 8])]
  {
    EightBits(s[begin + 8 * i..begin + 8 * i + 8]);
    var r, e := BitsToBytes(s[begin..begin + 8 * (i + 1)]),
                BitsToBytes(s[begin..begin + 8 * i]) + [FromBits(s[begin + 8 * i..begin + 8 * i + 8])];
    forall j | 0 <= j < i + 1 ensures r[j] == e[j] {
      SliceOfSlice(s, begin, begin + 8 * (i + 1), 8 * j, 8 * j + 8);
      if j < i {
        SliceOfSlice(s, begin, begin + 8 * i, 8 * j, 8 * j + 8);
      }
    }
  }

  /** A block of the buffer is what reading its bytes one by one yields. */
  lemma BlockBytes(buffer: seq<Byte>, bitSize: nat, j: nat, len: nat)
    requires bitSize <= 8 * |buffer| && 8 * (j + len) <= bitSize
    ensures BitsToBytes(BytesToBits(buffer)[..bitSize][8 * j..8 * j + 8 * len]) == buffer[j..j + len]
  {
    hide BytesToBits, BitsToBytes;
    BlockBits(buffer, j, len);
    assert BytesToBits(buffer)[..bitSize][8 * j..8 * j + 8 * len] == BytesToBits(buffer)[8 * j..8 * j + 8 * len];
    BytesThereAndBack(buffer[j..j + len]);
  }

  lemma BlockBits(buffer: seq<Byte>, j: nat, len: nat)
    requires j + len <= |buffer|
    ensures BytesToBits(buffer)[8 * j..8 * j + 8 * len] == BytesToBits(buffer[j..j + len])
  {
    var b, part := BytesToBits(buffer)[8 * j..8 * j + 8 * len], buffer[j..j + len];
    forall i | 0 <= i < 8 * len ensures b[i] == BytesToBits(part)[i] {
      assert b[i] == BytesToBits(buffer)[8 * j + i];
      assert (8 * j + i) / 8 == j + i / 8 && (8 * j + i) % 8 == i % 8;
    }
  }

  lemma {:induction false} ZerosValue(n: nat)
    ensures FromBits(Zeros(n)) == 0
  {
    if n > 0 {
      assert Zeros(n)[..n - 1] == Zeros(n - 1);
      ZerosValue(n - 1);
    }
  }

  /** A byte with some bits on top. */
  function TopBits(t: seq<bool>): Byte
    requires |t| < 8
  {
    ByteOf(t + Zeros(8 - |t|))
  }

  lemma TopBitsShifted(t: seq<bool>)
    requires |t| < 8
    ensures TopBits(t) == Shl(FromBits(t), 8 - |t|)
  {
    hide FromBits, Shl, Zeros;
    FromBitsConcat(t, Zeros(8 - |t|));
    ZerosValue(8 - |t|);
  }

  /** The bytes of a bit string ending in a full byte `last`. */
  lemma BytesAndLast(front: seq<bool>, last: seq<bool>)
    requires |front| % 8 == 0 && |last| == 8
    ensures BitsToBytes(front + last) == BitsToBytes(front) + [ByteOf(last)]
  {
    hide ByteOf;
    var r, e := BitsToBytes(front + last), BitsToBytes(front) + [ByteOf(last)];
    forall j | 0 <= j < |r| ensures r[j] == e[j] {
      if j < |front| / 8 {
        assert (front + last)[8 * j..8 * j + 8] == front[8 * j..8 * j + 8];
      } else {
        assert (front + last)[8 * j..8 * j + 8] == last;
      }
    }
  }

  /** A padded bit string is its full bytes and, if some bits are left, a byte with those bits on top. */
  lemma PaddedBytes(front: seq<bool>, t: seq<bool>)
    requires |front| % 8 == 0 && |t| < 8
    ensures t == [] ==> BitsToBytes(PadToByte(front + t)) == BitsToBytes(front)
    ensures t != [] ==> BitsToBytes(PadToByte(front + t)) == BitsToBytes(front) + [TopBits(t)]
  {
    hide ByteOf, BitsToBytes, Zeros;
    if t == [] {
      assert PadToByte(front + t) == front;
    } else {
      var z := Zeros(8 - |t|);
      assert PadToByte(front + t) == front + (t + z);
      BytesAndLast(front, t + z);
    }
  }

  // ----- the reader -----

  class BitStreamReader {
    const buffer: seq<Byte>
    const bufferBitSize: nat
    /** Width of the cached word: 64 bits on 64-bit machines, otherwise 32 bits. */
    const cacheBitSize: nat
    var cache: nat
    var cacheNumBits: nat
    var bitIndex: nat

    predicate WellFormed() {
      bufferBitSize <= 8 * |buffer| && (cacheBitSize == 32 || cacheBitSize == 64)
    }

    /** The bits that can be read. */
    function Content(): (s: seq<bool>)
      requires WellFormed()
      ensures |s| == bufferBitSize
    {
      BytesToBits(buffer)[..bufferBitSize]
    }

    /** Any state that reads can leave behind, failed ones included. */
    predicate Usable()
      reads this
    {
      WellFormed() && cacheNumBits <= cacheBitSize
    }

    /** The cache holds the bits at the position. */
    ghost predicate Valid()
      reads this
    {
      Usable() && Caches(Content(), bitIndex, cache, cacheNumBits)
    }

    /** A result is the one the bits determine; only reading past the end may leave the reader unusable. */
    ghost predicate Agrees<T>(r: ReadResult<T>, d: Decoded<T>)
      reads this
    {
      match d
      case Decoded(v, next) => r == Value(v) && Valid() && bitIndex == next
      case Failed(error) => r == Error(error) && (error != EndOfStream ==> Valid())
    }

    constructor (buffer: seq<Byte>, bufferBitSize: nat, cacheBitSize: nat)
      requires bufferBitSize <= 8 * |buffer| && (cacheBitSize == 32 || cacheBitSize == 64)
      ensures Valid() && bitIndex == 0
      ensures this.buffer == buffer && this.bufferBitSize == bufferBitSize && this.cacheBitSize == cacheBitSize
    {
      this.buffer := buffer;
      this.bufferBitSize := bufferBitSize;
      this.cacheBitSize := cacheBitSize;
      cache := 0;
      cacheNumBits := 0;
      bitIndex := 0;
    }

    /** Fills the cache with the bits from the byte of the position on; at a byte boundary these are the next ones. */
    method LoadCacheNext(numBits: nat) returns (ok: bool)
      requires WellFormed() && 0 < numBits <= cacheBitSize
      modifies this`cache, this`cacheNumBits
      ensures ok == (bitIndex + numBits <= bufferBitSize)
      ensures ok ==> numBits <= cacheNumBits <= cacheBitSize
      ensures ok ==> LoadedAt(Content(), bitIndex, cache, cacheNumBits)
      ensures !ok ==> cache == old(cache) && cacheNumBits == old(cacheNumBits)
    {
      hide ToBits, BytesToBits, ParseBytes, Shr, LoadedAt;
      var byteIndex := bitIndex / 8;
      var word: seq<Byte>;
      if bufferBitSize >= bitIndex + cacheBitSize {
        word := buffer[byteIndex..byteIndex + cacheBitSize / 8];
        cache := ParseBytes(word);
        cacheNumBits := cacheBitSize;
        ShrNothing(cache);
      } else {
        if bitIndex + numBits > bufferBitSize {
          return false;
        }
        cacheNumBits := bufferBitSize - bitIndex;
        // the last byte is loaded whole and its surplus bits are shifted out
        var alignedNumBits := (cacheNumBits + 7) / 8 * 8;
        word := buffer[byteIndex..byteIndex + alignedNumBits / 8];
        cache := Shr(ParseBytes(word), alignedNumBits - cacheNumBits);
      }
      WordIsContent(buffer, bufferBitSize, bitIndex, word, cacheNumBits);
      return true;
    }

    lemma ShrNothing(v: nat)
      ensures Shr(v, 0) == v
    {
    }

    /**
      Reads up to a word of bits. A failed read moves the position past the cached bits but keeps them cached, which
      leaves the reader valid only by coincidence; from then on reads are served from the stale cache.
    */
    method ReadUnsignedBitsImpl(numBits: nat) returns (r: Option<nat>)
      requires Usable() && 0 < numBits <= cacheBitSize
      modifies this
      ensures Usable()
      ensures r.None? <==> numBits > old(cacheNumBits) && old(bitIndex) + numBits > bufferBitSize
      ensures r.Some? ==>
                && r.value == FromBits(Ahead(Content(), old(bitIndex), old(cache), old(cacheNumBits), numBits))
                && r.value < Pow2(numBits) && bitIndex == old(bitIndex) + numBits
      ensures numBits <= old(cacheNumBits) ==> cacheNumBits == old(cacheNumBits) - numBits && cache == old(cache)
      ensures r.None? ==> bitIndex == old(bitIndex) + old(cacheNumBits)
                          && cacheNumBits == old(cacheNumBits) && cache == old(cache)
      ensures old(Valid()) ==>
                && r == (if old(bitIndex) + numBits <= bufferBitSize
                         then Some(FromBits(Content()[old(bitIndex)..old(bitIndex) + numBits])) else None)
                && (r.Some? ==> Valid())
                && (r.None? ==> (Valid() <==> old(cacheNumBits) == 0
                                              || ComesTwice(Content(), old(bitIndex), old(cacheNumBits))))
    {
      hide BitAnd, BitOr, Shl, Shr, Truncate, FromBits, ToBits, MaxUnsigned, Content, Caches, ComesTwice, LoadedAt,
        Ahead, Pow2;
      ghost var valid, s := Valid(), Content();
      var value, n := 0, numBits;
      if valid {
        CachesBounds(s, bitIndex, cache, cacheNumBits);
        MovedPastCache(s, bitIndex, cache, cacheNumBits);
        if bitIndex + numBits <= bufferBitSize {
          AheadIsNext(s, bitIndex, cache, cacheNumBits, numBits);
        }
      }
      if cacheNumBits < n {
        // take what the cache still has
        value := BitAnd(cache, MaxUnsigned(cacheNumBits));
        bitIndex := bitIndex + cacheNumBits;
        n := n - cacheNumBits;

        var ok := LoadCacheNext(n);
        if !ok {
          return None;
        }

        JoinedRead(s, old(bitIndex), old(cache), old(cacheNumBits), cache, cacheNumBits, n, cacheBitSize);
        if valid {
          LoadedFits(s, bitIndex, cache, cacheNumBits);
        }
        if n < cacheBitSize {
          value := Truncate(Shl(value, n), cacheBitSize);
        }
      } else {
        CachedBits(cache, cacheNumBits, n);
        AheadCached(s, bitIndex, cache, cacheNumBits, n);
      }
      value := BitOr(value, BitAnd(Shr(cache, cacheNumBits - n), MaxUnsigned(n)));
      FromBitsBit(Ahead(s, old(bitIndex), old(cache), old(cacheNumBits), numBits), 0);
      if valid {
        DropFromCache(s, bitIndex, cache, cacheNumBits, n);
      }
      cacheNumBits := cacheNumBits - n;
      bitIndex := bitIndex + n;
      return Some(value);
    }

    method ReadUnsignedBits32(numBits: nat) returns (r: ReadResult<nat>)
      requires Usable()
      modifies this
      ensures Usable()
      ensures old(Valid()) && numBits <= 32 ==> Agrees(r, DecodeUnsigned(Content(), old(bitIndex), numBits))
      ensures numBits > 32 ==> r == Error(InvalidBitCount) && bitIndex == old(bitIndex)
      ensures numBits > 32 && old(Valid()) ==> Valid()
      ensures r.Value? ==>
                && (numBits <= old(cacheNumBits) || old(bitIndex) + numBits <= bufferBitSize)
                && r.value == FromBits(Ahead(Content(), old(bitIndex), old(cache), old(cacheNumBits), numBits))
                && r.value < Pow2(numBits) && bitIndex == old(bitIndex) + numBits
      ensures 0 < numBits <= old(cacheNumBits) && numBits <= 32 ==> r.Value?
      ensures r == Error(EndOfStream) ==> bitIndex == old(bitIndex) + old(cacheNumBits)
                                          && cacheNumBits == old(cacheNumBits) && cache == old(cache)
    {
      hide Caches, Content, FromBits, ToBits, ComesTwice, Ahead, Pow2;
      if numBits == 0 || numBits > 32 {
        return Error(InvalidBitCount);
      }
      var v := ReadUnsignedBitsImpl(numBits);
      r := if v.Some? then Value(v.value) else Error(EndOfStream);
    }

    method ReadUnsignedBits64Impl(numBits: nat) returns (r: Option<nat>)
      requires Usable() && cacheBitSize == 32 && 32 < numBits <= 64
      modifies this
      ensures Usable()
      ensures old(Valid()) ==>
                && r == (if old(bitIndex) + numBits <= bufferBitSize
                         then Some(FromBits(Content()[old(bitIndex)..old(bitIndex) + numBits])) else None)
                && (r.Some? ==> Valid() && bitIndex == old(bitIndex) + numBits)
    {
      hide Caches, Content, FromBits, BitOr, Shl, Truncate, Ahead, Pow2;
      ghost var valid := Valid();
      var n := numBits - 32;
      var high := ReadUnsignedBitsImpl(32);
      if high.None? {
        return None;
      }
      var value := Truncate(Shl(high.value, n), 64);
      var low := ReadUnsignedBitsImpl(n);
      if low.None? {
        return None;
      }
      if valid {
        JoinWords(Content(), old(bitIndex), n);
      }
      return Some(BitOr(value, low.value));
    }

    method ReadUnsignedBits64(numBits: nat) returns (r: ReadResult<nat>)
      requires Usable()
      modifies this
      ensures Usable()
      ensures old(Valid()) ==> Agrees(r, DecodeUnsigned(Content(), old(bitIndex), numBits))
    {
      hide Caches, Content, FromBits;
      if numBits == 0 || numBits > 64 {
        return Error(InvalidBitCount);
      }
      var v: Option<nat>;
      if cacheBitSize == 64 || numBits <= 32 {
        v := ReadUnsignedBitsImpl(numBits);
      } else {
        v := ReadUnsignedBits64Impl(numBits);
      }
      r := if v.Some? then Value(v.value) else Error(EndOfStream);
    }

    method ReadSignedBitsImpl(numBits: nat) returns (r: Option<int>)
      requires Usable() && 0 < numBits <= cacheBitSize
      modifies this
      ensures Usable()
      ensures old(Valid()) ==>
                && r == (if old(bitIndex) + numBits <= bufferBitSize
                         then Some(FromSignedBits(Content()[old(bitIndex)..old(bitIndex) + numBits])) else None)
                && (r.Some? ==> Valid() && bitIndex == old(bitIndex) + numBits)
    {
      hide Caches, Content, FromBits, SignExtended, FromSignedBits, Ahead, Pow2;
      ghost var valid := Valid();
      var value := ReadUnsignedBitsImpl(numBits);
      if value.None? {
        return None;
      }
      if valid {
        SignExtension(Content()[old(bitIndex)..old(bitIndex) + numBits], cacheBitSize);
      }
      return Some(SignExtended(value.value, numBits, cacheBitSize));
    }

    method ReadSignedBits32(numBits: nat) returns (r: ReadResult<int>)
      requires Usable()
      modifies this
      ensures Usable()
      ensures old(Valid()) && numBits <= 32 ==> Agrees(r, DecodeSigned(Content(), old(bitIndex), numBits))
      ensures numBits > 32 ==> r == Error(InvalidBitCount) && bitIndex == old(bitIndex)
      ensures numBits > 32 && old(Valid()) ==> Valid()
    {
      hide Caches, Content, FromSignedBits;
      if numBits == 0 || numBits > 32 {
        return Error(InvalidBitCount);
      }
      var v := ReadSignedBitsImpl(numBits);
      r := if v.Some? then Value(v.value) else Error(EndOfStream);
    }

    method ReadSignedBits64(numBits: nat) returns (r: ReadResult<int>)
      requires Usable()
      modifies this
      ensures Usable()
      ensures old(Valid()) ==> Agrees(r, DecodeSigned(Content(), old(bitIndex), numBits))
    {
      hide Caches, Content, FromBits, SignExtended, FromSignedBits;
      ghost var valid := Valid();
      if numBits == 0 || numBits > 64 {
        return Error(InvalidBitCount);
      }
      var v: Option<int>;
      if cacheBitSize == 64 || numBits <= 32 {
        v := ReadSignedBitsImpl(numBits);
      } else {
        var word := ReadUnsignedBits64Impl(numBits);
        if word.Some? {
          if valid {
            SignExtension(Content()[old(bitIndex)..old(bitIndex) + numBits], 64);
          }
          v := Some(SignExtended(word.value, numBits, 64));
        } else {
          v := None;
        }
      }
      r := if v.Some? then Value(v.value) else Error(EndOfStream);
    }

    method ReadBool() returns (r: ReadResult<bool>)
      requires Usable()
      modifies this
      ensures Usable()
      ensures old(Valid()) ==> Agrees(r, Map(DecodeUnsigned(Content(), old(bitIndex), 1), v => v != 0))
    {
      hide Caches, Content, FromBits;
      var v := ReadUnsignedBitsImpl(1);
      r := if v.Some? then Value(v.value != 0) else Error(EndOfStream);
    }

    /** Reads the bytes of a variable-length number after the first one, as many as the bytes announce. */
    method ReadVarRest(t: VarType, first: nat, announced: bool) returns (r: Option<nat>)
      requires Usable()
      modifies this
      ensures Usable()
      ensures var d := DecodeRest(Content(), old(bitIndex), t.MaxBytes() - 1, t.AccumulatorBits(), first, announced);
              old(Valid()) ==>
                if d.Decoded? then r == Some(d.value) && Valid() && bitIndex == d.next
                else r == None && d == Failed(EndOfStream)
    {
      ghost var valid := Valid();
      hide Caches, Content, Ahead, FromBits, BitOr, BitAnd, Shl, Truncate, Pow2, Bit, VarType.MaxBytes,
          VarType.AccumulatorBits;
      AtLeastTwoBytes(t);
      var result, more := first, announced;
      ghost var rest := DecodeRest(Content(), bitIndex, t.MaxBytes() - 1, t.AccumulatorBits(), result, more);
      var i := 1;
      while more
        invariant Usable() && 1 <= i <= t.MaxBytes() && (i == t.MaxBytes() ==> !more)
        invariant valid ==>
                    && Valid()
                    && rest == if more
                       then DecodeRest(Content(), bitIndex, t.MaxBytes() - i, t.AccumulatorBits(), result, more)
                       else Decoded(result, bitIndex)
        decreases t.MaxBytes() - i
      {
        var byte := ReadUnsignedBitsImpl(8);
        if byte.None? {
          return None;
        }
        IsByte(byte.value);
        NextByteFields(result, byte.value);
        if i == t.MaxBytes() - 1 {
          result := Truncate(BitOr(Shl(result, 8), byte.value), t.AccumulatorBits());
          more := false;
        } else {
          result := BitOr(Shl(result, 7), BitAnd(byte.value, 0x7F));
          more := BitAnd(byte.value, 0x80) != 0;
        }
        i := i + 1;
      }
      return Some(result);
    }

    /** Reads a variable-length number. */
    method ReadVar(t: VarType) returns (r: ReadResult<int>)
      requires Usable()
      modifies this
      ensures Usable()
      ensures old(Valid()) ==> Agrees(r, DecodeVar(t, Content(), old(bitIndex)))
      ensures r.Value? && !t.Signed() ==> r.value >= 0
    {
      hide Caches, Content, FromBits, BitAnd, Truncate, Bit, VarType.MaxBytes, VarType.AccumulatorBits, DecodeRest;
      hide VarType.Signed, Signify;
      AtLeastTwoBytes(t);
      var byte := ReadUnsignedBitsImpl(8);
      if byte.None? {
        return Error(EndOfStream);
      }
      FirstByteFields(t.Signed(), byte.value);
      var negative := t.Signed() && BitAnd(byte.value, 0x80) != 0;
      var more := BitAnd(byte.value, if t.Signed() then 0x40 else 0x80) != 0;
      var result := ReadVarRest(t, BitAnd(byte.value, if t.Signed() then 0x3F else 0x7F), more);
      if result.None? {
        return Error(EndOfStream);
      }
      r := Signified(t, negative, result.value, !more, bitIndex);
    }

    /** The value of a number that has been read; the position stays. */
    method Signified(t: VarType, negative: bool, magnitude: nat, oneByte: bool, ghost next: nat)
      returns (r: ReadResult<int>)
      ensures match Signify(t, negative, magnitude, next, oneByte)
              case Decoded(value, end) => r == Value(value) && end == next
              case Failed(error) => r == Error(error) && error != EndOfStream
      ensures r.Value? && !negative ==> r.value >= 0
    {
      if t == VarSize && magnitude > VARSIZE_MAX_VALUE {
        return Error(OutOfRange);
      }
      if negative && t == VarInt && oneByte && magnitude == 0 {
        return Value(INT64_MIN);
      }
      r := Value(if negative then 0 - magnitude else magnitude);
    }

    /** Moves to a position; this works after a failed read as well and makes the reader usable again. */
    method SetBitPosition(position: nat) returns (ok: bool)
      requires WellFormed()
      modifies this
      ensures ok == (position <= bufferBitSize)
      ensures ok ==> Valid() && bitIndex == position
      ensures !ok ==> cache == old(cache) && cacheNumBits == old(cacheNumBits) && bitIndex == old(bitIndex)
    {
      hide Caches, Content, FromBits;
      if position > bufferBitSize {
        return false;
      }
      bitIndex := position / 8 * 8;
      cacheNumBits := 0;
      EmptyCache(Content(), bitIndex, cache);
      var skip := position - bitIndex;
      if skip != 0 {
        var _ := ReadUnsignedBits32(skip);
      }
      return true;
    }

    /** Skips the padding; the skip is kept in 8 bits. */
    method AlignTo(alignment: nat) returns (r: ReadResult<Item>)
      requires Usable() && alignment > 0
      modifies this
      ensures Usable()
      ensures old(Valid()) && alignment <= 64 ==> Agrees(r, DecodeAlignment(Content(), old(bitIndex), alignment))
      ensures var padding := Padding(old(bitIndex), alignment);
              old(Valid()) && padding > 0 ==>
                Agrees(r, Map(DecodeUnsigned(Content(), old(bitIndex), padding % 256),
                              (v: nat) => Alignment(alignment)))
      ensures Padding(old(bitIndex), alignment) == 0 ==> r == Value(Alignment(alignment)) && bitIndex == old(bitIndex)
      ensures Padding(old(bitIndex), alignment) == 0 && old(Valid()) ==> Valid()
    {
      hide Caches, Content, FromBits;
      ghost var valid := Valid();
      var offset := bitIndex % alignment;
      if offset != 0 {
        var skip := (alignment - offset) % 256;
        var v := ReadUnsignedBits64(skip);
        if v.Error? {
          return Error(v.error);
        }
      } else if valid {
        CachesBounds(Content(), bitIndex, cache, cacheNumBits);
      }
      return Value(Alignment(alignment));
    }

    /** The bytes that start at a position. */
    function BytesFrom(begin: nat, len: nat): seq<Byte>
      requires WellFormed() && begin + 8 * len <= bufferBitSize
    {
      BitsToBytes(Content()[begin..begin + 8 * len])
    }

    /** The path of the unaligned reader: one byte after another. */
    method ReadBytewise(len: nat) returns (r: Option<seq<Byte>>)
      requires Usable()
      modifies this
      ensures Usable()
      ensures old(Valid()) && old(bitIndex) + 8 * len <= bufferBitSize ==>
                Valid() && bitIndex == old(bitIndex) + 8 * len && r == Some(BytesFrom(old(bitIndex), len))
    {
      hide Caches, Content, FromBits, BitsToBytes, Ahead, Pow2;
      ghost var s, begin, fits := Content(), bitIndex, Valid() && bitIndex + 8 * len <= bufferBitSize;
      var value: seq<Byte> := [];
      if fits {
        NoBytes(s, begin);
      }
      for i := 0 to len
        invariant Usable()
        invariant fits ==>
                    && Valid() && bitIndex == begin + 8 * i
                    && value == BitsToBytes(s[begin..begin + 8 * i])
      {
        if fits {
          NextByte(s, begin, i);
        }
        var byte := ReadUnsignedBitsImpl(8);
        if byte.None? {
          return None;
        }
        IsByte(byte.value);
        value := value + [byte.value];
      }
      return Some(value);
    }

    lemma BlockAt(begin: nat, len: nat)
      requires WellFormed() && begin + 8 * len <= bufferBitSize && begin % 8 == 0
      ensures begin / 8 + len <= |buffer|
      ensures BytesFrom(begin, len) == buffer[begin / 8..begin / 8 + len]
    {
      hide BitsToBytes, BytesToBits;
      BlockBytes(buffer, bufferBitSize, begin / 8, len);
    }

    /** The path of the aligned reader: the position moves on and the bytes are taken as a block. */
    method ReadBlock(len: nat) returns (r: Option<seq<Byte>>)
      requires Usable() && bitIndex % 8 == 0
      modifies this
      ensures Usable()
      ensures if old(bitIndex) + 8 * len <= bufferBitSize
              then Valid() && bitIndex == old(bitIndex) + 8 * len && r == Some(BytesFrom(old(bitIndex), len))
              else r == None
    {
      hide Caches, BytesFrom;
      var begin := bitIndex;
      var moved := SetBitPosition(begin + 8 * len);
      if !moved {
        return None;
      }
      BlockAt(begin, len);
      return Some(buffer[begin / 8..begin / 8 + len]);
    }

    /** Reads bytes preceded by their number; a string of characters is read in the same way. */
    method ReadBytes() returns (r: ReadResult<seq<Byte>>)
      requires Usable()
      modifies this
      ensures Usable()
      ensures old(Valid()) ==> Agrees(r, DecodeBytes(Content(), old(bitIndex)))
    {
      hide Caches, Content, BitsToBytes, DecodeVar;
      var size := ReadVar(VarSize);
      if size.Error? {
        return Error(size.error);
      }
      var len := size.value;
      if bitIndex + 8 * len > bufferBitSize {
        return Error(EndOfStream);
      }
      var value: Option<seq<Byte>>;
      if bitIndex % 8 != 0 {
        value := ReadBytewise(len);
      } else {
        value := ReadBlock(len);
      }
      r := if value.Some? then Value(value.value) else Error(EndOfStream);
    }

    method ReadString() returns (r: ReadResult<seq<Byte>>)
      requires Usable()
      modifies this
      ensures Usable()
      ensures old(Valid()) ==> Agrees(r, DecodeBytes(Content(), old(bitIndex)))
    {
      r := ReadBytes();
    }

    /** Reads a bit buffer: its full bytes, then the bits left, moved to the top of a last byte. */
    method ReadBitBuffer() returns (r: ReadResult<Item>)
      requires Usable()
      modifies this
      ensures Usable()
      ensures old(Valid()) ==> Agrees(r, DecodeBitString(Content(), old(bitIndex)))
    {
      hide Caches, Content, BitsToBytes, PadToByte, DecodeVar;
      var size := ReadVar(VarSize);
      if size.Error? {
        return Error(size.error);
      }
      var bitSize := size.value;
      if bitIndex + bitSize > bufferBitSize {
        return Error(EndOfStream);
      }
      var data := ReadRawBits(bitSize);
      r := if data.Some? then Value(BitString(data.value, bitSize)) else Error(EndOfStream);
    }

    /** The full bytes of a bit buffer, then a byte with the bits left. */
    method ReadRawBits(bitSize: nat) returns (r: Option<seq<Byte>>)
      requires Usable()
      modifies this
      ensures Usable()
      ensures old(Valid()) && old(bitIndex) + bitSize <= bufferBitSize ==>
                && Valid() && bitIndex == old(bitIndex) + bitSize
                && r == Some(BitsToBytes(PadToByte(Content()[old(bitIndex)..old(bitIndex) + bitSize])))
    {
      hide Caches, Content, BitsToBytes, PadToByte, Shl, FromBits, Ahead, Pow2;
      ghost var begin, fits := bitIndex, Valid() && bitIndex + bitSize <= bufferBitSize;
      var numBytesToRead := bitSize / 8;
      var numRestBits := bitSize - numBytesToRead * 8;
      var value: Option<seq<Byte>>;
      if bitIndex % 8 != 0 {
        value := ReadBytewise(numBytesToRead);
      } else {
        value := ReadBlock(numBytesToRead);
      }
      if value.None? {
        return None;
      }
      var data: seq<Byte> := value.value;
      if fits {
        ghost var front, t := Content()[begin..bitIndex], Content()[bitIndex..begin + bitSize];
        assert Content()[begin..begin + bitSize] == front + t;
        PaddedBytes(front, t);
        TopBitsShifted(t);
        assert bitIndex + numRestBits == begin + bitSize;
      }
      if numRestBits > 0 {
        var rest := ReadUnsignedBits32(numRestBits);
        if rest.Error? {
          return None;
        }
        TopOfByte(rest.value, numRestBits);
        var last: Byte := Shl(rest.value, 8 - numRestBits);
        data := data + [last];
      }
      return Some(data);
    }

    /** Reads one item with the method for its kind. */
    method ReadItem(shape: Shape) returns (r: ReadResult<Item>)
      requires Usable() && Readable(shape)
      modifies this
      ensures Usable()
      ensures old(Valid()) ==> Agrees(r, DecodeItem(shape, Content(), old(bitIndex)))
    {
      hide Caches, Content, DecodeUnsigned, DecodeSigned, DecodeVar, DecodeBytes, DecodeBitString, DecodeAlignment;
      match shape
      case UnsignedShape(numBits) =>
        var v := ReadUnsignedBits64(numBits);
        r := if v.Value? then Value(Unsigned(numBits, v.value)) else Error(v.error);
      case SignedShape(numBits) =>
        var v := ReadSignedBits64(numBits);
        r := if v.Value? then Value(Signed(numBits, v.value)) else Error(v.error);
      case FlagShape =>
        var v := ReadBool();
        r := if v.Value? then Value(Flag(v.value)) else Error(v.error);
      case VariableShape(varType) =>
        var v := ReadVar(varType);
        r := if v.Value? then Value(Variable(varType, v.value)) else Error(v.error);
      case BytesShape =>
        var v := ReadBytes();
        r := if v.Value? then Value(Bytes(v.value)) else Error(v.error);
      case TextShape =>
        var v := ReadString();
        r := if v.Value? then Value(Text(v.value)) else Error(v.error);
      case BitStringShape => r := ReadBitBuffer();
      case AlignmentShape(to) => r := AlignTo(to);
    }
  }
}
