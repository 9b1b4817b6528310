/** Bit buffers: equality, order and hash code, which depend on the stored bits only. */
module BitBuffers {
  import opened Bits
  import opened Items

  /** Bytes of which the first `bitSize` bits are used, most significant bit of a byte first. */
  datatype BitBuffer = BitBuffer(buffer: seq<Byte>, bitSize: nat)
  {
    function ByteSize(): nat {
      (bitSize + 7) / 8
    }

    /** What the constructors check. */
    predicate Valid() {
      ByteSize() <= |buffer|
    }

    /** The stored bits. */
    function Stored(): (b: seq<bool>)
      requires Valid()
      ensures |b| == bitSize
    {
      BytesToBits(buffer)[..bitSize]
    }

    function MaskedLastByte(): (b: Byte)
      requires Valid() && ByteSize() > 0
    {
      var roundedByteSize := bitSize / 8;
      var lastByteBits := bitSize - 8 * roundedByteSize;
      if lastByteBits == 0 then buffer[roundedByteSize - 1]
      else
        MaskedIsByte(buffer[roundedByteSize], Shl(0xFF, 8 - lastByteBits));
        BitAnd(buffer[roundedByteSize], Shl(0xFF, 8 - lastByteBits))
    }
  }

  lemma MaskedIsByte(byte: Byte, mask: nat)
    ensures BitAnd(byte, mask) < 256
  {
    assert Pow2(8) == 256;
    HighBitsAreClear(byte, mask);
  }

  lemma {:induction false} HighBitsAreClear(v: nat, w: nat)
    ensures BitAnd(v, w) <= v
    decreases v
  {
    if v > 0 {
      HighBitsAreClear(v / 2, w / 2);
    }
  }

  // ----- lexicographic order -----

  /** The order of dictionaries on bit strings. */
  predicate LexLess(a: seq<bool>, b: seq<bool>) {
    b != [] && (a == [] || (!a[0] && b[0]) || (a[0] == b[0] && LexLess(a[1..], b[1..])))
  }

  lemma {:induction false} LexIrreflexive(a: seq<bool>)
    ensures !LexLess(a, a)
  {
    if a != [] {
      LexIrreflexive(a[1..]);
    }
  }

  lemma {:induction false} LexTransitive(a: seq<bool>, b: seq<bool>, c: seq<bool>)
    requires LexLess(a, b) && LexLess(b, c)
    ensures LexLess(a, c)
  {
    if a != [] && a[0] == b[0] == c[0] {
      LexTransitive(a[1..], b[1..], c[1..]);
    }
  }

  /** Of two bit strings exactly one is smaller, unless they are equal. */
  lemma {:induction false} LexTrichotomy(a: seq<bool>, b: seq<bool>)
    ensures LexLess(a, b) || LexLess(b, a) <==> a != b
    ensures !(LexLess(a, b) && LexLess(b, a))
  {
    if a != [] && b != [] && a[0] == b[0] {
      LexTrichotomy(a[1..], b[1..]);
      assert a == [a[0]] + a[1..] && b == [b[0]] + b[1..];
    }
  }

  lemma {:induction false} LexSkipCommon(a: seq<bool>, b: seq<bool>, k: nat)
    requires k <= |a| && k <= |b| && a[..k] == b[..k]
    ensures LexLess(a, b) == LexLess(a[k..], b[k..])
    decreases k
  {
    if k > 0 {
      assert a[0] == a[..k][0] == b[..k][0] == b[0];
      assert a[1..][..k - 1] == a[..k][1..] && b[1..][..k - 1] == b[..k][1..];
      LexSkipCommon(a[1..], b[1..], k - 1);
      assert a[1..][k - 1..] == a[k..] && b[1..][k - 1..] == b[k..];
    }
  }

  // ----- comparing by bytes -----

  /** The first `n` bits, padded with zeros. */
  function Window(b: seq<bool>, n: nat): (w: seq<bool>)
    ensures |w| == n
  {
    if |b| >= n then b[..n] else b + Zeros(n - |b|)
  }

  lemma {:induction false} FirstBitValue(b: seq<bool>)
    requires b != []
    ensures FromBits(b) == (if b[0] then Pow2(|b| - 1) else 0) + FromBits(b[1..])
    decreases |b|
  {
    if |b| > 1 {
      FirstBitValue(b[..|b| - 1]);
      assert b[..|b| - 1][1..] == b[1..][..|b| - 2];
    }
  }

  lemma WindowStep(b: seq<bool>, n: nat)
    requires n > 0
    ensures FromBits(Window(b, n))
            == (if b != [] && b[0] then Pow2(n - 1) else 0) + FromBits(Window(if b == [] then [] else b[1..], n - 1))
    ensures FromBits(Window(if b == [] then [] else b[1..], n - 1)) < Pow2(n - 1)
  {
    FirstBitValue(Window(b, n));
    assert Window(b, n)[1..] == Window(if b == [] then [] else b[1..], n - 1);
    FromBitsBit(Window(if b == [] then [] else b[1..], n - 1), 0);
  }

  lemma {:induction false} EmptyWindow(n: nat)
    ensures FromBits(Window([], n)) == 0
  {
    if n > 0 {
      WindowStep([], n);
      EmptyWindow(n - 1);
    }
  }

  /** Comparing the values of two windows compares the bit strings, as far as the windows differ. */
  lemma {:induction false} WindowLess(a: seq<bool>, b: seq<bool>, n: nat)
    requires FromBits(Window(a, n)) < FromBits(Window(b, n))
    ensures LexLess(a, b)
    decreases n
  {
    if b == [] {
      EmptyWindow(n);
      assert false;
    } else if n > 0 {
      WindowStep(a, n);
      WindowStep(b, n);
      if a != [] && a[0] == b[0] {
        WindowLess(a[1..], b[1..], n - 1);
      }
    }
  }

  lemma {:induction false} WindowEqual(a: seq<bool>, b: seq<bool>, n: nat)
    requires FromBits(Window(a, n)) == FromBits(Window(b, n))
    requires |a| <= n || |b| <= n
    ensures LexLess(a, b) == (|a| < |b|)
    decreases n
  {
    if a != [] && b != [] {
      WindowStep(a, n);
      WindowStep(b, n);
      WindowEqual(a[1..], b[1..], n - 1);
    }
  }

  /** A whole byte of the buffer. */
  lemma ByteIsWindow(x: BitBuffer, i: nat)
    requires x.Valid() && 8 * i + 8 <= x.bitSize
    ensures x.buffer[i] == FromBits(Window(x.Stored()[8 * i..], 8))
  {
    var w := Window(x.Stored()[8 * i..], 8);
    assert Pow2(8) == 256;
    forall j | 0 <= j < 8 ensures Bit(x.buffer[i], 7 - j) == w[j] {
      assert w[j] == x.Stored()[8 * i + j];
    }
    WordOfBits(x.buffer[i], w);
  }

  lemma StoredBit(x: BitBuffer, i: nat, j: nat)
    requires x.Valid() && j < 8 && 8 * i + j < x.bitSize
    ensures x.Stored()[8 * i + j] == Bit(x.buffer[i], 7 - j)
  {
  }

  /** The masked last byte. */
  lemma LastIsWindow(x: BitBuffer)
    requires x.Valid() && x.ByteSize() > 0
    ensures x.MaskedLastByte() == FromBits(Window(x.Stored()[8 * (x.ByteSize() - 1)..], 8))
  {
    hide BytesToBits, Window, BitAnd, Shl, FromBits;
    var i, rest := x.ByteSize() - 1, x.bitSize % 8;
    if rest == 0 {
      ByteIsWindow(x, i);
    } else {
      var t := x.Stored()[8 * i..];
      forall j | 0 <= j < rest ensures t[j] == Bit(x.buffer[i], 7 - j) {
        StoredBit(x, i, j);
      }
      MaskedByte(x.buffer[i], t);
    }
  }

  lemma MaskedByte(byte: Byte, t: seq<bool>)
    requires 0 < |t| < 8 && forall j :: 0 <= j < |t| ==> t[j] == Bit(byte, 7 - j)
    ensures BitAnd(byte, Shl(0xFF, 8 - |t|)) == FromBits(Window(t, 8))
  {
    var v, k := BitAnd(byte, Shl(0xFF, 8 - |t|)), 8 - |t|;
    assert Pow2(8) == 256;
    MaskedIsByte(byte, Shl(0xFF, k));
    forall j | 0 <= j < 8 ensures Bit(v, 7 - j) == Window(t, 8)[j] {
      AndBit(byte, Shl(0xFF, k), 7 - j);
      ShlBit(0xFF, k, 7 - j);
      if j < |t| {
        MaskBit(8, 7 - j - k);
      }
    }
    hide BitAnd, Shl;
    WordOfBits(v, Window(t, 8));
  }

  // ----- the operators -----

  /** Buffers are equal when their sizes, their bytes but the last one and their masked last bytes are. */
  predicate Equals(x: BitBuffer, y: BitBuffer)
    requires x.Valid() && y.Valid()
  {
    && x.bitSize == y.bitSize
    && (x.ByteSize() > 0 ==>
          && (x.ByteSize() > 1 ==> x.buffer[..x.ByteSize() - 1] == y.buffer[..x.ByteSize() - 1])
          && x.MaskedLastByte() == y.MaskedLastByte())
  }

  lemma SameWindow(a: seq<bool>, b: seq<bool>)
    requires |a| == |b| <= 8
    ensures FromBits(Window(a, 8)) == FromBits(Window(b, 8)) <==> a == b
  {
    if FromBits(Window(a, 8)) == FromBits(Window(b, 8)) {
      WindowEqual(a, b, 8);
      WindowEqual(b, a, 8);
      LexTrichotomy(a, b);
    }
  }

  /** Equality is equality of the stored bits: what the rest of the last byte holds does not matter. */
  lemma EqualIffSameBits(x: BitBuffer, y: BitBuffer)
    requires x.Valid() && y.Valid()
    ensures Equals(x, y) <==> x.Stored() == y.Stored()
  {
    hide BytesToBits, Window, BitBuffer.MaskedLastByte;
    if x.bitSize == y.bitSize && x.bitSize > 0 {
      var n := x.ByteSize() - 1;
      LastIsWindow(x);
      LastIsWindow(y);
      SameWindow(x.Stored()[8 * n..], y.Stored()[8 * n..]);
      SameBytes(x, y, n);
      assert x.Stored() == x.Stored()[..8 * n] + x.Stored()[8 * n..];
      assert y.Stored() == y.Stored()[..8 * n] + y.Stored()[8 * n..];
    }
  }

  lemma SameBytes(x: BitBuffer, y: BitBuffer, n: nat)
    requires x.Valid() && y.Valid() && 8 * n <= x.bitSize && 8 * n <= y.bitSize
    ensures x.buffer[..n] == y.buffer[..n] <==> x.Stored()[..8 * n] == y.Stored()[..8 * n]
  {
    hide BitBuffer.Stored;
    if x.buffer[..n] == y.buffer[..n] {
      forall i | 0 <= i < 8 * n ensures x.Stored()[..8 * n][i] == y.Stored()[..8 * n][i] {
        StoredBit(x, i / 8, i % 8);
        StoredBit(y, i / 8, i % 8);
        assert x.buffer[..n][i / 8] == y.buffer[..n][i / 8];
      }
    } else if x.Stored()[..8 * n] == y.Stored()[..8 * n] {
      forall i | 0 <= i < n ensures x.buffer[..n][i] == y.buffer[..n][i] {
        ByteIsWindow(x, i);
        ByteIsWindow(y, i);
        assert x.Stored()[8 * i..][..8] == x.Stored()[..8 * n][8 * i..8 * i + 8];
        assert y.Stored()[8 * i..][..8] == y.Stored()[..8 * n][8 * i..8 * i + 8];
      }
    }
  }

  /** The order is exactly the lexicographic order of the stored bits. */
  method Less(x: BitBuffer, y: BitBuffer) returns (r: bool)
    requires x.Valid() && y.Valid()
    ensures r == LexLess(x.Stored(), y.Stored())
  {
    hide BytesToBits, Window, BitBuffer.MaskedLastByte, BitBuffer.Stored, LexLess;
    ghost var a, b := x.Stored(), y.Stored();
    var byteSize1, byteSize2 := x.ByteSize(), y.ByteSize();
    if byteSize1 == 0 || byteSize2 == 0 {
      NothingIsLeast(a, b);
      return byteSize1 == 0 && byteSize2 != 0;
    }
    var first := 0;
    assert a[0..] == a && b[0..] == b;
    while first != byteSize1 - 1 && first != byteSize2 - 1
      invariant first < byteSize1 && first < byteSize2
      invariant LexLess(a, b) == LexLess(a[8 * first..], b[8 * first..])
    {
      ByteIsWindow(x, first);
      ByteIsWindow(y, first);
      CompareByte(a, b, first);
      if x.buffer[first] < y.buffer[first] {
        return true;
      }
      if y.buffer[first] < x.buffer[first] {
        return false;
      }
      first := first + 1;
    }
    var lastValue1 := if first != byteSize1 - 1 then x.buffer[first] else x.MaskedLastByte();
    var lastValue2 := if first != byteSize2 - 1 then y.buffer[first] else y.MaskedLastByte();
    ByteOrLast(x, first);
    ByteOrLast(y, first);
    CompareLast(a[8 * first..], b[8 * first..]);
    if lastValue1 < lastValue2 {
      return true;
    }
    if lastValue2 < lastValue1 {
      return false;
    }
    return x.bitSize < y.bitSize;
  }

  lemma NothingIsLeast(a: seq<bool>, b: seq<bool>)
    requires a == [] || b == []
    ensures LexLess(a, b) == (a == [] && b != [])
  {
  }

  lemma ByteOrLast(x: BitBuffer, i: nat)
    requires x.Valid() && i < x.ByteSize()
    ensures (if i != x.ByteSize() - 1 then x.buffer[i] else x.MaskedLastByte())
            == FromBits(Window(x.Stored()[8 * i..], 8))
  {
    if i == x.ByteSize() - 1 {
      LastIsWindow(x);
    } else {
      ByteIsWindow(x, i);
    }
  }

  /** Comparing one byte of both buffers. */
  lemma CompareByte(a: seq<bool>, b: seq<bool>, i: nat)
    requires 8 * i + 8 <= |a| && 8 * i + 8 <= |b|
    ensures var u, v := FromBits(Window(a[8 * i..], 8)), FromBits(Window(b[8 * i..], 8));
            && (u < v ==> LexLess(a[8 * i..], b[8 * i..]))
            && (v < u ==> !LexLess(a[8 * i..], b[8 * i..]))
            && (u == v ==> LexLess(a[8 * i..], b[8 * i..]) == LexLess(a[8 * (i + 1)..], b[8 * (i + 1)..]))
  {
    var s, t := a[8 * i..], b[8 * i..];
    if FromBits(Window(s, 8)) < FromBits(Window(t, 8)) {
      WindowLess(s, t, 8);
    } else if FromBits(Window(t, 8)) < FromBits(Window(s, 8)) {
      WindowLess(t, s, 8);
      LexTrichotomy(s, t);
    } else {
      ToFromBits(s[..8]);
      ToFromBits(t[..8]);
      LexSkipCommon(s, t, 8);
      assert s[8..] == a[8 * (i + 1)..] && t[8..] == b[8 * (i + 1)..];
    }
  }

  lemma CompareLast(s: seq<bool>, t: seq<bool>)
    requires |s| <= 8 || |t| <= 8
    ensures var u, v := FromBits(Window(s, 8)), FromBits(Window(t, 8));
            LexLess(s, t) == if u < v then true else if v < u then false else |s| < |t|
  {
    if FromBits(Window(s, 8)) < FromBits(Window(t, 8)) {
      WindowLess(s, t, 8);
    } else if FromBits(Window(t, 8)) < FromBits(Window(s, 8)) {
      WindowLess(t, s, 8);
      LexTrichotomy(s, t);
    } else {
      WindowEqual(s, t, 8);
    }
  }

  /** The order is a strict total order whose ties are the equal buffers. */
  lemma OrderAgreesWithEquality(x: BitBuffer, y: BitBuffer, z: BitBuffer)
    requires x.Valid() && y.Valid() && z.Valid()
    ensures LexLess(x.Stored(), y.Stored()) || LexLess(y.Stored(), x.Stored()) <==> !Equals(x, y)
    ensures !(LexLess(x.Stored(), y.Stored()) && LexLess(y.Stored(), x.Stored())) && !LexLess(x.Stored(), x.Stored())
    ensures LexLess(x.Stored(), y.Stored()) && LexLess(y.Stored(), z.Stored()) ==> LexLess(x.Stored(), z.Stored())
  {
    hide Equals, BitBuffer.Stored;
    EqualIffSameBits(x, y);
    LexIrreflexive(x.Stored());
    LexTrichotomy(x.Stored(), y.Stored());
    if LexLess(x.Stored(), y.Stored()) && LexLess(y.Stored(), z.Stored()) {
      LexTransitive(x.Stored(), y.Stored(), z.Stored());
    }
  }

  /** A buffer with unused bits set is accepted; it equals the one whose unused bits are zero. */
  lemma UnusedBitsSet()
    ensures BitBuffer([0xFF], 4).Valid() && BitBuffer([0xF0], 4).Valid()
    ensures exists i :: 4 <= i < 8 && BytesToBits([0xFF])[i]
    ensures Equals(BitBuffer([0xFF], 4), BitBuffer([0xF0], 4))
  {
    hide BitBuffer.MaskedLastByte, Equals;
    var x, y := BitBuffer([0xFF], 4), BitBuffer([0xF0], 4);
    HighHalves();
    assert BytesToBits([0xFF])[4];
    assert x.Stored() == y.Stored();
    EqualIffSameBits(x, y);
  }

  lemma HighHalves()
    ensures forall i :: 3 <= i < 8 ==> Bit(0xFF, i)
    ensures forall i :: 4 <= i < 8 ==> Bit(0xF0, i)
  {
    forall i | 0 <= i < 8 ensures Bit(0xFF, i) {
      MaskBit(8, i);
    }
    assert Bit(0xF0, 4) && Bit(0xF0, 5) && Bit(0xF0, 6) && Bit(0xF0, 7);
  }

  /** The unused bits of a buffer are zero exactly when masking does not change its last byte. */
  lemma UnusedBitsZeroIff(x: BitBuffer)
    requires x.Valid() && x.ByteSize() > 0
    ensures (forall i :: x.bitSize <= i < 8 * x.ByteSize() ==> !BytesToBits(x.buffer)[i])
            <==> x.buffer[x.ByteSize() - 1] == x.MaskedLastByte()
  {
    hide BitBuffer.MaskedLastByte, FromBits;
    var n := x.ByteSize() - 1;
    var last, w := x.buffer[n], Window(x.Stored()[8 * n..], 8);
    LastIsWindow(x);
    assert Pow2(8) == 256;
    forall i | x.bitSize <= i < 8 * n + 8
      ensures BytesToBits(x.buffer)[i] == Bit(last, 7 - (i - 8 * n)) && !w[i - 8 * n]
    {
    }
    if last == x.MaskedLastByte() {
      forall i | x.bitSize <= i < 8 * n + 8
        ensures !BytesToBits(x.buffer)[i]
      {
        FromBitsBit(w, 7 - (i - 8 * n));
      }
    } else if forall i :: x.bitSize <= i < 8 * n + 8 ==> !BytesToBits(x.buffer)[i] {
      forall j | 0 <= j < 8
        ensures Bit(last, 7 - j) == w[j]
      {
        if 8 * n + j < x.bitSize {
          StoredBit(x, n, j);
        } else {
          assert !BytesToBits(x.buffer)[8 * n + j];
        }
      }
      WordOfBits(last, w);
    }
  }

  // ----- hash code -----

  const HASH_PRIME_NUMBER: nat := 37
  const HASH_SEED: nat := 23

  function CalcHashCode(seed: nat, value: nat): nat {
    Truncate(HASH_PRIME_NUMBER * seed + value, 32)
  }

  /** Hash code of the first `n` groups of eight bits, the last one padded with zeros. */
  function HashOfBits(b: seq<bool>, n: nat): nat {
    if n == 0 then HASH_SEED
    else CalcHashCode(HashOfBits(b, n - 1), if 8 * (n - 1) <= |b| then FromBits(Window(b[8 * (n - 1)..], 8)) else 0)
  }

  /** The hash code depends on the stored bits only, so equal buffers hash equally. */
  method HashCode(x: BitBuffer) returns (result: nat)
    requires x.Valid()
    ensures result == HashOfBits(x.Stored(), (|x.Stored()| + 7) / 8)
  {
    hide BytesToBits, Window, BitBuffer.MaskedLastByte, BitBuffer.Stored, CalcHashCode;
    result := HASH_SEED;
    var byteSize := x.ByteSize();
    if byteSize > 0 {
      if byteSize > 1 {
        for i := 0 to byteSize - 1
          invariant result == HashOfBits(x.Stored(), i)
        {
          ByteIsWindow(x, i);
          result := CalcHashCode(result, x.buffer[i]);
        }
      }
      LastIsWindow(x);
      result := CalcHashCode(result, x.MaskedLastByte());
    }
  }

  /** The hash code without wrap-around: a polynomial of the bytes. */
  function HashSum(bytes: seq<nat>): nat {
    if bytes == [] then 23 else 37 * HashSum(bytes[..|bytes| - 1]) + bytes[|bytes| - 1]
  }

  /** A byte of a buffer; the unused bits of the last one are cleared. */
  function UsedByte(x: BitBuffer, i: nat): nat
    requires x.Valid() && i < x.ByteSize()
  {
    if 8 * i + 8 <= x.bitSize then x.buffer[i]
    else
      var v, k := x.buffer[i], 8 * i + 8 - x.bitSize;
      assert v % Pow2(k) <= v by { RestIsSmaller(v, Pow2(k)); }
      v - v % Pow2(k)
  }

  lemma RestIsSmaller(v: nat, m: nat)
    requires m > 0
    ensures v % m <= v
  {
  }

  function UsedBytes(x: BitBuffer): (bytes: seq<nat>)
    requires x.Valid()
    ensures |bytes| == x.ByteSize()
  {
    seq(x.ByteSize(), i requires 0 <= i < x.ByteSize() => UsedByte(x, i))
  }

  lemma UsedByteIsWindow(x: BitBuffer, i: nat)
    requires x.Valid() && i < x.ByteSize()
    ensures UsedBytes(x)[i] == FromBits(Window(x.Stored()[8 * i..], 8))
  {
    hide BytesToBits, BitBuffer.Stored, FromBits, Pow2, Window;
    if 8 * i + 8 <= x.bitSize {
      ByteIsWindow(x, i);
    } else {
      var k, v := 8 * i + 8 - x.bitSize, x.buffer[i];
      var w := Window(x.Stored()[8 * i..], 8);
      WindowHasTopBits(x, i);
      ClearedBits(v, k, w);
    }
  }

  lemma WindowHasTopBits(x: BitBuffer, i: nat)
    requires x.Valid() && i < x.ByteSize() && 8 * i + 8 > x.bitSize
    ensures var w := Window(x.Stored()[8 * i..], 8);
            forall j :: 0 <= j < 8 ==> w[j] == (8 * i + j < x.bitSize && Bit(x.buffer[i], 7 - j))
  {
    hide BytesToBits;
    forall j | 0 <= j < 8 && 8 * i + j < x.bitSize ensures x.Stored()[8 * i..][j] == Bit(x.buffer[i], 7 - j) {
      StoredBit(x, i, j);
    }
  }

  lemma ClearedBits(v: Byte, k: nat, w: seq<bool>)
    requires |w| == 8 && k <= 8 && forall j :: 0 <= j < 8 ==> w[j] == (j + k < 8 && Bit(v, 7 - j))
    ensures v - v % Pow2(k) == FromBits(w)
  {
    hide Bit, Pow2, Shr, Shl, FromBits;
    var c := Shl(Shr(v, k), k);
    ShrIsDivision(v, k);
    ShlIsProduct(Shr(v, k), k);
    forall j | 0 <= j < 8 ensures Bit(c, 7 - j) == w[j] {
      ShlBit(Shr(v, k), k, 7 - j);
      if 7 - j >= k {
        ShrBit(v, k, 7 - j - k);
      }
    }
    assert Pow2(8) == 256 by { BytePowers(); }
    WordOfBits(c, w);
  }

  lemma {:induction false} HashIsSum(x: BitBuffer, n: nat)
    requires x.Valid() && n <= x.ByteSize()
    ensures HashOfBits(x.Stored(), n) == HashSum(UsedBytes(x)[..n]) % 0x1_0000_0000
  {
    hide BitBuffer.Stored, Window, FromBits, UsedBytes;
    Powers();
    if n > 0 {
      HashIsSum(x, n - 1);
      UsedByteIsWindow(x, n - 1);
      assert UsedBytes(x)[..n][..n - 1] == UsedBytes(x)[..n - 1];
      WrapStep(HashSum(UsedBytes(x)[..n - 1]), UsedBytes(x)[n - 1]);
    }
  }

  lemma WrapStep(h: nat, byte: nat)
    ensures (37 * (h % 0x1_0000_0000) + byte) % 0x1_0000_0000 == (37 * h + byte) % 0x1_0000_0000
  {
  }

  /** The hash code is the polynomial, wrapped around once. */
  method HashCodeOf(x: BitBuffer) returns (result: nat)
    requires x.Valid()
    ensures result == HashSum(UsedBytes(x)) % 0x1_0000_0000
  {
    hide BitBuffer.Stored, HashOfBits, HashSum;
    HashIsSum(x, x.ByteSize());
    assert UsedBytes(x)[..x.ByteSize()] == UsedBytes(x);
    result := HashCode(x);
  }

  method HashBoth(x: BitBuffer, y: BitBuffer) returns (hx: nat, hy: nat)
    requires x.Valid() && y.Valid()
    ensures Equals(x, y) ==> hx == hy
  {
    hide Equals, BitBuffer.Stored, HashOfBits;
    EqualIffSameBits(x, y);
    hx := HashCode(x);
    hy := HashCode(y);
  }

  // ----- through a stream -----

  /** A bit buffer comes back from a stream equal to the one written, with the unused bits of its last byte zero. */
  lemma ReadBackIsEqual(data: seq<Byte>, bitSize: nat)
    requires Writable(BitString(data, bitSize))
    ensures var back := Canonical(BitString(data, bitSize));
            && back.BitString?
            && var x, y := BitBuffer(data, bitSize), BitBuffer(back.data, back.bitSize);
            && x.Valid() && y.Valid() && Equals(x, y)
            && |back.data| == y.ByteSize()
            && forall i :: bitSize <= i < 8 * |back.data| ==> !BytesToBits(back.data)[i]
  {
    var b := BytesToBits(data)[..bitSize];
    var back := BitsToBytes(PadToByte(b));
    BitsOfBytes(PadToByte(b));
    assert BytesToBits(back)[..bitSize] == b;
    EqualIffSameBits(BitBuffer(data, bitSize), BitBuffer(back, bitSize));
  }

  lemma BitsOfBytes(b: seq<bool>)
    requires |b| % 8 == 0
    ensures BytesToBits(BitsToBytes(b)) == b
  {
    var bytes := BitsToBytes(b);
    forall i | 0 <= i < |b| ensures BytesToBits(bytes)[i] == b[i] {
      FromBitsBit(b[8 * (i / 8)..8 * (i / 8) + 8], 7 - i % 8);
    }
  }
}
