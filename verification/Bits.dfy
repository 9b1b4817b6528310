/**
  Machine words, shifts and masks on naturals, and their reading as bit strings.

  A word is a natural number. Its shifts and bitwise operations are defined digit by digit, so that every fact
  about them can be stated as a fact about single bits. A bit string is a `seq<bool>`, most significant bit first.
*/
module Bits {

  type Byte = x: int | 0 <= x < 256

  const TWO_TO_32 := 0x1_0000_0000
  const TWO_TO_64 := 0x1_0000_0000_0000_0000

  function Pow2(n: nat): (r: nat)
    ensures r > 0
  {
    if n == 0 then 1 else 2 * Pow2(n - 1)
  }

  /** Largest value of `n` bits; the runtime keeps these in tables indexed by the number of bits. */
  function MaxUnsigned(n: nat): nat {
    Pow2(n) - 1
  }

  lemma BytePowers()
    ensures Pow2(7) == 128 && Pow2(8) == 256
  {
  }

  lemma Powers()
    ensures Pow2(31) == 0x8000_0000 && Pow2(32) == TWO_TO_32
    ensures Pow2(63) == 0x8000_0000_0000_0000 && Pow2(64) == TWO_TO_64
  {
    hide Pow2;
    BytePowers();
    Pow2Sum(8, 7);
    Pow2Sum(8, 8);
    Pow2Sum(16, 15);
    Pow2Sum(16, 16);
    Pow2Sum(32, 31);
    Pow2Sum(32, 32);
  }

  // ----- words -----

  /** Bit `i` of the word `v`; bit 0 is the least significant one. */
  predicate Bit(v: nat, i: nat) {
    if i == 0 then v % 2 == 1 else Bit(v / 2, i - 1)
  }

  function Shr(v: nat, k: nat): nat
    decreases k
  {
    if k == 0 then v else Shr(v / 2, k - 1)
  }

  function Shl(v: nat, k: nat): nat {
    if k == 0 then v else 2 * Shl(v, k - 1)
  }

  function BitAnd(v: nat, w: nat): nat {
    if v == 0 then 0 else 2 * BitAnd(v / 2, w / 2) + (if v % 2 == 1 && w % 2 == 1 then 1 else 0)
  }

  function BitOr(v: nat, w: nat): nat
    decreases v + w
  {
    if v == 0 && w == 0 then 0 else 2 * BitOr(v / 2, w / 2) + (if v % 2 == 1 || w % 2 == 1 then 1 else 0)
  }

  /** Keeps the low `width` bits of a word, as storing it into a narrower unsigned type does. */
  function Truncate(v: int, width: nat): (r: nat)
    ensures r < Pow2(width)
  {
    v % Pow2(width)
  }

  lemma {:induction false} ShrBit(v: nat, k: nat, i: nat)
    ensures Bit(Shr(v, k), i) == Bit(v, i + k)
    decreases k
  {
    if k > 0 {
      ShrBit(v / 2, k - 1, i);
    }
  }

  lemma {:induction false} ShrTwice(v: nat, j: nat, k: nat)
    ensures Shr(Shr(v, j), k) == Shr(v, j + k)
    decreases j
  {
    if j > 0 {
      ShrTwice(v / 2, j - 1, k);
    }
  }

  lemma {:induction false} ShlBit(v: nat, k: nat, i: nat)
    ensures Bit(Shl(v, k), i) == (i >= k && Bit(v, i - k))
    decreases k
  {
    if k > 0 && i > 0 {
      ShlBit(v, k - 1, i - 1);
    }
  }

  lemma {:induction false} ZeroBit(i: nat)
    ensures !Bit(0, i)
  {
    if i > 0 {
      ZeroBit(i - 1);
    }
  }

  lemma {:induction false} AndBit(v: nat, w: nat, i: nat)
    ensures Bit(BitAnd(v, w), i) == (Bit(v, i) && Bit(w, i))
    decreases i
  {
    if v == 0 {
      ZeroBit(i);
    } else if i > 0 {
      AndBit(v / 2, w / 2, i - 1);
    }
  }

  lemma {:induction false} OrBit(v: nat, w: nat, i: nat)
    ensures Bit(BitOr(v, w), i) == (Bit(v, i) || Bit(w, i))
    decreases i
  {
    if v == 0 && w == 0 {
      ZeroBit(i);
    } else if i > 0 {
      OrBit(v / 2, w / 2, i - 1);
    }
  }

  lemma {:induction false} MaskBit(n: nat, i: nat)
    ensures Bit(MaxUnsigned(n), i) == (i < n)
    decreases n
  {
    if n == 0 {
      ZeroBit(i);
    } else if i > 0 {
      assert MaxUnsigned(n) / 2 == MaxUnsigned(n - 1);
      MaskBit(n - 1, i - 1);
    }
  }

  /** The complement of `v` within `n` bits flips each of them. */
  lemma {:induction false} ComplementBit(v: nat, n: nat, i: nat)
    requires v < Pow2(n) && i < n
    ensures Bit(MaxUnsigned(n) - v, i) == !Bit(v, i)
    decreases i
  {
    if i > 0 {
      assert (MaxUnsigned(n) - v) / 2 == MaxUnsigned(n - 1) - v / 2;
      ComplementBit(v / 2, n - 1, i - 1);
    }
  }

  lemma {:induction false} HighBitsClear(v: nat, n: nat, i: nat)
    requires v < Pow2(n) && i >= n
    ensures !Bit(v, i)
    decreases n
  {
    if n == 0 {
      ZeroBit(i);
    } else {
      HighBitsClear(v / 2, n - 1, i - 1);
    }
  }

  lemma {:induction false} TruncateBit(v: nat, n: nat, i: nat)
    ensures Bit(Truncate(v, n), i) == (i < n && Bit(v, i))
    decreases n
  {
    if n == 0 {
      assert Truncate(v, 0) == 0;
      ZeroBit(i);
    } else {
      TruncateStep(v, n);
      if i > 0 {
        TruncateBit(v / 2, n - 1, i - 1);
      }
    }
  }

  lemma TruncateStep(v: nat, n: nat)
    requires n > 0
    ensures Truncate(v, n) == 2 * Truncate(v / 2, n - 1) + v % 2
  {
    var p := Pow2(n - 1);
    var q, r := (v / 2) / p, (v / 2) % p;
    assert v / 2 == q * p + r;
    assert v == q * (2 * p) + (2 * r + v % 2) by {
      assert q * (2 * p) == 2 * (q * p);
    }
    ModIsRemainder(v, 2 * p, q, 2 * r + v % 2);
  }

  lemma ModIsRemainder(v: int, m: nat, q: int, r: int)
    requires m > 0 && 0 <= r < m && v == q * m + r
    ensures v % m == r && v / m == q
  {
    SmallProduct(m, v / m - q, r - v % m);
  }

  /** A remainder by a multiple of `m` keeps the remainder by `m`. */
  lemma TruncateTwice(v: int, m: nat, d: nat)
    requires m > 0 && d > 0 && m * d > 0
    ensures (v % (m * d)) % m == v % m
  {
    var q, w := v / (m * d), v % (m * d);
    assert v == q * (m * d) + w && w == (w / m) * m + w % m;
    Regroup(q, d, w / m, m);
    ModIsRemainder(v, m, q * d + w / m, w % m);
  }

  lemma Regroup(q: int, d: int, e: int, m: int)
    ensures (q * d + e) * m == q * (m * d) + e * m
  {
  }

  lemma SmallProduct(m: int, d: int, e: int)
    requires 0 < m && d * m == e && -m < e < m
    ensures d == 0
  {
    if d > 0 {
      ProductNonnegative(d - 1, m);
    } else if d < 0 {
      ProductNonnegative(-d - 1, m);
    }
  }

  lemma ProductNonnegative(x: int, y: int)
    requires x >= 0 && y >= 0
    ensures x * y >= 0
  {
  }

  /** Words of `n` bits are equal when all their bits are. */
  lemma {:induction false} WordsEqual(v: nat, w: nat, n: nat)
    requires v < Pow2(n) && w < Pow2(n)
    requires forall i :: 0 <= i < n ==> Bit(v, i) == Bit(w, i)
    ensures v == w
    decreases n
  {
    if n > 0 {
      assert Bit(v, 0) == Bit(w, 0);
      forall i | 0 <= i < n - 1 ensures Bit(v / 2, i) == Bit(w / 2, i) {
        assert Bit(v, i + 1) == Bit(w, i + 1);
      }
      WordsEqual(v / 2, w / 2, n - 1);
    }
  }

  lemma {:induction false} OrBound(v: nat, w: nat, n: nat)
    requires v < Pow2(n) && w < Pow2(n)
    ensures BitOr(v, w) < Pow2(n)
    decreases n
  {
    if n > 0 && !(v == 0 && w == 0) {
      OrBound(v / 2, w / 2, n - 1);
    }
  }

  lemma {:induction false} AndBound(v: nat, w: nat, n: nat)
    requires v < Pow2(n) || w < Pow2(n)
    ensures BitAnd(v, w) < Pow2(n)
    decreases v
  {
    if v > 0 {
      if n == 0 {
        AndBound(v / 2, w / 2, 0);
        assert w == 0;
      } else {
        AndBound(v / 2, w / 2, n - 1);
      }
    }
  }

  lemma {:induction false} ShrBound(v: nat, k: nat, n: nat)
    requires v < Pow2(n + k)
    ensures Shr(v, k) < Pow2(n)
    decreases k
  {
    if k > 0 {
      ShrBound(v / 2, k - 1, n);
    }
  }

  lemma {:induction false} ShlBound(v: nat, k: nat, n: nat)
    requires v < Pow2(n)
    ensures Shl(v, k) < Pow2(n + k)
    decreases k
  {
    if k > 0 {
      ShlBound(v, k - 1, n);
    }
  }

  lemma {:induction false} Pow2Monotone(m: nat, n: nat)
    requires m <= n
    ensures Pow2(m) <= Pow2(n)
    decreases n
  {
    if m < n {
      Pow2Monotone(m, n - 1);
    }
  }

  lemma {:induction false} Pow2Sum(m: nat, n: nat)
    ensures Pow2(m + n) == Pow2(m) * Pow2(n)
    decreases m
  {
    if m > 0 {
      Pow2Sum(m - 1, n);
    }
  }

  /** A shifted word is made of the word shifted further and the bits in between. */
  lemma {:induction false} ShrSplit(v: nat, j: nat, k: nat)
    ensures Shr(v, j) == Pow2(k) * Shr(v, j + k) + Truncate(Shr(v, j), k)
    decreases j
  {
    if j > 0 {
      ShrSplit(v / 2, j - 1, k);
    } else {
      ShrIsDivision(v, k);
    }
  }

  lemma {:induction false} ShrIsDivision(v: nat, k: nat)
    ensures v == Pow2(k) * Shr(v, k) + Truncate(v, k)
    decreases k
  {
    hide Truncate;
    if k > 0 {
      ShrIsDivision(v / 2, k - 1);
      TruncateStep(v, k);
      DoubleProduct(Pow2(k - 1), Shr(v / 2, k - 1));
    } else {
      TruncateNothing(v);
    }
  }

  lemma DoubleProduct(p: nat, x: nat)
    ensures (2 * p) * x == 2 * (p * x)
  {
  }

  lemma TruncateNothing(v: nat)
    ensures Truncate(v, 0) == 0
  {
  }

  /** Adding a number of `k` bits below a shifted word leaves the bits of that word. */
  lemma {:induction false} BitsAboveSum(high: nat, low: nat, k: nat, i: nat)
    requires low < Pow2(k)
    ensures Bit(high * Pow2(k) + low, k + i) == Bit(high, i)
    decreases k
  {
    if k > 0 {
      assert (high * Pow2(k) + low) / 2 == high * Pow2(k - 1) + low / 2 by {
        assert high * Pow2(k) == 2 * (high * Pow2(k - 1));
      }
      BitsAboveSum(high, low / 2, k - 1, i);
    }
  }

  /** Bits put below a shifted word are added to it. */
  lemma {:induction false} OrIsSum(high: nat, low: nat, k: nat)
    requires low < Pow2(k)
    ensures BitOr(Shl(high, k), low) == Shl(high, k) + low
    decreases k
  {
    if k > 0 {
      OrIsSum(high, low / 2, k - 1);
    } else {
      OrZero(high);
    }
  }

  lemma {:induction false} OrZero(v: nat)
    ensures BitOr(v, 0) == v
  {
    if v > 0 {
      OrZero(v / 2);
    }
  }

  lemma {:induction false} ShlIsProduct(v: nat, k: nat)
    ensures Shl(v, k) == Pow2(k) * v
  {
    if k > 0 {
      ShlIsProduct(v, k - 1);
    }
  }

  /** Masking with a single bit tests it. */
  lemma {:induction false} AndSingleBit(v: nat, k: nat)
    ensures BitAnd(v, Pow2(k)) != 0 <==> Bit(v, k)
    decreases k
  {
    if k > 0 {
      AndSingleBit(v / 2, k - 1);
    } else if v > 0 {
      AndZero(v / 2);
    }
  }

  lemma {:induction false} AndZero(v: nat)
    ensures BitAnd(v, 0) == 0
  {
    if v > 0 {
      AndZero(v / 2);
    }
  }

  /** The top bit of an `n`-bit word tells whether it reaches half its range. */
  lemma {:induction false} TopBit(v: nat, n: nat)
    requires n > 0 && v < Pow2(n)
    ensures Bit(v, n - 1) == (v >= Pow2(n - 1))
    decreases n
  {
    if n > 1 {
      TopBit(v / 2, n - 1);
    }
  }

  /** Masking with the largest `n`-bit value keeps the low `n` bits. */
  lemma AndMask(v: nat, n: nat)
    ensures BitAnd(v, MaxUnsigned(n)) == Truncate(v, n)
  {
    AndBound(v, MaxUnsigned(n), n);
    forall i | 0 <= i < n ensures Bit(BitAnd(v, MaxUnsigned(n)), i) == Bit(Truncate(v, n), i) {
      AndBit(v, MaxUnsigned(n), i);
      MaskBit(n, i);
      TruncateBit(v, n, i);
    }
    WordsEqual(BitAnd(v, MaxUnsigned(n)), Truncate(v, n), n);
  }

  // ----- bit strings -----

  /** The low `n` bits of `v`, most significant first. */
  function ToBits(v: nat, n: nat): (b: seq<bool>)
    ensures |b| == n
  {
    seq(n, i requires 0 <= i < n => Bit(v, n - 1 - i))
  }

  /** The number a bit string denotes. */
  function FromBits(b: seq<bool>): (v: nat) {
    if b == [] then 0 else 2 * FromBits(b[..|b| - 1]) + (if b[|b| - 1] then 1 else 0)
  }

  function BytesToBits(s: seq<Byte>): (b: seq<bool>)
    ensures |b| == 8 * |s|
  {
    seq(8 * |s|, i requires 0 <= i < 8 * |s| => Bit(s[i / 8], 7 - i % 8))
  }

  lemma {:induction false} FromBitsBit(b: seq<bool>, i: nat)
    ensures FromBits(b) < Pow2(|b|)
    ensures Bit(FromBits(b), i) == (i < |b| && b[|b| - 1 - i])
    decreases |b|
  {
    if b == [] {
      ZeroBit(i);
    } else {
      FromBitsBit(b[..|b| - 1], if i > 0 then i - 1 else 0);
    }
  }

  /** Writing a number as bits and reading them back keeps its low bits; bits written from a number are unique. */
  lemma FromToBits(v: nat, n: nat)
    ensures FromBits(ToBits(v, n)) == Truncate(v, n)
  {
    forall i | 0 <= i < n ensures Bit(FromBits(ToBits(v, n)), i) == Bit(Truncate(v, n), i) {
      FromBitsBit(ToBits(v, n), i);
      TruncateBit(v, n, i);
    }
    FromBitsBit(ToBits(v, n), 0);
    WordsEqual(FromBits(ToBits(v, n)), Truncate(v, n), n);
  }

  lemma ToFromBits(b: seq<bool>)
    ensures ToBits(FromBits(b), |b|) == b
  {
    forall i | 0 <= i < |b| ensures ToBits(FromBits(b), |b|)[i] == b[i] {
      FromBitsBit(b, |b| - 1 - i);
    }
  }

  /** A word equal bit by bit to a bit string is the number that string denotes. */
  lemma WordOfBits(v: nat, b: seq<bool>)
    requires v < Pow2(|b|)
    requires forall i :: 0 <= i < |b| ==> Bit(v, |b| - 1 - i) == b[i]
    ensures v == FromBits(b)
  {
    assert ToBits(v, |b|) == b;
    FromToBits(v, |b|);
    SmallTruncate(v, |b|);
  }

  lemma SmallTruncate(v: nat, n: nat)
    requires v < Pow2(n)
    ensures Truncate(v, n) == v
  {
    ModIsRemainder(v, Pow2(n), 0, v);
  }

  /** The high and low part of a number are the front and back of its bit string. */
  lemma ToBitsSplit(v: nat, m: nat, n: nat)
    ensures ToBits(v, m + n) == ToBits(Shr(v, n), m) + ToBits(v, n)
  {
    forall i | 0 <= i < m ensures ToBits(v, m + n)[i] == ToBits(Shr(v, n), m)[i] {
      ShrBit(v, n, m - 1 - i);
    }
    assert ToBits(v, m + n)[m..] == ToBits(v, n);
  }

  // ----- replacing a stretch of bits -----

  /** `s` with the bits from `pos` on replaced by `b`. */
  function Splice<T>(s: seq<T>, pos: nat, b: seq<T>): (r: seq<T>)
    requires pos + |b| <= |s|
    ensures |r| == |s|
    ensures forall i :: 0 <= i < |s| ==> r[i] == if pos <= i < pos + |b| then b[i - pos] else s[i]
  {
    s[..pos] + b + s[pos + |b|..]
  }

  lemma SpliceTwice<T>(s: seq<T>, pos: nat, a: seq<T>, b: seq<T>)
    requires pos + |a| + |b| <= |s|
    ensures Splice(Splice(s, pos, a), pos + |a|, b) == Splice(s, pos, a + b)
  {
  }
}
