/**
  Delta packing: the context that decides whether the elements of an array are stored as differences, and writes and
  reads them one by one.
*/
module DeltaPacking {
  import opened Bits
  import opened Streams
  import opened VarInt
  import opened Items
  import opened Writer
  import opened Reader

  // ----- element types -----

  /**
    The numeric types that can be packed: booleans, integers of a number of bits kept in a C++ integer of
    `valueBits` bits, and variable-length integers.
  */
  datatype NumType =
    | BoolType
    | IntType(signed: bool, valueBits: nat, numBits: nat)
    | VarIntType(varType: VarType)
  {
    predicate WellFormed() {
      IntType? ==>
        && 1 <= numBits <= valueBits
        && (valueBits == 8 || valueBits == 16 || valueBits == 32 || valueBits == 64)
    }

    predicate Signed() {
      match this
      case BoolType => false
      case IntType(signed, _, _) => signed
      case VarIntType(varType) => varType.Signed()
    }

    /** Width of the C++ type of a value. */
    function ValueBits(): nat {
      match this
      case BoolType => 1
      case IntType(_, valueBits, _) => valueBits
      case VarIntType(varType) => varType.AccumulatorBits()
    }

    /** The values of the zserio type. */
    predicate Has(v: int) {
      match this
      case BoolType => v == 0 || v == 1
      case IntType(signed, _, numBits) => if signed then FitsSigned(numBits, v) else 0 <= v < Pow2(numBits)
      case VarIntType(varType) => InRange(varType, v)
    }

    function ItemOf(v: int): Item
      requires Has(v)
    {
      match this
      case BoolType => Flag(v == 1)
      case IntType(signed, _, numBits) => if signed then Item.Signed(numBits, v) else Item.Unsigned(numBits, v)
      case VarIntType(varType) => Variable(varType, v)
    }

    function Shape(): Shape {
      match this
      case BoolType => FlagShape
      case IntType(signed, _, numBits) => if signed then SignedShape(numBits) else UnsignedShape(numBits)
      case VarIntType(varType) => VariableShape(varType)
    }

    function BitSizeOf(v: int): nat
      requires Has(v)
    {
      match this
      case BoolType => 1
      case IntType(_, _, numBits) => numBits
      case VarIntType(varType) => 8 * VarBytes(varType, v)
    }

    /** Conversion of a 64-bit word to the C++ type of a value. */
    function FromWord(word: nat): int {
      match this
      case BoolType => if word != 0 then 1 else 0
      case _ =>
        var w := Truncate(word, ValueBits());
        if Signed() && ValueBits() > 0 then AsSigned(w, ValueBits()) else w
    }
  }

  /** The number held by an item of a numeric type. */
  function NumberOf(item: Item): int {
    match item
    case Unsigned(_, value) => value
    case Signed(_, value) => value
    case Flag(value) => if value then 1 else 0
    case Variable(_, value) => value
    case _ => 0
  }

  /** The elements of a type are the numbers the writer accepts for it. */
  lemma HasIffWritable(t: NumType, item: Item)
    requires t.WellFormed() && ShapeOf(item) == t.Shape()
    ensures Writable(item) <==> t.Has(NumberOf(item))
    ensures Writable(item) ==> t.ItemOf(NumberOf(item)) == item
  {
  }

  /** Integers of all numbers of bits, in the narrowest C++ integer. */
  lemma EveryWidth(signed: bool, numBits: nat)
    requires 1 <= numBits <= 64
    ensures IntType(signed, if numBits <= 8 then 8 else if numBits <= 16 then 16 else if numBits <= 32 then 32 else 64,
                    numBits).WellFormed()
    ensures BoolType.WellFormed() && forall varType :: VarIntType(varType).WellFormed()
  {
  }

  /** Conversion of a value to a 64-bit word. */
  function ToWord(v: int): nat {
    Truncate(v, 64)
  }

  /** Values survive the conversion to a word and back. */
  lemma WordRoundTrip(t: NumType, v: int)
    requires t.WellFormed() && t.Has(v)
    ensures t.FromWord(ToWord(v)) == v
  {
    hide Truncate, FitsSigned;
    match t {
      case BoolType =>
        Powers();
        SmallTruncate(v, 64);
      case _ =>
        var w := t.ValueBits();
        HasFitsValueType(t, v);
        NarrowWord(v, w);
        ReinterpretFits(t.Signed(), w, v);
    }
  }

  lemma NarrowWord(v: int, w: nat)
    requires w <= 64
    ensures Truncate(ToWord(v), w) == Truncate(v, w)
  {
    Pow2Sum(w, 64 - w);
    TruncateTwice(v, Pow2(w), Pow2(64 - w));
  }

  lemma ReinterpretFits(signed: bool, w: nat, v: int)
    requires w > 0
    requires if signed then FitsSigned(w, v) else 0 <= v < Pow2(w)
    ensures v == if signed then AsSigned(Truncate(v, w), w) else Truncate(v, w)
  {
    if v < 0 {
      ModIsRemainder(v, Pow2(w), -1, v + Pow2(w));
    } else {
      SmallTruncate(v, w);
    }
  }

  /** The values of a zserio type fit its C++ type. */
  lemma HasFitsValueType(t: NumType, v: int)
    requires t.WellFormed() && t.Has(v) && !t.BoolType?
    ensures 0 < t.ValueBits() <= 64
    ensures if t.Signed() then FitsSigned(t.ValueBits(), v) else 0 <= v < Pow2(t.ValueBits())
  {
    match t {
      case BoolType =>
      case IntType(signed, valueBits, numBits) =>
        if signed {
          Pow2Monotone(numBits - 1, valueBits - 1);
        } else {
          Pow2Monotone(numBits, valueBits);
        }
      case VarIntType(varType) => VarFitsValueType(varType, v);
    }
  }

  lemma VarFitsValueType(t: VarType, v: int)
    requires InRange(t, v)
    ensures if t.Signed() then FitsSigned(t.AccumulatorBits(), v) else 0 <= v < Pow2(t.AccumulatorBits())
  {
    if t.VarInt? && v == INT64_MIN {
      Powers();
    } else {
      var bits := t.TableBits()[t.MaxBytes() - 1];
      assert Magnitude(v) < Pow2(bits);
      LastTableBits(t);
      Pow2Monotone(bits, if t.Signed() then t.AccumulatorBits() - 1 else t.AccumulatorBits());
    }
  }

  lemma LastTableBits(t: VarType)
    ensures t.TableBits()[t.MaxBytes() - 1] <= if t.Signed() then t.AccumulatorBits() - 1 else t.AccumulatorBits()
  {
  }

  lemma ItemOfIsWritable(t: NumType, v: int, pos: nat)
    requires t.WellFormed() && t.Has(v)
    ensures Writable(t.ItemOf(v)) && Representable(t.ItemOf(v)) && Canonical(t.ItemOf(v)) == t.ItemOf(v)
    ensures ShapeOf(t.ItemOf(v)) == t.Shape() && NumberOf(t.ItemOf(v)) == v
    ensures |ItemBits(t.ItemOf(v), pos)| == t.BitSizeOf(v)
  {
    if t.IntType? && t.signed {
      Pow2Monotone(t.numBits - 1, 63);
    } else if t.VarIntType? && !t.varType.Signed() {
      assert v >= 0;
    }
  }

  // ----- differences -----

  /** Number of binary digits, counted by shifting. */
  method AbsDeltaBitLength(absDelta: nat) returns (result: nat)
    ensures result == BitLength(absDelta)
  {
    result := 0;
    var delta := absDelta;
    while delta > 0
      invariant BitLength(absDelta) == result + BitLength(delta)
    {
      result := result + 1;
      delta := delta / 2;
    }
  }

  function BitLength(n: nat): nat {
    if n == 0 then 0 else 1 + BitLength(n / 2)
  }

  /** The bit length is the least number of bits that holds the number. */
  lemma {:induction false} BitLengthIsLeast(n: nat, k: nat)
    ensures n < Pow2(k) <==> BitLength(n) <= k
    decreases n
  {
    if n > 0 && k > 0 {
      BitLengthIsLeast(n / 2, k - 1);
    }
  }

  function AbsDelta(a: int, b: int): nat {
    if a > b then a - b else b - a
  }

  /** Bit length of the distance of two values, computed on 64-bit words. */
  method CalcBitLength(lhs: int, rhs: int) returns (result: nat)
    requires AbsDelta(lhs, rhs) < TWO_TO_64
    ensures result == BitLength(AbsDelta(lhs, rhs))
  {
    var absDelta := if lhs > rhs then WrapSub(ToWord(lhs), ToWord(rhs)) else WrapSub(ToWord(rhs), ToWord(lhs));
    WrapSubExact(lhs, rhs);
    WrapSubExact(rhs, lhs);
    result := AbsDeltaBitLength(absDelta);
  }

  /** Subtraction of 64-bit words. */
  function WrapSub(a: nat, b: nat): nat {
    Truncate(a - b, 64)
  }

  lemma WrapSubExact(a: int, b: int)
    ensures WrapSub(ToWord(a), ToWord(b)) == Truncate(a - b, 64)
    ensures 0 <= a - b < TWO_TO_64 ==> WrapSub(ToWord(a), ToWord(b)) == a - b
  {
    hide Pow2;
    Powers();
    AddTruncated(a, 0 - ToWord(b), 64);
    AddMultiple(a - b, b / Pow2(64), Pow2(64));
    Division(b, Pow2(64));
    if 0 <= a - b < TWO_TO_64 {
      SmallTruncate(a - b, 64);
    }
  }

  lemma Division(x: int, m: nat)
    requires m > 0
    ensures x == x / m * m + x % m
  {
  }

  lemma AddMultiple(x: int, q: int, m: nat)
    requires m > 0
    ensures (x + q * m) % m == x % m
  {
    assert x == x / m * m + x % m;
    assert x + q * m == (x / m + q) * m + x % m by {
      SumOfMultiples(x / m, q, m);
    }
    ModIsRemainder(x + q * m, m, x / m + q, x % m);
  }

  lemma SumOfMultiples(x: int, y: int, m: int)
    ensures (x + y) * m == x * m + y * m
  {
  }

  /** Adding in a fixed width only needs the truncated operand. */
  lemma AddTruncated(a: int, b: int, width: nat)
    ensures Truncate(Truncate(a, width) + b, width) == Truncate(a + b, width)
  {
    var m := Pow2(width);
    assert a + b == (Truncate(a, width) + b) + a / m * m;
    AddMultiple(Truncate(a, width) + b, a / m, m);
  }

  /** The signed 64-bit difference of two words. */
  function UncheckedDelta(lhs: int, rhs: nat): int {
    AsSigned(WrapSub(ToWord(lhs), rhs), 64)
  }

  lemma DeltaExact(lhs: int, rhs: int)
    requires FitsSigned(64, lhs - rhs)
    ensures UncheckedDelta(lhs, ToWord(rhs)) == lhs - rhs
  {
    WrapSubExact(lhs, rhs);
    ReinterpretFits(true, 64, lhs - rhs);
  }

  /** Adding the difference to the previous word gives the next one. */
  lemma DeltaUndone(previous: int, next: int)
    ensures Truncate(ToWord(previous) + ToWord(next - previous), 64) == ToWord(next)
  {
    hide Truncate;
    AddTruncated(previous, ToWord(next - previous), 64);
    AddTruncated(next - previous, previous, 64);
  }

  /** Largest bit length of the difference of neighbours. */
  function LargestDelta(elems: seq<int>): nat {
    if |elems| < 2 then 0
    else
      var rest := LargestDelta(elems[..|elems| - 1]);
      var last := BitLength(AbsDelta(elems[|elems| - 1], elems[|elems| - 2]));
      if last > rest then last else rest
  }

  lemma {:induction false} LargestDeltaBounds(elems: seq<int>, i: nat)
    requires 0 < i < |elems|
    ensures AbsDelta(elems[i], elems[i - 1]) < Pow2(LargestDelta(elems))
    decreases |elems|
  {
    var front := elems[..|elems| - 1];
    var last := BitLength(AbsDelta(elems[|elems| - 1], elems[|elems| - 2]));
    if i < |elems| - 1 {
      LargestDeltaBounds(front, i);
      Pow2Monotone(LargestDelta(front), LargestDelta(elems));
    } else {
      BitLengthIsLeast(AbsDelta(elems[i], elems[i - 1]), LargestDelta(elems));
    }
  }

  /** It is the least bit length that holds the differences of all neighbours. */
  lemma {:induction false} LargestDeltaIsLeast(elems: seq<int>, k: nat)
    ensures LargestDelta(elems) <= k <==> forall i :: 0 < i < |elems| ==> AbsDelta(elems[i], elems[i - 1]) < Pow2(k)
    decreases |elems|
  {
    hide Pow2, BitLength;
    if |elems| >= 2 {
      var n := |elems| - 1;
      LargestDeltaIsLeast(elems[..n], k);
      BitLengthIsLeast(AbsDelta(elems[n], elems[n - 1]), k);
      if LargestDelta(elems) <= k {
        forall i | 0 < i < |elems| ensures AbsDelta(elems[i], elems[i - 1]) < Pow2(k) {
          assert i < n ==> elems[..n][i] == elems[i] && elems[..n][i - 1] == elems[i - 1];
        }
      }
    }
  }

  // ----- the packed form -----

  const MAX_BIT_NUMBER_BITS: nat := 6
  const MAX_BIT_NUMBER_LIMIT: nat := 62

  predicate AllOf(t: NumType, elems: seq<int>) {
    t.WellFormed() && forall i :: 0 <= i < |elems| ==> t.Has(elems[i])
  }

  function UnpackedBitSize(t: NumType, elems: seq<int>): nat
    requires AllOf(t, elems)
  {
    if elems == [] then 0 else UnpackedBitSize(t, elems[..|elems| - 1]) + t.BitSizeOf(elems[|elems| - 1])
  }

  /** Number of bits of one difference. */
  function DeltaBits(maxBitNumber: nat): nat {
    maxBitNumber + (if maxBitNumber > 0 then 1 else 0)
  }

  /** The packed size as the context computes it, in 32 bits. */
  function PackedSizeIn32(firstElementBitSize: nat, numElements: nat, deltaBitSize: nat): nat {
    Truncate(1 + MAX_BIT_NUMBER_BITS + firstElementBitSize + (numElements - 1) * deltaBitSize, 32)
  }

  /** Whether packing pays off; both sizes are kept in 32 bits. */
  predicate PackingPays(maxBitNumber: nat, firstElementBitSize: nat, numElements: nat, unpackedBitSize: nat) {
    PackedSizeIn32(firstElementBitSize, numElements, DeltaBits(maxBitNumber)) < Truncate(1 + unpackedBitSize, 32)
  }

  /** Whether the elements are stored as differences. */
  predicate IsPacked(t: NumType, elems: seq<int>)
    requires AllOf(t, elems)
  {
    && |elems| >= 2
    && LargestDelta(elems) <= MAX_BIT_NUMBER_LIMIT
    && PackingPays(LargestDelta(elems), t.BitSizeOf(elems[0]), Truncate(|elems|, 32), UnpackedBitSize(t, elems))
  }

  // ----- bits of the elements -----

  function NumberBits(t: NumType, v: int): (b: seq<bool>)
    requires t.WellFormed() && t.Has(v)
    ensures |b| == t.BitSizeOf(v)
  {
    ItemOfIsWritable(t, v, 0);
    ItemBits(t.ItemOf(v), 0)
  }

  /** What precedes the first element. */
  function DescriptorBits(packed: bool, maxBitNumber: nat): seq<bool> {
    if packed then [true] + ToBits(maxBitNumber, MAX_BIT_NUMBER_BITS) else [false]
  }

  /** What is written for element `i`. */
  function ElementBits(t: NumType, elems: seq<int>, i: nat): seq<bool>
    requires AllOf(t, elems) && i < |elems|
  {
    if i == 0 then DescriptorBits(IsPacked(t, elems), LargestDelta(elems)) + NumberBits(t, elems[0])
    else if !IsPacked(t, elems) then NumberBits(t, elems[i])
    else DifferenceBits(elems[i] - elems[i - 1], LargestDelta(elems))
  }

  /** A difference in two's complement; equal elements take no bits at all. */
  function DifferenceBits(delta: int, maxBitNumber: nat): (b: seq<bool>)
    ensures |b| == DeltaBits(maxBitNumber)
  {
    if maxBitNumber == 0 then [] else ToBits(Truncate(delta, maxBitNumber + 1), maxBitNumber + 1)
  }

  lemma PackedBound(t: NumType, elems: seq<int>)
    requires AllOf(t, elems) && IsPacked(t, elems)
    ensures LargestDelta(elems) <= 62
  {
  }

  lemma DifferenceFits(elems: seq<int>, i: nat)
    requires 0 < i < |elems|
    ensures FitsSigned(LargestDelta(elems) + 1, elems[i] - elems[i - 1])
    ensures LargestDelta(elems) <= 62 ==> FitsSigned(64, elems[i] - elems[i - 1])
    ensures LargestDelta(elems) == 0 ==> elems[i] == elems[i - 1]
  {
    LargestDeltaBounds(elems, i);
    if LargestDelta(elems) <= 62 {
      Pow2Monotone(LargestDelta(elems), 63);
    }
  }

  // ----- the choice -----

  /** Number of bits of the first `n` elements, without alignment. */
  function ElementsBitSize(t: NumType, elems: seq<int>, n: nat): nat
    requires AllOf(t, elems) && n <= |elems|
  {
    if n == 0 then 0 else ElementsBitSize(t, elems, n - 1) + |ElementBits(t, elems, n - 1)|
  }

  function PackedSize(t: NumType, elems: seq<int>): nat
    requires AllOf(t, elems) && elems != []
  {
    1 + MAX_BIT_NUMBER_BITS + t.BitSizeOf(elems[0]) + Times(|elems| - 1, DeltaBits(LargestDelta(elems)))
  }

  function Times(n: nat, size: nat): nat {
    n * size
  }

  lemma {:induction false} SizeOfElements(t: NumType, elems: seq<int>, n: nat)
    requires AllOf(t, elems) && 0 < n <= |elems|
    ensures ElementsBitSize(t, elems, n)
            == if IsPacked(t, elems) then 7 + t.BitSizeOf(elems[0]) + Times(n - 1, DeltaBits(LargestDelta(elems)))
               else 1 + UnpackedBitSize(t, elems[..n])
  {
    hide IsPacked, LargestDelta, DeltaBits, NumType.Has, NumType.BitSizeOf, Times, ElementBits, UnpackedBitSize;
    SizeOfElement(t, elems, n - 1);
    UnpackedOneMore(t, elems, n - 1);
    OneMoreTime(n - 1, DeltaBits(LargestDelta(elems)));
    if n > 1 {
      SizeOfElements(t, elems, n - 1);
    } else {
      assert ElementsBitSize(t, elems, 0) == 0;
    }
  }

  lemma SizeOfElement(t: NumType, elems: seq<int>, i: nat)
    requires AllOf(t, elems) && i < |elems|
    ensures |ElementBits(t, elems, i)|
            == if i == 0 then (if IsPacked(t, elems) then 7 else 1) + t.BitSizeOf(elems[0])
               else if IsPacked(t, elems) then DeltaBits(LargestDelta(elems)) else t.BitSizeOf(elems[i])
  {
    hide IsPacked, LargestDelta, DeltaBits, NumType.Has, NumType.BitSizeOf, ToBits;
  }

  lemma UnpackedOneMore(t: NumType, elems: seq<int>, i: nat)
    requires AllOf(t, elems) && i < |elems|
    ensures UnpackedBitSize(t, elems[..i + 1]) == UnpackedBitSize(t, elems[..i]) + t.BitSizeOf(elems[i])
    ensures i == 0 ==> UnpackedBitSize(t, elems[..i]) == 0
  {
    hide NumType.Has, NumType.BitSizeOf;
    assert elems[..i + 1][..i] == elems[..i];
  }

  lemma OneMoreTime(n: nat, size: nat)
    ensures Times(n, size) == if n == 0 then 0 else Times(n - 1, size) + size
  {
  }

  /** Neighbours are close enough for their differences to be read back as 64-bit numbers. */
  predicate DifferencesFit(elems: seq<int>) {
    forall i :: 0 < i < |elems| ==> AbsDelta(elems[i], elems[i - 1]) < 0x4000_0000_0000_0000
  }

  lemma DifferencesFitIff(elems: seq<int>)
    ensures DifferencesFit(elems) <==> LargestDelta(elems) <= MAX_BIT_NUMBER_LIMIT
  {
    hide Pow2, LargestDelta;
    Powers();
    assert Pow2(63) == 2 * Pow2(62) by { DoublePower(62); }
    LargestDeltaIsLeast(elems, 62);
  }

  lemma DoublePower(n: nat)
    ensures Pow2(n + 1) == 2 * Pow2(n)
  {
  }

  /** Below 2^32 bits an array is packed iff that is possible and saves at least one bit. */
  lemma PackedIff(t: NumType, elems: seq<int>)
    requires AllOf(t, elems) && |elems| < TWO_TO_32
    requires 1 + UnpackedBitSize(t, elems) < TWO_TO_32
    requires elems != [] ==> PackedSize(t, elems) < TWO_TO_32
    ensures IsPacked(t, elems)
            <==> |elems| >= 2 && DifferencesFit(elems) && PackedSize(t, elems) < 1 + UnpackedBitSize(t, elems)
  {
    hide LargestDelta, NumType.Has, NumType.BitSizeOf, UnpackedBitSize, DeltaBits, Truncate, Pow2, DifferencesFit;
    DifferencesFitIff(elems);
    Powers();
    SmallTruncate(|elems|, 32);
    SmallTruncate(1 + UnpackedBitSize(t, elems), 32);
    if elems != [] {
      SmallTruncate(PackedSize(t, elems), 32);
    }
  }

  /** Four numbers 300 apart: packing takes 101 bits in place of 257. */
  lemma PackedExample()
    ensures var t, elems := IntType(false, 64, 64), [0, 300, 600, 900];
            AllOf(t, elems) && IsPacked(t, elems) && ElementsBitSize(t, elems, 4) == 101
  {
    hide LargestDelta, Pow2, IsPacked, UnpackedBitSize, ElementsBitSize;
    var t, elems := IntType(false, 64, 64), [0, 300, 600, 900];
    Powers();
    NinePower();
    LargestDeltaIsLeast(elems, 8);
    LargestDeltaIsLeast(elems, 9);
    assert AbsDelta(elems[1], elems[0]) == AbsDelta(elems[2], elems[1]) == AbsDelta(elems[3], elems[2]) == 300;
    UnpackedWords(t, elems);
    PackedIff(t, elems);
    SizeOfElements(t, elems, 4);
  }

  lemma NinePower()
    ensures Pow2(8) == 256 && Pow2(9) == 512
  {
  }

  /** The smaller of the packed size, where packing is possible, and the unpacked size. */
  function SmallerSize(t: NumType, elems: seq<int>): nat
    requires AllOf(t, elems) && elems != []
  {
    var packed, unpacked := PackedSize(t, elems), 1 + UnpackedBitSize(t, elems);
    if |elems| >= 2 && DifferencesFit(elems) && packed < unpacked then packed else unpacked
  }

  /** An array takes the smaller size iff comparing the sizes in 32 bits gives the same answer as comparing them. */
  lemma OptimalIffSameAnswer(t: NumType, elems: seq<int>)
    requires AllOf(t, elems) && elems != [] && |elems| < TWO_TO_32
    ensures var packed, unpacked := PackedSize(t, elems), 1 + UnpackedBitSize(t, elems);
            ElementsBitSize(t, elems, |elems|) == SmallerSize(t, elems)
            <==> (|elems| >= 2 && DifferencesFit(elems) && packed != unpacked ==>
                    (Truncate(packed, 32) < Truncate(unpacked, 32) <==> packed < unpacked))
  {
    hide LargestDelta, NumType.Has, NumType.BitSizeOf, UnpackedBitSize, DeltaBits, Truncate, Pow2, ElementsBitSize;
    hide DifferencesFit;
    DifferencesFitIff(elems);
    SizeOfElements(t, elems, |elems|);
    assert elems[..|elems|] == elems;
    Powers();
    SmallTruncate(|elems|, 32);
  }

  /**
    Below 2^32 bits an array takes the smaller of its packed and its unpacked size, so packing never costs more than
    the one bit that says whether the array is packed.
  */
  lemma PackingIsOptimal(t: NumType, elems: seq<int>)
    requires AllOf(t, elems) && elems != []
    requires 1 + UnpackedBitSize(t, elems) < TWO_TO_32 && PackedSize(t, elems) < TWO_TO_32 && |elems| < TWO_TO_32
    ensures ElementsBitSize(t, elems, |elems|) == SmallerSize(t, elems) <= 1 + UnpackedBitSize(t, elems)
  {
    hide LargestDelta, NumType.Has, PackedSize, UnpackedBitSize, Truncate, Pow2, ElementsBitSize;
    OptimalIffSameAnswer(t, elems);
    Powers();
    SmallTruncate(1 + UnpackedBitSize(t, elems), 32);
    SmallTruncate(PackedSize(t, elems), 32);
  }

  /** Beyond 32 bits the comparison of the sizes wraps around: equal elements are then stored one by one. */
  lemma HugeArrayIsNotPacked()
    ensures var t, elems := IntType(false, 64, 64), seq(0x400_0000, _ => 0);
            && AllOf(t, elems) && !IsPacked(t, elems)
            && PackedSize(t, elems) == 71
            && ElementsBitSize(t, elems, |elems|) == 0x1_0000_0001
  {
    hide IsPacked, PackingPays, Pow2, UnpackedBitSize, LargestDelta;
    var t, elems := IntType(false, 64, 64), seq(0x400_0000, _ => 0);
    Powers();
    EqualElements(elems);
    UnpackedWords(t, elems);
    SizeOfElements(t, elems, |elems|);
    assert elems[..|elems|] == elems;
    NotWorthPacking(t, elems);
  }

  lemma NotWorthPacking(t: NumType, elems: seq<int>)
    requires AllOf(t, elems) && UnpackedBitSize(t, elems) == TWO_TO_32
    requires elems != [] ==> t.BitSizeOf(elems[0]) == 64
    requires LargestDelta(elems) == 0
    ensures !IsPacked(t, elems)
  {
    hide UnpackedBitSize, LargestDelta, NumType.Has;
    Powers();
    ModIsRemainder(1 + UnpackedBitSize(t, elems), Pow2(32), 1, 1);
    SmallTruncate(71, 32);
  }

  lemma {:induction false} EqualElements(elems: seq<int>)
    requires forall i :: 0 <= i < |elems| ==> elems[i] == 0
    ensures LargestDelta(elems) == 0
    decreases |elems|
  {
    if |elems| >= 2 {
      EqualElements(elems[..|elems| - 1]);
    }
  }

  lemma {:induction false} UnpackedWords(t: NumType, elems: seq<int>)
    requires AllOf(t, elems) && t == IntType(false, 64, 64)
    ensures UnpackedBitSize(t, elems) == 64 * |elems|
    decreases |elems|
  {
    if elems != [] {
      UnpackedWords(t, elems[..|elems| - 1]);
    }
  }

  // ----- reading the elements -----

  /** What the context knows between two reads. */
  datatype ReadState = ReadState(packed: bool, maxBitNumber: nat, previousElement: nat)

  datatype Step = Step(element: int, state: ReadState)

  function DecodeNumber(t: NumType, s: seq<bool>, pos: nat): Decoded<int> {
    Map(DecodeItem(t.Shape(), s, pos), (item: Item) => NumberOf(item))
  }

  function UnpackedStep(packed: bool, maxBitNumber: nat, d: Decoded<int>): Decoded<Step> {
    Map(d, v => Step(v, ReadState(packed, maxBitNumber, ToWord(v))))
  }

  /** The largest bit length of a packed array. */
  function DecodeDescriptor(s: seq<bool>, pos: nat): Decoded<Option<nat>> {
    match DecodeUnsigned(s, pos, 1)
    case Failed(error) => Failed(error)
    case Decoded(flag, next) =>
      if flag == 0 then Decoded(None, next)
      else Map(DecodeUnsigned(s, next, MAX_BIT_NUMBER_BITS), maxBitNumber => Some(maxBitNumber))
  }

  function DecodeFirst(t: NumType, s: seq<bool>, pos: nat): Decoded<Step> {
    match DecodeDescriptor(s, pos)
    case Failed(error) => Failed(error)
    case Decoded(descriptor, next) =>
      var maxBitNumber := if descriptor.Some? then descriptor.value else 0;
      UnpackedStep(descriptor.Some?, maxBitNumber, DecodeNumber(t, s, next))
  }

  function DecodeNext(t: NumType, state: ReadState, s: seq<bool>, pos: nat): Decoded<Step> {
    if !state.packed then UnpackedStep(false, state.maxBitNumber, DecodeNumber(t, s, pos))
    else if state.maxBitNumber == 0 then Decoded(Step(t.FromWord(state.previousElement), state), pos)
    else Map(DecodeSigned(s, pos, state.maxBitNumber + 1), delta => AddDelta(t, state, delta))
  }

  function AddDelta(t: NumType, state: ReadState, delta: int): Step {
    var word := ToWord(t.FromWord(Truncate(state.previousElement + ToWord(delta), 64)));
    Step(t.FromWord(word), state.(previousElement := word))
  }

  /** The knowledge of the reading context once `i` elements have been read. */
  function StateAfter(t: NumType, elems: seq<int>, i: nat): ReadState
    requires AllOf(t, elems) && 0 < i <= |elems|
  {
    ReadState(IsPacked(t, elems), if IsPacked(t, elems) then LargestDelta(elems) else 0, ToWord(elems[i - 1]))
  }

  lemma NumberThereAndBack(t: NumType, v: int, s: seq<bool>, pos: nat)
    requires t.WellFormed() && t.Has(v) && Holds(s, pos, NumberBits(t, v))
    ensures DecodeNumber(t, s, pos) == Decoded(v, pos + |NumberBits(t, v)|)
  {
    hide ItemBits, DecodeItem, NumType.Has, NumType.BitSizeOf, Writable, Representable, Canonical;
    ItemOfIsWritable(t, v, pos);
    NumberBitsAnywhere(t, v, pos);
    ItemRoundTrip(t.ItemOf(v), s, pos);
  }

  lemma NumberBitsAnywhere(t: NumType, v: int, pos: nat)
    requires t.WellFormed() && t.Has(v)
    ensures Writable(t.ItemOf(v)) && ItemBits(t.ItemOf(v), pos) == NumberBits(t, v)
  {
    ItemOfIsWritable(t, v, pos);
  }

  lemma DescriptorThereAndBack(packed: bool, maxBitNumber: nat, s: seq<bool>, pos: nat)
    requires maxBitNumber < 64 && Holds(s, pos, DescriptorBits(packed, maxBitNumber))
    ensures DecodeDescriptor(s, pos)
            == Decoded(if packed then Some(maxBitNumber) else None, pos + |DescriptorBits(packed, maxBitNumber)|)
  {
    hide ToBits, FromBits;
    assert Pow2(6) == 64;
    FlagValue(packed);
    if packed {
      HoldsConcat(s, pos, [true], ToBits(maxBitNumber, 6));
      SmallTruncate(maxBitNumber, 6);
      FromToBits(maxBitNumber, 6);
    }
  }

  /** The first element and the descriptor are read back. */
  lemma FirstThereAndBack(t: NumType, elems: seq<int>, s: seq<bool>, pos: nat)
    requires AllOf(t, elems) && elems != [] && Holds(s, pos, ElementBits(t, elems, 0))
    ensures DecodeFirst(t, s, pos)
            == Decoded(Step(elems[0], StateAfter(t, elems, 1)), pos + |ElementBits(t, elems, 0)|)
  {
    hide IsPacked, LargestDelta, NumType.Has, DecodeNumber, NumberBits, DecodeUnsigned;
    var packed, max := IsPacked(t, elems), if IsPacked(t, elems) then LargestDelta(elems) else 0;
    if packed {
      PackedBound(t, elems);
    }
    var descriptor := DescriptorBits(packed, max);
    HoldsConcat(s, pos, descriptor, NumberBits(t, elems[0]));
    DescriptorThereAndBack(packed, max, s, pos);
    NumberThereAndBack(t, elems[0], s, pos + |descriptor|);
  }

  /** Every other element is read back: 64-bit modular sums recover narrow and signed values. */
  lemma NextThereAndBack(t: NumType, elems: seq<int>, i: nat, s: seq<bool>, pos: nat)
    requires AllOf(t, elems) && 0 < i < |elems| && Holds(s, pos, ElementBits(t, elems, i))
    ensures DecodeNext(t, StateAfter(t, elems, i), s, pos)
            == Decoded(Step(elems[i], StateAfter(t, elems, i + 1)), pos + |ElementBits(t, elems, i)|)
  {
    hide IsPacked, LargestDelta, NumType.Has, NumType.FromWord, DecodeNumber, NumberBits, DifferenceBits, FitsSigned,
      Truncate, AddDelta;
    if !IsPacked(t, elems) {
      NumberThereAndBack(t, elems[i], s, pos);
    } else {
      PackedBound(t, elems);
      DifferenceFits(elems, i);
      WordRoundTrip(t, elems[i]);
      if LargestDelta(elems) > 0 {
        DifferenceThereAndBack(elems[i] - elems[i - 1], LargestDelta(elems), s, pos);
        DeltaAdded(t, StateAfter(t, elems, i), elems[i - 1], elems[i]);
      }
    }
  }

  /** Adding the difference to the previous element gives the next one. */
  lemma DeltaAdded(t: NumType, state: ReadState, previous: int, next: int)
    requires t.WellFormed() && t.Has(next) && state.previousElement == ToWord(previous)
    ensures AddDelta(t, state, next - previous) == Step(next, state.(previousElement := ToWord(next)))
  {
    hide NumType.Has, NumType.FromWord, Truncate;
    DeltaUndone(previous, next);
    WordRoundTrip(t, next);
  }

  lemma DifferenceThereAndBack(delta: int, max: nat, s: seq<bool>, pos: nat)
    requires 0 < max <= 62 && FitsSigned(max + 1, delta) && Holds(s, pos, DifferenceBits(delta, max))
    ensures DecodeSigned(s, pos, max + 1) == Decoded(delta, pos + max + 1)
  {
    TwosComplement(max + 1, delta);
  }

  // ----- the context -----

  class DeltaContext {
    var previousElement: nat
    var maxBitNumber: nat
    var initStarted: bool
    var isPacked: bool
    var processingStarted: bool
    var firstElementBitSize: nat
    var numElements: nat
    var unpackedBitSize: nat

    constructor ()
      ensures Reading(None) && forall t: NumType | t.WellFormed() :: Initialized(t, [])
    {
      previousElement, maxBitNumber := 0, 0;
      initStarted, isPacked, processingStarted := false, false, false;
      firstElementBitSize, numElements, unpackedBitSize := 0, 0, 0;
    }

    /** The state after the initialization pass has seen some elements. */
    ghost predicate Initialized(t: NumType, seen: seq<int>)
      reads this
    {
      !processingStarted && Seen(t, seen)
    }

    ghost predicate Seen(t: NumType, seen: seq<int>)
      reads this
    {
      && AllOf(t, seen)
      && initStarted == (seen != [])
      && numElements == Truncate(|seen|, 32)
      && unpackedBitSize == UnpackedBitSize(t, seen)
      && (seen != [] ==> firstElementBitSize == t.BitSizeOf(seen[0]))
      && DeltasSeen(seen)
    }

    /** The differences seen so far, up to the first one that is too large. */
    ghost predicate DeltasSeen(seen: seq<int>)
      reads this
    {
      && isPacked == (|seen| >= 2 && LargestDelta(seen) <= MAX_BIT_NUMBER_LIMIT)
      && (if LargestDelta(seen) <= MAX_BIT_NUMBER_LIMIT
          then maxBitNumber == LargestDelta(seen) && (seen != [] ==> previousElement == ToWord(seen[|seen| - 1]))
          else maxBitNumber > MAX_BIT_NUMBER_LIMIT)
    }

    /** One step of the initialization pass. */
    method Init(t: NumType, element: int, ghost seen: seq<int>)
      requires Initialized(t, seen) && t.Has(element)
      modifies this
      ensures Initialized(t, seen + [element])
    {
      hide NumType.Has, NumType.BitSizeOf, NumType.FromWord, UnpackedBitSize, LargestDelta, Truncate, BitLength, ToWord;
      SeenOneMore(t, seen, element);
      BitSizeFitsByte(t, element);
      numElements := Truncate(numElements + 1, 32);
      unpackedBitSize := unpackedBitSize + t.BitSizeOf(element);

      if !initStarted {
        initStarted := true;
        previousElement := ToWord(element);
        firstElementBitSize := unpackedBitSize % 256;
      } else {
        if maxBitNumber <= MAX_BIT_NUMBER_LIMIT {
          InitDelta(t, element, seen);
        }
      }
    }

    method InitDelta(t: NumType, element: int, ghost seen: seq<int>)
      requires AllOf(t, seen) && t.Has(element) && seen != []
      requires DeltasSeen(seen) && maxBitNumber <= MAX_BIT_NUMBER_LIMIT
      modifies this`isPacked, this`maxBitNumber, this`previousElement
      ensures DeltasSeen(seen + [element])
    {
      hide NumType.Has, NumType.BitSizeOf, NumType.FromWord, UnpackedBitSize, LargestDelta, Truncate, BitLength, ToWord;
      isPacked := true;
      SeenOneMore(t, seen, element);
      WordRoundTrip(t, seen[|seen| - 1]);
      DistanceFits(t, element, seen[|seen| - 1]);
      var length := CalcBitLength(element, t.FromWord(previousElement));
      if length > maxBitNumber {
        maxBitNumber := length;
        if maxBitNumber > MAX_BIT_NUMBER_LIMIT {
          isPacked := false;
        }
      }
      previousElement := ToWord(element);
    }

    /** The initialization pass is over and `i` elements have been sized. */
    ghost predicate Sizing(t: NumType, elems: seq<int>, i: nat)
      requires AllOf(t, elems) && i <= |elems|
      reads this
    {
      if i == 0 then Initialized(t, elems)
      else processingStarted && isPacked == IsPacked(t, elems) && (isPacked ==> maxBitNumber == LargestDelta(elems))
    }

    /** The initialization pass is over and `i` elements have been written. */
    ghost predicate Writing(t: NumType, elems: seq<int>, i: nat)
      requires AllOf(t, elems) && i <= |elems|
      reads this
    {
      && Sizing(t, elems, i)
      && (i > 0 && isPacked && maxBitNumber > 0 ==> previousElement == ToWord(elems[i - 1]))
    }

    /** Some elements have been read. */
    ghost predicate Reading(state: Option<ReadState>)
      reads this
    {
      match state
      case None => !processingStarted
      case Some(state) =>
        && processingStarted && isPacked == state.packed && previousElement == state.previousElement
        && (isPacked ==> maxBitNumber == state.maxBitNumber)
    }

    method FinishInit(t: NumType, ghost elems: seq<int>)
      requires Seen(t, elems) && elems != []
      modifies this`isPacked
      ensures isPacked == IsPacked(t, elems)
      ensures isPacked ==> maxBitNumber == LargestDelta(elems)
    {
      hide UnpackedBitSize, LargestDelta, NumType.Has, NumType.BitSizeOf, Truncate, PackedSizeIn32;
      if isPacked {
        var deltaBitSize := maxBitNumber + (if maxBitNumber > 0 then 1 else 0);
        var packedBitSizeWithDescriptor := PackedSizeIn32(firstElementBitSize, numElements, deltaBitSize);
        var unpackedBitSizeWithDescriptor := Truncate(1 + unpackedBitSize, 32);
        if packedBitSizeWithDescriptor >= unpackedBitSizeWithDescriptor {
          isPacked := false;
        }
      }
    }

    method BitSizeOf(t: NumType, element: int, ghost elems: seq<int>, ghost i: nat) returns (bitSize: nat)
      requires AllOf(t, elems) && i < |elems| && element == elems[i] && Sizing(t, elems, i)
      modifies this
      ensures Sizing(t, elems, i + 1) && bitSize == |ElementBits(t, elems, i)|
    {
      hide IsPacked, LargestDelta, NumType.Has, NumType.BitSizeOf, NumberBits, ToBits;
      if !processingStarted {
        processingStarted := true;
        FinishInit(t, elems);
        bitSize := BitSizeOfDescriptor() + t.BitSizeOf(element);
      } else if !isPacked {
        bitSize := t.BitSizeOf(element);
      } else {
        bitSize := maxBitNumber + (if maxBitNumber > 0 then 1 else 0);
      }
    }

    function BitSizeOfDescriptor(): nat
      reads this
    {
      if isPacked then 1 + MAX_BIT_NUMBER_BITS else 1
    }

    method WriteDescriptor(writer: BitStreamWriter) returns (r: WriteResult)
      requires writer.Valid() && (isPacked ==> maxBitNumber < 64)
      modifies writer`bitIndex, writer.buffer
      ensures writer.Wrote(r, DescriptorBits(isPacked, maxBitNumber))
    {
      hide ToBits, BytesToBits, Splice, BitStreamWriter.AppendedPrefix;
      ghost var before, pos := writer.Content(), writer.bitIndex;
      ghost var number := ToBits(maxBitNumber, MAX_BIT_NUMBER_BITS);
      r := writer.WriteBool(isPacked);
      if isPacked {
        assert Pow2(6) == 64;
        ghost var mid := writer.Content();
        if r != Written {
          writer.PrefixBefore(before, pos, [true], number);
          return;
        }
        r := writer.WriteUnsignedBits32(maxBitNumber, MAX_BIT_NUMBER_BITS);
        if r.Written? {
          writer.AppendedAfter(before, pos, [true], mid, number);
        } else {
          writer.PrefixAfter(before, pos, [true], mid, number);
        }
      }
    }

    method WriteUnpacked(writer: BitStreamWriter, t: NumType, element: int) returns (r: WriteResult)
      requires writer.Valid() && t.WellFormed() && t.Has(element)
      modifies this`previousElement, writer`bitIndex, writer.buffer
      ensures previousElement == ToWord(element)
      ensures writer.Wrote(r, NumberBits(t, element))
    {
      hide ItemBits, BytesToBits, Splice, BitStreamWriter.AppendedPrefix, NumType.Has, NumType.ItemOf, NumberBits;
      previousElement := ToWord(element);
      NumberBitsAnywhere(t, element, writer.bitIndex);
      ItemOfIsWritable(t, element, writer.bitIndex);
      r := writer.WriteItem(t.ItemOf(element));
    }

    lemma FirstElementBits(t: NumType, elems: seq<int>)
      requires AllOf(t, elems) && elems != []
      ensures var packed := IsPacked(t, elems);
              ElementBits(t, elems, 0)
              == DescriptorBits(packed, LargestDelta(elems)) + NumberBits(t, elems[0])
    {
    }

    /** The descriptor and the first element. */
    method WriteFirst(writer: BitStreamWriter, t: NumType, element: int, ghost elems: seq<int>) returns (r: WriteResult)
      requires writer.Valid() && Seen(t, elems) && elems != [] && element == elems[0]
      modifies this`isPacked, this`previousElement, writer`bitIndex, writer.buffer
      ensures writer.Wrote(r, ElementBits(t, elems, 0))
      ensures r.Written? ==> isPacked == IsPacked(t, elems) && (isPacked ==> maxBitNumber == LargestDelta(elems))
      ensures r.Written? ==> previousElement == ToWord(element)
    {
      hide NumType.Has, NumberBits, DescriptorBits, Splice, BitStreamWriter.AppendedPrefix, BitStreamWriter.Appended,
        BitStreamWriter.Content, IsPacked, LargestDelta, UnpackedBitSize, Truncate, ElementBits;
      FirstElementBits(t, elems);
      FinishInit(t, elems);
      if isPacked {
        PackedBound(t, elems);
      }
      DescriptorOfUnpacked(maxBitNumber, LargestDelta(elems));
      r := WriteDescribed(writer, t, element);
    }

    method WriteDescribed(writer: BitStreamWriter, t: NumType, element: int) returns (r: WriteResult)
      requires writer.Valid() && (isPacked ==> maxBitNumber < 64) && t.WellFormed() && t.Has(element)
      modifies this`previousElement, writer`bitIndex, writer.buffer
      ensures writer.Wrote(r, DescriptorBits(isPacked, maxBitNumber) + NumberBits(t, element))
      ensures r.Written? ==> previousElement == ToWord(element)
    {
      hide NumType.Has, NumberBits, DescriptorBits, BytesToBits, Splice, BitStreamWriter.AppendedPrefix,
        BitStreamWriter.Content;
      ghost var before, pos := writer.Content(), writer.bitIndex;
      ghost var descriptor, number := DescriptorBits(isPacked, maxBitNumber), NumberBits(t, element);
      r := WriteDescriptor(writer);
      if r != Written {
        writer.PrefixBefore(before, pos, descriptor, number);
        return;
      }
      ghost var mid := writer.Content();
      r := WriteUnpacked(writer, t, element);
      if r.Written? {
        writer.AppendedAfter(before, pos, descriptor, mid, number);
      } else {
        writer.PrefixAfter(before, pos, descriptor, mid, number);
      }
    }

    method WriteDelta(writer: BitStreamWriter, element: int, ghost previous: int) returns (r: WriteResult)
      requires writer.Valid() && 0 < maxBitNumber <= 62 && previousElement == ToWord(previous)
      requires FitsSigned(maxBitNumber + 1, element - previous) && FitsSigned(64, element - previous)
      modifies this`previousElement, writer`bitIndex, writer.buffer
      ensures writer.Wrote(r, DifferenceBits(element - previous, maxBitNumber))
      ensures previousElement == ToWord(element)
    {
      hide ToBits, BytesToBits, Splice, BitStreamWriter.AppendedPrefix, BitStreamWriter.Content, FitsSigned, Truncate;
      DeltaExact(element, previous);
      var delta := UncheckedDelta(element, previousElement);
      r := writer.WriteSignedBits64(delta, maxBitNumber + 1);
      previousElement := ToWord(element);
    }

    /** Any other element: as it is, as a difference, or not at all. */
    method WriteNext(writer: BitStreamWriter, t: NumType, element: int, ghost elems: seq<int>, ghost i: nat)
      returns (r: WriteResult)
      requires writer.Valid()
      requires AllOf(t, elems) && 0 < i < |elems| && element == elems[i] && Writing(t, elems, i)
      modifies this`previousElement, writer`bitIndex, writer.buffer
      ensures writer.Wrote(r, ElementBits(t, elems, i))
      ensures isPacked && maxBitNumber > 0 ==> previousElement == ToWord(element)
    {
      hide IsPacked, LargestDelta, NumType.Has, NumberBits, DescriptorBits, DifferenceBits, BytesToBits, Splice,
        BitStreamWriter.AppendedPrefix, BitStreamWriter.Content, FitsSigned, Truncate;
      if !isPacked {
        r := WriteUnpacked(writer, t, element);
      } else if maxBitNumber > 0 {
        PackedBound(t, elems);
        DifferenceFits(elems, i);
        r := WriteDelta(writer, element, elems[i - 1]);
      } else {
        NothingIsNoBytes(elems[i] - elems[i - 1]);
        writer.NothingWrittenYet();
        r := Written;
      }
    }

    method Write(writer: BitStreamWriter, t: NumType, element: int, ghost elems: seq<int>, ghost i: nat)
      returns (r: WriteResult)
      requires writer.Valid()
      requires AllOf(t, elems) && i < |elems| && element == elems[i] && Writing(t, elems, i)
      modifies this, writer`bitIndex, writer.buffer
      ensures writer.Wrote(r, ElementBits(t, elems, i))
      ensures r.Written? ==> Writing(t, elems, i + 1)
    {
      hide IsPacked, LargestDelta, NumType.Has, ElementBits, BytesToBits, Splice, BitStreamWriter.AppendedPrefix,
        BitStreamWriter.Appended, BitStreamWriter.Content, BitStreamWriter.HasRoom;
      if !processingStarted {
        processingStarted := true;
        r := WriteFirst(writer, t, element, elems);
      } else {
        r := WriteNext(writer, t, element, elems, i);
      }
    }

    method ReadDescriptor(reader: BitStreamReader) returns (error: Option<ReadError>)
      requires reader.Valid()
      modifies reader, this`isPacked, this`maxBitNumber
      ensures match DecodeDescriptor(reader.Content(), old(reader.bitIndex))
              case Failed(e) => error == Some(e) && (e != EndOfStream ==> reader.Valid())
              case Decoded(descriptor, next) =>
                && error == None && reader.Valid() && reader.bitIndex == next
                && isPacked == descriptor.Some?
                && (isPacked ==> maxBitNumber == descriptor.value < 64)
    {
      hide Caches, BitStreamReader.Content, FromBits;
      ghost var s, pos := reader.Content(), reader.bitIndex;
      var flag := reader.ReadBool();
      if flag.Error? {
        return Some(flag.error);
      }
      if flag.value {
        isPacked := true;
        var bits := reader.ReadUnsignedBits32(MAX_BIT_NUMBER_BITS);
        if bits.Error? {
          return Some(bits.error);
        }
        SixBits(s, pos + 1);
        maxBitNumber := bits.value;
      } else {
        isPacked := false;
      }
      return None;
    }

    method ReadUnpacked(reader: BitStreamReader, t: NumType) returns (r: ReadResult<int>)
      requires reader.Valid()
      modifies reader, this`previousElement
      ensures reader.Agrees(r, DecodeNumber(t, reader.Content(), old(reader.bitIndex)))
      ensures r.Value? ==> previousElement == ToWord(r.value)
    {
      hide DecodeItem, Caches, BitStreamReader.Content;
      var item := reader.ReadItem(t.Shape());
      if item.Error? {
        return Error(item.error);
      }
      previousElement := ToWord(NumberOf(item.value));
      return Value(NumberOf(item.value));
    }

    method Read(reader: BitStreamReader, t: NumType, ghost state: Option<ReadState>)
      returns (r: ReadResult<int>, ghost next: Option<ReadState>)
      requires reader.Valid() && Reading(state)
      requires state.Some? && state.value.packed ==> state.value.maxBitNumber < 64
      modifies reader, this
      ensures var d := if state.None? then DecodeFirst(t, reader.Content(), old(reader.bitIndex))
                       else DecodeNext(t, state.value, reader.Content(), old(reader.bitIndex));
              && reader.Agrees(r, Map(d, (step: Step) => step.element))
              && (d.Decoded? ==> next == Some(d.value.state) && Reading(next)
                                 && (isPacked ==> maxBitNumber < 64))
    {
      hide DecodeNumber, DecodeDescriptor, DecodeSigned, Caches, BitStreamReader.Content, NumType.FromWord, ToWord,
        Truncate;
      next := None;
      if !processingStarted {
        processingStarted := true;
        var error := ReadDescriptor(reader);
        if error.Some? {
          return Error(error.value), next;
        }
        r := ReadUnpacked(reader, t);
        next := Some(ReadState(isPacked, if isPacked then maxBitNumber else 0, previousElement));
      } else if !isPacked {
        r := ReadUnpacked(reader, t);
        next := Some(state.value.(previousElement := previousElement));
      } else {
        if maxBitNumber > 0 {
          var delta := reader.ReadSignedBits64(maxBitNumber + 1);
          if delta.Error? {
            return Error(delta.error), next;
          }
          var readElement := t.FromWord(Truncate(previousElement + ToWord(delta.value), 64));
          previousElement := ToWord(readElement);
        }
        r := Value(t.FromWord(previousElement));
        next := Some(state.value.(previousElement := previousElement));
      }
    }
  }

  lemma SixBits(s: seq<bool>, pos: nat)
    ensures DecodeUnsigned(s, pos, 6).Decoded? ==> DecodeUnsigned(s, pos, 6).value < 64
  {
    assert Pow2(6) == 64;
    if pos + 6 <= |s| {
      FromBitsBit(s[pos..pos + 6], 0);
    }
  }

  lemma DescriptorOfUnpacked(a: nat, b: nat)
    ensures DescriptorBits(false, a) == DescriptorBits(false, b)
  {
  }

  lemma NothingIsNoBytes(delta: int)
    ensures DifferenceBits(delta, 0) == BytesToBits([])
  {
  }

  lemma BitSizeFitsByte(t: NumType, v: int)
    requires t.WellFormed() && t.Has(v)
    ensures 0 < t.BitSizeOf(v) <= 72
  {
  }

  lemma DistanceFits(t: NumType, a: int, b: int)
    requires t.WellFormed() && t.Has(a) && t.Has(b)
    ensures AbsDelta(a, b) < TWO_TO_64
  {
    Powers();
    if !t.BoolType? {
      HasFitsValueType(t, a);
      HasFitsValueType(t, b);
      var w := t.ValueBits();
      Pow2Monotone(w, 64);
      Pow2Monotone(w - 1, 63);
    }
  }

  lemma SeenOneMore(t: NumType, seen: seq<int>, element: int)
    requires AllOf(t, seen) && t.Has(element)
    ensures var next := seen + [element];
            && AllOf(t, next)
            && UnpackedBitSize(t, next) == UnpackedBitSize(t, seen) + t.BitSizeOf(element)
            && (seen == [] ==> UnpackedBitSize(t, seen) == 0 && LargestDelta(seen) == 0)
            && next[0] == (if seen == [] then element else seen[0])
            && LargestDelta(next)
               == (if seen == [] then 0
                   else var last := BitLength(AbsDelta(element, seen[|seen| - 1]));
                        if last > LargestDelta(seen) then last else LargestDelta(seen))
            && Truncate(|next|, 32) == Truncate(Truncate(|seen|, 32) + 1, 32)
  {
    var next := seen + [element];
    assert next[..|next| - 1] == seen;
    hide NumType.Has, NumType.BitSizeOf, BitLength, Truncate;
    assert forall i :: 0 <= i < |next| ==> t.Has(next[i]);
    AddTruncated(|seen|, 1, 32);
  }
}
