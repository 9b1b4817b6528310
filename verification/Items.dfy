/**
  What a bit stream holds: the bits of every kind of item the writer can write, and how they are read back.

  Reading is a function of the bits and the position only; the classes in BitStreamWriter and BitStreamReader are
  proved against these functions.
*/
module Items {
  import opened Bits
  import opened Streams
  import opened VarInt

  /** One written item. */
  datatype Item =
    | Unsigned(numBits: nat, natural: nat)
    | Signed(numBits: nat, integer: int)
    | Flag(flag: bool)
    | Variable(varType: VarType, number: int)
    | Bytes(bytes: seq<Byte>)
    | Text(chars: seq<Byte>)
    | BitString(data: seq<Byte>, bitSize: nat)
    | Alignment(to: nat)

  /** What has to be known about an item to read it. */
  datatype Shape =
    | UnsignedShape(numBits: nat)
    | SignedShape(numBits: nat)
    | FlagShape
    | VariableShape(varType: VarType)
    | BytesShape
    | TextShape
    | BitStringShape
    | AlignmentShape(to: nat)

  function ShapeOf(item: Item): Shape {
    match item
    case Unsigned(numBits, _) => UnsignedShape(numBits)
    case Signed(numBits, _) => SignedShape(numBits)
    case Flag(_) => FlagShape
    case Variable(varType, _) => VariableShape(varType)
    case Bytes(_) => BytesShape
    case Text(_) => TextShape
    case BitString(_, _) => BitStringShape
    case Alignment(to) => AlignmentShape(to)
  }

  predicate FitsSigned(numBits: nat, value: int) {
    numBits > 0 && 0 - Pow2(numBits - 1) <= value < Pow2(numBits - 1)
  }

  /** The items the writer accepts. */
  predicate Writable(item: Item) {
    match item
    case Unsigned(numBits, value) => 1 <= numBits <= 64 && value < Pow2(numBits)
    case Signed(numBits, value) => 1 <= numBits <= 64 && FitsSigned(numBits, value)
    case Flag(_) => true
    case Variable(varType, value) => InRange(varType, value)
    case Bytes(bytes) => |bytes| <= VARSIZE_MAX_VALUE
    case Text(chars) => |chars| <= VARSIZE_MAX_VALUE
    case BitString(bytes, bitSize) => bitSize <= VARSIZE_MAX_VALUE && bitSize <= 8 * |bytes|
    case Alignment(to) => 1 <= to <= 64
  }

  // ----- bits of an item -----

  function Zeros(n: nat): (b: seq<bool>)
    ensures |b| == n
  {
    seq(n, _ => false)
  }

  /** Distance to the next multiple of `to`. */
  function Padding(pos: nat, to: nat): nat
    requires to > 0
  {
    if pos % to == 0 then 0 else to - pos % to
  }

  lemma SizeInRange(n: nat)
    requires n <= VARSIZE_MAX_VALUE
    ensures InRange(VarSize, n)
  {
    Powers();
  }

  function SizeBits(n: nat): (b: seq<bool>)
    requires n <= VARSIZE_MAX_VALUE
  {
    SizeInRange(n);
    BytesToBits(EncodeVar(VarSize, n))
  }

  function ItemBits(item: Item, pos: nat): seq<bool>
    requires Writable(item)
  {
    match item
    case Unsigned(numBits, value) => ToBits(value, numBits)
    case Signed(numBits, value) => ToBits(Truncate(value, numBits), numBits)
    case Flag(value) => [value]
    case Variable(varType, value) => BytesToBits(EncodeVar(varType, value))
    case Bytes(bytes) => SizeBits(|bytes|) + BytesToBits(bytes)
    case Text(chars) => SizeBits(|chars|) + BytesToBits(chars)
    case BitString(bytes, bitSize) => SizeBits(bitSize) + BytesToBits(bytes)[..bitSize]
    case Alignment(to) => Zeros(Padding(pos, to))
  }

  // ----- reading an item -----

  function DecodeUnsigned(s: seq<bool>, pos: nat, numBits: nat): Decoded<nat> {
    if numBits == 0 || numBits > 64 then Failed(InvalidBitCount)
    else if pos + numBits > |s| then Failed(EndOfStream)
    else Decoded(FromBits(s[pos..pos + numBits]), pos + numBits)
  }

  /** The number a bit string denotes in two's complement. */
  function FromSignedBits(b: seq<bool>): int {
    if b != [] && b[0] then FromBits(b) - Pow2(|b|) else FromBits(b)
  }

  function DecodeSigned(s: seq<bool>, pos: nat, numBits: nat): Decoded<int> {
    if numBits == 0 || numBits > 64 then Failed(InvalidBitCount)
    else if pos + numBits > |s| then Failed(EndOfStream)
    else Decoded(FromSignedBits(s[pos..pos + numBits]), pos + numBits)
  }

  function BitsToBytes(b: seq<bool>): (bytes: seq<Byte>)
    requires |b| % 8 == 0
    ensures |bytes| == |b| / 8
  {
    seq(|b| / 8, i requires 0 <= i < |b| / 8 => ByteOf(b[8 * i..8 * i + 8]))
  }

  function ByteOf(b: seq<bool>): Byte
    requires |b| == 8
  {
    FromBitsBit(b, 0);
    assert Pow2(8) == 256;
    FromBits(b)
  }

  /** A varsize number of bytes followed by the bytes. */
  function DecodeBytes(s: seq<bool>, pos: nat): Decoded<seq<Byte>> {
    var size := DecodeVar(VarSize, s, pos);
    match size
    case Decoded(len, next) =>
      if next + 8 * len > |s| then Failed(EndOfStream)
      else Decoded(BitsToBytes(s[next..next + 8 * len]), next + 8 * len)
    case Failed(error) => Failed(error)
  }

  function PadToByte(b: seq<bool>): (r: seq<bool>)
    ensures |r| % 8 == 0 && |r| / 8 == (|b| + 7) / 8 && b <= r
  {
    b + Zeros(Padding(|b|, 8))
  }

  /** A varsize number of bits followed by the bits; the rest of the last byte is zero. */
  function DecodeBitString(s: seq<bool>, pos: nat): Decoded<Item> {
    var size := DecodeVar(VarSize, s, pos);
    match size
    case Decoded(len, next) =>
      if next + len > |s| then Failed(EndOfStream)
      else Decoded(BitString(BitsToBytes(PadToByte(s[next..next + len])), len), next + len)
    case Failed(error) => Failed(error)
  }

  function DecodeAlignment(s: seq<bool>, pos: nat, to: nat): Decoded<Item>
    requires 0 < to <= 64
  {
    var skip := Padding(pos, to);
    if pos + skip > |s| then Failed(EndOfStream)
    else Decoded(Alignment(to), pos + skip)
  }

  function Map<T, U>(d: Decoded<T>, f: T -> U): Decoded<U> {
    match d
    case Decoded(v, next) => Decoded(f(v), next)
    case Failed(error) => Failed(error)
  }

  predicate Readable(shape: Shape) {
    shape.AlignmentShape? ==> 1 <= shape.to <= 64
  }

  function DecodeItem(shape: Shape, s: seq<bool>, pos: nat): Decoded<Item>
    requires Readable(shape)
  {
    match shape
    case UnsignedShape(numBits) => Map(DecodeUnsigned(s, pos, numBits), v => Unsigned(numBits, v))
    case SignedShape(numBits) => Map(DecodeSigned(s, pos, numBits), v => Signed(numBits, v))
    case FlagShape => Map(DecodeUnsigned(s, pos, 1), v => Flag(v != 0))
    case VariableShape(varType) => Map(DecodeVar(varType, s, pos), v => Variable(varType, v))
    case BytesShape => Map(DecodeBytes(s, pos), v => Bytes(v))
    case TextShape => Map(DecodeBytes(s, pos), v => Text(v))
    case BitStringShape => DecodeBitString(s, pos)
    case AlignmentShape(to) => DecodeAlignment(s, pos, to)
  }

  // ----- reading inverts writing -----

  /** The stream holds the bits `b` from `pos` on. */
  predicate Holds(s: seq<bool>, pos: nat, b: seq<bool>) {
    pos + |b| <= |s| && s[pos..pos + |b|] == b
  }

  lemma HoldsConcat(s: seq<bool>, pos: nat, a: seq<bool>, b: seq<bool>)
    ensures Holds(s, pos, a + b) <==> Holds(s, pos, a) && Holds(s, pos + |a|, b)
  {
    if pos + |a| + |b| <= |s| {
      assert s[pos..pos + |a| + |b|] == s[pos..pos + |a|] + s[pos + |a|..pos + |a| + |b|];
      if s[pos..pos + |a| + |b|] == a + b {
        assert s[pos..pos + |a| + |b|][..|a|] == a;
        assert s[pos..pos + |a| + |b|][|a|..] == b;
      }
    }
  }

  lemma TwosComplement(numBits: nat, value: int)
    requires FitsSigned(numBits, value)
    ensures FromSignedBits(ToBits(Truncate(value, numBits), numBits)) == value
  {
    var p := Pow2(numBits - 1);
    var w := if value < 0 then value + 2 * p else value;
    ModIsRemainder(value, 2 * p, if value < 0 then -1 else 0, w);
    assert Truncate(value, numBits) == w;
    FromToBits(w, numBits);
    SmallTruncate(w, numBits);
    var high, low := if value < 0 then 1 else 0, if value < 0 then w - p else w;
    assert w == high * p + low;
    BitsAboveSum(high, low, numBits - 1, 0);
  }

  lemma BytesThereAndBack(bytes: seq<Byte>)
    ensures BitsToBytes(BytesToBits(bytes)) == bytes
  {
    hide FromBits, BytesToBits;
    var b := BytesToBits(bytes);
    assert b[0..|b|] == b;
    forall i | 0 <= i < |bytes| ensures BitsToBytes(b)[i] == bytes[i] {
      ByteAt(b, 0, bytes, i);
    }
  }

  lemma SizeRoundTrip(s: seq<bool>, pos: nat, n: nat)
    requires n <= VARSIZE_MAX_VALUE && Holds(s, pos, SizeBits(n))
    ensures DecodeVar(VarSize, s, pos) == Decoded(n, pos + |SizeBits(n)|)
  {
    SizeInRange(n);
    VarRoundTrip(VarSize, n, s, pos);
  }

  lemma BytesRoundTrip(s: seq<bool>, pos: nat, bytes: seq<Byte>)
    requires |bytes| <= VARSIZE_MAX_VALUE
    requires Holds(s, pos, SizeBits(|bytes|) + BytesToBits(bytes))
    ensures DecodeBytes(s, pos) == Decoded(bytes, pos + |SizeBits(|bytes|)| + 8 * |bytes|)
  {
    hide DecodeVar, SizeBits, BitsToBytes, BytesToBits;
    HoldsConcat(s, pos, SizeBits(|bytes|), BytesToBits(bytes));
    SizeRoundTrip(s, pos, |bytes|);
    BytesThereAndBack(bytes);
  }

  /** The item as it is read back: a bit string loses the bits beyond its size. */
  function Canonical(item: Item): Item
    requires Writable(item)
  {
    if item.BitString? then
      BitString(BitsToBytes(PadToByte(BytesToBits(item.data)[..item.bitSize])), item.bitSize)
    else item
  }

  lemma BitStringRoundTrip(s: seq<bool>, pos: nat, b: seq<bool>)
    requires |b| <= VARSIZE_MAX_VALUE
    requires Holds(s, pos, SizeBits(|b|) + b)
    ensures DecodeBitString(s, pos)
            == Decoded(BitString(BitsToBytes(PadToByte(b)), |b|), pos + |SizeBits(|b|)| + |b|)
  {
    hide DecodeVar, SizeBits, BitsToBytes, PadToByte;
    HoldsConcat(s, pos, SizeBits(|b|), b);
    SizeRoundTrip(s, pos, |b|);
  }

  lemma IntegerRoundTrip(item: Item, s: seq<bool>, pos: nat)
    requires Writable(item) && (item.Unsigned? || item.Signed?)
    requires Holds(s, pos, ItemBits(item, pos))
    ensures DecodeItem(ShapeOf(item), s, pos) == Decoded(item, pos + |ItemBits(item, pos)|)
  {
    hide FromBits, ToBits, FromSignedBits, Truncate, Pow2;
    if item.Unsigned? {
      FromToBits(item.natural, item.numBits);
      SmallTruncate(item.natural, item.numBits);
    } else {
      TwosComplement(item.numBits, item.integer);
    }
  }

  lemma NumberRoundTrip(item: Item, s: seq<bool>, pos: nat)
    requires Writable(item) && (item.Unsigned? || item.Signed? || item.Flag? || item.Variable?)
    requires Holds(s, pos, ItemBits(item, pos))
    ensures DecodeItem(ShapeOf(item), s, pos) == Decoded(item, pos + |ItemBits(item, pos)|)
  {
    hide FromBits, DecodeVar, EncodeVar;
    if item.Flag? {
      assert s[pos..pos + 1] == [item.flag];
      FlagValue(item.flag);
    } else if item.Variable? {
      VarRoundTrip(item.varType, item.number, s, pos);
    } else {
      IntegerRoundTrip(item, s, pos);
    }
  }

  lemma FlagValue(flag: bool)
    ensures FromBits([flag]) == if flag then 1 else 0
  {
    FromBitsBit([flag], 0);
  }

  lemma BytesItemRoundTrip(item: Item, s: seq<bool>, pos: nat)
    requires Writable(item) && (item.Bytes? || item.Text?)
    requires Holds(s, pos, ItemBits(item, pos))
    ensures DecodeItem(ShapeOf(item), s, pos) == Decoded(Canonical(item), pos + |ItemBits(item, pos)|)
  {
    hide SizeBits, BytesToBits, DecodeBytes;
    BytesRoundTrip(s, pos, if item.Bytes? then item.bytes else item.chars);
  }

  lemma BitStringItemRoundTrip(data: seq<Byte>, bitSize: nat, s: seq<bool>, pos: nat)
    requires Writable(BitString(data, bitSize))
    requires Holds(s, pos, ItemBits(BitString(data, bitSize), pos))
    ensures DecodeBitString(s, pos)
            == Decoded(Canonical(BitString(data, bitSize)), pos + |ItemBits(BitString(data, bitSize), pos)|)
  {
    var b := BytesToBits(data)[..bitSize];
    assert ItemBits(BitString(data, bitSize), pos) == SizeBits(bitSize) + b;
    BitStringRoundTrip(s, pos, b);
  }

  /** Reading the bits of an item gives the item back and stops where its bits end. */
  lemma ItemRoundTrip(item: Item, s: seq<bool>, pos: nat)
    requires Writable(item)
    requires Holds(s, pos, ItemBits(item, pos))
    ensures DecodeItem(ShapeOf(item), s, pos) == Decoded(Canonical(item), pos + |ItemBits(item, pos)|)
  {
    hide DecodeVar, EncodeVar, SizeBits, BitsToBytes;
    match item {
      case Alignment(to) =>
      case Bytes(_) => BytesItemRoundTrip(item, s, pos);
      case Text(_) => BytesItemRoundTrip(item, s, pos);
      case BitString(data, bitSize) => BitStringItemRoundTrip(data, bitSize, s, pos);
      case _ => NumberRoundTrip(item, s, pos);
    }
  }

  // ----- whole streams -----

  predicate AllWritable(items: seq<Item>) {
    forall i :: 0 <= i < |items| ==> Writable(items[i])
  }

  function StreamBits(items: seq<Item>, pos: nat): seq<bool>
    requires AllWritable(items)
  {
    if items == [] then []
    else
      var b := ItemBits(items[0], pos);
      b + StreamBits(items[1..], pos + |b|)
  }

  predicate AllReadable(shapes: seq<Shape>) {
    forall i :: 0 <= i < |shapes| ==> Readable(shapes[i])
  }

  function DecodeStream(shapes: seq<Shape>, s: seq<bool>, pos: nat): Decoded<seq<Item>>
    requires AllReadable(shapes)
  {
    if shapes == [] then Decoded([], pos)
    else
      match DecodeItem(shapes[0], s, pos)
      case Failed(error) => Failed(error)
      case Decoded(item, next) =>
        match DecodeStream(shapes[1..], s, next)
        case Failed(error) => Failed(error)
        case Decoded(rest, end) => Decoded([item] + rest, end)
  }

  function ShapesOf(items: seq<Item>): (shapes: seq<Shape>)
    ensures |shapes| == |items|
  {
    seq(|items|, i requires 0 <= i < |items| => ShapeOf(items[i]))
  }

  function CanonicalAll(items: seq<Item>): (r: seq<Item>)
    requires AllWritable(items)
    ensures |r| == |items|
  {
    seq(|items|, i requires 0 <= i < |items| => Canonical(items[i]))
  }

  lemma WritableIsReadable(items: seq<Item>)
    requires AllWritable(items)
    ensures AllReadable(ShapesOf(items))
  {
    forall i | 0 <= i < |items| ensures Readable(ShapesOf(items)[i]) {
      assert Writable(items[i]);
    }
  }

  lemma DecodeStreamStep(shapes: seq<Shape>, s: seq<bool>, pos: nat, item: Item, next: nat, rest: seq<Item>, end: nat)
    requires AllReadable(shapes) && shapes != []
    requires DecodeItem(shapes[0], s, pos) == Decoded(item, next)
    requires DecodeStream(shapes[1..], s, next) == Decoded(rest, end)
    ensures DecodeStream(shapes, s, pos) == Decoded([item] + rest, end)
  {
  }

  lemma TailOfStream(items: seq<Item>)
    requires AllWritable(items) && items != []
    ensures ShapesOf(items)[0] == ShapeOf(items[0]) && ShapesOf(items)[1..] == ShapesOf(items[1..])
    ensures CanonicalAll(items) == [Canonical(items[0])] + CanonicalAll(items[1..])
  {
  }

  /** Any sequence of items comes back, item by item, from a stream that holds their bits, whatever surrounds them. */
  lemma {:induction false} StreamRoundTrip(items: seq<Item>, s: seq<bool>, pos: nat)
    requires AllWritable(items)
    requires Holds(s, pos, StreamBits(items, pos))
    ensures AllReadable(ShapesOf(items))
    ensures DecodeStream(ShapesOf(items), s, pos) == Decoded(CanonicalAll(items), pos + |StreamBits(items, pos)|)
  {
    hide ItemBits, DecodeItem, Canonical, ShapeOf, Writable, Readable;
    WritableIsReadable(items);
    if items != [] {
      var first, rest := items[0], items[1..];
      var next := pos + |ItemBits(first, pos)|;
      HoldsConcat(s, pos, ItemBits(first, pos), StreamBits(rest, next));
      ItemRoundTrip(first, s, pos);
      StreamRoundTrip(rest, s, next);
      TailOfStream(items);
      DecodeStreamStep(ShapesOf(items), s, pos, Canonical(first), next, CanonicalAll(rest),
          next + |StreamBits(rest, next)|);
    }
  }
}
