/**
  Arrays: the four traversals of an array (size, offsets, write, read), packed and not packed, for all array types.

  An array is laid out as the number of its elements, for the types that store it, followed by one chunk of bits for
  each element; the chunks of aligned arrays start at byte boundaries. Every traversal is proved against this layout.
*/
module Arrays {
  import opened Bits
  import opened Streams
  import opened VarInt
  import opened Items
  import opened Writer
  import opened Reader
  import opened DeltaPacking
  import opened Serialization

  datatype ArrayType = Normal | Implicit | Aligned | Auto | AlignedAuto
  {
    predicate IsAligned() {
      Aligned? || AlignedAuto?
    }

    predicate IsAuto() {
      Auto? || AlignedAuto?
    }
  }

  // ----- layout -----

  function LengthBits(kind: ArrayType, n: nat): seq<bool>
    requires n <= VARSIZE_MAX_VALUE
  {
    if kind.IsAuto() then SizeBits(n) else []
  }

  /** What is skipped before an element at `pos`. */
  function Gap(aligned: bool, pos: nat): (b: seq<bool>)
    ensures aligned ==> (pos + |b|) % 8 == 0
  {
    if aligned then Zeros(Padding(pos, 8)) else []
  }

  function Layout(aligned: bool, chunks: seq<seq<bool>>, pos: nat): seq<bool> {
    if chunks == [] then []
    else
      var front := Layout(aligned, chunks[..|chunks| - 1], pos);
      front + (Gap(aligned, pos + |front|) + chunks[|chunks| - 1])
  }

  function ArrayBits(kind: ArrayType, chunks: seq<seq<bool>>, pos: nat): seq<bool>
    requires |chunks| <= VARSIZE_MAX_VALUE
  {
    var length := LengthBits(kind, |chunks|);
    length + Layout(kind.IsAligned(), chunks, pos + |length|)
  }

  /** Position where the first `i` elements end. */
  function EndOf(aligned: bool, chunks: seq<seq<bool>>, i: nat, pos: nat): nat
    requires i <= |chunks|
  {
    pos + |Layout(aligned, chunks[..i], pos)|
  }

  /** Position where element `i` starts. */
  function StartOf(aligned: bool, chunks: seq<seq<bool>>, i: nat, pos: nat): nat
    requires i < |chunks|
  {
    var end := EndOf(aligned, chunks, i, pos);
    end + |Gap(aligned, end)|
  }

  lemma LayoutStep(aligned: bool, chunks: seq<seq<bool>>, i: nat, pos: nat)
    requires i < |chunks|
    ensures var front := Layout(aligned, chunks[..i], pos);
            Layout(aligned, chunks[..i + 1], pos) == front + (Gap(aligned, pos + |front|) + chunks[i])
    ensures EndOf(aligned, chunks, i + 1, pos) == StartOf(aligned, chunks, i, pos) + |chunks[i]|
  {
    hide Gap;
    assert chunks[..i + 1][..i] == chunks[..i];
  }

  lemma {:induction false} LayoutPrefix(aligned: bool, chunks: seq<seq<bool>>, i: nat, pos: nat)
    requires i <= |chunks|
    ensures Layout(aligned, chunks[..i], pos) <= Layout(aligned, chunks, pos)
    decreases |chunks| - i
  {
    hide Gap, Layout;
    if i == |chunks| {
      assert chunks[..i] == chunks;
    } else {
      LayoutStep(aligned, chunks, i, pos);
      LayoutPrefix(aligned, chunks, i + 1, pos);
    }
  }

  /** A stream that holds the layout holds every chunk at its start, after the gap. */
  lemma LayoutHolds(aligned: bool, chunks: seq<seq<bool>>, i: nat, s: seq<bool>, pos: nat)
    requires i < |chunks| && Holds(s, pos, Layout(aligned, chunks, pos))
    ensures var end := EndOf(aligned, chunks, i, pos);
            && Holds(s, end, Gap(aligned, end))
            && Holds(s, StartOf(aligned, chunks, i, pos), chunks[i])
  {
    hide Gap, Layout, Holds;
    var front := Layout(aligned, chunks[..i], pos);
    LayoutStep(aligned, chunks, i, pos);
    LayoutPrefix(aligned, chunks, i + 1, pos);
    var whole, part := Layout(aligned, chunks, pos), Layout(aligned, chunks[..i + 1], pos);
    assert whole == part + whole[|part|..];
    HoldsConcat(s, pos, part, whole[|part|..]);
    HoldsConcat(s, pos, front, Gap(aligned, pos + |front|) + chunks[i]);
    HoldsConcat(s, pos + |front|, Gap(aligned, pos + |front|), chunks[i]);
  }

  /** The chunks one after the other. */
  function Concatenated(chunks: seq<seq<bool>>): seq<bool> {
    if chunks == [] then [] else chunks[0] + Concatenated(chunks[1..])
  }

  lemma {:induction false} ConcatenatedLast(chunks: seq<seq<bool>>)
    requires chunks != []
    ensures Concatenated(chunks) == Concatenated(chunks[..|chunks| - 1]) + chunks[|chunks| - 1]
    decreases |chunks|
  {
    if |chunks| > 1 {
      ConcatenatedLast(chunks[1..]);
      assert chunks[1..][..|chunks| - 2] == chunks[..|chunks| - 1][1..];
    }
  }

  lemma {:induction false} LayoutWithoutGaps(chunks: seq<seq<bool>>, pos: nat)
    ensures Layout(false, chunks, pos) == Concatenated(chunks)
    decreases |chunks|
  {
    if chunks != [] {
      var front := chunks[..|chunks| - 1];
      LayoutWithoutGaps(front, pos);
      ConcatenatedLast(chunks);
      assert Gap(false, pos + |Layout(false, front, pos)|) + chunks[|chunks| - 1] == chunks[|chunks| - 1];
    }
  }

  /** Arrays that are not aligned: what is stored of the length, and the elements one after the other. */
  lemma PlainArray(kind: ArrayType, chunks: seq<seq<bool>>, pos: nat)
    requires |chunks| <= VARSIZE_MAX_VALUE
    ensures kind == Normal || kind == Implicit ==> ArrayBits(kind, chunks, pos) == Concatenated(chunks)
    ensures kind == Auto ==> ArrayBits(kind, chunks, pos) == SizeBits(|chunks|) + Concatenated(chunks)
  {
    hide Layout, SizeBits;
    LayoutWithoutGaps(chunks, pos + |LengthBits(kind, |chunks|)|);
  }

  /**
    Aligned arrays: what is stored of the length, and every element at the first byte boundary after the previous one,
    with zeros in between.
  */
  lemma AlignedArray(kind: ArrayType, chunks: seq<seq<bool>>, i: nat, s: seq<bool>, pos: nat)
    requires (kind == Aligned || kind == AlignedAuto) && i < |chunks| <= VARSIZE_MAX_VALUE
    requires Holds(s, pos, ArrayBits(kind, chunks, pos))
    ensures var length := if kind == Aligned then [] else SizeBits(|chunks|);
            var end := EndOf(true, chunks, i, pos + |length|);
            var start := StartOf(true, chunks, i, pos + |length|);
            && Holds(s, pos, length)
            && (if i == 0 then end == pos + |length|
                else end == StartOf(true, chunks, i - 1, pos + |length|) + |chunks[i - 1]|)
            && end <= start < end + 8 && start % 8 == 0
            && Holds(s, end, Zeros(start - end)) && Holds(s, start, chunks[i])
  {
    hide Layout, SizeBits, Holds;
    var length := LengthBits(kind, |chunks|);
    HoldsConcat(s, pos, length, Layout(true, chunks, pos + |length|));
    LayoutHolds(true, chunks, i, s, pos + |length|);
    NothingCounted(true, chunks, pos + |length|);
    if i > 0 {
      LayoutStep(true, chunks, i - 1, pos + |length|);
    }
  }

  // ----- elements -----

  /** Values an array can have as elements. */
  predicate IsElement(item: Item) {
    Writable(item) && !item.Alignment?
  }

  predicate AllElements(items: seq<Item>) {
    |items| <= VARSIZE_MAX_VALUE && forall i :: 0 <= i < |items| ==> IsElement(items[i])
  }

  function ItemChunk(item: Item): seq<bool>
    requires IsElement(item)
  {
    ItemBits(item, 0)
  }

  lemma ChunkAnywhere(item: Item, pos: nat)
    requires IsElement(item)
    ensures ItemBits(item, pos) == ItemChunk(item)
  {
  }

  function ItemChunks(items: seq<Item>): (chunks: seq<seq<bool>>)
    requires AllElements(items)
    ensures |chunks| == |items|
  {
    seq(|items|, i requires 0 <= i < |items| => ItemChunk(items[i]))
  }

  predicate AllPackable(t: NumType, elems: seq<int>) {
    |elems| <= VARSIZE_MAX_VALUE && AllOf(t, elems)
  }

  function PackedChunks(t: NumType, elems: seq<int>): (chunks: seq<seq<bool>>)
    requires AllPackable(t, elems)
    ensures |chunks| == |elems|
  {
    seq(|elems|, i requires 0 <= i < |elems| => ElementBits(t, elems, i))
  }

  /** Arrays have up to 2^31 - 1 elements. */
  lemma LongestArray(n: nat)
    ensures AllElements(seq(n, _ => Flag(false))) <==> n <= 0x7FFF_FFFF
    ensures AllPackable(BoolType, seq(n, _ => 0)) <==> n <= 0x7FFF_FFFF
  {
  }

  // ----- sizes, in 32 bits -----

  /** Next multiple of the alignment, computed in 32 bits. */
  function AlignTo(alignmentValue: nat, bitPosition: nat): nat {
    if bitPosition > 0 && alignmentValue != 0
    then Truncate(((bitPosition - 1) / alignmentValue + 1) * alignmentValue, 32)
    else bitPosition
  }

  /** It is the least multiple of the alignment from the position on, as long as that is below 2^32. */
  lemma AlignToIsLeast(alignment: nat, pos: nat, multiple: nat)
    requires alignment > 0 && pos + Padding(pos, alignment) < TWO_TO_32
    ensures var r := AlignTo(alignment, pos);
            && r % alignment == 0 && pos <= r == pos + Padding(pos, alignment)
            && (pos <= multiple && multiple % alignment == 0 ==> r <= multiple)
  {
    hide Truncate;
    AlignUp(alignment, pos);
    SmallWrap(pos + Padding(pos, alignment));
    if pos <= multiple && multiple % alignment == 0 {
      PaddedIsLeast(alignment, pos, multiple);
    }
  }

  lemma PaddedIsLeast(a: nat, pos: nat, multiple: nat)
    requires a > 0 && pos <= multiple && multiple % a == 0
    ensures pos + Padding(pos, a) <= multiple
  {
    var q, r, k := pos / a, pos % a, multiple / a;
    assert pos == q * a + r && multiple == k * a;
    if r > 0 {
      NoMultipleBetween(a, q, r, k);
      assert (q + 1) * a == q * a + a;
    }
  }

  lemma NoMultipleBetween(a: nat, q: nat, r: nat, k: nat)
    requires 0 < r < a && q * a + r <= k * a
    ensures (q + 1) * a <= k * a
  {
    if k <= q {
      Scaled(k, q, a);
    } else {
      Scaled(q + 1, k, a);
    }
  }

  lemma Scaled(m: nat, n: nat, a: nat)
    requires m <= n
    ensures m * a <= n * a
  {
  }

  predicate Commutes(alignment: nat, pos: nat)
    requires alignment > 0
  {
    AlignTo(alignment, Truncate(pos, 32)) == Truncate(pos + Padding(pos, alignment), 32)
  }

  /** Aligning positions that have wrapped around gives the aligned positions, wrapped around, iff it divides 2^32. */
  lemma AlignWrappedIff(alignment: nat)
    requires 0 < alignment < TWO_TO_32
    ensures (forall pos: nat :: Commutes(alignment, pos)) <==> TWO_TO_32 % alignment == 0
  {
    hide Commutes;
    if TWO_TO_32 % alignment == 0 {
      forall pos: nat
        ensures Commutes(alignment, pos)
      {
        AlignDivisorWrapped(alignment, pos);
      }
    } else {
      AlignLost(alignment);
      assert !Commutes(alignment, TWO_TO_32);
    }
  }

  lemma AlignLost(alignment: nat)
    requires 0 < alignment < TWO_TO_32 && TWO_TO_32 % alignment != 0
    ensures AlignTo(alignment, Truncate(TWO_TO_32, 32)) == 0
    ensures Truncate(TWO_TO_32 + Padding(TWO_TO_32, alignment), 32) == Padding(TWO_TO_32, alignment) > 0
    ensures !Commutes(alignment, TWO_TO_32)
  {
    hide Truncate;
    WrapMultiple(1, 0);
    WrapMultiple(1, Padding(TWO_TO_32, alignment));
    SmallWrap(0);
    SmallWrap(Padding(TWO_TO_32, alignment));
  }

  /** All powers of two divide it. */
  lemma PowerDivides(k: nat)
    requires k <= 32
    ensures TWO_TO_32 % Pow2(k) == 0
  {
    Powers();
    Pow2Sum(32 - k, k);
    ModIsRemainder(TWO_TO_32, Pow2(k), Pow2(32 - k), 0);
  }

  lemma AlignDivisorWrapped(alignment: nat, pos: nat)
    requires alignment > 0 && TWO_TO_32 % alignment == 0
    ensures Commutes(alignment, pos)
  {
    hide Padding, Truncate;
    var p, high := pos % TWO_TO_32, pos / TWO_TO_32;
    assert pos == high * TWO_TO_32 + p;
    WrapMultiple(high, p);
    SmallWrap(p);
    AlignUp(alignment, p);
    SamePadding(alignment, high, p);
    WrapMultiple(high, p + Padding(p, alignment));
    if p == 0 {
      SmallWrap(0);
    }
  }

  /** The alignment of array elements. */
  lemma AlignWrapped(pos: nat)
    ensures AlignTo(8, Truncate(pos, 32)) == Truncate(pos + |Gap(true, pos)|, 32)
  {
    AlignDivisorWrapped(8, pos);
  }

  lemma SamePadding(a: nat, high: nat, p: nat)
    requires a > 0 && TWO_TO_32 % a == 0
    ensures Padding(high * TWO_TO_32 + p, a) == Padding(p, a)
  {
    var d := TWO_TO_32 / a;
    DivisorTimes(TWO_TO_32, a);
    Associate(high, d, a);
    AddMultiple(p, high * d, a);
  }

  lemma DivisorTimes(n: nat, a: nat)
    requires a > 0 && n % a == 0
    ensures n == n / a * a
  {
  }

  lemma Associate(x: nat, y: nat, z: nat)
    ensures x * (y * z) == (x * y) * z
  {
  }

  lemma AlignUp(a: nat, p: nat)
    requires a > 0
    ensures p > 0 ==> ((p - 1) / a + 1) * a == p + Padding(p, a)
    ensures p == 0 ==> Padding(p, a) == 0
    ensures (p + Padding(p, a)) % a == 0
  {
    var q, r := p / a, p % a;
    assert p == q * a + r;
    if r > 0 {
      ModIsRemainder(p - 1, a, q, r - 1);
      assert (q + 1) * a == q * a + a;
      ModIsRemainder(p + Padding(p, a), a, q + 1, 0);
    } else if p > 0 {
      assert (q - 1) * a == q * a - a;
      ModIsRemainder(p - 1, a, q - 1, a - 1);
    }
  }

  lemma WrapMultiple(high: nat, v: nat)
    ensures Truncate(high * TWO_TO_32 + v, 32) == Truncate(v, 32)
  {
    Powers();
    AddMultiple(v, high, TWO_TO_32);
  }

  /** Adding positions that have wrapped around. */
  lemma AddWrapped(a: int, b: int)
    ensures Truncate(Truncate(a, 32) + Truncate(b, 32), 32) == Truncate(a + b, 32)
  {
    AddTruncated(a, Truncate(b, 32), 32);
    AddTruncated(b, a, 32);
  }

  lemma SubtractWrapped(a: nat, b: nat)
    requires b <= a && b < TWO_TO_32
    ensures Truncate(Truncate(a, 32) - b, 32) == Truncate(a - b, 32)
  {
    AddTruncated(a, 0 - b, 32);
  }

  lemma SmallWrap(v: nat)
    requires v < TWO_TO_32
    ensures Truncate(v, 32) == v
  {
    Powers();
    SmallTruncate(v, 32);
  }

  lemma SizeOfLength(n: nat)
    requires n <= VARSIZE_MAX_VALUE
    ensures InRange(VarSize, n) && |SizeBits(n)| == 8 * VarBytes(VarSize, n) <= 40
  {
    SizeInRange(n);
  }

  /** Size of a length; `None` stands for the exception thrown when it is out of range. */
  method BitSizeOfLength(n: nat) returns (bitSize: Option<nat>)
    ensures bitSize == if n <= VARSIZE_MAX_VALUE then Some(|SizeBits(n)|) else None
    ensures n <= VARSIZE_MAX_VALUE ==> |SizeBits(n)| == Truncate(|SizeBits(n)|, 32)
  {
    hide SizeBits, InRange, Truncate;
    if n <= VARSIZE_MAX_VALUE {
      SizeOfLength(n);
      SmallWrap(|SizeBits(n)|);
    } else {
      TooLong(n);
    }
    bitSize := VarInt.BitSizeOf(VarSize, n);
  }

  lemma TooLong(n: nat)
    requires n > VARSIZE_MAX_VALUE
    ensures !InRange(VarSize, n)
  {
    Powers();
  }

  /** What the C++ type of an element guarantees. */
  predicate Typed(item: Item) {
    !item.Alignment? && (item.Variable? ==> item.varType.Signed() || item.number >= 0)
  }

  /** The elements that have a size: fixed-width numbers are not checked. */
  predicate Sizable(item: Item) {
    match item
    case Variable(varType, value) => InRange(varType, value)
    case Bytes(bytes) => |bytes| <= VARSIZE_MAX_VALUE
    case Text(chars) => |chars| <= VARSIZE_MAX_VALUE
    case BitString(_, size) => size <= VARSIZE_MAX_VALUE
    case _ => true
  }

  lemma ElementsAreSizable(item: Item)
    requires IsElement(item)
    ensures Typed(item) && Sizable(item)
  {
  }

  /** Size of an element: a 32-bit number, also for bytes whose size does not fit. */
  method BitSizeOfElement(item: Item) returns (bitSize: Option<nat>)
    requires Typed(item)
    ensures bitSize.Some? <==> Sizable(item)
    ensures IsElement(item) ==> bitSize == Some(Truncate(|ItemChunk(item)|, 32))
  {
    hide SizeBits, ToBits, BytesToBits, InRange, EncodeVar, Truncate;
    match item {
      case Unsigned(numBits, _) => bitSize := Some(numBits); WidthWrap(item);
      case Signed(numBits, _) => bitSize := Some(numBits); WidthWrap(item);
      case Flag(_) => bitSize := Some(1); SmallWrap(1);
      case Variable(varType, value) =>
        bitSize := VarInt.BitSizeOf(varType, value);
        if InRange(varType, value) {
          SmallWrap(bitSize.value);
        }
      case Bytes(bytes) => bitSize := BitSizeOfBytes(|bytes|);
      case Text(chars) => bitSize := BitSizeOfBytes(|chars|);
      case BitString(_, size) =>
        bitSize := BitSizeOfLength(size);
        if bitSize.Some? {
          bitSize := Some(Truncate(bitSize.value + size, 32));
        }
    }
  }

  lemma WidthWrap(item: Item)
    requires item.Unsigned? || item.Signed?
    ensures IsElement(item) ==> Truncate(item.numBits, 32) == item.numBits
  {
    hide Truncate;
    if IsElement(item) {
      SmallWrap(item.numBits);
    }
  }

  method BitSizeOfBytes(n: nat) returns (bitSize: Option<nat>)
    ensures if n <= VARSIZE_MAX_VALUE then bitSize == Some(Truncate(|SizeBits(n)| + 8 * n, 32)) else bitSize == None
  {
    hide SizeBits, Truncate;
    bitSize := BitSizeOfLength(n);
    if bitSize.Some? {
      AddWrapped(|SizeBits(n)|, n * 8);
      bitSize := Some(Truncate(bitSize.value + Truncate(n * 8, 32), 32));
    }
  }

  /** One more element has been counted. */
  lemma CountedOneMore(aligned: bool, chunks: seq<seq<bool>>, i: nat, pos: nat)
    requires i < |chunks|
    ensures var end := Truncate(EndOf(aligned, chunks, i, pos), 32);
            var start := if aligned then AlignTo(8, end) else end;
            && start == Truncate(StartOf(aligned, chunks, i, pos), 32)
            && Truncate(start + Truncate(|chunks[i]|, 32), 32) == Truncate(EndOf(aligned, chunks, i + 1, pos), 32)
            && Truncate(start + |chunks[i]|, 32) == Truncate(EndOf(aligned, chunks, i + 1, pos), 32)
  {
    hide Layout, Truncate, AlignTo;
    LayoutStep(aligned, chunks, i, pos);
    AlignWrapped(EndOf(aligned, chunks, i, pos));
    AddWrapped(StartOf(aligned, chunks, i, pos), |chunks[i]|);
    AddTruncated(StartOf(aligned, chunks, i, pos), |chunks[i]|, 32);
  }

  /** What a size or offset traversal returns for the end position it has reached. */
  lemma CountedAll(kind: ArrayType, chunks: seq<seq<bool>>, pos: nat)
    requires |chunks| <= VARSIZE_MAX_VALUE && pos < TWO_TO_32
    ensures var first := pos + |LengthBits(kind, |chunks|)|;
            Truncate(Truncate(EndOf(kind.IsAligned(), chunks, |chunks|, first), 32) - pos, 32)
            == Truncate(|ArrayBits(kind, chunks, pos)|, 32)
  {
    hide Layout, LengthBits, Truncate;
    assert chunks[..|chunks|] == chunks;
    var first := pos + |LengthBits(kind, |chunks|)|;
    SubtractWrapped(EndOf(kind.IsAligned(), chunks, |chunks|, first), pos);
  }

  /** Position of the first element. */
  method SkipLength(kind: ArrayType, n: nat, bitPosition: nat) returns (endBitPosition: Option<nat>)
    requires bitPosition < TWO_TO_32
    ensures endBitPosition == None <==> kind.IsAuto() && n > VARSIZE_MAX_VALUE
    ensures n <= VARSIZE_MAX_VALUE ==> endBitPosition == Some(Truncate(bitPosition + |LengthBits(kind, n)|, 32))
  {
    hide SizeBits, Truncate;
    SmallWrap(bitPosition);
    if kind.IsAuto() {
      var size := BitSizeOfLength(n);
      if size == None {
        return None;
      }
      return Some(Truncate(bitPosition + size.value, 32));
    }
    return Some(bitPosition);
  }

  lemma NothingCounted(aligned: bool, chunks: seq<seq<bool>>, pos: nat)
    ensures EndOf(aligned, chunks, 0, pos) == pos
  {
  }

  /** What has been counted before element `i` of an array that can be written. */
  ghost predicate Counted(kind: ArrayType, elems: seq<Item>, i: nat, bitPosition: nat, endBitPosition: nat) {
    AllElements(elems) && i <= |elems| ==>
      endBitPosition == Truncate(EndOf(kind.IsAligned(), ItemChunks(elems), i,
                                       bitPosition + |LengthBits(kind, |elems|)|), 32)
  }

  lemma CountedNone(kind: ArrayType, elems: seq<Item>, bitPosition: nat, endBitPosition: nat)
    requires |elems| <= VARSIZE_MAX_VALUE ==>
               endBitPosition == Truncate(bitPosition + |LengthBits(kind, |elems|)|, 32)
    ensures Counted(kind, elems, 0, bitPosition, endBitPosition)
  {
    hide Truncate, LengthBits;
    if AllElements(elems) {
      NothingCounted(kind.IsAligned(), ItemChunks(elems), bitPosition + |LengthBits(kind, |elems|)|);
    }
  }

  lemma CountedStep(kind: ArrayType, elems: seq<Item>, i: nat, bitPosition: nat, end: nat, size: nat)
    requires i < |elems| && Counted(kind, elems, i, bitPosition, end)
    requires IsElement(elems[i]) ==> size == Truncate(|ItemChunk(elems[i])|, 32)
    ensures var start := if kind.IsAligned() then AlignTo(8, end) else end;
            Counted(kind, elems, i + 1, bitPosition, Truncate(start + size, 32))
  {
    hide Truncate, LengthBits, AlignTo, ItemChunk, EndOf, StartOf, IsElement;
    if AllElements(elems) {
      CountedOneMore(kind.IsAligned(), ItemChunks(elems), i, bitPosition + |LengthBits(kind, |elems|)|);
    }
  }

  /**
    The size of an array is the number of bits its layout takes at the position, as a 32-bit number; `None` stands for
    the exception thrown when the length that is stored or an element has no size.
  */
  method BitSizeOf(kind: ArrayType, elems: seq<Item>, bitPosition: nat) returns (bitSize: Option<nat>)
    requires (forall i :: 0 <= i < |elems| ==> Typed(elems[i])) && bitPosition < TWO_TO_32
    ensures bitSize == None
            <==> (kind.IsAuto() && |elems| > VARSIZE_MAX_VALUE) || exists i :: 0 <= i < |elems| && !Sizable(elems[i])
    ensures AllElements(elems) ==> bitSize == Some(Truncate(|ArrayBits(kind, ItemChunks(elems), bitPosition)|, 32))
  {
    hide Layout, LengthBits, ArrayBits, ItemChunk, IsElement, Truncate, AlignTo, StartOf, EndOf, Counted, Typed;
    hide Sizable;
    AllSizable(elems);
    var skipped := SkipLength(kind, |elems|, bitPosition);
    if skipped == None {
      assert !AllElements(elems);
      return None;
    }
    var endBitPosition: nat := skipped.value;
    CountedNone(kind, elems, bitPosition, endBitPosition);
    for i := 0 to |elems|
      invariant Counted(kind, elems, i, bitPosition, endBitPosition)
      invariant forall j :: 0 <= j < i ==> Sizable(elems[j])
    {
      ghost var end := endBitPosition;
      if kind.IsAligned() {
        endBitPosition := AlignTo(8, endBitPosition);
      }
      var size := BitSizeOfElement(elems[i]);
      if size == None {
        return None;
      }
      CountedStep(kind, elems, i, bitPosition, end, size.value);
      endBitPosition := Truncate(endBitPosition + size.value, 32);
    }
    CountedTotal(kind, elems, bitPosition, endBitPosition);
    return Some(Truncate(endBitPosition - bitPosition, 32));
  }

  lemma AllSizable(elems: seq<Item>)
    ensures AllElements(elems) ==> forall i :: 0 <= i < |elems| ==> Sizable(elems[i])
  {
    hide IsElement, Sizable;
    if AllElements(elems) {
      forall i | 0 <= i < |elems| ensures Sizable(elems[i]) {
        ElementsAreSizable(elems[i]);
      }
    }
  }

  lemma AllTyped(elems: seq<Item>)
    requires AllElements(elems)
    ensures forall i :: 0 <= i < |elems| ==> Typed(elems[i])
  {
  }

  lemma CountedTotal(kind: ArrayType, elems: seq<Item>, bitPosition: nat, end: nat)
    requires Counted(kind, elems, |elems|, bitPosition, end) && bitPosition < TWO_TO_32
    ensures AllElements(elems) ==>
              Truncate(end - bitPosition, 32) == Truncate(|ArrayBits(kind, ItemChunks(elems), bitPosition)|, 32)
  {
    hide Truncate, LengthBits, ArrayBits, EndOf, IsElement;
    if AllElements(elems) {
      CountedAll(kind, ItemChunks(elems), bitPosition);
    }
  }

  /** The byte offsets the offset setter must be given. */
  ghost predicate OffsetsRecorded(offsets: seq<nat>, aligned: bool, chunks: seq<seq<bool>>, n: nat, pos: nat)
    requires n <= |chunks|
  {
    && |offsets| == (if aligned then n else 0)
    && forall i {:trigger offsets[i]} :: 0 <= i < |offsets| ==>
         offsets[i] == Truncate(StartOf(aligned, chunks, i, pos), 32) / 8
  }

  /** The traversal that records where the elements start reaches the same position as the one that sizes them. */
  method InitializeOffsets(kind: ArrayType, elems: seq<Item>, bitPosition: nat)
    returns (bitSize: nat, offsets: seq<nat>)
    requires AllElements(elems) && bitPosition < TWO_TO_32
    ensures bitSize == Truncate(|ArrayBits(kind, ItemChunks(elems), bitPosition)|, 32)
    ensures OffsetsRecorded(offsets, kind == Aligned || kind == AlignedAuto, ItemChunks(elems), |elems|,
                            bitPosition + |LengthBits(kind, |elems|)|)
  {
    hide Layout, LengthBits, ArrayBits, ItemChunk, IsElement, Truncate, AlignTo, StartOf, EndOf;
    ghost var aligned, chunks := kind.IsAligned(), ItemChunks(elems);
    ghost var first := bitPosition + |LengthBits(kind, |elems|)|;
    offsets := [];
    var skipped := SkipLength(kind, |elems|, bitPosition);
    var endBitPosition: nat := skipped.value;
    NothingCounted(aligned, chunks, first);
    for i := 0 to |elems|
      invariant endBitPosition == Truncate(EndOf(aligned, chunks, i, first), 32)
      invariant OffsetsRecorded(offsets, aligned, chunks, i, first)
    {
      CountedOneMore(aligned, chunks, i, first);
      if kind.IsAligned() {
        endBitPosition := AlignTo(8, endBitPosition);
        offsets := offsets + [endBitPosition / 8];
      }
      ElementsAreSizable(elems[i]);
      var size := BitSizeOfElement(elems[i]);
      endBitPosition := Truncate(endBitPosition + size.value, 32);
    }
    CountedAll(kind, chunks, bitPosition);
    bitSize := Truncate(endBitPosition - bitPosition, 32);
  }

  // ----- packed sizes -----

  /** The initialization pass over all elements. */
  method InitContext(t: NumType, elems: seq<int>) returns (context: DeltaContext)
    requires AllPackable(t, elems)
    ensures fresh(context) && context.Initialized(t, elems)
  {
    hide LargestDelta, NumType.Has, NumType.BitSizeOf, UnpackedBitSize, DeltaContext.Seen;
    context := new DeltaContext();
    for i := 0 to |elems|
      invariant context.Initialized(t, elems[..i])
    {
      assert elems[..i + 1] == elems[..i] + [elems[i]];
      context.Init(t, elems[i], elems[..i]);
    }
    assert elems[..|elems|] == elems;
  }

  method BitSizeOfPacked(kind: ArrayType, t: NumType, elems: seq<int>, bitPosition: nat) returns (bitSize: nat)
    requires AllPackable(t, elems) && bitPosition < TWO_TO_32 && !kind.Implicit?
    ensures bitSize == Truncate(|ArrayBits(kind, PackedChunks(t, elems), bitPosition)|, 32)
  {
    hide Layout, LengthBits, ArrayBits, ElementBits, Truncate, AlignTo, StartOf, EndOf, DeltaContext.Sizing,
      DeltaContext.Initialized, NumType.Has;
    ghost var aligned, chunks := kind.IsAligned(), PackedChunks(t, elems);
    ghost var first := bitPosition + |LengthBits(kind, |elems|)|;
    var skipped := SkipLength(kind, |elems|, bitPosition);
    var endBitPosition: nat := skipped.value;
    NothingCounted(aligned, chunks, first);
    if |elems| > 0 {
      var context := InitContext(t, elems);
      PassIsOver(context, t, elems);
      for i := 0 to |elems|
        invariant fresh(context) && context.Sizing(t, elems, i)
        invariant endBitPosition == Truncate(EndOf(aligned, chunks, i, first), 32)
      {
        CountedOneMore(aligned, chunks, i, first);
        if kind.IsAligned() {
          endBitPosition := AlignTo(8, endBitPosition);
        }
        var size := context.BitSizeOf(t, elems[i], elems, i);
        endBitPosition := Truncate(endBitPosition + size, 32);
      }
    }
    CountedAll(kind, chunks, bitPosition);
    return Truncate(endBitPosition - bitPosition, 32);
  }

  method InitializeOffsetsPacked(kind: ArrayType, t: NumType, elems: seq<int>, bitPosition: nat)
    returns (bitSize: nat, offsets: seq<nat>)
    requires AllPackable(t, elems) && bitPosition < TWO_TO_32 && !kind.Implicit?
    ensures bitSize == Truncate(|ArrayBits(kind, PackedChunks(t, elems), bitPosition)|, 32)
    ensures OffsetsRecorded(offsets, kind == Aligned || kind == AlignedAuto, PackedChunks(t, elems), |elems|,
                            bitPosition + |LengthBits(kind, |elems|)|)
  {
    hide Layout, LengthBits, ArrayBits, ElementBits, Truncate, AlignTo, StartOf, EndOf, DeltaContext.Sizing,
      DeltaContext.Initialized, NumType.Has;
    ghost var aligned, chunks := kind.IsAligned(), PackedChunks(t, elems);
    ghost var first := bitPosition + |LengthBits(kind, |elems|)|;
    offsets := [];
    var skipped := SkipLength(kind, |elems|, bitPosition);
    var endBitPosition: nat := skipped.value;
    NothingCounted(aligned, chunks, first);
    if |elems| > 0 {
      var context := InitContext(t, elems);
      PassIsOver(context, t, elems);
      for i := 0 to |elems|
        invariant fresh(context) && context.Sizing(t, elems, i)
        invariant endBitPosition == Truncate(EndOf(aligned, chunks, i, first), 32)
        invariant OffsetsRecorded(offsets, aligned, chunks, i, first)
      {
        CountedOneMore(aligned, chunks, i, first);
        if kind.IsAligned() {
          endBitPosition := AlignTo(8, endBitPosition);
          offsets := offsets + [endBitPosition / 8];
        }
        var size := context.BitSizeOf(t, elems[i], elems, i);
        endBitPosition := Truncate(endBitPosition + size, 32);
      }
    }
    CountedAll(kind, chunks, bitPosition);
    bitSize := Truncate(endBitPosition - bitPosition, 32);
  }

  // ----- writing -----

  method WriteLength(writer: BitStreamWriter, kind: ArrayType, n: nat) returns (r: WriteResult)
    requires writer.Valid() && n <= VARSIZE_MAX_VALUE
    modifies writer`bitIndex, writer.buffer
    ensures writer.Wrote(r, LengthBits(kind, n))
  {
    hide BytesToBits, Splice, BitStreamWriter.AppendedPrefix, EncodeVar, InRange;
    if kind.IsAuto() {
      SizeBitsAre(n);
      r := writer.WriteVar(VarSize, n);
    } else {
      writer.NothingWrittenYet();
      EmptyBits();
      r := Written;
    }
  }

  lemma EmptyBits()
    ensures BytesToBits([]) == []
  {
  }

  lemma PaddingIsShort(pos: nat)
    ensures Padding(pos, 8) % 256 == Padding(pos, 8) < 8
  {
  }

  method WriteGap(writer: BitStreamWriter, aligned: bool) returns (r: WriteResult)
    requires writer.Valid()
    modifies writer`bitIndex, writer.buffer
    ensures writer.Wrote(r, Gap(aligned, old(writer.bitIndex)))
  {
    hide BytesToBits, Splice, Zeros, BitStreamWriter.AppendedPrefix, Padding;
    if aligned {
      PaddingIsShort(writer.bitIndex);
      r := writer.AlignTo(8);
    } else {
      writer.NothingWrittenYet();
      EmptyBits();
      r := Written;
    }
  }

  /** What has been written before the elements from `i` on. */
  function WrittenSoFar(kind: ArrayType, chunks: seq<seq<bool>>, i: nat, pos: nat): seq<bool>
    requires i <= |chunks| <= VARSIZE_MAX_VALUE
  {
    var length := LengthBits(kind, |chunks|);
    length + Layout(kind.IsAligned(), chunks[..i], pos + |length|)
  }

  lemma WrittenStep(kind: ArrayType, chunks: seq<seq<bool>>, i: nat, pos: nat)
    requires i < |chunks| <= VARSIZE_MAX_VALUE
    ensures var done := WrittenSoFar(kind, chunks, i, pos);
            var gap := Gap(kind.IsAligned(), pos + |done|);
            && WrittenSoFar(kind, chunks, i + 1, pos) == (done + gap) + chunks[i]
            && WrittenSoFar(kind, chunks, i + 1, pos) == done + (gap + chunks[i])
            && WrittenSoFar(kind, chunks, i + 1, pos) <= ArrayBits(kind, chunks, pos)
  {
    hide Layout, Gap, LengthBits;
    var first := pos + |LengthBits(kind, |chunks|)|;
    LayoutStep(kind.IsAligned(), chunks, i, first);
    LayoutPrefix(kind.IsAligned(), chunks, i + 1, first);
    PrefixAppended(LengthBits(kind, |chunks|), Layout(kind.IsAligned(), chunks[..i + 1], first),
                   Layout(kind.IsAligned(), chunks, first));
  }

  lemma PrefixAppended<T>(a: seq<T>, b: seq<T>, c: seq<T>)
    requires b <= c
    ensures a + b <= a + c
  {
    assert a + c == (a + b) + c[|b|..];
  }

  lemma WrittenAll(kind: ArrayType, chunks: seq<seq<bool>>, pos: nat)
    requires |chunks| <= VARSIZE_MAX_VALUE
    ensures WrittenSoFar(kind, chunks, |chunks|, pos) == ArrayBits(kind, chunks, pos)
    ensures WrittenSoFar(kind, chunks, 0, pos) == LengthBits(kind, |chunks|) <= ArrayBits(kind, chunks, pos)
  {
    hide LengthBits;
    assert chunks[..|chunks|] == chunks;
    assert Layout(kind.IsAligned(), [], pos) == [];
  }

  /** A failed write of a part is a failed write of the whole. */
  lemma PartialWrite(w: BitStreamWriter, before: seq<bool>, pos: nat, part: seq<bool>, whole: seq<bool>)
    requires w.AppendedPrefix(before, pos, part) && part <= whole
    ensures w.AppendedPrefix(before, pos, whole)
  {
    hide BitStreamWriter.AppendedPrefix;
    assert whole == part + whole[|part|..];
    w.PrefixBefore(before, pos, part, whole[|part|..]);
  }

  /** The gap and the bits of one element. */
  method WriteElement(writer: BitStreamWriter, kind: ArrayType, elem: Item) returns (r: WriteResult)
    requires writer.Valid() && IsElement(elem) && Representable(elem)
    modifies writer`bitIndex, writer.buffer
    ensures writer.Wrote(r, Gap(kind.IsAligned(), old(writer.bitIndex)) + ItemChunk(elem))
  {
    hide ItemBits, Gap, BytesToBits, Splice, BitStreamWriter.AppendedPrefix, ItemChunk, Writable, Representable;
    ghost var before, pos := writer.Content(), writer.bitIndex;
    ghost var gap, chunk := Gap(kind.IsAligned(), pos), ItemChunk(elem);
    r := WriteGap(writer, kind.IsAligned());
    if r != Written {
      writer.PrefixBefore(before, pos, gap, chunk);
      return;
    }
    ghost var mid := writer.Content();
    ChunkAnywhere(elem, writer.bitIndex);
    r := writer.WriteItem(elem);
    if r.Written? {
      writer.AppendedAfter(before, pos, gap, mid, chunk);
    } else {
      writer.PrefixAfter(before, pos, gap, mid, chunk);
    }
  }

  /** Writing lays the array out at the position of the writer; it fails exactly when the layout does not fit. */
  method Write(writer: BitStreamWriter, kind: ArrayType, elems: seq<Item>) returns (r: WriteResult)
    requires writer.Valid() && AllElements(elems) && AllRepresentable(elems)
    modifies writer`bitIndex, writer.buffer
    ensures writer.Wrote(r, ArrayBits(kind, ItemChunks(elems), old(writer.bitIndex)))
  {
    hide Gap, BytesToBits, Splice, BitStreamWriter.AppendedPrefix, ItemChunk, IsElement, Representable, LengthBits,
      WrittenSoFar, ArrayBits;
    ghost var before, pos, chunks := writer.Content(), writer.bitIndex, ItemChunks(elems);
    ghost var whole := ArrayBits(kind, chunks, pos);
    WrittenAll(kind, chunks, pos);
    r := WriteLength(writer, kind, |elems|);
    if r != Written {
      PartialWrite(writer, before, pos, LengthBits(kind, |elems|), whole);
      return;
    }
    for i := 0 to |elems|
      invariant writer.Appended(before, pos, WrittenSoFar(kind, chunks, i, pos))
    {
      ghost var done, mid := WrittenSoFar(kind, chunks, i, pos), writer.Content();
      ghost var next := Gap(kind.IsAligned(), writer.bitIndex) + chunks[i];
      WrittenStep(kind, chunks, i, pos);
      r := WriteElement(writer, kind, elems[i]);
      if r != Written {
        writer.PrefixAfter(before, pos, done, mid, next);
        PartialWrite(writer, before, pos, done + next, whole);
        return;
      }
      writer.AppendedAfter(before, pos, done, mid, next);
    }
    r := Written;
  }

  method WritePackedElement(writer: BitStreamWriter, kind: ArrayType, context: DeltaContext, t: NumType, elem: int,
                            ghost elems: seq<int>, ghost i: nat)
    returns (r: WriteResult)
    requires writer.Valid()
    requires AllOf(t, elems) && i < |elems| && elem == elems[i] && context.Writing(t, elems, i)
    modifies context, writer`bitIndex, writer.buffer
    ensures writer.Wrote(r, Gap(kind.IsAligned(), old(writer.bitIndex)) + ElementBits(t, elems, i))
    ensures r.Written? ==> context.Writing(t, elems, i + 1)
  {
    hide Gap, BytesToBits, Splice, BitStreamWriter.AppendedPrefix, ElementBits, DeltaContext.Sizing, NumType.Has;
    ghost var before, pos := writer.Content(), writer.bitIndex;
    ghost var gap, chunk := Gap(kind.IsAligned(), pos), ElementBits(t, elems, i);
    r := WriteGap(writer, kind.IsAligned());
    if r != Written {
      writer.PrefixBefore(before, pos, gap, chunk);
      return;
    }
    ghost var mid := writer.Content();
    r := context.Write(writer, t, elem, elems, i);
    if r.Written? {
      writer.AppendedAfter(before, pos, gap, mid, chunk);
    } else {
      writer.PrefixAfter(before, pos, gap, mid, chunk);
    }
  }

  method WritePacked(writer: BitStreamWriter, kind: ArrayType, t: NumType, elems: seq<int>) returns (r: WriteResult)
    requires writer.Valid() && AllPackable(t, elems) && !kind.Implicit?
    modifies writer`bitIndex, writer.buffer
    ensures writer.Wrote(r, ArrayBits(kind, PackedChunks(t, elems), old(writer.bitIndex)))
  {
    hide Gap, BytesToBits, Splice, BitStreamWriter.AppendedPrefix, BitStreamWriter.Content, ElementBits, IsPacked;
    hide LengthBits, NumType.Has, WrittenSoFar, ArrayBits, Layout, DeltaContext.Sizing, DeltaContext.Seen;
    ghost var before, pos, chunks := writer.Content(), writer.bitIndex, PackedChunks(t, elems);
    ghost var whole := ArrayBits(kind, chunks, pos);
    WrittenAll(kind, chunks, pos);
    r := WriteLength(writer, kind, |elems|);
    if r != Written {
      PartialWrite(writer, before, pos, LengthBits(kind, |elems|), whole);
      return;
    }
    if |elems| > 0 {
      var context := InitContext(t, elems);
      PassIsOver(context, t, elems);
      for i := 0 to |elems|
        invariant fresh(context) && context.Writing(t, elems, i)
        invariant writer.Appended(before, pos, WrittenSoFar(kind, chunks, i, pos))
      {
        ghost var done, mid := WrittenSoFar(kind, chunks, i, pos), writer.Content();
        ghost var next := Gap(kind.IsAligned(), writer.bitIndex) + chunks[i];
        WrittenStep(kind, chunks, i, pos);
        r := WritePackedElement(writer, kind, context, t, elems[i], elems, i);
        if r != Written {
          writer.PrefixAfter(before, pos, done, mid, next);
          PartialWrite(writer, before, pos, done + next, whole);
          return;
        }
        writer.AppendedAfter(before, pos, done, mid, next);
      }
    }
    r := Written;
  }

  lemma PassIsOver(context: DeltaContext, t: NumType, elems: seq<int>)
    requires context.Initialized(t, elems)
    ensures context.Sizing(t, elems, 0) && context.Writing(t, elems, 0)
  {
  }

  // ----- reading -----

  /** Size of a default element, for the numeric types. */
  function ElementSize(shape: Shape): Option<nat> {
    match shape
    case UnsignedShape(numBits) => Some(numBits)
    case SignedShape(numBits) => Some(numBits)
    case FlagShape => Some(1)
    case VariableShape(_) => Some(8)
    case _ => None
  }

  predicate IsElementShape(kind: ArrayType, shape: Shape) {
    !shape.AlignmentShape? && (kind.Implicit? ==> ElementSize(shape).Some? && ElementSize(shape).value > 0)
  }

  /** Implicit arrays have numeric elements of at least one bit. */
  lemma ImplicitElements(shape: Shape)
    ensures IsElementShape(Implicit, shape)
            <==> shape == FlagShape || shape.VariableShape?
                 || ((shape.UnsignedShape? || shape.SignedShape?) && shape.numBits > 0)
    ensures forall kind :: kind != Implicit ==> (IsElementShape(kind, shape) <==> !shape.AlignmentShape?)
  {
  }

  function DecodeLength(kind: ArrayType, shape: Shape, arrayLength: nat, s: seq<bool>, pos: nat): Decoded<nat>
    requires IsElementShape(kind, shape) && pos <= |s|
  {
    match kind
    case Normal | Aligned => Decoded(arrayLength, pos)
    case Auto | AlignedAuto => Map(DecodeVar(VarSize, s, pos), (n: int) => if n < 0 then 0 else n)
    case Implicit => Decoded((|s| - pos) / ElementSize(shape).value, pos)
  }

  /** The check made before any element is read. */
  predicate FitsBuffer(shape: Shape, n: nat, s: seq<bool>, pos: nat) {
    ElementSize(shape).Some? ==> pos + n * ElementSize(shape).value <= |s|
  }

  function DecodeGap(aligned: bool, s: seq<bool>, pos: nat): Decoded<nat> {
    if aligned then Map(DecodeAlignment(s, pos, 8), item => 0) else Decoded(0, pos)
  }

  function DecodeElements(aligned: bool, shape: Shape, n: nat, s: seq<bool>, pos: nat): Decoded<seq<Item>>
    requires !shape.AlignmentShape?
  {
    if n == 0 then Decoded([], pos)
    else
      match DecodeElements(aligned, shape, n - 1, s, pos)
      case Failed(error) => Failed(error)
      case Decoded(front, end) =>
        match DecodeGap(aligned, s, end)
        case Failed(error) => Failed(error)
        case Decoded(_, start) => Map(DecodeItem(shape, s, start), item => front + [item])
  }

  function DecodeArray(kind: ArrayType, shape: Shape, arrayLength: nat, s: seq<bool>, pos: nat): Decoded<seq<Item>>
    requires IsElementShape(kind, shape) && pos <= |s|
  {
    match DecodeLength(kind, shape, arrayLength, s, pos)
    case Failed(error) => Failed(error)
    case Decoded(n, start) =>
      if FitsBuffer(shape, n, s, start) then DecodeElements(kind.IsAligned(), shape, n, s, start)
      else Failed(ArrayTooLong)
  }

  /** The elements of a packed array and what the context knows after them. */
  datatype PackedRead = PackedRead(elements: seq<int>, state: Option<ReadState>)

  function DecodePackedElement(t: NumType, state: Option<ReadState>, s: seq<bool>, pos: nat): Decoded<Step> {
    if state.None? then DecodeFirst(t, s, pos) else DecodeNext(t, state.value, s, pos)
  }

  function DecodePackedElements(aligned: bool, t: NumType, n: nat, s: seq<bool>, pos: nat): Decoded<PackedRead> {
    if n == 0 then Decoded(PackedRead([], None), pos)
    else
      match DecodePackedElements(aligned, t, n - 1, s, pos)
      case Failed(error) => Failed(error)
      case Decoded(front, end) =>
        match DecodeGap(aligned, s, end)
        case Failed(error) => Failed(error)
        case Decoded(_, start) =>
          Map(DecodePackedElement(t, front.state, s, start),
              (step: Step) => PackedRead(front.elements + [step.element], Some(step.state)))
  }

  function DecodePackedArray(kind: ArrayType, t: NumType, arrayLength: nat, s: seq<bool>, pos: nat): Decoded<seq<int>>
    requires !kind.Implicit? && pos <= |s|
  {
    match DecodeLength(kind, t.Shape(), arrayLength, s, pos)
    case Failed(error) => Failed(error)
    case Decoded(n, start) =>
      Map(DecodePackedElements(kind.IsAligned(), t, n, s, start), (read: PackedRead) => read.elements)
  }

  /** Reading fails with the first failure. */
  lemma {:induction false} FailsEarly(aligned: bool, shape: Shape, i: nat, n: nat, s: seq<bool>, pos: nat)
    requires i <= n && !shape.AlignmentShape? && DecodeElements(aligned, shape, i, s, pos).Failed?
    ensures DecodeElements(aligned, shape, n, s, pos) == DecodeElements(aligned, shape, i, s, pos)
    decreases n
  {
    hide DecodeItem, DecodeGap;
    if i < n {
      FailsEarly(aligned, shape, i, n - 1, s, pos);
    }
  }

  lemma {:induction false} PackedFailsEarly(aligned: bool, t: NumType, i: nat, n: nat, s: seq<bool>, pos: nat)
    requires i <= n && DecodePackedElements(aligned, t, i, s, pos).Failed?
    ensures DecodePackedElements(aligned, t, n, s, pos) == DecodePackedElements(aligned, t, i, s, pos)
    decreases n
  {
    hide DecodePackedElement, DecodeGap;
    if i < n {
      PackedFailsEarly(aligned, t, i, n - 1, s, pos);
    }
  }

  method ReadArrayLength(reader: BitStreamReader, kind: ArrayType, shape: Shape, arrayLength: nat)
    returns (r: ReadResult<nat>)
    requires reader.Valid() && IsElementShape(kind, shape)
    modifies reader
    ensures InStream(reader, old(reader.bitIndex))
    ensures reader.Agrees(r, DecodeLength(kind, shape, arrayLength, reader.Content(), old(reader.bitIndex)))
  {
    hide Caches, BitStreamReader.Content, DecodeVar;
    InStreamNow(reader);
    if kind == Normal || kind == Aligned {
      return Value(arrayLength);
    } else if kind.IsAuto() {
      LengthIsNatural(reader.Content(), reader.bitIndex);
      var size := reader.ReadVar(VarSize);
      if size.Error? {
        return Error(size.error);
      }
      return Value(size.value);
    } else {
      var remainingBits := reader.bufferBitSize - reader.bitIndex;
      return Value(remainingBits / ElementSize(shape).value);
    }
  }

  ghost predicate InStream(reader: BitStreamReader, pos: nat)
    reads reader
  {
    reader.WellFormed() && pos <= |reader.Content()|
  }

  lemma InStreamNow(reader: BitStreamReader)
    requires reader.Valid()
    ensures InStream(reader, reader.bitIndex)
  {
    CachesBounds(reader.Content(), reader.bitIndex, reader.cache, reader.cacheNumBits);
  }

  lemma LengthIsNatural(s: seq<bool>, pos: nat)
    ensures DecodeVar(VarSize, s, pos).Decoded? ==> DecodeVar(VarSize, s, pos).value >= 0
  {
  }

  method ReadGap(reader: BitStreamReader, aligned: bool) returns (r: ReadResult<nat>)
    requires reader.Valid()
    modifies reader
    ensures reader.Agrees(r, DecodeGap(aligned, reader.Content(), old(reader.bitIndex)))
  {
    hide Caches, BitStreamReader.Content;
    if aligned {
      var item := reader.AlignTo(8);
      return if item.Error? then Error(item.error) else Value(0);
    }
    return Value(0);
  }

  /** Reading gives what the bits of the stream denote. */
  method Read(reader: BitStreamReader, kind: ArrayType, shape: Shape, arrayLength: nat)
    returns (r: ReadResult<seq<Item>>)
    requires reader.Valid() && IsElementShape(kind, shape)
    modifies reader
    ensures InStream(reader, old(reader.bitIndex))
    ensures reader.Agrees(r, DecodeArray(kind, shape, arrayLength, reader.Content(), old(reader.bitIndex)))
  {
    hide Caches, BitStreamReader.Content, DecodeLength, DecodeItem, DecodeGap, ElementSize;
    ghost var s := reader.Content();
    var length := ReadArrayLength(reader, kind, shape, arrayLength);
    if length.Error? {
      return Error(length.error);
    }
    var readLength := length.value;
    var elementSize := ElementSize(shape);
    if elementSize.Some? && reader.bitIndex + readLength * elementSize.value > reader.bufferBitSize {
      return Error(ArrayTooLong);
    }
    r := ReadElements(reader, kind, shape, readLength);
  }

  method ReadElements(reader: BitStreamReader, kind: ArrayType, shape: Shape, readLength: nat)
    returns (r: ReadResult<seq<Item>>)
    requires reader.Valid() && !shape.AlignmentShape?
    modifies reader
    ensures reader.Agrees(r, DecodeElements(kind.IsAligned(), shape, readLength, reader.Content(),
                                            old(reader.bitIndex)))
  {
    hide Caches, BitStreamReader.Content, DecodeItem, DecodeGap;
    ghost var s, start, aligned := reader.Content(), reader.bitIndex, kind.IsAligned();
    var rawArray: seq<Item> := [];
    for i := 0 to readLength
      invariant reader.Valid()
      invariant DecodeElements(aligned, shape, i, s, start) == Decoded(rawArray, reader.bitIndex)
    {
      var gap := ReadGap(reader, kind.IsAligned());
      if gap.Error? {
        FailsEarly(aligned, shape, i + 1, readLength, s, start);
        return Error(gap.error);
      }
      var item := reader.ReadItem(shape);
      if item.Error? {
        FailsEarly(aligned, shape, i + 1, readLength, s, start);
        return Error(item.error);
      }
      rawArray := rawArray + [item.value];
    }
    return Value(rawArray);
  }

  method ReadPacked(reader: BitStreamReader, kind: ArrayType, t: NumType, arrayLength: nat)
    returns (r: ReadResult<seq<int>>)
    requires reader.Valid() && !kind.Implicit?
    modifies reader
    ensures InStream(reader, old(reader.bitIndex))
    ensures reader.Agrees(r, DecodePackedArray(kind, t, arrayLength, reader.Content(), old(reader.bitIndex)))
  {
    hide Caches, BitStreamReader.Content, DecodeLength, DecodePackedElement, DecodeGap, ElementSize;
    ghost var s := reader.Content();
    var length := ReadArrayLength(reader, kind, t.Shape(), arrayLength);
    if length.Error? {
      return Error(length.error);
    }
    r := ReadPackedElements(reader, kind, t, length.value);
  }

  method ReadPackedElements(reader: BitStreamReader, kind: ArrayType, t: NumType, readLength: nat)
    returns (r: ReadResult<seq<int>>)
    requires reader.Valid()
    modifies reader
    ensures var d := DecodePackedElements(kind.IsAligned(), t, readLength, reader.Content(), old(reader.bitIndex));
            reader.Agrees(r, Map(d, (read: PackedRead) => read.elements))
  {
    hide Caches, BitStreamReader.Content, DecodePackedElement, DecodeGap;
    ghost var s, start, aligned := reader.Content(), reader.bitIndex, kind.IsAligned();
    var rawArray: seq<int> := [];
    if readLength > 0 {
      var context := new DeltaContext();
      ghost var state: Option<ReadState> := None;
      for i := 0 to readLength
        invariant fresh(context) && context.Reading(state)
        invariant state.Some? && context.isPacked ==> context.maxBitNumber < 64
        invariant reader.Valid()
        invariant DecodePackedElements(aligned, t, i, s, start) == Decoded(PackedRead(rawArray, state), reader.bitIndex)
      {
        var gap := ReadGap(reader, kind.IsAligned());
        if gap.Error? {
          PackedFailsEarly(aligned, t, i + 1, readLength, s, start);
          return Error(gap.error);
        }
        var element;
        element, state := ReadPackedElement(reader, context, t, state);
        if element.Error? {
          PackedFailsEarly(aligned, t, i + 1, readLength, s, start);
          return Error(element.error);
        }
        rawArray := rawArray + [element.value];
      }
    }
    return Value(rawArray);
  }

  method ReadPackedElement(reader: BitStreamReader, context: DeltaContext, t: NumType, ghost state: Option<ReadState>)
    returns (r: ReadResult<int>, ghost next: Option<ReadState>)
    requires reader.Valid() && context.Reading(state)
    requires state.Some? && context.isPacked ==> context.maxBitNumber < 64
    modifies reader, context
    ensures var d := DecodePackedElement(t, state, reader.Content(), old(reader.bitIndex));
            && reader.Agrees(r, Map(d, (step: Step) => step.element))
            && (d.Decoded? ==> next == Some(d.value.state) && context.Reading(next)
                               && (context.isPacked ==> context.maxBitNumber < 64))
  {
    hide Caches, BitStreamReader.Content, DecodeFirst, DecodeNext;
    r, next := context.Read(reader, t, state);
  }

  // ----- reading inverts writing -----

  predicate AllOfShape(shape: Shape, elems: seq<Item>) {
    forall i :: 0 <= i < |elems| ==> ShapeOf(elems[i]) == shape
  }

  lemma IsWritable(item: Item)
    requires IsElement(item)
    ensures Writable(item)
  {
  }

  /** The elements as they are read back. */
  function CanonicalElements(elems: seq<Item>): (r: seq<Item>)
    requires AllElements(elems)
    ensures |r| == |elems|
  {
    seq(|elems|, i requires 0 <= i < |elems| => Canonical(elems[i]))
  }

  lemma GapThereAndBack(aligned: bool, s: seq<bool>, pos: nat)
    requires Holds(s, pos, Gap(aligned, pos))
    ensures DecodeGap(aligned, s, pos) == Decoded(0, pos + |Gap(aligned, pos)|)
  {
  }

  lemma ElementThereAndBack(item: Item, s: seq<bool>, pos: nat)
    requires IsElement(item) && Holds(s, pos, ItemChunk(item))
    ensures DecodeItem(ShapeOf(item), s, pos) == Decoded(Canonical(item), pos + |ItemChunk(item)|)
  {
    hide ItemBits, DecodeItem, Canonical;
    ChunkAnywhere(item, pos);
    ItemRoundTrip(item, s, pos);
  }

  lemma {:induction false} ElementsThereAndBack(aligned: bool, shape: Shape, elems: seq<Item>, n: nat,
      s: seq<bool>, pos: nat)
    requires AllElements(elems) && AllOfShape(shape, elems) && n <= |elems| && !shape.AlignmentShape?
    requires Holds(s, pos, Layout(aligned, ItemChunks(elems), pos))
    ensures DecodeElements(aligned, shape, n, s, pos)
            == Decoded(CanonicalElements(elems)[..n], EndOf(aligned, ItemChunks(elems), n, pos))
  {
    hide Layout, Gap, DecodeGap, IsElement, ItemChunk, Holds, DecodeItem, Canonical, ShapeOf;
    var chunks := ItemChunks(elems);
    if n == 0 {
      NothingCounted(aligned, chunks, pos);
    } else {
      ElementsThereAndBack(aligned, shape, elems, n - 1, s, pos);
      LayoutHolds(aligned, chunks, n - 1, s, pos);
      LayoutStep(aligned, chunks, n - 1, pos);
      GapThereAndBack(aligned, s, EndOf(aligned, chunks, n - 1, pos));
      assert ShapeOf(elems[n - 1]) == shape;
      ElementThereAndBack(elems[n - 1], s, StartOf(aligned, chunks, n - 1, pos));
      IsWritable(elems[n - 1]);
      assert CanonicalElements(elems)[..n] == CanonicalElements(elems)[..n - 1] + [Canonical(elems[n - 1])];
    }
  }

  /** Every element of a numeric type takes at least the size of a default element. */
  lemma ElementSizeIsLeast(item: Item)
    requires IsElement(item) && ElementSize(ShapeOf(item)).Some?
    ensures |ItemChunk(item)| >= ElementSize(ShapeOf(item)).value
    ensures !item.Variable? ==> |ItemChunk(item)| == ElementSize(ShapeOf(item)).value
  {
  }

  lemma {:induction false} LayoutIsLongEnough(aligned: bool, shape: Shape, elems: seq<Item>, n: nat, pos: nat)
    requires AllElements(elems) && AllOfShape(shape, elems) && n <= |elems| && ElementSize(shape).Some?
    ensures EndOf(aligned, ItemChunks(elems), n, pos) >= pos + n * ElementSize(shape).value
    ensures !shape.VariableShape? && !aligned ==>
              EndOf(aligned, ItemChunks(elems), n, pos) == pos + n * ElementSize(shape).value
  {
    hide Layout, Gap, IsElement, ItemChunk, ElementSize;
    var chunks := ItemChunks(elems);
    if n == 0 {
      NothingCounted(aligned, chunks, pos);
    } else {
      LayoutIsLongEnough(aligned, shape, elems, n - 1, pos);
      LayoutStep(aligned, chunks, n - 1, pos);
      ElementSizeIsLeast(elems[n - 1]);
      NoGap(aligned, EndOf(aligned, chunks, n - 1, pos));
      OneMoreTime(n, ElementSize(shape).value);
    }
  }

  lemma NoGap(aligned: bool, pos: nat)
    ensures !aligned ==> Gap(aligned, pos) == []
  {
  }

  /** The check before reading never rejects what has been written. */
  lemma GuardAcceptsWritten(aligned: bool, shape: Shape, elems: seq<Item>, s: seq<bool>, pos: nat)
    requires AllElements(elems) && AllOfShape(shape, elems)
    requires Holds(s, pos, Layout(aligned, ItemChunks(elems), pos))
    ensures FitsBuffer(shape, |elems|, s, pos)
  {
    hide Layout;
    if ElementSize(shape).Some? {
      LayoutIsLongEnough(aligned, shape, elems, |elems|, pos);
      assert ItemChunks(elems)[..|elems|] == ItemChunks(elems);
    }
  }

  /**
    The length of an implicit array is recovered exactly when what is left of the stream is its elements' default
    size.
  */
  lemma ImplicitLength(shape: Shape, n: nat, s: seq<bool>, pos: nat)
    requires IsElementShape(Implicit, shape) && pos <= |s|
    ensures DecodeLength(Implicit, shape, 0, s, pos) == Decoded(n, pos)
            <==> n * ElementSize(shape).value <= |s| - pos < n * ElementSize(shape).value + ElementSize(shape).value
  {
    var size, rest := ElementSize(shape).value, |s| - pos;
    assert rest == rest / size * size + rest % size;
    if n * size <= rest < n * size + size {
      ModIsRemainder(rest, size, n, rest - n * size);
    }
  }

  /** An implicit array of fixed-width elements recovers its length iff fewer bits than one element follow it. */
  lemma ImplicitFixedWidth(shape: Shape, elems: seq<Item>, s: seq<bool>, pos: nat)
    requires AllElements(elems) && AllOfShape(shape, elems) && IsElementShape(Implicit, shape) && !shape.VariableShape?
    requires Holds(s, pos, ArrayBits(Implicit, ItemChunks(elems), pos))
    ensures var end := pos + |ArrayBits(Implicit, ItemChunks(elems), pos)|;
            DecodeLength(Implicit, shape, 0, s, pos) == Decoded(|elems|, pos)
            <==> |s| - end < ElementSize(shape).value
  {
    hide Layout, DecodeLength;
    LayoutIsLongEnough(false, shape, elems, |elems|, pos);
    assert ItemChunks(elems)[..|elems|] == ItemChunks(elems);
    ImplicitLength(shape, |elems|, s, pos);
  }

  /** Whether all elements that are encoded with a variable length take one byte. */
  predicate OneByteEach(elems: seq<Item>) {
    forall i :: 0 <= i < |elems| && elems[i].Variable? && InRange(elems[i].varType, elems[i].number) ==>
      VarBytes(elems[i].varType, elems[i].number) == 1
  }

  lemma VarintSize(item: Item)
    requires IsElement(item) && item.Variable?
    ensures |ItemChunk(item)| == 8 * VarBytes(item.varType, item.number)
  {
    hide EncodeVar, VarBytes, InRange;
  }

  /** Elements of one byte take their default size; longer ones take at least one byte more in all. */
  lemma {:induction false} VarintLayout(t: VarType, elems: seq<Item>, n: nat, pos: nat)
    requires AllElements(elems) && AllOfShape(VariableShape(t), elems) && n <= |elems|
    ensures var end := EndOf(false, ItemChunks(elems), n, pos);
            if OneByteEach(elems[..n]) then end == pos + 8 * n else end >= pos + 8 * n + 8
  {
    hide Layout, Gap, ItemChunk, VarBytes, InRange, EndOf, StartOf;
    var chunks := ItemChunks(elems);
    if n == 0 {
      NothingCounted(false, chunks, pos);
    } else {
      VarintLayout(t, elems, n - 1, pos);
      LayoutStep(false, chunks, n - 1, pos);
      NoGap(false, EndOf(false, chunks, n - 1, pos));
      NoStart(chunks, n - 1, pos);
      VarintInRange(elems[n - 1]);
      VarintSize(elems[n - 1]);
      OneByteStep(elems, n);
    }
  }

  lemma NoStart(chunks: seq<seq<bool>>, i: nat, pos: nat)
    requires i < |chunks|
    ensures StartOf(false, chunks, i, pos) == EndOf(false, chunks, i, pos)
  {
  }

  lemma VarintInRange(item: Item)
    requires IsElement(item) && item.Variable?
    ensures InRange(item.varType, item.number)
    ensures VarBytes(item.varType, item.number) >= 1
  {
  }

  lemma OneByteStep(elems: seq<Item>, n: nat)
    requires 0 < n <= |elems| && elems[n - 1].Variable? && InRange(elems[n - 1].varType, elems[n - 1].number)
    ensures OneByteEach(elems[..n])
            <==> OneByteEach(elems[..n - 1]) && VarBytes(elems[n - 1].varType, elems[n - 1].number) == 1
  {
    hide InRange, VarBytes;
    var front := elems[..n - 1];
    assert elems[..n] == front + [elems[n - 1]];
    if OneByteEach(elems[..n]) {
      forall i | 0 <= i < n - 1 && front[i].Variable? && InRange(front[i].varType, front[i].number)
        ensures VarBytes(front[i].varType, front[i].number) == 1
      {
        assert elems[..n][i] == front[i];
      }
      assert elems[..n][n - 1] == elems[n - 1];
    }
  }

  /**
    An implicit array of variable-length numbers recovers its length iff less than a byte follows it and every element
    takes one byte.
  */
  lemma ImplicitVarints(t: VarType, elems: seq<Item>, s: seq<bool>, pos: nat)
    requires AllElements(elems) && AllOfShape(VariableShape(t), elems)
    requires Holds(s, pos, ArrayBits(Implicit, ItemChunks(elems), pos))
    ensures var end := pos + |ArrayBits(Implicit, ItemChunks(elems), pos)|;
            DecodeLength(Implicit, VariableShape(t), 0, s, pos) == Decoded(|elems|, pos)
            <==> |s| - end < 8 && OneByteEach(elems)
  {
    hide Layout, DecodeLength, OneByteEach;
    VarintLayout(t, elems, |elems|, pos);
    assert ItemChunks(elems)[..|elems|] == ItemChunks(elems) && elems[..|elems|] == elems;
    ImplicitLength(VariableShape(t), |elems|, s, pos);
  }

  /** Otherwise reading runs past the end of the stream that ends with the array. */
  lemma ImplicitOverrun(t: VarType, elems: seq<Item>, arrayLength: nat, s: seq<bool>, pos: nat)
    requires AllElements(elems) && AllOfShape(VariableShape(t), elems) && !OneByteEach(elems)
    requires Holds(s, pos, ArrayBits(Implicit, ItemChunks(elems), pos))
    requires |s| == pos + |ArrayBits(Implicit, ItemChunks(elems), pos)|
    ensures DecodeArray(Implicit, VariableShape(t), arrayLength, s, pos) == Failed(EndOfStream)
  {
    hide Layout, OneByteEach, DecodeItem, IsElement, ItemChunk, CanonicalElements;
    var shape, n := VariableShape(t), (|s| - pos) / 8;
    VarintLayout(t, elems, |elems|, pos);
    assert ItemChunks(elems)[..|elems|] == ItemChunks(elems) && elems[..|elems|] == elems;
    ElementsThereAndBack(false, shape, elems, |elems|, s, pos);
    PastTheEnd(t, s);
    assert DecodeElements(false, shape, |elems| + 1, s, pos) == Failed(EndOfStream);
    FailsEarly(false, shape, |elems| + 1, n, s, pos);
  }

  lemma PastTheEnd(t: VarType, s: seq<bool>)
    ensures DecodeItem(VariableShape(t), s, |s|) == Failed(EndOfStream)
  {
  }

  /** One number of two bytes counts as two elements, the second of which is missing. */
  lemma TwoByteElement()
    ensures AllElements([Variable(VarUInt, 128)])
    ensures ArrayBits(Implicit, ItemChunks([Variable(VarUInt, 128)]), 0) == BytesToBits([0x81, 0x00])
    ensures DecodeLength(Implicit, VariableShape(VarUInt), 0, BytesToBits([0x81, 0x00]), 0) == Decoded(2, 0)
    ensures DecodeArray(Implicit, VariableShape(VarUInt), 0, BytesToBits([0x81, 0x00]), 0) == Failed(EndOfStream)
  {
    hide ArrayBits, DecodeArray, ItemChunks, BytesToBits, EncodeVar, InRange, OneByteEach, VarBytes;
    var item, s := Variable(VarUInt, 128), BytesToBits([0x81, 0x00]);
    TwoBytes();
    assert IsElement(item) && ItemChunk(item) == s;
    assert AllElements([item]);
    SingleElement(item);
    OneByteStep([item], 1);
    assert [item][..1] == [item];
    assert s[0..|s|] == s;
    ImplicitOverrun(VarUInt, [item], 0, s, 0);
  }

  lemma TwoBytes()
    ensures InRange(VarUInt, 128) && VarBytes(VarUInt, 128) == 2 && EncodeVar(VarUInt, 128) == [0x81, 0x00]
  {
    hide BytesNeeded, Pow2, MaxUnsigned, VarType.MaxValues, VarByte;
    var table := VarUInt.MaxValues();
    TableAround128();
    VarBytesIsLeast(VarUInt, 128, 1);
    VarBytesIsLeast(VarUInt, 128, 2);
    TwoByteForm();
  }

  lemma TableAround128()
    ensures var table := VarUInt.MaxValues();
            |table| == 9 && table[0] == 127 && table[1] >= 128 && table[8] >= 128
  {
    assert Pow2(7) == 128 && Pow2(8) == 256;
    Pow2Monotone(8, 14);
    Pow2Monotone(8, 64);
  }

  lemma TwoByteForm()
    ensures FormBytes(VarUInt, false, 128, 2) == [0x81, 0x00]
  {
    assert Shr(128, 7) == 1 && Shr(128, 0) == 128;
    assert Pow2(7) == 128 && Truncate(1, 7) == 1 && Truncate(128, 7) == 0;
    assert VarByte(VarUInt, false, 128, 2, 0) == 0x81 && VarByte(VarUInt, false, 128, 2, 1) == 0x00;
  }

  lemma SingleElement(item: Item)
    requires IsElement(item)
    ensures ArrayBits(Implicit, ItemChunks([item]), 0) == ItemChunk(item)
  {
    hide ItemChunk;
    var chunks := ItemChunks([item]);
    assert chunks == [ItemChunk(item)] && chunks[..0] == [];
    assert Layout(false, chunks, 0) == [] + ([] + ItemChunk(item));
  }

  /** What has to be known besides the bits to read an array back. */
  predicate LengthKnown(kind: ArrayType, shape: Shape, n: nat, arrayLength: nat, s: seq<bool>, pos: nat)
    requires IsElementShape(kind, shape) && pos <= |s|
  {
    match kind
    case Normal | Aligned => arrayLength == n
    case Auto | AlignedAuto => true
    case Implicit => n * ElementSize(shape).value <= |s| - pos < n * ElementSize(shape).value + ElementSize(shape).value
  }

  lemma LengthThereAndBack(kind: ArrayType, shape: Shape, n: nat, arrayLength: nat, s: seq<bool>, pos: nat)
    requires IsElementShape(kind, shape) && n <= VARSIZE_MAX_VALUE && Holds(s, pos, LengthBits(kind, n))
    requires LengthKnown(kind, shape, n, arrayLength, s, pos)
    ensures DecodeLength(kind, shape, arrayLength, s, pos) == Decoded(n, pos + |LengthBits(kind, n)|)
  {
    hide DecodeVar, SizeBits;
    if kind.IsAuto() {
      SizeRoundTrip(s, pos, n);
    } else if kind.Implicit? {
      ImplicitLength(shape, n, s, pos);
    }
  }

  /** An array of any type and kind of elements is read back from a stream that holds its layout. */
  lemma ArrayRoundTrip(kind: ArrayType, shape: Shape, elems: seq<Item>, arrayLength: nat, s: seq<bool>, pos: nat)
    requires AllElements(elems) && AllOfShape(shape, elems) && IsElementShape(kind, shape)
    requires Holds(s, pos, ArrayBits(kind, ItemChunks(elems), pos))
    requires LengthKnown(kind, shape, |elems|, arrayLength, s, pos)
    ensures DecodeArray(kind, shape, arrayLength, s, pos)
            == Decoded(CanonicalElements(elems), pos + |ArrayBits(kind, ItemChunks(elems), pos)|)
  {
    hide Layout, LengthBits, IsElement, ItemChunk, DecodeLength, DecodeElements, FitsBuffer, Holds, LengthKnown;
    var length, chunks := LengthBits(kind, |elems|), ItemChunks(elems);
    HoldsConcat(s, pos, length, Layout(kind.IsAligned(), chunks, pos + |length|));
    LengthThereAndBack(kind, shape, |elems|, arrayLength, s, pos);
    GuardAcceptsWritten(kind.IsAligned(), shape, elems, s, pos + |length|);
    ElementsThereAndBack(kind.IsAligned(), shape, elems, |elems|, s, pos + |length|);
    assert chunks[..|elems|] == chunks && CanonicalElements(elems)[..|elems|] == CanonicalElements(elems);
  }

  lemma {:induction false} PackedThereAndBack(aligned: bool, t: NumType, elems: seq<int>, n: nat, s: seq<bool>,
      pos: nat)
    requires AllPackable(t, elems) && n <= |elems|
    requires Holds(s, pos, Layout(aligned, PackedChunks(t, elems), pos))
    ensures DecodePackedElements(aligned, t, n, s, pos)
            == Decoded(PackedRead(elems[..n], if n == 0 then None else Some(StateAfter(t, elems, n))),
                       EndOf(aligned, PackedChunks(t, elems), n, pos))
  {
    hide Layout, Gap, DecodeGap, ElementBits, Holds, DecodeFirst, DecodeNext, StateAfter, NumType.Has;
    var chunks := PackedChunks(t, elems);
    if n == 0 {
      NothingCounted(aligned, chunks, pos);
    } else {
      PackedThereAndBack(aligned, t, elems, n - 1, s, pos);
      LayoutHolds(aligned, chunks, n - 1, s, pos);
      LayoutStep(aligned, chunks, n - 1, pos);
      GapThereAndBack(aligned, s, EndOf(aligned, chunks, n - 1, pos));
      if n == 1 {
        FirstThereAndBack(t, elems, s, StartOf(aligned, chunks, 0, pos));
      } else {
        NextThereAndBack(t, elems, n - 1, s, StartOf(aligned, chunks, n - 1, pos));
      }
      assert elems[..n] == elems[..n - 1] + [elems[n - 1]];
    }
  }

  /** A packed array is read back, whether or not packing has paid off. */
  lemma PackedRoundTrip(kind: ArrayType, t: NumType, elems: seq<int>, arrayLength: nat, s: seq<bool>, pos: nat)
    requires AllPackable(t, elems) && !kind.Implicit?
    requires Holds(s, pos, ArrayBits(kind, PackedChunks(t, elems), pos))
    requires kind.IsAuto() || arrayLength == |elems|
    ensures DecodePackedArray(kind, t, arrayLength, s, pos)
            == Decoded(elems, pos + |ArrayBits(kind, PackedChunks(t, elems), pos)|)
  {
    hide Layout, LengthBits, ElementBits, DecodeLength, DecodePackedElements, Holds, NumType.Has, DecodeVar;
    var length, chunks := LengthBits(kind, |elems|), PackedChunks(t, elems);
    HoldsConcat(s, pos, length, Layout(kind.IsAligned(), chunks, pos + |length|));
    LengthThereAndBack(kind, t.Shape(), |elems|, arrayLength, s, pos);
    PackedThereAndBack(kind.IsAligned(), t, elems, |elems|, s, pos + |length|);
    assert chunks[..|elems|] == chunks && elems[..|elems|] == elems;
  }

  /**
    The recorded offsets are true: when the array ends below 2^32, element `i` starts at the byte with the recorded
    offset, and that is where a stream holding the array has its bits.
  */
  lemma OffsetsAreTrue(kind: ArrayType, chunks: seq<seq<bool>>, offsets: seq<nat>, i: nat, s: seq<bool>, pos: nat)
    requires |chunks| <= VARSIZE_MAX_VALUE && (kind == Aligned || kind == AlignedAuto) && i < |chunks|
    requires OffsetsRecorded(offsets, true, chunks, |chunks|, pos + |LengthBits(kind, |chunks|)|)
    requires Holds(s, pos, ArrayBits(kind, chunks, pos)) && pos + |ArrayBits(kind, chunks, pos)| < TWO_TO_32
    ensures 8 * offsets[i] == StartOf(true, chunks, i, pos + |LengthBits(kind, |chunks|)|)
    ensures Holds(s, 8 * offsets[i], chunks[i])
  {
    hide Layout, LengthBits, Gap, Truncate;
    var length := LengthBits(kind, |chunks|);
    var start := StartOf(true, chunks, i, pos + |length|);
    HoldsConcat(s, pos, length, Layout(true, chunks, pos + |length|));
    LayoutHolds(true, chunks, i, s, pos + |length|);
    OffsetBelowEnd(kind, chunks, i, pos);
    SmallWrap(start);
    AtByte(start, Gap(true, EndOf(true, chunks, i, pos + |length|)));
    assert offsets[i] == start / 8;
  }

  lemma OffsetBelowEnd(kind: ArrayType, chunks: seq<seq<bool>>, i: nat, pos: nat)
    requires |chunks| <= VARSIZE_MAX_VALUE && i < |chunks|
    ensures StartOf(kind.IsAligned(), chunks, i, pos + |LengthBits(kind, |chunks|)|)
            <= pos + |ArrayBits(kind, chunks, pos)|
  {
    hide Layout, Gap, LengthBits;
    var first := pos + |LengthBits(kind, |chunks|)|;
    LayoutStep(kind.IsAligned(), chunks, i, first);
    LayoutPrefix(kind.IsAligned(), chunks, i + 1, first);
  }

  lemma AtByte(start: nat, gap: seq<bool>)
    ensures start % 8 == 0 ==> 8 * (start / 8) == start
  {
  }

  /** Seeking to the recorded offset of an element and reading there gives that element. */
  lemma SeekByOffset(kind: ArrayType, shape: Shape, elems: seq<Item>, offsets: seq<nat>, i: nat, s: seq<bool>, pos: nat)
    requires AllElements(elems) && AllOfShape(shape, elems) && i < |elems|
    requires kind == Aligned || kind == AlignedAuto
    requires OffsetsRecorded(offsets, true, ItemChunks(elems), |elems|, pos + |LengthBits(kind, |elems|)|)
    requires Holds(s, pos, ArrayBits(kind, ItemChunks(elems), pos))
    requires pos + |ArrayBits(kind, ItemChunks(elems), pos)| < TWO_TO_32
    ensures !shape.AlignmentShape? && DecodeItem(shape, s, 8 * offsets[i]).Decoded?
    ensures DecodeItem(shape, s, 8 * offsets[i]).value == Canonical(elems[i])
  {
    hide ArrayBits, LengthBits, ItemChunk, DecodeItem, Canonical, Holds;
    OffsetsAreTrue(kind, ItemChunks(elems), offsets, i, s, pos);
    ElementThereAndBack(elems[i], s, 8 * offsets[i]);
  }

  // ----- whole runs -----

  /**
    An array is sized, written to a new buffer of exactly that many bits and read back: the writer never runs out of
    capacity and the same elements come back, for every array type, position and width of the reader's cache, except
    from an implicit array in which a number takes several bytes, whose reader runs past the end.
  */
  method StoreAndLoad(kind: ArrayType, shape: Shape, elems: seq<Item>, start: nat, cacheBitSize: nat)
    returns (written: WriteResult, back: ReadResult<seq<Item>>, end: nat)
    requires AllElements(elems) && AllRepresentable(elems) && AllOfShape(shape, elems) && IsElementShape(kind, shape)
    requires start + |ArrayBits(kind, ItemChunks(elems), start)| < TWO_TO_32
    requires cacheBitSize == 32 || cacheBitSize == 64
    ensures written == Written
    ensures if kind.Implicit? && !OneByteEach(elems) then back == Error(EndOfStream)
            else back == Value(CanonicalElements(elems)) && end == start + |ArrayBits(kind, ItemChunks(elems), start)|
  {
    hide OneByteEach, ArrayBits, IsElement, Representable, ItemChunk, Canonical, BytesToBits, Caches, Truncate,
      BitStreamWriter.AppendedPrefix, IsElementShape, DecodeArray;
    ghost var b := ArrayBits(kind, ItemChunks(elems), start);
    AllTyped(elems);
    var bitSize := BitSizeOf(kind, elems, start);
    SmallWrap(|b|);
    var bufferBitSize := start + bitSize.value;
    var buffer := new Byte[(bufferBitSize + 7) / 8];
    var writer := new BitStreamWriter(buffer, bufferBitSize);
    written := writer.SetBitPosition(start);
    ghost var before := writer.Content();
    written := Write(writer, kind, elems);
    var reader := new BitStreamReader(buffer[..], bufferBitSize, cacheBitSize);
    var moved := reader.SetBitPosition(start);
    HoldsSpliced(before, start, b, bufferBitSize);
    if kind.Implicit? && !OneByteEach(elems) {
      OnlyVarints(shape, elems);
      ImplicitOverrun(shape.varType, elems, |elems|, reader.Content(), start);
    } else {
      ExactLength(kind, shape, elems, reader.Content(), start);
      ArrayRoundTrip(kind, shape, elems, |elems|, reader.Content(), start);
    }
    back := Read(reader, kind, shape, |elems|);
    end := reader.bitIndex;
  }

  lemma OnlyVarints(shape: Shape, elems: seq<Item>)
    requires AllOfShape(shape, elems) && !OneByteEach(elems)
    ensures shape.VariableShape?
  {
    hide VarBytes, InRange;
  }

  /** When nothing follows an array its length is known, unless it is implicit and an element takes several bytes. */
  lemma ExactLength(kind: ArrayType, shape: Shape, elems: seq<Item>, s: seq<bool>, pos: nat)
    requires AllElements(elems) && AllOfShape(shape, elems) && IsElementShape(kind, shape)
    requires Holds(s, pos, ArrayBits(kind, ItemChunks(elems), pos))
    requires |s| == pos + |ArrayBits(kind, ItemChunks(elems), pos)|
    ensures LengthKnown(kind, shape, |elems|, |elems|, s, pos) <==> (kind.Implicit? ==> OneByteEach(elems))
  {
    hide Layout, Holds, IsElement, ItemChunk, OneByteEach;
    if kind.Implicit? {
      LayoutIsLongEnough(false, shape, elems, |elems|, pos);
      assert ItemChunks(elems)[..|elems|] == ItemChunks(elems) && elems[..|elems|] == elems;
      if shape.VariableShape? {
        VarintLayout(shape.varType, elems, |elems|, pos);
      } else if !OneByteEach(elems) {
        OnlyVarints(shape, elems);
      }
    }
  }

  method StoreAndLoadPacked(kind: ArrayType, t: NumType, elems: seq<int>, start: nat, cacheBitSize: nat)
    returns (written: WriteResult, back: ReadResult<seq<int>>, end: nat)
    requires AllPackable(t, elems) && !kind.Implicit?
    requires start + |ArrayBits(kind, PackedChunks(t, elems), start)| < TWO_TO_32
    requires cacheBitSize == 32 || cacheBitSize == 64
    ensures written == Written && back == Value(elems)
    ensures end == start + |ArrayBits(kind, PackedChunks(t, elems), start)|
  {
    hide ArrayBits, ElementBits, NumType.Has, BytesToBits, BitStreamWriter.AppendedPrefix, Caches, Truncate,
      DecodePackedArray, IsPacked;
    ghost var b := ArrayBits(kind, PackedChunks(t, elems), start);
    var bitSize := BitSizeOfPacked(kind, t, elems, start);
    SmallWrap(|b|);
    var bufferBitSize := start + bitSize;
    var buffer := new Byte[(bufferBitSize + 7) / 8];
    var writer := new BitStreamWriter(buffer, bufferBitSize);
    written := writer.SetBitPosition(start);
    ghost var before := writer.Content();
    written := WritePacked(writer, kind, t, elems);
    var reader := new BitStreamReader(buffer[..], bufferBitSize, cacheBitSize);
    var moved := reader.SetBitPosition(start);
    HoldsSpliced(before, start, b, bufferBitSize);
    PackedRoundTrip(kind, t, elems, |elems|, reader.Content(), start);
    back := ReadPacked(reader, kind, t, |elems|);
    end := reader.bitIndex;
  }
}
