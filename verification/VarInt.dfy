/**
  The nine variable-length integer formats: their size tables, their byte layout and their decoder, as functions.

  A number is cut into groups of bits, most significant group first, one group per byte. The first byte of a signed
  format starts with the sign; then comes a bit telling whether another byte follows, absent from the last byte of
  the longest form, which carries eight bits of the number.
*/
module VarInt {
  import opened Bits
  import opened Streams

  datatype VarType =
    | VarInt16 | VarInt32 | VarInt64 | VarInt
    | VarUInt16 | VarUInt32 | VarUInt64 | VarUInt
    | VarSize
  {
    predicate Signed() {
      VarInt16? || VarInt32? || VarInt64? || VarInt?
    }

    /** Number of bytes of the longest form. */
    function MaxBytes(): nat {
      match this
      case VarInt16 | VarUInt16 => 2
      case VarInt32 | VarUInt32 => 4
      case VarInt64 | VarUInt64 => 8
      case VarInt | VarUInt => 9
      case VarSize => 5
    }

    /** Width of the unsigned integer in which the reader accumulates the number. */
    function AccumulatorBits(): nat {
      match this
      case VarInt16 | VarUInt16 => 16
      case VarInt32 | VarUInt32 | VarSize => 32
      case VarInt64 | VarUInt64 | VarInt | VarUInt => 64
    }

    /** For each number of bytes, how many bits of the number they hold according to the size tables. */
    function TableBits(): (table: seq<nat>)
      ensures |table| == MaxBytes()
    {
      match this
      case VarInt16 => [6, 6 + 8]
      case VarInt32 => [6, 6 + 7, 6 + 7 + 7, 6 + 7 + 7 + 8]
      case VarInt64 =>
        [6, 6 + 7, 6 + 7 + 7, 6 + 7 + 7 + 7, 6 + 7 + 7 + 7 + 7, 6 + 7 + 7 + 7 + 7 + 7, 6 + 7 + 7 + 7 + 7 + 7 + 7,
         6 + 7 + 7 + 7 + 7 + 7 + 7 + 8]
      case VarInt =>
        [6, 6 + 7, 6 + 7 + 7, 6 + 7 + 7 + 7, 6 + 7 + 7 + 7 + 7, 6 + 7 + 7 + 7 + 7 + 7, 6 + 7 + 7 + 7 + 7 + 7 + 7,
         6 + 7 + 7 + 7 + 7 + 7 + 7 + 7, 6 + 7 + 7 + 7 + 7 + 7 + 7 + 7 + 8]
      case VarUInt16 => [7, 7 + 8]
      case VarUInt32 => [7, 7 + 7, 7 + 7 + 7, 7 + 7 + 7 + 8]
      case VarUInt64 =>
        [7, 7 + 7, 7 + 7 + 7, 7 + 7 + 7 + 7, 7 + 7 + 7 + 7 + 7, 7 + 7 + 7 + 7 + 7 + 7, 7 + 7 + 7 + 7 + 7 + 7 + 7,
         7 + 7 + 7 + 7 + 7 + 7 + 7 + 8]
      case VarUInt =>
        [7, 7 + 7, 7 + 7 + 7, 7 + 7 + 7 + 7, 7 + 7 + 7 + 7 + 7, 7 + 7 + 7 + 7 + 7 + 7, 7 + 7 + 7 + 7 + 7 + 7 + 7,
         7 + 7 + 7 + 7 + 7 + 7 + 7 + 7, 64]
      case VarSize => [7, 7 + 7, 7 + 7 + 7, 7 + 7 + 7 + 7, 2 + 7 + 7 + 7 + 8]
    }

    /** Largest magnitude for each number of bytes. */
    function MaxValues(): (table: seq<nat>)
      ensures |table| == MaxBytes()
    {
      seq(MaxBytes(), i requires 0 <= i < MaxBytes() => MaxUnsigned(TableBits()[i]))
    }
  }

  lemma AtLeastTwoBytes(t: VarType)
    ensures 2 <= t.MaxBytes()
  {
  }

  const INT64_MIN: int := -0x8000_0000_0000_0000
  const VARSIZE_MAX_VALUE: nat := 0x7FFF_FFFF

  function Magnitude(value: int): nat {
    if value < 0 then -value else value
  }

  /** The values a format can hold: those its size table covers, and the smallest 64-bit integer for `varint`. */
  predicate InRange(t: VarType, value: int) {
    || (t.VarInt? && value == INT64_MIN)
    || (Magnitude(value) <= t.MaxValues()[t.MaxBytes() - 1] && (t.Signed() || value >= 0))
  }

  // ----- sizes -----

  /** Position of the first bound that covers `value`, counted from 1; one past the end when none does. */
  function BytesNeeded(value: nat, maxValues: seq<nat>): (n: nat)
    ensures 1 <= n <= |maxValues| + 1
  {
    if maxValues == [] || value <= maxValues[0] then 1 else 1 + BytesNeeded(value, maxValues[1..])
  }

  /** It is the least byte count whose bound covers the value. */
  lemma {:induction false} BytesNeededIsLeast(value: nat, maxValues: seq<nat>)
    ensures var n := BytesNeeded(value, maxValues);
            && (n <= |maxValues| ==> value <= maxValues[n - 1])
            && forall k :: 0 <= k < n - 1 ==> value > maxValues[k]
  {
    if maxValues != [] && value > maxValues[0] {
      BytesNeededIsLeast(value, maxValues[1..]);
      var n := BytesNeeded(value, maxValues);
      forall k | 0 <= k < n - 1 ensures value > maxValues[k] {
        assert k > 0 ==> maxValues[k] == maxValues[1..][k - 1];
      }
    }
  }

  /** Number of bytes of the encoding of `value`. */
  function VarBytes(t: VarType, value: int): (n: nat)
    requires InRange(t, value)
    ensures 1 <= n <= t.MaxBytes()
  {
    CoveredByLast(Magnitude(value), t);
    if t.VarInt? && value == INT64_MIN then 1 else BytesNeeded(Magnitude(value), t.MaxValues())
  }

  /** Scans a size table; `None` stands for the exception thrown when the value is out of range. */
  method BitSizeOfVarIntImpl(value: nat, maxValues: seq<nat>) returns (bitSize: Option<nat>)
    ensures bitSize == if BytesNeeded(value, maxValues) <= |maxValues|
                       then Some(8 * BytesNeeded(value, maxValues)) else None
  {
    var byteSize := 1;
    var i := 0;
    while i < |maxValues|
      invariant 0 <= i <= |maxValues| && byteSize == i + 1
      invariant BytesNeeded(value, maxValues) == i + BytesNeeded(value, maxValues[i..])
    {
      if value <= maxValues[i] {
        break;
      }
      byteSize := byteSize + 1;
      i := i + 1;
    }
    if byteSize > |maxValues| {
      return None;
    }
    return Some(byteSize * 8);
  }

  lemma TableRises(t: VarType, n: nat)
    requires 1 <= n <= t.MaxBytes()
    ensures t.TableBits()[n - 1] <= t.TableBits()[t.MaxBytes() - 1]
  {
  }

  /** Some bound covers a value exactly when the last one does. */
  lemma CoveredByLast(value: nat, t: VarType)
    ensures BytesNeeded(value, t.MaxValues()) <= t.MaxBytes() <==> value <= t.MaxValues()[t.MaxBytes() - 1]
  {
    var table := t.MaxValues();
    var n := BytesNeeded(value, table);
    BytesNeededIsLeast(value, table);
    if n <= |table| {
      TableRises(t, n);
      Pow2Monotone(t.TableBits()[n - 1], t.TableBits()[t.MaxBytes() - 1]);
      assert table[n - 1] <= table[|table| - 1];
    } else {
      assert value > table[|table| - 1];
    }
  }

  method BitSizeOf(t: VarType, value: int) returns (bitSize: Option<nat>)
    requires t.Signed() || value >= 0
    ensures bitSize == if InRange(t, value) then Some(8 * VarBytes(t, value)) else None
  {
    if t == VarInt && value == INT64_MIN {
      return Some(8);
    }
    bitSize := BitSizeOfVarIntImpl(Magnitude(value), t.MaxValues());
    CoveredByLast(Magnitude(value), t);
  }

  /** It is the least byte count whose table bound covers the magnitude; the smallest integer takes one byte. */
  lemma VarBytesIsLeast(t: VarType, value: int, k: nat)
    requires InRange(t, value) && 1 <= k <= t.MaxBytes()
    ensures VarBytes(t, value) <= k <==> Magnitude(value) <= t.MaxValues()[k - 1] || (t.VarInt? && value == INT64_MIN)
  {
    var n := BytesNeeded(Magnitude(value), t.MaxValues());
    BytesNeededIsLeast(Magnitude(value), t.MaxValues());
    CoveredByLast(Magnitude(value), t);
    if n <= k && n <= t.MaxBytes() {
      TableIsSorted(t, n, k);
      Pow2Monotone(t.TableBits()[n - 1], t.TableBits()[k - 1]);
      assert t.MaxValues()[n - 1] <= t.MaxValues()[k - 1];
    }
  }

  lemma TableIsSorted(t: VarType, n: nat, k: nat)
    requires 1 <= n <= k <= t.MaxBytes()
    ensures t.TableBits()[n - 1] <= t.TableBits()[k - 1]
  {
  }

  // ----- layout -----

  /** Whether byte `i` of an `n`-byte encoding holds a bit telling if another byte follows. */
  predicate HasFlag(t: VarType, n: nat, i: nat) {
    i + 1 < n || n != t.MaxBytes()
  }

  /** Number of bits of the number held by byte `i` of an `n`-byte encoding. */
  function GroupBits(t: VarType, n: nat, i: nat): (bits: nat)
    ensures 6 <= bits <= 8
  {
    8 - (if t.Signed() && i == 0 then 1 else 0) - (if HasFlag(t, n, i) then 1 else 0)
  }

  /** Number of bits of the number held by the bytes after byte `i`. */
  function BitsBelow(t: VarType, n: nat, i: nat): nat
    requires i < n
  {
    7 * (n - 1 - i) + (if n == t.MaxBytes() && i + 1 < n then 1 else 0)
  }

  function VarByte(t: VarType, isNegative: bool, magnitude: nat, n: nat, i: nat): Byte
    requires i < n
  {
    var bits := GroupBits(t, n, i);
    var group := Truncate(Shr(magnitude, BitsBelow(t, n, i)), bits);
    GroupFits(t, n, i, group);
    (if t.Signed() && i == 0 && isNegative then 0x80 else 0) + (if i + 1 < n then Pow2(bits) else 0) + group
  }

  lemma GroupFits(t: VarType, n: nat, i: nat, group: nat)
    requires i < n && group < Pow2(GroupBits(t, n, i))
    ensures (if t.Signed() && i == 0 then 0x80 else 0)
            + (if i + 1 < n then Pow2(GroupBits(t, n, i)) else 0) + group < 256
  {
    assert Pow2(6) == 64 && Pow2(7) == 128 && Pow2(8) == 256;
  }

  /** The `n`-byte form of a number. */
  function FormBytes(t: VarType, isNegative: bool, magnitude: nat, n: nat): (bytes: seq<Byte>)
    ensures |bytes| == n
  {
    seq(n, i requires 0 <= i < n => VarByte(t, isNegative, magnitude, n, i))
  }

  /** The bytes written for `value`; the smallest 64-bit integer takes the place of negative zero. */
  function EncodeVar(t: VarType, value: int): (bytes: seq<Byte>)
    requires InRange(t, value)
    ensures |bytes| == VarBytes(t, value)
  {
    if t.VarInt? && value == INT64_MIN then [0x80]
    else FormBytes(t, value < 0, Magnitude(value), VarBytes(t, value))
  }

  /** Number of bits an `n`-byte form has room for; the fifth byte of `varsize` is used for three bits only. */
  function FormCapacity(t: VarType, n: nat): nat
    requires 0 < n <= t.MaxBytes()
  {
    if t == VarSize && n == 5 then 31
    else
      // all bits but a sign and one flag per byte, which the last byte of the longest form does not have
      8 * n - (if t in {VarInt16, VarInt32, VarInt64, VarInt} then 1 else 0)
      - (if n == t.MaxBytes() then n - 1 else n)
  }

  /** The size tables are those of the layout. */
  lemma TableIsCapacity(t: VarType, n: nat)
    requires 0 < n <= t.MaxBytes()
    ensures t.TableBits()[n - 1] == FormCapacity(t, n)
    ensures !(t == VarSize && n == 5) ==> FormCapacity(t, n) == GroupBits(t, n, 0) + BitsBelow(t, n, 0)
  {
  }

  /** The encoding is the shortest one: it takes `n` bytes iff the number fits `n` bytes but not fewer. */
  lemma ShortestForm(t: VarType, value: int, n: nat)
    requires InRange(t, value) && !(t == VarInt && value == INT64_MIN) && 0 < n <= t.MaxBytes()
    ensures |EncodeVar(t, value)| == n
            <==> Magnitude(value) < Pow2(FormCapacity(t, n))
                 && (n > 1 ==> Magnitude(value) >= Pow2(FormCapacity(t, n - 1)))
  {
    hide FormCapacity, VarType.TableBits, Pow2, BytesNeeded, FormBytes;
    TableIsCapacity(t, n);
    VarBytesIsLeast(t, value, n);
    if n > 1 {
      TableIsCapacity(t, n - 1);
      VarBytesIsLeast(t, value, n - 1);
    }
  }

  /** Values are in range iff they fit the longest form; the smallest integer of `varint` is the one exception. */
  lemma RangeIsCapacity(t: VarType, value: int)
    ensures InRange(t, value)
            <==> (t == VarInt && value == -0x8000_0000_0000_0000)
                 || (Magnitude(value) < Pow2(FormCapacity(t, t.MaxBytes()))
                     && (value < 0 ==> t in {VarInt16, VarInt32, VarInt64, VarInt}))
  {
    hide FormCapacity, VarType.TableBits, Pow2;
    TableIsCapacity(t, t.MaxBytes());
  }

  // ----- decoding -----

  /** The bytes after the first one; `more` tells whether there is another one, of at most `left` more. */
  function DecodeRest(s: seq<bool>, pos: nat, left: nat, width: nat, result: nat, more: bool): Decoded<nat>
    requires left > 0
    decreases left
  {
    if !more then Decoded(result, pos)
    else if pos + 8 > |s| then Failed(EndOfStream)
    else
      var byte := FromBits(s[pos..pos + 8]);
      if left == 1 then Decoded(Truncate(256 * result + byte, width), pos + 8)
      else DecodeRest(s, pos + 8, left - 1, width, 128 * result + Truncate(byte, 7), Bit(byte, 7))
  }

  function DecodeVar(t: VarType, s: seq<bool>, pos: nat): (r: Decoded<int>)
    ensures r.Decoded? && !t.Signed() ==> r.value >= 0
  {
    if pos + 8 > |s| then Failed(EndOfStream)
    else
      var byte := FromBits(s[pos..pos + 8]);
      var bits := if t.Signed() then 6 else 7;
      var r := DecodeRest(s, pos + 8, t.MaxBytes() - 1, t.AccumulatorBits(), Truncate(byte, bits), Bit(byte, bits));
      if r.Decoded? then Signify(t, t.Signed() && Bit(byte, 7), r.value, r.next, !Bit(byte, bits))
      else Failed(EndOfStream)
  }

  /** Applies the sign, negative zero being the smallest integer in one-byte `varint`, and checks a `varsize`. */
  function Signify(t: VarType, negative: bool, magnitude: nat, next: nat, oneByte: bool): Decoded<int> {
    if t.VarSize? && magnitude > VARSIZE_MAX_VALUE then Failed(OutOfRange)
    else if negative && t.VarInt? && oneByte && magnitude == 0 then Decoded(INT64_MIN, next)
    else
      var value: int := if negative then 0 - magnitude else magnitude;
      Decoded(value, next)
  }

  // ----- the decoder inverts the encoder -----

  /** The size tables, kept apart from the layout, promise no more bits than the groups have room for. */
  lemma TableFitsGroups(t: VarType, n: nat)
    requires 1 <= n <= t.MaxBytes()
    ensures t.TableBits()[n - 1] <= GroupBits(t, n, 0) + BitsBelow(t, n, 0)
    ensures t.TableBits()[n - 1] <= t.AccumulatorBits()
  {
  }

  /** Byte `i` shifts in the next group of the number. */
  lemma NextGroup(t: VarType, m: nat, n: nat, i: nat)
    requires 0 < i < n <= t.MaxBytes()
    ensures Shr(m, BitsBelow(t, n, i)) == Pow2(GroupBits(t, n, i)) * Shr(m, BitsBelow(t, n, i - 1))
                                          + Truncate(Shr(m, BitsBelow(t, n, i)), GroupBits(t, n, i))
  {
    var k := GroupBits(t, n, i);
    ShrSplit(m, BitsBelow(t, n, i), k);
    assert BitsBelow(t, n, i) + k == BitsBelow(t, n, i - 1);
  }

  /** The header bits and the group of one byte can be told apart again. */
  lemma VarByteFields(t: VarType, isNegative: bool, m: nat, n: nat, i: nat)
    requires i < n <= t.MaxBytes()
    ensures var byte, bits := VarByte(t, isNegative, m, n, i), GroupBits(t, n, i);
            && Truncate(byte, bits) == Truncate(Shr(m, BitsBelow(t, n, i)), bits)
            && (HasFlag(t, n, i) ==> Bit(byte, bits) == (i + 1 < n))
            && (t.Signed() && i == 0 ==> Bit(byte, 7) == isNegative)
  {
    var bits := GroupBits(t, n, i);
    var group := Truncate(Shr(m, BitsBelow(t, n, i)), bits);
    var flag := if i + 1 < n then 1 else 0;
    var sign := if t.Signed() && i == 0 && isNegative then 1 else 0;
    GroupFits(t, n, i, group);
    assert Pow2(6) == 64 && Pow2(7) == 128 && Pow2(8) == 256;
    ByteFields(sign, flag, group, bits);
  }

  lemma ByteFields(sign: nat, flag: nat, group: nat, bits: nat)
    requires sign < 2 && flag < 2 && 6 <= bits <= 8 && group < Pow2(bits)
    requires bits == 8 ==> flag == 0
    requires bits >= 7 ==> sign == 0
    ensures var byte := 0x80 * sign + flag * Pow2(bits) + group;
            && Truncate(byte, bits) == group
            && (bits <= 7 ==> Bit(byte, bits) == (flag == 1))
            && (bits == 6 ==> Bit(byte, 7) == (sign == 1))
  {
    var byte := 0x80 * sign + flag * Pow2(bits) + group;
    var header := if bits == 6 then flag + 2 * sign else flag;
    assert byte == header * Pow2(bits) + group by {
      assert Pow2(6) == 64;
    }
    ModIsRemainder(byte, Pow2(bits), header, group);
    BitsAboveSum(header, group, bits, 0);
    BitsAboveSum(header, group, bits, 1);
    assert Bit(header, 0) == (flag == 1);
    assert bits == 6 ==> Bit(header, 1) == (sign == 1);
  }

  predicate HoldsBytes(s: seq<bool>, pos: nat, bytes: seq<Byte>) {
    pos + 8 * |bytes| <= |s| && s[pos..pos + 8 * |bytes|] == BytesToBits(bytes)
  }

  lemma ByteAt(s: seq<bool>, pos: nat, bytes: seq<Byte>, i: nat)
    requires HoldsBytes(s, pos, bytes) && i < |bytes|
    ensures FromBits(s[pos + 8 * i..pos + 8 * i + 8]) == bytes[i]
  {
    var b := s[pos + 8 * i..pos + 8 * i + 8];
    forall j | 0 <= j < 8 ensures Bit(bytes[i], 7 - j) == b[j] {
      assert b[j] == s[pos..pos + 8 * |bytes|][8 * i + j];
    }
    assert Pow2(8) == 256;
    WordOfBits(bytes[i], b);
  }

  /** A middle byte brings seven bits and tells whether another one follows. */
  lemma MiddleGroup(t: VarType, isNegative: bool, m: nat, n: nat, i: nat)
    requires 0 < i < n <= t.MaxBytes() && i != t.MaxBytes() - 1
    ensures var byte := VarByte(t, isNegative, m, n, i);
            && 128 * Shr(m, BitsBelow(t, n, i - 1)) + Truncate(byte, 7) == Shr(m, BitsBelow(t, n, i))
            && Bit(byte, 7) == (i + 1 < n)
  {
    assert GroupBits(t, n, i) == 7 && HasFlag(t, n, i);
    assert Pow2(7) == 128;
    NextGroup(t, m, n, i);
    VarByteFields(t, isNegative, m, n, i);
  }

  /** The last byte of the longest form brings eight bits. */
  lemma FinalGroup(t: VarType, isNegative: bool, m: nat, n: nat)
    requires n == t.MaxBytes()
    ensures 256 * Shr(m, BitsBelow(t, n, n - 2)) + VarByte(t, isNegative, m, n, n - 1) == m
  {
    assert GroupBits(t, n, n - 1) == 8 && BitsBelow(t, n, n - 1) == 0;
    assert Pow2(8) == 256;
    NextGroup(t, m, n, n - 1);
    VarByteFields(t, isNegative, m, n, n - 1);
    SmallTruncate(VarByte(t, isNegative, m, n, n - 1), 8);
  }

  /** `sums[i]` is what the reader has accumulated after byte `i`, and each byte but the last announces another. */
  predicate Accumulates(bytes: seq<Byte>, sums: seq<nat>, maxBytes: nat) {
    && 0 < |bytes| == |sums| <= maxBytes
    && forall i :: 0 < i < |bytes| ==> AccumulatesAt(bytes, sums, maxBytes, i)
  }

  predicate AccumulatesAt(bytes: seq<Byte>, sums: seq<nat>, maxBytes: nat, i: nat)
    requires 0 < i < |bytes| == |sums|
  {
    if i == maxBytes - 1 then sums[i] == 256 * sums[i - 1] + bytes[i]
    else sums[i] == 128 * sums[i - 1] + Truncate(bytes[i], 7) && Bit(bytes[i], 7) == (i + 1 < |bytes|)
  }

  lemma {:induction false} RestInverts(bytes: seq<Byte>, sums: seq<nat>, maxBytes: nat, width: nat, s: seq<bool>,
      pos: nat, i: nat)
    requires HoldsBytes(s, pos, bytes) && Accumulates(bytes, sums, maxBytes)
    requires 0 < i <= |bytes| && i < maxBytes
    ensures var last := sums[|bytes| - 1];
            DecodeRest(s, pos + 8 * i, maxBytes - i, width, sums[i - 1], i < |bytes|)
            == Decoded(if |bytes| == maxBytes then Truncate(last, width) else last, pos + 8 * |bytes|)
    decreases |bytes| - i
  {
    if i < |bytes| {
      ByteAt(s, pos, bytes, i);
      assert AccumulatesAt(bytes, sums, maxBytes, i);
      if i < maxBytes - 1 {
        RestInverts(bytes, sums, maxBytes, width, s, pos, i + 1);
      }
    }
  }

  function Sums(t: VarType, m: nat, n: nat): seq<nat> {
    seq(n, i requires 0 <= i < n => Shr(m, BitsBelow(t, n, i)))
  }

  lemma FormAccumulates(t: VarType, isNegative: bool, m: nat, n: nat)
    requires 0 < n <= t.MaxBytes()
    ensures Accumulates(FormBytes(t, isNegative, m, n), Sums(t, m, n), t.MaxBytes())
  {
    var bytes, sums := FormBytes(t, isNegative, m, n), Sums(t, m, n);
    forall i | 0 < i < n ensures AccumulatesAt(bytes, sums, t.MaxBytes(), i) {
      if i == t.MaxBytes() - 1 {
        FinalGroup(t, isNegative, m, n);
      } else {
        MiddleGroup(t, isNegative, m, n, i);
      }
    }
  }

  lemma TableBound(t: VarType, n: nat, m: nat)
    requires 1 <= n <= t.MaxBytes() && m <= t.MaxValues()[n - 1]
    ensures m < Pow2(GroupBits(t, n, 0) + BitsBelow(t, n, 0)) && m < Pow2(t.AccumulatorBits())
  {
    hide VarType.TableBits, VarType.MaxBytes, VarType.AccumulatorBits, GroupBits, BitsBelow;
    var bits := t.TableBits()[n - 1];
    assert m < Pow2(bits);
    TableFitsGroups(t, n);
    Pow2Monotone(bits, GroupBits(t, n, 0) + BitsBelow(t, n, 0));
    Pow2Monotone(bits, t.AccumulatorBits());
  }

  lemma FitsForm(t: VarType, value: int)
    requires InRange(t, value) && !(t.VarInt? && value == INT64_MIN)
    ensures var n, m := VarBytes(t, value), Magnitude(value);
            && m < Pow2(GroupBits(t, n, 0) + BitsBelow(t, n, 0))
            && m < Pow2(t.AccumulatorBits())
            && (t.VarSize? ==> m <= VARSIZE_MAX_VALUE)
  {
    hide VarType.TableBits, VarType.AccumulatorBits, GroupBits, BitsBelow;
    var n, m := VarBytes(t, value), Magnitude(value);
    BytesNeededIsLeast(m, t.MaxValues());
    TableBound(t, n, m);
    if t.VarSize? {
      VarSizeBound(m);
    }
  }

  lemma VarSizeBound(m: nat)
    requires BytesNeeded(m, VarSize.MaxValues()) <= 5
    ensures m <= VARSIZE_MAX_VALUE
  {
    CoveredByLast(m, VarSize);
    Powers();
  }

  /** The first byte brings the sign and the first group. */
  lemma FirstByte(t: VarType, isNegative: bool, m: nat, n: nat)
    requires 0 < n <= t.MaxBytes() && m < Pow2(GroupBits(t, n, 0) + BitsBelow(t, n, 0))
    ensures var byte, bits := VarByte(t, isNegative, m, n, 0), if t.Signed() then 6 else 7;
            && Truncate(byte, bits) == Shr(m, BitsBelow(t, n, 0))
            && Bit(byte, bits) == (1 < n)
            && (t.Signed() ==> Bit(byte, 7) == isNegative)
  {
    ShrBound(m, BitsBelow(t, n, 0), GroupBits(t, n, 0));
    SmallTruncate(Shr(m, BitsBelow(t, n, 0)), GroupBits(t, n, 0));
    VarByteFields(t, isNegative, m, n, 0);
  }

  /** Decoding, given what the first byte holds and what the rest yields. */
  lemma DecodeParts(t: VarType, s: seq<bool>, pos: nat, byte: Byte, isNegative: bool, m: nat, n: nat, first: nat)
    requires pos + 8 <= |s| && FromBits(s[pos..pos + 8]) == byte
    requires (isNegative ==> t.Signed() && m > 0) && (t.VarSize? ==> m <= VARSIZE_MAX_VALUE)
    requires var bits := if t.Signed() then 6 else 7;
             && Truncate(byte, bits) == first && Bit(byte, bits) == (1 < n)
             && (t.Signed() ==> Bit(byte, 7) == isNegative)
    requires DecodeRest(s, pos + 8, t.MaxBytes() - 1, t.AccumulatorBits(), first, 1 < n) == Decoded(m, pos + 8 * n)
    ensures DecodeVar(t, s, pos) == Decoded(if isNegative then 0 - m else m, pos + 8 * n)
  {
  }

  lemma FormRoundTrip(t: VarType, isNegative: bool, m: nat, n: nat, s: seq<bool>, pos: nat)
    requires 0 < n <= t.MaxBytes() && m < Pow2(GroupBits(t, n, 0) + BitsBelow(t, n, 0))
    requires m < Pow2(t.AccumulatorBits()) && (isNegative ==> t.Signed() && m > 0)
    requires t.VarSize? ==> m <= VARSIZE_MAX_VALUE
    requires HoldsBytes(s, pos, FormBytes(t, isNegative, m, n))
    ensures DecodeVar(t, s, pos) == Decoded(if isNegative then 0 - m else m, pos + 8 * n)
  {
    hide DecodeVar, DecodeRest, Truncate, Pow2, GroupBits, Accumulates, FromBits, Bit;
    var bytes, sums := FormBytes(t, isNegative, m, n), Sums(t, m, n);
    var first := bytes[0];
    assert sums[n - 1] == m && sums[0] == Shr(m, BitsBelow(t, n, 0));
    FirstByte(t, isNegative, m, n);
    ByteAt(s, pos, bytes, 0);
    FormAccumulates(t, isNegative, m, n);
    RestInverts(bytes, sums, t.MaxBytes(), t.AccumulatorBits(), s, pos, 1);
    SmallTruncate(m, t.AccumulatorBits());
    DecodeParts(t, s, pos, first, isNegative, m, n, sums[0]);
  }

  lemma NegativeZero(s: seq<bool>, pos: nat)
    requires HoldsBytes(s, pos, [0x80])
    ensures DecodeVar(VarInt, s, pos) == Decoded(INT64_MIN, pos + 8)
  {
    ByteAt(s, pos, [0x80], 0);
    assert Pow2(6) == 64;
  }

  lemma LongFormRoundTrip(t: VarType, value: int, s: seq<bool>, pos: nat)
    requires InRange(t, value) && !(t.VarInt? && value == INT64_MIN)
    requires HoldsBytes(s, pos, FormBytes(t, value < 0, Magnitude(value), VarBytes(t, value)))
    ensures DecodeVar(t, s, pos) == Decoded(value, pos + 8 * VarBytes(t, value))
  {
    hide VarType.TableBits, GroupBits, BitsBelow, DecodeVar, FormBytes;
    var n, m := VarBytes(t, value), Magnitude(value);
    FitsForm(t, value);
    FormRoundTrip(t, value < 0, m, n, s, pos);
  }

  /**
    The reader inverts the writer, whatever bits follow: it returns the value and stops after the bytes written,
    whose number is the one the size tables give.
  */
  lemma VarRoundTrip(t: VarType, value: int, s: seq<bool>, pos: nat)
    requires InRange(t, value)
    requires HoldsBytes(s, pos, EncodeVar(t, value))
    ensures DecodeVar(t, s, pos) == Decoded(value, pos + 8 * VarBytes(t, value))
  {
    if t.VarInt? && value == INT64_MIN {
      NegativeZero(s, pos);
    } else {
      LongFormRoundTrip(t, value, s, pos);
    }
  }

  /**
    The five-byte form of `varsize` has room for 36 bits, but the reader keeps only 32 of them: it accepts some
    numbers that are too large and returns them modulo 2^32.
  */
  lemma VarSizeLongForm(m: nat, s: seq<bool>, pos: nat)
    requires m < Pow2(36) && HoldsBytes(s, pos, FormBytes(VarSize, false, m, 5))
    ensures DecodeVar(VarSize, s, pos)
            == if Truncate(m, 32) <= VARSIZE_MAX_VALUE then Decoded(Truncate(m, 32), pos + 40) else Failed(OutOfRange)
    ensures DecodeVar(VarSize, s, pos) == Decoded(m, pos + 40) <==> m <= VARSIZE_MAX_VALUE
  {
    hide DecodeVar, DecodeRest, Truncate, Accumulates, FromBits, Bit;
    var bytes, sums := FormBytes(VarSize, false, m, 5), Sums(VarSize, m, 5);
    assert sums[4] == m && sums[0] == Shr(m, BitsBelow(VarSize, 5, 0));
    FirstByte(VarSize, false, m, 5);
    ByteAt(s, pos, bytes, 0);
    FormAccumulates(VarSize, false, m, 5);
    RestInverts(bytes, sums, 5, 32, s, pos, 1);
    DecodeSizeParts(s, pos, bytes[0], sums[0], Truncate(m, 32));
    if m <= VARSIZE_MAX_VALUE {
      Powers();
      SmallTruncate(m, 32);
    }
  }

  lemma DecodeSizeParts(s: seq<bool>, pos: nat, byte: Byte, first: nat, size: nat)
    requires pos + 8 <= |s| && FromBits(s[pos..pos + 8]) == byte
    requires Truncate(byte, 7) == first && Bit(byte, 7)
    requires DecodeRest(s, pos + 8, 4, 32, first, true) == Decoded(size, pos + 40)
    ensures DecodeVar(VarSize, s, pos)
            == if size <= VARSIZE_MAX_VALUE then Decoded(size, pos + 40) else Failed(OutOfRange)
  {
    hide DecodeRest, Truncate;
  }

  /** A number that is too large and is read as one. */
  lemma OverlongVarSize(s: seq<bool>, pos: nat)
    requires HoldsBytes(s, pos, FormBytes(VarSize, false, 0x1_0000_0001, 5))
    ensures DecodeVar(VarSize, s, pos) == Decoded(1, pos + 40)
  {
    Powers();
    Pow2Sum(32, 4);
    assert Pow2(4) == 16;
    ModIsRemainder(0x1_0000_0001, Pow2(32), 1, 1);
    VarSizeLongForm(0x1_0000_0001, s, pos);
  }
}
