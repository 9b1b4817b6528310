/** Whole runs of the writer and of the reader. */
module Serialization {
  import opened Bits
  import opened Streams
  import opened Items
  import opened Writer
  import opened Reader

  lemma {:induction false} StreamBitsAppend(items: seq<Item>, item: Item, pos: nat)
    requires AllWritable(items) && Writable(item)
    ensures AllWritable(items + [item])
    ensures var b := StreamBits(items, pos);
            StreamBits(items + [item], pos) == b + ItemBits(item, pos + |b|)
    decreases |items|
  {
    hide ItemBits, Writable;
    if items == [] {
      assert items + [item] == [item];
      assert StreamBits([item], pos) == ItemBits(item, pos) + StreamBits([], pos + |ItemBits(item, pos)|);
    } else {
      assert (items + [item])[1..] == items[1..] + [item];
      StreamBitsAppend(items[1..], item, pos + |ItemBits(items[0], pos)|);
    }
  }

  /** The stream of some first items is a front part of the whole stream. */
  lemma {:induction false} StreamBitsPrefix(items: seq<Item>, i: nat, pos: nat)
    requires AllWritable(items) && i <= |items|
    ensures StreamBits(items[..i], pos) <= StreamBits(items, pos)
    decreases |items| - i
  {
    hide ItemBits, Writable;
    if i == |items| {
      assert items[..i] == items;
    } else {
      assert items[..i + 1] == items[..i] + [items[i]];
      StreamBitsAppend(items[..i], items[i], pos);
      StreamBitsPrefix(items, i + 1, pos);
    }
  }

  /** What the writer accepts at the positions the items get. */
  predicate RepresentableFrom(items: seq<Item>, pos: nat)
    requires AllWritable(items)
  {
    items != [] ==>
      RepresentableAt(items[0], pos) && RepresentableFrom(items[1..], pos + |ItemBits(items[0], pos)|)
  }

  lemma {:induction false} RepresentableThere(items: seq<Item>, i: nat, pos: nat)
    requires AllWritable(items) && RepresentableFrom(items, pos) && i < |items|
    ensures RepresentableAt(items[i], pos + |StreamBits(items[..i], pos)|)
    decreases i
  {
    hide ItemBits, Writable, RepresentableAt;
    if i > 0 {
      RepresentableThere(items[1..], i - 1, pos + |ItemBits(items[0], pos)|);
      assert items[..i][1..] == items[1..][..i - 1];
    }
  }

  /** Writes items one after the other. */
  method WriteItems(w: BitStreamWriter, items: seq<Item>) returns (r: WriteResult)
    requires w.Valid() && AllWritable(items) && RepresentableFrom(items, w.bitIndex)
    modifies w`bitIndex, w.buffer
    ensures r == if old(w.HasRoom(|StreamBits(items, w.bitIndex)|)) then Written else InsufficientCapacity
    ensures r.Written? ==> w.Appended(old(w.Content()), old(w.bitIndex), StreamBits(items, old(w.bitIndex)))
    ensures r.InsufficientCapacity? ==>
              w.AppendedPrefix(old(w.Content()), old(w.bitIndex), StreamBits(items, old(w.bitIndex)))
  {
    hide ItemBits, Writable, RepresentableAt, BytesToBits, Splice, BitStreamWriter.AppendedPrefix, StreamBits;
    ghost var before, pos := w.Content(), w.bitIndex;
    w.NothingWrittenYet();
    NoItems(pos);
    for i := 0 to |items|
      invariant w.Appended(before, pos, StreamBits(items[..i], pos))
    {
      ghost var done, mid := StreamBits(items[..i], pos), w.Content();
      ghost var next := ItemBits(items[i], w.bitIndex);
      StreamBitsAppend(items[..i], items[i], pos);
      assert items[..i + 1] == items[..i] + [items[i]];
      StreamBitsPrefix(items, i + 1, pos);
      RepresentableThere(items, i, pos);
      r := w.WriteItem(items[i]);
      if r != Written {
        w.PrefixAfter(before, pos, done, mid, next);
        ghost var rest := StreamBits(items, pos)[|done + next|..];
        assert StreamBits(items, pos) == (done + next) + rest;
        w.PrefixBefore(before, pos, done + next, rest);
        return;
      }
      w.AppendedAfter(before, pos, done, mid, next);
    }
    assert items[..|items|] == items;
    r := Written;
  }

  lemma NoItems(pos: nat)
    ensures StreamBits([], pos) == BytesToBits([])
  {
  }

  /** Reads items of the given shapes one after the other. */
  method ReadItems(reader: BitStreamReader, shapes: seq<Shape>) returns (r: ReadResult<seq<Item>>)
    requires reader.Valid() && AllReadable(shapes)
    modifies reader
    ensures reader.Agrees(r, DecodeStream(shapes, reader.Content(), old(reader.bitIndex)))
  {
    hide DecodeItem, Readable, Caches, BitStreamReader.Content;
    ghost var s, pos := reader.Content(), reader.bitIndex;
    var items: seq<Item> := [];
    PrependNothing(DecodeStream(shapes, s, pos));
    assert shapes[0..] == shapes;
    for i := 0 to |shapes|
      invariant reader.Valid()
      invariant DecodeStream(shapes, s, pos) == Prepend(items, DecodeStream(shapes[i..], s, reader.bitIndex))
    {
      ghost var here := reader.bitIndex;
      var item := reader.ReadItem(shapes[i]);
      assert shapes[i..][1..] == shapes[i + 1..];
      if item.Error? {
        return Error(item.error);
      }
      PrependTwice(items, item.value, DecodeStream(shapes[i + 1..], s, reader.bitIndex));
      items := items + [item.value];
    }
    assert items + [] == items;
    return Value(items);
  }

  function Prepend(items: seq<Item>, d: Decoded<seq<Item>>): Decoded<seq<Item>> {
    match d
    case Decoded(rest, next) => Decoded(items + rest, next)
    case Failed(error) => Failed(error)
  }

  lemma PrependNothing(d: Decoded<seq<Item>>)
    ensures Prepend([], d) == d
  {
    if d.Decoded? {
      assert [] + d.value == d.value;
    }
  }

  lemma PrependTwice(items: seq<Item>, item: Item, d: Decoded<seq<Item>>)
    ensures Prepend(items, Prepend([item], d)) == Prepend(items + [item], d)
  {
    if d.Decoded? {
      assert items + ([item] + d.value) == (items + [item]) + d.value;
    }
  }

  /**
    Items written at any position of a buffer, whatever it held, are read back by readers with either cache width,
    which stop where the writer stopped.
  */
  method WriteThenRead(buffer: array<Byte>, bufferBitSize: nat, start: nat, items: seq<Item>, cacheBitSize: nat)
    returns (r: WriteResult, back: ReadResult<seq<Item>>, end: nat)
    requires start <= bufferBitSize <= 8 * buffer.Length && (cacheBitSize == 32 || cacheBitSize == 64)
    requires AllWritable(items) && RepresentableFrom(items, start)
    modifies buffer
    ensures r == if start + |StreamBits(items, start)| <= bufferBitSize then Written else InsufficientCapacity
    ensures r.Written? ==> back == Value(CanonicalAll(items)) && end == start + |StreamBits(items, start)|
  {
    hide ItemBits, Writable, RepresentableFrom, Canonical, ShapeOf, BytesToBits, BitStreamWriter.AppendedPrefix, Caches;
    var w := new BitStreamWriter(buffer, bufferBitSize);
    r := w.SetBitPosition(start);
    ghost var before, b := w.Content(), StreamBits(items, start);
    r := WriteItems(w, items);
    back, end := Error(EndOfStream), 0;
    if r.Written? {
      var reader := new BitStreamReader(buffer[..], bufferBitSize, cacheBitSize);
      var moved := reader.SetBitPosition(start);
      HoldsSpliced(before, start, b, bufferBitSize);
      StreamRoundTrip(items, reader.Content(), start);
      back := ReadItems(reader, ShapesOf(items));
      end := reader.bitIndex;
    }
  }

  lemma HoldsSpliced(before: seq<bool>, pos: nat, b: seq<bool>, size: nat)
    requires pos + |b| <= size <= |before|
    ensures Holds(Splice(before, pos, b)[..size], pos, b)
  {
  }

  /** Readers with a 32-bit and a 64-bit cache give the same results on the same buffer. */
  method ReadWithBothCaches(buffer: seq<Byte>, bufferBitSize: nat, start: nat, shapes: seq<Shape>)
    returns (narrow: ReadResult<seq<Item>>, wide: ReadResult<seq<Item>>)
    requires start <= bufferBitSize <= 8 * |buffer| && AllReadable(shapes)
    ensures narrow == wide
    ensures var d := DecodeStream(shapes, BytesToBits(buffer)[..bufferBitSize], start);
            wide == if d.Decoded? then Value(d.value) else Error(d.error)
  {
    hide DecodeItem, Readable, Caches, BytesToBits;
    var reader32 := new BitStreamReader(buffer, bufferBitSize, 32);
    var reader64 := new BitStreamReader(buffer, bufferBitSize, 64);
    var moved32 := reader32.SetBitPosition(start);
    var moved64 := reader64.SetBitPosition(start);
    narrow := ReadItems(reader32, shapes);
    wide := ReadItems(reader64, shapes);
  }

  // ----- runs with seeks -----

  /** What a caller asks of a reader: to read something of a known shape, to align, or to go to a position. */
  datatype ReadStep = ReadOf(shape: Shape) | Seek(position: nat)

  /** What the caller gets; going to a position beyond the end fails like a read. */
  datatype Outcome = Got(item: Item) | Moved | Refused(error: ReadError)

  predicate AllStepsReadable(steps: seq<ReadStep>) {
    forall i :: 0 <= i < |steps| ==> steps[i].ReadOf? ==> Readable(steps[i].shape)
  }

  /**
    The outcome of one step and the position after it, as the bits determine them. After a failed read the position is
    `None`; from there on the bits do not determine what reads return, until a seek succeeds.
  */
  datatype Stepped = Stepped(outcome: Option<Outcome>, position: Option<nat>)

  function StepAt(step: ReadStep, s: seq<bool>, position: Option<nat>): Stepped
    requires step.ReadOf? ==> Readable(step.shape)
  {
    match step
    case Seek(target) =>
      if target <= |s| then Stepped(Some(Moved), Some(target)) else Stepped(Some(Refused(EndOfStream)), position)
    case ReadOf(shape) =>
      if position == None then Stepped(None, None)
      else
        match DecodeItem(shape, s, position.value)
        case Decoded(item, next) => Stepped(Some(Got(item)), Some(next))
        case Failed(error) => Stepped(Some(Refused(error)), None)
  }

  /** The position after some steps. */
  function PositionAfter(steps: seq<ReadStep>, s: seq<bool>, pos: nat): Option<nat>
    requires AllStepsReadable(steps)
  {
    if steps == [] then Some(pos)
    else StepAt(steps[|steps| - 1], s, PositionAfter(steps[..|steps| - 1], s, pos)).position
  }

  /** The outcome of step `i`. */
  function OutcomeOf(steps: seq<ReadStep>, i: nat, s: seq<bool>, pos: nat): Option<Outcome>
    requires AllStepsReadable(steps) && i < |steps|
  {
    StepAt(steps[i], s, PositionAfter(steps[..i], s, pos)).outcome
  }

  /** One step of a run; the reader is valid whenever the bits determine its position. */
  method RunStep(reader: BitStreamReader, step: ReadStep, ghost position: Option<nat>) returns (outcome: Outcome)
    requires reader.Usable() && (step.ReadOf? ==> Readable(step.shape))
    requires position.Some? ==> reader.Valid() && reader.bitIndex == position.value
    modifies reader
    ensures reader.Usable()
    ensures var stepped := StepAt(step, reader.Content(), position);
            && (stepped.outcome.Some? ==> outcome == stepped.outcome.value)
            && (stepped.position.Some? ==> reader.Valid() && reader.bitIndex == stepped.position.value)
  {
    hide DecodeItem, Readable, Caches, BitStreamReader.Content;
    match step
    case ReadOf(shape) =>
      var item := reader.ReadItem(shape);
      outcome := if item.Error? then Refused(item.error) else Got(item.value);
    case Seek(target) =>
      var ok := reader.SetBitPosition(target);
      outcome := if ok then Moved else Refused(EndOfStream);
  }

  /**
    Over every run of reads, alignments and seeks the cached reader gives the outcomes that the plain bits determine:
    of all steps but the reads between a failed read and the next successful seek.
  */
  method RunReader(reader: BitStreamReader, steps: seq<ReadStep>) returns (outcomes: seq<Outcome>)
    requires reader.Valid() && AllStepsReadable(steps)
    modifies reader
    ensures |outcomes| == |steps|
    ensures forall i :: 0 <= i < |steps| ==>
              match OutcomeOf(steps, i, reader.Content(), old(reader.bitIndex))
              case Some(outcome) => outcomes[i] == outcome
              case None => true
    ensures match PositionAfter(steps, reader.Content(), old(reader.bitIndex))
            case Some(position) => reader.Valid() && reader.bitIndex == position
            case None => true
  {
    hide StepAt, Readable, Caches, BitStreamReader.Content;
    ghost var s, pos := reader.Content(), reader.bitIndex;
    outcomes := [];
    for i := 0 to |steps|
      invariant reader.Usable() && |outcomes| == i
      invariant var position := PositionAfter(steps[..i], s, pos);
                position.Some? ==> reader.Valid() && reader.bitIndex == position.value
      invariant forall j :: 0 <= j < i ==>
                  OutcomeOf(steps, j, s, pos).Some? ==> outcomes[j] == OutcomeOf(steps, j, s, pos).value
    {
      assert steps[..i + 1][..i] == steps[..i];
      var outcome := RunStep(reader, steps[i], PositionAfter(steps[..i], s, pos));
      outcomes := outcomes + [outcome];
    }
    assert steps[..|steps|] == steps;
  }

  /** No seek after step `i` stays inside the stream. */
  predicate NoSeekAfter(steps: seq<ReadStep>, i: nat, s: seq<bool>) {
    forall j :: i < j < |steps| && steps[j].Seek? ==> steps[j].position > |s|
  }

  /** Step `i` is a read that fails and is not followed by a successful seek. */
  predicate FailsForGood(steps: seq<ReadStep>, i: nat, s: seq<bool>, pos: nat)
    requires AllStepsReadable(steps)
  {
    && i < |steps| && steps[i].ReadOf? && NoSeekAfter(steps, i, s)
    && OutcomeOf(steps, i, s, pos).Some? && OutcomeOf(steps, i, s, pos).value.Refused?
  }

  /** Nothing but a failed read leaves the position undetermined, and only until a seek succeeds. */
  lemma {:induction false} UndeterminedIff(steps: seq<ReadStep>, s: seq<bool>, pos: nat)
    requires AllStepsReadable(steps)
    ensures PositionAfter(steps, s, pos) == None <==> exists i :: FailsForGood(steps, i, s, pos)
    decreases |steps|
  {
    hide DecodeItem, Readable;
    if steps != [] {
      var n := |steps| - 1;
      var front := steps[..n];
      UndeterminedIff(front, s, pos);
      forall i | 0 <= i < n
        ensures OutcomeOf(steps, i, s, pos) == OutcomeOf(front, i, s, pos)
      {
        assert steps[..i] == front[..i];
      }
      if PositionAfter(steps, s, pos) == None {
        if PositionAfter(front, s, pos) == None {
          var i :| FailsForGood(front, i, s, pos);
          assert FailsForGood(steps, i, s, pos);
        } else {
          assert FailsForGood(steps, n, s, pos);
        }
      } else if i: nat :| FailsForGood(steps, i, s, pos) {
        if i < n {
          assert FailsForGood(front, i, s, pos);
        }
      }
    }
  }

  /**
    After a failed read the cache no longer belongs to the position: the next read of four bits does not fail, although
    the reader is at the end, but returns the last four bits once more and moves beyond the end.
  */
  method FailedReadLeavesStaleCache() returns (failed: ReadResult<nat>, stale: ReadResult<nat>, end: nat, position: nat)
    ensures failed == Error(EndOfStream) && stale == Value(5) && end == 8 && position == 12
  {
    var reader := new BitStreamReader([0xA5], 8, 32);
    LastFourBits();
    var first := reader.ReadUnsignedBits32(4);
    failed := reader.ReadUnsignedBits32(32);
    assert reader.cacheNumBits == 4 && ToBits(reader.cache, 4)[..4] == reader.Content()[4..8];
    stale := reader.ReadUnsignedBits32(4);
    end, position := reader.bufferBitSize, reader.bitIndex;
  }

  lemma LastFourBits()
    ensures FromBits(BytesToBits([0xA5])[..8][4..8]) == 5
  {
    var t := BytesToBits([0xA5]);
    var b := t[..8][4..8];
    assert t[4] == Bit(0xA5, 3) && t[5] == Bit(0xA5, 2) && t[6] == Bit(0xA5, 1) && t[7] == Bit(0xA5, 0);
    assert Bit(0xA5, 0) && !Bit(0xA5, 1) && Bit(0xA5, 2) && !Bit(0xA5, 3);
    assert b == [false, true, false, true];
    assert b[..3][..2][..1] == [false] && b[..3][..2] == [false, true] && b[..3] == [false, true, false];
    assert FromBits([false]) == 0 && FromBits([false, true]) == 1 && FromBits([false, true, false]) == 2;
  }
}
