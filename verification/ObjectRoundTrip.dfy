/** From an object to text and back: an observer of the parsed text is told what the object holds. */
module ObjectRoundTrip {
  import opened Bits
  import opened Streams
  import opened JsonCoding
  import opened JsonTokens
  import opened JsonParsing
  import opened Walking
  import JsonRoundTrip
  import JsonWalk
  import W = JsonWriting

  // ----- what an object holds -----

  /** Integers of 64 bits, no floating-point numbers, and no array directly in an array. */
  predicate StorableFields(fields: seq<Field>)
    decreases fields, 0
  {
    fields != [] ==> StorableField(fields[0].value) && StorableFields(fields[1..])
  }

  predicate StorableField(node: Node)
    decreases node, 2
  {
    if node.Array? then StorableElements(node.elements) else StorableValue(node)
  }

  predicate StorableElements(elements: seq<Node>)
    decreases elements, 0
  {
    elements != [] ==> StorableValue(elements[0]) && StorableElements(elements[1..])
  }

  predicate StorableValue(node: Node)
    decreases node, 1
  {
    match node
    case Missing => true
    case Scalar(Bool(_)) => true
    case Scalar(Int(integer)) => -0x8000_0000_0000_0000 <= integer < 0x1_0000_0000_0000_0000
    case Scalar(UInt(natural)) => natural < 0x1_0000_0000_0000_0000
    case Scalar(Str(_)) => true
    case ByteArray(_) => true
    case BitArray(_, bitSize) => bitSize < 0x1_0000_0000_0000_0000
    case Compound(_, fields) => StorableFields(fields)
    case _ => false
  }

  /** A number as the parser reports it: signed only when it is negative. */
  function Reported(value: JsonValue): JsonValue {
    if value.Int? && value.integer >= 0 then UInt(value.integer) else value
  }

  function FieldCalls(name: string, node: Node): seq<Event>
    decreases node, 3
  {
    [Key(name)]
    + if node.Array? then [Event.ArrayBegins] + ElementCalls(node.elements) + [Event.ArrayEnds] else ValueCalls(node)
  }

  function AllFieldCalls(fields: seq<Field>): seq<Event>
    decreases fields, 0
  {
    if fields == [] then [] else FieldCalls(fields[0].name, fields[0].value) + AllFieldCalls(fields[1..])
  }

  /** The calls for the first field with a name. */
  function NamedFieldCalls(name: string, fields: seq<Field>): seq<Event>
    decreases fields, 0
  {
    if fields == [] then []
    else if fields[0].name == name then FieldCalls(name, fields[0].value)
    else NamedFieldCalls(name, fields[1..])
  }

  function ElementCalls(elements: seq<Node>): seq<Event>
    decreases elements, 0
  {
    if elements == [] then [] else ValueCalls(elements[0]) + ElementCalls(elements[1..])
  }

  function NumberCalls(bytes: seq<Byte>): seq<Event> {
    if bytes == [] then [] else [Visit(UInt(bytes[0]))] + NumberCalls(bytes[1..])
  }

  function BufferCalls(bytes: seq<Byte>): seq<Event> {
    [Key("buffer"), Event.ArrayBegins] + NumberCalls(bytes) + [Event.ArrayEnds]
  }

  function ValueCalls(node: Node): seq<Event>
    decreases node, 2
  {
    match node
    case Missing => [Visit(Null)]
    case Scalar(value) => [Visit(Reported(value))]
    case ByteArray(bytes) => [ObjectBegins] + BufferCalls(bytes) + [ObjectEnds]
    case BitArray(data, bitSize) =>
      [ObjectBegins] + BufferCalls(data) + [Key("bitSize"), Visit(UInt(bitSize)), ObjectEnds]
    case Compound(None, fields) => [ObjectBegins] + AllFieldCalls(fields) + [ObjectEnds]
    case Compound(Some(choice), fields) =>
      [ObjectBegins] + (if choice == "" then [] else NamedFieldCalls(choice, fields)) + [ObjectEnds]
    case Array(_) => []
  }

  // ----- its tree has these calls -----

  lemma {:induction false} BytesCalls(bytes: seq<Byte>)
    ensures JsonRoundTrip.ElementEvents(W.Numbers(bytes)) == NumberCalls(bytes)
    ensures JsonRoundTrip.ElementsInRange(W.Numbers(bytes))
    decreases |bytes|
  {
    if bytes != [] {
      BytesCalls(bytes[1..]);
      assert W.Numbers(bytes)[1..] == W.Numbers(bytes[1..]);
    }
  }

  /** The members that hold the bytes of a value. */
  lemma BufferTree(bytes: seq<Byte>, more: seq<W.Member>)
    ensures var members := [W.Member("buffer", W.JsonArray(W.Numbers(bytes)))] + more;
            && JsonRoundTrip.MemberEvents(members) == BufferCalls(bytes) + JsonRoundTrip.MemberEvents(more)
            && JsonRoundTrip.MembersInRange(members) == JsonRoundTrip.MembersInRange(more)
  {
    hide W.Numbers, NumberCalls, JsonRoundTrip.ElementEvents, JsonRoundTrip.ElementsInRange;
    var members := [W.Member("buffer", W.JsonArray(W.Numbers(bytes)))] + more;
    BytesCalls(bytes);
    assert members[1..] == more;
    assert JsonRoundTrip.TreeEvents(members[0].value) == [Event.ArrayBegins] + (NumberCalls(bytes) + [Event.ArrayEnds]);
  }

  lemma ByteArrayTree(bytes: seq<Byte>)
    ensures JsonRoundTrip.TreeEvents(W.BytesTree(bytes)) == ValueCalls(ByteArray(bytes))
    ensures JsonRoundTrip.InRange(W.BytesTree(bytes))
  {
    hide W.Numbers, NumberCalls, BufferCalls;
    BufferTree(bytes, []);
    var members := [W.Member("buffer", W.JsonArray(W.Numbers(bytes)))];
    assert members + [] == members && JsonRoundTrip.MemberEvents([]) == [];
  }

  lemma BitArrayTree(data: seq<Byte>, bitSize: nat)
    requires bitSize < 0x1_0000_0000_0000_0000
    ensures JsonRoundTrip.TreeEvents(W.BitBufferTree(data, bitSize)) == ValueCalls(BitArray(data, bitSize))
    ensures JsonRoundTrip.InRange(W.BitBufferTree(data, bitSize))
  {
    hide W.Numbers, NumberCalls, BufferCalls;
    var first, second := W.Member("buffer", W.JsonArray(W.Numbers(data))), W.Member("bitSize", W.JsonInteger(bitSize));
    BufferTree(data, [second]);
    assert [first] + [second] == [first, second];
    assert [second][1..] == [];
    assert JsonRoundTrip.MemberEvents([second]) == [Key("bitSize"), Visit(UInt(bitSize))];
  }

  lemma {:induction false} FieldsTree(fields: seq<Field>)
    requires StorableFields(fields)
    ensures JsonWalk.PrintableFields(fields)
    ensures JsonRoundTrip.MemberEvents(JsonWalk.MembersOf(fields)) == AllFieldCalls(fields)
    ensures JsonRoundTrip.MembersInRange(JsonWalk.MembersOf(fields))
    decreases fields, 0
  {
    hide FieldCalls, StorableField, JsonWalk.PrintableField, JsonWalk.FieldTree, JsonRoundTrip.TreeEvents,
      JsonRoundTrip.InRange;
    if fields != [] {
      FieldTree(fields[0].name, fields[0].value);
      FieldsTree(fields[1..]);
      OneMoreMember(W.Member(fields[0].name, JsonWalk.FieldTree(fields[0].value)), JsonWalk.MembersOf(fields[1..]));
    }
  }

  lemma OneMoreMember(member: W.Member, more: seq<W.Member>)
    ensures JsonRoundTrip.MemberEvents([member] + more)
            == ([Key(member.key)] + JsonRoundTrip.TreeEvents(member.value)) + JsonRoundTrip.MemberEvents(more)
    ensures JsonRoundTrip.MembersInRange([member] + more)
            == (JsonRoundTrip.InRange(member.value) && JsonRoundTrip.MembersInRange(more))
  {
    hide JsonRoundTrip.TreeEvents, JsonRoundTrip.InRange;
    assert ([member] + more)[1..] == more;
    JsonRoundTrip.JoinEvents([Key(member.key)], JsonRoundTrip.TreeEvents(member.value),
                             JsonRoundTrip.MemberEvents(more));
  }

  lemma {:induction false} FieldTree(name: string, node: Node)
    requires StorableField(node)
    ensures JsonWalk.PrintableField(node)
    ensures [Key(name)] + JsonRoundTrip.TreeEvents(JsonWalk.FieldTree(node)) == FieldCalls(name, node)
    ensures JsonRoundTrip.InRange(JsonWalk.FieldTree(node))
    decreases node, 2
  {
    hide ElementCalls, ValueCalls, JsonRoundTrip.ElementEvents, JsonRoundTrip.ElementsInRange, JsonWalk.ElementsOf,
      JsonWalk.ValueTree;
    if node.Array? {
      ElementsTree(node.elements);
    } else {
      ValueTree(node);
    }
  }

  lemma {:induction false} ElementsTree(elements: seq<Node>)
    requires StorableElements(elements)
    ensures JsonWalk.PrintableElements(elements)
    ensures JsonRoundTrip.ElementEvents(JsonWalk.ElementsOf(elements)) == ElementCalls(elements)
    ensures JsonRoundTrip.ElementsInRange(JsonWalk.ElementsOf(elements))
    decreases elements, 0
  {
    hide ValueCalls, StorableValue, JsonWalk.PrintableValue, JsonWalk.ValueTree, JsonRoundTrip.TreeEvents,
      JsonRoundTrip.InRange;
    if elements != [] {
      ValueTree(elements[0]);
      ElementsTree(elements[1..]);
      assert JsonWalk.ElementsOf(elements)[1..] == JsonWalk.ElementsOf(elements[1..]);
    }
  }

  /** The tree of the chosen field. */
  lemma {:induction false} ChosenTree(name: string, fields: seq<Field>)
    requires StorableFields(fields)
    ensures match Find(fields, name)
            case None => NamedFieldCalls(name, fields) == []
            case Some(i) =>
              NamedFieldCalls(name, fields) == FieldCalls(name, fields[i].value) && StorableField(fields[i].value)
    decreases fields, 0
  {
    hide FieldCalls, StorableField;
    if fields != [] {
      ChosenTree(name, fields[1..]);
    }
  }

  lemma {:induction false} CompoundTree(choice: Option<string>, fields: seq<Field>)
    requires StorableFields(fields)
    ensures JsonWalk.PrintableFields(fields)
    ensures ValueCalls(Compound(choice, fields))
            == [ObjectBegins] + JsonRoundTrip.MemberEvents(JsonWalk.CompoundMembers(choice, fields)) + [ObjectEnds]
    ensures JsonRoundTrip.MembersInRange(JsonWalk.CompoundMembers(choice, fields))
    decreases fields, 1
  {
    hide FieldCalls, AllFieldCalls, NamedFieldCalls, Find, JsonRoundTrip.TreeEvents, JsonWalk.FieldTree,
      JsonRoundTrip.InRange, JsonWalk.MembersOf;
    FieldsTree(fields);
    if choice.Some? {
      ChosenTree(choice.value, fields);
      var found := Chosen(choice.value, fields);
      if found.Some? {
        FieldIsSmaller(fields, found.value);
        FieldTree(fields[found.value].name, fields[found.value].value);
        var member := W.Member(fields[found.value].name, JsonWalk.FieldTree(fields[found.value].value));
        assert [member][1..] == [] && JsonRoundTrip.MemberEvents([]) == [];
      }
    }
  }

  lemma FieldIsSmaller(fields: seq<Field>, i: nat)
    requires i < |fields|
    ensures fields[i] in fields
  {
  }

  lemma {:induction false} ValueTree(node: Node)
    requires StorableValue(node)
    ensures JsonWalk.PrintableValue(node)
    ensures JsonRoundTrip.TreeEvents(JsonWalk.ValueTree(node)) == ValueCalls(node)
    ensures JsonRoundTrip.InRange(JsonWalk.ValueTree(node))
    decreases node, 1
  {
    hide W.BytesTree, W.BitBufferTree, JsonRoundTrip.MemberEvents, JsonRoundTrip.MembersInRange,
      JsonWalk.CompoundMembers, JsonWalk.PrintableFields, AllFieldCalls, NamedFieldCalls, BufferCalls;
    match node
    case ByteArray(bytes) => ByteArrayTree(bytes);
    case BitArray(data, bitSize) => BitArrayTree(data, bitSize);
    case Compound(choice, fields) => CompoundTree(choice, fields);
    case _ =>
  }

  // ----- walking, printing and parsing -----

  /**
    An object is walked with the printer as its observer, the text is cut into chunks in any way and parsed: the
    observer of the parser is told what the object holds.
  */
  method PrintAndParse(root: Node, indent: W.Indent, regex: string -> bool, size: nat, strtod: StrToD)
    returns (text: string, atEnd: Option<bool>, events: seq<Event>)
    requires root.Compound? && StorableValue(root) && size > 0
    ensures atEnd == Some(true) && events == ValueCalls(root)
  {
    hide ValueCalls, W.Text, JsonRoundTrip.TreeEvents, JsonWalk.CompoundMembers;
    ValueTree(root);
    text := JsonWalk.WalkAndPrint(root, indent, regex);
    var chunks := Cut(text, size);
    ghost var members := JsonWalk.CompoundMembers(root.choice, root.fields);
    atEnd, events := JsonRoundTrip.ParsePrinted(members, indent, chunks, strtod);
  }

  /** The chunks of a stream that is read by a fixed number of characters at a time. */
  method Cut(text: string, size: nat) returns (chunks: seq<string>)
    requires size > 0
    ensures Joined(chunks) == text && forall i :: 0 <= i < |chunks| ==> 0 < |chunks[i]| <= size
  {
    chunks := [];
    var rest := text;
    NothingJoined();
    while rest != ""
      invariant forall i :: 0 <= i < |chunks| ==> 0 < |chunks[i]| <= size
      invariant Joined(chunks) + rest == text
      decreases |rest|
    {
      var n := if |rest| < size then |rest| else size;
      JoinedLast(chunks, rest[..n]);
      assert rest == rest[..n] + rest[n..];
      chunks := chunks + [rest[..n]];
      rest := rest[n..];
    }
  }

  lemma JoinedLast(chunks: seq<string>, last: string)
    ensures Joined(chunks + [last]) == Joined(chunks) + last
  {
    JoinedSplit(chunks + [last], |chunks|);
    assert (chunks + [last])[..|chunks|] == chunks && (chunks + [last])[|chunks|..] == [last];
    OneChunk(last);
  }
}
