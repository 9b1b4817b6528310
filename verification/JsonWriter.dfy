/** The printer, an observer of a walk that keeps the state of separators and of the nesting level. */
module JsonWriting {
  import opened Bits
  import opened Streams
  import opened JsonCoding

  /** What can be printed, without floating-point numbers. */
  datatype Json =
    | JsonNull
    | JsonBool(flag: bool)
    | JsonInteger(integer: int)
    | JsonString(text: string)
    | JsonObject(members: seq<Member>)
    | JsonArray(elements: seq<Json>)

  datatype Member = Member(key: string, value: Json)

  /** A number of spaces for each level, or no line breaks at all. */
  type Indent = Option<nat>

  predicate IsScalar(j: Json) {
    !j.JsonObject? && !j.JsonArray?
  }

  // ----- text of a tree -----

  function Spaces(n: nat): string {
    seq(n, _ => ' ')
  }

  function Indentation(n: nat, level: nat): string {
    if level == 0 then "" else Indentation(n, level - 1) + Spaces(n)
  }

  function NewLine(indent: Indent, level: nat): string {
    if indent.Some? then "\n" + Indentation(indent.value, level) else ""
  }

  function ItemSeparator(indent: Indent): string {
    if indent.Some? then "," else ", "
  }

  const KEY_SEPARATOR: string := ": "

  /** What precedes an item. */
  function Lead(indent: Indent, level: nat, isFirst: bool): string {
    (if isFirst then "" else ItemSeparator(indent)) + NewLine(indent, level)
  }

  function KeyText(key: Option<string>): string {
    if key.Some? then Quoted(key.value) + KEY_SEPARATOR else ""
  }

  function ScalarText(j: Json): string
    requires IsScalar(j)
  {
    match j
    case JsonNull => "null"
    case JsonBool(flag) => if flag then "true" else "false"
    case JsonInteger(integer) => Integral(integer)
    case JsonString(text) => Quoted(text)
  }

  function Text(j: Json, indent: Indent, level: nat): string
    decreases j, 0
  {
    match j
    case JsonObject(members) => "{" + MembersText(members, indent, level + 1, true) + (NewLine(indent, level) + "}")
    case JsonArray(elements) => "[" + ElementsText(elements, indent, level + 1, true) + (NewLine(indent, level) + "]")
    case _ => ScalarText(j)
  }

  /** An item on its own line, with its key when it has one. */
  function ItemText(key: Option<string>, value: Json, indent: Indent, level: nat, isFirst: bool): string
    decreases value, 1
  {
    Lead(indent, level, isFirst) + (KeyText(key) + Text(value, indent, level))
  }

  function MembersText(members: seq<Member>, indent: Indent, level: nat, isFirst: bool): string
    decreases members
  {
    if members == [] then ""
    else
      ItemText(Some(members[0].key), members[0].value, indent, level, isFirst)
      + MembersText(members[1..], indent, level, false)
  }

  function ElementsText(elements: seq<Json>, indent: Indent, level: nat, isFirst: bool): string
    decreases elements
  {
    if elements == [] then ""
    else ItemText(None, elements[0], indent, level, isFirst) + ElementsText(elements[1..], indent, level, false)
  }

  /** An indentation is as many spaces as the level says. */
  lemma {:induction false} IndentationIsSpaces(n: nat, level: nat)
    ensures |Indentation(n, level)| == n * level
    ensures forall i :: 0 <= i < |Indentation(n, level)| ==> Indentation(n, level)[i] == ' '
  {
    if level > 0 {
      IndentationIsSpaces(n, level - 1);
      assert n * level == n * (level - 1) + n;
    }
  }

  const EXAMPLE: Json := JsonObject([Member("a", JsonNull), Member("b", JsonBool(true))])

  /** The text of a small tree, without and with line breaks. */
  lemma ExampleText()
    ensures Text(EXAMPLE, None, 0) == "{" + "\"a\": null" + ", " + "\"b\": true" + "}"
    ensures Text(EXAMPLE, Some(2), 0)
            == "{" + "\n  " + "\"a\": null" + ",\n  " + "\"b\": true" + "\n" + "}"
  {
    hide Text, Lead, NewLine;
    ExampleLeads();
    ExampleParts(None);
    JoinedExample("", ", ", "");
    ExampleParts(Some(2));
    JoinedExample("\n  ", ",\n  ", "\n");
  }

  lemma JoinedExample(lead: string, between: string, end: string)
    ensures "{" + ((lead + ("\"a\": " + "null")) + ((between + ("\"b\": " + "true")) + "")) + (end + "}")
            == "{" + lead + "\"a\": null" + between + "\"b\": true" + end + "}"
  {
  }

  lemma ExampleParts(indent: Indent)
    ensures Text(EXAMPLE, indent, 0)
            == "{" + ((Lead(indent, 1, true) + ("\"a\": " + "null"))
                      + ((Lead(indent, 1, false) + ("\"b\": " + "true")) + "")) + (NewLine(indent, 0) + "}")
  {
    hide Lead, KeyText, NewLine;
    var a, b := Member("a", JsonNull), Member("b", JsonBool(true));
    assert [a, b][1..] == [b] && [b][1..] == [];
    ExampleKeys();
    OneMember([a, b], indent, 1, true);
    OneMember([b], indent, 1, false);
    assert MembersText([], indent, 1, false) == "";
  }

  lemma ExampleKeys()
    ensures KeyText(Some("a")) == "\"a\": " && KeyText(Some("b")) == "\"b\": "
  {
    assert Escape("") == "" && "a"[1..] == "" && "b"[1..] == "";
    assert Escape("a") == "a" && Escape("b") == "b";
  }

  lemma ExampleLeads()
    ensures Lead(None, 1, true) == "" && Lead(None, 1, false) == ", " && NewLine(None, 0) == ""
    ensures Lead(Some(2), 1, true) == "\n  " && Lead(Some(2), 1, false) == ",\n  " && NewLine(Some(2), 0) == "\n"
  {
    assert Spaces(2) == "  ";
    assert Indentation(2, 0) == "" && Indentation(2, 1) == "  ";
  }

  // ----- bytes and bit buffers -----

  function Numbers(bytes: seq<Byte>): (numbers: seq<Json>)
    ensures |numbers| == |bytes|
  {
    seq(|bytes|, i requires 0 <= i < |bytes| => JsonInteger(bytes[i]))
  }

  function BytesTree(bytes: seq<Byte>): Json {
    JsonObject([Member("buffer", JsonArray(Numbers(bytes)))])
  }

  function BitBufferTree(data: seq<Byte>, bitSize: nat): Json {
    JsonObject([Member("buffer", JsonArray(Numbers(data))), Member("bitSize", JsonInteger(bitSize))])
  }

  /** What the walker hands over as a value. */
  datatype Value =
    | Plain(scalar: Json)
    | ByteData(bytes: seq<Byte>)
    | BitData(data: seq<Byte>, bitSize: nat)
  {
    predicate Printable() {
      Plain? ==> IsScalar(scalar)
    }

    function Tree(): Json {
      match this
      case Plain(scalar) => scalar
      case ByteData(bytes) => BytesTree(bytes)
      case BitData(data, bitSize) => BitBufferTree(data, bitSize)
    }
  }

  lemma NumberElement(bytes: seq<Byte>, i: nat, indent: Indent, level: nat, isFirst: bool)
    requires i < |bytes|
    ensures ItemText(None, Numbers(bytes)[i], indent, level, isFirst)
            == Lead(indent, level, isFirst) + Integral(bytes[i])
    ensures ElementsText(Numbers(bytes)[i..], indent, level, isFirst)
            == ItemText(None, Numbers(bytes)[i], indent, level, isFirst)
               + ElementsText(Numbers(bytes)[i + 1..], indent, level, false)
  {
    hide Lead;
    assert Numbers(bytes)[i..][1..] == Numbers(bytes)[i + 1..];
    assert KeyText(None) + Integral(bytes[i]) == Integral(bytes[i]);
  }

  lemma NoMoreElements(elements: seq<Json>, indent: Indent, level: nat)
    requires elements == []
    ensures forall isFirst :: ElementsText(elements, indent, level, isFirst) == ""
  {
  }

  lemma BitBufferText(data: seq<Byte>, bitSize: nat, indent: Indent, level: nat)
    ensures Text(BitBufferTree(data, bitSize), indent, level)
            == "{" + ((Lead(indent, level + 1, true)
                       + (KeyText(Some("buffer")) + Text(JsonArray(Numbers(data)), indent, level + 1)))
                      + ((Lead(indent, level + 1, false) + (KeyText(Some("bitSize")) + Integral(bitSize))) + ""))
               + (NewLine(indent, level) + "}")
  {
    hide Lead, KeyText, NewLine, Integral, Numbers;
    var members := BitBufferTree(data, bitSize).members;
    OneMember(members, indent, level + 1, true);
    OneMember(members[1..], indent, level + 1, false);
    assert members[1..][0] == members[1] && members[1..][1..] == [];
    assert Text(members[1].value, indent, level + 1) == Integral(bitSize);
    assert MembersText([], indent, level + 1, false) == "";
  }

  lemma OneMember(members: seq<Member>, indent: Indent, level: nat, isFirst: bool)
    requires members != []
    ensures MembersText(members, indent, level, isFirst)
            == (Lead(indent, level, isFirst) + (KeyText(Some(members[0].key)) + Text(members[0].value, indent, level)))
               + MembersText(members[1..], indent, level, false)
  {
    hide Lead, KeyText, NewLine;
  }

  lemma BytesText(bytes: seq<Byte>, indent: Indent, level: nat)
    ensures Text(BytesTree(bytes), indent, level)
            == "{" + ((Lead(indent, level + 1, true)
                       + (KeyText(Some("buffer")) + Text(JsonArray(Numbers(bytes)), indent, level + 1)))
                      + "")
               + (NewLine(indent, level) + "}")
  {
    hide Lead, KeyText, NewLine, Numbers;
    var members := BytesTree(bytes).members;
    OneMember(members, indent, level + 1, true);
    assert members[1..] == [];
    assert MembersText([], indent, level + 1, false) == "";
  }

  lemma JoinNine(s: string, a: string, b: string, c: string, d: string, e: string, f: string, g: string, h: string)
    ensures ((((((((s + a) + b) + c) + d) + e) + f) + g) + h) == s + (a + ((b + (c + d)) + ((e + (f + g)) + "")) + h)
  {
    JoinFour(((s + a) + b) + c, d, e, f);
  }

  lemma JoinSix(s: string, a: string, b: string, c: string, d: string, e: string)
    ensures ((((s + a) + b) + c) + d) + e == s + (a + ((b + (c + d)) + "") + e)
  {
  }

  // ----- the printer -----

  class JsonWriter {
    const indent: Indent
    var out: string
    var isFirst: bool
    var level: nat

    constructor (indent: Indent)
      ensures this.indent == indent && out == "" && isFirst && level == 0
    {
      this.indent := indent;
      out, isFirst, level := "", true, 0;
    }

    method BeginItem()
      modifies this`out
      ensures out == old(out) + Lead(indent, level, isFirst)
    {
      if !isFirst {
        out := out + ItemSeparator(indent);
      }
      if indent.Some? {
        out := out + "\n";
      }
      WriteIndent();
    }

    method EndItem()
      modifies this`isFirst
      ensures !isFirst
    {
      isFirst := false;
    }

    method BeginObject()
      modifies this
      ensures out == old(out) + "{" && isFirst && level == old(level) + 1
    {
      out := out + "{";
      isFirst := true;
      level := level + 1;
    }

    method EndObject()
      requires level > 0
      modifies this
      ensures out == old(out) + (NewLine(indent, level) + "}") && isFirst == old(isFirst) && level == old(level) - 1
    {
      if indent.Some? {
        out := out + "\n";
      }
      level := level - 1;
      WriteIndent();
      out := out + "}";
    }

    method BeginArray()
      modifies this
      ensures out == old(out) + "[" && isFirst && level == old(level) + 1
    {
      out := out + "[";
      isFirst := true;
      level := level + 1;
    }

    method EndArray()
      requires level > 0
      modifies this
      ensures out == old(out) + (NewLine(indent, level) + "]") && isFirst == old(isFirst) && level == old(level) - 1
    {
      if indent.Some? {
        out := out + "\n";
      }
      level := level - 1;
      WriteIndent();
      out := out + "]";
    }

    method WriteIndent()
      modifies this`out
      ensures out == old(out) + if indent.Some? then Indentation(indent.value, level) else ""
    {
      if indent.Some? {
        if indent.value > 0 {
          for i := 0 to level
            invariant out == old(out) + Indentation(indent.value, i)
          {
            out := out + Spaces(indent.value);
          }
        } else {
          NoIndentation(level);
        }
      }
    }

    method WriteKey(key: string)
      modifies this`out
      ensures out == old(out) + KeyText(Some(key))
    {
      var text := EncodeString(key);
      out := out + text;
      out := out + KEY_SEPARATOR;
    }

    /** A scalar, bytes or a bit buffer. */
    method WriteValue(value: Value)
      requires value.Printable()
      modifies this
      ensures out == old(out) + Text(value.Tree(), indent, level) && level == old(level)
    {
      hide Integral, Quoted, BytesTree, BitBufferTree;
      match value {
        case Plain(JsonNull) => out := out + "null";
        case Plain(JsonBool(flag)) => out := out + (if flag then "true" else "false");
        case Plain(JsonInteger(integer)) => out := out + Integral(integer);
        case Plain(JsonString(text)) =>
          var encoded := EncodeString(text);
          out := out + encoded;
        case ByteData(bytes) => WriteBytes(bytes);
        case BitData(data, bitSize) => WriteBitBuffer(data, bitSize);
      }
    }

    /** The bytes of a buffer as an array of numbers. */
    method WriteByteArray(bytes: seq<Byte>)
      modifies this
      ensures out == old(out) + Text(JsonArray(Numbers(bytes)), indent, level) && level == old(level)
    {
      hide Lead, NewLine, ElementsText, Numbers;
      ghost var start, numbers := out, Numbers(bytes);
      BeginArray();
      assert numbers[0..] == numbers;
      for i := 0 to |bytes|
        invariant level == old(level) + 1 && isFirst == (i == 0)
        invariant out + ElementsText(numbers[i..], indent, level, i == 0)
                  == (start + "[") + ElementsText(numbers, indent, level, true)
      {
        ghost var before := out;
        NumberElement(bytes, i, indent, level, i == 0);
        BeginItem();
        out := out + Integral(bytes[i]);
        EndItem();
        JoinThree(before, Lead(indent, level, i == 0), Integral(bytes[i]));
        JoinThree(before, ItemText(None, numbers[i], indent, level, i == 0),
                  ElementsText(numbers[i + 1..], indent, level, false));
      }
      NoMoreElements(numbers[|bytes|..], indent, level);
      EndArray();
      assert out == ((start + "[") + ElementsText(numbers, indent, level + 1, true)) + (NewLine(indent, level) + "]");
      JoinFour(start, "[", ElementsText(numbers, indent, level + 1, true), NewLine(indent, level) + "]");
    }

    /** A bit buffer is printed as an object with its bytes and its size in bits. */
    method WriteBitBuffer(data: seq<Byte>, bitSize: nat)
      modifies this
      ensures out == old(out) + Text(BitBufferTree(data, bitSize), indent, level) && level == old(level)
    {
      hide Lead, NewLine, KeyText, Numbers, Text;
      ghost var start, upper := out, level + 1;
      BitBufferText(data, bitSize, indent, level);
      BeginObject();
      BeginItem();
      WriteKey("buffer");
      WriteByteArray(data);
      EndItem();
      BeginItem();
      WriteKey("bitSize");
      out := out + Integral(bitSize);
      EndItem();
      EndObject();
      JoinNine(start, "{", Lead(indent, upper, true), KeyText(Some("buffer")),
               Text(JsonArray(Numbers(data)), indent, upper),
               Lead(indent, upper, false), KeyText(Some("bitSize")), Integral(bitSize), NewLine(indent, level) + "}");
    }

    method WriteBytes(value: seq<Byte>)
      modifies this
      ensures out == old(out) + Text(BytesTree(value), indent, level) && level == old(level)
    {
      hide Lead, NewLine, KeyText, Numbers, Text;
      ghost var start, upper := out, level + 1;
      BytesText(value, indent, level);
      BeginObject();
      BeginItem();
      WriteKey("buffer");
      WriteByteArray(value);
      EndItem();
      EndObject();
      JoinSix(start, "{", Lead(indent, upper, true), KeyText(Some("buffer")),
              Text(JsonArray(Numbers(value)), indent, upper),
              NewLine(indent, level) + "}");
    }

    // ----- calls of the walker; elements of arrays have no key -----

    method BeginRoot()
      modifies this
      ensures out == old(out) + "{" && isFirst && level == old(level) + 1
    {
      BeginObject();
    }

    method EndRoot()
      requires level > 0
      modifies this
      ensures out == old(out) + (NewLine(indent, level) + "}") && isFirst == old(isFirst) && level == old(level) - 1
    {
      EndObject();
    }

    method BeginKeyed(key: Option<string>)
      modifies this`out
      ensures out == old(out) + (Lead(indent, level, isFirst) + KeyText(key))
    {
      hide Lead, KeyText;
      ghost var start, lead := out, Lead(indent, level, isFirst);
      BeginItem();
      if key.Some? {
        WriteKey(key.value);
        JoinThree(start, lead, KeyText(key));
      } else {
        NoKey(lead);
      }
    }

    method BeginCompound(key: Option<string>)
      modifies this
      ensures out == old(out) + (Lead(indent, old(level), old(isFirst)) + KeyText(key)) + "{"
      ensures isFirst && level == old(level) + 1
    {
      BeginKeyed(key);
      BeginObject();
    }

    method EndCompound()
      requires level > 0
      modifies this
      ensures out == old(out) + (NewLine(indent, level) + "}") && !isFirst && level == old(level) - 1
    {
      EndObject();
      EndItem();
    }

    /** The walker gives every array a key, since an array is not an element of another array. */
    method BeginArrayItem(key: Option<string>)
      modifies this
      ensures out == old(out) + (Lead(indent, old(level), old(isFirst)) + KeyText(key)) + "["
      ensures isFirst && level == old(level) + 1
    {
      BeginKeyed(key);
      BeginArray();
    }

    method EndArrayItem()
      requires level > 0
      modifies this
      ensures out == old(out) + (NewLine(indent, level) + "]") && !isFirst && level == old(level) - 1
    {
      EndArray();
      EndItem();
    }

    method VisitValue(key: Option<string>, value: Value)
      requires value.Printable()
      modifies this
      ensures out == old(out) + ItemText(key, value.Tree(), indent, level, old(isFirst))
      ensures !isFirst && level == old(level)
    {
      hide Lead, KeyText, Text;
      ghost var start, lead := out, Lead(indent, level, isFirst) + KeyText(key);
      ghost var text := Text(value.Tree(), indent, level);
      JoinThree(Lead(indent, level, isFirst), KeyText(key), text);
      BeginKeyed(key);
      WriteValue(value);
      JoinThree(start, lead, text);
      EndItem();
    }

    // ----- whole trees -----

    /** The calls for one field or element. */
    method Print(key: Option<string>, value: Json)
      modifies this
      ensures out == old(out) + ItemText(key, value, indent, old(level), old(isFirst))
      ensures !isFirst && level == old(level)
      decreases value, 0
    {
      hide Lead, KeyText, NewLine, MembersText, ElementsText, ItemText;
      ghost var start, lead := out, Lead(indent, level, isFirst) + KeyText(key);
      ItemTextParts(key, value, indent, level, isFirst);
      match value
      case JsonObject(members) =>
        BeginCompound(key);
        PrintMembers(members);
        EndCompound();
        JoinParts(start, lead, "{", MembersText(members, indent, level + 1, true), NewLine(indent, level) + "}");
      case JsonArray(elements) =>
        BeginArrayItem(key);
        PrintElements(elements);
        EndArrayItem();
        JoinParts(start, lead, "[", ElementsText(elements, indent, level + 1, true), NewLine(indent, level) + "]");
      case _ =>
        VisitValue(key, Plain(value));
    }

    method PrintMembers(members: seq<Member>)
      requires isFirst
      modifies this
      ensures out == old(out) + MembersText(members, indent, level, true) && level == old(level)
      decreases members
    {
      hide ItemText;
      assert members[0..] == members;
      for i := 0 to |members|
        invariant level == old(level) && isFirst == (i == 0)
        invariant out + MembersText(members[i..], indent, level, i == 0)
                == old(out) + MembersText(members, indent, level, true)
      {
        assert members[i..][1..] == members[i + 1..];
        ghost var item := ItemText(Some(members[i].key), members[i].value, indent, level, i == 0);
        JoinThree(out, item, MembersText(members[i + 1..], indent, level, false));
        Print(Some(members[i].key), members[i].value);
      }
    }

    method PrintElements(elements: seq<Json>)
      requires isFirst
      modifies this
      ensures out == old(out) + ElementsText(elements, indent, level, true) && level == old(level)
      decreases elements
    {
      hide ItemText;
      assert elements[0..] == elements;
      for i := 0 to |elements|
        invariant level == old(level) && isFirst == (i == 0)
        invariant out + ElementsText(elements[i..], indent, level, i == 0)
                == old(out) + ElementsText(elements, indent, level, true)
      {
        assert elements[i..][1..] == elements[i + 1..];
        ghost var item := ItemText(None, elements[i], indent, level, i == 0);
        JoinThree(out, item, ElementsText(elements[i + 1..], indent, level, false));
        Print(None, elements[i]);
      }
    }

    /** Prints a whole document. */
    method PrintRoot(members: seq<Member>)
      requires out == "" && isFirst && level == 0
      modifies this
      ensures out == Text(JsonObject(members), indent, 0) && level == 0
    {
      hide MembersText, NewLine;
      BeginRoot();
      PrintMembers(members);
      EndRoot();
      assert "" + "{" == "{";
      JoinThree("{", MembersText(members, indent, 1, true), NewLine(indent, 0) + "}");
    }
  }

  lemma {:induction false} NoIndentation(level: nat)
    ensures Indentation(0, level) == ""
  {
    if level > 0 {
      NoIndentation(level - 1);
    }
  }

  lemma ItemTextParts(key: Option<string>, value: Json, indent: Indent, level: nat, isFirst: bool)
    ensures var lead := Lead(indent, level, isFirst) + KeyText(key);
            match value
            case JsonObject(members) =>
              ItemText(key, value, indent, level, isFirst)
              == ((lead + "{") + MembersText(members, indent, level + 1, true)) + (NewLine(indent, level) + "}")
            case JsonArray(elements) =>
              ItemText(key, value, indent, level, isFirst)
              == ((lead + "[") + ElementsText(elements, indent, level + 1, true)) + (NewLine(indent, level) + "]")
            case _ => ItemText(key, value, indent, level, isFirst) == lead + ScalarText(value)
  {
    hide Lead, KeyText, NewLine, MembersText, ElementsText, ScalarText;
    var lead, keyed := Lead(indent, level, isFirst), KeyText(key);
    JoinThree(lead, keyed, Text(value, indent, level));
    match value
    case JsonObject(members) =>
      JoinFour(lead + keyed, "{", MembersText(members, indent, level + 1, true), NewLine(indent, level) + "}");
    case JsonArray(elements) =>
      JoinFour(lead + keyed, "[", ElementsText(elements, indent, level + 1, true), NewLine(indent, level) + "]");
    case _ =>
  }

  lemma JoinFour(a: string, b: string, c: string, d: string)
    ensures a + (b + c + d) == ((a + b) + c) + d
  {
  }

  lemma JoinParts(start: string, lead: string, b: string, c: string, d: string)
    ensures (((start + lead) + b) + c) + d == start + (((lead + b) + c) + d)
  {
  }

  lemma NoKey(lead: string)
    ensures lead + KeyText(None) == lead
  {
  }
}
