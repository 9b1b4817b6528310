/** The walker drives the printer: walking an object without a filter prints its tree. */
module JsonWalk {
  import opened Streams
  import opened JsonCoding
  import opened Walking
  import W = JsonWriting

  // ----- the tree of an object -----

  /** What the printer makes of a visited node; floating-point numbers and symbols are not covered. */
  function VisitedValue(node: Node): (value: Option<W.Value>)
    ensures value.Some? ==> value.value.Printable()
  {
    match node
    case Missing => Some(W.Plain(W.JsonNull))
    case Scalar(Bool(flag)) => Some(W.Plain(W.JsonBool(flag)))
    case Scalar(Int(integer)) => Some(W.Plain(W.JsonInteger(integer)))
    case Scalar(UInt(natural)) => Some(W.Plain(W.JsonInteger(natural)))
    case Scalar(Str(text)) => Some(W.Plain(W.JsonString(text)))
    case ByteArray(bytes) => Some(W.ByteData(bytes))
    case BitArray(data, bitSize) => Some(W.BitData(data, bitSize))
    case _ => None
  }

  /** Nothing but null, booleans, integers, strings, bytes and bit buffers, and no array directly in an array. */
  predicate PrintableFields(fields: seq<Field>)
    decreases fields, 0
  {
    fields != [] ==> PrintableField(fields[0].value) && PrintableFields(fields[1..])
  }

  predicate PrintableField(node: Node)
    decreases node, 2
  {
    if node.Array? then PrintableElements(node.elements) else PrintableValue(node)
  }

  predicate PrintableElements(elements: seq<Node>)
    decreases elements, 0
  {
    elements != [] ==> PrintableValue(elements[0]) && PrintableElements(elements[1..])
  }

  predicate PrintableValue(node: Node)
    decreases node, 1
  {
    if node.Compound? then PrintableFields(node.fields) else VisitedValue(node).Some?
  }

  function MembersOf(fields: seq<Field>): seq<W.Member>
    decreases fields, 0
  {
    if fields == [] then [] else [W.Member(fields[0].name, FieldTree(fields[0].value))] + MembersOf(fields[1..])
  }

  /** The members of a compound: all fields, or only the chosen one. */
  function CompoundMembers(choice: Option<string>, fields: seq<Field>): seq<W.Member>
    decreases fields, 1
  {
    if choice.None? then MembersOf(fields)
    else
      match Chosen(choice.value, fields)
      case None => []
      case Some(i) => [W.Member(fields[i].name, FieldTree(fields[i].value))]
  }

  function FieldTree(node: Node): W.Json
    decreases node, 2
  {
    if node.Array? then W.JsonArray(ElementsOf(node.elements)) else ValueTree(node)
  }

  function ElementsOf(elements: seq<Node>): seq<W.Json>
    decreases elements, 0
  {
    if elements == [] then [] else [ValueTree(elements[0])] + ElementsOf(elements[1..])
  }

  function ValueTree(node: Node): W.Json
    decreases node, 1
  {
    if node.Compound? then W.JsonObject(CompoundMembers(node.choice, node.fields))
    else
      match VisitedValue(node)
      case Some(value) => value.Tree()
      case None => W.JsonNull
  }

  // ----- the printer as an observer -----

  datatype State = State(out: string, isFirst: bool, level: nat)

  function KeyOf(name: string, index: Option<nat>): Option<string> {
    if index.None? then Some(name) else None
  }

  /** What one call does to the printer; nothing can end at the outermost level. `None` is a call not covered. */
  function Step(indent: W.Indent, s: State, event: WalkEvent): Option<State> {
    match event
    case RootBegins => Some(State(s.out + "{", true, s.level + 1))
    case RootEnds => Close(indent, s, "}", s.isFirst)
    case ArrayBegins(name) => Some(Open(indent, s, Some(name), "["))
    case ArrayEnds(_) => Close(indent, s, "]", false)
    case CompoundBegins(name, index) => Some(Open(indent, s, KeyOf(name, index), "{"))
    case CompoundEnds(_, _) => Close(indent, s, "}", false)
    case Visited(name, index, node) =>
      match VisitedValue(node)
      case None => None
      case Some(value) =>
        Some(State(s.out + W.ItemText(KeyOf(name, index), value.Tree(), indent, s.level, s.isFirst), false, s.level))
  }

  function Open(indent: W.Indent, s: State, key: Option<string>, bracket: string): State {
    State(s.out + (W.Lead(indent, s.level, s.isFirst) + W.KeyText(key)) + bracket, true, s.level + 1)
  }

  function Close(indent: W.Indent, s: State, bracket: string, isFirst: bool): Option<State> {
    if s.level == 0 then None
    else Some(State(s.out + (W.NewLine(indent, s.level - 1) + bracket), isFirst, s.level - 1))
  }

  function Steps(indent: W.Indent, s: State, events: seq<WalkEvent>): Option<State>
    decreases |events|
  {
    if events == [] then Some(s)
    else
      match Step(indent, s, events[0])
      case None => None
      case Some(next) => Steps(indent, next, events[1..])
  }

  function StateOf(writer: W.JsonWriter): State
    reads writer
  {
    State(writer.out, writer.isFirst, writer.level)
  }

  method Observe(writer: W.JsonWriter, event: WalkEvent)
    requires Step(writer.indent, StateOf(writer), event).Some?
    modifies writer
    ensures Step(writer.indent, old(StateOf(writer)), event) == Some(StateOf(writer))
  {
    hide W.ItemText, W.Lead, W.KeyText, W.NewLine;
    match event
    case RootBegins => writer.BeginRoot();
    case RootEnds => writer.EndRoot();
    case ArrayBegins(name) => writer.BeginArrayItem(Some(name));
    case ArrayEnds(_) => writer.EndArrayItem();
    case CompoundBegins(name, index) => writer.BeginCompound(KeyOf(name, index));
    case CompoundEnds(_, _) => writer.EndCompound();
    case Visited(name, index, node) => writer.VisitValue(KeyOf(name, index), VisitedValue(node).value);
  }

  method ObserveAll(writer: W.JsonWriter, events: seq<WalkEvent>)
    requires Steps(writer.indent, StateOf(writer), events).Some?
    modifies writer
    ensures Steps(writer.indent, old(StateOf(writer)), events) == Some(StateOf(writer))
  {
    hide Step;
    assert events[0..] == events;
    for i := 0 to |events|
      invariant Steps(writer.indent, StateOf(writer), events[i..]).Some?
      invariant Steps(writer.indent, old(StateOf(writer)), events) == Steps(writer.indent, StateOf(writer), events[i..])
    {
      assert events[i..][0] == events[i] && events[i..][1..] == events[i + 1..];
      Observe(writer, events[i]);
    }
  }

  lemma {:induction false} StepsConcat(indent: W.Indent, s: State, a: seq<WalkEvent>, b: seq<WalkEvent>)
    requires Steps(indent, s, a).Some?
    ensures Steps(indent, s, a + b) == Steps(indent, Steps(indent, s, a).value, b)
    decreases |a|
  {
    hide Step;
    if a == [] {
      assert a + b == b;
    } else {
      assert (a + b)[1..] == a[1..] + b;
      StepsConcat(indent, Step(indent, s, a[0]).value, a[1..], b);
    }
  }

  // ----- the calls for an object print its tree -----

  /** A text has been printed at the same level. */
  predicate Prints(indent: W.Indent, s: State, events: seq<WalkEvent>, text: string, isFirst: bool) {
    Steps(indent, s, events) == Some(State(s.out + text, isFirst, s.level))
  }

  /** One bracket, what is inside, and the other bracket. */
  lemma Bracketed(indent: W.Indent, s: State, opens: WalkEvent, inner: seq<WalkEvent>, closes: WalkEvent,
                  lead: string, open: string, body: string, close: string, isFirst: bool)
    requires Step(indent, s, opens) == Some(State(s.out + lead + open, true, s.level + 1))
    requires Prints(indent, State(s.out + lead + open, true, s.level + 1), inner, body, isFirst)
    requires Step(indent, State(s.out + lead + open + body, isFirst, s.level + 1), closes)
             == Some(State(s.out + lead + open + body + close, false, s.level))
    ensures Prints(indent, s, [opens] + inner + [closes], ((lead + open) + body) + close, false)
  {
    hide Step;
    var t := State(s.out + lead + open, true, s.level + 1);
    StepsConcat(indent, s, [opens], inner + [closes]);
    assert [opens] + (inner + [closes]) == [opens] + inner + [closes];
    assert [opens][1..] == [] && [closes][1..] == [];
    StepsConcat(indent, t, inner, [closes]);
    assert s.out + (((lead + open) + body) + close) == s.out + lead + open + body + close;
  }

  lemma {:induction false} FieldsPrint(fields: seq<Field>, indent: W.Indent, s: State, regex: string -> bool)
    requires PrintableFields(fields)
    ensures var w := WalkFields(fields, DefaultFilter, regex);
            && w.go && w.filter == DefaultFilter
            && Prints(indent, s, w.events, W.MembersText(MembersOf(fields), indent, s.level, s.isFirst),
                      s.isFirst && fields == [])
    decreases fields, 0
  {
    hide WalkField, W.ItemText, FieldTree;
    if fields == [] {
      assert s.out + "" == s.out;
    } else {
      var first := WalkField(fields[0].name, fields[0].value, DefaultFilter, regex);
      FieldPrints(fields[0].name, fields[0].value, indent, s, regex);
      var item := W.ItemText(Some(fields[0].name), FieldTree(fields[0].value), indent, s.level, s.isFirst);
      var next := State(s.out + item, false, s.level);
      FieldsPrint(fields[1..], indent, next, regex);
      StepsConcat(indent, s, first.events, WalkFields(fields[1..], DefaultFilter, regex).events);
      assert MembersOf(fields)[1..] == MembersOf(fields[1..]);
      JoinThree(s.out, item, W.MembersText(MembersOf(fields[1..]), indent, s.level, false));
    }
  }

  lemma {:induction false} PrintableAt(fields: seq<Field>, i: nat)
    requires PrintableFields(fields) && i < |fields|
    ensures PrintableField(fields[i].value)
    decreases i
  {
    if i > 0 {
      PrintableAt(fields[1..], i - 1);
    }
  }

  lemma {:induction false} CompoundPrints(choice: Option<string>, fields: seq<Field>, indent: W.Indent, s: State,
                                          regex: string -> bool)
    requires PrintableFields(fields)
    ensures var w := WalkCompound(choice, fields, DefaultFilter, regex);
            && w.filter == DefaultFilter
            && Prints(indent, s, w.events, W.MembersText(CompoundMembers(choice, fields), indent, s.level, s.isFirst),
                      s.isFirst && CompoundMembers(choice, fields) == [])
    decreases fields, 1
  {
    hide WalkField, WalkFields, W.ItemText, FieldTree, PrintableField;
    if choice.None? {
      FieldsPrint(fields, indent, s, regex);
    } else if Chosen(choice.value, fields).Some? {
      var i := Chosen(choice.value, fields).value;
      PrintableAt(fields, i);
      FieldPrints(fields[i].name, fields[i].value, indent, s, regex);
      OneMemberText(W.Member(fields[i].name, FieldTree(fields[i].value)), indent, s.level, s.isFirst);
    } else {
      assert s.out + "" == s.out;
    }
  }

  lemma OneMemberText(member: W.Member, indent: W.Indent, level: nat, isFirst: bool)
    ensures W.MembersText([member], indent, level, isFirst)
            == W.ItemText(Some(member.key), member.value, indent, level, isFirst)
  {
    hide W.ItemText;
    assert [member][1..] == [];
    assert W.MembersText([], indent, level, false) == "";
  }

  lemma {:induction false} FieldPrints(name: string, node: Node, indent: W.Indent, s: State, regex: string -> bool)
    requires PrintableField(node)
    ensures var w := WalkField(name, node, DefaultFilter, regex);
            && w.go && w.filter == DefaultFilter
            && Prints(indent, s, w.events, W.ItemText(Some(name), FieldTree(node), indent, s.level, s.isFirst), false)
    decreases node, 2
  {
    hide W.ItemText, W.Lead, W.KeyText, W.NewLine, W.ElementsText, WalkElements, WalkFieldValue, ElementsOf, ValueTree;
    if node.Array? {
      var lead := W.Lead(indent, s.level, s.isFirst) + W.KeyText(Some(name));
      var inner := State(s.out + lead + "[", true, s.level + 1);
      ElementsPrint(name, node.elements, 0, indent, inner, regex);
      var body := W.ElementsText(ElementsOf(node.elements), indent, s.level + 1, true);
      Bracketed(indent, s, ArrayBegins(name), WalkElements(name, node.elements, 0, DefaultFilter, regex).events,
                ArrayEnds(name), lead, "[", body, W.NewLine(indent, s.level) + "]", node.elements == []);
      W.ItemTextParts(Some(name), FieldTree(node), indent, s.level, s.isFirst);
    } else {
      ValuePrints(name, None, node, indent, s, regex);
    }
  }

  lemma {:induction false} ElementsPrint(name: string, elements: seq<Node>, i: nat, indent: W.Indent, s: State,
                                         regex: string -> bool)
    requires PrintableElements(elements)
    ensures var w := WalkElements(name, elements, i, DefaultFilter, regex);
            && w.go && w.filter == DefaultFilter
            && Prints(indent, s, w.events, W.ElementsText(ElementsOf(elements), indent, s.level, s.isFirst),
                      s.isFirst && elements == [])
    decreases elements, 0
  {
    hide WalkFieldValue, W.ItemText, ValueTree;
    if elements == [] {
      assert s.out + "" == s.out;
    } else {
      var first := WalkFieldValue(name, Some(i), elements[0], DefaultFilter, regex);
      ValuePrints(name, Some(i), elements[0], indent, s, regex);
      var item := W.ItemText(None, ValueTree(elements[0]), indent, s.level, s.isFirst);
      var next := State(s.out + item, false, s.level);
      ElementsPrint(name, elements[1..], i + 1, indent, next, regex);
      StepsConcat(indent, s, first.events, WalkElements(name, elements[1..], i + 1, DefaultFilter, regex).events);
      assert ElementsOf(elements)[1..] == ElementsOf(elements[1..]);
      JoinThree(s.out, item, W.ElementsText(ElementsOf(elements[1..]), indent, s.level, false));
    }
  }

  lemma {:induction false} ValuePrints(name: string, index: Option<nat>, node: Node, indent: W.Indent, s: State,
                                       regex: string -> bool)
    requires PrintableValue(node)
    ensures var w := WalkFieldValue(name, index, node, DefaultFilter, regex);
            && w.go && w.filter == DefaultFilter
            && Prints(indent, s, w.events,
                      W.ItemText(KeyOf(name, index), ValueTree(node), indent, s.level, s.isFirst), false)
    decreases node, 1
  {
    hide W.ItemText, W.Lead, W.KeyText, W.NewLine, W.MembersText, WalkCompound, CompoundMembers;
    if node.Compound? {
      var key := KeyOf(name, index);
      var lead := W.Lead(indent, s.level, s.isFirst) + W.KeyText(key);
      var inner := State(s.out + lead + "{", true, s.level + 1);
      CompoundPrints(node.choice, node.fields, indent, inner, regex);
      var members := CompoundMembers(node.choice, node.fields);
      var body := W.MembersText(members, indent, s.level + 1, true);
      Bracketed(indent, s, CompoundBegins(name, index),
                WalkCompound(node.choice, node.fields, DefaultFilter, regex).events, CompoundEnds(name, index),
                lead, "{", body, W.NewLine(indent, s.level) + "}", members == []);
      W.ItemTextParts(key, ValueTree(node), indent, s.level, s.isFirst);
    } else {
      OneStep(indent, s, Visited(name, index, node));
    }
  }

  lemma OneStep(indent: W.Indent, s: State, event: WalkEvent)
    ensures Steps(indent, s, [event]) == Step(indent, s, event)
  {
    hide Step;
    assert [event][1..] == [];
  }

  /** Walking a root object with the printer as its observer prints the tree of the object. */
  method WalkAndPrint(root: Node, indent: W.Indent, regex: string -> bool) returns (text: string)
    requires root.Compound? && PrintableFields(root.fields)
    ensures text == W.Text(ValueTree(root), indent, 0)
  {
    hide WalkCompound, W.MembersText, W.NewLine, CompoundMembers;
    var walker := new Walker(DefaultFilter, regex);
    var ok := walker.WalkRoot(root);
    var writer := new W.JsonWriter(indent);
    RootPrints(root, indent, regex);
    ObserveAll(writer, walker.events);
    text := writer.out;
  }

  lemma RootPrints(root: Node, indent: W.Indent, regex: string -> bool)
    requires root.Compound? && PrintableFields(root.fields)
    ensures var w := WalkCompound(root.choice, root.fields, DefaultFilter, regex);
            var s := Steps(indent, State("", true, 0), [] + ([RootBegins] + w.events + [RootEnds]));
            s.Some? && s.value.out == W.Text(ValueTree(root), indent, 0)
  {
    hide WalkCompound, W.MembersText, W.NewLine, CompoundMembers;
    var members := CompoundMembers(root.choice, root.fields);
    var w, s := WalkCompound(root.choice, root.fields, DefaultFilter, regex), State("", true, 0);
    var inner := State("{", true, 1);
    var body := W.MembersText(members, indent, 1, true);
    CompoundPrints(root.choice, root.fields, indent, inner, regex);
    assert "" + "{" == "{";
    OneStep(indent, s, RootBegins);
    assert [] + ([RootBegins] + w.events + [RootEnds]) == [RootBegins] + (w.events + [RootEnds]);
    StepsConcat(indent, s, [RootBegins], w.events + [RootEnds]);
    StepsConcat(indent, inner, w.events, [RootEnds]);
    OneStep(indent, State("{" + body, members == [], 1), RootEnds);
  }
}
