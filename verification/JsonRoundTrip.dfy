/** Printing a tree and parsing the text gives an observer the same tree. */
module JsonRoundTrip {
  import opened Streams
  import opened JsonCoding
  import opened JsonTokens
  import opened JsonParsing
  import W = JsonWriting

  // ----- the tree as tokens and as calls of an observer -----

  predicate InRange(j: W.Json)
    decreases j
  {
    match j
    case JsonInteger(integer) => 0 - INT64_LIMIT <= integer < UINT64_LIMIT
    case JsonObject(members) => MembersInRange(members)
    case JsonArray(elements) => ElementsInRange(elements)
    case _ => true
  }

  predicate MembersInRange(members: seq<W.Member>)
    decreases members
  {
    members != [] ==> InRange(members[0].value) && MembersInRange(members[1..])
  }

  predicate ElementsInRange(elements: seq<W.Json>)
    decreases elements
  {
    elements != [] ==> InRange(elements[0]) && ElementsInRange(elements[1..])
  }

  /** A scalar as the parser sees it: only negative integers are signed. */
  function ValueOf(j: W.Json): JsonValue
    requires W.IsScalar(j)
  {
    match j
    case JsonNull => Null
    case JsonBool(flag) => Bool(flag)
    case JsonInteger(integer) => if integer < 0 then Int(integer) else UInt(integer)
    case JsonString(text) => Str(text)
  }

  function Structure(c: char): Sym
    requires Structural(c).Some?
  {
    Sym(Structural(c).value, Some(Symbol(c)))
  }

  function TreeSyms(j: W.Json): seq<Sym>
    decreases j
  {
    match j
    case JsonObject(members) => [Structure('{')] + (MemberSyms(members, true) + [Structure('}')])
    case JsonArray(elements) => [Structure('[')] + (ElementSyms(elements, true) + [Structure(']')])
    case _ => [Sym(ValueToken, Some(ValueOf(j)))]
  }

  function SeparatorSyms(isFirst: bool): seq<Sym> {
    if isFirst then [] else [Structure(',')]
  }

  function MemberSyms(members: seq<W.Member>, isFirst: bool): seq<Sym>
    decreases members
  {
    if members == [] then []
    else
      SeparatorSyms(isFirst)
      + ([Sym(ValueToken, Some(Str(members[0].key))), Structure(':')]
         + (TreeSyms(members[0].value) + MemberSyms(members[1..], false)))
  }

  function ElementSyms(elements: seq<W.Json>, isFirst: bool): seq<Sym>
    decreases elements
  {
    if elements == [] then []
    else SeparatorSyms(isFirst) + (TreeSyms(elements[0]) + ElementSyms(elements[1..], false))
  }

  /** The calls an observer of the tree expects. */
  function TreeEvents(j: W.Json): seq<Event>
    decreases j
  {
    match j
    case JsonObject(members) => [ObjectBegins] + (MemberEvents(members) + [ObjectEnds])
    case JsonArray(elements) => [ArrayBegins] + (ElementEvents(elements) + [ArrayEnds])
    case _ => [Visit(ValueOf(j))]
  }

  function MemberEvents(members: seq<W.Member>): seq<Event>
    decreases members
  {
    if members == [] then []
    else [Key(members[0].key)] + (TreeEvents(members[0].value) + MemberEvents(members[1..]))
  }

  function ElementEvents(elements: seq<W.Json>): seq<Event>
    decreases elements
  {
    if elements == [] then [] else TreeEvents(elements[0]) + ElementEvents(elements[1..])
  }

  // ----- the calls determine the tree -----

  lemma Cut(first: Event, a: seq<Event>, b: seq<Event>, x: seq<Event>, all: seq<Event>)
    requires all == ([first] + (a + b)) + x
    ensures all != [] && all[0] == first && all[1..] == a + (b + x)
  {
    assert all == [first] + (a + (b + x));
  }

  /** The calls for a tree, followed by any others, determine the tree and the others. */
  lemma {:induction false} SameTree(a: W.Json, b: W.Json, x: seq<Event>, y: seq<Event>)
    requires TreeEvents(a) + x == TreeEvents(b) + y
    ensures a == b && x == y
    decreases a, 0
  {
    hide MemberEvents, ElementEvents;
    var all := TreeEvents(a) + x;
    TreeCut(a, x);
    TreeCut(b, y);
    match a
    case JsonObject(members) => SameMembers(members, b.members, x, y);
    case JsonArray(elements) => SameElements(elements, b.elements, x, y);
    case _ =>
      assert all[1..] == x && all[1..] == y;
  }

  lemma TreeCut(j: W.Json, x: seq<Event>)
    ensures var all := TreeEvents(j) + x;
            && all != []
            && match j
               case JsonObject(members) =>
                 all[0] == ObjectBegins && all[1..] == MemberEvents(members) + ([ObjectEnds] + x)
               case JsonArray(elements) =>
                 all[0] == ArrayBegins && all[1..] == ElementEvents(elements) + ([ArrayEnds] + x)
               case _ => all[0] == Visit(ValueOf(j)) && all[1..] == x
  {
    hide MemberEvents, ElementEvents, ValueOf;
    var all := TreeEvents(j) + x;
    match j
    case JsonObject(members) => Cut(ObjectBegins, MemberEvents(members), [ObjectEnds], x, all);
    case JsonArray(elements) => Cut(ArrayBegins, ElementEvents(elements), [ArrayEnds], x, all);
    case _ =>
  }

  lemma {:induction false} SameMembers(a: seq<W.Member>, b: seq<W.Member>, x: seq<Event>, y: seq<Event>)
    requires MemberEvents(a) + ([ObjectEnds] + x) == MemberEvents(b) + ([ObjectEnds] + y)
    ensures a == b && x == y
    decreases a
  {
    hide TreeEvents;
    var all := MemberEvents(a) + ([ObjectEnds] + x);
    MembersCut(a, [ObjectEnds] + x);
    MembersCut(b, [ObjectEnds] + y);
    if a == [] || b == [] {
      assert all[0] == ObjectEnds;
      assert all[1..] == x && all[1..] == y;
    } else {
      SameTree(a[0].value, b[0].value, MemberEvents(a[1..]) + ([ObjectEnds] + x),
          MemberEvents(b[1..]) + ([ObjectEnds] + y));
      SameMembers(a[1..], b[1..], x, y);
      assert a == [a[0]] + a[1..] && b == [b[0]] + b[1..];
    }
  }

  lemma MembersCut(members: seq<W.Member>, x: seq<Event>)
    ensures var all := MemberEvents(members) + x;
            if members == [] then all == x
            else
              && all != [] && all[0] == Key(members[0].key)
              && all[1..] == TreeEvents(members[0].value) + (MemberEvents(members[1..]) + x)
  {
    hide TreeEvents;
    if members != [] {
      Cut(Key(members[0].key), TreeEvents(members[0].value), MemberEvents(members[1..]), x, MemberEvents(members) + x);
    }
  }

  lemma {:induction false} SameElements(a: seq<W.Json>, b: seq<W.Json>, x: seq<Event>, y: seq<Event>)
    requires ElementEvents(a) + ([ArrayEnds] + x) == ElementEvents(b) + ([ArrayEnds] + y)
    ensures a == b && x == y
    decreases a
  {
    hide TreeEvents;
    var all := ElementEvents(a) + ([ArrayEnds] + x);
    ElementsCut(a, [ArrayEnds] + x);
    ElementsCut(b, [ArrayEnds] + y);
    if a == [] || b == [] {
      assert all[0] == ArrayEnds;
      assert all[1..] == x && all[1..] == y;
    } else {
      SameTree(a[0], b[0], ElementEvents(a[1..]) + ([ArrayEnds] + x), ElementEvents(b[1..]) + ([ArrayEnds] + y));
      SameElements(a[1..], b[1..], x, y);
      assert a == [a[0]] + a[1..] && b == [b[0]] + b[1..];
    }
  }

  lemma ElementsCut(elements: seq<W.Json>, x: seq<Event>)
    ensures var all := ElementEvents(elements) + x;
            if elements == [] then all == x
            else
              && all == TreeEvents(elements[0]) + (ElementEvents(elements[1..]) + x)
              && all != [] && all[0] != ArrayEnds
  {
    hide TreeEvents;
    if elements != [] {
      JoinEvents(TreeEvents(elements[0]), ElementEvents(elements[1..]), x);
      TreeCut(elements[0], ElementEvents(elements[1..]) + x);
    }
  }

  // ----- tokens of the printed text -----

  /** Positions do not matter for the tokens. */
  function TextSyms(text: string, strtod: StrToD): seq<Sym> {
    SymsOf(Place(text, 1, 1), strtod)
  }

  lemma {:induction false} SkipAnywhere(p: Place, q: Place)
    requires p.rest == q.rest
    ensures SkipWhitespace(p).rest == SkipWhitespace(q).rest
    decreases |p.rest|
  {
    if SkipOne(p).Some? {
      SkipAnywhere(SkipOne(p).value, SkipOne(q).value);
    }
  }

  lemma {:induction false} SymsAnywhere(p: Place, q: Place, strtod: StrToD)
    requires p.rest == q.rest
    ensures SymsOf(p, strtod) == SymsOf(q, strtod)
    decreases |p.rest|
  {
    hide SkipWhitespace, ValueResult, CutAtNul, Structural;
    SkipAnywhere(p, q);
    TokenTakesText(p, strtod);
    if NextLexeme(p, strtod).Token? {
      SymsAnywhere(NextLexeme(p, strtod).after, NextLexeme(q, strtod).after, strtod);
    }
  }

  lemma StructureSyms(c: char, rest: string, strtod: StrToD)
    requires Structural(c).Some?
    ensures TextSyms([c] + rest, strtod) == [Structure(c)] + TextSyms(rest, strtod)
  {
    var p := Place([c] + rest, 1, 1);
    assert p.rest[1..] == rest;
    assert SkipOne(p) == None;
    SymsAnywhere(Advance(p, 1), Place(rest, 1, 1), strtod);
  }

  lemma WhitespaceSyms(c: char, rest: string, strtod: StrToD)
    requires c == ' ' || c == '\n'
    ensures TextSyms([c] + rest, strtod) == TextSyms(rest, strtod)
  {
    hide ValueResult, CutAtNul, LexemeAt;
    var p := Place([c] + rest, 1, 1);
    assert p.rest[1..] == rest;
    var q := SkipOne(p).value;
    assert SkipWhitespace(p) == SkipWhitespace(q);
    assert SymsOf(p, strtod) == SymsOf(q, strtod) by {
      assert NextLexeme(p, strtod) == NextLexeme(q, strtod);
    }
    SymsAnywhere(q, Place(rest, 1, 1), strtod);
  }

  /** A value, when something follows it. */
  lemma ValueSyms(v: string, value: JsonValue, rest: string, strtod: StrToD)
    requires v != "" && rest != "" && CutAtNul(v) == v
    requires Structural(v[0]).None? && v[0] !in {' ', '\t', '\n', '\r'}
    requires ValueResult(v + CutAtNul(rest), strtod) == Success(|v|, value)
    ensures TextSyms(v + rest, strtod) == [Sym(ValueToken, Some(value))] + TextSyms(rest, strtod)
  {
    hide ValueResult, CutAtNul, Structural;
    var p := Place(v + rest, 1, 1);
    CutStable(v, rest);
    assert p.rest[|v|..] == rest && p.rest[0] == v[0];
    assert SkipOne(p) == None;
    SymsAnywhere(Advance(p, |v|), Place(rest, 1, 1), strtod);
  }

  // ----- no NUL character is printed -----

  predicate NulFree(s: string) {
    forall i :: 0 <= i < |s| ==> s[i] != '\0'
  }

  lemma {:induction false} CutNothing(s: string)
    requires NulFree(s)
    ensures CutAtNul(s) == s
    decreases |s|
  {
    if s != "" {
      CutNothing(s[1..]);
      assert s == [s[0]] + s[1..];
    }
  }

  lemma {:induction false} EscapeIsNulFree(s: string)
    ensures NulFree(Escape(s))
    decreases |s|
  {
    hide EscapeChar;
    if s != "" {
      EscapeIsNulFree(s[1..]);
      EscapeCharIsNulFree(s[0]);
    }
  }

  lemma EscapeCharIsNulFree(c: char)
    ensures NulFree(EscapeChar(c))
  {
  }

  lemma QuotedIsNulFree(s: string)
    ensures NulFree(Quoted(s))
  {
    EscapeIsNulFree(s);
  }

  lemma IntegralIsNulFree(i: int)
    ensures NulFree(Integral(i)) && Integral(i) != "" && (Integral(i)[0] == '-' || IsDigit(Integral(i)[0]))
  {
    hide Decimal;
    DecimalDigits(if i < 0 then 0 - i else i);
  }

  lemma EndsWhenCut(rest: string)
    requires Ends(rest)
    ensures Ends(CutAtNul(rest))
  {
  }

  lemma StringSyms(s: string, rest: string, strtod: StrToD)
    requires rest != ""
    ensures TextSyms(Quoted(s) + rest, strtod) == [Sym(ValueToken, Some(Str(s)))] + TextSyms(rest, strtod)
  {
    hide Escape, ValueResult, TextSyms;
    QuotedIsNulFree(s);
    CutNothing(Quoted(s));
    StringRoundTrip(s, CutAtNul(rest), strtod);
    ValueSyms(Quoted(s), Str(s), rest, strtod);
  }

  lemma ScalarSyms(j: W.Json, rest: string, strtod: StrToD)
    requires W.IsScalar(j) && InRange(j) && rest != "" && Ends(rest)
    ensures TextSyms(W.ScalarText(j) + rest, strtod) == TreeSyms(j) + TextSyms(rest, strtod)
  {
    hide TextSyms, ValueResult, Quoted, Integral, Structural;
    EndsWhenCut(rest);
    if j.JsonString? {
      StringSyms(j.text, rest, strtod);
    } else if j.JsonInteger? {
      IntegralIsNulFree(j.integer);
      CutNothing(Integral(j.integer));
      IntegerRoundTrip(j.integer, CutAtNul(rest), strtod);
      NotSpecial(Integral(j.integer)[0]);
      ValueSyms(Integral(j.integer), ValueOf(j), rest, strtod);
    } else {
      var v := W.ScalarText(j);
      LiteralRoundTrip(CutAtNul(rest), strtod);
      CutNothing(v);
      NotSpecial(v[0]);
      ValueSyms(v, ValueOf(j), rest, strtod);
    }
  }

  lemma NotSpecial(c: char)
    requires c == '-' || IsDigit(c) || c == 'n' || c == 't' || c == 'f'
    ensures Structural(c).None? && c !in {' ', '\t', '\n', '\r'}
  {
  }

  // ----- tokens of a printed tree -----

  lemma {:induction false} SpacesSyms(n: nat, rest: string, strtod: StrToD)
    ensures TextSyms(W.Spaces(n) + rest, strtod) == TextSyms(rest, strtod)
  {
    hide TextSyms;
    if n == 0 {
      assert W.Spaces(0) + rest == rest;
    } else {
      assert W.Spaces(n) + rest == [' '] + (W.Spaces(n - 1) + rest);
      WhitespaceSyms(' ', W.Spaces(n - 1) + rest, strtod);
      SpacesSyms(n - 1, rest, strtod);
    }
  }

  lemma {:induction false} IndentationSyms(n: nat, level: nat, rest: string, strtod: StrToD)
    ensures TextSyms(W.Indentation(n, level) + rest, strtod) == TextSyms(rest, strtod)
  {
    hide TextSyms, W.Spaces;
    if level == 0 {
      assert "" + rest == rest;
    } else {
      JoinThree(W.Indentation(n, level - 1), W.Spaces(n), rest);
      IndentationSyms(n, level - 1, W.Spaces(n) + rest, strtod);
      SpacesSyms(n, rest, strtod);
    }
  }

  lemma NewLineSyms(indent: W.Indent, level: nat, rest: string, strtod: StrToD)
    ensures TextSyms(W.NewLine(indent, level) + rest, strtod) == TextSyms(rest, strtod)
  {
    hide TextSyms, W.Indentation;
    if indent.Some? {
      var spaces := W.Indentation(indent.value, level);
      JoinThree("\n", spaces, rest);
      WhitespaceSyms('\n', spaces + rest, strtod);
      IndentationSyms(indent.value, level, rest, strtod);
    } else {
      assert "" + rest == rest;
    }
  }

  lemma SeparatorTokens(indent: W.Indent, rest: string, strtod: StrToD)
    ensures TextSyms(W.ItemSeparator(indent) + rest, strtod) == [Structure(',')] + TextSyms(rest, strtod)
  {
    hide TextSyms;
    if indent.Some? {
      StructureSyms(',', rest, strtod);
    } else {
      assert ", " + rest == [','] + ([' '] + rest);
      StructureSyms(',', [' '] + rest, strtod);
      WhitespaceSyms(' ', rest, strtod);
    }
  }

  lemma LeadTokens(indent: W.Indent, level: nat, isFirst: bool, rest: string, strtod: StrToD)
    ensures TextSyms(W.Lead(indent, level, isFirst) + rest, strtod) == SeparatorSyms(isFirst) + TextSyms(rest, strtod)
  {
    hide TextSyms, W.NewLine, W.ItemSeparator;
    var line := W.NewLine(indent, level);
    NewLineSyms(indent, level, rest, strtod);
    if isFirst {
      assert "" + line + rest == line + rest;
    } else {
      JoinThree(W.ItemSeparator(indent), line, rest);
      SeparatorTokens(indent, line + rest, strtod);
    }
  }

  lemma KeyTokens(key: string, rest: string, strtod: StrToD)
    ensures TextSyms(W.KeyText(Some(key)) + rest, strtod)
            == [Sym(ValueToken, Some(Str(key))), Structure(':')] + TextSyms(rest, strtod)
  {
    hide TextSyms, Quoted;
    assert W.KeyText(Some(key)) + rest == Quoted(key) + ([':'] + ([' '] + rest));
    StringSyms(key, [':'] + ([' '] + rest), strtod);
    StructureSyms(':', [' '] + rest, strtod);
    WhitespaceSyms(' ', rest, strtod);
  }

  /** Something follows that ends a number. */
  predicate Delimited(rest: string) {
    rest != "" && Ends(rest)
  }

  lemma CloseTokens(indent: W.Indent, level: nat, c: char, rest: string, strtod: StrToD)
    requires c == '}' || c == ']'
    ensures TextSyms((W.NewLine(indent, level) + [c]) + rest, strtod) == [Structure(c)] + TextSyms(rest, strtod)
    ensures Delimited((W.NewLine(indent, level) + [c]) + rest)
  {
    JoinThree(W.NewLine(indent, level), [c], rest);
    NewLineSyms(indent, level, [c] + rest, strtod);
    StructureSyms(c, rest, strtod);
  }

  /** A printed tree, followed by anything that ends a number, is read as the tokens of the tree. */
  lemma {:induction false} TreeTokens(j: W.Json, indent: W.Indent, level: nat, rest: string, strtod: StrToD)
    requires InRange(j) && (W.IsScalar(j) ==> Delimited(rest))
    ensures TextSyms(W.Text(j, indent, level) + rest, strtod) == TreeSyms(j) + TextSyms(rest, strtod)
    decreases j, 0
  {
    hide TextSyms, W.NewLine, W.MembersText, W.ElementsText, MemberSyms, ElementSyms, W.ScalarText, Delimited;
    match j
    case JsonObject(members) =>
      var close := W.NewLine(indent, level) + ['}'];
      var body := W.MembersText(members, indent, level + 1, true);
      CloseTokens(indent, level, '}', rest, strtod);
      Enclosed('{', body, close, rest);
      StructureSyms('{', body + (close + rest), strtod);
      MembersTokens(members, indent, level + 1, true, close + rest, strtod);
      EnclosedSyms(Structure('{'), MemberSyms(members, true), Structure('}'), TextSyms(rest, strtod));
    case JsonArray(elements) =>
      var close := W.NewLine(indent, level) + [']'];
      var body := W.ElementsText(elements, indent, level + 1, true);
      CloseTokens(indent, level, ']', rest, strtod);
      Enclosed('[', body, close, rest);
      StructureSyms('[', body + (close + rest), strtod);
      ElementsTokens(elements, indent, level + 1, true, close + rest, strtod);
      EnclosedSyms(Structure('['), ElementSyms(elements, true), Structure(']'), TextSyms(rest, strtod));
    case _ =>
      ScalarTokens(j, rest, strtod);
  }

  lemma ScalarTokens(j: W.Json, rest: string, strtod: StrToD)
    requires W.IsScalar(j) && InRange(j) && Delimited(rest)
    ensures TextSyms(W.ScalarText(j) + rest, strtod) == TreeSyms(j) + TextSyms(rest, strtod)
  {
    ScalarSyms(j, rest, strtod);
  }

  lemma Enclosed(open: char, body: string, close: string, rest: string)
    ensures ([open] + body + close) + rest == [open] + (body + (close + rest))
  {
  }

  lemma EnclosedSyms(open: Sym, body: seq<Sym>, close: Sym, rest: seq<Sym>)
    ensures [open] + (body + ([close] + rest)) == ([open] + (body + [close])) + rest
  {
  }

  lemma {:induction false} MembersTokens(members: seq<W.Member>, indent: W.Indent, level: nat, isFirst: bool,
      rest: string, strtod: StrToD)
    requires MembersInRange(members) && Delimited(rest)
    ensures TextSyms(W.MembersText(members, indent, level, isFirst) + rest, strtod)
            == MemberSyms(members, isFirst) + TextSyms(rest, strtod)
    decreases members, 1
  {
    hide TextSyms, W.Lead, W.KeyText, W.Text, TreeSyms, Delimited;
    if members == [] {
      assert "" + rest == rest;
    } else {
      var key, value, more := members[0].key, members[0].value, W.MembersText(members[1..], indent, level, false);
      var lead, text := W.Lead(indent, level, isFirst), W.Text(value, indent, level);
      MoreIsDelimited(members[1..], indent, level, rest);
      JoinFive(lead, W.KeyText(Some(key)), text, more, rest);
      LeadTokens(indent, level, isFirst, W.KeyText(Some(key)) + (text + (more + rest)), strtod);
      KeyTokens(key, text + (more + rest), strtod);
      TreeTokens(value, indent, level, more + rest, strtod);
      MembersTokens(members[1..], indent, level, false, rest, strtod);
      JoinSyms(SeparatorSyms(isFirst), [Sym(ValueToken, Some(Str(key))), Structure(':')], TreeSyms(value),
               MemberSyms(members[1..], false), TextSyms(rest, strtod));
    }
  }

  lemma JoinFive(a: string, b: string, c: string, d: string, e: string)
    ensures ((a + (b + c)) + d) + e == a + (b + (c + (d + e)))
  {
  }

  lemma JoinSyms(a: seq<Sym>, b: seq<Sym>, c: seq<Sym>, d: seq<Sym>, e: seq<Sym>)
    ensures a + (b + (c + (d + e))) == (a + (b + (c + d))) + e
  {
  }

  lemma LeadIsDelimited(indent: W.Indent, level: nat, tail: string)
    ensures Delimited(W.Lead(indent, level, false) + tail)
  {
  }

  lemma MoreIsDelimited(members: seq<W.Member>, indent: W.Indent, level: nat, rest: string)
    requires Delimited(rest)
    ensures Delimited(W.MembersText(members, indent, level, false) + rest)
  {
    hide W.Lead, W.KeyText, W.Text, Delimited;
    if members == [] {
      assert "" + rest == rest;
    } else {
      var keyed := W.KeyText(Some(members[0].key)) + W.Text(members[0].value, indent, level);
      var more := W.MembersText(members[1..], indent, level, false);
      assert ((W.Lead(indent, level, false) + keyed) + more) + rest
          == W.Lead(indent, level, false) + (keyed + (more + rest));
      LeadIsDelimited(indent, level, keyed + (more + rest));
    }
  }

  lemma {:induction false} ElementsTokens(elements: seq<W.Json>, indent: W.Indent, level: nat, isFirst: bool,
      rest: string, strtod: StrToD)
    requires ElementsInRange(elements) && Delimited(rest)
    ensures TextSyms(W.ElementsText(elements, indent, level, isFirst) + rest, strtod)
            == ElementSyms(elements, isFirst) + TextSyms(rest, strtod)
    decreases elements, 1
  {
    hide TextSyms, W.Lead, W.Text, TreeSyms, Delimited;
    if elements == [] {
      assert "" + rest == rest;
    } else {
      var more := W.ElementsText(elements[1..], indent, level, false);
      var lead, text := W.Lead(indent, level, isFirst), W.Text(elements[0], indent, level);
      MoreElementsDelimited(elements[1..], indent, level, rest);
      JoinFive(lead, "", text, more, rest);
      assert "" + (text + (more + rest)) == text + (more + rest);
      LeadTokens(indent, level, isFirst, text + (more + rest), strtod);
      TreeTokens(elements[0], indent, level, more + rest, strtod);
      ElementsTokens(elements[1..], indent, level, false, rest, strtod);
      JoinSyms(SeparatorSyms(isFirst), [], TreeSyms(elements[0]), ElementSyms(elements[1..], false),
          TextSyms(rest, strtod));
      assert [] + (TreeSyms(elements[0]) + (ElementSyms(elements[1..], false) + TextSyms(rest, strtod)))
             == TreeSyms(elements[0]) + (ElementSyms(elements[1..], false) + TextSyms(rest, strtod));
      assert [] + (TreeSyms(elements[0]) + ElementSyms(elements[1..], false))
             == TreeSyms(elements[0]) + ElementSyms(elements[1..], false);
    }
  }

  lemma MoreElementsDelimited(elements: seq<W.Json>, indent: W.Indent, level: nat, rest: string)
    requires Delimited(rest)
    ensures Delimited(W.ElementsText(elements, indent, level, false) + rest)
  {
    hide W.Lead, W.Text, Delimited;
    if elements == [] {
      assert "" + rest == rest;
    } else {
      var text := W.KeyText(None) + W.Text(elements[0], indent, level);
      var more := W.ElementsText(elements[1..], indent, level, false);
      assert ((W.Lead(indent, level, false) + text) + more) + rest
          == W.Lead(indent, level, false) + (text + (more + rest));
      LeadIsDelimited(indent, level, text + (more + rest));
    }
  }

  // ----- parsing the tokens of a tree -----

  /** A token that does not go on with the list in which the tree stands. */
  predicate Follows(more: seq<Sym>) {
    more != [] && more[0].Sym?
  }

  predicate ClosesList(more: seq<Sym>) {
    Follows(more) && more[0].token != ItemSeparator
  }

  lemma {:induction false} TreeStarts(j: W.Json, more: seq<Sym>)
    ensures TreeSyms(j) != [] && StartsElement(TreeSyms(j) + more) && Follows(TreeSyms(j) + more)
  {
    hide MemberSyms, ElementSyms;
  }

  /** The grammar gives an observer the tree and stops at the token after it. */
  lemma {:induction false} TreeParses(j: W.Json, more: seq<Sym>)
    requires Follows(more)
    ensures ElementAt(TreeSyms(j) + more) == Parsed(TreeEvents(j), more)
    decreases j, 0
  {
    hide MemberSyms, ElementSyms, MemberEvents, ElementEvents;
    match j
    case JsonObject(members) =>
      var close := [Structure('}')] + more;
      EnclosedSyms(Structure('{'), MemberSyms(members, true), Structure('}'), more);
      ObjectParses(members, more);
    case JsonArray(elements) =>
      EnclosedSyms(Structure('['), ElementSyms(elements, true), Structure(']'), more);
      ArrayParses(elements, more);
    case _ =>
      var syms := TreeSyms(j) + more;
      assert syms[1..] == more;
  }

  lemma {:induction false} ObjectParses(members: seq<W.Member>, more: seq<Sym>)
    requires Follows(more)
    ensures ElementAt([Structure('{')] + (MemberSyms(members, true) + ([Structure('}')] + more)))
            == Parsed([ObjectBegins] + (MemberEvents(members) + [ObjectEnds]), more)
    decreases members, 3
  {
    hide MembersAt, ElementAt;
    var close := [Structure('}')] + more;
    if members == [] {
      assert [] + close == close;
    } else {
      MembersParse(members, close);
    }
    ObjectAround(MemberSyms(members, true), MemberEvents(members), more);
  }

  lemma ObjectAround(body: seq<Sym>, events: seq<Event>, more: seq<Sym>)
    requires Follows(more)
    requires var close := [Structure('}')] + more;
             if body == [] then events == []
             else At(body + close, ValueToken) && MembersAt(body + close) == Parsed(events, close)
    ensures ElementAt([Structure('{')] + (body + ([Structure('}')] + more)))
            == Parsed([ObjectBegins] + (events + [ObjectEnds]), more)
  {
    hide MembersAt, ObjectAt, ArrayAt, Consume;
    var close := [Structure('}')] + more;
    if body == [] {
      assert body + close == close;
    }
    ConsumeFirst(Structure('{'), body + close);
    ConsumeFirst(Structure('}'), more);
    ObjectIs([Structure('{')] + (body + close), body + close, close, more, events);
  }

  lemma ConsumeFirst(first: Sym, rest: seq<Sym>)
    requires first.Sym? && Follows(rest)
    ensures Consume([first] + rest, first.token) == Parsed([], rest)
  {
    assert ([first] + rest)[1..] == rest;
  }

  lemma ObjectIs(syms: seq<Sym>, inner: seq<Sym>, close: seq<Sym>, more: seq<Sym>, events: seq<Event>)
    requires Consume(syms, BeginObject) == Parsed([], inner) && Consume(close, EndObject) == Parsed([], more)
    requires if At(inner, ValueToken) then MembersAt(inner) == Parsed(events, close) else events == [] && inner == close
    ensures ObjectAt(syms) == Parsed([ObjectBegins] + (events + [ObjectEnds]), more)
  {
    hide MembersAt, Consume, At;
    assert ([ObjectBegins] + events) + ([] + [ObjectEnds]) == [ObjectBegins] + (events + [ObjectEnds]);
  }

  lemma {:induction false} MembersParse(members: seq<W.Member>, more: seq<Sym>)
    requires members != [] && ClosesList(more)
    ensures At(MemberSyms(members, true) + more, ValueToken)
    ensures MembersAt(MemberSyms(members, true) + more) == Parsed(MemberEvents(members), more)
    decreases members, 1
  {
    hide TreeSyms, TreeEvents, MemberAt, ElementAt, MoreMembers;
    var tree, rest := TreeSyms(members[0].value), MemberSyms(members[1..], false) + more;
    var syms := MemberSyms(members, true) + more;
    var key := [Sym(ValueToken, Some(Str(members[0].key))), Structure(':')];
    JoinSyms([], key, TreeSyms(members[0].value), MemberSyms(members[1..], false), more);
    assert syms == key + (tree + rest);
    MoreFollow(members[1..], more);
    TreeStarts(members[0].value, rest);
    TreeParses(members[0].value, rest);
    MoreMembersParse(members[1..], more);
    MemberParses(members[0].key, members[0].value, rest);
    JoinEvents([Key(members[0].key)], TreeEvents(members[0].value), MemberEvents(members[1..]));
  }

  lemma MemberParses(key: string, value: W.Json, rest: seq<Sym>)
    requires Follows(TreeSyms(value) + rest)
    requires ElementAt(TreeSyms(value) + rest) == Parsed(TreeEvents(value), rest)
    ensures MemberAt([Sym(ValueToken, Some(Str(key))), Structure(':')] + (TreeSyms(value) + rest))
            == Parsed([Key(key)] + TreeEvents(value), rest)
  {
    hide TreeSyms, TreeEvents, ElementAt;
    var syms := [Sym(ValueToken, Some(Str(key))), Structure(':')] + (TreeSyms(value) + rest);
    assert syms[1..] == [Structure(':')] + (TreeSyms(value) + rest) && syms[1..][1..] == TreeSyms(value) + rest;
  }

  lemma JoinEvents(a: seq<Event>, b: seq<Event>, c: seq<Event>)
    ensures (a + b) + c == a + (b + c)
  {
  }

  lemma {:induction false} MoreFollow(members: seq<W.Member>, more: seq<Sym>)
    requires ClosesList(more)
    ensures Follows(MemberSyms(members, false) + more)
  {
    hide TreeSyms;
    if members == [] {
      assert MemberSyms(members, false) + more == more;
    }
  }

  lemma {:induction false} MoreMembersParse(members: seq<W.Member>, more: seq<Sym>)
    requires ClosesList(more)
    ensures MoreMembers(MemberSyms(members, false) + more) == Parsed(MemberEvents(members), more)
    decreases members, 2
  {
    hide TreeSyms, TreeEvents, MembersAt;
    if members == [] {
      assert MemberSyms(members, false) + more == more;
    } else {
      var syms := MemberSyms(members, false) + more;
      MembersParse(members, more);
      assert MemberSyms(members, false) == [Structure(',')] + MemberSyms(members, true);
      assert syms[1..] == MemberSyms(members, true) + more;
    }
  }

  lemma {:induction false} ArrayParses(elements: seq<W.Json>, more: seq<Sym>)
    requires Follows(more)
    ensures ElementAt([Structure('[')] + (ElementSyms(elements, true) + ([Structure(']')] + more)))
            == Parsed([ArrayBegins] + (ElementEvents(elements) + [ArrayEnds]), more)
    decreases elements, 3
  {
    hide ElementsAt, ElementAt;
    var close := [Structure(']')] + more;
    if elements == [] {
      assert [] + close == close;
    } else {
      ElementsParse(elements, close);
    }
    ArrayAround(ElementSyms(elements, true), ElementEvents(elements), more);
  }

  lemma ArrayAround(body: seq<Sym>, events: seq<Event>, more: seq<Sym>)
    requires Follows(more)
    requires var close := [Structure(']')] + more;
             if body == [] then events == []
             else StartsElement(body + close) && Follows(body + close)
                  && ElementsAt(body + close) == Parsed(events, close)
    ensures ElementAt([Structure('[')] + (body + ([Structure(']')] + more)))
            == Parsed([ArrayBegins] + (events + [ArrayEnds]), more)
  {
    hide ElementsAt, ObjectAt, ArrayAt, Consume;
    var close := [Structure(']')] + more;
    if body == [] {
      assert body + close == close;
    }
    ConsumeFirst(Structure('['), body + close);
    ConsumeFirst(Structure(']'), more);
    ArrayIs([Structure('[')] + (body + close), body + close, close, more, events);
  }

  lemma ArrayIs(syms: seq<Sym>, inner: seq<Sym>, close: seq<Sym>, more: seq<Sym>, events: seq<Event>)
    requires Consume(syms, BeginArray) == Parsed([], inner) && Consume(close, EndArray) == Parsed([], more)
    requires if StartsElement(inner) then ElementsAt(inner) == Parsed(events, close) else events == [] && inner == close
    ensures ArrayAt(syms) == Parsed([ArrayBegins] + (events + [ArrayEnds]), more)
  {
    hide ElementsAt, Consume, StartsElement;
    assert ([ArrayBegins] + events) + ([] + [ArrayEnds]) == [ArrayBegins] + (events + [ArrayEnds]);
  }

  lemma {:induction false} ElementsParse(elements: seq<W.Json>, more: seq<Sym>)
    requires elements != [] && ClosesList(more)
    ensures StartsElement(ElementSyms(elements, true) + more) && Follows(ElementSyms(elements, true) + more)
    ensures ElementsAt(ElementSyms(elements, true) + more) == Parsed(ElementEvents(elements), more)
    decreases elements, 1
  {
    hide TreeSyms, TreeEvents, ElementAt, MoreElements;
    var tree, rest := TreeSyms(elements[0]), ElementSyms(elements[1..], false) + more;
    assert ElementSyms(elements, true) + more == tree + rest;
    MoreElementsFollow(elements[1..], more);
    TreeStarts(elements[0], rest);
    TreeParses(elements[0], rest);
    MoreElementsParse(elements[1..], more);
  }

  lemma {:induction false} MoreElementsFollow(elements: seq<W.Json>, more: seq<Sym>)
    requires ClosesList(more)
    ensures Follows(ElementSyms(elements, false) + more)
  {
    hide TreeSyms;
    if elements == [] {
      assert ElementSyms(elements, false) + more == more;
    }
  }

  lemma {:induction false} MoreElementsParse(elements: seq<W.Json>, more: seq<Sym>)
    requires ClosesList(more)
    ensures MoreElements(ElementSyms(elements, false) + more) == Parsed(ElementEvents(elements), more)
    decreases elements, 2
  {
    hide TreeSyms, TreeEvents, ElementsAt;
    if elements == [] {
      assert ElementSyms(elements, false) + more == more;
    } else {
      var syms := ElementSyms(elements, false) + more;
      ElementsParse(elements, more);
      assert ElementSyms(elements, false) == [Structure(',')] + ElementSyms(elements, true);
      assert syms[1..] == ElementSyms(elements, true) + more;
    }
  }

  // ----- the round trip -----

  /** The tokens of an open text end with the last value, or with the exception thrown for it. */
  lemma {:induction false} OpenEnds(place: Place, strtod: StrToD)
    requires EndsOpen(place, strtod)
    ensures var syms := SymsOf(place, strtod);
            syms[|syms| - 1] == Failing || (|syms| > 1 && At(syms[|syms| - 2..], ValueToken))
    decreases |place.rest|
  {
    hide NextLexeme, CutAtNul, ValueResult, SkipWhitespace, SymsOf, TokensOf;
    TokenTakesText(place, strtod);
    TokensStep(place, strtod);
    SymsStep(place, strtod);
    if NextLexeme(place, strtod).Token? {
      OpenEnds(NextLexeme(place, strtod).after, strtod);
    } else {
      NoSyms(Place("", 1, 1), strtod);
    }
  }

  lemma NoSyms(place: Place, strtod: StrToD)
    requires place.rest == ""
    ensures SymsOf(place, strtod) == END
  {
  }

  const END: seq<Sym> := [Sym(EndOfFile, None)]

  /** The tokens of a printed document: those of its tree, and the end. */
  lemma DocumentTokens(members: seq<W.Member>, indent: W.Indent, strtod: StrToD)
    requires MembersInRange(members)
    ensures TextSyms(W.Text(W.JsonObject(members), indent, 0), strtod) == TreeSyms(W.JsonObject(members)) + END
    ensures !EndsOpen(Place(W.Text(W.JsonObject(members), indent, 0), 1, 1), strtod)
  {
    hide W.Text, TreeSyms, TokensOf;
    var root := W.JsonObject(members);
    var text := W.Text(root, indent, 0);
    assert text + "" == text;
    TreeTokens(root, indent, 0, "", strtod);
    assert TextSyms("", strtod) == END;
    LastSymbol(members);
    if EndsOpen(Place(text, 1, 1), strtod) {
      OpenEnds(Place(text, 1, 1), strtod);
    }
  }

  lemma LastSymbol(members: seq<W.Member>)
    ensures var syms := TreeSyms(W.JsonObject(members)) + END;
            |syms| > 1 && syms[|syms| - 2] == Structure('}')
  {
    hide MemberSyms;
  }

  /**
    Parsing the text printed for a document, with or without indentation, in whatever chunks it arrives, gives the
    observer the same structure, keys and values in the same order.
  */
  method ParsePrinted(ghost members: seq<W.Member>, ghost indent: W.Indent, chunks: seq<string>, strtod: StrToD)
    returns (atEnd: Option<bool>, events: seq<Event>)
    requires MembersInRange(members) && Joined(chunks) == W.Text(W.JsonObject(members), indent, 0)
    requires forall i :: 0 <= i < |chunks| ==> chunks[i] != ""
    ensures atEnd == Some(true) && events == TreeEvents(W.JsonObject(members))
  {
    hide W.Text, TreeSyms, TreeEvents, ElementAt, Joined;
    ghost var syms := TreeSyms(W.JsonObject(members)) + END;
    DocumentTokens(members, indent, strtod);
    TextIsNotEmpty(members, indent);
    var parser := new JsonParser(chunks, strtod);
    ghost var first := [Sym(parser.tokenizer.token, parser.tokenizer.value)];
    assert parser.Syms() == first + syms;
    assert (first + syms)[1..] == syms;
    TreeStarts(W.JsonObject(members), END);
    TreeParses(W.JsonObject(members), END);
    atEnd := parser.Parse();
    events := parser.events;
    assert [] + TreeEvents(W.JsonObject(members)) == TreeEvents(W.JsonObject(members));
  }

  /** Different documents are printed differently, with whatever indentation. */
  lemma PrintedOnce(a: seq<W.Member>, b: seq<W.Member>, indent: W.Indent, other: W.Indent, strtod: StrToD)
    requires MembersInRange(a) && MembersInRange(b)
    requires W.Text(W.JsonObject(a), indent, 0) == W.Text(W.JsonObject(b), other, 0)
    ensures a == b
  {
    hide W.Text, TreeSyms, TreeEvents, ElementAt;
    DocumentTokens(a, indent, strtod);
    DocumentTokens(b, other, strtod);
    TreeParses(W.JsonObject(a), END);
    TreeParses(W.JsonObject(b), END);
    assert TreeEvents(W.JsonObject(a)) + [] == TreeEvents(W.JsonObject(b)) + [];
    SameTree(W.JsonObject(a), W.JsonObject(b), [], []);
  }

  /** A document may also be nothing but a value, which then reaches the end of the text. */
  method ParseBareNumber(n: nat, chunks: seq<string>, strtod: StrToD)
    returns (atEnd: Option<bool>, events: seq<Event>)
    requires n < UINT64_LIMIT && Joined(chunks) == Decimal(n)
    requires forall i :: 0 <= i < |chunks| ==> chunks[i] != ""
    ensures atEnd == Some(true) && events == [Visit(UInt(n))]
  {
    hide Decimal, Joined, SymsOf, ValueResult, CutAtNul, LosesLast, Structural;
    BareNumber(n, strtod);
    OpenWhenLost(chunks, strtod);
    var parser := new JsonParser(chunks, strtod);
    atEnd := parser.Parse();
    events := parser.events;
  }

  lemma BareNumber(n: nat, strtod: StrToD)
    requires n < UINT64_LIMIT
    ensures Decimal(n) != "" && !LosesLast(Decimal(n), strtod)
    ensures SymsOf(Place(Decimal(n), 1, 1), strtod) == [Sym(ValueToken, Some(UInt(n)))] + END
  {
    hide Decimal, SymsOf, ValueResult, CutAtNul, LosesLast, LexemeAt, SkipWhitespace, SkipOne;
    DecimalDigits(n);
    DecimalAlone(n, strtod);
    NumberNotLost(n, strtod);
    SkipStep(Place(Decimal(n), 1, 1));
    SymsStep(Place(Decimal(n), 1, 1), strtod);
    NoSyms(Place("", 1, 1), strtod);
  }

  lemma TextIsNotEmpty(members: seq<W.Member>, indent: W.Indent)
    ensures W.Text(W.JsonObject(members), indent, 0) != ""
  {
  }

  method PrintThenParse(members: seq<W.Member>, indent: W.Indent, strtod: StrToD)
    returns (text: string, atEnd: Option<bool>, events: seq<Event>)
    requires MembersInRange(members)
    ensures atEnd == Some(true) && events == TreeEvents(W.JsonObject(members))
  {
    hide W.Text, TreeEvents;
    var writer := new W.JsonWriter(indent);
    writer.PrintRoot(members);
    text := writer.out;
    TextIsNotEmpty(members, indent);
    OneChunk(text);
    atEnd, events := ParsePrinted(members, indent, [text], strtod);
  }
}
