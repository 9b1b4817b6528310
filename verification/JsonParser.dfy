/** The parser: recursive descent over the tokens, which calls an observer on the way. */
module JsonParsing {
  import opened Streams
  import opened JsonCoding
  import opened JsonTokens

  /** The calls an observer gets. */
  datatype Event =
    | ObjectBegins
    | ObjectEnds
    | ArrayBegins
    | ArrayEnds
    | Key(key: string)
    | Visit(value: JsonValue)

  // ----- grammar -----

  /** A token with its value; `Failing` stands for the exception of the tokenizer. */
  datatype Sym = Sym(token: JsonToken, value: Option<JsonValue>) | Failing

  /** The tokens of a text without their positions, up to its end. */
  function SymsOf(place: Place, strtod: StrToD): (syms: seq<Sym>)
    ensures syms != []
    decreases |place.rest|
  {
    TokenTakesText(place, strtod);
    match NextLexeme(place, strtod)
    case Token(token, value, after) => [Sym(token, value)] + SymsOf(after, strtod)
    case AtEnd => [Sym(EndOfFile, None)]
    case Rejected(_) => [Failing]
    case Unfinished =>
      var value := ValueResult(CutAtNul(SkipWhitespace(place).rest), strtod).value;
      if value.Some? then [Sym(ValueToken, value), Sym(EndOfFile, None)] else [Failing]
  }

  /** The tokens when the value that ends the text gets lost. */
  function SymsWithoutLast(place: Place, strtod: StrToD): (syms: seq<Sym>)
    ensures syms != []
    decreases |place.rest|
  {
    TokenTakesText(place, strtod);
    match NextLexeme(place, strtod)
    case Token(token, value, after) => [Sym(token, value)] + SymsWithoutLast(after, strtod)
    case _ => [Sym(EndOfFile, None)]
  }

  function SymsIn(place: Place, lost: bool, strtod: StrToD): (syms: seq<Sym>)
    ensures syms != []
  {
    if lost then SymsWithoutLast(place, strtod) else SymsOf(place, strtod)
  }

  /** What has been observed and the tokens from the current one on, or an exception. */
  datatype Parsed = Parsed(events: seq<Event>, rest: seq<Sym>) | Refused

  predicate At(syms: seq<Sym>, token: JsonToken) {
    syms != [] && syms[0].Sym? && syms[0].token == token
  }

  /** Moving to the next token. */
  function Move(syms: seq<Sym>): Parsed {
    if |syms| > 1 && syms[1].Sym? then Parsed([], syms[1..]) else Refused
  }

  function Consume(syms: seq<Sym>, token: JsonToken): (p: Parsed)
    ensures Shorter(p, syms)
  {
    if At(syms, token) then Move(syms) else Refused
  }

  /** First `first`, then what the rest of the parsing yields. */
  function Before(first: seq<Event>, next: Parsed): Parsed {
    if next.Parsed? then Parsed(first + next.events, next.rest) else Refused
  }

  predicate Shorter(p: Parsed, syms: seq<Sym>) {
    p.Parsed? ==> 0 < |p.rest| < |syms|
  }

  predicate StartsElement(syms: seq<Sym>) {
    At(syms, BeginObject) || At(syms, BeginArray) || At(syms, ValueToken)
  }

  function ElementAt(syms: seq<Sym>): (p: Parsed)
    ensures Shorter(p, syms)
    decreases |syms|, 2
  {
    if At(syms, BeginArray) then ArrayAt(syms)
    else if At(syms, BeginObject) then ObjectAt(syms)
    else if At(syms, ValueToken) && syms[0].value.Some? then Before([Visit(syms[0].value.value)], Move(syms))
    else Refused
  }

  function ObjectAt(syms: seq<Sym>): (p: Parsed)
    ensures Shorter(p, syms)
    decreases |syms|, 1
  {
    var begun := Consume(syms, BeginObject);
    if begun == Refused then Refused
    else
      var members := if At(begun.rest, ValueToken) then MembersAt(begun.rest) else Parsed([], begun.rest);
      if members == Refused then Refused
      else Before([ObjectBegins] + members.events, Then(Consume(members.rest, EndObject), [ObjectEnds]))
  }

  /** What has been parsed, followed by `last`. */
  function Then(p: Parsed, last: seq<Event>): Parsed {
    if p.Parsed? then Parsed(p.events + last, p.rest) else Refused
  }

  function MembersAt(syms: seq<Sym>): (p: Parsed)
    ensures Shorter(p, syms)
    decreases |syms|, 4
  {
    var member := MemberAt(syms);
    if member == Refused then Refused else Before(member.events, MoreMembers(member.rest))
  }

  /** The members after a member. */
  function MoreMembers(syms: seq<Sym>): (p: Parsed)
    requires syms != []
    ensures p.Parsed? ==> 0 < |p.rest| <= |syms|
    decreases |syms|, 5
  {
    if !At(syms, ItemSeparator) then Parsed([], syms)
    else
      var next := Move(syms);
      if next == Refused then Refused else MembersAt(next.rest)
  }

  function MemberAt(syms: seq<Sym>): (p: Parsed)
    ensures Shorter(p, syms)
    decreases |syms|, 3
  {
    if !At(syms, ValueToken) || syms[0].value.None? || !syms[0].value.value.Str? then Refused
    else
      var keyed := Move(syms);
      if keyed == Refused then Refused
      else
        var separated := Consume(keyed.rest, KeySeparator);
        if separated == Refused then Refused
        else Before([Key(syms[0].value.value.text)], ElementAt(separated.rest))
  }

  function ArrayAt(syms: seq<Sym>): (p: Parsed)
    ensures Shorter(p, syms)
    decreases |syms|, 1
  {
    var begun := Consume(syms, BeginArray);
    if begun == Refused then Refused
    else
      var elements := if StartsElement(begun.rest) then ElementsAt(begun.rest) else Parsed([], begun.rest);
      if elements == Refused then Refused
      else Before([ArrayBegins] + elements.events, Then(Consume(elements.rest, EndArray), [ArrayEnds]))
  }

  function ElementsAt(syms: seq<Sym>): (p: Parsed)
    ensures Shorter(p, syms)
    decreases |syms|, 4
  {
    var element := ElementAt(syms);
    if element == Refused then Refused else Before(element.events, MoreElements(element.rest))
  }

  /** The elements after an element. */
  function MoreElements(syms: seq<Sym>): (p: Parsed)
    requires syms != []
    ensures p.Parsed? ==> 0 < |p.rest| <= |syms|
    decreases |syms|, 5
  {
    if !At(syms, ItemSeparator) then Parsed([], syms)
    else
      var next := Move(syms);
      if next == Refused then Refused else ElementsAt(next.rest)
  }

  /** One element, after the beginning of the text; nothing at its end. */
  function DocumentAt(syms: seq<Sym>): Parsed {
    var start := if At(syms, BeginOfFile) then Move(syms) else Parsed([], syms);
    if start == Refused || At(start.rest, EndOfFile) then start else ElementAt(start.rest)
  }

  // ----- the parser -----

  class JsonParser {
    const tokenizer: JsonTokenizer
    /** The calls the observer has got. */
    var events: seq<Event>

    ghost predicate Valid()
      reads tokenizer
    {
      tokenizer.Valid()
    }

    /** The tokens from the current one on, without a value that will be lost. */
    ghost function Syms(): (syms: seq<Sym>)
      requires Valid()
      reads tokenizer
      ensures syms != []
    {
      var current := [Sym(tokenizer.token, tokenizer.value)];
      if tokenizer.token == EndOfFile then current
      else current + SymsIn(tokenizer.Here(), tokenizer.Losing(), tokenizer.strtod)
    }

    /** A parsing step has done what the grammar says, or thrown an exception. */
    twostate predicate Does(ok: bool, p: Parsed)
      requires ok ==> Valid()
      reads this, tokenizer
    {
      match p
      case Parsed(added, rest) => ok && events == old(events) + added && Syms() == rest
      case Refused => !ok
    }

    constructor (chunks: seq<string>, strtod: StrToD)
      requires forall i :: 0 <= i < |chunks| ==> chunks[i] != ""
      ensures Valid() && events == [] && fresh(tokenizer) && tokenizer.strtod == strtod
      ensures tokenizer.Here() == Place(Joined(chunks), 1, 1)
      ensures tokenizer.token == if Joined(chunks) == "" then EndOfFile else BeginOfFile
      ensures tokenizer.Losing() == LosesIn(chunks, strtod)
    {
      NothingJoined();
      NeverLosesAll(strtod);
      if chunks != [] {
        LosesAtFirst(chunks, strtod);
      }
      tokenizer := new JsonTokenizer(chunks, strtod);
      events := [];
    }

    /** Moves the tokenizer; it is never moved beyond the end of the text. */
    method Next() returns (ok: bool)
      requires Valid() && tokenizer.token != EndOfFile
      modifies tokenizer
      ensures ok ==> Valid()
      ensures Does(ok, Move(old(Syms())))
    {
      hide NextLexeme, SymsOf, SymsWithoutLast, CutAtNul, SkipWhitespace, ValueResult, Joined, WillLose, TokensOf;
      hide Needed;
      ghost var here, part, input := tokenizer.Here(), tokenizer.ReadPart(), tokenizer.input;
      ghost var lost := tokenizer.Losing();
      LostIsOpen(part, input, tokenizer.strtod);
      TokensStep(here, tokenizer.strtod);
      SymsStep(here, tokenizer.strtod);
      WithoutLastStep(here, tokenizer.strtod);
      if NextLexeme(here, tokenizer.strtod).Unfinished? {
        LosesAtEnd(part, input, tokenizer.strtod);
      }
      ok := tokenizer.Next();
      if ok {
        if NextLexeme(here, tokenizer.strtod).Token? {
          LosesStep(part, input, tokenizer.ReadPart(), tokenizer.strtod);
        } else if tokenizer.token != EndOfFile {
          NothingLeft(tokenizer.Here(), tokenizer.strtod);
          LostIsOpen(tokenizer.ReadPart(), tokenizer.input, tokenizer.strtod);
        }
      }
    }

    lemma Current()
      requires Valid()
      ensures Syms()[0] == Sym(tokenizer.token, tokenizer.value)
      ensures forall token :: At(Syms(), token) <==> tokenizer.token == token
      ensures StartsElement(Syms())
              <==> tokenizer.token == BeginObject || tokenizer.token == BeginArray || tokenizer.token == ValueToken
    {
    }

    method ConsumeToken(token: JsonToken) returns (ok: bool)
      requires Valid() && token != EndOfFile
      modifies tokenizer
      ensures ok ==> Valid()
      ensures Does(ok, Consume(old(Syms()), token))
    {
      if tokenizer.token != token {
        return false;
      }
      ok := Next();
    }

    method ParseElement() returns (ok: bool)
      requires Valid()
      modifies this, tokenizer
      ensures ok ==> Valid()
      ensures Does(ok, ElementAt(old(Syms())))
      decreases |Syms()|, 2
    {
      var token := tokenizer.token;
      if token == BeginArray {
        ok := ParseArray();
      } else if token == BeginObject {
        ok := ParseObject();
      } else if token == ValueToken {
        ok := ParseValue();
      } else {
        ok := false;
      }
    }

    method ParseValue() returns (ok: bool)
      requires Valid() && tokenizer.token == ValueToken
      modifies this, tokenizer
      ensures ok ==> Valid()
      ensures Does(ok, ElementAt(old(Syms())))
    {
      if tokenizer.value.None? {
        return false;
      }
      events := events + [Visit(tokenizer.value.value)];
      ok := Next();
    }

    method ParseObject() returns (ok: bool)
      requires Valid()
      modifies this, tokenizer
      ensures ok ==> Valid()
      ensures Does(ok, ObjectAt(old(Syms())))
      decreases |Syms()|, 1
    {
      hide SymsIn, MembersAt, Syms, Consume, At, Valid;
      ok := ConsumeToken(BeginObject);
      if !ok {
        return;
      }
      Current();
      events := events + [ObjectBegins];
      if tokenizer.token == ValueToken {
        ok := ParseMembers();
        if !ok {
          return;
        }
      }
      ok := ConsumeToken(EndObject);
      if ok {
        events := events + [ObjectEnds];
      }
    }

    method ParseMembers() returns (ok: bool)
      requires Valid()
      modifies this, tokenizer
      ensures ok ==> Valid()
      ensures Does(ok, MembersAt(old(Syms())))
      decreases |Syms()|, 4
    {
      hide SymsIn, MemberAt, MembersAt, MoreMembers, Syms, At, Move, Before, Valid;
      ghost var all := MembersAt(Syms());
      FirstMember(Syms());
      ghost var start := MemberAt(Syms());
      ok := ParseMember();
      if !ok {
        return;
      }
      ghost var done := start.events;
      Current();
      while tokenizer.token == ItemSeparator
        invariant Valid() && ok && At(Syms(), ItemSeparator) == (tokenizer.token == ItemSeparator)
        invariant |Syms()| < |old(Syms())|
        invariant events == old(events) + done && all == Before(done, MoreMembers(Syms()))
        decreases |Syms()|
      {
        NextMember(all, done, Syms());
        ok := Next();
        if !ok {
          return;
        }
        ghost var next := MemberAt(Syms());
        ok := ParseMember();
        if !ok {
          return;
        }
        Current();
        done := done + next.events;
      }
      LastMember(all, done, Syms());
    }

    method ParseMember() returns (ok: bool)
      requires Valid()
      modifies this, tokenizer
      ensures ok ==> Valid()
      ensures Does(ok, MemberAt(old(Syms())))
      decreases |Syms()|, 3
    {
      hide SymsIn, ElementAt, Syms;
      Current();
      if tokenizer.token != ValueToken {
        return false;
      }
      var key := tokenizer.value;
      if key.None? || !key.value.Str? {
        return false;
      }
      events := events + [Key(key.value.text)];
      ok := Next();
      if !ok {
        return;
      }
      ok := ConsumeToken(KeySeparator);
      if !ok {
        return;
      }
      ok := ParseElement();
    }

    method ParseArray() returns (ok: bool)
      requires Valid()
      modifies this, tokenizer
      ensures ok ==> Valid()
      ensures Does(ok, ArrayAt(old(Syms())))
      decreases |Syms()|, 1
    {
      hide SymsIn, ElementsAt, Syms, Consume, At, StartsElement, Valid;
      ok := ConsumeToken(BeginArray);
      if !ok {
        return;
      }
      Current();
      events := events + [ArrayBegins];
      if tokenizer.token == BeginObject || tokenizer.token == BeginArray || tokenizer.token == ValueToken {
        ok := ParseElements();
        if !ok {
          return;
        }
      }
      ok := ConsumeToken(EndArray);
      if ok {
        events := events + [ArrayEnds];
      }
    }

    method ParseElements() returns (ok: bool)
      requires Valid()
      modifies this, tokenizer
      ensures ok ==> Valid()
      ensures Does(ok, ElementsAt(old(Syms())))
      decreases |Syms()|, 4
    {
      hide SymsIn, ElementAt, ElementsAt, MoreElements, Syms, At, Move, Before, Valid;
      ghost var all := ElementsAt(Syms());
      FirstElement(Syms());
      ghost var start := ElementAt(Syms());
      ok := ParseElement();
      if !ok {
        return;
      }
      ghost var done := start.events;
      Current();
      while tokenizer.token == ItemSeparator
        invariant Valid() && ok && At(Syms(), ItemSeparator) == (tokenizer.token == ItemSeparator)
        invariant |Syms()| < |old(Syms())|
        invariant events == old(events) + done && all == Before(done, MoreElements(Syms()))
        decreases |Syms()|
      {
        NextElement(all, done, Syms());
        ok := Next();
        if !ok {
          return;
        }
        ghost var next := ElementAt(Syms());
        ok := ParseElement();
        if !ok {
          return;
        }
        Current();
        done := done + next.events;
      }
      LastElement(all, done, Syms());
    }

    /** Parses one element; the result tells whether the end of the text is reached, `None` is an exception. */
    method Parse() returns (atEnd: Option<bool>)
      requires Valid()
      modifies this, tokenizer
      ensures atEnd.Some? ==> Valid()
      ensures match DocumentAt(old(Syms()))
              case Parsed(added, rest) =>
                atEnd == Some(At(rest, EndOfFile)) && events == old(events) + added && Syms() == rest
              case Refused => atEnd == None
    {
      hide SymsIn, ElementAt, Syms;
      Current();
      var ok := true;
      if tokenizer.token == BeginOfFile {
        ok := Next();
        if !ok {
          return None;
        }
        Current();
      }
      if tokenizer.token == EndOfFile {
        return Some(true);
      }
      ok := ParseElement();
      if !ok {
        return None;
      }
      Current();
      return Some(tokenizer.token == EndOfFile);
    }
  }

  lemma FirstMember(syms: seq<Sym>)
    ensures var first := MemberAt(syms);
            MembersAt(syms) == if first == Refused then Refused else Before(first.events, MoreMembers(first.rest))
  {
    hide MemberAt, MoreMembers;
  }

  lemma NextMember(all: Parsed, done: seq<Event>, syms: seq<Sym>)
    requires At(syms, ItemSeparator) && all == Before(done, MoreMembers(syms))
    ensures Move(syms) == Refused ==> all == Refused
    ensures Move(syms).Parsed? ==>
              && Move(syms).events == [] && |Move(syms).rest| < |syms|
              && var next := MemberAt(Move(syms).rest);
                 all == if next == Refused then Refused else Before(done + next.events, MoreMembers(next.rest))
  {
    hide MemberAt, MembersAt, Before;
    NothingBefore(done);
    if Move(syms).Parsed? {
      var rest := Move(syms).rest;
      FirstMember(rest);
      if MemberAt(rest).Parsed? {
        BeforeTwice(done, MemberAt(rest).events, MoreMembers(MemberAt(rest).rest));
      }
    }
  }

  lemma LastMember(all: Parsed, done: seq<Event>, syms: seq<Sym>)
    requires syms != [] && !At(syms, ItemSeparator) && all == Before(done, MoreMembers(syms))
    ensures all == Parsed(done, syms)
  {
    hide MembersAt;
    assert done + [] == done;
  }

  lemma FirstElement(syms: seq<Sym>)
    ensures var first := ElementAt(syms);
            ElementsAt(syms) == if first == Refused then Refused else Before(first.events, MoreElements(first.rest))
  {
    hide ElementAt, MoreElements;
  }

  lemma NextElement(all: Parsed, done: seq<Event>, syms: seq<Sym>)
    requires At(syms, ItemSeparator) && all == Before(done, MoreElements(syms))
    ensures Move(syms) == Refused ==> all == Refused
    ensures Move(syms).Parsed? ==>
              && Move(syms).events == [] && |Move(syms).rest| < |syms|
              && var next := ElementAt(Move(syms).rest);
                 all == if next == Refused then Refused else Before(done + next.events, MoreElements(next.rest))
  {
    hide ElementAt, ElementsAt, Before;
    NothingBefore(done);
    if Move(syms).Parsed? {
      var rest := Move(syms).rest;
      FirstElement(rest);
      if ElementAt(rest).Parsed? {
        BeforeTwice(done, ElementAt(rest).events, MoreElements(ElementAt(rest).rest));
      }
    }
  }

  lemma LastElement(all: Parsed, done: seq<Event>, syms: seq<Sym>)
    requires syms != [] && !At(syms, ItemSeparator) && all == Before(done, MoreElements(syms))
    ensures all == Parsed(done, syms)
  {
    hide ElementsAt;
    assert done + [] == done;
  }

  lemma NothingBefore(done: seq<Event>)
    ensures Before(done, Refused) == Refused
  {
  }

  lemma BeforeTwice(a: seq<Event>, b: seq<Event>, p: Parsed)
    ensures Before(a, Before(b, p)) == Before(a + b, p)
  {
    if p.Parsed? {
      assert a + (b + p.events) == (a + b) + p.events;
    }
  }

  lemma LostIsOpen(part: Place, input: seq<string>, strtod: StrToD)
    ensures WillLose(part, input, strtod) ==> EndsOpen(Appended(part, Joined(input)), strtod)
  {
  }

  lemma NeverLosesAll(strtod: StrToD)
    ensures forall part :: !WillLose(part, [], strtod)
    ensures !LosesIn([], strtod)
  {
    hide TokensOf, Joined;
  }

  lemma WithoutLastStep(place: Place, strtod: StrToD)
    ensures SymsWithoutLast(place, strtod)
            == match NextLexeme(place, strtod)
               case Token(token, value, after) => [Sym(token, value)] + SymsWithoutLast(after, strtod)
               case _ => [Sym(EndOfFile, None)]
  {
    hide LexemeAt;
    TokenTakesText(place, strtod);
  }

  lemma SymsStep(place: Place, strtod: StrToD)
    ensures match NextLexeme(place, strtod)
            case Token(token, value, after) =>
              SymsOf(place, strtod) == [Sym(token, value)] + SymsOf(after, strtod) && token != EndOfFile
            case AtEnd => SymsOf(place, strtod) == [Sym(EndOfFile, None)]
            case Rejected(_) => SymsOf(place, strtod) == [Failing]
            case Unfinished =>
              var value := ValueResult(CutAtNul(SkipWhitespace(place).rest), strtod).value;
              if value.None? then SymsOf(place, strtod) == [Failing]
              else forall end: Place :: end.rest == "" ==>
                     SymsOf(place, strtod) == [Sym(ValueToken, value)] + SymsOf(end, strtod)
  {
    hide LexemeAt, CutAtNul, ValueResult, SkipWhitespace, NextLexeme;
    TokenTakesText(place, strtod);
    forall end: Place | end.rest == ""
      ensures SymsOf(end, strtod) == [Sym(EndOfFile, None)]
    {
      NothingLeft(end, strtod);
    }
  }
}
