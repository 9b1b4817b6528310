/**
  The tokenizer, which decodes a text that arrives in chunks, and the tokens of a text, which do not depend on the
  chunks.
*/
module JsonTokens {
  import opened Streams
  import opened JsonCoding

  datatype JsonToken =
    | BeginOfFile
    | EndOfFile
    | BeginObject
    | EndObject
    | BeginArray
    | EndArray
    | KeySeparator
    | ItemSeparator
    | ValueToken

  // ----- tokens of a text -----

  function Structural(c: char): Option<JsonToken> {
    match c
    case '{' => Some(BeginObject)
    case '}' => Some(EndObject)
    case '[' => Some(BeginArray)
    case ']' => Some(EndArray)
    case ':' => Some(KeySeparator)
    case ',' => Some(ItemSeparator)
    case _ => None
  }

  /** A place in the text: what is left of it, and the line and the column of its first character. */
  datatype Place = Place(rest: string, line: nat, column: nat)

  function Advance(place: Place, n: nat): Place
    requires n <= |place.rest|
  {
    Place(place.rest[n..], place.line, place.column + n)
  }

  /**
    The place after one piece of whitespace, if there is one. A carriage return at the very end does not count, since
    a line feed may still follow it.
  */
  function SkipOne(place: Place): (r: Option<Place>)
    ensures r.Some? ==> |r.value.rest| < |place.rest|
  {
    if place.rest == "" then None
    else
      match place.rest[0]
      case ' ' => Some(Advance(place, 1))
      case '\t' => Some(Advance(place, 1))
      case '\n' => Some(Place(place.rest[1..], place.line + 1, 1))
      case '\r' =>
        if |place.rest| == 1 then None
        else Some(Place(place.rest[if place.rest[1] == '\n' then 2 else 1..], place.line + 1, 1))
      case _ => None
  }

  function SkipWhitespace(place: Place): (r: Place)
    ensures SkipOne(r) == None
    decreases |place.rest|
  {
    match SkipOne(place)
    case None => place
    case Some(next) => SkipWhitespace(next)
  }

  /**
    What comes next at a place without whitespace before it: a token and the place after it, the end, a failure, or
    a value that reaches the end of the text and so might go on.
  */
  datatype Lexeme =
    | Token(token: JsonToken, value: Option<JsonValue>, after: Place)
    | AtEnd
    | Rejected(overflow: bool)
    | Unfinished

  /** The text as far as the decoder sees it: it stops at a NUL character. */
  function CutAtNul(s: string): (r: string)
    ensures r <= s
  {
    if s == "" || s[0] == '\0' then "" else [s[0]] + CutAtNul(s[1..])
  }

  function LexemeAt(place: Place, strtod: StrToD): Lexeme {
    if place.rest == "" || place.rest == "\r" then AtEnd
    else if Structural(place.rest[0]).Some?
    then Token(Structural(place.rest[0]).value, Some(Symbol(place.rest[0])), Advance(place, 1))
    else
      var r := ValueResult(CutAtNul(place.rest), strtod);
      if r.numRead >= |place.rest| then Unfinished
      else if r.value.None? then Rejected(r.overflow)
      else Token(ValueToken, r.value, Advance(place, r.numRead))
  }

  function NextLexeme(place: Place, strtod: StrToD): Lexeme {
    LexemeAt(SkipWhitespace(place), strtod)
  }

  // ----- more text -----

  function Joined(chunks: seq<string>): string {
    if chunks == [] then "" else chunks[0] + Joined(chunks[1..])
  }

  function Appended(place: Place, more: string): Place {
    Place(place.rest + more, place.line, place.column)
  }

  lemma {:induction false} CutStable(u: string, v: string)
    ensures CutAtNul(u) != u ==> CutAtNul(u + v) == CutAtNul(u)
    ensures CutAtNul(u) == u ==> CutAtNul(u + v) == u + CutAtNul(v)
    decreases |u|
  {
    if u == "" {
      assert u + v == v && u + CutAtNul(v) == CutAtNul(v);
    } else {
      assert (u + v)[1..] == u[1..] + v;
      if u[0] != '\0' {
        CutStable(u[1..], v);
        assert u == [u[0]] + u[1..];
      }
    }
  }

  lemma SkipOneStable(place: Place, more: string)
    requires SkipOne(place).Some?
    ensures SkipOne(Appended(place, more)) == Some(Appended(SkipOne(place).value, more))
  {
    var s := place.rest;
    DropAppended(s, more, 1);
    if s[0] == '\r' {
      DropAppended(s, more, 2);
      ReturnSkipped(place);
      ReturnSkipped(Appended(place, more));
    }
  }

  lemma ReturnSkipped(place: Place)
    requires |place.rest| > 1 && place.rest[0] == '\r'
    ensures SkipOne(place)
            == Some(Place(place.rest[if place.rest[1] == '\n' then 2 else 1..], place.line + 1, 1))
  {
  }

  lemma DropAppended(s: string, more: string, n: nat)
    requires n <= |s|
    ensures (s + more)[n..] == s[n..] + more
  {
  }

  /** Skipping goes on where it has stopped when more text arrives. */
  lemma {:induction false} SkipStable(place: Place, more: string)
    ensures SkipWhitespace(Appended(place, more)) == SkipWhitespace(Appended(SkipWhitespace(place), more))
    decreases |place.rest|
  {
    hide SkipOne;
    if SkipOne(place).Some? {
      SkipOneStable(place, more);
      SkipStable(SkipOne(place).value, more);
    }
  }

  /** A decode that stops before the end of the text is the same for a longer text. */
  lemma ValueStable(u: string, v: string, strtod: StrToD)
    requires ValueResult(CutAtNul(u), strtod).numRead < |u|
    ensures ValueResult(CutAtNul(u + v), strtod) == ValueResult(CutAtNul(u), strtod)
  {
    hide ValueResult;
    CutStable(u, v);
    if CutAtNul(u) == u {
      DecodeStable(u, CutAtNul(v), strtod);
    }
  }

  /** A decode that reaches the end of the text reads at least as far in a longer text. */
  lemma ValueMore(u: string, v: string, strtod: StrToD)
    requires ValueResult(CutAtNul(u), strtod).numRead >= |u|
    ensures ValueResult(CutAtNul(u + v), strtod).numRead >= |u|
  {
    hide ValueResult;
    CutStable(u, v);
    ReadsAtMost(CutAtNul(u), strtod);
    assert CutAtNul(u) == u;
    DecodeMore(u, CutAtNul(v), strtod);
  }

  lemma SkipOneAt(content: string, pos: nat, line: nat, column: nat)
    requires pos < |content| && pos <= |CutAtNul(content)|
    ensures SkipOne(Place(content[pos..], line, column))
            == match content[pos]
               case ' ' => Some(Place(content[pos + 1..], line, column + 1))
               case '\t' => Some(Place(content[pos + 1..], line, column + 1))
               case '\n' => Some(Place(content[pos + 1..], line + 1, 1))
               case '\r' =>
                 if pos + 1 == |content| then None
                 else Some(Place(content[pos + (if content[pos + 1] == '\n' then 2 else 1)..], line + 1, 1))
               case _ => None
    ensures content[pos] != '\0' ==> pos + 1 <= |CutAtNul(content)|
    ensures content[pos] != '\0' && pos + 1 < |content| && content[pos + 1] == '\n' ==> pos + 2 <= |CutAtNul(content)|
  {
    hide CutAtNul;
    NotPastNul(content, pos);
    assert content[pos..][1..] == content[pos + 1..];
    if content[pos] != '\0' && |content| > pos + 1 {
      NotPastNul(content, pos + 1);
      assert content[pos..][2..] == content[pos + 2..];
    }
  }

  lemma SkipStep(place: Place)
    ensures SkipWhitespace(place) == if SkipOne(place).Some? then SkipWhitespace(SkipOne(place).value) else place
  {
  }

  // ----- the tokenizer -----

  /** `None` stands for an exception. */
  class JsonTokenizer {
    const strtod: StrToD
    /** The input stream: what its next reads yield. */
    var input: seq<string>
    var content: string
    var pos: nat
    var lineNumber: nat
    var columnNumber: nat
    var tokenColumnNumber: nat
    var token: JsonToken
    var value: Option<JsonValue>
    var decoderResult: DecoderResult

    ghost predicate Valid()
      reads this
    {
      && (forall i :: 0 <= i < |input| ==> input[i] != "")
      && pos <= |CutAtNul(content)|
      && (token == EndOfFile ==> value == None)
    }

    /** What the tokenizer has not consumed yet, whatever part of it has been read. */
    ghost function Here(): Place
      requires Valid()
      reads this
    {
      Appended(ReadPart(), Joined(input))
    }

    /** The part of it that has been read. */
    ghost function ReadPart(): Place
      requires Valid()
      reads this
    {
      Place(content[pos..], lineNumber, columnNumber)
    }

    /** The value that ends the text will be lost. */
    ghost predicate Losing()
      requires Valid()
      reads this
    {
      WillLose(ReadPart(), input, strtod)
    }

    constructor (chunks: seq<string>, strtod: StrToD)
      requires forall i :: 0 <= i < |chunks| ==> chunks[i] != ""
      ensures Valid() && this.strtod == strtod && Here() == Place(Joined(chunks), 1, 1)
      ensures chunks != [] ==> ReadPart() == Place(chunks[0], 1, 1)
      ensures token == if Joined(chunks) == "" then EndOfFile else BeginOfFile
      ensures input == if chunks == [] then [] else chunks[1..]
    {
      this.strtod := strtod;
      lineNumber, columnNumber, tokenColumnNumber, pos := 1, 1, 1, 0;
      value := None;
      decoderResult := Failure(0);
      var first := if chunks == [] then "" else chunks[0];
      content := first;
      input := if chunks == [] then [] else chunks[1..];
      token := if first == "" then EndOfFile else BeginOfFile;
    }

    method ReadContent() returns (newContent: string)
      requires Valid()
      modifies this`input
      ensures newContent + Joined(input) == Joined(old(input))
      ensures newContent == "" <==> old(input) == []
      ensures |input| == if old(input) == [] then 0 else |old(input)| - 1
      ensures if old(input) == [] then newContent == "" else newContent == old(input)[0] && input == old(input)[1..]
      ensures newContent == "" ==> Joined(old(input)) == ""
      ensures forall i :: 0 <= i < |input| ==> input[i] != ""
    {
      if input == [] {
        return "";
      }
      newContent := input[0];
      input := input[1..];
    }

    method SetPosition(newPos: nat, newColumnNumber: nat)
      modifies this`pos, this`columnNumber
      ensures pos == newPos && columnNumber == newColumnNumber
    {
      pos := newPos;
      columnNumber := newColumnNumber;
    }

    /** Skips the whitespace that has been read; false when all of the content has been skipped. */
    method SkipWhitespaces() returns (found: bool)
      requires Valid()
      modifies this`pos, this`columnNumber, this`lineNumber, this`token, this`value
      ensures Valid() && ReadPart() == SkipWhitespace(old(ReadPart()))
      ensures found == (ReadPart().rest != "" && ReadPart().rest != "\r")
      ensures if found then token == old(token) && value == old(value) else token == EndOfFile && value == None
    {
      hide CutAtNul, SkipWhitespace, Joined, SkipOne;
      ghost var start := ReadPart();
      while true
        invariant pos <= |CutAtNul(content)| && pos <= |content|
        invariant SkipWhitespace(Place(content[pos..], lineNumber, columnNumber)) == SkipWhitespace(start)
        invariant token == old(token) && value == old(value)
        decreases |content| - pos
      {
        SkipStep(Place(content[pos..], lineNumber, columnNumber));
        if pos >= |content| {
          token, value := EndOfFile, None;
          return false;
        }
        var nextChar := content[pos];
        SkipOneAt(content, pos, lineNumber, columnNumber);
        match nextChar {
          case ' ' => SetPosition(pos + 1, columnNumber + 1);
          case '\t' => SetPosition(pos + 1, columnNumber + 1);
          case '\n' =>
            lineNumber := lineNumber + 1;
            SetPosition(pos + 1, 1);
          case '\r' =>
            if pos + 1 >= |content| {
              token, value := EndOfFile, None;
              return false;
            }
            lineNumber := lineNumber + 1;
            SetPosition(pos + (if content[pos + 1] == '\n' then 2 else 1), 1);
          case _ =>
            return true;
        }
      }
    }

    /** False for the exception thrown when there is no value. */
    method SetTokenValue() returns (ok: bool)
      requires Valid() && pos + decoderResult.numRead <= |CutAtNul(content)|
      modifies this`token, this`value, this`pos, this`columnNumber
      ensures Valid() && ok == decoderResult.value.Some?
      ensures ok ==> token == ValueToken && value == decoderResult.value
                     && ReadPart() == Advance(old(ReadPart()), decoderResult.numRead)
      ensures !ok ==> ReadPart() == old(ReadPart()) && token == old(token) && value == old(value)
    {
      hide CutAtNul;
      if decoderResult.value.None? {
        return false;
      }
      token, value := ValueToken, decoderResult.value;
      SetPosition(pos + decoderResult.numRead, columnNumber + decoderResult.numRead);
      return true;
    }

    /** Decodes the next token from the content read so far. */
    method DecodeNext() returns (r: Progress)
      requires Valid()
      modifies this`pos, this`columnNumber, this`lineNumber, this`tokenColumnNumber, this`token, this`value,
        this`decoderResult
      ensures Valid()
      ensures var start := SkipWhitespace(old(ReadPart()));
              match NextLexeme(old(ReadPart()), strtod)
              case Token(t, v, after) =>
                r == Found && token == t && value == v && ReadPart() == after && tokenColumnNumber == start.column
              case Rejected(overflow) => r == Thrown && decoderResult.overflow == overflow
              case AtEnd => r == NeedMore && token == EndOfFile && value == None && ReadPart() == start
              case Unfinished =>
                && r == NeedMore && token == old(token) && value == old(value) && ReadPart() == start
                && tokenColumnNumber == start.column
                && decoderResult == ValueResult(CutAtNul(start.rest), strtod)
    {
      hide CutAtNul, SkipWhitespace, ValueResult, Structural;
      var found := SkipWhitespaces();
      if !found {
        return NeedMore;
      }
      tokenColumnNumber := columnNumber;
      r := DecodeToken();
    }

    /** Decodes a token that has started. */
    method DecodeToken() returns (r: Progress)
      requires Valid() && ReadPart().rest != "" && ReadPart().rest != "\r"
      modifies this`pos, this`columnNumber, this`token, this`value, this`decoderResult
      ensures Valid()
      ensures match LexemeAt(old(ReadPart()), strtod)
              case Token(t, v, after) => r == Found && token == t && value == v && ReadPart() == after
              case Rejected(overflow) => r == Thrown && decoderResult.overflow == overflow
              case AtEnd => false
              case Unfinished =>
                && r == NeedMore && token == old(token) && value == old(value) && ReadPart() == old(ReadPart())
                && decoderResult == ValueResult(CutAtNul(old(ReadPart()).rest), strtod)
    {
      hide CutAtNul, ValueResult, Structural;
      var nextChar := content[pos];
      NotPastNul(content, pos);
      var symbol := Structural(nextChar);
      if symbol.Some? {
        NulIsNoSymbol();
        token, value := symbol.value, Some(Symbol(nextChar));
        SetPosition(pos + 1, columnNumber + 1);
      } else {
        decoderResult := DecodeValue(CutAtNul(content)[pos..], strtod);
        ReadsAtMost(CutAtNul(content)[pos..], strtod);
        if pos + decoderResult.numRead >= |content| {
          return NeedMore;
        }
        var ok := SetTokenValue();
        if !ok {
          return Thrown;
        }
      }
      return Found;
    }

    /** What has not been consumed, followed by what has been read, is the new content. */
    method Append(newContent: string)
      requires Valid()
      modifies this`content, this`pos
      ensures Valid() && ReadPart() == Appended(old(ReadPart()), newContent)
    {
      hide CutAtNul, Joined;
      content := content[pos..] + newContent;
      pos := 0;
    }

    /** The end of the text, or the value before it. */
    method FinishAtEnd() returns (ok: bool)
      requires Valid() && Joined(input) == ""
      requires token != EndOfFile ==>
                 LexemeAt(ReadPart(), strtod).Unfinished? &&
                 decoderResult == ValueResult(CutAtNul(ReadPart().rest), strtod)
      modifies this`token, this`value, this`pos, this`columnNumber, this`tokenColumnNumber
      ensures Valid()
      ensures if old(token) == EndOfFile
              then ok && token == EndOfFile && value == old(value) && Here() == old(ReadPart())
                   && tokenColumnNumber == Here().column
              else
                && ok == decoderResult.value.Some? && tokenColumnNumber == old(tokenColumnNumber)
                && (!ok ==> Here() == old(ReadPart()))
                && (ok ==> token == ValueToken && value == decoderResult.value
                           && Here() == Advance(old(ReadPart()), |old(ReadPart()).rest|))
    {
      hide CutAtNul, ValueResult, LexemeAt, Joined;
      if token == EndOfFile {
        tokenColumnNumber := columnNumber;
        ok := true;
      } else {
        // nothing follows the value that has been decoded
        UnfinishedReadsAll(ReadPart(), strtod);
        NotPastNul(content, pos);
        assert Here() == ReadPart();
        ok := SetTokenValue();
        assert Here() == ReadPart();
      }
    }

    /**
      Moves to the next token. The token, its value, its line and its column are those of the whole text that is left,
      whatever the chunks in which it arrives, unless a value reaches the end of the text: that one is lost when the
      end of the part read before has been taken for the end of the text. False for an exception.
    */
    method Next() returns (ok: bool)
      requires Valid()
      modifies this
      ensures Valid() && input == old(input)[Needed(old(ReadPart()), old(input), strtod)..]
      ensures var start := SkipWhitespace(old(Here()));
              match NextLexeme(old(Here()), strtod)
              case Token(t, v, after) =>
                ok && token == t && value == v && Here() == after && tokenColumnNumber == start.column
              case Rejected(overflow) => !ok && decoderResult.overflow == overflow
              case AtEnd =>
                && ok && token == EndOfFile && value == None && Here() == start
                && tokenColumnNumber == Here().column
              case Unfinished =>
                var r := ValueResult(CutAtNul(start.rest), strtod);
                if old(token) == EndOfFile || NextLexeme(old(ReadPart()), strtod).AtEnd?
                then ok && token == EndOfFile && value == None && Here() == start && tokenColumnNumber == Here().column
                else
                  && ok == r.value.Some? && tokenColumnNumber == start.column
                  && (!ok ==> Here() == start && decoderResult.overflow == r.overflow)
                  && (ok ==> token == ValueToken && value == r.value && Here() == Advance(start, |start.rest|))
    {
      hide CutAtNul, SkipWhitespace, ValueResult, LexemeAt, NextLexeme, Joined, Needed, Appended, Advance;
      ghost var start, first := Here(), true;
      ghost var stale := token == EndOfFile || NextLexeme(ReadPart(), strtod).AtEnd?;
      while true
        invariant Valid() && SkipWhitespace(Here()) == SkipWhitespace(start)
        invariant NextLexeme(Here(), strtod) == NextLexeme(start, strtod)
        invariant first ==> token == old(token) && ReadPart() == old(ReadPart())
        invariant |input| <= |old(input)| && input == old(input)[|old(input)| - |input|..]
        invariant |old(input)| - |input| + Needed(ReadPart(), input, strtod)
                  == Needed(old(ReadPart()), old(input), strtod)
        invariant !first ==> (token == EndOfFile) == stale && (!stale ==> !NextLexeme(ReadPart(), strtod).AtEnd?)
        decreases |input|
      {
        ghost var part := ReadPart();
        Round(part, input, strtod);
        var r := DecodeNext();
        if r == Found {
          return true;
        }
        if r == Thrown {
          return false;
        }
        var newContent := ReadContent();
        if newContent == "" {
          ok := FinishAtEnd();
          return;
        }
        Append(newContent);
        first := false;
      }
    }
  }

  /** What reading one more chunk, or none, means for the next token. */
  lemma Round(part: Place, input: seq<string>, strtod: StrToD)
    ensures var here, next := Appended(part, Joined(input)), NextLexeme(part, strtod);
            && (next.Token? || next.Rejected? ==>
                  && Needed(part, input, strtod) == 0
                  && (next.Token? ==> SkipWhitespace(here).column == SkipWhitespace(part).column)
                  && NextLexeme(here, strtod)
                     == if next.Rejected? then next
                        else Token(next.token, next.value, Appended(next.after, Joined(input))))
            && NextLexeme(part, strtod) == LexemeAt(SkipWhitespace(part), strtod)
            && (input == [] ==> here == part && Needed(part, input, strtod) == 0)
            && (input != [] && !next.Token? && !next.Rejected? ==>
                  var more := Appended(SkipWhitespace(part), input[0]);
                  && Needed(part, input, strtod) == 1 + Needed(more, input[1..], strtod)
                  && SkipWhitespace(Appended(more, Joined(input[1..]))) == SkipWhitespace(here)
                  && NextLexeme(Appended(more, Joined(input[1..])), strtod) == NextLexeme(here, strtod)
                  && (!next.AtEnd? ==> !NextLexeme(more, strtod).AtEnd?))
  {
    hide LexemeAt, SkipWhitespace, Joined;
    NeededStep(part, input, strtod);
    LexemeStable(part, Joined(input), strtod);
    if input == [] {
      NothingJoined();
      assert Appended(part, "") == part;
    } else {
      var start, rest := SkipWhitespace(part), Joined(input[1..]);
      AllJoined(input);
      SkipStable(part, input[0] + rest);
      assert Appended(Appended(start, input[0]), rest) == Appended(start, input[0] + rest);
      if NextLexeme(part, strtod).Unfinished? {
        StillThere(start, input[0], strtod);
      }
    }
  }

  lemma UnfinishedReadsAll(place: Place, strtod: StrToD)
    requires LexemeAt(place, strtod).Unfinished?
    ensures ValueResult(CutAtNul(place.rest), strtod).numRead == |place.rest| <= |CutAtNul(place.rest)|
  {
    hide ValueResult, Structural;
    ReadsAtMost(CutAtNul(place.rest), strtod);
  }

  lemma StillThere(place: Place, more: string, strtod: StrToD)
    requires SkipOne(place) == None && !LexemeAt(place, strtod).AtEnd?
    ensures !NextLexeme(Appended(place, more), strtod).AtEnd?
  {
    hide SkipWhitespace, CutAtNul, ValueResult;
    NoWhitespace(place, more);
  }

  lemma NulIsNoSymbol()
    ensures Structural('\0') == None && forall c :: Structural(c) != Some(EndOfFile)
  {
  }

  datatype Progress = Found | NeedMore | Thrown

  lemma ReadsAtMost(input: string, strtod: StrToD)
    ensures ValueResult(input, strtod).numRead <= |input|
  {
  }

  lemma LexemeStable(place: Place, more: string, strtod: StrToD)
    ensures match NextLexeme(place, strtod)
            case Token(t, v, after) =>
              && NextLexeme(Appended(place, more), strtod) == Token(t, v, Appended(after, more))
              && SkipWhitespace(Appended(place, more)).column == SkipWhitespace(place).column
              && (t == ValueToken ==> after.rest != "")
            case Rejected(overflow) => NextLexeme(Appended(place, more), strtod) == Rejected(overflow)
            case _ => true
  {
    hide CutAtNul, SkipWhitespace, ValueResult;
    var start := SkipWhitespace(place);
    SkipStable(place, more);
    if LexemeAt(start, strtod).Token? || LexemeAt(start, strtod).Rejected? {
      NoWhitespace(start, more);
      if Structural(start.rest[0]).None? {
        ValueStable(start.rest, more, strtod);
      }
    }
  }

  lemma NoWhitespace(place: Place, more: string)
    requires SkipOne(place) == None && place.rest != "" && place.rest != "\r"
    ensures SkipWhitespace(Appended(place, more)) == Appended(place, more)
  {
  }

  /** Positions do not move past a NUL character. */
  lemma {:induction false} NotPastNul(content: string, pos: nat)
    requires pos <= |CutAtNul(content)|
    ensures pos < |content| && content[pos] != '\0' ==> pos < |CutAtNul(content)|
    ensures CutAtNul(content)[pos..] == CutAtNul(content[pos..])
    decreases pos
  {
    if pos > 0 {
      NotPastNul(content[1..], pos - 1);
      assert content[1..][pos - 1..] == content[pos..];
    }
  }

  // ----- whole texts -----

  /** A token with its value, line and column. */
  datatype Located = Located(token: JsonToken, value: Option<JsonValue>, line: nat, column: nat)

  /** How the tokens of a text end; a text is open when a value reaches its end. */
  datatype Ending = Complete | Broken(overflow: bool) | Open

  datatype TokenList = TokenList(tokens: seq<Located>, ending: Ending)

  lemma TokenTakesText(place: Place, strtod: StrToD)
    ensures match NextLexeme(place, strtod)
            case Token(token, value, after) =>
              && |after.rest| < |SkipWhitespace(place).rest| <= |place.rest|
              && after.line == SkipWhitespace(place).line && token != EndOfFile
            case Unfinished => 0 < |SkipWhitespace(place).rest| <= |place.rest|
            case _ => true
  {
    hide ValueResult, CutAtNul, SkipWhitespace, SkipOne;
    SkipShortens(place);
    ValueTakesText(CutAtNul(SkipWhitespace(place).rest), strtod);
  }

  lemma {:induction false} SkipShortens(place: Place)
    ensures |SkipWhitespace(place).rest| <= |place.rest|
    decreases |place.rest|
  {
    hide SkipOne;
    if SkipOne(place).Some? {
      SkipShortens(SkipOne(place).value);
    }
  }

  lemma ValueTakesText(input: string, strtod: StrToD)
    ensures ValueResult(input, strtod).value.Some? ==> ValueResult(input, strtod).numRead > 0
  {
  }

  /** The tokens of a text, as its characters determine them. */
  function TokensOf(place: Place, strtod: StrToD): TokenList
    decreases |place.rest|
  {
    TokenTakesText(place, strtod);
    match NextLexeme(place, strtod)
    case AtEnd => TokenList([], Complete)
    case Rejected(overflow) => TokenList([], Broken(overflow))
    case Unfinished => TokenList([], Open)
    case Token(token, value, after) =>
      var start, rest := SkipWhitespace(place), TokensOf(after, strtod);
      TokenList([Located(token, value, start.line, start.column)] + rest.tokens, rest.ending)
  }

  // ----- the value at the end of an open text -----

  /** Where the text goes on after its last complete token, and so where the last value of an open text starts. */
  function LastStart(place: Place, strtod: StrToD): (r: Place)
    ensures |r.rest| <= |place.rest|
    decreases |place.rest|
  {
    TokenTakesText(place, strtod);
    SkipShortens(place);
    match NextLexeme(place, strtod)
    case Token(_, _, after) => LastStart(after, strtod)
    case _ => SkipWhitespace(place)
  }

  /** A place in the text without its last characters. */
  function Without(place: Place, n: nat): Place
    requires n <= |place.rest|
  {
    Place(place.rest[..|place.rest| - n], place.line, place.column)
  }

  /** The text before the last value. */
  function BeforeLast(place: Place, strtod: StrToD): Place {
    Without(place, |LastStart(place, strtod).rest|)
  }

  predicate EndsOpen(place: Place, strtod: StrToD) {
    TokensOf(place, strtod).ending == Open
  }

  /**
    Whether there are chunks in which the last value of the text gets lost: there is something before it, and that
    is a text on its own.
  */
  predicate LosesLast(text: string, strtod: StrToD) {
    var all := Place(text, 1, 1);
    && EndsOpen(all, strtod) && BeforeLast(all, strtod).rest != ""
    && TokensOf(BeforeLast(all, strtod), strtod).ending == Complete
  }

  /** What a reader gets: tokens, and whether there has been no exception. */
  datatype Reading = Reading(tokens: seq<Located>, ok: bool)

  /**
    The reading of a text: the value that ends an open text is its last token, unless it gets lost, or makes the
    reading fail.
  */
  function ReadingOf(place: Place, lost: bool, strtod: StrToD): Reading {
    var all, last := TokensOf(place, strtod), LastStart(place, strtod);
    var value := ValueResult(CutAtNul(last.rest), strtod).value;
    if all.ending != Open then Reading(all.tokens, all.ending.Complete?)
    else if lost then Reading(all.tokens, true)
    else if value.None? then Reading(all.tokens, false)
    else Reading(all.tokens + [Located(ValueToken, value, last.line, last.column)], true)
  }

  lemma TokensStep(place: Place, strtod: StrToD)
    ensures match NextLexeme(place, strtod)
            case Token(token, value, after) =>
              && var start := SkipWhitespace(place);
              && TokensOf(place, strtod).tokens
                 == [Located(token, value, start.line, start.column)] + TokensOf(after, strtod).tokens
              && TokensOf(place, strtod).ending == TokensOf(after, strtod).ending
              && LastStart(place, strtod) == LastStart(after, strtod)
            case AtEnd => TokensOf(place, strtod) == TokenList([], Complete)
            case Rejected(overflow) => TokensOf(place, strtod) == TokenList([], Broken(overflow))
            case Unfinished =>
              && TokensOf(place, strtod) == TokenList([], Open)
              && LastStart(place, strtod) == SkipWhitespace(place)
  {
    hide NextLexeme, SkipWhitespace;
    TokenTakesText(place, strtod);
  }

  lemma LastIsShorter(place: Place, strtod: StrToD)
    ensures |LastStart(place, strtod).rest| <= |place.rest|
  {
  }

  /** Nothing but whitespace is left before a text that has no token left. */
  lemma EndSkipped(place: Place, strtod: StrToD)
    requires NextLexeme(place, strtod).AtEnd?
    ensures SkipWhitespace(place).rest == "" || SkipWhitespace(place).rest == "\r"
  {
    hide SkipWhitespace, CutAtNul, ValueResult, Structural;
  }

  /** A value that is unfinished in a part of the text does not end before the part does. */
  lemma UnfinishedGoesOn(place: Place, more: string, strtod: StrToD)
    requires NextLexeme(place, strtod).Unfinished?
    ensures SkipWhitespace(place).rest != ""
    ensures SkipWhitespace(Appended(place, more)) == Appended(SkipWhitespace(place), more)
    ensures match NextLexeme(Appended(place, more), strtod)
            case Token(token, _, after) => token == ValueToken && |after.rest| <= |more|
            case AtEnd => false
            case _ => true
  {
    hide SkipWhitespace, CutAtNul, ValueResult;
    var start := SkipWhitespace(place);
    SkipStable(place, more);
    NoWhitespace(start, more);
    ValueMore(start.rest, more, strtod);
  }

  lemma NothingBeforeLast(before: Place, last: string, strtod: StrToD)
    requires NextLexeme(Appended(before, last), strtod).Unfinished?
    requires SkipWhitespace(Appended(before, last)).rest == last
    ensures TokensOf(before, strtod).ending == Complete
  {
    hide NextLexeme, SkipWhitespace, TokensOf;
    TokensStep(before, strtod);
    LexemeStable(before, last, strtod);
    if NextLexeme(before, strtod).Unfinished? {
      UnfinishedGoesOn(before, last, strtod);
    }
  }

  predicate IsTail(a: string, b: string) {
    |a| <= |b| && b[|b| - |a|..] == a
  }

  lemma TailTwice(a: string, b: string, c: string)
    requires IsTail(a, b) && IsTail(b, c)
    ensures IsTail(a, c)
  {
    assert c[|c| - |b|..][|b| - |a|..] == c[|c| - |a|..];
  }

  lemma {:induction false} SkipIsTail(place: Place)
    ensures IsTail(SkipWhitespace(place).rest, place.rest)
    decreases |place.rest|
  {
    if SkipOne(place).Some? {
      var next := SkipOne(place).value;
      assert IsTail(next.rest, place.rest);
      SkipIsTail(next);
      TailTwice(SkipWhitespace(place).rest, next.rest, place.rest);
    }
  }

  lemma TokenIsTail(place: Place, strtod: StrToD)
    ensures match NextLexeme(place, strtod)
            case Token(_, _, after) => IsTail(after.rest, place.rest)
            case _ => true
  {
    hide SkipWhitespace, CutAtNul, ValueResult, Structural;
    SkipIsTail(place);
    if NextLexeme(place, strtod).Token? {
      var start, after := SkipWhitespace(place), NextLexeme(place, strtod).after;
      assert IsTail(after.rest, start.rest);
      TailTwice(after.rest, start.rest, place.rest);
    }
  }

  lemma {:induction false} LastIsTail(place: Place, strtod: StrToD)
    ensures IsTail(LastStart(place, strtod).rest, place.rest)
    decreases |place.rest|
  {
    hide NextLexeme, SkipWhitespace;
    TokenTakesText(place, strtod);
    TokenIsTail(place, strtod);
    SkipIsTail(place);
    if NextLexeme(place, strtod).Token? {
      var after := NextLexeme(place, strtod).after;
      LastIsTail(after, strtod);
      TailTwice(LastStart(place, strtod).rest, after.rest, place.rest);
    }
  }

  /** The text before the last value and the last value. */
  lemma LastParts(place: Place, strtod: StrToD)
    ensures place == Appended(BeforeLast(place, strtod), LastStart(place, strtod).rest)
  {
    hide LastStart;
    LastIsTail(place, strtod);
  }

  lemma NothingLeft(place: Place, strtod: StrToD)
    requires place.rest == ""
    ensures NextLexeme(place, strtod).AtEnd? && TokensOf(place, strtod) == TokenList([], Complete)
  {
  }

  /** The step of a tokenizer whose part read so far is all that stands before the last value. */
  lemma Losing(before: Place, last: string, strtod: StrToD)
    requires var here := Appended(before, last);
             EndsOpen(here, strtod) && LastStart(here, strtod).rest == last
    requires TokensOf(before, strtod).ending == Complete
    ensures match NextLexeme(before, strtod)
            case Token(t, v, after) =>
              && NextLexeme(Appended(before, last), strtod) == Token(t, v, Appended(after, last))
              && EndsOpen(Appended(after, last), strtod) && LastStart(Appended(after, last), strtod).rest == last
              && TokensOf(after, strtod).ending == Complete
            case AtEnd => NextLexeme(Appended(before, last), strtod).Unfinished?
            case _ => false
  {
    hide NextLexeme, SkipWhitespace, TokensOf, LastStart;
    var here := Appended(before, last);
    TokensStep(before, strtod);
    TokensStep(here, strtod);
    LexemeStable(before, last, strtod);
    if NextLexeme(before, strtod).AtEnd? {
      EndSkipped(before, strtod);
      SkipStable(before, last);
      LastIsUnfinished(here, strtod);
      EndThenMore(SkipWhitespace(before), last, strtod);
      TokenTakesText(here, strtod);
      if NextLexeme(here, strtod).Token? {
        LastIsShorter(NextLexeme(here, strtod).after, strtod);
      }
    }
  }

  lemma {:induction false} LastIsUnfinished(place: Place, strtod: StrToD)
    requires EndsOpen(place, strtod)
    ensures LastStart(place, strtod).rest != "" && LexemeAt(LastStart(place, strtod), strtod).Unfinished?
    decreases |place.rest|
  {
    hide LexemeAt, SkipWhitespace, TokensOf, LastStart;
    TokensStep(place, strtod);
    TokenTakesText(place, strtod);
    if NextLexeme(place, strtod).Token? {
      LastIsUnfinished(NextLexeme(place, strtod).after, strtod);
    } else {
      UnfinishedGoesOn(place, "", strtod);
    }
  }

  lemma EndThenMore(place: Place, last: string, strtod: StrToD)
    requires place.rest == "" || place.rest == "\r"
    requires last != ""
    ensures |SkipWhitespace(Appended(place, last)).rest| <= |last|
  {
    hide SkipOne;
    var here := Appended(place, last);
    SkipShortens(here);
    if place.rest == "\r" {
      SkipReturn(here);
      SkipShortens(SkipOne(here).value);
    }
  }

  lemma SkipReturn(place: Place)
    requires |place.rest| > 1 && place.rest[0] == '\r'
    ensures SkipOne(place).Some?
  {
  }

  predicate ReadsLike(all: Place, tokens: seq<Located>, here: Place, lost: bool, strtod: StrToD) {
    var rest := ReadingOf(here, lost, strtod);
    ReadingOf(all, lost, strtod) == Reading(tokens + rest.tokens, rest.ok)
  }

  lemma ReadsLikeItself(all: Place, lost: bool, strtod: StrToD)
    ensures ReadsLike(all, [], all, lost, strtod)
  {
    hide ReadingOf;
    assert [] + ReadingOf(all, lost, strtod).tokens == ReadingOf(all, lost, strtod).tokens;
  }

  lemma ReadingStep(all: Place, tokens: seq<Located>, place: Place, lost: bool, strtod: StrToD)
    requires ReadsLike(all, tokens, place, lost, strtod)
    ensures var start := SkipWhitespace(place);
            match NextLexeme(place, strtod)
            case Token(t, v, after) =>
              ReadsLike(all, tokens + [Located(t, v, start.line, start.column)], after, lost, strtod)
            case AtEnd => ReadingOf(all, lost, strtod) == Reading(tokens, true)
            case Rejected(_) => ReadingOf(all, lost, strtod) == Reading(tokens, false)
            case Unfinished =>
              var value := ValueResult(CutAtNul(start.rest), strtod).value;
              if lost then ReadingOf(all, lost, strtod) == Reading(tokens, true)
              else if value.None? then ReadingOf(all, lost, strtod) == Reading(tokens, false)
              else forall end: Place :: end.rest == "" ==>
                     ReadsLike(all, tokens + [Located(ValueToken, value, start.line, start.column)], end, lost, strtod)
  {
    hide NextLexeme, SkipWhitespace, TokensOf, LastStart, CutAtNul, ValueResult;
    TokensStep(place, strtod);
    match NextLexeme(place, strtod)
    case Token(t, v, after) =>
      var start, rest := SkipWhitespace(place), ReadingOf(after, lost, strtod);
      var token := [Located(t, v, start.line, start.column)];
      assert tokens + (token + rest.tokens) == (tokens + token) + rest.tokens;
    case Unfinished =>
      forall end: Place | end.rest == ""
        ensures ReadingOf(end, lost, strtod) == Reading([], true)
      {
        NothingLeft(end, strtod);
      }
    case _ =>
  }

  /** The chunks in which the last value of a text gets lost. */
  function LosingChunks(text: string, strtod: StrToD): seq<string> {
    var all := Place(text, 1, 1);
    [BeforeLast(all, strtod).rest, LastStart(all, strtod).rest]
  }

  lemma NothingJoined()
    ensures Joined([]) == ""
  {
  }

  lemma SameBeginning(a: Place, b: Place, last: string)
    requires Appended(a, last) == Appended(b, last)
    ensures a == b
  {
    assert (a.rest + last)[..|a.rest|] == a.rest && (b.rest + last)[..|a.rest|] == b.rest;
  }

  lemma OneChunk(text: string)
    ensures Joined([text]) == text
  {
    assert [text][1..] == [] && text + "" == text;
  }

  // ----- lines and columns -----

  /** Number of line breaks: a carriage return, a line feed, or both in this order. */
  function LineBreaks(s: string): nat {
    if s == "" then 0
    else
      var n := |s| - 1;
      LineBreaks(s[..n])
      + (if s[n] == '\r' || (s[n] == '\n' && !(n > 0 && s[n - 1] == '\r')) then 1 else 0)
  }

  /** Number of characters after the last line break. */
  function SinceBreak(s: string): nat {
    if s == "" || s[|s| - 1] == '\r' || s[|s| - 1] == '\n' then 0 else 1 + SinceBreak(s[..|s| - 1])
  }

  /** The second line and column follow from the first ones by the characters between them. */
  predicate Follows(line: int, column: int, s: string, nextLine: int, nextColumn: int) {
    && nextLine == line + LineBreaks(s)
    && nextColumn == if LineBreaks(s) == 0 then column + |s| else 1 + SinceBreak(s)
  }

  lemma {:induction false} BreaksConcat(a: string, b: string)
    requires a == "" || b == "" || !(a[|a| - 1] == '\r' && b[0] == '\n')
    ensures LineBreaks(a + b) == LineBreaks(a) + LineBreaks(b)
    ensures SinceBreak(a + b) == if LineBreaks(b) == 0 then SinceBreak(a) + |b| else SinceBreak(b)
    decreases |b|
  {
    if b == "" {
      assert a + b == a;
    } else {
      var n := |b| - 1;
      assert (a + b)[..|a + b| - 1] == a + b[..n];
      BreaksConcat(a, b[..n]);
    }
  }

  lemma PieceFollows(place: Place)
    requires SkipOne(place).Some?
    ensures var next := SkipOne(place).value;
            var k := |place.rest| - |next.rest|;
            && 0 < k && next.rest == place.rest[k..]
            && Follows(place.line, place.column, place.rest[..k], next.line, next.column)
            && (next.rest != "" ==> !(place.rest[k - 1] == '\r' && next.rest[0] == '\n'))
            && (LineBreaks(place.rest[..k]) > 0 ==> SinceBreak(place.rest[..k]) == 0)
  {
    var s := place.rest;
    assert s[..1] == [s[0]];
    OneCharacterBreaks(s[0]);
    if |s| > 1 && s[0] == '\r' && s[1] == '\n' {
      assert s[..2] == ['\r'] + ['\n'];
      ReturnAndFeed();
    }
  }

  lemma OneCharacterBreaks(c: char)
    ensures LineBreaks([c]) == (if c == '\r' || c == '\n' then 1 else 0)
    ensures SinceBreak([c]) == 1 - LineBreaks([c])
  {
    assert [c][..0] == "";
  }

  lemma ReturnAndFeed()
    ensures LineBreaks(['\r'] + ['\n']) == 1 && SinceBreak(['\r'] + ['\n']) == 0
  {
    OneCharacterBreaks('\r');
    assert (['\r'] + ['\n'])[..1] == ['\r'];
  }

  /** Skipped whitespace moves line and column by what it consists of. */
  lemma {:induction false} SkipFollows(place: Place)
    ensures var end := SkipWhitespace(place);
            && |end.rest| <= |place.rest| && end.rest == place.rest[|place.rest| - |end.rest|..]
            && Follows(place.line, place.column, place.rest[..|place.rest| - |end.rest|], end.line, end.column)
    decreases |place.rest|
  {
    hide SkipOne;
    if SkipOne(place).Some? {
      var next, end := SkipOne(place).value, SkipWhitespace(place);
      PieceFollows(place);
      SkipFollows(next);
      var a, b := place.rest[..|place.rest| - |next.rest|], next.rest[..|next.rest| - |end.rest|];
      assert place.rest[..|place.rest| - |end.rest|] == a + b;
      assert a[|a| - 1] == place.rest[|a| - 1];
      BreaksConcat(a, b);
    } else {
      assert place.rest[..0] == "";
    }
  }

  /** A token takes its characters, all in one line: the column moves by their number. */
  lemma TokenFollows(place: Place, strtod: StrToD)
    requires NextLexeme(place, strtod).Token?
    ensures var start, after := SkipWhitespace(place), NextLexeme(place, strtod).after;
            && IsTail(after.rest, start.rest) && |after.rest| < |start.rest|
            && after.line == start.line && after.column + |after.rest| == start.column + |start.rest|
  {
    hide SkipWhitespace, CutAtNul, ValueResult, Structural;
    ValueTakesText(CutAtNul(SkipWhitespace(place).rest), strtod);
  }

  /** A token in the text: the number of characters from its start and after its end. */
  datatype Span = Span(left: nat, after: nat)

  /** The tokens of a text as parts of it, with the value at its end. */
  function Spans(place: Place, strtod: StrToD): (spans: seq<Span>)
    decreases |place.rest|
  {
    TokenTakesText(place, strtod);
    match NextLexeme(place, strtod)
    case Token(_, _, after) => [Span(|SkipWhitespace(place).rest|, |after.rest|)] + Spans(after, strtod)
    case Unfinished => [Span(|SkipWhitespace(place).rest|, 0)]
    case _ => []
  }

  /** The place of token `i` follows from the end of the token before it, or from the beginning. */
  predicate LocatedInText(place: Place, tokens: seq<Located>, spans: seq<Span>, i: nat)
    requires i < |tokens| && i < |spans|
  {
    var text, here := place.rest, tokens[i];
    var left := if i == 0 then |text| else spans[i - 1].after;
    && spans[i].after < spans[i].left <= left <= |text|
    && Blank(text[|text| - left..|text| - spans[i].left])
    && if i == 0 then
         Follows(place.line, place.column, text[|text| - left..|text| - spans[i].left], here.line, here.column)
       else
         Follows(tokens[i - 1].line, tokens[i - 1].column + spans[i - 1].left - spans[i - 1].after,
                 text[|text| - left..|text| - spans[i].left], here.line, here.column)
  }

  lemma SliceOfTail(a: string, b: string, left: nat, right: nat)
    requires IsTail(a, b) && right <= left <= |a|
    ensures b[|b| - left..|b| - right] == a[|a| - left..|a| - right]
  {
    assert b[|b| - |a|..][|a| - left..|a| - right] == b[|b| - left..|b| - right];
  }

  lemma LocatedLater(place: Place, after: Place, first: Located, span: Span, tokens: seq<Located>, spans: seq<Span>,
                     i: nat)
    requires i < |tokens| && i < |spans| && LocatedInText(after, tokens, spans, i)
    requires IsTail(after.rest, place.rest) && span.after == |after.rest|
    requires after.line == first.line && after.column == first.column + span.left - span.after
    ensures LocatedInText(place, [first] + tokens, [span] + spans, i + 1)
  {
    hide Follows, Blank;
    var left := if i == 0 then |after.rest| else spans[i - 1].after;
    SliceOfTail(after.rest, place.rest, left, spans[i].left);
  }

  /**
    Lines and columns as the text determines them: whitespace between tokens counts line breaks and restarts columns;
    everything else, line breaks inside of strings included, counts one column for each character.
  */
  lemma {:induction false} LinesAndColumns(place: Place, i: nat, strtod: StrToD)
    requires i < |ReadingOf(place, false, strtod).tokens|
    ensures var tokens, spans := ReadingOf(place, false, strtod).tokens, Spans(place, strtod);
            i < |spans| && LocatedInText(place, tokens, spans, i)
    decreases i
  {
    hide NextLexeme, SkipWhitespace, TokensOf, LastStart, CutAtNul, ValueResult, Follows, Blank, LocatedInText;
    var tokens, spans, start := ReadingOf(place, false, strtod).tokens, Spans(place, strtod), SkipWhitespace(place);
    TokensStep(place, strtod);
    TokenTakesText(place, strtod);
    SkipFollows(place);
    SkippedIsBlank(place);
    match NextLexeme(place, strtod)
    case Token(t, v, after) =>
      TokenFollows(place, strtod);
      SkipIsTail(place);
      TailTwice(after.rest, start.rest, place.rest);
      var first, span := Located(t, v, start.line, start.column), Span(|start.rest|, |after.rest|);
      ReadingAfter(place, strtod);
      if i == 0 {
        FirstLocated(place, tokens, spans);
      } else {
        LinesAndColumns(after, i - 1, strtod);
        LocatedLater(place, after, first, span, ReadingOf(after, false, strtod).tokens, Spans(after, strtod), i - 1);
      }
    case _ =>
      FirstLocated(place, tokens, spans);
  }

  lemma ReadingAfter(place: Place, strtod: StrToD)
    requires NextLexeme(place, strtod).Token?
    ensures var next, start := NextLexeme(place, strtod), SkipWhitespace(place);
            && ReadingOf(place, false, strtod).tokens
               == [Located(next.token, next.value, start.line, start.column)]
                  + ReadingOf(next.after, false, strtod).tokens
            && Spans(place, strtod) == [Span(|start.rest|, |next.after.rest|)] + Spans(next.after, strtod)
  {
    hide NextLexeme, SkipWhitespace, TokensOf, LastStart, CutAtNul, ValueResult;
    TokensStep(place, strtod);
  }

  lemma FirstLocated(place: Place, tokens: seq<Located>, spans: seq<Span>)
    requires tokens != [] && spans != []
    requires var start := SkipWhitespace(place);
             && tokens[0].line == start.line && tokens[0].column == start.column
             && spans[0].left == |start.rest| && spans[0].after < spans[0].left
    ensures LocatedInText(place, tokens, spans, 0)
  {
    hide SkipWhitespace, Follows, Blank;
    SkipFollows(place);
    SkippedIsBlank(place);
  }

  // ----- the chunks that lose a value -----

  /** Number of chunks that are read until the next token is found. */
  function Needed(part: Place, input: seq<string>, strtod: StrToD): (n: nat)
    ensures n <= |input|
    decreases |input|
  {
    if input == [] || NextLexeme(part, strtod).Token? || NextLexeme(part, strtod).Rejected? then 0
    else 1 + Needed(Appended(SkipWhitespace(part), input[0]), input[1..], strtod)
  }

  lemma NeededStep(part: Place, input: seq<string>, strtod: StrToD)
    ensures Needed(part, input, strtod)
            == if input == [] || NextLexeme(part, strtod).Token? || NextLexeme(part, strtod).Rejected? then 0
               else 1 + Needed(Appended(SkipWhitespace(part), input[0]), input[1..], strtod)
  {
  }

  /** The first `i` chunks not yet read end like a complete text that has all tokens of the whole one. */
  predicate EndsEarly(part: Place, input: seq<string>, i: nat, strtod: StrToD)
    requires i <= |input|
  {
    TokensOf(Appended(part, Joined(input[..i])), strtod)
    == TokenList(TokensOf(Appended(part, Joined(input)), strtod).tokens, Complete)
  }

  /** A tokenizer that has read `part` will lose the value that ends the text. */
  predicate WillLose(part: Place, input: seq<string>, strtod: StrToD) {
    EndsOpen(Appended(part, Joined(input)), strtod) && exists i :: 0 <= i < |input| && EndsEarly(part, input, i, strtod)
  }

  /**
    The value that ends a text gets lost in these chunks: some of them, but not all, end where everything before the
    value has been read and the value has not begun.
  */
  predicate LosesIn(chunks: seq<string>, strtod: StrToD) {
    var all := Place(Joined(chunks), 1, 1);
    EndsOpen(all, strtod)
    && exists i :: 0 < i < |chunks|
                   && TokensOf(Place(Joined(chunks[..i]), 1, 1), strtod)
                      == TokenList(TokensOf(all, strtod).tokens, Complete)
  }

  /** Tokens do not depend on whitespace that has been skipped already. */
  lemma TokensSkip(p: Place, q: Place, strtod: StrToD)
    requires SkipWhitespace(p) == SkipWhitespace(q)
    ensures NextLexeme(p, strtod) == NextLexeme(q, strtod) && TokensOf(p, strtod) == TokensOf(q, strtod)
  {
    hide LexemeAt, SkipWhitespace;
  }

  lemma JoinedStep(input: seq<string>, i: nat)
    requires 0 < i <= |input|
    ensures Joined(input[..i]) == input[0] + Joined(input[1..][..i - 1])
  {
    assert input[..i][1..] == input[1..][..i - 1];
  }

  lemma AllJoined(input: seq<string>)
    ensures Joined(input[..|input|]) == Joined(input)
    ensures input != [] ==> Joined(input) == input[0] + Joined(input[1..])
  {
    assert input[..|input|] == input;
  }

  /** Reading one more chunk, which does not change the tokens. */
  lemma PartRead(part: Place, input: seq<string>, i: nat, strtod: StrToD)
    requires 0 < i <= |input|
    ensures var next := Appended(SkipWhitespace(part), input[0]);
            var here, there := Appended(part, Joined(input[..i])), Appended(next, Joined(input[1..][..i - 1]));
            TokensOf(here, strtod) == TokensOf(there, strtod) && NextLexeme(here, strtod) == NextLexeme(there, strtod)
  {
    hide NextLexeme, SkipWhitespace, TokensOf, Joined;
    var more := Joined(input[1..][..i - 1]);
    JoinedStep(input, i);
    SkipStable(part, input[0] + more);
    assert Appended(Appended(SkipWhitespace(part), input[0]), more)
        == Appended(SkipWhitespace(part), input[0] + more);
    TokensSkip(Appended(part, input[0] + more), Appended(SkipWhitespace(part), input[0] + more), strtod);
  }

  lemma LosesAfterRead(part: Place, input: seq<string>, strtod: StrToD)
    requires input != [] && NextLexeme(Appended(part, Joined(input)), strtod).Token?
    requires !NextLexeme(part, strtod).Token? && !NextLexeme(part, strtod).Rejected?
    ensures var next := Appended(SkipWhitespace(part), input[0]);
            && WillLose(next, input[1..], strtod) == WillLose(part, input, strtod)
            && NextLexeme(Appended(next, Joined(input[1..])), strtod)
               == NextLexeme(Appended(part, Joined(input)), strtod)
  {
    hide NextLexeme, SkipWhitespace, TokensOf, Joined;
    var next, rest := Appended(SkipWhitespace(part), input[0]), input[1..];
    PartRead(part, input, |input|, strtod);
    AllJoined(input);
    AllJoined(rest);
    NotYetEarly(part, input, strtod);
    forall i | 0 <= i < |rest| ensures EndsEarly(part, input, i + 1, strtod) == EndsEarly(next, rest, i, strtod) {
      PartRead(part, input, i + 1, strtod);
    }
    if EndsOpen(Appended(next, Joined(rest)), strtod) {
      if i :| 0 <= i < |input| && EndsEarly(part, input, i, strtod) {
        assert EndsEarly(next, rest, i - 1, strtod);
      }
      if i :| 0 <= i < |rest| && EndsEarly(next, rest, i, strtod) {
        assert EndsEarly(part, input, i + 1, strtod);
      }
    }
  }

  /** A part in which no token is found does not have all tokens. */
  lemma NotYetEarly(part: Place, input: seq<string>, strtod: StrToD)
    requires NextLexeme(Appended(part, Joined(input)), strtod).Token?
    requires !NextLexeme(part, strtod).Token?
    ensures !EndsEarly(part, input, 0, strtod)
  {
    hide NextLexeme, SkipWhitespace, TokensOf, Joined;
    NothingJoined();
    assert input[..0] == [] && Appended(part, "") == part;
    TokensStep(part, strtod);
    TokensStep(Appended(part, Joined(input)), strtod);
  }

  lemma EarlyAfterToken(part: Place, more: string, strtod: StrToD)
    requires NextLexeme(part, strtod).Token?
    ensures var here, next := Appended(part, more), NextLexeme(part, strtod);
            && NextLexeme(here, strtod) == Token(next.token, next.value, Appended(next.after, more))
            && var rest, start := TokensOf(Appended(next.after, more), strtod), SkipWhitespace(part);
            TokensOf(here, strtod)
            == TokenList([Located(next.token, next.value, start.line, start.column)] + rest.tokens, rest.ending)
  {
    hide NextLexeme, SkipWhitespace, TokensOf;
    LexemeStable(part, more, strtod);
    TokensStep(Appended(part, more), strtod);
    TokenTakesText(Appended(part, more), strtod);
    TokenTakesText(part, strtod);
  }

  lemma LosesAfterToken(part: Place, input: seq<string>, strtod: StrToD)
    requires NextLexeme(part, strtod).Token?
    ensures var next := NextLexeme(part, strtod).after;
            && NextLexeme(Appended(part, Joined(input)), strtod).Token?
            && NextLexeme(Appended(part, Joined(input)), strtod).after == Appended(next, Joined(input))
            && WillLose(next, input, strtod) == WillLose(part, input, strtod)
  {
    hide NextLexeme, SkipWhitespace, TokensOf, Joined;
    var next := NextLexeme(part, strtod).after;
    EarlyAfterToken(part, Joined(input), strtod);
    forall i | 0 <= i < |input| ensures EndsEarly(part, input, i, strtod) == EndsEarly(next, input, i, strtod) {
      EarlyAfterToken(part, Joined(input[..i]), strtod);
      SameTail(TokensOf(Appended(part, Joined(input)), strtod).tokens[0],
               TokensOf(Appended(next, Joined(input)), strtod).tokens,
               TokensOf(Appended(next, Joined(input[..i])), strtod).tokens);
    }
  }

  lemma SameTail(first: Located, a: seq<Located>, b: seq<Located>)
    ensures [first] + a == [first] + b <==> a == b
  {
    assert ([first] + a)[1..] == a && ([first] + b)[1..] == b;
  }

  /** Taking a token changes nothing about whether the last value will be lost. */
  lemma {:induction false} LosesStep(part: Place, input: seq<string>, next: Place, strtod: StrToD)
    requires NextLexeme(Appended(part, Joined(input)), strtod).Token?
    requires NextLexeme(Appended(part, Joined(input)), strtod).after
             == Appended(next, Joined(input[Needed(part, input, strtod)..]))
    ensures WillLose(next, input[Needed(part, input, strtod)..], strtod) == WillLose(part, input, strtod)
    decreases |input|
  {
    hide NextLexeme, SkipWhitespace, TokensOf, Joined, WillLose;
    NothingJoined();
    assert Appended(part, "") == part;
    LexemeStable(part, Joined(input), strtod);
    if NextLexeme(part, strtod).Token? {
      LosesAfterToken(part, input, strtod);
      assert input[0..] == input;
      SameBeginning(next, NextLexeme(part, strtod).after, Joined(input));
    } else if input != [] {
      var n := Needed(part, input, strtod);
      LosesAfterRead(part, input, strtod);
      assert input[1..][n - 1..] == input[n..];
      LosesStep(Appended(SkipWhitespace(part), input[0]), input[1..], next, strtod);
    }
  }

  /** Before the last value it will be lost iff the part that has been read looks like the end of the text. */
  lemma LosesAtEnd(part: Place, input: seq<string>, strtod: StrToD)
    requires NextLexeme(Appended(part, Joined(input)), strtod).Unfinished?
    ensures WillLose(part, input, strtod) <==> NextLexeme(part, strtod).AtEnd?
  {
    hide NextLexeme, SkipWhitespace, TokensOf, Joined;
    TokensStep(Appended(part, Joined(input)), strtod);
    NothingJoined();
    assert input[..0] == [] && Appended(part, "") == part;
    if NextLexeme(part, strtod).AtEnd? {
      TokensStep(part, strtod);
      assert input != [] && EndsEarly(part, input, 0, strtod);
    } else if i :| 0 <= i < |input| && EndsEarly(part, input, i, strtod) {
      TokensStep(Appended(part, Joined(input[..i])), strtod);
      NeverAtEnd(part, Joined(input[..i]), strtod);
    }
  }

  lemma NeverAtEnd(part: Place, more: string, strtod: StrToD)
    requires !NextLexeme(part, strtod).AtEnd?
    ensures !NextLexeme(Appended(part, more), strtod).AtEnd?
  {
    hide NextLexeme, SkipWhitespace;
    LexemeStable(part, more, strtod);
    if NextLexeme(part, strtod).Unfinished? {
      UnfinishedGoesOn(part, more, strtod);
    }
  }

  lemma LosesAtFirst(chunks: seq<string>, strtod: StrToD)
    requires chunks != []
    ensures WillLose(Place(chunks[0], 1, 1), chunks[1..], strtod) == LosesIn(chunks, strtod)
  {
    hide NextLexeme, SkipWhitespace, TokensOf, Joined;
    var part, input := Place(chunks[0], 1, 1), chunks[1..];
    AllJoined(chunks);
    forall i | 0 < i < |chunks|
      ensures Appended(part, Joined(input[..i - 1])) == Place(Joined(chunks[..i]), 1, 1)
    {
      JoinedStep(chunks, i);
    }
    if LosesIn(chunks, strtod) {
      var i :| 0 < i < |chunks|
          && TokensOf(Place(Joined(chunks[..i]), 1, 1), strtod)
             == TokenList(TokensOf(Place(Joined(chunks), 1, 1), strtod).tokens, Complete);
      assert EndsEarly(part, input, i - 1, strtod);
    }
    if WillLose(part, input, strtod) {
      var i :| 0 <= i < |input| && EndsEarly(part, input, i, strtod);
      assert Appended(part, Joined(input[..i + 1 - 1])) == Place(Joined(chunks[..i + 1]), 1, 1);
    }
  }

  /** A front part of an open text that has all its tokens ends before the last value. */
  lemma {:induction false} EarlyEnd(early: Place, more: string, strtod: StrToD)
    requires EndsOpen(Appended(early, more), strtod)
    requires TokensOf(early, strtod) == TokenList(TokensOf(Appended(early, more), strtod).tokens, Complete)
    ensures var here := Appended(early, more);
            && |LastStart(here, strtod).rest| <= |more|
            && TokensOf(BeforeLast(here, strtod), strtod).ending == Complete
    decreases |early.rest|
  {
    hide NextLexeme, SkipWhitespace, TokensOf, LastStart;
    var here := Appended(early, more);
    TokensStep(early, strtod);
    TokensStep(here, strtod);
    LastParts(here, strtod);
    if NextLexeme(early, strtod).Token? {
      TokenTakesText(early, strtod);
      var after := NextLexeme(early, strtod).after;
      EarlyAfterToken(early, more, strtod);
      SameTail(TokensOf(here, strtod).tokens[0], TokensOf(after, strtod).tokens,
               TokensOf(Appended(after, more), strtod).tokens);
      EarlyEnd(after, more, strtod);
      var rest := more[..|more| - |LastStart(here, strtod).rest|];
      assert BeforeLast(here, strtod) == Appended(early, rest);
      assert BeforeLast(Appended(after, more), strtod) == Appended(after, rest);
      EarlyAfterToken(early, rest, strtod);
    } else {
      EndSkipped(early, strtod);
      SkipStable(early, more);
      assert more != "" by {
        assert more == "" ==> here == early;
      }
      EndThenMore(SkipWhitespace(early), more, strtod);
      NothingBeforeLast(BeforeLast(here, strtod), LastStart(here, strtod).rest, strtod);
    }
  }

  /** The other way round, what stands before the last value has all tokens if it is complete. */
  lemma {:induction false} CompleteHasAll(before: Place, last: string, strtod: StrToD)
    requires var here := Appended(before, last);
             EndsOpen(here, strtod) && LastStart(here, strtod).rest == last
    requires TokensOf(before, strtod).ending == Complete
    ensures TokensOf(before, strtod).tokens == TokensOf(Appended(before, last), strtod).tokens
    decreases |before.rest|
  {
    hide NextLexeme, SkipWhitespace, TokensOf, LastStart;
    Losing(before, last, strtod);
    TokensStep(before, strtod);
    TokensStep(Appended(before, last), strtod);
    if NextLexeme(before, strtod).Token? {
      TokenTakesText(before, strtod);
      EarlyAfterToken(before, last, strtod);
      CompleteHasAll(NextLexeme(before, strtod).after, last, strtod);
    }
  }

  /** Whitespace. */
  predicate Blank(s: string) {
    forall i :: 0 <= i < |s| ==> s[i] == ' ' || s[i] == '\t' || s[i] == '\n' || s[i] == '\r'
  }

  /** One piece of whitespace is one character, or two. */
  lemma SkipOneIs(place: Place)
    requires SkipOne(place).Some?
    ensures var s := place.rest;
            var k := if s[0] == '\r' && |s| > 1 && s[1] == '\n' then 2 else 1;
            k <= |s| && SkipOne(place).value.rest == s[k..] && Blank(s[..k])
  {
  }

  lemma {:induction false} SkippedIsBlank(place: Place)
    ensures |SkipWhitespace(place).rest| <= |place.rest|
    ensures Blank(place.rest[..|place.rest| - |SkipWhitespace(place).rest|])
    decreases |place.rest|
  {
    hide SkipOne, Blank;
    if SkipOne(place).Some? {
      var next, end := SkipOne(place).value, SkipWhitespace(place);
      SkippedIsBlank(next);
      SkipOneIs(place);
      var k := |place.rest| - |next.rest|;
      var rest := next.rest[..|next.rest| - |end.rest|];
      BlankJoined(place.rest[..k], rest);
      assert place.rest[..|place.rest| - |end.rest|] == place.rest[..k] + rest;
    } else {
      NothingIsBlank();
      assert place.rest[..0] == "";
    }
  }

  lemma NothingIsBlank()
    ensures Blank("")
  {
  }

  predicate BlankAt(s: string, i: nat)
    requires i < |s|
  {
    s[i] == ' ' || s[i] == '\t' || s[i] == '\n' || s[i] == '\r'
  }

  lemma {:induction false} BlankIsSkipped(place: Place, n: nat)
    requires n < |place.rest| && Blank(place.rest[..n]) && !BlankAt(place.rest, n)
    ensures SkipWhitespace(place).rest == place.rest[n..]
    decreases n
  {
    hide SkipOne, Blank;
    var s := place.rest;
    BlankStart(place, n);
    if n > 0 {
      SkipOneIs(place);
      var next := SkipOne(place).value;
      var k := |s| - |next.rest|;
      assert s[..n][k..] == s[k..][..n - k] && s[k..][n - k..] == s[n..] && s[k..][n - k] == s[n];
      BlankPart(s[..n], s[k..][..n - k]);
      BlankIsSkipped(next, n - k);
    }
  }

  lemma BlankStart(place: Place, n: nat)
    requires n < |place.rest| && Blank(place.rest[..n]) && !BlankAt(place.rest, n)
    ensures SkipOne(place).Some? <==> n > 0
    ensures n == 1 && place.rest[0] == '\r' ==> place.rest[1] != '\n'
  {
    if n > 0 {
      assert place.rest[..n][0] == place.rest[0];
    }
  }

  /** The last value does not begin with whitespace. */
  lemma LastIsNotBlank(place: Place, strtod: StrToD)
    requires EndsOpen(place, strtod)
    ensures LastStart(place, strtod).rest != "" && !BlankAt(LastStart(place, strtod).rest, 0)
  {
    hide TokensOf, LastStart, ValueResult, CutAtNul, Structural;
    LastIsUnfinished(place, strtod);
    LastIsSkipped(place, strtod);
  }

  lemma {:induction false} LastIsSkipped(place: Place, strtod: StrToD)
    ensures SkipOne(LastStart(place, strtod)) == None
    decreases |place.rest|
  {
    hide NextLexeme, SkipOne, SkipWhitespace;
    TokenTakesText(place, strtod);
    if NextLexeme(place, strtod).Token? {
      LastIsSkipped(NextLexeme(place, strtod).after, strtod);
    }
  }

  /**
    The boundaries that lose the last value: those in the whitespace before it or directly before it, provided that
    what ends there is complete, as it is not when another value ends there.
  */
  lemma {:induction false} LosingBoundary(early: Place, more: string, strtod: StrToD)
    requires EndsOpen(Appended(early, more), strtod)
    ensures var here := Appended(early, more);
            var n := |LastStart(here, strtod).rest|;
            TokensOf(early, strtod) == TokenList(TokensOf(here, strtod).tokens, Complete)
            <==> n <= |more| && Blank(more[..|more| - n]) && TokensOf(early, strtod).ending == Complete
    decreases |early.rest|
  {
    hide NextLexeme, SkipWhitespace, TokensOf, LastStart, Blank;
    var here := Appended(early, more);
    var n := |LastStart(here, strtod).rest|;
    TokensStep(early, strtod);
    TokensStep(here, strtod);
    if NextLexeme(early, strtod).Token? {
      TokenTakesText(early, strtod);
      var after := NextLexeme(early, strtod).after;
      EarlyAfterToken(early, more, strtod);
      SameTail(TokensOf(here, strtod).tokens[0], TokensOf(after, strtod).tokens,
               TokensOf(Appended(after, more), strtod).tokens);
      LosingBoundary(after, more, strtod);
    } else if NextLexeme(early, strtod).AtEnd? {
      BoundaryAtEnd(early, more, strtod);
    }
  }

  lemma BoundaryAtEnd(early: Place, more: string, strtod: StrToD)
    requires EndsOpen(Appended(early, more), strtod) && NextLexeme(early, strtod).AtEnd?
    ensures var here := Appended(early, more);
            var n := |LastStart(here, strtod).rest|;
            NextLexeme(here, strtod).Unfinished? <==> n <= |more| && Blank(more[..|more| - n])
  {
    hide NextLexeme, SkipWhitespace, TokensOf, LastStart, Blank;
    var here := Appended(early, more);
    var n := |LastStart(here, strtod).rest|;
    if NextLexeme(here, strtod).Unfinished? {
      BlankBefore(early, more, strtod);
    } else if n <= |more| && Blank(more[..|more| - n]) {
      NothingBetween(early, more, strtod);
    }
  }

  lemma BlankBefore(early: Place, more: string, strtod: StrToD)
    requires NextLexeme(early, strtod).AtEnd? && NextLexeme(Appended(early, more), strtod).Unfinished?
    ensures var n := |LastStart(Appended(early, more), strtod).rest|;
            n <= |more| && Blank(more[..|more| - n])
  {
    hide NextLexeme, SkipWhitespace, TokensOf, LastStart, Blank;
    var here := Appended(early, more);
    TokensStep(here, strtod);
    var n := |LastStart(here, strtod).rest|;
    SkippedIsBlank(here);
    EndSkipped(early, strtod);
    SkipStable(early, more);
    assert more != "" by {
      assert more == "" ==> here == early;
    }
    EndThenMore(SkipWhitespace(early), more, strtod);
    assert here.rest[..|here.rest| - n] == early.rest + more[..|more| - n];
    BlankPart(here.rest[..|here.rest| - n], more[..|more| - n]);
  }

  lemma NothingBetween(early: Place, more: string, strtod: StrToD)
    requires EndsOpen(Appended(early, more), strtod) && NextLexeme(early, strtod).AtEnd?
    requires var n := |LastStart(Appended(early, more), strtod).rest|;
             n <= |more| && Blank(more[..|more| - n])
    ensures NextLexeme(Appended(early, more), strtod).Unfinished?
  {
    hide NextLexeme, SkipWhitespace, TokensOf, LastStart, Blank;
    var here := Appended(early, more);
    var last := LastStart(here, strtod);
    var k := |here.rest| - |last.rest|;
    TokensStep(here, strtod);
    TokenTakesText(here, strtod);
    LastParts(here, strtod);
    LastIsNotBlank(here, strtod);
    AllBlank(early, strtod);
    BlankJoined(early.rest, more[..|more| - |last.rest|]);
    assert here.rest[..k] == early.rest + more[..|more| - |last.rest|];
    assert here.rest[k..] == last.rest && here.rest[k] == last.rest[0];
    BlankIsSkipped(here, k);
  }

  lemma AllBlank(place: Place, strtod: StrToD)
    requires NextLexeme(place, strtod).AtEnd?
    ensures Blank(place.rest)
  {
    hide NextLexeme, SkipWhitespace;
    EndSkipped(place, strtod);
    SkippedIsBlank(place);
    SkipIsTail(place);
    var n := |SkipWhitespace(place).rest|;
    assert place.rest == place.rest[..|place.rest| - n] + SkipWhitespace(place).rest;
    BlankJoined(place.rest[..|place.rest| - n], SkipWhitespace(place).rest);
  }

  lemma BlankJoined(a: string, b: string)
    requires Blank(a) && Blank(b)
    ensures Blank(a + b)
  {
  }

  lemma BlankPart(a: string, b: string)
    requires Blank(a) && IsTail(b, a)
    ensures Blank(b)
  {
    forall i | 0 <= i < |b| ensures b[i] == a[|a| - |b| + i] {
    }
  }

  lemma {:induction false} JoinedSplit(chunks: seq<string>, i: nat)
    requires i <= |chunks|
    ensures Joined(chunks) == Joined(chunks[..i]) + Joined(chunks[i..])
    decreases i
  {
    if i > 0 {
      JoinedStep(chunks, i);
      AllJoined(chunks);
      JoinedSplit(chunks[1..], i - 1);
      assert chunks[1..][i - 1..] == chunks[i..];
    }
  }

  /** Chunks lose only values that some chunks lose. */
  lemma LostOnlyThere(chunks: seq<string>, strtod: StrToD)
    requires forall i :: 0 <= i < |chunks| ==> chunks[i] != ""
    requires LosesIn(chunks, strtod)
    ensures LosesLast(Joined(chunks), strtod)
  {
    hide NextLexeme, SkipWhitespace, TokensOf, Joined, LastStart;
    var i :| 0 < i < |chunks|
        && TokensOf(Place(Joined(chunks[..i]), 1, 1), strtod)
           == TokenList(TokensOf(Place(Joined(chunks), 1, 1), strtod).tokens, Complete);
    JoinedSplit(chunks, i);
    JoinedStep(chunks, i);
    EarlyEnd(Place(Joined(chunks[..i]), 1, 1), Joined(chunks[i..]), strtod);
  }

  lemma LosingChunksLose(text: string, strtod: StrToD)
    requires LosesLast(text, strtod)
    ensures LosesIn(LosingChunks(text, strtod), strtod)
  {
    hide NextLexeme, SkipWhitespace, TokensOf, Joined, LastStart;
    var all, chunks := Place(text, 1, 1), LosingChunks(text, strtod);
    LastParts(all, strtod);
    CompleteHasAll(BeforeLast(all, strtod), LastStart(all, strtod).rest, strtod);
    LosingJoined(text, strtod);
    OneChunk(chunks[0]);
    assert chunks[..1] == [chunks[0]];
  }

  /** Asks for tokens until the end of the text; the result says whether there has been no exception. */
  method ReadTokens(chunks: seq<string>, strtod: StrToD) returns (tokens: seq<Located>, ok: bool)
    requires forall i :: 0 <= i < |chunks| ==> chunks[i] != ""
    ensures Reading(tokens, ok) == ReadingOf(Place(Joined(chunks), 1, 1), LosesIn(chunks, strtod), strtod)
  {
    hide SkipWhitespace, LexemeAt, Joined, NextLexeme, TokensOf, LastStart, ReadingOf, ReadsLike, WillLose, LosesIn;
    hide CutAtNul, ValueResult, Needed;
    ghost var all, lost := Place(Joined(chunks), 1, 1), LosesIn(chunks, strtod);
    var tokenizer := new JsonTokenizer(chunks, strtod);
    ReadsLikeItself(all, lost, strtod);
    LosesFromTheStart(chunks, strtod);
    ok, tokens := true, [];
    while ok
      invariant tokenizer.Valid() && fresh(tokenizer) && tokenizer.strtod == strtod && ok
      invariant ReadsLike(all, tokens, tokenizer.Here(), lost, strtod)
      invariant EndsOpen(tokenizer.Here(), strtod) ==> tokenizer.token != EndOfFile && tokenizer.Losing() == lost
      decreases |tokenizer.Here().rest|
    {
      ghost var here, part, input := tokenizer.Here(), tokenizer.ReadPart(), tokenizer.input;
      TokenTakesText(here, strtod);
      TokensStep(here, strtod);
      ReadingStep(all, tokens, here, lost, strtod);
      if NextLexeme(here, strtod).Unfinished? {
        LosesAtEnd(part, input, strtod);
      }
      ok := tokenizer.Next();
      if !ok || tokenizer.token == EndOfFile {
        return;
      }
      tokens := tokens + [Located(tokenizer.token, tokenizer.value, tokenizer.lineNumber, tokenizer.tokenColumnNumber)];
      if NextLexeme(here, strtod).Token? {
        LosesStep(part, input, tokenizer.ReadPart(), strtod);
      } else {
        NothingLeft(tokenizer.Here(), strtod);
      }
    }
  }

  lemma LosesFromTheStart(chunks: seq<string>, strtod: StrToD)
    ensures EndsOpen(Place(Joined(chunks), 1, 1), strtod) ==>
              && chunks != [] && Joined(chunks) != ""
              && WillLose(Place(chunks[0], 1, 1), chunks[1..], strtod) == LosesIn(chunks, strtod)
  {
    hide TokensOf, WillLose, LosesIn;
    NothingJoined();
    if Joined(chunks) == "" {
      NothingLeft(Place("", 1, 1), strtod);
    } else {
      LosesAtFirst(chunks, strtod);
    }
  }

  /**
    Two ways to cut a text into chunks give the same tokens, values, lines and columns iff both of them lose the value
    that ends the text or neither does. Neither does when the text before that value is empty or not complete.
  */
  method ReadInTwoWays(chunks: seq<string>, otherChunks: seq<string>, strtod: StrToD)
    returns (tokens: seq<Located>, ok: bool, otherTokens: seq<Located>, otherOk: bool)
    requires forall i :: 0 <= i < |chunks| ==> chunks[i] != ""
    requires forall i :: 0 <= i < |otherChunks| ==> otherChunks[i] != ""
    requires Joined(chunks) == Joined(otherChunks)
    ensures tokens == otherTokens && ok == otherOk <==> LosesIn(chunks, strtod) == LosesIn(otherChunks, strtod)
    ensures !LosesLast(Joined(chunks), strtod) ==> tokens == otherTokens && ok == otherOk
  {
    hide TokensOf, LastStart, LosesIn, LosesLast, Joined, CutAtNul, ValueResult;
    tokens, ok := ReadTokens(chunks, strtod);
    otherTokens, otherOk := ReadTokens(otherChunks, strtod);
    OpenWhenLost(chunks, strtod);
    OpenWhenLost(otherChunks, strtod);
  }

  lemma OpenWhenLost(chunks: seq<string>, strtod: StrToD)
    requires forall i :: 0 <= i < |chunks| ==> chunks[i] != ""
    ensures LosesIn(chunks, strtod) ==>
              EndsOpen(Place(Joined(chunks), 1, 1), strtod) && LosesLast(Joined(chunks), strtod)
  {
    hide TokensOf, Joined, LosesLast;
    if LosesIn(chunks, strtod) {
      LostOnlyThere(chunks, strtod);
    }
  }

  /** When the text before the value is complete on its own, there are chunks that lose the value. */
  method ReadWithoutLast(text: string, strtod: StrToD)
    returns (chunks: seq<string>, tokens: seq<Located>, ok: bool, otherTokens: seq<Located>, otherOk: bool)
    requires LosesLast(text, strtod)
    ensures Joined([text]) == Joined(chunks) == text && forall i :: 0 <= i < |chunks| ==> chunks[i] != ""
    ensures Reading(tokens, ok) == ReadingOf(Place(text, 1, 1), false, strtod)
    ensures Reading(otherTokens, otherOk) == Reading(TokensOf(Place(text, 1, 1), strtod).tokens, true)
    ensures Reading(tokens, ok) != Reading(otherTokens, otherOk)
  {
    hide TokensOf, LastStart, Joined;
    LosingJoined(text, strtod);
    LosingChunksLose(text, strtod);
    OneChunk(text);
    chunks := LosingChunks(text, strtod);
    tokens, ok := ReadTokens([text], strtod);
    otherTokens, otherOk := ReadTokens(chunks, strtod);
  }

  lemma LosingJoined(text: string, strtod: StrToD)
    requires LosesLast(text, strtod)
    ensures text != "" && Joined(LosingChunks(text, strtod)) == text
    ensures forall i :: 0 <= i < |LosingChunks(text, strtod)| ==> LosingChunks(text, strtod)[i] != ""
  {
    hide TokensOf, LastStart;
    var chunks := LosingChunks(text, strtod);
    LastParts(Place(text, 1, 1), strtod);
    LastIsUnfinished(Place(text, 1, 1), strtod);
    OneChunk(chunks[1]);
    assert chunks[1..] == [chunks[1]];
  }

  /** A text that is nothing but an unfinished value does not lose it. */
  lemma OnlyValue(text: string, strtod: StrToD)
    requires SkipOne(Place(text, 1, 1)) == None && LexemeAt(Place(text, 1, 1), strtod).Unfinished?
    ensures EndsOpen(Place(text, 1, 1), strtod) && !LosesLast(text, strtod)
    ensures BeforeLast(Place(text, 1, 1), strtod).rest == ""
  {
    hide LexemeAt, TokensOf, LastStart, SkipOne;
    SkipStep(Place(text, 1, 1));
    TokensStep(Place(text, 1, 1), strtod);
  }

  lemma DecimalAlone(n: nat, strtod: StrToD)
    requires n < UINT64_LIMIT
    ensures CutAtNul(Decimal(n)) == Decimal(n) && ValueResult(Decimal(n), strtod) == Success(|Decimal(n)|, UInt(n))
    ensures SkipOne(Place(Decimal(n), 1, 1)) == None && LexemeAt(Place(Decimal(n), 1, 1), strtod).Unfinished?
  {
    hide Decimal, ValueResult;
    DecimalDigits(n);
    DigitsNotCut(Decimal(n));
    assert Decimal(n) + "" == Decimal(n);
    IntegerRoundTrip(n, "", strtod);
  }

  lemma {:induction false} DigitsNotCut(digits: string)
    requires forall i :: 0 <= i < |digits| ==> IsDigit(digits[i])
    ensures CutAtNul(digits) == digits
  {
    if digits != "" {
      DigitsNotCut(digits[1..]);
    }
  }

  /** A document that is nothing but a number does not depend on its chunks. */
  lemma NumberNotLost(n: nat, strtod: StrToD)
    requires n < UINT64_LIMIT
    ensures EndsOpen(Place(Decimal(n), 1, 1), strtod) && !LosesLast(Decimal(n), strtod)
    ensures ReadingOf(Place(Decimal(n), 1, 1), false, strtod)
            == Reading([Located(ValueToken, Some(UInt(n)), 1, 1)], true)
  {
    hide LexemeAt, TokensOf, LastStart, SkipOne, Decimal, ValueResult, CutAtNul;
    DecimalAlone(n, strtod);
    OnlyValue(Decimal(n), strtod);
    SkipStep(Place(Decimal(n), 1, 1));
    TokensStep(Place(Decimal(n), 1, 1), strtod);
  }

  /** An unfinished value that directly follows another one is not lost either. */
  lemma AbuttingNotLost(strtod: StrToD)
    ensures EndsOpen(Place("1\"a", 1, 1), strtod) && !LosesLast("1\"a", strtod)
  {
    hide LexemeAt, TokensOf, LastStart, SkipWhitespace;
    AbuttingLexemes(strtod);
    TokensStep(Place("1\"a", 1, 1), strtod);
    TokensStep(Place("\"a", 1, 2), strtod);
    assert "1\"a"[..1] == "1";
    TokensStep(Place("1", 1, 1), strtod);
  }

  lemma AbuttingLexemes(strtod: StrToD)
    ensures NextLexeme(Place("1\"a", 1, 1), strtod) == Token(ValueToken, Some(UInt(1)), Place("\"a", 1, 2))
    ensures NextLexeme(Place("1", 1, 1), strtod).Unfinished?
    ensures NextLexeme(Place("\"a", 1, 2), strtod).Unfinished?
    ensures SkipWhitespace(Place("\"a", 1, 2)).rest == "\"a"
  {
    hide ValueResult, CutAtNul, Structural;
    DecimalAlone(1, strtod);
    assert Decimal(1) == "1";
    AbuttingValues(strtod);
    NulIsNoSymbol();
    assert Structural('1') == None && Structural('"') == None by { SymbolsOnly(); }
    assert "1\"a"[1..] == "\"a";
  }

  lemma SymbolsOnly()
    ensures Structural('1') == None && Structural('"') == None
  {
  }

  lemma AbuttingValues(strtod: StrToD)
    ensures ValueResult(CutAtNul("1\"a"), strtod) == Success(1, UInt(1))
    ensures ValueResult(CutAtNul("\"a"), strtod) == Failure(2)
  {
    hide ValueResult;
    assert CutAtNul("a") == "a";
    assert "\"a"[1..] == "a" && "1\"a"[1..] == "\"a";
    assert CutAtNul("\"a") == "\"a";
    assert CutAtNul("1\"a") == "1\"a";
    AbuttingNumber(strtod);
    AbuttingString(strtod);
  }

  lemma AbuttingNumber(strtod: StrToD)
    ensures ValueResult("1\"a", strtod) == Success(1, UInt(1))
  {
    var s := "1\"a";
    assert s[1..] == "\"a" && NumberTail("\"a", false, false, false) == Number(0, false);
    assert CheckedNumber(s) == Number(1, false);
    assert s[0..1] == "1" && "1"[..0] == "";
    assert ParseDecimal("1") == 1;
    assert NumberResult(s, strtod) == Success(1, UInt(1));
  }

  lemma AbuttingString(strtod: StrToD)
    ensures ValueResult("\"a", strtod) == Failure(2)
  {
    assert "\"a"[1..] == "a" && "a"[1..] == "";
    assert ScanString("") == Scanned(0, None);
    assert ScanString("a") == Scanned(1, None);
  }

  /** A value that reaches the end of the text is lost when the chunk before it ends with a token. */
  method ChunksMatterForOpenTexts(strtod: StrToD) returns (whole: JsonToken, split: JsonToken)
    ensures Joined(["[1"]) == Joined(["[", "1"]) && whole == ValueToken && split == EndOfFile
  {
    hide SkipWhitespace, CutAtNul, ValueResult, Joined, NextLexeme;
    OpenText(strtod);
    var one := new JsonTokenizer(["[1"], strtod);
    assert one.input == [] && one.ReadPart().rest + "" == "[1";
    assert one.ReadPart() == one.Here() == Place("[1", 1, 1);
    var ok := one.Next();
    assert one.input == [];
    assert one.ReadPart() == one.Here() == Place("1", 1, 2);
    ok := one.Next();
    whole := one.token;
    var two := new JsonTokenizer(["[", "1"], strtod);
    assert two.input == ["1"] && two.ReadPart().rest + "1" == "[1";
    assert two.ReadPart().rest == two.Here().rest[..1] == "[";
    ok := two.Next();
    assert two.ReadPart().rest + "1" == "1";
    assert two.ReadPart() == Place("", 1, 2);
    ok := two.Next();
    split := two.token;
  }

  lemma OpenText(strtod: StrToD)
    ensures Joined([]) == "" && Joined(["1"]) == "1" && Joined(["[1"]) == Joined(["[", "1"]) == "[1"
    ensures NextLexeme(Place("[1", 1, 1), strtod) == Token(BeginArray, Some(Symbol('[')), Place("1", 1, 2))
    ensures NextLexeme(Place("[", 1, 1), strtod) == Token(BeginArray, Some(Symbol('[')), Place("", 1, 2))
    ensures NextLexeme(Place("1", 1, 2), strtod).Unfinished? && NextLexeme(Place("", 1, 2), strtod).AtEnd?
    ensures SkipWhitespace(Place("1", 1, 2)).rest == "1"
    ensures ValueResult(CutAtNul("1"), strtod) == Success(1, UInt(1))
  {
    assert ["[", "1"][1..] == ["1"];
    assert "[1"[1..] == "1" && "["[1..] == "" && "1"[1..] == "";
    assert CutAtNul("1") == "1" by { assert ['1'] + "" == "1"; }
    IntegerRoundTrip(1, "", strtod);
    assert Integral(1) == "1" && "1" + "" == "1";
  }
}
