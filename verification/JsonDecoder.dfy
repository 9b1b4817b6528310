/**
  JSON values as text: the encoder and the decoder of single values. A `char` stands for one byte of the text.
*/
module JsonCoding {
  import opened Streams

  datatype Float = NaN | Infinity | NegativeInfinity | Finite(number: real)

  datatype JsonValue =
    | Null
    | Bool(flag: bool)
    | Int(integer: int)
    | UInt(natural: nat)
    | Double(float: Float)
    | Str(text: string)
    | Symbol(symbol: char)

  /** What `strtod` makes of the characters of a number; `None` when it does not consume all of them. */
  type StrToD = string -> Option<Float>

  const BACKSPACE: char := 8 as char
  const FORM_FEED: char := 12 as char

  const INT64_LIMIT: nat := 0x8000_0000_0000_0000
  const UINT64_LIMIT: nat := 0x1_0000_0000_0000_0000

  // ----- encoder -----

  function HexDigit(n: nat): char
    requires n < 16
  {
    "0123456789abcdef"[n]
  }

  function EscapeChar(c: char): string {
    if c == '\\' || c == '"' then ['\\', c]
    else if c == BACKSPACE then ['\\', 'b']
    else if c == FORM_FEED then ['\\', 'f']
    else if c == '\n' then ['\\', 'n']
    else if c == '\r' then ['\\', 'r']
    else if c == '\t' then ['\\', 't']
    else if c as int <= 0x1F then ['\\', 'u', '0', '0', HexDigit(c as int / 16), HexDigit(c as int % 16)]
    else [c]
  }

  function Escape(s: string): string {
    if s == "" then "" else EscapeChar(s[0]) + Escape(s[1..])
  }

  function Quoted(s: string): string {
    "\"" + Escape(s) + "\""
  }

  /** Puts one character, escaped when necessary. */
  method PutCharacter(out: string, character: char) returns (r: string)
    ensures r == out + EscapeChar(character)
  {
    if character == '\\' || character == '"' {
      r := out + ['\\', character];
    } else if character == BACKSPACE {
      r := out + ['\\', 'b'];
    } else if character == FORM_FEED {
      r := out + ['\\', 'f'];
    } else if character == '\n' {
      r := out + ['\\', 'n'];
    } else if character == '\r' {
      r := out + ['\\', 'r'];
    } else if character == '\t' {
      r := out + ['\\', 't'];
    } else {
      var characterInt := character as int;
      if characterInt <= 0x1F {
        r := out + ['\\', 'u', '0', '0', HexDigit(characterInt / 16 % 16), HexDigit(characterInt % 16)];
      } else {
        r := out + [character];
      }
    }
  }

  method EncodeString(value: string) returns (out: string)
    ensures out == Quoted(value)
  {
    hide EscapeChar;
    out := "\"";
    assert value[0..] == value;
    for i := 0 to |value|
      invariant out + Escape(value[i..]) == "\"" + Escape(value)
    {
      assert value[i..][0] == value[i] && value[i..][1..] == value[i + 1..];
      JoinThree(out, EscapeChar(value[i]), Escape(value[i + 1..]));
      out := PutCharacter(out, value[i]);
    }
    assert value[|value|..] == "";
    out := out + "\"";
  }

  lemma JoinThree(a: string, b: string, c: string)
    ensures (a + b) + c == a + (b + c)
  {
  }

  function Digit(n: nat): char
    requires n < 10
  {
    "0123456789"[n]
  }

  /** Decimal notation. */
  function Decimal(n: nat): string {
    if n < 10 then [Digit(n)] else Decimal(n / 10) + [Digit(n % 10)]
  }

  function Integral(i: int): string {
    if i < 0 then "-" + Decimal(0 - i) else Decimal(i)
  }

  // ----- decoder -----

  /** Number of processed characters, the value when there is one, and whether it is an integer out of range. */
  datatype DecoderResult = DecoderResult(numRead: nat, value: Option<JsonValue>, overflow: bool)

  function Failure(numRead: nat): DecoderResult {
    DecoderResult(numRead, None, false)
  }

  function Success(numRead: nat, value: JsonValue): DecoderResult {
    DecoderResult(numRead, Some(value), false)
  }

  /** How many characters of the input are compared with a literal, and whether all of the literal is there. */
  datatype Matched = Matched(numRead: nat, whole: bool)

  function Match(input: string, literal: string): (m: Matched)
    ensures m.numRead <= |input|
  {
    if literal == "" then Matched(0, true)
    else if input == "" then Matched(0, false)
    else if input[0] != literal[0] then Matched(1, false)
    else
      var rest := Match(input[1..], literal[1..]);
      Matched(1 + rest.numRead, rest.whole)
  }

  function LiteralResult(input: string, literal: string, value: JsonValue): DecoderResult {
    var m := Match(input, literal);
    if m.whole then Success(m.numRead, value) else Failure(m.numRead)
  }

  method DecodeLiteral(input: string, literal: string, value: JsonValue) returns (r: DecoderResult)
    ensures r == LiteralResult(input, literal, value)
  {
    var i := 0;
    assert input[0..] == input && literal[0..] == literal;
    while i < |input| && i < |literal|
      invariant i <= |input| && i <= |literal|
      invariant Match(input, literal).numRead == i + Match(input[i..], literal[i..]).numRead
      invariant Match(input, literal).whole == Match(input[i..], literal[i..]).whole
    {
      assert input[i..][1..] == input[i + 1..] && literal[i..][1..] == literal[i + 1..];
      i := i + 1;
      if input[i - 1] != literal[i - 1] {
        return Failure(i);
      }
    }
    if i != |literal| {
      return Failure(|input|);
    }
    return Success(|literal|, value);
  }

  function Hex(c: char): int {
    if '0' <= c <= '9' then c as int - '0' as int
    else if 'a' <= c <= 'f' then c as int - 'a' as int + 10
    else if 'A' <= c <= 'F' then c as int - 'A' as int + 10
    else -1
  }

  datatype Escaped = Escaped(numRead: nat, character: Option<char>)

  /** The rest of a unicode escape; only the characters up to 00ff are supported. */
  function UnicodeEscape(s: string): (e: Escaped)
    ensures e.numRead <= |s| && e.numRead <= 4
  {
    if |s| < 1 then Escaped(0, None)
    else if s[0] != '0' || |s| < 2 then Escaped(1, None)
    else if s[1] != '0' || |s| < 3 then Escaped(2, None)
    else if Hex(s[2]) < 0 || |s| < 4 then Escaped(3, None)
    else if Hex(s[3]) < 0 then Escaped(4, None)
    else Escaped(4, Some((16 * Hex(s[2]) + Hex(s[3])) as char))
  }

  method DecodeUnicodeEscape(input: string, at: nat) returns (numRead: nat, character: Option<char>)
    requires at <= |input|
    ensures Escaped(numRead, character) == UnicodeEscape(input[at..])
  {
    var i := at;
    if i == |input| {
      return i - at, None;
    }
    i := i + 1;
    if input[i - 1] != '0' || i == |input| {
      return i - at, None;
    }
    i := i + 1;
    if input[i - 1] != '0' || i == |input| {
      return i - at, None;
    }
    var hex1 := Hex(input[i]);
    i := i + 1;
    if hex1 < 0 || i == |input| {
      return i - at, None;
    }
    var hex2 := Hex(input[i]);
    i := i + 1;
    if hex2 < 0 {
      return i - at, None;
    }
    return i - at, Some((16 * hex1 + hex2) as char);
  }

  function SimpleEscape(c: char): Option<char> {
    match c
    case '\\' => Some('\\')
    case '"' => Some('"')
    case 'b' => Some(BACKSPACE)
    case 'f' => Some(FORM_FEED)
    case 'n' => Some('\n')
    case 'r' => Some('\r')
    case 't' => Some('\t')
    case _ => None
  }

  /** What is read after the opening quote of a string. */
  datatype Scanned = Scanned(numRead: nat, text: Option<string>)

  function Prefixed(numRead: nat, text: string, rest: Scanned): Scanned {
    Scanned(numRead + rest.numRead, if rest.text.Some? then Some(text + rest.text.value) else None)
  }

  function ScanString(s: string): (r: Scanned)
    ensures r.numRead <= |s|
    decreases |s|
  {
    if s == "" then Scanned(0, None)
    else if s[0] == '\\' then
      if |s| == 1 then Scanned(1, None)
      else if SimpleEscape(s[1]).Some? then Prefixed(2, [SimpleEscape(s[1]).value], ScanString(s[2..]))
      else if s[1] == 'u' then
        var e := UnicodeEscape(s[2..]);
        if e.character.None? then Scanned(2 + e.numRead, None)
        else Prefixed(2 + e.numRead, [e.character.value], ScanString(s[2 + e.numRead..]))
      else Scanned(2, None)
    else if s[0] == '"' then Scanned(1, Some(""))
    else Prefixed(1, [s[0]], ScanString(s[1..]))
  }

  function StringResult(r: Scanned): DecoderResult {
    if r.text.Some? then Success(1 + r.numRead, Str(r.text.value)) else Failure(1 + r.numRead)
  }

  lemma PrefixedTwice(n: nat, a: string, m: nat, b: string, rest: Scanned)
    ensures Prefixed(n, a, Prefixed(m, b, rest)) == Prefixed(n + m, a + b, rest)
  {
    if rest.text.Some? {
      JoinThree(a, b, rest.text.value);
    }
  }

  /** The next step of scanning, by positions in the input. */
  lemma ScanAt(input: string, i: nat)
    requires i <= |input|
    ensures ScanString(input[i..])
            == if i == |input| then Scanned(0, None)
               else if input[i] == '\\' then
                 if i + 1 == |input| then Scanned(1, None)
                 else if SimpleEscape(input[i + 1]).Some? then
                   Prefixed(2, [SimpleEscape(input[i + 1]).value], ScanString(input[i + 2..]))
                 else if input[i + 1] == 'u' then
                   var e := UnicodeEscape(input[i + 2..]);
                   if e.character.None? then Scanned(2 + e.numRead, None)
                   else Prefixed(2 + e.numRead, [e.character.value], ScanString(input[i + 2 + e.numRead..]))
                 else Scanned(2, None)
               else if input[i] == '"' then Scanned(1, Some(""))
               else Prefixed(1, [input[i]], ScanString(input[i + 1..]))
  {
    hide UnicodeEscape, SimpleEscape;
    assert forall n :: 0 <= n <= |input| - i ==> input[i..][n..] == input[i + n..];
  }

  /** Decodes a string; the caller knows that the input starts with a quote. */
  method DecodeString(input: string) returns (r: DecoderResult)
    requires input != "" && input[0] == '"'
    ensures r == StringResult(ScanString(input[1..]))
  {
    hide UnicodeEscape, SimpleEscape, ScanString;
    var i, value := 1, "";
    ghost var all := ScanString(input[1..]);
    assert all.text.Some? ==> "" + all.text.value == all.text.value;
    while i < |input|
      invariant 1 <= i <= |input|
      invariant all == Prefixed(i - 1, value, ScanString(input[i..]))
    {
      ghost var here, before := i, value;
      ScanAt(input, i);
      if input[i] == '\\' {
        i := i + 1;
        if i == |input| {
          return Failure(i);
        }
        var simple := SimpleEscape(input[i]);
        if simple.Some? {
          value := value + [simple.value];
          i := i + 1;
          PrefixedTwice(here - 1, before, 2, [simple.value], ScanString(input[i..]));
        } else if input[i] == 'u' {
          i := i + 1;
          var numRead, character := DecodeUnicodeEscape(input, i);
          i := i + numRead;
          if character.None? {
            return Failure(i);
          }
          value := value + [character.value];
          PrefixedTwice(here - 1, before, 2 + numRead, [character.value], ScanString(input[i..]));
        } else {
          i := i + 1;
          return Failure(i);
        }
      } else if input[i] == '"' {
        i := i + 1;
        assert value + "" == value;
        return Success(i, Str(value));
      } else {
        value := value + [input[i]];
        i := i + 1;
        PrefixedTwice(here - 1, before, 1, [input[here]], ScanString(input[i..]));
      }
    }
    ScanAt(input, i);
    return Failure(|input|);
  }

  // ----- numbers -----

  predicate IsDigit(c: char) {
    '0' <= c <= '9'
  }

  /** The characters that make up a number, and whether it is a floating-point one. */
  datatype Number = Number(length: nat, isDouble: bool)

  function Extended(n: Number): Number {
    Number(1 + n.length, n.isDouble)
  }

  function Longer(more: nat, n: Number): Number {
    Number(more + n.length, n.isDouble)
  }

  function NumberTail(s: string, acceptExpSign: bool, isScientific: bool, isDouble: bool): (n: Number)
    ensures n.length <= |s|
  {
    if s == "" then Number(0, isDouble)
    else if acceptExpSign && (s[0] == '+' || s[0] == '-')
    then Extended(NumberTail(s[1..], false, isScientific, isDouble))
    else if IsDigit(s[0]) then Extended(NumberTail(s[1..], false, isScientific, isDouble))
    else if (s[0] == 'e' || s[0] == 'E') && !isScientific then Extended(NumberTail(s[1..], true, true, true))
    else if s[0] == '.' && !isDouble then Extended(NumberTail(s[1..], false, isScientific, true))
    else Number(0, isDouble)
  }

  /** Length zero stands for characters that are not a number. */
  function CheckedNumber(input: string): (n: Number)
    requires input != ""
    ensures n.length <= |input|
  {
    if input[0] == '-' then
      var n := NumberTail(input[1..], false, false, false);
      if n.length == 0 then Number(0, n.isDouble) else Extended(n)
    else NumberTail(input, false, false, false)
  }

  /** The next step through a number, by positions in the input. */
  lemma NumberAt(input: string, i: nat, acceptExpSign: bool, isScientific: bool, isDouble: bool)
    requires i <= |input|
    ensures NumberTail(input[i..], acceptExpSign, isScientific, isDouble)
            == if i == |input| then Number(0, isDouble)
               else if acceptExpSign && (input[i] == '+' || input[i] == '-')
               then Extended(NumberTail(input[i + 1..], false, isScientific, isDouble))
               else if IsDigit(input[i]) then Extended(NumberTail(input[i + 1..], false, isScientific, isDouble))
               else if (input[i] == 'e' || input[i] == 'E') && !isScientific
               then Extended(NumberTail(input[i + 1..], true, true, true))
               else if input[i] == '.' && !isDouble
               then Extended(NumberTail(input[i + 1..], false, isScientific, true))
               else Number(0, isDouble)
  {
    if i < |input| {
      assert input[i..][1..] == input[i + 1..];
    }
  }

  method CheckNumber(input: string) returns (numChars: nat, isDouble: bool, isSigned: bool)
    requires input != ""
    ensures Number(numChars, isDouble) == CheckedNumber(input) && isSigned == (input[0] == '-')
  {
    hide NumberTail;
    var i, acceptExpSign, isScientificDouble := 0, false, false;
    isDouble := false;
    if input[0] == '-' {
      i := 1;
      isSigned := true;
    } else {
      isSigned := false;
    }
    ghost var from := i;
    ghost var n := NumberTail(input[from..], false, false, false);
    assert input[0..] == input;
    while i < |input|
      invariant from <= i <= |input|
      invariant n == Longer(i - from, NumberTail(input[i..], acceptExpSign, isScientificDouble, isDouble))
    {
      NumberAt(input, i, acceptExpSign, isScientificDouble, isDouble);
      if acceptExpSign {
        acceptExpSign := false;
        if input[i] == '+' || input[i] == '-' {
          i := i + 1;
          continue;
        }
      }
      if IsDigit(input[i]) {
        i := i + 1;
        continue;
      }
      if (input[i] == 'e' || input[i] == 'E') && !isScientificDouble {
        isDouble := true;
        isScientificDouble := true;
        acceptExpSign := true;
        i := i + 1;
        continue;
      }
      if input[i] == '.' && !isDouble {
        isDouble := true;
        i := i + 1;
        continue;
      }
      break;
    }
    NumberAt(input, i, acceptExpSign, isScientificDouble, isDouble);
    numChars := i;
    if isSigned && numChars == 1 {
      numChars := 0;
    }
  }

  /** The number a string of digits denotes. */
  function ParseDecimal(s: string): nat
    requires forall i :: 0 <= i < |s| ==> IsDigit(s[i])
  {
    if s == "" then 0 else 10 * ParseDecimal(s[..|s| - 1]) + DigitValue(s[|s| - 1])
  }

  function DigitValue(c: char): nat
    requires IsDigit(c)
  {
    c as int - '0' as int
  }

  lemma {:induction false} IntegerDigits(s: string, i: nat)
    requires var n := NumberTail(s, false, false, false);
             !n.isDouble && i < n.length
    ensures IsDigit(s[i])
    decreases |s|
  {
    if !IsDigit(s[0]) {
      NeverDoubleAgain(s[1..], s[0] == 'e' || s[0] == 'E');
    } else if i > 0 {
      IntegerDigits(s[1..], i - 1);
    }
  }

  lemma {:induction false} NeverDoubleAgain(s: string, scientific: bool)
    ensures NumberTail(s, scientific, scientific, true).isDouble
    decreases |s|
  {
    StaysDouble(s, scientific, scientific);
  }

  lemma {:induction false} StaysDouble(s: string, acceptExpSign: bool, isScientific: bool)
    ensures NumberTail(s, acceptExpSign, isScientific, true).isDouble
    decreases |s|
  {
    if s != "" {
      StaysDouble(s[1..], false, isScientific);
      StaysDouble(s[1..], true, true);
    }
  }

  /** The digits of an integer. */
  function Digits(input: string): (digits: string)
    requires input != "" && CheckedNumber(input).length > 0 && !CheckedNumber(input).isDouble
    ensures forall i :: 0 <= i < |digits| ==> IsDigit(digits[i])
  {
    var from := if input[0] == '-' then 1 else 0;
    var digits := input[from..CheckedNumber(input).length];
    assert forall i :: 0 <= i < |digits| ==> IsDigit(digits[i]) by {
      forall i | 0 <= i < |digits| ensures IsDigit(digits[i]) {
        assert input[0..] == input;
        IntegerDigits(input[from..], i);
        assert digits[i] == input[from..][i];
      }
    }
    digits
  }

  function NumberResult(input: string, strtod: StrToD): DecoderResult
    requires input != ""
  {
    var n := CheckedNumber(input);
    if n.length == 0 then Failure(1)
    else if n.isDouble then
      match strtod(input[..n.length])
      case Some(float) => Success(n.length, Double(float))
      case None => Failure(n.length)
    else
      var magnitude := ParseDecimal(Digits(input));
      if input[0] == '-' then
        if magnitude > INT64_LIMIT then DecoderResult(n.length, None, true) else Success(n.length, Int(0 - magnitude))
      else
        if magnitude >= UINT64_LIMIT then DecoderResult(n.length, None, true) else Success(n.length, UInt(magnitude))
  }

  method DecodeNumber(input: string, strtod: StrToD) returns (r: DecoderResult)
    requires input != ""
    ensures r == NumberResult(input, strtod)
  {
    var numChars, isDouble, isSigned := CheckNumber(input);
    if numChars == 0 {
      return Failure(1);
    }
    if isDouble {
      var float := strtod(input[..numChars]);
      return if float.Some? then Success(numChars, Double(float.value)) else Failure(numChars);
    }
    var magnitude := ParseDecimal(Digits(input));
    if isSigned {
      return if magnitude > INT64_LIMIT then DecoderResult(numChars, None, true)
             else Success(numChars, Int(0 - magnitude));
    }
    return if magnitude >= UINT64_LIMIT then DecoderResult(numChars, None, true)
           else Success(numChars, UInt(magnitude));
  }

  // ----- values -----

  function ValueResult(input: string, strtod: StrToD): DecoderResult {
    if input == "" then Failure(0)
    else
      match input[0]
      case 'n' => LiteralResult(input, "null", Null)
      case 't' => LiteralResult(input, "true", Bool(true))
      case 'f' => LiteralResult(input, "false", Bool(false))
      case 'N' => LiteralResult(input, "NaN", Double(NaN))
      case 'I' => LiteralResult(input, "Infinity", Double(Infinity))
      case '"' => StringResult(ScanString(input[1..]))
      case '-' =>
        if |input| > 1 && input[1] == 'I' then LiteralResult(input, "-Infinity", Double(NegativeInfinity))
        else NumberResult(input, strtod)
      case _ => NumberResult(input, strtod)
  }

  method DecodeValue(input: string, strtod: StrToD) returns (r: DecoderResult)
    ensures r == ValueResult(input, strtod)
  {
    hide LiteralResult, ScanString, NumberResult;
    if input == "" {
      return Failure(0);
    }
    match input[0]
    case 'n' => r := DecodeLiteral(input, "null", Null);
    case 't' => r := DecodeLiteral(input, "true", Bool(true));
    case 'f' => r := DecodeLiteral(input, "false", Bool(false));
    case 'N' => r := DecodeLiteral(input, "NaN", Double(NaN));
    case 'I' => r := DecodeLiteral(input, "Infinity", Double(Infinity));
    case '"' => r := DecodeString(input);
    case '-' =>
      if |input| > 1 && input[1] == 'I' {
        r := DecodeLiteral(input, "-Infinity", Double(NegativeInfinity));
      } else {
        r := DecodeNumber(input, strtod);
      }
    case _ => r := DecodeNumber(input, strtod);
  }

  // ----- decoding a part of the text -----

  lemma {:induction false} MatchStable(u: string, v: string, literal: string)
    requires Match(u, literal).numRead < |u| || Match(u, literal).whole
    ensures Match(u + v, literal) == Match(u, literal)
    decreases |u|
  {
    if literal != "" && u != "" && u[0] == literal[0] {
      assert (u + v)[1..] == u[1..] + v;
      MatchStable(u[1..], v, literal[1..]);
    }
  }

  lemma EscapeStable(u: string, v: string)
    requires UnicodeEscape(u).numRead < |u| || UnicodeEscape(u).character.Some?
    ensures UnicodeEscape(u + v) == UnicodeEscape(u)
  {
  }

  lemma {:induction false} ScanStable(u: string, v: string)
    requires ScanString(u).numRead < |u| || ScanString(u).text.Some?
    ensures ScanString(u + v) == ScanString(u)
    decreases |u|
  {
    hide UnicodeEscape;
    if u != "" {
      if u[0] == '\\' {
        if |u| > 1 {
          assert (u + v)[2..] == u[2..] + v;
          if SimpleEscape(u[1]).Some? {
            ScanStable(u[2..], v);
          } else if u[1] == 'u' {
            EscapeStable(u[2..], v);
            var e := UnicodeEscape(u[2..]);
            if e.character.Some? {
              assert (u + v)[2 + e.numRead..] == u[2 + e.numRead..] + v;
              ScanStable(u[2 + e.numRead..], v);
            }
          }
        }
      } else if u[0] != '"' {
        assert (u + v)[1..] == u[1..] + v;
        ScanStable(u[1..], v);
      }
    }
  }

  lemma {:induction false} NumberStable(u: string, v: string, acceptExpSign: bool, isScientific: bool, isDouble: bool)
    requires NumberTail(u, acceptExpSign, isScientific, isDouble).length < |u|
    ensures NumberTail(u + v, acceptExpSign, isScientific, isDouble)
            == NumberTail(u, acceptExpSign, isScientific, isDouble)
    decreases |u|
  {
    assert (u + v)[1..] == u[1..] + v;
    if acceptExpSign && (u[0] == '+' || u[0] == '-') {
      NumberStable(u[1..], v, false, isScientific, isDouble);
    } else if IsDigit(u[0]) {
      NumberStable(u[1..], v, false, isScientific, isDouble);
    } else if (u[0] == 'e' || u[0] == 'E') && !isScientific {
      NumberStable(u[1..], v, true, true, true);
    } else if u[0] == '.' && !isDouble {
      NumberStable(u[1..], v, false, isScientific, true);
    }
  }

  lemma CheckedStable(u: string, v: string)
    requires u != "" && CheckedNumber(u).length < |u| && |u| > 1
    ensures CheckedNumber(u + v) == CheckedNumber(u)
  {
    if u[0] == '-' {
      assert (u + v)[1..] == u[1..] + v;
      NumberStable(u[1..], v, false, false, false);
    } else {
      NumberStable(u, v, false, false, false);
    }
  }

  lemma NumberResultStable(u: string, v: string, strtod: StrToD)
    requires u != "" && NumberResult(u, strtod).numRead < |u|
    ensures NumberResult(u + v, strtod) == NumberResult(u, strtod)
  {
    CheckedStable(u, v);
    var n := CheckedNumber(u);
    assert (u + v)[..n.length] == u[..n.length];
    if n.length > 0 && !n.isDouble {
      var from := if u[0] == '-' then 1 else 0;
      assert (u + v)[from..n.length] == u[from..n.length];
    }
  }

  /** A decode that stops before the end of its input does not change when text is appended. */
  lemma DecodeStable(u: string, v: string, strtod: StrToD)
    requires ValueResult(u, strtod).numRead < |u|
    ensures ValueResult(u + v, strtod) == ValueResult(u, strtod)
  {
    hide Match, ScanString, NumberResult;
    if u[0] == '"' {
      assert (u + v)[1..] == u[1..] + v;
      ScanStable(u[1..], v);
    } else if u[0] == 'n' {
      MatchStable(u, v, "null");
    } else if u[0] == 't' {
      MatchStable(u, v, "true");
    } else if u[0] == 'f' {
      MatchStable(u, v, "false");
    } else if u[0] == 'N' {
      MatchStable(u, v, "NaN");
    } else if u[0] == 'I' {
      MatchStable(u, v, "Infinity");
    } else if u[0] == '-' && |u| > 1 && u[1] == 'I' {
      MatchStable(u, v, "-Infinity");
    } else {
      NumberResultAtLeastOne(u, strtod);
      NumberResultStable(u, v, strtod);
    }
  }

  lemma {:induction false} MatchMore(u: string, v: string, literal: string)
    requires Match(u, literal).numRead == |u|
    ensures Match(u + v, literal).numRead >= |u|
    decreases |u|
  {
    if u != "" && u[0] == literal[0] {
      assert (u + v)[1..] == u[1..] + v;
      MatchMore(u[1..], v, literal[1..]);
    }
  }

  lemma EscapeMore(u: string, v: string)
    requires UnicodeEscape(u).numRead == |u|
    ensures UnicodeEscape(u + v).numRead >= |u|
  {
  }

  lemma {:induction false} ScanMore(u: string, v: string)
    requires ScanString(u).numRead == |u|
    ensures ScanString(u + v).numRead >= |u|
    decreases |u|
  {
    hide UnicodeEscape;
    if u == "" {
    } else if u[0] == '\\' {
      if |u| > 1 {
        assert (u + v)[2..] == u[2..] + v;
        if SimpleEscape(u[1]).Some? {
          ScanMore(u[2..], v);
        } else if u[1] == 'u' {
          var e := UnicodeEscape(u[2..]);
          if e.character.Some? {
            EscapeStable(u[2..], v);
            assert (u + v)[2 + e.numRead..] == u[2 + e.numRead..] + v;
            ScanMore(u[2 + e.numRead..], v);
          } else {
            EscapeMore(u[2..], v);
          }
        }
      }
    } else if u[0] != '"' {
      assert (u + v)[1..] == u[1..] + v;
      ScanMore(u[1..], v);
    }
  }

  lemma {:induction false} NumberMore(u: string, v: string, acceptExpSign: bool, isScientific: bool, isDouble: bool)
    requires NumberTail(u, acceptExpSign, isScientific, isDouble).length == |u|
    ensures NumberTail(u + v, acceptExpSign, isScientific, isDouble).length >= |u|
    decreases |u|
  {
    if u != "" {
      assert (u + v)[1..] == u[1..] + v;
      if acceptExpSign && (u[0] == '+' || u[0] == '-') {
        NumberMore(u[1..], v, false, isScientific, isDouble);
      } else if IsDigit(u[0]) {
        NumberMore(u[1..], v, false, isScientific, isDouble);
      } else if (u[0] == 'e' || u[0] == 'E') && !isScientific {
        NumberMore(u[1..], v, true, true, true);
      } else {
        NumberMore(u[1..], v, false, isScientific, true);
      }
    }
  }

  lemma NumberResultMore(u: string, v: string, strtod: StrToD)
    requires u != "" && NumberResult(u, strtod).numRead == |u|
    ensures NumberResult(u + v, strtod).numRead >= |u|
  {
    if |u| > 1 {
      if u[0] == '-' {
        assert (u + v)[1..] == u[1..] + v;
        NumberMore(u[1..], v, false, false, false);
      } else {
        NumberMore(u, v, false, false, false);
      }
    }
  }

  /** A decode that reaches the end of its input reads at least as far when text is appended. */
  lemma DecodeMore(u: string, v: string, strtod: StrToD)
    requires ValueResult(u, strtod).numRead == |u|
    ensures ValueResult(u + v, strtod).numRead >= |u|
  {
    hide Match, ScanString, NumberResult;
    if u == "" {
    } else if u[0] == '"' {
      assert (u + v)[1..] == u[1..] + v;
      ScanMore(u[1..], v);
    } else if u[0] == 'n' {
      MatchMore(u, v, "null");
    } else if u[0] == 't' {
      MatchMore(u, v, "true");
    } else if u[0] == 'f' {
      MatchMore(u, v, "false");
    } else if u[0] == 'N' {
      MatchMore(u, v, "NaN");
    } else if u[0] == 'I' {
      MatchMore(u, v, "Infinity");
    } else if u[0] == '-' && |u| > 1 && u[1] == 'I' {
      MatchMore(u, v, "-Infinity");
    } else {
      AtLeastOne(u + v, strtod);
      if |u| > 1 {
        NumberResultMore(u, v, strtod);
      }
    }
  }

  lemma AtLeastOne(u: string, strtod: StrToD)
    requires u != ""
    ensures ValueResult(u, strtod).numRead > 0
  {
  }

  lemma NumberResultAtLeastOne(u: string, strtod: StrToD)
    requires u != ""
    ensures NumberResult(u, strtod).numRead > 0
  {
  }

  // ----- decoding inverts encoding -----

  lemma HexRoundTrip(n: nat)
    requires n < 16
    ensures Hex(HexDigit(n)) == n
  {
  }

  lemma EscapedCharacter(c: char, rest: string)
    ensures ScanString(EscapeChar(c) + rest) == Prefixed(|EscapeChar(c)|, [c], ScanString(rest))
  {
    var e := EscapeChar(c);
    assert (e + rest)[|e|..] == rest;
    if |e| == 6 {
      EscapedControl(c, rest);
    }
  }

  lemma EscapedControl(c: char, rest: string)
    requires |EscapeChar(c)| == 6
    ensures ScanString(EscapeChar(c) + rest) == Prefixed(6, [c], ScanString(rest))
  {
    var e := EscapeChar(c);
    HexRoundTrip(c as int / 16);
    HexRoundTrip(c as int % 16);
    var s := (e + rest)[2..];
    assert s == e[2..] + rest;
    assert UnicodeEscape(s) == Escaped(4, Some(c));
    assert (e + rest)[6..] == rest;
  }

  lemma {:induction false} ScanEscaped(s: string, rest: string)
    ensures ScanString(Escape(s) + ("\"" + rest)) == Scanned(|Escape(s)| + 1, Some(s))
    decreases |s|
  {
    hide EscapeChar;
    if s == "" {
      assert Escape(s) + ("\"" + rest) == "\"" + rest;
    } else {
      ScanEscaped(s[1..], rest);
      EscapedCharacter(s[0], Escape(s[1..]) + ("\"" + rest));
      JoinThree(EscapeChar(s[0]), Escape(s[1..]), "\"" + rest);
      assert [s[0]] + s[1..] == s;
    }
  }

  /** Any string of bytes survives encoding and decoding, and exactly the encoded part is consumed. */
  lemma StringRoundTrip(s: string, rest: string, strtod: StrToD)
    ensures ValueResult(Quoted(s) + rest, strtod) == Success(|Quoted(s)|, Str(s))
  {
    hide ScanString, Escape;
    ScanEscaped(s, rest);
    assert (Quoted(s) + rest)[1..] == Escape(s) + ("\"" + rest);
  }

  /** What may follow a number without becoming a part of it. */
  predicate Ends(rest: string) {
    rest != "" ==> rest[0] in {',', ':', ' ', '\n', '\r', '\t', '{', '}', '[', ']'}
  }

  lemma {:induction false} DecimalDigits(n: nat)
    ensures Decimal(n) != "" && (forall i :: 0 <= i < |Decimal(n)| ==> IsDigit(Decimal(n)[i]))
    ensures ParseDecimal(Decimal(n)) == n
  {
    if n >= 10 {
      DecimalDigits(n / 10);
      var d := Decimal(n);
      assert d[..|d| - 1] == Decimal(n / 10);
    } else {
      assert Decimal(n)[..0] == "";
    }
  }

  lemma {:induction false} DigitsEnd(digits: string, rest: string)
    requires (forall i :: 0 <= i < |digits| ==> IsDigit(digits[i])) && Ends(rest)
    ensures NumberTail(digits + rest, false, false, false) == Number(|digits|, false)
    decreases |digits|
  {
    if digits == "" {
      assert digits + rest == rest;
    } else {
      assert (digits + rest)[1..] == digits[1..] + rest;
      DigitsEnd(digits[1..], rest);
    }
  }

  /** Integers of 64 bits survive; only negative ones come back as signed numbers. */
  lemma IntegerRoundTrip(i: int, rest: string, strtod: StrToD)
    requires 0 - INT64_LIMIT <= i < UINT64_LIMIT && Ends(rest)
    ensures ValueResult(Integral(i) + rest, strtod) == Success(|Integral(i)|, if i < 0 then Int(i) else UInt(i))
  {
    hide Decimal, ParseDecimal;
    var n: nat := if i < 0 then 0 - i else i;
    var digits, text := Decimal(n), Integral(i) + rest;
    DecimalDigits(n);
    DigitsEnd(digits, rest);
    assert IsDigit(digits[0]);
    if i < 0 {
      assert text[1..] == digits + rest;
      assert text[1..|digits| + 1] == digits;
    } else {
      assert text[0..|digits|] == digits;
    }
  }

  /** Characters below 32 by their codes: some have a letter, the others two hexadecimal digits. */
  lemma ControlCharacters(c: char)
    ensures c as int == 8 ==> EscapeChar(c) == "\\b"
    ensures c as int == 9 ==> EscapeChar(c) == "\\t"
    ensures c as int == 10 ==> EscapeChar(c) == "\\n"
    ensures c as int == 12 ==> EscapeChar(c) == "\\f"
    ensures c as int == 13 ==> EscapeChar(c) == "\\r"
    ensures c as int == 34 || c as int == 92 ==> EscapeChar(c) == ['\\', c]
    ensures c as int in {8, 9, 10, 12, 13, 34, 92} || c as int < 32 || EscapeChar(c) == [c]
    ensures c as int < 32 && c as int !in {8, 9, 10, 12, 13} ==>
              |EscapeChar(c)| == 6 && EscapeChar(c)[..4] == "\\u00"
  {
  }

  /** Only integers can be out of range, and then there is no value. */
  lemma OverflowIsInteger(input: string, strtod: StrToD)
    requires ValueResult(input, strtod).overflow
    ensures ValueResult(input, strtod).value == None
    ensures input != "" && CheckedNumber(input).length > 0 && !CheckedNumber(input).isDouble
    ensures (input[0] == '-' && ParseDecimal(Digits(input)) > 0x8000_0000_0000_0000)
            || (input[0] != '-' && ParseDecimal(Digits(input)) >= 0x1_0000_0000_0000_0000)
  {
    hide Match, ScanString, CheckedNumber, ParseDecimal, Digits;
  }

  /** Decimal numbers from 2^64 on, or below -2^63, are reported as out of range; all others have their value. */
  lemma NumberLimits(n: nat, rest: string, strtod: StrToD)
    requires Ends(rest)
    ensures ValueResult(Decimal(n) + rest, strtod)
            == if n < 0x1_0000_0000_0000_0000 then Success(|Decimal(n)|, UInt(n))
               else DecoderResult(|Decimal(n)|, None, true)
    ensures ValueResult("-" + Decimal(n) + rest, strtod)
            == if n <= 0x8000_0000_0000_0000 then Success(|Decimal(n)| + 1, Int(0 - n))
               else DecoderResult(|Decimal(n)| + 1, None, true)
  {
    hide Decimal, ParseDecimal;
    var digits, text := Decimal(n), Decimal(n) + rest;
    DecimalDigits(n);
    DigitsEnd(digits, rest);
    assert IsDigit(digits[0]);
    assert text[0..|digits|] == digits;
    var negative := "-" + digits + rest;
    assert negative[1..] == digits + rest && negative[1..|digits| + 1] == digits;
  }

  /** Hexadecimal digits in lower and in upper case. */
  lemma HexIff(c: char, n: nat)
    requires n < 16
    ensures Hex(c) == n <==> c == "0123456789abcdef"[n] || c == "0123456789ABCDEF"[n]
    ensures -1 <= Hex(c) < 16
  {
  }

  /** The literals that are floating-point numbers. */
  lemma FloatLiterals(rest: string, strtod: StrToD)
    ensures ValueResult("NaN" + rest, strtod) == Success(3, Double(NaN))
    ensures ValueResult("Infinity" + rest, strtod) == Success(8, Double(Infinity))
    ensures ValueResult("-Infinity" + rest, strtod) == Success(9, Double(NegativeInfinity))
  {
    MatchesItself("NaN", rest);
    MatchesItself("Infinity", rest);
    MatchesItself("-Infinity", rest);
  }

  lemma LiteralRoundTrip(rest: string, strtod: StrToD)
    ensures ValueResult("null" + rest, strtod) == Success(4, Null)
    ensures ValueResult("true" + rest, strtod) == Success(4, Bool(true))
    ensures ValueResult("false" + rest, strtod) == Success(5, Bool(false))
  {
    MatchesItself("null", rest);
    MatchesItself("true", rest);
    MatchesItself("false", rest);
  }

  lemma {:induction false} MatchesItself(literal: string, rest: string)
    ensures Match(literal + rest, literal) == Matched(|literal|, true)
    decreases |literal|
  {
    if literal != "" {
      assert (literal + rest)[1..] == literal[1..] + rest;
      MatchesItself(literal[1..], rest);
    }
  }
}
