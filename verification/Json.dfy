/** The JSON printer and parser that carry object files and images between the
    stages of the toolchain.  Parsers are functions from the remaining text to a
    value and the text after it. */
module Json {
  import opened Bytes

  datatype Field = Field(key: string, val: Value)

  /** An object is the association list a sorted map iterates over. */
  datatype Value =
    | Null
    | Bool(b: bool)
    | Int(i: int)
    | Str(s: string)
    | Arr(items: seq<Value>)
    | Obj(fields: seq<Field>)

  datatype JsonError =
    | UnexpectedEnd
    | Expected(c: char)
    | BadLiteral
    | BadEscape
    | UnicodeOutOfRange
    | BadNumber
    | NumberOutOfRange
    | FloatNotModelled
    | BadArray
    | BadObject
    | TrailingText

  const BACKSPACE: char := 8 as char
  const FORMFEED: char := 12 as char

  // ----- Well-formed values -----

  /** Byte-wise lexicographic order, the order of the map's keys. */
  predicate Less(a: string, b: string)
  {
    b != [] && (a == [] || a[0] < b[0] || (a[0] == b[0] && Less(a[1..], b[1..])))
  }

  predicate SortedKeys(fields: seq<Field>)
  {
    forall i, j :: 0 <= i < j < |fields| ==> Less(fields[i].key, fields[j].key)
  }

  predicate Int64(i: int)
  {
    -0x8000_0000_0000_0000 <= i < 0x8000_0000_0000_0000
  }

  /** 64-bit integers and strictly sorted keys, at every depth. */
  predicate WellFormed(v: Value)
  {
    match v
    case Int(i) => Int64(i)
    case Arr(items) => forall k :: 0 <= k < |items| ==> WellFormed(items[k])
    case Obj(fields) => SortedKeys(fields) && forall k :: 0 <= k < |fields| ==> WellFormed(fields[k].val)
    case _ => true
  }

  // ----- Printing -----

  function HexDigit(n: nat): char
    requires n < 16
  {
    if n < 10 then '0' + (n as char) else 'a' + ((n - 10) as char)
  }

  function EscapeChar(c: char): string
  {
    if c == '"' then "\\\""
    else if c == '\\' then "\\\\"
    else if c == BACKSPACE then "\\b"
    else if c == FORMFEED then "\\f"
    else if c == '\n' then "\\n"
    else if c == '\r' then "\\r"
    else if c == '\t' then "\\t"
    else if c < ' ' then "\\u00" + [HexDigit(c as int / 16), HexDigit(c as int % 16)]
    else [c]
  }

  function Escape(s: string): string
  {
    if s == [] then [] else EscapeChar(s[0]) + Escape(s[1..])
  }

  function Decimal(n: nat): string
  {
    if n < 10 then [HexDigit(n)] else Decimal(n / 10) + [HexDigit(n % 10)]
  }

  function DumpInt(i: int): string
  {
    if i < 0 then "-" + Decimal(-i) else Decimal(i)
  }

  function Indent(n: nat): (s: string)
    ensures |s| == n
  {
    seq(n, _ => ' ')
  }

  function Quoted(s: string): string
  {
    "\"" + (Escape(s) + "\"")
  }

  /** What follows an element: a comma unless it is the last one, and a line break. */
  function Separator(more: bool): string
  {
    if more then ",\n" else "\n"
  }

  function Dump(v: Value, depth: nat, step: nat): string
    decreases v, 0
  {
    match v
    case Null => "null"
    case Bool(b) => if b then "true" else "false"
    case Int(i) => DumpInt(i)
    case Str(s) => Quoted(s)
    case Arr(items) =>
      if items == [] then "[]" else "[" + ("\n" + (DumpItems(items, depth, step) + (Indent(depth) + "]")))
    case Obj(fields) =>
      if fields == [] then "{}" else "{" + ("\n" + (DumpFields(fields, depth, step) + (Indent(depth) + "}")))
  }

  function DumpItems(items: seq<Value>, depth: nat, step: nat): string
    decreases items
  {
    if items == [] then [] else
      Indent(depth + step) + (Dump(items[0], depth + step, step) +
      (Separator(|items| > 1) + DumpItems(items[1..], depth, step)))
  }

  function DumpFields(fields: seq<Field>, depth: nat, step: nat): string
    decreases fields
  {
    if fields == [] then [] else
      Indent(depth + step) + (Quoted(fields[0].key) + (": " + (Dump(fields[0].val, depth + step, step) +
      (Separator(|fields| > 1) + DumpFields(fields[1..], depth, step)))))
  }

  // ----- Parsing -----

  predicate IsSpace(c: char)
  {
    c == ' ' || ('\t' <= c <= '\r')
  }

  predicate IsDigit(c: char)
  {
    '0' <= c <= '9'
  }

  function SkipWs(s: string): (r: string)
    ensures |r| <= |s|
  {
    if s != [] && IsSpace(s[0]) then SkipWs(s[1..]) else s
  }

  /** The next character, or NUL at the end. */
  function Peek(s: string): char
  {
    if s == [] then 0 as char else s[0]
  }

  type Parsed<T> = Result<(T, string), JsonError>

  function Expect(s: string, c: char): (r: Result<string, JsonError>)
    ensures r.Ok? ==> |r.value| < |s|
  {
    if s == [] then Err(UnexpectedEnd) else if s[0] != c then Err(Expected(c)) else Ok(s[1..])
  }

  function ExpectLiteral(s: string, literal: string): (r: Result<string, JsonError>)
    ensures r.Ok? ==> |r.value| == |s| - |literal|
    decreases |literal|
  {
    if literal == [] then Ok(s)
    else if s == [] then Err(UnexpectedEnd)
    else if s[0] != literal[0] then Err(BadLiteral)
    else ExpectLiteral(s[1..], literal[1..])
  }

  function HexValue(c: char): Option<nat>
  {
    if '0' <= c <= '9' then Some(c as int - '0' as int)
    else if 'a' <= c <= 'f' then Some(10 + c as int - 'a' as int)
    else if 'A' <= c <= 'F' then Some(10 + c as int - 'A' as int)
    else None
  }

  function HexCode(s: string, n: nat, code: nat): (r: Parsed<nat>)
    ensures r.Ok? ==> |r.value.1| == |s| - n
    decreases n
  {
    if n == 0 then Ok((code, s))
    else if s == [] then Err(UnexpectedEnd)
    else match HexValue(s[0])
      case None => Err(BadEscape)
      case Some(d) => HexCode(s[1..], n - 1, code * 16 + d)
  }

  /** The character a backslash sequence stands for; `s` starts after the backslash. */
  function ParseEscape(s: string): (r: Parsed<char>)
    ensures r.Ok? ==> |r.value.1| < |s|
  {
    if s == [] then Err(UnexpectedEnd)
    else if s[0] == '"' || s[0] == '\\' || s[0] == '/' then Ok((s[0], s[1..]))
    else if s[0] == 'b' then Ok((BACKSPACE, s[1..]))
    else if s[0] == 'f' then Ok((FORMFEED, s[1..]))
    else if s[0] == 'n' then Ok(('\n', s[1..]))
    else if s[0] == 'r' then Ok(('\r', s[1..]))
    else if s[0] == 't' then Ok(('\t', s[1..]))
    else if s[0] == 'u' then
      match HexCode(s[1..], 4, 0)
      case Err(e) => Err(e)
      case Ok((code, rest)) => if code <= 0x7F then Ok((code as char, rest)) else Err(UnicodeOutOfRange)
    else Err(BadEscape)
  }

  /** The rest of a string literal, after `out` has been read. */
  function ParseChars(s: string, out: string): (r: Parsed<string>)
    ensures r.Ok? ==> |r.value.1| < |s|
    decreases |s|
  {
    if s == [] then Err(UnexpectedEnd)
    else if s[0] == '"' then Ok((out, s[1..]))
    else if s[0] == '\\' then
      match ParseEscape(s[1..])
      case Err(e) => Err(e)
      case Ok((c, rest)) => ParseChars(rest, out + [c])
    else ParseChars(s[1..], out + [s[0]])
  }

  function ParseString(s: string): (r: Parsed<string>)
    ensures r.Ok? ==> |r.value.1| < |s|
  {
    match Expect(s, '"')
    case Err(e) => Err(e)
    case Ok(rest) => ParseChars(rest, [])
  }

  /** How many leading characters are digits. */
  function DigitCount(s: string): (n: nat)
    ensures n <= |s|
  {
    if s != [] && IsDigit(s[0]) then 1 + DigitCount(s[1..]) else 0
  }

  function DigitsValue(s: string): nat
    requires forall k :: 0 <= k < |s| ==> IsDigit(s[k])
  {
    if s == [] then 0 else
      assert IsDigit(s[|s| - 1]);
      DigitsValue(s[..|s| - 1]) * 10 + (s[|s| - 1] as int - '0' as int)
  }

  lemma {:induction false} DigitCountDigits(s: string)
    ensures forall k :: 0 <= k < DigitCount(s) ==> IsDigit(s[k])
    ensures DigitCount(s) < |s| ==> !IsDigit(s[DigitCount(s)])
  {
    if s != [] && IsDigit(s[0]) {
      DigitCountDigits(s[1..]);
      forall k | 0 <= k < DigitCount(s) ensures IsDigit(s[k]) {
        assert k > 0 ==> s[k] == s[1..][k - 1];
      }
    }
  }

  /** A number token: an optional sign and digits.  A fraction or an exponent would make it a double. */
  function ParseNumber(s: string): (r: Parsed<Value>)
    ensures r.Ok? ==> |r.value.1| < |s|
  {
    var signed := Peek(s) == '-' || Peek(s) == '+';
    var body := if signed && s != [] then s[1..] else s;
    var n := DigitCount(body);
    var rest := body[n..];
    if Peek(rest) == '.' || Peek(rest) == 'e' || Peek(rest) == 'E' then Err(FloatNotModelled)
    else if n == 0 then Err(BadNumber)
    else
      DigitCountDigits(body);
      var magnitude := DigitsValue(body[..n]);
      var value: int := if Peek(s) == '-' then -(magnitude as int) else magnitude;
      if Int64(value) then Ok((Int(value), rest)) else Err(NumberOutOfRange)
  }

  /** Insertion into the sorted map; an existing key keeps its value. */
  function Insert(fields: seq<Field>, key: string, val: Value): seq<Field>
  {
    if fields == [] then [Field(key, val)]
    else if key == fields[0].key then fields
    else if Less(key, fields[0].key) then [Field(key, val)] + fields
    else [fields[0]] + Insert(fields[1..], key, val)
  }

  function ParseValue(s: string): (r: Parsed<Value>)
    ensures r.Ok? ==> |r.value.1| < |s|
    decreases |s|, 2
  {
    var s := SkipWs(s);
    var c := Peek(s);
    if c == '{' then ParseObject(s)
    else if c == '[' then ParseArray(s)
    else if c == '"' then
      match ParseString(s)
      case Err(e) => Err(e)
      case Ok((text, rest)) => Ok((Str(text), rest))
    else if c == 't' then
      match ExpectLiteral(s, "true")
      case Err(e) => Err(e)
      case Ok(rest) => Ok((Bool(true), rest))
    else if c == 'f' then
      match ExpectLiteral(s, "false")
      case Err(e) => Err(e)
      case Ok(rest) => Ok((Bool(false), rest))
    else if c == 'n' then
      match ExpectLiteral(s, "null")
      case Err(e) => Err(e)
      case Ok(rest) => Ok((Null, rest))
    else ParseNumber(s)
  }

  function ParseArray(s: string): (r: Parsed<Value>)
    ensures r.Ok? ==> |r.value.1| < |s|
    decreases |s|, 1
  {
    match Expect(s, '[')
    case Err(e) => Err(e)
    case Ok(rest) =>
      var rest := SkipWs(rest);
      if Peek(rest) == ']' then Ok((Arr([]), rest[1..])) else
        match ParseItems(rest, [])
        case Err(e) => Err(e)
        case Ok((items, rest)) => Ok((Arr(items), rest))
  }

  /** The elements still to come, after `items` have been read. */
  function ParseItems(s: string, items: seq<Value>): (r: Parsed<seq<Value>>)
    ensures r.Ok? ==> |r.value.1| < |s|
    decreases |s|, 3
  {
    match ParseValue(s)
    case Err(e) => Err(e)
    case Ok((v, rest)) =>
      var rest := SkipWs(rest);
      if rest == [] then Err(UnexpectedEnd)
      else if rest[0] == ']' then Ok((items + [v], rest[1..]))
      else if rest[0] != ',' then Err(BadArray)
      else ParseItems(SkipWs(rest[1..]), items + [v])
  }

  function ParseObject(s: string): (r: Parsed<Value>)
    ensures r.Ok? ==> |r.value.1| < |s|
    decreases |s|, 1
  {
    match Expect(s, '{')
    case Err(e) => Err(e)
    case Ok(rest) =>
      var rest := SkipWs(rest);
      if Peek(rest) == '}' then Ok((Obj([]), rest[1..])) else
        match ParseFields(rest, [])
        case Err(e) => Err(e)
        case Ok((fields, rest)) => Ok((Obj(fields), rest))
  }

  /** A key and its colon. */
  function ParseKey(s: string): (r: Parsed<string>)
    ensures r.Ok? ==> |r.value.1| < |s|
  {
    match ParseString(SkipWs(s))
    case Err(e) => Err(e)
    case Ok((key, rest)) =>
      match Expect(SkipWs(rest), ':')
      case Err(e) => Err(e)
      case Ok(rest) => Ok((key, rest))
  }

  function ParseFields(s: string, fields: seq<Field>): (r: Parsed<seq<Field>>)
    ensures r.Ok? ==> |r.value.1| < |s|
    decreases |s|, 3
  {
    match ParseKey(s)
    case Err(e) => Err(e)
    case Ok((key, rest)) =>
      match ParseValue(SkipWs(rest))
      case Err(e) => Err(e)
      case Ok((v, rest)) =>
        var rest := SkipWs(rest);
        if rest == [] then Err(UnexpectedEnd)
        else if rest[0] == '}' then Ok((Insert(fields, key, v), rest[1..]))
        else if rest[0] != ',' then Err(BadObject)
        else ParseFields(SkipWs(rest[1..]), Insert(fields, key, v))
  }

  function ParseText(s: string): Result<Value, JsonError>
  {
    match ParseValue(SkipWs(s))
    case Err(e) => Err(e)
    case Ok((v, rest)) => if SkipWs(rest) == [] then Ok(v) else Err(TrailingText)
  }
}
