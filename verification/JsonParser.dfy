/** The parser object of the source: it holds the text and advances a position.
    Every method is the parsing function on the text that is still unread. */
module JsonParser {
  import opened Bytes
  import opened Json

  /** The printer's escaping loop. */
  method JsonEscape(s: string) returns (out: string)
    ensures out == Escape(s)
  {
    out := [];
    for k := 0 to |s|
      invariant out + Escape(s[k..]) == Escape(s)
    {
      assert s[k..][0] == s[k] && s[k..][1..] == s[k + 1..];
      EscapeStep(out, s[k], Escape(s[k + 1..]));
      out := out + EscapeChar(s[k]);
    }
    assert s[|s|..] == [];
    assert out + [] == out;
  }

  lemma EscapeStep(out: string, c: char, rest: string)
    ensures out + (EscapeChar(c) + rest) == (out + EscapeChar(c)) + rest
  {
  }

  class Parser {
    const text: string
    var pos: nat

    constructor (text: string)
      ensures this.text == text && pos == 0
    {
      this.text := text;
      this.pos := 0;
    }

    ghost predicate Valid()
      reads this
    {
      pos <= |text|
    }

    /** The text not yet read. */
    function Rest(): string
      reads this
      requires Valid()
    {
      text[pos..]
    }

    method SkipSpace()
      requires Valid()
      modifies this
      ensures Valid() && Rest() == SkipWs(old(Rest())) && old(pos) <= pos
    {
      ghost var goal := SkipWs(Rest());
      while pos < |text| && IsSpace(text[pos])
        invariant Valid() && old(pos) <= pos && SkipWs(Rest()) == goal
      {
        assert Rest()[0] == text[pos] && Rest()[1..] == text[pos + 1..];
        pos := pos + 1;
      }
    }

    method PeekChar() returns (c: char)
      requires Valid()
      ensures c == Peek(Rest())
    {
      c := if pos < |text| then text[pos] else 0 as char;
    }

    method Get() returns (r: Result<char, JsonError>)
      requires Valid()
      modifies this
      ensures Valid() && old(pos) <= pos
      ensures old(Rest()) == [] ==> r == Err(UnexpectedEnd)
      ensures old(Rest()) != [] ==> r == Ok(old(Rest())[0]) && Rest() == old(Rest())[1..] && pos == old(pos) + 1
    {
      if pos >= |text| {
        return Err(UnexpectedEnd);
      }
      assert Rest()[0] == text[pos] && Rest()[1..] == text[pos + 1..];
      pos := pos + 1;
      return Ok(text[pos - 1]);
    }

    method ExpectChar(c: char) returns (r: Result<(), JsonError>)
      requires Valid()
      modifies this
      ensures Valid() && old(pos) <= pos
      ensures match Expect(old(Rest()), c)
              case Ok(rest) => r == Ok(()) && Rest() == rest && old(pos) < pos
              case Err(e) => r == Err(e)
    {
      var got := Get();
      if got.Err? {
        return Err(got.error);
      }
      if got.value != c {
        return Err(Expected(c));
      }
      return Ok(());
    }

    method ExpectText(literal: string) returns (r: Result<(), JsonError>)
      requires Valid()
      modifies this
      ensures Valid() && old(pos) <= pos
      ensures match ExpectLiteral(old(Rest()), literal)
              case Ok(rest) => r == Ok(()) && Rest() == rest
              case Err(e) => r == Err(e)
    {
      for k := 0 to |literal|
        invariant Valid() && old(pos) <= pos
        invariant ExpectLiteral(Rest(), literal[k..]) == ExpectLiteral(old(Rest()), literal)
      {
        assert literal[k..][0] == literal[k] && literal[k..][1..] == literal[k + 1..];
        var got := Get();
        if got.Err? {
          return Err(got.error);
        }
        if got.value != literal[k] {
          return Err(BadLiteral);
        }
      }
      return Ok(());
    }

    /** The four hexadecimal digits of an escape. */
    method ReadHex() returns (r: Result<nat, JsonError>)
      requires Valid()
      modifies this
      ensures Valid() && old(pos) <= pos
      ensures match HexCode(old(Rest()), 4, 0)
              case Ok((code, rest)) => r == Ok(code) && Rest() == rest
              case Err(e) => r == Err(e)
    {
      hide HexValue;
      var code: nat := 0;
      for i := 0 to 4
        invariant Valid() && old(pos) <= pos
        invariant HexCode(Rest(), 4 - i, code) == HexCode(old(Rest()), 4, 0)
      {
        var h := Get();
        if h.Err? {
          return Err(h.error);
        }
        var d := HexValue(h.value);
        if d.None? {
          return Err(BadEscape);
        }
        code := code * 16 + d.value;
      }
      return Ok(code);
    }

    method ReadEscape() returns (r: Result<char, JsonError>)
      requires Valid()
      modifies this
      ensures Valid() && old(pos) <= pos
      ensures match ParseEscape(old(Rest()))
              case Ok((c, rest)) => r == Ok(c) && Rest() == rest && old(pos) < pos
              case Err(e) => r == Err(e)
    {
      var esc := Get();
      if esc.Err? {
        return Err(esc.error);
      }
      var c := esc.value;
      if c == '"' || c == '\\' || c == '/' {
        return Ok(c);
      } else if c == 'b' {
        return Ok(BACKSPACE);
      } else if c == 'f' {
        return Ok(FORMFEED);
      } else if c == 'n' {
        return Ok('\n');
      } else if c == 'r' {
        return Ok('\r');
      } else if c == 't' {
        return Ok('\t');
      } else if c == 'u' {
        var code := ReadHex();
        if code.Err? {
          return Err(code.error);
        }
        if code.value <= 0x7F {
          return Ok(code.value as char);
        }
        return Err(UnicodeOutOfRange);
      }
      return Err(BadEscape);
    }

    method ReadString() returns (r: Result<string, JsonError>)
      requires Valid()
      modifies this
      ensures Valid() && old(pos) <= pos
      ensures match ParseString(old(Rest()))
              case Ok((s, rest)) => r == Ok(s) && Rest() == rest && old(pos) < pos
              case Err(e) => r == Err(e)
    {
      hide ParseEscape;
      var open := ExpectChar('"');
      if open.Err? {
        return Err(open.error);
      }
      var out := "";
      while true
        invariant Valid() && old(pos) < pos
        invariant ParseString(old(Rest())) == ParseChars(Rest(), out)
        decreases |text| - pos
      {
        var ch := Get();
        if ch.Err? {
          return Err(ch.error);
        }
        if ch.value == '"' {
          return Ok(out);
        }
        if ch.value == '\\' {
          var c := ReadEscape();
          if c.Err? {
            return Err(c.error);
          }
          out := out + [c.value];
        } else {
          out := out + [ch.value];
        }
      }
    }

    method ReadDigits() returns (digits: string)
      requires Valid()
      modifies this
      ensures Valid() && old(pos) <= pos
      ensures pos == old(pos) + DigitCount(old(Rest()))
      ensures digits == old(Rest())[..DigitCount(old(Rest()))] && Rest() == old(Rest())[DigitCount(old(Rest()))..]
    {
      var start := pos;
      ghost var n := DigitCount(Rest());
      while pos < |text| && IsDigit(text[pos])
        invariant Valid() && old(pos) <= pos
        invariant pos - old(pos) + DigitCount(Rest()) == n
      {
        assert Rest()[0] == text[pos] && Rest()[1..] == text[pos + 1..];
        pos := pos + 1;
      }
      digits := text[start..pos];
    }

    method ReadNumber() returns (r: Result<Value, JsonError>)
      requires Valid()
      modifies this
      ensures Valid() && old(pos) <= pos
      ensures match ParseNumber(old(Rest()))
              case Ok((v, rest)) => r == Ok(v) && Rest() == rest && old(pos) < pos
              case Err(e) => r == Err(e)
    {
      hide DigitCount, DigitsValue;
      ghost var s := Rest();
      var sign := PeekChar();
      if sign == '-' || sign == '+' {
        assert s != [] && s[1..] == text[pos + 1..];
        pos := pos + 1;
      }
      ghost var body := Rest();
      var digits := ReadDigits();
      var c := PeekChar();
      if c == '.' || c == 'e' || c == 'E' {
        return Err(FloatNotModelled);
      }
      if digits == [] {
        return Err(BadNumber);
      }
      DigitCountDigits(body);
      assert digits == body[..DigitCount(body)];
      var magnitude: nat := DigitsValue(digits);
      var value: int := if sign == '-' then -(magnitude as int) else magnitude;
      if Int64(value) {
        return Ok(Int(value));
      }
      return Err(NumberOutOfRange);
    }

    method ReadValue() returns (r: Result<Value, JsonError>)
      requires Valid()
      modifies this
      ensures Valid() && old(pos) <= pos
      ensures match ParseValue(old(Rest()))
              case Ok((v, rest)) => r == Ok(v) && Rest() == rest && old(pos) < pos
              case Err(e) => r == Err(e)
      decreases |text| - pos, 2
    {
      hide ParseObject, ParseArray, ParseString, ParseNumber, ExpectLiteral, SkipWs;
      SkipSpace();
      var c := PeekChar();
      if c == '{' {
        r := ReadObject();
      } else if c == '[' {
        r := ReadArray();
      } else if c == '"' {
        var s := ReadString();
        r := if s.Err? then Err(s.error) else Ok(Str(s.value));
      } else if c == 't' {
        var e := ExpectText("true");
        r := if e.Err? then Err(e.error) else Ok(Bool(true));
      } else if c == 'f' {
        var e := ExpectText("false");
        r := if e.Err? then Err(e.error) else Ok(Bool(false));
      } else if c == 'n' {
        var e := ExpectText("null");
        r := if e.Err? then Err(e.error) else Ok(Null);
      } else {
        r := ReadNumber();
      }
    }

    method ReadArray() returns (r: Result<Value, JsonError>)
      requires Valid()
      modifies this
      ensures Valid() && old(pos) <= pos
      ensures match ParseArray(old(Rest()))
              case Ok((v, rest)) => r == Ok(v) && Rest() == rest && old(pos) < pos
              case Err(e) => r == Err(e)
      decreases |text| - pos, 1
    {
      hide ParseValue, SkipWs, Expect;
      var open := ExpectChar('[');
      if open.Err? {
        return Err(open.error);
      }
      SkipSpace();
      var c := PeekChar();
      if c == ']' {
        assert Rest()[1..] == text[pos + 1..];
        pos := pos + 1;
        return Ok(Arr([]));
      }
      var items: seq<Value> := [];
      ghost var start := Rest();
      while true
        invariant Valid() && old(pos) < pos
        invariant ParseItems(Rest(), items) == ParseItems(start, [])
        decreases |text| - pos
      {
        var v := ReadValue();
        if v.Err? {
          return Err(v.error);
        }
        SkipSpace();
        var ch := Get();
        if ch.Err? {
          return Err(ch.error);
        }
        items := items + [v.value];
        if ch.value == ']' {
          break;
        }
        if ch.value != ',' {
          return Err(BadArray);
        }
        SkipSpace();
      }
      return Ok(Arr(items));
    }

    method ReadKey() returns (r: Result<string, JsonError>)
      requires Valid()
      modifies this
      ensures Valid() && old(pos) <= pos
      ensures match ParseKey(old(Rest()))
              case Ok((key, rest)) => r == Ok(key) && Rest() == rest && old(pos) < pos
              case Err(e) => r == Err(e)
    {
      hide ParseString, SkipWs, Expect;
      SkipSpace();
      var key := ReadString();
      if key.Err? {
        return key;
      }
      SkipSpace();
      var colon := ExpectChar(':');
      if colon.Err? {
        return Err(colon.error);
      }
      return key;
    }

    method ReadObject() returns (r: Result<Value, JsonError>)
      requires Valid()
      modifies this
      ensures Valid() && old(pos) <= pos
      ensures match ParseObject(old(Rest()))
              case Ok((v, rest)) => r == Ok(v) && Rest() == rest && old(pos) < pos
              case Err(e) => r == Err(e)
      decreases |text| - pos, 1
    {
      hide ParseValue, SkipWs, Expect, ParseKey, Insert;
      var open := ExpectChar('{');
      if open.Err? {
        return Err(open.error);
      }
      SkipSpace();
      var c := PeekChar();
      if c == '}' {
        assert Rest()[1..] == text[pos + 1..];
        pos := pos + 1;
        return Ok(Obj([]));
      }
      var fields: seq<Field> := [];
      ghost var start := Rest();
      while true
        invariant Valid() && old(pos) < pos
        invariant ParseFields(Rest(), fields) == ParseFields(start, [])
        decreases |text| - pos
      {
        var key := ReadKey();
        if key.Err? {
          return Err(key.error);
        }
        SkipSpace();
        var v := ReadValue();
        if v.Err? {
          return Err(v.error);
        }
        fields := Insert(fields, key.value, v.value);
        SkipSpace();
        var ch := Get();
        if ch.Err? {
          return Err(ch.error);
        }
        if ch.value == '}' {
          break;
        }
        if ch.value != ',' {
          return Err(BadObject);
        }
        SkipSpace();
      }
      return Ok(Obj(fields));
    }

    method Parse() returns (r: Result<Value, JsonError>)
      requires pos == 0
      modifies this
      ensures Valid() && r == ParseText(text)
    {
      hide ParseValue, SkipWs;
      assert Rest() == text;
      SkipSpace();
      r := ReadValue();
      if r.Ok? {
        SkipSpace();
        if pos != |text| {
          r := Err(TrailingText);
        }
      }
    }
  }
}
