/** Parsing a printed value gives the value back, at every indentation. */
module JsonRoundTrip {
  import opened Bytes
  import opened Json

  // ----- White space -----

  lemma {:induction false} SkipIndent(n: nat, rest: string)
    ensures SkipWs(Indent(n) + rest) == SkipWs(rest)
  {
    if n == 0 {
      assert Indent(0) + rest == rest;
    } else {
      assert (Indent(n) + rest)[1..] == Indent(n - 1) + rest;
      SkipIndent(n - 1, rest);
    }
  }

  lemma SkipSpace(c: char, rest: string)
    requires IsSpace(c)
    ensures SkipWs([c] + rest) == SkipWs(rest)
  {
    assert ([c] + rest)[1..] == rest;
  }

  lemma SkipNone(s: string)
    requires s != [] && !IsSpace(s[0])
    ensures SkipWs(s) == s
  {
  }

  lemma {:induction false} SkipTwice(s: string)
    ensures SkipWs(SkipWs(s)) == SkipWs(s)
  {
    if s != [] && IsSpace(s[0]) {
      SkipTwice(s[1..]);
    }
  }

  // ----- Strings -----

  lemma EscapedChar(c: char, rest: string, out: string)
    ensures ParseChars(EscapeChar(c) + rest, out) == ParseChars(rest, out + [c])
  {
    var text := EscapeChar(c) + rest;
    if |EscapeChar(c)| == 1 {
      assert text[1..] == rest;
    } else if |EscapeChar(c)| == 2 {
      assert text[1..][1..] == rest;
    } else {
      ControlChar(c, rest);
      assert text[1..] == "u00" + [HexDigit(c as int / 16), HexDigit(c as int % 16)] + rest;
    }
  }

  lemma HexRoundTrip(n: nat)
    requires n < 16
    ensures HexValue(HexDigit(n)) == Some(n)
  {
  }

  lemma HexStep(n: nat, rest: string, left: nat, code: nat)
    requires n < 16 && left > 0
    ensures HexCode([HexDigit(n)] + rest, left, code) == HexCode(rest, left - 1, code * 16 + n)
  {
    HexRoundTrip(n);
    assert ([HexDigit(n)] + rest)[1..] == rest;
  }

  lemma ControlChar(c: char, rest: string)
    requires c < ' '
    ensures ParseEscape("u00" + [HexDigit(c as int / 16), HexDigit(c as int % 16)] + rest) == Ok((c, rest))
  {
    hide HexDigit, HexCode;
    var h, l := c as int / 16, c as int % 16;
    var s3 := [HexDigit(l)] + rest;
    var s2 := [HexDigit(h)] + s3;
    ZeroDigit();
    var s1 := [HexDigit(0)] + s2;
    var s0 := [HexDigit(0)] + s1;
    HexStep(0, s1, 4, 0);
    HexStep(0, s2, 3, 0);
    HexStep(h, s3, 2, 0);
    HexStep(l, rest, 1, h);
    HexDone(rest, c as int);
    var text := "u00" + [HexDigit(h), HexDigit(l)] + rest;
    assert text[1..] == s0;
  }

  lemma ZeroDigit()
    ensures HexDigit(0) == '0'
  {
  }

  lemma HexDone(rest: string, code: nat)
    ensures HexCode(rest, 0, code) == Ok((code, rest))
  {
  }

  lemma EndOfString(rest: string, out: string)
    ensures ParseChars(Escape([]) + ("\"" + rest), out) == Ok((out, rest))
  {
    assert Escape([]) + ("\"" + rest) == "\"" + rest;
    assert ("\"" + rest)[1..] == rest;
  }

  lemma EscapeFirst(s: string, tail: string)
    requires s != []
    ensures Escape(s) + tail == EscapeChar(s[0]) + (Escape(s[1..]) + tail)
  {
    hide EscapeChar;
    Associative(EscapeChar(s[0]), Escape(s[1..]), tail);
  }

  lemma {:induction false} EscapedString(s: string, rest: string, out: string)
    ensures ParseChars(Escape(s) + ("\"" + rest), out) == Ok((out + s, rest))
    decreases |s|
  {
    hide Escape, EscapeChar, ParseChars;
    if s == [] {
      EndOfString(rest, out);
      assert out + s == out;
    } else {
      EscapeFirst(s, "\"" + rest);
      EscapedChar(s[0], Escape(s[1..]) + ("\"" + rest), out);
      EscapedString(s[1..], rest, out + [s[0]]);
      assert out + [s[0]] + s[1..] == out + s;
    }
  }

  lemma QuotedString(s: string, rest: string)
    ensures ParseString(Quoted(s) + rest) == Ok((s, rest))
  {
    var text := Quoted(s) + rest;
    assert text[1..] == Escape(s) + ("\"" + rest);
    EscapedString(s, rest, []);
    assert [] + s == s;
  }

  // ----- Numbers -----

  /** A text that does not continue a number. */
  predicate Delimited(rest: string)
  {
    rest == [] || (!IsDigit(rest[0]) && rest[0] != '.' && rest[0] != 'e' && rest[0] != 'E')
  }

  predicate AllDigits(s: string)
  {
    forall k :: 0 <= k < |s| ==> IsDigit(s[k])
  }

  lemma {:induction false} DecimalDigits(n: nat)
    ensures Decimal(n) != [] && AllDigits(Decimal(n)) && DigitsValue(Decimal(n)) == n
  {
    if n >= 10 {
      DecimalDigits(n / 10);
      var d := Decimal(n);
      assert d[..|d| - 1] == Decimal(n / 10);
    } else {
      var d := Decimal(n);
      assert d[..|d| - 1] == [];
      assert DigitsValue([]) == 0;
    }
  }

  lemma {:induction false} CountDigits(s: string, rest: string)
    requires AllDigits(s) && (rest == [] || !IsDigit(rest[0]))
    ensures DigitCount(s + rest) == |s|
  {
    if s == [] {
      assert s + rest == rest;
    } else {
      assert (s + rest)[1..] == s[1..] + rest;
      CountDigits(s[1..], rest);
    }
  }

  lemma FirstDigit(s: string)
    requires s != [] && AllDigits(s)
    ensures IsDigit(s[0])
  {
  }

  lemma IntRoundTrip(i: int, rest: string)
    requires Int64(i) && Delimited(rest)
    ensures ParseNumber(DumpInt(i) + rest) == Ok((Int(i), rest))
  {
    hide Decimal, DigitsValue, DigitCount, AllDigits, Int64;
    var text := DumpInt(i) + rest;
    var digits := Decimal(if i < 0 then -i else i);
    DecimalDigits(if i < 0 then -i else i);
    CountDigits(digits, rest);
    FirstDigit(digits);
    var body := digits + rest;
    if i < 0 {
      assert text[1..] == body;
    } else {
      assert text == body;
    }
    assert body[..|digits|] == digits && body[|digits|..] == rest;
  }

  // ----- First characters -----

  /** The characters a printed value can start with. */
  predicate StartsValue(c: char)
  {
    c == '{' || c == '[' || c == '"' || c == 't' || c == 'f' || c == 'n' || c == '-' || IsDigit(c)
  }

  lemma DumpStart(v: Value, depth: nat, step: nat)
    ensures Dump(v, depth, step) != [] && StartsValue(Dump(v, depth, step)[0])
  {
    hide DumpItems, DumpFields, Indent;
    if v.Int? {
      DecimalDigits(if v.i < 0 then -v.i else v.i);
      assert IsDigit(Decimal(if v.i < 0 then -v.i else v.i)[0]);
    }
  }

  lemma DumpSkips(v: Value, depth: nat, step: nat, rest: string)
    ensures SkipWs(Dump(v, depth, step) + rest) == Dump(v, depth, step) + rest
  {
    hide Dump;
    DumpStart(v, depth, step);
    SkipNone(Dump(v, depth, step) + rest);
  }

  lemma Literal(s: string, rest: string)
    ensures ExpectLiteral(s + rest, s) == Ok(rest)
  {
    if s == [] {
      assert s + rest == rest;
    } else {
      assert (s + rest)[1..] == s[1..] + rest;
      Literal(s[1..], rest);
    }
  }

  lemma SeparatorDelimits(more: bool, rest: string)
    ensures Delimited(Separator(more) + rest)
  {
  }

  lemma SeparatorSkips(more: bool, rest: string)
    ensures SkipWs(Separator(more) + rest) == if more then "," + ("\n" + rest) else SkipWs(rest)
  {
    if more {
      assert Separator(more) + rest == "," + ("\n" + rest);
      SkipNone("," + ("\n" + rest));
    } else {
      SkipSpace('\n', rest);
    }
  }

  // ----- Sorted insertion -----

  lemma {:induction false} LessIrreflexive(a: string)
    ensures !Less(a, a)
  {
    if a != [] {
      LessIrreflexive(a[1..]);
    }
  }

  lemma {:induction false} LessTransitive(a: string, b: string, c: string)
    requires Less(a, b) && Less(b, c)
    ensures Less(a, c)
    decreases |a|
  {
    if a != [] && a[0] == b[0] == c[0] {
      LessTransitive(a[1..], b[1..], c[1..]);
    }
  }

  lemma {:induction false} LessTotal(a: string, b: string)
    ensures a == b || Less(a, b) || Less(b, a)
  {
    if a != [] && b != [] && a[0] == b[0] {
      LessTotal(a[1..], b[1..]);
      assert a == [a[0]] + a[1..] && b == [b[0]] + b[1..];
    }
  }

  lemma LessAsymmetric(a: string, b: string)
    requires Less(a, b)
    ensures !Less(b, a) && a != b
  {
    LessIrreflexive(a);
    if Less(b, a) {
      LessTransitive(a, b, a);
    }
  }

  /** A key above all present ones goes last. */
  lemma {:induction false} InsertLast(fields: seq<Field>, key: string, val: Value)
    requires forall k :: 0 <= k < |fields| ==> Less(fields[k].key, key)
    ensures Insert(fields, key, val) == fields + [Field(key, val)]
  {
    if fields != [] {
      LessAsymmetric(fields[0].key, key);
      InsertLast(fields[1..], key, val);
    }
  }

  lemma InsertNext(fields: seq<Field>, k: nat)
    requires SortedKeys(fields) && k < |fields|
    ensures Insert(fields[..k], fields[k].key, fields[k].val) == fields[..k + 1]
  {
    InsertLast(fields[..k], fields[k].key, fields[k].val);
  }

  // ----- Values -----

  /** The text of an array's or object's end at a depth. */
  function Closing(depth: nat, c: char, rest: string): string
  {
    Indent(depth) + ([c] + rest)
  }

  lemma ClosingSkips(depth: nat, c: char, rest: string)
    requires !IsSpace(c)
    ensures SkipWs(Closing(depth, c, rest)) == [c] + rest
  {
    SkipIndent(depth, [c] + rest);
    SkipNone([c] + rest);
  }

  /** Main lemma: a printed value parses back to itself and leaves the following text. */
  lemma {:induction false} DumpParses(v: Value, depth: nat, step: nat, rest: string)
    requires WellFormed(v) && Delimited(rest)
    ensures ParseValue(Dump(v, depth, step) + rest) == Ok((v, rest))
    decreases v, 2
  {
    DumpSkips(v, depth, step, rest);
    match v {
      case Null => Literal("null", rest);
      case Bool(b) => Literal(if b then "true" else "false", rest);
      case Int(i) =>
        hide Decimal, ParseNumber;
        DumpStart(v, depth, step);
        IntStart(i);
        IntRoundTrip(i, rest);
      case Str(s) => QuotedString(s, rest);
      case Arr(items) => ArrayParses(items, depth, step, rest);
      case Obj(fields) => ObjectParses(fields, depth, step, rest);
    }
  }

  lemma IntStart(i: int)
    ensures DumpInt(i) != [] && (IsDigit(DumpInt(i)[0]) || DumpInt(i)[0] == '-')
  {
    DecimalDigits(if i < 0 then -i else i);
    assert IsDigit(Decimal(if i < 0 then -i else i)[0]);
  }

  lemma {:induction false} ArrayParses(items: seq<Value>, depth: nat, step: nat, rest: string)
    requires forall k :: 0 <= k < |items| ==> WellFormed(items[k])
    ensures ParseArray(Dump(Arr(items), depth, step) + rest) == Ok((Arr(items), rest))
    decreases items, 2
  {
    hide DumpItems, ParseItems, Closing;
    var text := Dump(Arr(items), depth, step) + rest;
    if items == [] {
      assert text[1..] == "]" + rest;
      SkipNone("]" + rest);
      assert ("]" + rest)[1..] == rest;
    } else {
      var inner := DumpItems(items, depth, step) + Closing(depth, ']', rest);
      ArrayText(items, depth, step, rest);
      assert text[1..] == "\n" + inner;
      SkipSpace('\n', inner);
      ItemsStart(items, depth, step, Closing(depth, ']', rest));
      assert items[..0] == [];
      ItemsParse(items, 0, depth, step, rest);
      assert items[0..] == items;
    }
  }

  lemma ArrayText(items: seq<Value>, depth: nat, step: nat, rest: string)
    requires items != []
    ensures Dump(Arr(items), depth, step) + rest
         == "[" + ("\n" + (DumpItems(items, depth, step) + Closing(depth, ']', rest)))
  {
    hide DumpItems;
  }

  lemma ObjectText(fields: seq<Field>, depth: nat, step: nat, rest: string)
    requires fields != []
    ensures Dump(Obj(fields), depth, step) + rest
         == "{" + ("\n" + (DumpFields(fields, depth, step) + Closing(depth, '}', rest)))
  {
    hide DumpFields;
  }

  lemma ItemText(items: seq<Value>, depth: nat, step: nat, tail: string)
    requires items != []
    ensures DumpItems(items, depth, step) + tail
         == Indent(depth + step) + (Dump(items[0], depth + step, step)
            + (Separator(|items| > 1) + (DumpItems(items[1..], depth, step) + tail)))
  {
    hide Dump, Indent, Separator;
    Regroup(Indent(depth + step), Dump(items[0], depth + step, step), Separator(|items| > 1),
            DumpItems(items[1..], depth, step), tail);
  }

  lemma Regroup(a: string, b: string, c: string, d: string, e: string)
    ensures (a + (b + (c + d))) + e == a + (b + (c + (d + e)))
  {
  }

  lemma FieldText(fields: seq<Field>, depth: nat, step: nat, tail: string)
    requires fields != []
    ensures DumpFields(fields, depth, step) + tail
         == Indent(depth + step) + (Quoted(fields[0].key) + (": " + (Dump(fields[0].val, depth + step, step)
            + (Separator(|fields| > 1) + (DumpFields(fields[1..], depth, step) + tail)))))
  {
    hide Dump, Indent, Separator, Quoted;
    var v, sep, more := Dump(fields[0].val, depth + step, step), Separator(|fields| > 1),
                        DumpFields(fields[1..], depth, step);
    Regroup(Indent(depth + step), Quoted(fields[0].key), ": ", v + (sep + more), tail);
    Regroup([], v, sep, more, tail);
    assert [] + (v + (sep + more)) == v + (sep + more);
    assert [] + (v + (sep + (more + tail))) == v + (sep + (more + tail));
  }

  /** After the white space an element's text starts with the value, so it is not an end bracket. */
  lemma ItemsStart(items: seq<Value>, depth: nat, step: nat, tail: string)
    requires items != []
    ensures Peek(SkipWs(DumpItems(items, depth, step) + tail)) != ']'
  {
    hide Dump, Separator, DumpItems;
    ItemReached(items, depth, step, tail);
    DumpStart(items[0], depth + step, step);
  }

  lemma ItemThenMore(text: string, v: Value, tail: string, acc: seq<Value>)
    requires ParseValue(text + (Separator(true) + tail)) == Ok((v, Separator(true) + tail))
    ensures ParseItems(text + (Separator(true) + tail), acc) == ParseItems(SkipWs(tail), acc + [v])
  {
    hide ParseValue, Separator;
    SeparatorSkips(true, tail);
    assert ("," + ("\n" + tail))[1..] == "\n" + tail;
    SkipSpace('\n', tail);
  }

  lemma ItemThenEnd(text: string, v: Value, depth: nat, rest: string, acc: seq<Value>)
    requires var after := Separator(false) + Closing(depth, ']', rest); ParseValue(text + after) == Ok((v, after))
    ensures ParseItems(text + (Separator(false) + Closing(depth, ']', rest)), acc) == Ok((acc + [v], rest))
  {
    hide ParseValue, Separator, Closing;
    SeparatorSkips(false, Closing(depth, ']', rest));
    ClosingSkips(depth, ']', rest);
    assert ("]" + rest)[1..] == rest;
  }

  /** The first element's text, after the white space before it. */
  lemma ItemReached(items: seq<Value>, depth: nat, step: nat, tail: string)
    requires items != []
    ensures SkipWs(DumpItems(items, depth, step) + tail)
         == Dump(items[0], depth + step, step) + (Separator(|items| > 1) + (DumpItems(items[1..], depth, step) + tail))
  {
    hide Dump, Separator, DumpItems, Indent;
    var after := Separator(|items| > 1) + (DumpItems(items[1..], depth, step) + tail);
    ItemText(items, depth, step, tail);
    SkipIndent(depth + step, Dump(items[0], depth + step, step) + after);
    DumpSkips(items[0], depth + step, step, after);
  }

  /** The elements from `k` on parse back, whatever was read before. */
  lemma {:induction false} ItemsParse(items: seq<Value>, k: nat, depth: nat, step: nat, rest: string)
    requires k < |items| && forall j :: 0 <= j < |items| ==> WellFormed(items[j])
    ensures ParseItems(SkipWs(DumpItems(items[k..], depth, step) + Closing(depth, ']', rest)), items[..k])
         == Ok((items, rest))
    decreases items, 1, |items| - k
  {
    hide Dump, Separator, DumpItems, ParseValue, Closing, WellFormed, ParseItems, Delimited, SkipWs;
    var end := Closing(depth, ']', rest);
    var tail := DumpItems(items[k + 1..], depth, step) + end;
    var text := Dump(items[k], depth + step, step);
    assert items[k..][0] == items[k] && items[k..][1..] == items[k + 1..];
    ItemReached(items[k..], depth, step, end);
    assert items[..k] + [items[k]] == items[..k + 1];
    if k + 1 < |items| {
      SeparatorDelimits(true, tail);
      DumpParses(items[k], depth + step, step, Separator(true) + tail);
      ItemThenMore(text, items[k], tail, items[..k]);
      ItemsParse(items, k + 1, depth, step, rest);
    } else {
      assert items[k + 1..] == [];
      NoMoreItems(depth, step, end);
      SeparatorDelimits(false, end);
      DumpParses(items[k], depth + step, step, Separator(false) + end);
      ItemThenEnd(text, items[k], depth, rest, items[..k]);
      assert items[..k + 1] == items;
    }
  }

  lemma NoMoreItems(depth: nat, step: nat, tail: string)
    ensures DumpItems([], depth, step) + tail == tail
    ensures DumpFields([], depth, step) + tail == tail
  {
  }

  lemma {:induction false} ObjectParses(fields: seq<Field>, depth: nat, step: nat, rest: string)
    requires SortedKeys(fields) && forall k :: 0 <= k < |fields| ==> WellFormed(fields[k].val)
    ensures ParseObject(Dump(Obj(fields), depth, step) + rest) == Ok((Obj(fields), rest))
    decreases fields, 2
  {
    hide DumpFields, ParseFields, Closing;
    var text := Dump(Obj(fields), depth, step) + rest;
    if fields == [] {
      assert text[1..] == "}" + rest;
      SkipNone("}" + rest);
      assert ("}" + rest)[1..] == rest;
    } else {
      var inner := DumpFields(fields, depth, step) + Closing(depth, '}', rest);
      ObjectText(fields, depth, step, rest);
      assert text[1..] == "\n" + inner;
      SkipSpace('\n', inner);
      FieldsStart(fields, depth, step, Closing(depth, '}', rest));
      assert fields[..0] == [];
      FieldsParse(fields, 0, depth, step, rest);
      assert fields[0..] == fields;
    }
  }

  lemma QuotedSkips(s: string, rest: string)
    ensures SkipWs(Quoted(s) + rest) == Quoted(s) + rest
    ensures Peek(Quoted(s) + rest) == '"'
  {
    SkipNone(Quoted(s) + rest);
  }

  lemma FieldsStart(fields: seq<Field>, depth: nat, step: nat, tail: string)
    requires fields != []
    ensures Peek(SkipWs(DumpFields(fields, depth, step) + tail)) != '}'
  {
    hide Dump, Separator, DumpFields, Quoted;
    FieldReached(fields, depth, step, tail);
    QuotedSkips(fields[0].key, ": " + (Dump(fields[0].val, depth + step, step)
                + (Separator(|fields| > 1) + (DumpFields(fields[1..], depth, step) + tail))));
  }

  lemma KeyParses(key: string, rest: string)
    ensures ParseKey(Quoted(key) + (": " + rest)) == Ok((key, " " + rest))
  {
    hide Quoted;
    QuotedSkips(key, ": " + rest);
    QuotedString(key, ": " + rest);
    SkipNone(": " + rest);
    assert (": " + rest)[1..] == " " + rest;
  }

  lemma FieldThenMore(key: string, text: string, v: Value, tail: string, acc: seq<Field>)
    requires ParseValue(SkipWs(" " + (text + (Separator(true) + tail)))) == Ok((v, Separator(true) + tail))
    ensures ParseFields(Quoted(key) + (": " + (text + (Separator(true) + tail))), acc)
         == ParseFields(SkipWs(tail), Insert(acc, key, v))
  {
    hide ParseValue, Separator, ParseKey, Insert, Quoted;
    KeyParses(key, text + (Separator(true) + tail));
    SeparatorSkips(true, tail);
    assert ("," + ("\n" + tail))[1..] == "\n" + tail;
    SkipSpace('\n', tail);
  }

  lemma FieldThenEnd(key: string, text: string, v: Value, depth: nat, rest: string, acc: seq<Field>)
    requires var after := Separator(false) + Closing(depth, '}', rest);
      ParseValue(SkipWs(" " + (text + after))) == Ok((v, after))
    ensures ParseFields(Quoted(key) + (": " + (text + (Separator(false) + Closing(depth, '}', rest)))), acc)
         == Ok((Insert(acc, key, v), rest))
  {
    hide ParseValue, Separator, Closing, ParseKey, Insert, Quoted;
    KeyParses(key, text + (Separator(false) + Closing(depth, '}', rest)));
    SeparatorSkips(false, Closing(depth, '}', rest));
    ClosingSkips(depth, '}', rest);
    assert ("}" + rest)[1..] == rest;
  }

  lemma FieldReached(fields: seq<Field>, depth: nat, step: nat, tail: string)
    requires fields != []
    ensures SkipWs(DumpFields(fields, depth, step) + tail)
         == Quoted(fields[0].key) + (": " + (Dump(fields[0].val, depth + step, step)
            + (Separator(|fields| > 1) + (DumpFields(fields[1..], depth, step) + tail))))
  {
    hide Dump, Separator, DumpFields, Indent, Quoted;
    var after := ": " + (Dump(fields[0].val, depth + step, step)
                 + (Separator(|fields| > 1) + (DumpFields(fields[1..], depth, step) + tail)));
    FieldText(fields, depth, step, tail);
    SkipIndent(depth + step, Quoted(fields[0].key) + after);
    QuotedSkips(fields[0].key, after);
  }

  lemma {:induction false} ValueAfterSpace(v: Value, depth: nat, step: nat, after: string)
    requires ParseValue(Dump(v, depth, step) + after) == Ok((v, after))
    ensures ParseValue(SkipWs(" " + (Dump(v, depth, step) + after))) == Ok((v, after))
  {
    hide ParseValue, Dump;
    SkipSpace(' ', Dump(v, depth, step) + after);
    DumpSkips(v, depth, step, after);
  }

  /** The fields from `k` on parse back and go to the end of the map. */
  lemma {:induction false} FieldsParse(fields: seq<Field>, k: nat, depth: nat, step: nat, rest: string)
    requires k < |fields| && SortedKeys(fields) && forall j :: 0 <= j < |fields| ==> WellFormed(fields[j].val)
    ensures ParseFields(SkipWs(DumpFields(fields[k..], depth, step) + Closing(depth, '}', rest)), fields[..k])
         == Ok((fields, rest))
    decreases fields, 1, |fields| - k
  {
    hide Dump, Separator, DumpFields, ParseValue, Closing, WellFormed, ParseFields, Delimited, SkipWs, Quoted, Insert,
         SortedKeys;
    var end := Closing(depth, '}', rest);
    var tail := DumpFields(fields[k + 1..], depth, step) + end;
    var key, val := fields[k].key, fields[k].val;
    var text := Dump(val, depth + step, step);
    assert fields[k..][0] == fields[k] && fields[k..][1..] == fields[k + 1..];
    FieldReached(fields[k..], depth, step, end);
    InsertNext(fields, k);
    assert fields[k] in fields;
    if k + 1 < |fields| {
      SeparatorDelimits(true, tail);
      DumpParses(val, depth + step, step, Separator(true) + tail);
      ValueAfterSpace(val, depth + step, step, Separator(true) + tail);
      FieldThenMore(key, text, val, tail, fields[..k]);
      FieldsParse(fields, k + 1, depth, step, rest);
    } else {
      assert fields[k + 1..] == [];
      NoMoreItems(depth, step, end);
      SeparatorDelimits(false, end);
      DumpParses(val, depth + step, step, Separator(false) + end);
      ValueAfterSpace(val, depth + step, step, Separator(false) + end);
      FieldThenEnd(key, text, val, depth, rest, fields[..k]);
      assert fields[..k + 1] == fields;
    }
  }

  /** The JSON round trip: parsing what was printed gives back every well-formed value of any nesting,
      at any starting depth and indentation step. */
  lemma JsonRoundTrips(v: Value, depth: nat, step: nat)
    requires WellFormed(v)
    ensures ParseText(Dump(v, depth, step)) == Ok(v)
  {
    hide Dump, WellFormed, ParseValue;
    DumpSkips(v, depth, step, []);
    assert Dump(v, depth, step) + [] == Dump(v, depth, step);
    DumpParses(v, depth, step, []);
  }

  /** Printing loses nothing, even across different indentations. */
  lemma DumpInjective(v: Value, depth: nat, step: nat, w: Value, depth': nat, step': nat)
    requires WellFormed(v) && WellFormed(w) && Dump(v, depth, step) == Dump(w, depth', step')
    ensures v == w
  {
    JsonRoundTrips(v, depth, step);
    JsonRoundTrips(w, depth', step');
  }

  // ----- What the parser can return -----

  predicate WellFormedFields(fields: seq<Field>)
  {
    SortedKeys(fields) && forall k :: 0 <= k < |fields| ==> WellFormed(fields[k].val)
  }

  /** Insertion adds at most the new key. */
  lemma {:induction false} InsertMember(fields: seq<Field>, key: string, val: Value, k: nat)
    requires k < |Insert(fields, key, val)|
    ensures Insert(fields, key, val)[k] in fields || Insert(fields, key, val)[k] == Field(key, val)
  {
    if fields != [] && key != fields[0].key && !Less(key, fields[0].key) && k > 0 {
      InsertMember(fields[1..], key, val, k - 1);
    }
  }

  /** The value of a key, if the object has it. */
  function Get(fields: seq<Field>, key: string): Option<Value>
  {
    if fields == [] then None else if fields[0].key == key then Some(fields[0].val) else Get(fields[1..], key)
  }

  lemma {:induction false} NotBefore(fields: seq<Field>, key: string)
    requires forall i :: 0 <= i < |fields| ==> Less(key, fields[i].key)
    ensures Get(fields, key) == None
  {
    hide Less;
    if fields != [] {
      LessIrreflexive(key);
      NotBefore(fields[1..], key);
    }
  }

  /** A key that is there keeps its value, a new one gets the given value, every other key is as it was. */
  lemma {:induction false} InsertGets(fields: seq<Field>, key: string, val: Value, k: string)
    requires SortedKeys(fields)
    ensures Get(Insert(fields, key, val), k) ==
      if k == key && Get(fields, key).None? then Some(val) else Get(fields, k)
  {
    hide Less;
    if fields != [] && key != fields[0].key {
      if Less(key, fields[0].key) {
        forall i | 0 <= i < |fields| ensures Less(key, fields[i].key) {
          if i > 0 {
            LessTransitive(key, fields[0].key, fields[i].key);
          }
        }
        NotBefore(fields, key);
        assert ([Field(key, val)] + fields)[1..] == fields;
      } else {
        InsertGets(fields[1..], key, val, k);
        assert ([fields[0]] + Insert(fields[1..], key, val))[1..] == Insert(fields[1..], key, val);
      }
    }
  }

  lemma {:induction false} InsertKeepsOrder(fields: seq<Field>, key: string, val: Value)
    requires WellFormedFields(fields) && WellFormed(val)
    ensures WellFormedFields(Insert(fields, key, val))
  {
    hide WellFormed, Less;
    var out := Insert(fields, key, val);
    if fields == [] || key == fields[0].key {
    } else if Less(key, fields[0].key) {
      forall j | 0 < j < |out| ensures Less(out[0].key, out[j].key) {
        if j > 1 {
          LessTransitive(key, fields[0].key, fields[j - 1].key);
        }
      }
      forall i, j | 0 <= i < j < |out| ensures Less(out[i].key, out[j].key) {
        if i > 0 {
          assert out[i] == fields[i - 1] && out[j] == fields[j - 1];
        }
      }
    } else {
      var rest := Insert(fields[1..], key, val);
      InsertKeepsOrder(fields[1..], key, val);
      LessTotal(fields[0].key, key);
      forall j | 0 < j < |out| ensures Less(out[0].key, out[j].key) {
        InsertMember(fields[1..], key, val, j - 1);
        assert out[j] == rest[j - 1];
      }
      forall i, j | 0 <= i < j < |out| ensures Less(out[i].key, out[j].key) {
        if i > 0 {
          assert out[i] == rest[i - 1] && out[j] == rest[j - 1];
        }
      }
    }
  }

  /** Whatever the parser accepts is well-formed: keys end up sorted and unique, integers fit 64 bits. */
  lemma {:induction false} ParsedIsWellFormed(s: string)
    ensures ParseValue(s).Ok? ==> WellFormed(ParseValue(s).value.0)
    decreases |s|, 2
  {
    hide ParseString, ExpectLiteral, Expect;
    var t := SkipWs(s);
    if Peek(t) == '{' {
      var rest := SkipWs(t[1..]);
      OpenBrace(t, '{');
      if Peek(rest) != '}' {
        ParsedFields(rest, []);
      }
    } else if Peek(t) == '[' {
      var rest := SkipWs(t[1..]);
      OpenBrace(t, '[');
      if Peek(rest) != ']' {
        ParsedItems(rest, []);
      }
    }
  }

  lemma OpenBrace(t: string, c: char)
    requires t != [] && t[0] == c
    ensures Expect(t, c) == Ok(t[1..])
  {
  }

  lemma {:induction false} ParsedItems(s: string, items: seq<Value>)
    requires forall k :: 0 <= k < |items| ==> WellFormed(items[k])
    ensures ParseItems(s, items).Ok? ==>
              forall k :: 0 <= k < |ParseItems(s, items).value.0| ==> WellFormed(ParseItems(s, items).value.0[k])
    decreases |s|, 3
  {
    hide WellFormed, ParseValue;
    ParsedIsWellFormed(s);
    if ParseValue(s).Ok? {
      var (v, rest) := ParseValue(s).value;
      var t := SkipWs(rest);
      if t != [] && t[0] == ',' {
        ParsedItems(SkipWs(t[1..]), items + [v]);
      }
    }
  }

  lemma {:induction false} ParsedFields(s: string, fields: seq<Field>)
    requires WellFormedFields(fields)
    ensures ParseFields(s, fields).Ok? ==> WellFormedFields(ParseFields(s, fields).value.0)
    decreases |s|, 3
  {
    hide WellFormed, WellFormedFields, ParseValue, ParseKey, Insert;
    if ParseKey(s).Ok? {
      var (key, rest) := ParseKey(s).value;
      ParsedIsWellFormed(SkipWs(rest));
      if ParseValue(SkipWs(rest)).Ok? {
        var (v, rest) := ParseValue(SkipWs(rest)).value;
        InsertKeepsOrder(fields, key, v);
        var t := SkipWs(rest);
        if t != [] && t[0] == ',' {
          ParsedFields(SkipWs(t[1..]), Insert(fields, key, v));
        }
      }
    }
  }

  /** Reprinting any text the parser accepts and parsing again changes nothing. */
  lemma ReprintStable(text: string, depth: nat, step: nat)
    requires ParseText(text).Ok?
    ensures ParseText(Dump(ParseText(text).value, depth, step)) == ParseText(text)
  {
    hide WellFormed, Dump, ParseValue;
    ParsedIsWellFormed(SkipWs(text));
    JsonRoundTrips(ParseText(text).value, depth, step);
  }
}
