/** The grammar the parser accepts, written as concrete syntax trees.  A text parses to a value if and only if it is
    the text of a tree that means the value, with white space around it. */
module JsonGrammar {
  import opened Bytes
  import opened Json
  import opened JsonRoundTrip

  // ----- Trees -----

  /** A character of a string literal: itself, a letter behind a backslash, or four hexadecimal digits. */
  datatype Part = Plain(c: char) | Short(c: char) | Hex(a: char, b: char, c: char, d: char)

  /** Every field that is a string is white space, but for `sign` and `digits`. */
  datatype Tree =
    | TNull
    | TBool(b: bool)
    | TInt(sign: string, digits: string)
    | TStr(parts: seq<Part>)
    | TArr(pad: string, items: seq<Item>)
    | TObj(pad: string, members: seq<Member>)

  datatype Item = Item(lead: string, val: Tree, trail: string)

  datatype Member = Member(lead: string, key: seq<Part>, afterKey: string, afterColon: string, val: Tree, trail: string)

  /** Blanks, tabs, line feeds, vertical tabs, form feeds and carriage returns. */
  predicate AllSpace(s: string)
  {
    forall k :: 0 <= k < |s| ==> s[k] as int in {32, 9, 10, 11, 12, 13}
  }

  predicate IsHex(c: char)
  {
    '0' <= c <= '9' || 'a' <= c <= 'f' || 'A' <= c <= 'F'
  }

  function HexDigitValue(c: char): (n: nat)
    requires IsHex(c)
    ensures n < 16
  {
    if c <= '9' then c as int - '0' as int
    else if c <= 'F' then c as int - 'A' as int + 10
    else c as int - 'a' as int + 10
  }

  predicate GoodPart(p: Part)
  {
    match p
    case Plain(c) => c != '"' && c != '\\'
    case Short(c) => c in "\"\\/bfnrt"
    case Hex(a, b, c, d) => a == '0' && b == '0' && '0' <= c <= '7' && IsHex(d)
  }

  predicate GoodParts(parts: seq<Part>)
  {
    forall k :: 0 <= k < |parts| ==> GoodPart(parts[k])
  }

  /** The text of a part and of what follows it. */
  function PartText(p: Part, rest: string): string
  {
    match p
    case Plain(c) => [c] + rest
    case Short(c) => ['\\', c] + rest
    case Hex(a, b, c, d) => ['\\', 'u', a, b, c, d] + rest
  }

  function PartsText(parts: seq<Part>, rest: string): string
  {
    if parts == [] then rest else PartText(parts[0], PartsText(parts[1..], rest))
  }

  function PartMeaning(p: Part): char
    requires GoodPart(p)
  {
    match p
    case Plain(c) => c
    case Short(c) =>
      if c == 'b' then 8 as char else if c == 't' then 9 as char else if c == 'n' then 10 as char
      else if c == 'f' then 12 as char else if c == 'r' then 13 as char else c
    case Hex(_, _, c, d) => (16 * HexDigitValue(c) + HexDigitValue(d)) as char
  }

  function PartsMeaning(parts: seq<Part>): string
    requires GoodParts(parts)
  {
    seq(|parts|, k requires 0 <= k < |parts| => PartMeaning(parts[k]))
  }

  function IntMeaning(sign: string, digits: string): int
    requires AllDigits(digits)
  {
    if sign == "-" then -(DigitsValue(digits) as int) else DigitsValue(digits)
  }

  predicate Good(t: Tree)
  {
    match t
    case TInt(sign, digits) =>
      sign in {"", "-", "+"} && digits != "" && AllDigits(digits) && Int64(IntMeaning(sign, digits))
    case TStr(parts) => GoodParts(parts)
    case TArr(pad, items) => AllSpace(pad) && forall k :: 0 <= k < |items| ==> GoodItem(items[k])
    case TObj(pad, members) => AllSpace(pad) && forall k :: 0 <= k < |members| ==> GoodMember(members[k])
    case _ => true
  }

  predicate GoodItem(i: Item)
  {
    AllSpace(i.lead) && Good(i.val) && AllSpace(i.trail)
  }

  predicate GoodMember(m: Member)
  {
    && AllSpace(m.lead) && GoodParts(m.key) && AllSpace(m.afterKey) && AllSpace(m.afterColon) && Good(m.val)
    && AllSpace(m.trail)
  }

  /** The text of a tree and of what follows it. */
  function Text(t: Tree, rest: string): string
    decreases t, 0
  {
    match t
    case TNull => "null" + rest
    case TBool(b) => if b then "true" + rest else "false" + rest
    case TInt(sign, digits) => sign + (digits + rest)
    case TStr(parts) => "\"" + PartsText(parts, "\"" + rest)
    case TArr(pad, items) => "[" + if items == [] then pad + ("]" + rest) else ItemsText(items, rest)
    case TObj(pad, members) => "{" + if members == [] then pad + ("}" + rest) else MembersText(members, rest)
  }

  function ItemsText(items: seq<Item>, rest: string): string
    decreases items
  {
    if items == [] then rest
    else
      var more := if |items| == 1 then "]" + rest else "," + ItemsText(items[1..], rest);
      items[0].lead + Text(items[0].val, items[0].trail + more)
  }

  function MembersText(members: seq<Member>, rest: string): string
    decreases members
  {
    if members == [] then rest
    else
      var m := members[0];
      var more := if |members| == 1 then "}" + rest else "," + MembersText(members[1..], rest);
      m.lead + ("\"" + PartsText(m.key, "\"" + (m.afterKey + (":" + (m.afterColon + Text(m.val, m.trail + more))))))
  }

  function Meaning(t: Tree): Value
    requires Good(t)
    decreases t, 0
  {
    match t
    case TNull => Null
    case TBool(b) => Bool(b)
    case TInt(sign, digits) => Int(IntMeaning(sign, digits))
    case TStr(parts) => Str(PartsMeaning(parts))
    case TArr(_, items) => Arr(ItemsMeaning(items))
    case TObj(_, members) => Obj(MembersMeaning(members, []))
  }

  function ItemsMeaning(items: seq<Item>): seq<Value>
    requires forall k :: 0 <= k < |items| ==> GoodItem(items[k])
    decreases items
  {
    if items == [] then []
    else
      assert GoodItem(items[0]);
      [Meaning(items[0].val)] + ItemsMeaning(items[1..])
  }

  /** Fields are added in order; the first of two equal keys stays. */
  function MembersMeaning(members: seq<Member>, fields: seq<Field>): seq<Field>
    requires forall k :: 0 <= k < |members| ==> GoodMember(members[k])
    decreases members
  {
    if members == [] then fields
    else
      assert GoodMember(members[0]);
      MembersMeaning(members[1..], Insert(fields, PartsMeaning(members[0].key), Meaning(members[0].val)))
  }

  /** A number ends where no digit, point or exponent follows. */
  predicate Ends(t: Tree, rest: string)
  {
    t.TInt? && rest != [] ==> !IsDigit(rest[0]) && rest[0] !in ".eE"
  }

  // ----- White space -----

  lemma {:induction false} SkipSpaces(ws: string, rest: string)
    requires AllSpace(ws)
    ensures SkipWs(ws + rest) == SkipWs(rest)
  {
    if ws == [] {
      assert ws + rest == rest;
    } else {
      assert (ws + rest)[1..] == ws[1..] + rest;
      SkipSpaces(ws[1..], rest);
    }
  }

  lemma {:induction false} SplitSpaces(s: string) returns (ws: string)
    ensures AllSpace(ws) && s == ws + SkipWs(s)
  {
    if s != [] && IsSpace(s[0]) {
      var more := SplitSpaces(s[1..]);
      ws := [s[0]] + more;
      assert s == [s[0]] + s[1..];
    } else {
      ws := [];
    }
  }

  lemma StopsAt(c: char, rest: string)
    requires !IsSpace(c)
    ensures SkipWs([c] + rest) == [c] + rest && ([c] + rest)[1..] == rest && Peek([c] + rest) == c
  {
    assert ([c] + rest)[1..] == rest;
  }

  /** White space and a mark: skipped up to the mark. */
  lemma SpacesThen(ws: string, c: char, rest: string)
    requires AllSpace(ws) && !IsSpace(c)
    ensures SkipWs(ws + ([c] + rest)) == [c] + rest
  {
    SkipSpaces(ws, [c] + rest);
    StopsAt(c, rest);
  }

  lemma ParseSkipped(s: string)
    ensures ParseValue(SkipWs(s)) == ParseValue(s)
  {
    SkipTwice(s);
  }

  lemma ItemsSkipped(s: string, items: seq<Value>)
    ensures ParseItems(SkipWs(s), items) == ParseItems(s, items)
  {
    hide ParseValue;
    ParseSkipped(s);
  }

  lemma FieldsSkipped(s: string, fields: seq<Field>)
    ensures ParseFields(SkipWs(s), fields) == ParseFields(s, fields)
  {
    hide ParseValue, ParseString;
    SkipTwice(s);
  }

  // ----- Strings, forwards -----

  lemma HexGood(c: char)
    requires IsHex(c)
    ensures HexValue(c) == Some(HexDigitValue(c))
  {
  }

  lemma HexOne(c: char, rest: string, n: nat, code: nat)
    requires IsHex(c) && n > 0
    ensures HexCode([c] + rest, n, code) == HexCode(rest, n - 1, code * 16 + HexDigitValue(c))
  {
    HexGood(c);
    assert ([c] + rest)[1..] == rest;
  }

  lemma HexFour(a: char, b: char, c: char, d: char, rest: string)
    requires IsHex(a) && IsHex(b) && IsHex(c) && IsHex(d)
    ensures HexCode([a, b, c, d] + rest, 4, 0) ==
      Ok((((HexDigitValue(a) * 16 + HexDigitValue(b)) * 16 + HexDigitValue(c)) * 16 + HexDigitValue(d), rest))
  {
    hide HexCode, HexDigitValue;
    HexOne(a, [b, c, d] + rest, 4, 0);
    assert [a] + ([b, c, d] + rest) == [a, b, c, d] + rest;
    HexOne(b, [c, d] + rest, 3, HexDigitValue(a));
    assert [b] + ([c, d] + rest) == [b, c, d] + rest;
    HexOne(c, [d] + rest, 2, HexDigitValue(a) * 16 + HexDigitValue(b));
    assert [c] + ([d] + rest) == [c, d] + rest;
    HexOne(d, rest, 1, (HexDigitValue(a) * 16 + HexDigitValue(b)) * 16 + HexDigitValue(c));
    HexDone(rest, ((HexDigitValue(a) * 16 + HexDigitValue(b)) * 16 + HexDigitValue(c)) * 16 + HexDigitValue(d));
  }

  lemma PartReads(p: Part, rest: string, out: string)
    requires GoodPart(p)
    ensures ParseChars(PartText(p, rest), out) == ParseChars(rest, out + [PartMeaning(p)])
  {
    var text := PartText(p, rest);
    if p.Plain? {
      assert text[1..] == rest;
    } else {
      hide ParseEscape, PartMeaning, GoodPart;
      EscapeReads(p, rest);
    }
  }

  lemma EscapeReads(p: Part, rest: string)
    requires GoodPart(p) && !p.Plain?
    ensures var text := PartText(p, rest);
      text != [] && text[0] == '\\' && ParseEscape(text[1..]) == Ok((PartMeaning(p), rest))
  {
    match p {
      case Short(c) =>
        assert PartText(p, rest)[1..] == [c] + rest && ([c] + rest)[1..] == rest;
      case Hex(a, b, c, d) =>
        hide ParseEscape, PartMeaning, GoodPart;
        HexReads(a, b, c, d, rest);
        assert PartText(p, rest)[1..] == ['u', a, b, c, d] + rest;
    }
  }

  lemma HexReads(a: char, b: char, c: char, d: char, rest: string)
    requires GoodPart(Hex(a, b, c, d))
    ensures ParseEscape(['u', a, b, c, d] + rest) == Ok((PartMeaning(Hex(a, b, c, d)), rest))
  {
    hide HexCode;
    HexFour(a, b, c, d, rest);
    assert (['u', a, b, c, d] + rest)[1..] == [a, b, c, d] + rest;
    assert HexDigitValue(a) == 0 && HexDigitValue(b) == 0;
  }

  lemma {:induction false} PartsRead(parts: seq<Part>, rest: string, out: string)
    requires GoodParts(parts)
    ensures ParseChars(PartsText(parts, "\"" + rest), out) == Ok((out + PartsMeaning(parts), rest))
    decreases |parts|
  {
    hide PartText, ParseChars, PartMeaning;
    if parts == [] {
      EndOfString(rest, out);
      assert Escape([]) + ("\"" + rest) == "\"" + rest;
      assert out + PartsMeaning(parts) == out;
    } else {
      assert GoodPart(parts[0]);
      PartReads(parts[0], PartsText(parts[1..], "\"" + rest), out);
      PartsRead(parts[1..], rest, out + [PartMeaning(parts[0])]);
      assert out + [PartMeaning(parts[0])] + PartsMeaning(parts[1..]) == out + PartsMeaning(parts);
    }
  }

  lemma StringReads(parts: seq<Part>, rest: string)
    requires GoodParts(parts)
    ensures ParseString("\"" + PartsText(parts, "\"" + rest)) == Ok((PartsMeaning(parts), rest))
  {
    hide ParseChars, PartsText;
    var text := PartsText(parts, "\"" + rest);
    assert ("\"" + text)[1..] == text;
    PartsRead(parts, rest, []);
    assert [] + PartsMeaning(parts) == PartsMeaning(parts);
  }

  // ----- Numbers, forwards -----

  lemma DigitsCounted(digits: string, rest: string)
    requires AllDigits(digits) && (rest != [] ==> !IsDigit(rest[0]))
    ensures DigitCount(digits + rest) == |digits|
  {
    CountDigits(digits, rest);
  }

  lemma NumberReads(sign: string, digits: string, rest: string)
    requires Good(TInt(sign, digits)) && Ends(TInt(sign, digits), rest)
    ensures ParseNumber(sign + (digits + rest)) == Ok((Int(IntMeaning(sign, digits)), rest))
  {
    hide DigitsValue, DigitCount, Int64;
    var s := sign + (digits + rest);
    var body := digits + rest;
    DigitsCounted(digits, rest);
    assert body[..|digits|] == digits && body[|digits|..] == rest;
    assert IsDigit(digits[0]);
    if sign == "" {
      assert s == body;
    } else {
      assert s[1..] == body && Peek(s) == sign[0];
    }
  }

  // ----- Values, forwards -----

  /** What a value can start with. */
  predicate BeginsValue(c: char)
  {
    c in "{[\"tfn-+" || IsDigit(c)
  }

  lemma TextStarts(t: Tree, rest: string)
    requires Good(t)
    ensures Text(t, rest) != [] && BeginsValue(Text(t, rest)[0]) && SkipWs(Text(t, rest)) == Text(t, rest)
  {
    hide PartsText, ItemsText, MembersText;
    if t.TInt? {
      assert IsDigit(t.digits[0]);
    }
  }

  /** Every text of the grammar parses to what it means, whatever follows. */
  lemma {:induction false} Accepts(t: Tree, rest: string)
    requires Good(t) && Ends(t, rest)
    ensures ParseValue(Text(t, rest)) == Ok((Meaning(t), rest))
    decreases t, 0
  {
    hide PartsText, ItemsText, MembersText, ParseArray, ParseObject, ParseString, ParseNumber, ItemsMeaning,
         MembersMeaning, PartsMeaning, IntMeaning, Int64;
    TextStarts(t, rest);
    match t {
      case TNull => Literal("null", rest);
      case TBool(b) => Literal(if b then "true" else "false", rest);
      case TInt(sign, digits) =>
        NumberReads(sign, digits, rest);
        assert IsDigit(digits[0]);
      case TStr(parts) =>
        StringReads(parts, rest);
      case TArr(pad, items) =>
        AcceptsArray(pad, items, rest);
      case TObj(pad, members) =>
        AcceptsObject(pad, members, rest);
    }
  }

  lemma {:induction false} AcceptsArray(pad: string, items: seq<Item>, rest: string)
    requires AllSpace(pad) && forall k :: 0 <= k < |items| ==> GoodItem(items[k])
    ensures ParseArray(Text(TArr(pad, items), rest)) == Ok((Arr(ItemsMeaning(items)), rest))
    decreases items, 1
  {
    hide ParseItems, ItemsText, Good;
    var inner := if items == [] then pad + ("]" + rest) else ItemsText(items, rest);
    assert ("[" + inner)[1..] == inner;
    if items == [] {
      SpacesThen(pad, ']', rest);
      StopsAt(']', rest);
    } else {
      AcceptsItems(items, [], rest);
      ItemsBegin(items, rest);
      ItemsSkipped(inner, []);
      assert [] + ItemsMeaning(items) == ItemsMeaning(items);
    }
  }

  lemma ItemsBegin(items: seq<Item>, rest: string)
    requires items != [] && GoodItem(items[0])
    ensures var s := SkipWs(ItemsText(items, rest)); s != [] && BeginsValue(s[0])
  {
    hide Text, Good;
    var more := if |items| == 1 then "]" + rest else "," + ItemsText(items[1..], rest);
    TextStarts(items[0].val, items[0].trail + more);
    SkipSpaces(items[0].lead, Text(items[0].val, items[0].trail + more));
  }

  lemma {:induction false} AcceptsItems(items: seq<Item>, acc: seq<Value>, rest: string)
    requires items != [] && forall k :: 0 <= k < |items| ==> GoodItem(items[k])
    ensures ParseItems(ItemsText(items, rest), acc) == Ok((acc + ItemsMeaning(items), rest))
    decreases items, 0
  {
    hide Text, Good, ParseItems, Meaning;
    var i := items[0];
    assert GoodItem(i);
    var tail := if |items| == 1 then rest else ItemsText(items[1..], rest);
    var mark := if |items| == 1 then ']' else ',';
    EndsBefore(i.val, i.trail, mark, tail);
    Accepts(i.val, i.trail + ([mark] + tail));
    ItemStep(i, mark, tail, acc);
    ItemsMeaningFirst(items, acc);
    if |items| > 1 {
      hide ItemsMeaning;
      AcceptsItems(items[1..], acc + [Meaning(i.val)], rest);
    }
  }

  lemma ItemsMeaningFirst(items: seq<Item>, acc: seq<Value>)
    requires items != [] && forall k :: 0 <= k < |items| ==> GoodItem(items[k])
    ensures GoodItem(items[0])
    ensures acc + [Meaning(items[0].val)] + ItemsMeaning(items[1..]) == acc + ItemsMeaning(items)
    ensures |items| == 1 ==> acc + [Meaning(items[0].val)] == acc + ItemsMeaning(items)
  {
    hide Meaning, Good, ItemsMeaning;
    assert GoodItem(items[0]);
    ItemsMeaningIs(items);
    Associative(acc, [Meaning(items[0].val)], ItemsMeaning(items[1..]));
    if |items| == 1 {
      assert items[1..] == [];
      NoItems();
    }
  }

  lemma ItemsMeaningIs(items: seq<Item>)
    requires items != [] && forall k :: 0 <= k < |items| ==> GoodItem(items[k])
    ensures GoodItem(items[0]) && ItemsMeaning(items) == [Meaning(items[0].val)] + ItemsMeaning(items[1..])
  {
    hide Meaning, Good;
  }

  lemma NoItems()
    ensures ItemsMeaning([]) == []
  {
  }

  lemma ItemStep(i: Item, mark: char, tail: string, acc: seq<Value>)
    requires GoodItem(i) && (mark == ']' || mark == ',')
    requires var after := i.trail + ([mark] + tail); ParseValue(Text(i.val, after)) == Ok((Meaning(i.val), after))
    ensures ParseItems(i.lead + Text(i.val, i.trail + ([mark] + tail)), acc) ==
      if mark == ']' then Ok((acc + [Meaning(i.val)], tail)) else ParseItems(tail, acc + [Meaning(i.val)])
  {
    hide Text, Good, ParseValue, Meaning, AllSpace;
    var after := i.trail + ([mark] + tail);
    var s := i.lead + Text(i.val, after);
    SkipSpaces(i.lead, Text(i.val, after));
    ParseSkipped(s);
    ParseSkipped(Text(i.val, after));
    SpacesThen(i.trail, mark, tail);
    StopsAt(mark, tail);
    ItemsSkipped(tail, acc + [Meaning(i.val)]);
  }

  lemma EndsBefore(t: Tree, ws: string, mark: char, tail: string)
    requires AllSpace(ws) && (mark == ']' || mark == ',' || mark == '}')
    ensures Ends(t, ws + ([mark] + tail))
  {
  }

  lemma {:induction false} AcceptsObject(pad: string, members: seq<Member>, rest: string)
    requires AllSpace(pad) && forall k :: 0 <= k < |members| ==> GoodMember(members[k])
    ensures ParseObject(Text(TObj(pad, members), rest)) == Ok((Obj(MembersMeaning(members, [])), rest))
    decreases members, 1
  {
    hide ParseFields, MembersText, Good;
    var inner := if members == [] then pad + ("}" + rest) else MembersText(members, rest);
    assert ("{" + inner)[1..] == inner;
    if members == [] {
      SpacesThen(pad, '}', rest);
      StopsAt('}', rest);
    } else {
      AcceptsMembers(members, [], rest);
      MembersStartQuote(members, rest);
      FieldsSkipped(inner, []);
    }
  }

  lemma MembersStartQuote(members: seq<Member>, rest: string)
    requires members != [] && GoodMember(members[0])
    ensures var s := SkipWs(MembersText(members, rest)); s != [] && s[0] == '"'
  {
    hide Text, Good, PartsText;
    var m := members[0];
    var more := if |members| == 1 then "}" + rest else "," + MembersText(members[1..], rest);
    var after := PartsText(m.key, "\"" + (m.afterKey + (":" + (m.afterColon + Text(m.val, m.trail + more)))));
    SpacesThen(m.lead, '"', after);
  }

  lemma {:induction false} AcceptsMembers(members: seq<Member>, acc: seq<Field>, rest: string)
    requires members != [] && forall k :: 0 <= k < |members| ==> GoodMember(members[k])
    ensures ParseFields(MembersText(members, rest), acc) == Ok((MembersMeaning(members, acc), rest))
    decreases members, 0
  {
    hide Text, Good, ParseFields, Meaning, PartsText;
    var m := members[0];
    assert GoodMember(m);
    var tail := if |members| == 1 then rest else MembersText(members[1..], rest);
    var mark := if |members| == 1 then '}' else ',';
    EndsBefore(m.val, m.trail, mark, tail);
    Accepts(m.val, m.trail + ([mark] + tail));
    MemberStep(m, mark, tail, acc);
    if |members| == 1 {
      assert members[1..] == [];
    } else {
      AcceptsMembers(members[1..], Insert(acc, PartsMeaning(m.key), Meaning(m.val)), rest);
    }
  }

  lemma MemberStep(m: Member, mark: char, tail: string, acc: seq<Field>)
    requires GoodMember(m) && (mark == '}' || mark == ',')
    requires var after := m.trail + ([mark] + tail); ParseValue(Text(m.val, after)) == Ok((Meaning(m.val), after))
    ensures
      var value := Text(m.val, m.trail + ([mark] + tail));
      var acc' := Insert(acc, PartsMeaning(m.key), Meaning(m.val));
      ParseFields(m.lead + ("\"" + PartsText(m.key, "\"" + (m.afterKey + (":" + (m.afterColon + value))))), acc) ==
        if mark == '}' then Ok((acc', tail)) else ParseFields(tail, acc')
  {
    hide Text, Good, ParseValue, Meaning, PartsText, ParseKey, AllSpace, Insert;
    var after := m.trail + ([mark] + tail);
    var colon := m.afterColon + Text(m.val, after);
    MemberKey(m, colon);
    SkipSpaces(m.afterColon, Text(m.val, after));
    ParseSkipped(colon);
    ParseSkipped(Text(m.val, after));
    SpacesThen(m.trail, mark, tail);
    StopsAt(mark, tail);
    FieldsSkipped(tail, Insert(acc, PartsMeaning(m.key), Meaning(m.val)));
  }

  lemma MemberKey(m: Member, rest: string)
    requires GoodMember(m)
    ensures ParseKey(m.lead + ("\"" + PartsText(m.key, "\"" + (m.afterKey + (":" + rest)))))
      == Ok((PartsMeaning(m.key), rest))
  {
    hide PartsText, ParseString, Good;
    var after := m.afterKey + (":" + rest);
    SpacesThen(m.lead, '"', PartsText(m.key, "\"" + after));
    StringReads(m.key, after);
    SpacesThen(m.afterKey, ':', rest);
    StopsAt(':', rest);
  }

  // ----- Backwards -----

  lemma {:induction false} LiteralWas(s: string, literal: string)
    requires ExpectLiteral(s, literal).Ok?
    ensures s == literal + ExpectLiteral(s, literal).value
    decreases |literal|
  {
    if literal != [] {
      LiteralWas(s[1..], literal[1..]);
      assert s == [s[0]] + s[1..] && literal == [literal[0]] + literal[1..];
    }
  }

  lemma HexWas(s: string)
    requires HexCode(s, 4, 0).Ok? && HexCode(s, 4, 0).value.0 <= 0x7F
    ensures |s| >= 4 && GoodPart(Hex(s[0], s[1], s[2], s[3])) && HexCode(s, 4, 0).value.1 == s[4..]
    ensures HexCode(s, 4, 0).value.0 == 16 * HexDigitValue(s[2]) + HexDigitValue(s[3])
  {
    hide HexCode, HexValue, HexDigitValue, IsHex, GoodPart;
    HexBack(s, 4);
    SmallCode(s[0], s[1], s[2], s[3]);
  }

  lemma HexBack(s: string, n: nat)
    requires n == 4 && HexCode(s, n, 0).Ok?
    ensures |s| >= 4 && IsHex(s[0]) && IsHex(s[1]) && IsHex(s[2]) && IsHex(s[3])
    ensures
      var high := HexDigitValue(s[0]) * 16 + HexDigitValue(s[1]);
      HexCode(s, n, 0) == Ok(((high * 16 + HexDigitValue(s[2])) * 16 + HexDigitValue(s[3]), s[4..]))
  {
    hide HexCode, HexValue, HexDigitValue, IsHex;
    assert s[0..] == s;
    HexAt(s, 0, n, 0);
    var a := HexDigitValue(s[0]);
    HexAt(s, 1, n - 1, a);
    var b := a * 16 + HexDigitValue(s[1]);
    HexAt(s, 2, n - 2, b);
    var c := b * 16 + HexDigitValue(s[2]);
    HexAt(s, 3, n - 3, c);
    HexDone(s[4..], c * 16 + HexDigitValue(s[3]));
  }

  lemma HexAt(s: string, k: nat, n: nat, code: nat)
    requires n > 0 && k <= |s| && HexCode(s[k..], n, code).Ok?
    ensures k < |s| && IsHex(s[k])
    ensures HexCode(s[k..], n, code) == HexCode(s[k + 1..], n - 1, code * 16 + HexDigitValue(s[k]))
  {
    HexUnfold(s[k..], n, code);
    assert s[k..][1..] == s[k + 1..];
  }

  lemma SmallCode(a: char, b: char, c: char, d: char)
    requires IsHex(a) && IsHex(b) && IsHex(c) && IsHex(d)
    requires ((HexDigitValue(a) * 16 + HexDigitValue(b)) * 16 + HexDigitValue(c)) * 16 + HexDigitValue(d) <= 0x7F
    ensures GoodPart(Hex(a, b, c, d)) && HexDigitValue(a) == 0 && HexDigitValue(b) == 0
  {
  }

  lemma HexUnfold(s: string, n: nat, code: nat)
    requires n > 0 && HexCode(s, n, code).Ok?
    ensures s != [] && IsHex(s[0])
    ensures HexCode(s, n, code) == HexCode(s[1..], n - 1, code * 16 + HexDigitValue(s[0]))
  {
  }

  /** One character of a literal that has been read. */
  lemma PartWas(s: string, out: string) returns (p: Part, rest: string)
    requires ParseChars(s, out).Ok? && s[0] != '"'
    ensures GoodPart(p) && s == PartText(p, rest) && |rest| < |s|
    ensures ParseChars(s, out) == ParseChars(rest, out + [PartMeaning(p)])
  {
    hide HexCode;
    if s[0] != '\\' {
      p, rest := Plain(s[0]), s[1..];
    } else {
      var e := s[1..];
      if e[0] == 'u' {
        HexWas(e[1..]);
        p, rest := Hex(e[1..][0], e[1..][1], e[1..][2], e[1..][3]), e[1..][4..];
        assert s == ['\\', 'u', e[1..][0], e[1..][1], e[1..][2], e[1..][3]] + rest;
      } else {
        p, rest := Short(e[0]), e[1..];
        assert s == ['\\', e[0]] + rest;
      }
    }
  }

  lemma {:induction false} PartsWere(s: string, out: string) returns (parts: seq<Part>)
    requires ParseChars(s, out).Ok?
    ensures GoodParts(parts) && s == PartsText(parts, "\"" + ParseChars(s, out).value.1)
    ensures ParseChars(s, out).value.0 == out + PartsMeaning(parts)
    decreases |s|
  {
    hide PartText, PartMeaning;
    if s[0] == '"' {
      parts := [];
      assert s == "\"" + s[1..];
      assert out + PartsMeaning(parts) == out;
    } else {
      hide ParseChars;
      var p, rest := PartWas(s, out);
      var more := PartsWere(rest, out + [PartMeaning(p)]);
      parts := [p] + more;
      assert parts[1..] == more;
      assert out + [PartMeaning(p)] + PartsMeaning(more) == out + PartsMeaning(parts);
    }
  }

  lemma StringWas(s: string) returns (parts: seq<Part>)
    requires ParseString(s).Ok?
    ensures GoodParts(parts) && s == "\"" + PartsText(parts, "\"" + ParseString(s).value.1)
    ensures ParseString(s).value.0 == PartsMeaning(parts)
  {
    hide ParseChars, PartsText;
    parts := PartsWere(s[1..], []);
    assert s == "\"" + s[1..];
    assert [] + PartsMeaning(parts) == PartsMeaning(parts);
  }

  lemma NumberWas(s: string) returns (t: Tree)
    requires ParseNumber(s).Ok?
    ensures Good(t) && t.TInt? && Ends(t, ParseNumber(s).value.1) && s == Text(t, ParseNumber(s).value.1)
    ensures Meaning(t) == ParseNumber(s).value.0
  {
    hide DigitsValue, DigitCount, Int64;
    var signed := Peek(s) == '-' || Peek(s) == '+';
    var body := if signed && s != [] then s[1..] else s;
    var n := DigitCount(body);
    DigitCountDigits(body);
    var sign := if signed && s != [] then [s[0]] else "";
    t := TInt(sign, body[..n]);
    Rejoined(body, n);
    assert s == sign + body;
    assert AllDigits(body[..n]);
  }

  lemma Rejoined(s: string, n: nat)
    requires n <= |s|
    ensures s[..n] + s[n..] == s
  {
  }

  /** Whatever parses is a text of the grammar. */
  lemma {:induction false} Parsed(s: string) returns (ws: string, t: Tree)
    requires ParseValue(s).Ok?
    ensures AllSpace(ws) && Good(t) && Meaning(t) == ParseValue(s).value.0
    ensures Ends(t, ParseValue(s).value.1) && s == ws + Text(t, ParseValue(s).value.1)
    decreases |s|, 2
  {
    ws := SplitSpaces(s);
    var u := SkipWs(s);
    var c := Peek(u);
    if c == '{' {
      t := ParsedObject(u);
    } else if c == '[' {
      t := ParsedArray(u);
    } else if c == '"' {
      hide ParseString;
      var parts := StringWas(u);
      t := TStr(parts);
    } else if c == 't' {
      LiteralWas(u, "true");
      t := TBool(true);
    } else if c == 'f' {
      LiteralWas(u, "false");
      t := TBool(false);
    } else if c == 'n' {
      LiteralWas(u, "null");
      t := TNull;
    } else {
      hide ParseNumber;
      t := NumberWas(u);
    }
  }

  lemma {:induction false} ParsedArray(s: string) returns (t: Tree)
    requires ParseArray(s).Ok? && SkipWs(s) == s
    ensures Good(t) && t.TArr? && Meaning(t) == ParseArray(s).value.0 && s == Text(t, ParseArray(s).value.1)
    decreases |s|, 1
  {
    hide ParseItems, ItemsText;
    var inner := s[1..];
    assert s == "[" + inner;
    var pad := SplitSpaces(inner);
    var u := SkipWs(inner);
    if Peek(u) == ']' {
      t := TArr(pad, []);
      assert u == "]" + u[1..];
    } else {
      ItemsSkipped(inner, []);
      var items := ParsedItemTrees(inner, []);
      t := TArr("", items);
      assert [] + ItemsMeaning(items) == ItemsMeaning(items);
    }
  }

  lemma {:induction false} ParsedItemTrees(s: string, acc: seq<Value>) returns (items: seq<Item>)
    requires ParseItems(s, acc).Ok?
    ensures items != [] && forall k :: 0 <= k < |items| ==> GoodItem(items[k])
    ensures ParseItems(s, acc).value.0 == acc + ItemsMeaning(items)
    ensures s == ItemsText(items, ParseItems(s, acc).value.1)
    decreases |s|, 3
  {
    hide Text, Good, ParseValue, Meaning;
    var lead, t := Parsed(s);
    var after := ParseValue(s).value.1;
    var trail := SplitSpaces(after);
    var u := SkipWs(after);
    var i := Item(lead, t, trail);
    assert u == [u[0]] + u[1..];
    hide ItemsMeaning;
    if u[0] == ']' {
      items := [i];
    } else {
      ItemsSkipped(u[1..], acc + [Meaning(t)]);
      var more := ParsedItemTrees(u[1..], acc + [Meaning(t)]);
      items := [i] + more;
      assert items[1..] == more;
    }
    ItemsMeaningFirst(items, acc);
  }

  lemma {:induction false} ParsedObject(s: string) returns (t: Tree)
    requires ParseObject(s).Ok? && SkipWs(s) == s
    ensures Good(t) && t.TObj? && Meaning(t) == ParseObject(s).value.0 && s == Text(t, ParseObject(s).value.1)
    decreases |s|, 1
  {
    hide ParseFields, MembersText;
    var inner := s[1..];
    assert s == "{" + inner;
    var pad := SplitSpaces(inner);
    var u := SkipWs(inner);
    if Peek(u) == '}' {
      t := TObj(pad, []);
      assert u == "}" + u[1..];
    } else {
      FieldsSkipped(inner, []);
      var members := ParsedMemberTrees(inner, []);
      t := TObj("", members);
    }
  }

  lemma KeyWas(s: string) returns (lead: string, key: seq<Part>, afterKey: string)
    requires ParseKey(s).Ok?
    ensures AllSpace(lead) && GoodParts(key) && AllSpace(afterKey) && ParseKey(s).value.0 == PartsMeaning(key)
    ensures s == lead + ("\"" + PartsText(key, "\"" + (afterKey + (":" + ParseKey(s).value.1))))
  {
    hide ParseString, PartsText;
    lead := SplitSpaces(s);
    key := StringWas(SkipWs(s));
    var after := ParseString(SkipWs(s)).value.1;
    afterKey := SplitSpaces(after);
    var u := SkipWs(after);
    assert u == ":" + u[1..];
  }

  lemma {:induction false} ParsedMemberTrees(s: string, acc: seq<Field>) returns (members: seq<Member>)
    requires ParseFields(s, acc).Ok?
    ensures members != [] && forall k :: 0 <= k < |members| ==> GoodMember(members[k])
    ensures ParseFields(s, acc).value.0 == MembersMeaning(members, acc)
    ensures s == MembersText(members, ParseFields(s, acc).value.1)
    decreases |s|, 3
  {
    hide Text, Good, ParseValue, Meaning, ParseKey, PartsText;
    var lead, key, afterKey := KeyWas(s);
    var colon := ParseKey(s).value.1;
    ParseSkipped(colon);
    var afterColon, t := Parsed(colon);
    var after := ParseValue(colon).value.1;
    var trail := SplitSpaces(after);
    var u := SkipWs(after);
    var m := Member(lead, key, afterKey, afterColon, t, trail);
    var acc' := Insert(acc, PartsMeaning(key), Meaning(t));
    assert u == [u[0]] + u[1..];
    if u[0] == '}' {
      members := [m];
      assert members[1..] == [];
    } else {
      FieldsSkipped(u[1..], acc');
      var more := ParsedMemberTrees(u[1..], acc');
      members := [m] + more;
      assert members[1..] == more;
    }
  }

  // ----- Documents -----

  /** The text is a value of the grammar with white space around it. */
  ghost predicate Denotes(text: string, v: Value)
  {
    exists lead, t, trail ::
      AllSpace(lead) && AllSpace(trail) && Good(t) && Meaning(t) == v && text == lead + Text(t, trail)
  }

  /** The parser accepts exactly the grammar, and reads every text as what it means. */
  lemma ParsesExactly(text: string, v: Value)
    ensures ParseText(text) == Ok(v) <==> Denotes(text, v)
  {
    hide ParseValue, Text, Good, Meaning;
    ParseSkipped(text);
    if ParseText(text) == Ok(v) {
      var lead, t := Parsed(text);
      var rest := ParseValue(text).value.1;
      var trail := SplitSpaces(rest);
      assert trail == rest;
    }
    if Denotes(text, v) {
      var lead, t, trail :|
        AllSpace(lead) && AllSpace(trail) && Good(t) && Meaning(t) == v && text == lead + Text(t, trail);
      assert Ends(t, trail);
      Accepts(t, trail);
      SkipSpaces(lead, Text(t, trail));
      ParseSkipped(Text(t, trail));
      SkipSpaces(trail, []);
      assert trail + [] == trail;
    }
  }
}
