/** The bytes of a snapshot: its records, its padding, and the index sector that lists the snapshots. */
module SnapshotCodec {
  import opened Bytes
  import opened Snapshot

  type U32 = x: int | 0 <= x < 0x1_0000_0000

  function U32Bytes(v: U32): (b: seq<Byte>)
    ensures |b| == 4
  {
    [v % 0x100, v / 0x100 % 0x100, v / 0x1_0000 % 0x100, v / 0x100_0000]
  }

  function ReadU32(s: seq<Byte>, off: nat): U32
    requires off + 4 <= |s|
  {
    s[off] as int + 0x100 * (s[off + 1] as int) + 0x1_0000 * (s[off + 2] as int) + 0x100_0000 * (s[off + 3] as int)
  }

  lemma U32RoundTrip(v: U32)
    ensures ReadU32(U32Bytes(v), 0) == v
  {
    assert v / 0x1_0000 == v / 0x100 / 0x100 && v / 0x100_0000 == v / 0x100 / 0x100 / 0x100;
  }

  lemma ReadU32At(pre: seq<Byte>, v: U32, post: seq<Byte>)
    ensures ReadU32(pre + U32Bytes(v) + post, |pre|) == v
  {
    U32RoundTrip(v);
    var s := pre + U32Bytes(v) + post;
    assert forall i :: 0 <= i < 4 ==> s[|pre| + i] == U32Bytes(v)[i];
  }

  // ----- Text -----

  /** Characters of a C string: single bytes, none of them the terminator. */
  predicate IsText(p: string)
  {
    forall i :: 0 <= i < |p| ==> 0 < p[i] as int < 256
  }

  function TextBytes(p: string): (b: seq<Byte>)
    requires IsText(p)
    ensures |b| == |p|
  {
    if p == "" then [] else TextBytes(p[..|p| - 1]) + [p[|p| - 1] as int]
  }

  /** The C string held in a buffer. */
  function CText(b: seq<Byte>): string
  {
    if b == [] || b[0] == 0 then "" else [b[0] as char] + CText(b[1..])
  }

  lemma {:induction false} CTextAppend(a: seq<Byte>, b: seq<Byte>)
    requires forall i :: 0 <= i < |a| ==> a[i] != 0
    ensures CText(a + b) == CText(a) + CText(b)
  {
    if a == [] {
      assert a + b == b;
    } else {
      assert (a + b)[1..] == a[1..] + b;
      CTextAppend(a[1..], b);
      assert CText(a + b) == [a[0] as char] + (CText(a[1..]) + CText(b));
    }
  }

  lemma {:induction false} TextRoundTrip(p: string)
    requires IsText(p)
    ensures CText(TextBytes(p)) == p && forall i :: 0 <= i < |p| ==> TextBytes(p)[i] != 0
  {
    if p != "" {
      var n := |p| - 1;
      TextRoundTrip(p[..n]);
      CTextAppend(TextBytes(p[..n]), [p[n] as int]);
      assert CText([p[n] as int]) == [p[n]] + CText([]);
    }
  }

  // ----- Records -----

  /** Paths longer than this are cut when read back. */
  const MAX_TEXT: nat := 255

  predicate Encodable(r: Record)
  {
    IsText(r.path) && 1 <= |r.path| <= MAX_TEXT && |r.data| < 0x1_0000_0000
  }

  function Encode(r: Record): (b: seq<Byte>)
    requires Encodable(r)
    ensures |b| == 8 + |r.path| + |r.data|
  {
    U32Bytes(|r.path|) + U32Bytes(|r.data|) + TextBytes(r.path) + r.data
  }

  predicate AllEncodable(rs: seq<Record>)
  {
    forall i :: 0 <= i < |rs| ==> Encodable(rs[i])
  }

  function EncodeAll(rs: seq<Record>): seq<Byte>
    requires AllEncodable(rs)
  {
    if rs == [] then [] else Encode(rs[0]) + EncodeAll(rs[1..])
  }

  lemma {:induction false} EncodeAppend(a: seq<Record>, b: seq<Record>)
    requires AllEncodable(a) && AllEncodable(b)
    ensures AllEncodable(a + b) && EncodeAll(a + b) == EncodeAll(a) + EncodeAll(b)
  {
    hide Encodable, Encode;
    assert AllEncodable(a + b);
    if a == [] {
      assert a + b == b;
    } else {
      assert (a + b)[1..] == a[1..] + b;
      EncodeAppend(a[1..], b);
      Associative(Encode(a[0]), EncodeAll(a[1..]), EncodeAll(b));
    }
  }

  // ----- Reading records back -----

  /** Where the record at `po` ends, if a whole one is there. */
  function RecordEnd(data: seq<Byte>, po: nat): Option<nat>
  {
    if po + 8 > |data| then None
    else
      var end := po + 8 + ReadU32(data, po) + ReadU32(data, po + 4);
      if ReadU32(data, po) == 0 || end > |data| then None else Some(end)
  }

  function RecordAt(data: seq<Byte>, po: nat): Record
    requires RecordEnd(data, po).Some?
  {
    var n := ReadU32(data, po);
    var shown := if n < MAX_TEXT then n else MAX_TEXT;
    Record(CText(data[po + 8..po + 8 + shown]), data[po + 8 + n..RecordEnd(data, po).value])
  }

  /** The records from `po` up to the first place that holds none. */
  function Parse(data: seq<Byte>, po: nat): seq<Record>
    requires po <= |data|
    decreases |data| - po
  {
    if RecordEnd(data, po).None? then []
    else [RecordAt(data, po)] + Parse(data, RecordEnd(data, po).value)
  }

  lemma RecordThere(pre: seq<Byte>, r: Record, post: seq<Byte>)
    requires Encodable(r)
    ensures
      var data := pre + Encode(r) + post;
      && RecordEnd(data, |pre|) == Some(|pre| + |Encode(r)|)
      && RecordAt(data, |pre|) == r
  {
    hide CText, TextBytes, IsText, ReadU32, U32Bytes;
    var n, m := U32Bytes(|r.path|), U32Bytes(|r.data|);
    var text := TextBytes(r.path);
    var data := pre + Encode(r) + post;
    assert data == pre + n + (m + text + r.data + post);
    ReadU32At(pre, |r.path|, m + text + r.data + post);
    assert data == (pre + n) + m + (text + r.data + post);
    ReadU32At(pre + n, |r.data|, text + r.data + post);
    var q := |pre| + 8;
    assert data[q..q + |r.path|] == text;
    assert data[q + |r.path|..q + |r.path| + |r.data|] == r.data;
    TextRoundTrip(r.path);
  }

  lemma NoRecordInZeros(pre: seq<Byte>, k: nat)
    ensures RecordEnd(pre + Zeros(k), |pre|) == None
  {
    var data := pre + Zeros(k);
    if k >= 8 {
      assert data[|pre|] == 0 && data[|pre| + 1] == 0 && data[|pre| + 2] == 0 && data[|pre| + 3] == 0;
    }
  }

  /** Parsing the zero-padded encoding of any records gives exactly those records. */
  lemma {:induction false} ParseEncoded(pre: seq<Byte>, rs: seq<Record>, k: nat)
    requires AllEncodable(rs)
    ensures Parse(pre + EncodeAll(rs) + Zeros(k), |pre|) == rs
    decreases rs
  {
    hide Encodable, Encode, RecordEnd, RecordAt, Zeros;
    if rs == [] {
      assert pre + EncodeAll(rs) == pre;
      NoRecordInZeros(pre, k);
    } else {
      var data := pre + EncodeAll(rs) + Zeros(k);
      var rest := EncodeAll(rs[1..]);
      assert data == pre + Encode(rs[0]) + (rest + Zeros(k));
      assert data == (pre + Encode(rs[0])) + rest + Zeros(k);
      RecordThere(pre, rs[0], rest + Zeros(k));
      ParseEncoded(pre + Encode(rs[0]), rs[1..], k);
    }
  }

  // ----- Any payload -----

  /** No whole record starts here: the rest is too short for a header, the path is empty, or the lengths do not fit. */
  predicate Stops(data: seq<Byte>, at: nat)
  {
    || |data| < at + 8
    || ReadU32(data, at) == 0
    || |data| < at + 8 + ReadU32(data, at) + ReadU32(data, at + 4)
  }

  function ParseEnd(data: seq<Byte>, po: nat): (end: nat)
    requires po <= |data|
    ensures po <= end <= |data|
    decreases |data| - po
  {
    if RecordEnd(data, po).None? then po else ParseEnd(data, RecordEnd(data, po).value)
  }

  predicate NoZeros(b: seq<Byte>)
  {
    forall i :: 0 <= i < |b| ==> b[i] != 0
  }

  /** Every record from here on has a path of at most 255 characters without a terminator inside. */
  predicate ClearPaths(data: seq<Byte>, po: nat)
    requires po <= |data|
    decreases |data| - po
  {
    RecordEnd(data, po).None? ||
    (&& ReadU32(data, po) <= MAX_TEXT && NoZeros(data[po + 8..po + 8 + ReadU32(data, po)])
     && ClearPaths(data, RecordEnd(data, po).value))
  }

  lemma {:induction false} TextOfBytes(b: seq<Byte>)
    requires NoZeros(b)
    ensures |CText(b)| == |b| && IsText(CText(b)) && forall i :: 0 <= i < |b| ==> CText(b)[i] as int == b[i]
  {
    if b != [] {
      TextOfBytes(b[1..]);
    }
  }

  lemma {:induction false} BytesOfText(p: string)
    requires IsText(p)
    ensures forall i :: 0 <= i < |p| ==> TextBytes(p)[i] == p[i] as int
  {
    if p != "" {
      BytesOfText(p[..|p| - 1]);
    }
  }

  lemma BytesRoundTrip(b: seq<Byte>)
    requires NoZeros(b)
    ensures IsText(CText(b)) && TextBytes(CText(b)) == b
  {
    TextOfBytes(b);
    BytesOfText(CText(b));
  }

  /** A record read from the bytes is encoded by those bytes. */
  lemma RecordIsEncoded(data: seq<Byte>, po: nat)
    requires RecordEnd(data, po).Some? && ReadU32(data, po) <= MAX_TEXT
    requires NoZeros(data[po + 8..po + 8 + ReadU32(data, po)])
    ensures Encodable(RecordAt(data, po)) && Encode(RecordAt(data, po)) == data[po..RecordEnd(data, po).value]
  {
    hide TextBytes, CText, IsText, NoZeros;
    var n, m := ReadU32(data, po), ReadU32(data, po + 4);
    var text := data[po + 8..po + 8 + n];
    var end := po + 8 + n + m;
    BytesRoundTrip(text);
    WordWas(data, po);
    WordWas(data, po + 4);
    assert RecordAt(data, po) == Record(CText(text), data[po + 8 + n..end]);
    assert |TextBytes(CText(text))| == n;
    hide ReadU32, U32Bytes;
    assert data[po..end] == data[po..po + 4] + data[po + 4..po + 8] + text + data[po + 8 + n..end];
  }

  lemma WordWas(data: seq<Byte>, at: nat)
    requires at + 4 <= |data|
    ensures U32Bytes(ReadU32(data, at)) == data[at..at + 4]
  {
    FourBytes(data[at], data[at + 1], data[at + 2], data[at + 3]);
  }

  lemma FourBytes(a: Byte, b: Byte, c: Byte, d: Byte)
    ensures var v := a as int + 0x100 * b as int + 0x1_0000 * c as int + 0x100_0000 * d as int;
      0 <= v < 0x1_0000_0000 && U32Bytes(v) == [a, b, c, d]
  {
    var x := c as int + 0x100 * d as int;
    var w := b as int + 0x100 * x;
    var v := a as int + 0x100 * w;
    assert v % 0x100 == a && v / 0x100 == w;
    assert w % 0x100 == b && v / 0x1_0000 == x;
    assert x % 0x100 == c && v / 0x100_0000 == d;
  }

  /** Of any payload, parsing reads everything up to the first place where no whole record starts: the records read,
      encoded again, are the bytes up to there. */
  lemma {:induction false} ParsedIsEncoded(data: seq<Byte>, po: nat)
    requires po <= |data| && ClearPaths(data, po)
    ensures AllEncodable(Parse(data, po)) && EncodeAll(Parse(data, po)) == data[po..ParseEnd(data, po)]
    ensures Stops(data, ParseEnd(data, po))
    decreases |data| - po
  {
    hide ReadU32, Encode, Encodable, NoZeros, RecordAt;
    if RecordEnd(data, po).Some? {
      var end := RecordEnd(data, po).value;
      RecordIsEncoded(data, po);
      ParsedIsEncoded(data, end);
      var rs := Parse(data, po);
      assert rs[1..] == Parse(data, end);
      assert data[po..end] + data[end..ParseEnd(data, end)] == data[po..ParseEnd(data, end)];
    }
  }

  // ----- The index sector -----

  const SECTOR: nat := 512

  datatype IndexEntry = IndexEntry(name: string, start: U32, sectors: U32)

  function EncodeEntry(e: IndexEntry): (b: seq<Byte>)
    requires IsText(e.name) && |e.name| < SECTOR
    ensures |b| == 12 + |e.name|
  {
    U32Bytes(|e.name|) + U32Bytes(e.start) + U32Bytes(e.sectors) + TextBytes(e.name)
  }

  predicate AreEntries(es: seq<IndexEntry>)
  {
    forall i :: 0 <= i < |es| ==> IsText(es[i].name) && |es[i].name| < SECTOR
  }

  function EncodeEntries(es: seq<IndexEntry>): seq<Byte>
    requires AreEntries(es)
  {
    if es == [] then [] else EncodeEntry(es[0]) + EncodeEntries(es[1..])
  }

  /** The sector lists these entries; what follows them is arbitrary. */
  predicate IndexHolds(buf: seq<Byte>, es: seq<IndexEntry>)
  {
    && |buf| == SECTOR && AreEntries(es) && |es| < 0x1_0000_0000
    && U32Bytes(|es|) + EncodeEntries(es) <= buf
  }

  /** Where entry `e` of the index starts, following the lengths; none if the walk leaves the sector. */
  function EntryOffset(buf: seq<Byte>, e: nat): (off: Option<nat>)
    requires |buf| == SECTOR
    ensures off.Some? ==> off.value <= SECTOR
  {
    if e == 0 then Some(4)
    else
      var prev := EntryOffset(buf, e - 1);
      if prev.None? || prev.value + 12 > SECTOR then None
      else
        var off := (prev.value + 12 + ReadU32(buf, prev.value)) % 0x1_0000_0000;
        if off > SECTOR then None else Some(off)
  }

  /** Appends an entry, if it fits. */
  function AddEntry(buf: seq<Byte>, e: IndexEntry): Option<seq<Byte>>
    requires |buf| == SECTOR && IsText(e.name)
  {
    var count := ReadU32(buf, 0);
    var off := EntryOffset(buf, count);
    if off.None? || off.value + 12 + |e.name| > SECTOR then None
    else Some(Splice(Splice(buf, off.value, EncodeEntry(e)), 0, U32Bytes((count + 1) % 0x1_0000_0000)))
  }

  /** Names are cut to this when read back. */
  const MAX_NAME: nat := 127

  function EntryAt(buf: seq<Byte>, off: nat): Option<IndexEntry>
    requires |buf| == SECTOR && off <= SECTOR
  {
    if off + 12 > SECTOR then None
    else
      var n := ReadU32(buf, off);
      if n == 0 || off + 12 + n > SECTOR then None
      else
        var shown := if n < MAX_NAME then n else MAX_NAME;
        Some(IndexEntry(CText(buf[off + 12..off + 12 + shown]), ReadU32(buf, off + 4), ReadU32(buf, off + 8)))
  }

  /** The next `n` entries from `off`, up to the first malformed or nameless one. */
  function ParseIndex(buf: seq<Byte>, off: nat, n: nat): seq<IndexEntry>
    requires |buf| == SECTOR && off <= SECTOR
    decreases n
  {
    if n == 0 then []
    else
      var e := EntryAt(buf, off);
      if e.None? then []
      else [e.value] + ParseIndex(buf, off + 12 + ReadU32(buf, off), n - 1)
  }

  /** What is read back of a list of entries: those before the first nameless one, names cut. */
  function ReadBack(es: seq<IndexEntry>): seq<IndexEntry>
  {
    if es == [] || es[0].name == "" then []
    else
      var shown := if |es[0].name| < MAX_NAME then es[0].name else es[0].name[..MAX_NAME];
      [es[0].(name := shown)] + ReadBack(es[1..])
  }

  /** Entry by entry: as many as there are before the first without a name, each with its own extent and its name, of
      which the first 127 characters. */
  lemma {:induction false} ReadBackAt(es: seq<IndexEntry>, k: nat)
    requires k < |es|
    ensures k < |ReadBack(es)| <==> forall i :: 0 <= i <= k ==> es[i].name != ""
    ensures k < |ReadBack(es)| ==>
      var e := ReadBack(es)[k];
      && e.start == es[k].start && e.sectors == es[k].sectors && e.name <= es[k].name
      && |e.name| == Min(|es[k].name|, 127)
    decreases k
  {
    if es[0].name != "" && k > 0 {
      ReadBackAt(es[1..], k - 1);
      assert forall i :: 0 < i <= k ==> es[i] == es[1..][i - 1];
      assert es[k] == es[1..][k - 1];
    }
  }

  lemma EntryThere(pre: seq<Byte>, e: IndexEntry, post: seq<Byte>)
    requires IsText(e.name) && |e.name| < SECTOR && |pre + EncodeEntry(e) + post| == SECTOR
    ensures
      var buf := pre + EncodeEntry(e) + post;
      && ReadU32(buf, |pre|) == |e.name|
      && EntryAt(buf, |pre|) ==
        if e.name == "" then None
        else Some(e.(name := if |e.name| < MAX_NAME then e.name else e.name[..MAX_NAME]))
  {
    hide CText, TextBytes, IsText, ReadU32, U32Bytes;
    var text := TextBytes(e.name);
    var buf := pre + EncodeEntry(e) + post;
    ThreeWords(pre, |e.name|, e.start, e.sectors, text, post);
    assert buf == pre + (U32Bytes(|e.name|) + U32Bytes(e.start) + U32Bytes(e.sectors) + text) + post;
    var shown := if |e.name| < MAX_NAME then |e.name| else MAX_NAME;
    var q := |pre| + 12;
    assert buf[q..q + |text|] == text;
    assert buf[q..q + shown] == buf[q..q + |text|][..shown];
    TextPrefix(e.name, shown);
    assert e.name[..|e.name|] == e.name;
  }

  lemma ThreeWords(pre: seq<Byte>, a: U32, b: U32, c: U32, text: seq<Byte>, post: seq<Byte>)
    ensures
      var buf := pre + (U32Bytes(a) + U32Bytes(b) + U32Bytes(c) + text) + post;
      ReadU32(buf, |pre|) == a && ReadU32(buf, |pre| + 4) == b && ReadU32(buf, |pre| + 8) == c
  {
    hide ReadU32, U32Bytes;
    var x, y, z := U32Bytes(a), U32Bytes(b), U32Bytes(c);
    var buf := pre + (x + y + z + text) + post;
    assert buf == pre + x + (y + z + text + post);
    ReadU32At(pre, a, y + z + text + post);
    assert buf == (pre + x) + y + (z + text + post);
    ReadU32At(pre + x, b, z + text + post);
    assert buf == (pre + x + y) + z + (text + post);
    ReadU32At(pre + x + y, c, text + post);
  }

  lemma {:induction false} TextPrefix(p: string, k: nat)
    requires IsText(p) && k <= |p|
    ensures CText(TextBytes(p)[..k]) == p[..k]
  {
    if k == |p| {
      TextRoundTrip(p);
      assert TextBytes(p)[..k] == TextBytes(p) && p[..k] == p;
    } else {
      TextPrefix(p[..|p| - 1], k);
      assert TextBytes(p)[..k] == TextBytes(p[..|p| - 1])[..k] && p[..|p| - 1][..k] == p[..k];
    }
  }

  lemma {:induction false} ParseEntries(pre: seq<Byte>, es: seq<IndexEntry>, post: seq<Byte>)
    requires AreEntries(es) && |pre + EncodeEntries(es) + post| == SECTOR
    ensures ParseIndex(pre + EncodeEntries(es) + post, |pre|, |es|) == ReadBack(es)
    decreases es
  {
    hide EncodeEntry, EntryAt, IsText, ReadU32, CText;
    if es != [] {
      var buf := pre + EncodeEntries(es) + post;
      var rest := EncodeEntries(es[1..]);
      assert buf == pre + EncodeEntry(es[0]) + (rest + post);
      assert buf == (pre + EncodeEntry(es[0])) + rest + post;
      EntryThere(pre, es[0], rest + post);
      if es[0].name != "" {
        ParseEntries(pre + EncodeEntry(es[0]), es[1..], post);
      }
    }
  }

  lemma {:induction false} OffsetOf(buf: seq<Byte>, es: seq<IndexEntry>, e: nat)
    requires IndexHolds(buf, es) && e <= |es|
    ensures AreEntries(es[..e]) && EntryOffset(buf, e) == Some(4 + |EncodeEntries(es[..e])|)
    decreases e
  {
    hide EncodeEntry, IsText, ReadU32, U32Bytes;
    if e == 0 {
      assert es[..0] == [];
    } else {
      hide EncodeEntries, IndexHolds;
      OffsetOf(buf, es, e - 1);
      EntryInside(buf, es, e - 1);
      assert es[..e] == es[..e - 1] + [es[e - 1]];
      EntriesSnoc(es[..e - 1], es[e - 1]);
      SmallMod(EntryOffset(buf, e - 1).value + 12 + |es[e - 1].name|, TWO32);
    }
  }

  /** Entry `k` sits after the ones before it. */
  lemma EntryInside(buf: seq<Byte>, es: seq<IndexEntry>, k: nat)
    requires IndexHolds(buf, es) && k < |es|
    ensures AreEntries(es[..k])
    ensures
      var off := 4 + |EncodeEntries(es[..k])|;
      off + 12 + |es[k].name| <= SECTOR && ReadU32(buf, off) == |es[k].name|
  {
    hide EncodeEntry, EncodeEntries, IsText, ReadU32, U32Bytes;
    EntriesSplit(es, k);
    var pre := U32Bytes(|es|) + EncodeEntries(es[..k]);
    var rest := EncodeEntries(es[k + 1..]);
    var whole := U32Bytes(|es|) + EncodeEntries(es);
    assert whole == pre + EncodeEntry(es[k]) + rest;
    var post := rest + buf[|whole|..];
    assert buf == pre + EncodeEntry(es[k]) + post;
    EntryThere(pre, es[k], post);
  }

  lemma {:induction false} EntriesSnoc(es: seq<IndexEntry>, e: IndexEntry)
    requires AreEntries(es) && IsText(e.name) && |e.name| < SECTOR
    ensures AreEntries(es + [e]) && EncodeEntries(es + [e]) == EncodeEntries(es) + EncodeEntry(e)
    decreases es
  {
    hide EncodeEntry, IsText;
    assert AreEntries(es + [e]);
    if es == [] {
      assert es + [e] == [e] && EncodeEntries([]) == [];
      assert [e][1..] == [];
    } else {
      assert (es + [e])[1..] == es[1..] + [e];
      EntriesSnoc(es[1..], e);
      Associative(EncodeEntry(es[0]), EncodeEntries(es[1..]), EncodeEntry(e));
    }
  }

  lemma {:induction false} EntriesSplit(es: seq<IndexEntry>, k: nat)
    requires AreEntries(es) && k < |es|
    ensures AreEntries(es[..k]) && AreEntries(es[k + 1..])
    ensures EncodeEntries(es) == EncodeEntries(es[..k]) + EncodeEntry(es[k]) + EncodeEntries(es[k + 1..])
    decreases k
  {
    hide EncodeEntry, IsText;
    if k == 0 {
      assert es[..0] == [];
    } else {
      EntriesSplit(es[1..], k - 1);
      assert es[1..][..k - 1] == es[1..k] && es[..k][1..] == es[1..k] && es[1..][k..] == es[k + 1..];
      assert es[..k][0] == es[0];
    }
  }

  /** Reading an index back gives the listed entries up to the first nameless one. */
  lemma IndexReadsBack(buf: seq<Byte>, es: seq<IndexEntry>)
    requires IndexHolds(buf, es)
    ensures ReadU32(buf, 0) == |es| && ParseIndex(buf, 4, |es|) == ReadBack(es)
  {
    hide ReadU32, U32Bytes, EncodeEntries, ReadBack, ParseIndex;
    var head := U32Bytes(|es|);
    var body := EncodeEntries(es);
    var post := buf[4 + |body|..];
    assert buf == [] + head + (body + post);
    ReadU32At([], |es|, body + post);
    assert buf == head + body + post;
    ParseEntries(head, es, post);
  }

  /** There is little room in a sector. */
  lemma {:induction false} EntriesBound(es: seq<IndexEntry>)
    requires AreEntries(es)
    ensures |EncodeEntries(es)| >= 12 * |es|
  {
    hide EncodeEntry, IsText;
    if es != [] {
      EntriesBound(es[1..]);
    }
  }

  /** Adding an entry succeeds exactly when it fits, and then the index lists it last. */
  lemma AddEntryLists(buf: seq<Byte>, es: seq<IndexEntry>, e: IndexEntry)
    requires IndexHolds(buf, es) && IsText(e.name)
    ensures AddEntry(buf, e).Some? <==> 4 + |EncodeEntries(es)| + 12 + |e.name| <= SECTOR
    ensures AddEntry(buf, e).Some? ==> IndexHolds(AddEntry(buf, e).value, es + [e])
  {
    hide ReadU32, U32Bytes, IsText, EncodeEntry, EncodeEntries, ReadBack, ParseIndex, EntryOffset, Splice;
    IndexReadsBack(buf, es);
    EntriesBound(es);
    OffsetOf(buf, es, |es|);
    assert es[..|es|] == es;
    if AddEntry(buf, e).Some? {
      EntriesSnoc(es, e);
      SmallMod(|es| + 1, TWO32);
      AppendedSector(buf, U32Bytes(|es|), EncodeEntries(es), U32Bytes(|es| + 1), EncodeEntry(e));
    }
  }

  lemma AppendedSector(buf: seq<Byte>, head: seq<Byte>, body: seq<Byte>, head': seq<Byte>, entry: seq<Byte>)
    requires head + body <= buf && |head'| == |head| && |head| + |body| + |entry| <= |buf|
    ensures head' + (body + entry) <= Splice(Splice(buf, |head| + |body|, entry), 0, head')
  {
    var off := |head| + |body|;
    var out := Splice(Splice(buf, off, entry), 0, head');
    assert body == buf[|head|..off];
    assert out[..off + |entry|] == head' + (body + entry);
  }

  /** A sector of zeros is an empty index. */
  lemma BlankIndex()
    ensures IndexHolds(Zeros(SECTOR), [])
  {
    assert U32Bytes(0) == [0, 0, 0, 0];
    assert U32Bytes(0) + EncodeEntries([]) == Zeros(SECTOR)[..4];
  }
}
