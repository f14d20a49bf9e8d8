/** File system paths: what normalization means and how parents relate to names. */
module Paths {
  import opened Bytes

  /** Names and normalized paths fit a 64-byte buffer with its terminator. */
  const MAX_PATH: nat := 63

  // ----- Components -----

  /** Non-empty components seen so far, and the characters of the one being read. */
  datatype Scanned = Scanned(done: seq<string>, cur: string)

  function ScanChar(s: Scanned, c: char): Scanned
  {
    if c != '/' then Scanned(s.done, s.cur + [c])
    else if s.cur == "" then s
    else Scanned(s.done + [s.cur], "")
  }

  function Scan(path: string): Scanned
  {
    if path == "" then Scanned([], "") else ScanChar(Scan(path[..|path| - 1]), path[|path| - 1])
  }

  function Components(path: string): seq<string>
  {
    var s := Scan(path);
    if s.cur == "" then s.done else s.done + [s.cur]
  }

  function Slashed(cs: seq<string>): string
  {
    if cs == [] then "" else Slashed(cs[..|cs| - 1]) + "/" + cs[|cs| - 1]
  }

  lemma SlashedLength(cs: seq<string>)
    ensures |Slashed(cs)| >= |cs|
  {
  }

  /** The canonical text of a list of components. */
  function Render(cs: seq<string>): string
  {
    if cs == [] then "/" else Slashed(cs)
  }

  /** The text with single slashes, before a trailing one is dropped. */
  function Draft(s: Scanned): string
  {
    Slashed(s.done) + "/" + s.cur
  }

  /** Normalization: absolute paths only, single slashes, no trailing slash; it fails when the draft
      does not fit the buffer. */
  function Normalize(path: string): Option<string>
  {
    if path == "" || path[0] != '/' || |Draft(Scan(path))| > MAX_PATH then None
    else Some(Render(Components(path)))
  }

  // ----- Normal forms -----

  predicate IsNormal(p: string)
  {
    && p != "" && p[0] == '/'
    && (|p| > 1 ==> p[|p| - 1] != '/')
    && (forall i :: 0 <= i < |p| - 1 ==> !(p[i] == '/' && p[i + 1] == '/'))
  }

  lemma NoDoubleSlash(p: string, i: nat)
    requires IsNormal(p) && i < |p| - 1 && p[i + 1] == '/'
    ensures p[i] != '/'
  {
  }

  lemma OneIsRoot(p: string)
    requires IsNormal(p)
    ensures p != "/" ==> |p| > 1
  {
    assert |p| == 1 ==> p == "/";
  }

  predicate IsName(s: string)
  {
    s != "" && '/' !in s
  }

  predicate AreNames(cs: seq<string>)
  {
    forall i :: 0 <= i < |cs| ==> IsName(cs[i])
  }

  lemma {:induction false} ScanNames(path: string)
    ensures AreNames(Scan(path).done) && '/' !in Scan(path).cur
  {
    if path != "" {
      ScanNames(path[..|path| - 1]);
    }
  }

  lemma ComponentNames(path: string)
    ensures AreNames(Components(path))
  {
    ScanNames(path);
  }

  lemma {:induction false} SlashedNormal(cs: seq<string>)
    requires AreNames(cs) && cs != []
    ensures IsNormal(Slashed(cs)) && |Slashed(cs)| > 1
  {
    var init, last := cs[..|cs| - 1], cs[|cs| - 1];
    assert IsName(last);
    assert last[|last| - 1] in last;
    if init == [] {
      assert Slashed(cs) == "/" + last;
      SlashThenName("", last);
    } else {
      SlashedNormal(init);
      SlashThenName(Slashed(init), last);
    }
  }

  lemma SlashThenName(front: string, name: string)
    requires IsName(name) && (front == "" || (IsNormal(front) && |front| > 1))
    ensures IsNormal(front + "/" + name) && |front + "/" + name| > 1
  {
    var p := front + "/" + name;
    forall i | 0 <= i < |p| - 1 ensures !(p[i] == '/' && p[i + 1] == '/') {
      if i >= |front| {
        assert p[i + 1] == name[i - |front|];
        assert name[i - |front|] in name;
      }
    }
    assert p[|p| - 1] == name[|name| - 1];
    assert name[|name| - 1] in name;
  }

  /** Normalization yields normal forms that fit a name buffer, with the components of the input. */
  lemma NormalizeNormal(path: string)
    requires Normalize(path).Some?
    ensures IsNormal(Normalize(path).value) && |Normalize(path).value| <= MAX_PATH
  {
    var cs := Components(path);
    ComponentNames(path);
    if cs != [] {
      SlashedNormal(cs);
    }
    var s := Scan(path);
    if s.cur != "" {
      assert (s.done + [s.cur])[..|s.done|] == s.done;
      assert Slashed(s.done + [s.cur]) == Draft(s);
    }
  }

  lemma {:induction false} DraftOfNormal(p: string, k: nat)
    requires IsNormal(p) && 1 <= k <= |p|
    ensures Draft(Scan(p[..k])) == p[..k]
    ensures Scan(p[..k]).cur == "" <==> p[k - 1] == '/'
  {
    var q := p[..k];
    assert q[..|q| - 1] == p[..k - 1] && q[|q| - 1] == p[k - 1];
    if k == 1 {
      assert p[..0] == "";
      assert Scan(q) == Scanned([], "");
      assert Draft(Scan(q)) == "/";
      assert q == [p[0]];
    } else {
      DraftOfNormal(p, k - 1);
      var s := Scan(p[..k - 1]);
      assert p[..k] == p[..k - 1] + [p[k - 1]];
      if p[k - 1] == '/' {
        NoDoubleSlash(p, k - 2);
        assert (s.done + [s.cur])[..|s.done|] == s.done;
        assert Slashed(s.done + [s.cur]) == Draft(s);
        assert Draft(Scan(q)) == Draft(s) + "/";
      } else {
        assert Draft(Scan(q)) == Draft(s) + [p[k - 1]];
      }
    }
  }

  /** A normal form that fits is its own normalization. */
  lemma NormalizeIdempotent(p: string)
    requires IsNormal(p) && |p| <= MAX_PATH
    ensures Normalize(p) == Some(p)
  {
    DraftOfNormal(p, |p|);
    assert p[..|p|] == p;
    RenderNormal(p);
  }

  // ----- What normalization keeps -----

  /** Components are what the slashes separate, empty ones dropped: this and the next lemma determine them. */
  lemma {:induction false} ComponentsSplit(a: string, b: string)
    ensures Components(a + "/" + b) == Components(a) + Components(b)
  {
    ScanSplit(a, b);
  }

  lemma {:induction false} ScanSplit(a: string, b: string)
    ensures Scan(a + "/" + b) == Scanned(Components(a) + Scan(b).done, Scan(b).cur)
  {
    var p := a + "/" + b;
    if b == "" {
      assert p[..|p| - 1] == a;
    } else {
      assert p[..|p| - 1] == a + "/" + b[..|b| - 1];
      ScanSplit(a, b[..|b| - 1]);
      var s := Scan(b[..|b| - 1]);
      assert Components(a) + (s.done + [s.cur]) == Components(a) + s.done + [s.cur];
    }
  }

  lemma ComponentsOne(name: string)
    requires '/' !in name
    ensures Components(name) == if name == "" then [] else [name]
  {
    ScanOne(name);
  }

  lemma {:induction false} ScanOne(name: string)
    requires '/' !in name
    ensures Scan(name) == Scanned([], name)
  {
    if name != "" {
      assert name[|name| - 1] in name;
      ScanOne(name[..|name| - 1]);
      assert name == name[..|name| - 1] + [name[|name| - 1]];
    }
  }

  /** A slash and a component each. */
  function TotalLength(cs: seq<string>): nat
  {
    if cs == [] then 0 else TotalLength(cs[..|cs| - 1]) + 1 + |cs[|cs| - 1]|
  }

  lemma {:induction false} SlashedTotal(cs: seq<string>)
    ensures |Slashed(cs)| == TotalLength(cs)
  {
    if cs != [] {
      SlashedTotal(cs[..|cs| - 1]);
    }
  }

  /** What a path takes in the buffer while it is copied: its components with their slashes, and a trailing slash
      even though it is dropped at the end. */
  function Needed(path: string): nat
    requires path != ""
  {
    TotalLength(Components(path)) + if path[|path| - 1] == '/' then 1 else 0
  }

  /** Normalization fails exactly for relative paths and for those that do not fit while they are copied, and
      otherwise gives the one normal path with the same components. */
  lemma NormalizeExact(path: string)
    ensures Normalize(path).None? <==> path == "" || path[0] != '/' || Needed(path) > MAX_PATH
    ensures Normalize(path).Some? ==>
      var p := Normalize(path).value;
      && Components(p) == Components(path)
      && forall q :: IsNormal(q) && Components(q) == Components(path) ==> q == p
  {
    if path != "" {
      var s := Scan(path);
      ScanEnds(path);
      SlashedTotal(s.done);
      SlashedTotal(Components(path));
      if s.cur != "" {
        assert (s.done + [s.cur])[..|s.done|] == s.done;
      }
    }
    if Normalize(path).Some? {
      var p := Normalize(path).value;
      NormalizeNormal(path);
      ComponentNames(path);
      RenderComponents(Components(path));
      forall q | IsNormal(q) && Components(q) == Components(path) ensures q == p {
        RenderNormal(q);
      }
    }
  }

  lemma ScanEnds(path: string)
    requires path != ""
    ensures Scan(path).cur == "" <==> path[|path| - 1] == '/'
  {
  }

  /** Reading back the text of a list of names gives the names. */
  lemma {:induction false} RenderComponents(cs: seq<string>)
    requires AreNames(cs)
    ensures Components(Render(cs)) == cs
  {
    if cs == [] {
      assert "/"[..0] == "";
    } else {
      var init, last := cs[..|cs| - 1], cs[|cs| - 1];
      assert IsName(last);
      ComponentsSplit(Slashed(init), last);
      ComponentsOne(last);
      if init == [] {
        ComponentsOne("");
      } else {
        RenderComponents(init);
      }
      assert cs == init + [last];
    }
  }

  lemma RenderNormal(p: string)
    requires IsNormal(p)
    ensures Render(Components(p)) == p
  {
    DraftOfNormal(p, |p|);
    assert p[..|p|] == p;
    var s := Scan(p);
    if s.cur != "" {
      assert (s.done + [s.cur])[..|s.done|] == s.done;
      assert Slashed(s.done + [s.cur]) == Draft(s);
    } else {
      assert |p| == 1;
      assert p == "/";
      assert Slashed(s.done) + "/" == "/";
      assert |Slashed(s.done)| == 0;
      SlashedLength(s.done);
    }
  }

  // ----- Parents -----

  function LastSlash(p: string): (k: int)
    ensures -1 <= k < |p|
    ensures k >= 0 ==> p[k] == '/'
    ensures forall i :: k < i < |p| ==> p[i] != '/'
  {
    if p == "" then -1
    else if p[|p| - 1] == '/' then |p| - 1
    else
      var k := LastSlash(p[..|p| - 1]);
      assert forall i :: 0 <= i < |p| - 1 ==> p[..|p| - 1][i] == p[i];
      k
  }

  function Parent(p: string): string
  {
    if LastSlash(p) <= 0 then "/" else p[..LastSlash(p)]
  }

  function BaseName(p: string): string
  {
    p[LastSlash(p) + 1..]
  }

  function Join(dir: string, name: string): string
  {
    if dir == "/" then "/" + name else dir + "/" + name
  }

  /** Every normal path but the root is its parent joined with its name. */
  lemma SplitNormal(p: string)
    requires IsNormal(p) && p != "/"
    ensures IsNormal(Parent(p)) && IsName(BaseName(p)) && Join(Parent(p), BaseName(p)) == p && |Parent(p)| < |p|
  {
    var k := LastSlash(p);
    OneIsRoot(p);
    assert k >= 0;
    assert p[|p| - 1] != '/';
    assert p == p[..k] + "/" + p[k + 1..];
    if k > 0 {
      var q := p[..k];
      NoDoubleSlash(p, k - 1);
      forall i | 0 <= i < |q| - 1 ensures !(q[i] == '/' && q[i + 1] == '/') {
        assert !(p[i] == '/' && p[i + 1] == '/');
      }
    } else {
      assert p[..0] == "";
    }
  }

  /** Joining a normal directory with a name, and taking it apart again. */
  lemma JoinNormal(dir: string, name: string)
    requires IsNormal(dir) && IsName(name)
    ensures IsNormal(Join(dir, name)) && Join(dir, name) != "/"
    ensures Parent(Join(dir, name)) == dir && BaseName(Join(dir, name)) == name
    ensures |dir| < |Join(dir, name)|
  {
    var front := if dir == "/" then "" else dir;
    OneIsRoot(dir);
    SlashThenName(front, name);
    var p := front + "/" + name;
    assert p == Join(dir, name);
    var k := LastSlash(p);
    assert p[|front|] == '/';
    assert forall i :: |front| < i < |p| ==> p[i] == name[i - |front| - 1] && p[i] in name;
    assert k == |front|;
  }

  /** What a directory listing looks for: the name of `p` inside `dir`, if `p` is a direct child. */
  function ChildName(dir: string, p: string): Option<string>
  {
    var prefix := if dir == "/" then "/" else dir + "/";
    if |p| <= |prefix| || !(prefix <= p) || '/' in p[|prefix|..] then None
    else Some(p[|prefix|..])
  }

  /** The textual test finds exactly the direct children. */
  lemma ChildIffParent(dir: string, p: string)
    requires IsNormal(dir) && IsNormal(p)
    ensures ChildName(dir, p).Some? <==> p != "/" && Parent(p) == dir
    ensures ChildName(dir, p).Some? ==> ChildName(dir, p).value == BaseName(p) && Join(dir, BaseName(p)) == p
  {
    var prefix := if dir == "/" then "/" else dir + "/";
    if ChildName(dir, p).Some? {
      var name := ChildName(dir, p).value;
      assert IsName(name);
      assert p == prefix + name;
      assert p == Join(dir, name);
      JoinNormal(dir, name);
    }
    if p != "/" && Parent(p) == dir {
      SplitNormal(p);
      assert p == prefix + BaseName(p);
      assert p[|prefix|..] == BaseName(p);
    }
  }

  /** The descendants of a directory other than the root start with its name and a slash. */
  lemma ChildStartsWith(dir: string, p: string)
    requires IsNormal(p) && p != "/" && Parent(p) == dir && dir != "/"
    ensures dir + "/" <= p && p != dir
  {
    SplitNormal(p);
  }
}
