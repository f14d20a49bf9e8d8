/** Edit distance and the shell's "did you mean" suggestion. */
module EditDistance {
  import opened Bytes

  // ----- Edits -----

  datatype Edit = Insert(at: nat, c: char) | Delete(at: nat) | Replace(at: nat, c: char)

  predicate CanApply(s: string, e: Edit)
  {
    if e.Insert? then e.at <= |s| else e.at < |s|
  }

  function Apply(s: string, e: Edit): string
    requires CanApply(s, e)
  {
    match e
    case Insert(i, c) => s[..i] + [c] + s[i..]
    case Delete(i) => s[..i] + s[i + 1..]
    case Replace(i, c) => s[..i] + [c] + s[i + 1..]
  }

  /** The edits turn `a` into `b`, one after another. */
  predicate Turns(a: string, es: seq<Edit>, b: string)
    decreases |es|
  {
    if es == [] then a == b else CanApply(a, es[0]) && Turns(Apply(a, es[0]), es[1..], b)
  }

  // ----- Distance -----

  function Min3(a: nat, b: nat, c: nat): nat
  {
    var m := if a < b then a else b;
    if m < c then m else c
  }

  function Init(s: string): string
    requires s != ""
  {
    s[..|s| - 1]
  }

  function Last(s: string): char
    requires s != ""
  {
    s[|s| - 1]
  }

  function Cost(x: char, y: char): nat
  {
    if x == y then 0 else 1
  }

  /** Levenshtein distance. */
  function Distance(a: string, b: string): nat
    decreases |a| + |b|
  {
    if a == "" then |b|
    else if b == "" then |a|
    else Min3(Distance(Init(a), b) + 1, Distance(a, Init(b)) + 1, Distance(Init(a), Init(b)) + Cost(Last(a), Last(b)))
  }

  // ----- A metric -----

  lemma {:induction false} Bounds(a: string, b: string)
    ensures |a| <= |b| + Distance(a, b) && |b| <= |a| + Distance(a, b)
    ensures Distance(a, b) <= |a| + |b|
    decreases |a| + |b|
  {
    if a != "" && b != "" {
      Bounds(Init(a), b);
      Bounds(a, Init(b));
      Bounds(Init(a), Init(b));
    }
  }

  lemma {:induction false} Symmetric(a: string, b: string)
    ensures Distance(a, b) == Distance(b, a)
    decreases |a| + |b|
  {
    if a != "" && b != "" {
      Symmetric(Init(a), b);
      Symmetric(a, Init(b));
      Symmetric(Init(a), Init(b));
    }
  }

  lemma {:induction false} ZeroIffEqual(a: string, b: string)
    ensures Distance(a, b) == 0 <==> a == b
    decreases |a| + |b|
  {
    if a != "" && b != "" {
      ZeroIffEqual(Init(a), Init(b));
      assert a == Init(a) + [Last(a)] && b == Init(b) + [Last(b)];
      if a == b {
        assert Init(a) == Init(b);
      }
    }
  }

  /** The three ways the last step can go, as bounds. */
  lemma {:induction false} StepBounds(a: string, b: string)
    requires a != "" && b != ""
    ensures Distance(a, b) <= Distance(Init(a), b) + 1
    ensures Distance(a, b) <= Distance(a, Init(b)) + 1
    ensures Distance(a, b) <= Distance(Init(a), Init(b)) + Cost(Last(a), Last(b))
  {
  }

  /** Going through a third word is never shorter. */
  lemma {:induction false} Triangle(a: string, b: string, c: string)
    ensures Distance(a, c) <= Distance(a, b) + Distance(b, c)
    decreases |a| + |b| + |c|
  {
    Bounds(a, b);
    Bounds(b, c);
    Bounds(a, c);
    if a != "" && b != "" && c != "" {
      StepBounds(a, c);
      if Distance(a, b) == Distance(Init(a), b) + 1 {
        Triangle(Init(a), b, c);
      } else if Distance(b, c) == Distance(b, Init(c)) + 1 {
        Triangle(a, b, Init(c));
      } else {
        Triangle(a, Init(b), c);
        Triangle(a, Init(b), Init(c));
        Triangle(Init(a), Init(b), c);
        Triangle(Init(a), Init(b), Init(c));
      }
    }
  }

  // ----- The least number of edits -----

  lemma {:induction false} CommonTail(a: string, b: string, tail: string)
    ensures Distance(a + tail, b + tail) <= Distance(a, b)
    decreases |tail|
  {
    if tail == "" {
      assert a + tail == a && b + tail == b;
    } else {
      hide Distance;
      CommonTail(a, b, Init(tail));
      assert Init(a + tail) == a + Init(tail) && Init(b + tail) == b + Init(tail);
      assert Last(a + tail) == Last(tail) && Last(b + tail) == Last(tail);
      StepBounds(a + tail, b + tail);
    }
  }

  lemma OneEdit(a: string, e: Edit)
    requires CanApply(a, e)
    ensures Distance(a, Apply(a, e)) <= 1
  {
    hide Distance;
    var u := a[..e.at];
    ZeroIffEqual(u, u);
    match e
    case Insert(i, c) =>
      AddLast(u, c);
      CommonTail(u, u + [c], a[i..]);
      assert a == u + a[i..];
    case Delete(i) =>
      AddLast(u, a[i]);
      Symmetric(u, u + [a[i]]);
      CommonTail(u + [a[i]], u, a[i + 1..]);
      assert a == u + [a[i]] + a[i + 1..];
    case Replace(i, c) =>
      SwapLast(u, a[i], c);
      CommonTail(u + [a[i]], u + [c], a[i + 1..]);
      assert a == u + [a[i]] + a[i + 1..];
  }

  lemma {:induction false} AddLast(u: string, c: char)
    ensures Distance(u, u + [c]) <= 1
  {
    ZeroIffEqual(u, u);
    assert Init(u + [c]) == u;
    if u != "" {
      StepBounds(u, u + [c]);
    }
  }

  lemma {:induction false} SwapLast(u: string, c: char, d: char)
    ensures Distance(u + [c], u + [d]) <= 1
  {
    ZeroIffEqual(u, u);
    assert Init(u + [c]) == u && Init(u + [d]) == u;
    StepBounds(u + [c], u + [d]);
  }

  /** No list of edits beats the distance. */
  lemma {:induction false} NoShorter(a: string, es: seq<Edit>, b: string)
    requires Turns(a, es, b)
    ensures Distance(a, b) <= |es|
    decreases |es|
  {
    hide Distance;
    if es == [] {
      ZeroIffEqual(a, b);
    } else {
      var next := Apply(a, es[0]);
      NoShorter(next, es[1..], b);
      OneEdit(a, es[0]);
      Triangle(a, next, b);
    }
  }

  lemma {:induction false} TurnsMore(a: string, es: seq<Edit>, b: string, e: Edit)
    requires Turns(a, es, b) && CanApply(b, e)
    ensures Turns(a, es + [e], Apply(b, e))
    decreases |es|
  {
    if es == [] {
      assert es + [e] == [e];
    } else {
      assert (es + [e])[1..] == es[1..] + [e];
      TurnsMore(Apply(a, es[0]), es[1..], b, e);
    }
  }

  lemma {:induction false} TurnsUnder(a: string, es: seq<Edit>, b: string, c: char)
    requires Turns(a, es, b)
    ensures Turns(a + [c], es, b + [c])
    decreases |es|
  {
    if es != [] {
      assert Apply(a + [c], es[0]) == Apply(a, es[0]) + [c];
      TurnsUnder(Apply(a, es[0]), es[1..], b, c);
    }
  }

  lemma DropLast(a: string, es: seq<Edit>, b: string)
    requires a != "" && Turns(Init(a), es, b)
    ensures Turns(a, [Delete(|a| - 1)] + es, b)
  {
    assert Apply(a, Delete(|a| - 1)) == Init(a);
    assert ([Delete(|a| - 1)] + es)[1..] == es;
  }

  lemma AppendLast(a: string, es: seq<Edit>, b: string)
    requires b != "" && Turns(a, es, Init(b))
    ensures Turns(a, es + [Insert(|b| - 1, Last(b))], b)
  {
    TurnsMore(a, es, Init(b), Insert(|b| - 1, Last(b)));
    assert Apply(Init(b), Insert(|b| - 1, Last(b))) == b;
  }

  lemma ChangeLast(a: string, es: seq<Edit>, b: string) returns (more: seq<Edit>)
    requires a != "" && b != "" && Turns(Init(a), es, Init(b))
    ensures Turns(a, more, b) && |more| == |es| + Cost(Last(a), Last(b))
  {
    hide Turns;
    TurnsUnder(Init(a), es, Init(b), Last(a));
    assert Init(a) + [Last(a)] == a;
    if Last(a) == Last(b) {
      assert Init(b) + [Last(a)] == b;
      more := es;
    } else {
      var mid := Init(b) + [Last(a)];
      more := es + [Replace(|b| - 1, Last(b))];
      TurnsMore(a, es, mid, Replace(|b| - 1, Last(b)));
      assert Apply(mid, Replace(|b| - 1, Last(b))) == b;
    }
  }

  /** The distance is reached by some list of edits. */
  lemma {:induction false} Reached(a: string, b: string) returns (es: seq<Edit>)
    ensures Turns(a, es, b) && |es| == Distance(a, b)
    decreases |a| + |b|
  {
    hide Turns;
    if a == "" && b == "" {
      es := [];
      TurnsNothing(a);
    } else if b == "" || (a != "" && Distance(a, b) == Distance(Init(a), b) + 1) {
      es := Reached(Init(a), b);
      DropLast(a, es, b);
      es := [Delete(|a| - 1)] + es;
    } else if a == "" || Distance(a, b) == Distance(a, Init(b)) + 1 {
      es := Reached(a, Init(b));
      AppendLast(a, es, b);
      es := es + [Insert(|b| - 1, Last(b))];
    } else {
      es := Reached(Init(a), Init(b));
      es := ChangeLast(a, es, b);
    }
  }

  lemma TurnsNothing(a: string)
    ensures Turns(a, [], a)
  {
  }

  // ----- The two-row computation -----

  const MAX_WORD: nat := 32

  /** What the shell computes: the distance, or the sum of the lengths when a word is too long. */
  function Score(a: string, b: string): nat
  {
    if |a| > MAX_WORD || |b| > MAX_WORD then |a| + |b| else Distance(a, b)
  }

  lemma ScoreNeverBelow(a: string, b: string)
    ensures Score(a, b) >= Distance(a, b)
  {
    Bounds(a, b);
  }

  /** One cell of the table, from its neighbours. */
  lemma Cell(a: string, b: string, i: nat, j: nat)
    requires 1 <= i <= |a| && 1 <= j <= |b|
    ensures Distance(a[..i], b[..j]) == Min3(Distance(a[..i - 1], b[..j]) + 1, Distance(a[..i], b[..j - 1]) + 1,
      Distance(a[..i - 1], b[..j - 1]) + Cost(a[i - 1], b[j - 1]))
  {
    hide Distance;
    Unfolded(a[..i], b[..j]);
    assert Init(a[..i]) == a[..i - 1] && Init(b[..j]) == b[..j - 1];
  }

  lemma {:induction false} Unfolded(a: string, b: string)
    requires a != "" && b != ""
    ensures Distance(a, b) ==
      Min3(Distance(Init(a), b) + 1, Distance(a, Init(b)) + 1, Distance(Init(a), Init(b)) + Cost(Last(a), Last(b)))
  {
  }

  lemma Edges(a: string, b: string, i: nat, j: nat)
    requires i <= |a| && j <= |b|
    ensures Distance(a[..0], b[..j]) == j && Distance(a[..i], b[..0]) == i
  {
    assert a[..0] == "" && b[..0] == "";
  }

  method Compute(a: string, b: string) returns (d: nat)
    ensures d == Score(a, b)
    ensures |a| <= 32 && |b| <= 32 ==> d == Distance(a, b)
    ensures |a| > 32 || |b| > 32 ==> d == |a| + |b|
  {
    hide Distance;
    if |a| > MAX_WORD || |b| > MAX_WORD {
      return |a| + |b|;
    }
    var prev, curr := new nat[MAX_WORD + 1](i => 0), new nat[MAX_WORD + 1](i => 0);
    for j := 0 to |b| + 1
      invariant forall k :: 0 <= k < j ==> prev[k] == Distance(a[..0], b[..k])
    {
      Edges(a, b, 0, j);
      prev[j] := j;
    }
    for i := 1 to |a| + 1
      invariant forall k :: 0 <= k <= |b| ==> prev[k] == Distance(a[..i - 1], b[..k])
    {
      Edges(a, b, i, 0);
      curr[0] := i;
      for j := 1 to |b| + 1
        invariant forall k :: 0 <= k <= |b| ==> prev[k] == Distance(a[..i - 1], b[..k])
        invariant forall k :: 0 <= k < j ==> curr[k] == Distance(a[..i], b[..k])
      {
        Cell(a, b, i, j);
        var cost := if a[i - 1] == b[j - 1] then 0 else 1;
        curr[j] := Min3(prev[j] + 1, curr[j - 1] + 1, prev[j - 1] + cost);
      }
      for j := 0 to |b| + 1
        invariant forall k :: 0 <= k < j ==> prev[k] == Distance(a[..i], b[..k])
        invariant forall k :: 0 <= k <= |b| ==> curr[k] == Distance(a[..i], b[..k])
      {
        prev[j] := curr[j];
      }
    }
    assert a[..|a|] == a && b[..|b|] == b;
    return prev[|b|];
  }

  // ----- Suggestions -----

  /** The largest distance a suggestion may have. */
  function Tolerance(name: string): nat
  {
    if |name| >= 4 then 3 else 2
  }

  /** `k` is the first entry with the lowest score among the first `n`. */
  predicate IsBest(name: string, commands: seq<string>, n: nat, k: nat)
    requires n <= |commands|
  {
    && k < n
    && (forall i :: 0 <= i < n ==> Score(name, commands[k]) <= Score(name, commands[i]))
    && (forall i :: 0 <= i < k ==> Score(name, commands[k]) < Score(name, commands[i]))
  }

  /** The first of the best entries, if it is within tolerance. Scores fit 32 bits. */
  method Suggest(name: string, commands: seq<string>) returns (best: Option<string>)
    requires forall i :: 0 <= i < |commands| ==> Score(name, commands[i]) < 0xFFFF_FFFF
    ensures best.Some? ==> exists k: nat :: IsBest(name, commands, |commands|, k) && best.value == commands[k]
    ensures best.Some? ==> Score(name, best.value) <= Tolerance(name)
    ensures best.None? <==> forall i :: 0 <= i < |commands| ==>
      Score(name, commands[i]) > 3 || (Score(name, commands[i]) == 3 && |name| < 4)
  {
    hide Score;
    var bestScore := 0xFFFF_FFFF;
    var at: nat := 0;
    for i := 0 to |commands|
      invariant i > 0 ==> IsBest(name, commands, i, at) && bestScore == Score(name, commands[at])
      invariant i == 0 ==> bestScore == 0xFFFF_FFFF
    {
      var score := Compute(name, commands[i]);
      if score < bestScore {
        bestScore := score;
        at := i;
      }
    }
    if commands == [] {
      return None;
    }
    if bestScore <= 2 || (bestScore <= 3 && |name| >= 4) {
      return Some(commands[at]);
    }
    return None;
  }

  /** A suggestion from a table of ordinary words is a nearest entry by true distance, at most three edits
      away. */
  lemma SuggestionIsNearest(name: string, commands: seq<string>, k: nat)
    requires k < |commands| && Score(name, commands[k]) <= Tolerance(name)
    requires forall i :: 0 <= i < |commands| ==> Score(name, commands[k]) <= Score(name, commands[i])
    requires forall i :: 0 <= i < |commands| ==> |commands[i]| <= MAX_WORD
    ensures Distance(name, commands[k]) <= 3
    ensures forall i :: 0 <= i < |commands| ==> Distance(name, commands[k]) <= Distance(name, commands[i])
  {
    hide Distance;
    ScoreNeverBelow(name, commands[k]);
    forall i | 0 <= i < |commands| ensures Distance(name, commands[k]) <= Distance(name, commands[i]) {
      assert Score(name, commands[k]) <= Score(name, commands[i]);
    }
  }

  /** Two commands suggested for the same input are within six edits of each other. */
  lemma RivalsAreClose(name: string, a: string, b: string)
    requires Score(name, a) <= 3 && Score(name, b) <= 3
    ensures Distance(a, b) <= 6
  {
    hide Distance;
    ScoreNeverBelow(name, a);
    ScoreNeverBelow(name, b);
    Symmetric(a, name);
    Triangle(a, name, b);
  }
}
