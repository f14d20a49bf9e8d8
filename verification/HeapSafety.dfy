/** Heap safety: what every allocation and every free keeps, over all runs. */
module HeapSafety {
  import opened Bytes
  import opened Heap

  // ----- Alignment -----

  lemma MultipleBelow(w: int, a: int)
    requires a > 0 && w >= 0
    ensures (w - w % a) % a == 0 && 0 <= w - w % a <= w < w - w % a + a
  {
    assert w == a * (w / a) + w % a;
    ModMultiple(w / a, a);
  }

  lemma {:induction false} ModMultiple(q: nat, a: int)
    requires a > 0
    ensures (a * q) % a == 0
  {
    if q > 0 {
      ModMultiple(q - 1, a);
      assert a * q == a * (q - 1) + a;
      AddOnce(a * (q - 1), a);
    }
  }

  lemma AddOnce(x: int, a: int)
    requires a > 0 && x >= 0
    ensures (x + a) % a == x % a
  {
    var q, r, q' := x / a, x % a, (x + a) / a;
    assert a * q + r + a == a * q' + (x + a) % a;
    SameRemainder(a, q, q', r, (x + a) % a);
  }

  lemma SameRemainder(a: int, q: int, q': int, r: int, r': int)
    requires a > 0 && 0 <= r < a && 0 <= r' < a && a * q + r + a == a * q' + r'
    ensures r' == r
  {
    var d := q' - (q + 1);
    assert a * d == r - r';
    Scaled(a, d);
  }

  /** Without wrap-around, aligning up gives the next multiple. */
  lemma AlignedUp(v: int, a: int)
    requires 0 <= v && a > 0 && v + a <= TWO32
    ensures v <= AlignUp(v, a) < v + a && AlignUp(v, a) % a == 0
  {
    MultipleBelow(v + a - 1, a);
  }

  lemma SmallPowers(a: int)
    requires IsPowerOfTwo(a) && a <= HEADER
    ensures a == 1 || a == 2 || a == 4 || a == 8 || a == 16
  {
    assert a == 1 || (a % 2 == 0 && IsPowerOfTwo(a / 2));
    if a > 1 {
      assert a / 2 == 1 || ((a / 2) % 2 == 0 && IsPowerOfTwo(a / 4));
    }
  }

  /** The multiples of `a` after `h` are `h + a` and beyond. */
  lemma NextMultiple(h: int, p: int, a: int)
    requires a > 0 && 0 <= h < p && h % a == 0 && p % a == 0
    ensures p >= h + a
  {
    var q, q' := h / a, p / a;
    assert h == a * q && p == a * q';
    MultipleOrder(a, q, q');
  }

  lemma MultipleOrder(a: int, q: int, q': int)
    requires a > 0 && a * q < a * q'
    ensures a * q + a <= a * q'
  {
    assert a * (q' - q) == a * q' - a * q;
    Scaled(a, q' - q);
  }

  lemma HeaderKeepsAlignment(h: int, a: int)
    requires IsPowerOfTwo(a) && a <= HEADER && 0 <= h && h % a == 0
    ensures (h + HEADER) % a == 0
  {
    SmallPowers(a);
    var c := if a == 16 then 1 else if a == 8 then 2 else if a == 4 then 4 else if a == 2 then 8 else 16;
    assert HEADER == a * c;
    assert h + HEADER == a * (h / a + c);
    ModMultiple(h / a + c, a);
  }

  /** The payload sits right behind the header exactly for alignments up to the header's size. */
  lemma PayloadBehindHeader(h: int, a: int)
    requires IsPowerOfTwo(a) && a > 0 && 0 <= h && h % a == 0 && h + HEADER + a <= TWO32
    ensures AlignUp(h + HEADER, a) == h + HEADER <==> a <= HEADER
  {
    hide AlignUp, IsPowerOfTwo;
    AlignedUp(h + HEADER, a);
    var p := AlignUp(h + HEADER, a);
    if a <= HEADER {
      HeaderKeepsAlignment(h, a);
      if p > h + HEADER {
        NextMultiple(h + HEADER, p, a);
      }
    } else {
      NextMultiple(h, p, a);
    }
  }

  /** Aligning up past the end of the address space gives 0. */
  lemma AlignedUpWraps(v: int, a: int)
    requires 0 <= v < TWO32 && 0 < a <= TWO32 && v + a > TWO32
    ensures AlignUp(v, a) == 0
  {
    var w := v + a - 1 - TWO32;
    assert Wrap(v + a - 1) == w;
    SmallMod(w, a);
  }

  function Pow2(n: nat): int
  {
    if n == 0 then 1 else 2 * Pow2(n - 1)
  }

  lemma {:induction false} Pow2Adds(m: nat, n: nat)
    ensures Pow2(m + n) == Pow2(m) * Pow2(n)
    decreases m
  {
    if m > 0 {
      Pow2Adds(m - 1, n);
      assert Pow2(m + n) == 2 * Pow2(m - 1 + n);
    }
  }

  lemma Pow2Of32()
    ensures Pow2(32) == TWO32
  {
    assert Pow2(2) == 4;
    Pow2Adds(2, 2);
    Pow2Adds(4, 4);
    Pow2Adds(8, 8);
    Pow2Adds(16, 16);
  }

  lemma {:induction false} PowerDivides(a: int, n: nat)
    requires IsPowerOfTwo(a) && 0 < a <= Pow2(n)
    ensures Pow2(n) % a == 0
    decreases n
  {
    if a > 1 && n > 0 {
      PowerDivides(a / 2, n - 1);
      var q := Pow2(n - 1) / (a / 2);
      assert Pow2(n - 1) == (a / 2) * q;
      assert Pow2(n) == a * q by {
        assert 2 * ((a / 2) * q) == (2 * (a / 2)) * q;
      }
      QuotientNonNegative(Pow2(n - 1), a / 2);
      ModMultiple(q, a);
    }
  }

  lemma QuotientNonNegative(x: int, a: int)
    requires x >= 0 && a > 0
    ensures x / a >= 0
  {
  }

  /** Below the end of the address space there is a whole alignment step after every multiple. */
  lemma TopMultiple(h: int, a: int)
    requires IsPowerOfTwo(a) && 0 < a < TWO32 && 0 <= h < TWO32 && h % a == 0
    ensures h + a <= TWO32
  {
    hide IsPowerOfTwo, Pow2;
    Pow2Of32();
    PowerDivides(a, 32);
    NextMultiple(h, TWO32, a);
  }

  // ----- Placement -----

  /** No multiple of the alignment lies above the header of a block that starts here: the aligned address
      comes out as 0. */
  predicate AlignmentWraps(from: int, a: int)
  {
    from + HEADER + a > TWO32
  }

  /** There is room for one aligned address but not for a second: the source then puts the header in front of
      the first. */
  predicate Squeezed(from: int, a: int)
    requires a > 0
  {
    !AlignmentWraps(from, a) && AlignUp(from + HEADER, a) + HEADER + a > TWO32
  }

  /** What a placement guarantees relative to the address it starts from. */
  predicate GoodPlacement(from: int, pl: Placement, a: int)
    requires a > 0
  {
    && from <= pl.header && pl.header + HEADER <= pl.payload && pl.payload % a == 0
    && (a <= HEADER ==> pl.payload == pl.header + HEADER)
  }

  predicate Alignment(a: int)
  {
    IsPowerOfTwo(a) && 0 < a < TWO32
  }

  lemma PlacedHeader(from: int, a: int)
    requires 0 <= from <= TWO32 - PAGE && Alignment(a) && !AlignmentWraps(from, a)
    ensures
      var h := AlignUp(from + HEADER, a);
      var p := AlignUp(h + HEADER, a);
      && from + HEADER <= h < from + HEADER + a && h % a == 0 && h + HEADER < TWO32
      && (if Squeezed(from, a) then a > HEADER && p == 0
          else h + HEADER <= p < h + HEADER + a && p % a == 0 && (p == h + HEADER <==> a <= HEADER))
  {
    hide AlignUp, IsPowerOfTwo;
    AlignedUp(from + HEADER, a);
    var h := AlignUp(from + HEADER, a);
    TopMultiple(h, a);
    if Squeezed(from, a) {
      AlignedUpWraps(h + HEADER, a);
    } else {
      AlignedUp(h + HEADER, a);
      PayloadBehindHeader(h, a);
    }
  }

  /** The header of a squeezed block: a gap before it that is too small for a list node is absorbed. */
  function SqueezedHeader(from: int, payload: int): int
  {
    if 0 < payload - HEADER - from < MIN_FREE then from else payload - HEADER
  }

  /** Whether a free block's payload ends up right behind its header. */
  predicate BehindHeader(from: int, a: int)
    requires a > 0
  {
    var h := AlignUp(from + HEADER, a);
    a <= HEADER || (Squeezed(from, a) && SqueezedHeader(from, h) == h - HEADER)
  }

  /** The three ways a block can be carved. */
  lemma PlaceInShape(b: Block, size: int, a: int)
    requires 0 <= b.start && MIN_FREE <= b.size && End(b) <= TWO32 - PAGE && Alignment(a)
    ensures
      var h := AlignUp(b.start + HEADER, a);
      var p := if Squeezed(b.start, a) then h else AlignUp(h + HEADER, a);
      var header := if Squeezed(b.start, a) then SqueezedHeader(b.start, h) else h;
      PlaceIn(b, size, a) ==
        if AlignmentWraps(b.start, a) then
          if Wrap(size) > End(b) then None else Some(AbsorbSuffix(TWO32 - HEADER, 0, Wrap(size), End(b)))
        else if Wrap(p + size) > End(b) then None
        else Some(AbsorbSuffix(header, p, Wrap(p + size), End(b)))
  {
    hide AlignUp, Alignment, AbsorbSuffix, Wrap;
    WrapSmall(b.start + HEADER);
    WrapSmall(End(b));
    if AlignmentWraps(b.start, a) {
      WrappedHeader(b, a);
    } else {
      PlacedHeader(b.start, a);
      var h := AlignUp(b.start + HEADER, a);
      WrapSmall(h + HEADER);
      WrapSmall(h - HEADER);
    }
  }

  lemma WrappedHeader(b: Block, a: int)
    requires 0 <= b.start <= TWO32 - PAGE && Alignment(a) && AlignmentWraps(b.start, a)
    ensures AlignUp(b.start + HEADER, a) == 0 && 0 < b.start && Wrap(0 - HEADER) == TWO32 - HEADER
  {
    hide AlignUp;
    AlignedUpWraps(b.start + HEADER, a);
    PowerHalf(a);
  }

  lemma PowerHalf(a: int)
    requires Alignment(a)
    ensures 2 * a <= TWO32
  {
    hide IsPowerOfTwo;
    TopMultiple(0, a);
    ZeroMod(a);
    if 2 * a > TWO32 {
      TopMultiple(a, a);
    }
  }

  lemma ZeroMod(a: int)
    requires a > 0
    ensures 0 % a == 0 && a % a == 0
  {
    AddOnce(0, a);
  }

  /** An accepted placement; it stays inside the block exactly when the payload's end does not wrap. */
  lemma PlacedIn(b: Block, size: int, a: int)
    requires 0 <= b.start && MIN_FREE <= b.size && End(b) <= TWO32 - PAGE && Alignment(a) && 0 < size < TWO32
    requires PlaceIn(b, size, a).Some? && !AlignmentWraps(b.start, a)
    ensures var pl := PlaceIn(b, size, a).value;
      && GoodPlacement(b.start, pl, a) && pl.payload > 0
      && (pl.header == b.start || pl.header >= b.start + MIN_FREE)
      && pl.end <= End(b) && (pl.end == End(b) || pl.end + MIN_FREE <= End(b))
      && (pl.payload + size < TWO32 ==> pl.payload + size <= pl.end)
      && (pl.payload + size >= TWO32 ==> pl.end == pl.payload + size - TWO32 || pl.end == End(b))
  {
    hide AlignUp, Alignment, PlaceIn;
    PlaceInShape(b, size, a);
    PlacedHeader(b.start, a);
  }

  lemma PlacedBehind(b: Block, size: int, a: int)
    requires 0 <= b.start && MIN_FREE <= b.size && End(b) <= TWO32 - PAGE && Alignment(a)
    requires PlaceIn(b, size, a).Some? && !AlignmentWraps(b.start, a)
    ensures var pl := PlaceIn(b, size, a).value;
      pl.payload == pl.header + HEADER <==> BehindHeader(b.start, a)
  {
    hide AlignUp, Alignment, PlaceIn, Wrap;
    PlaceInShape(b, size, a);
    PlacedHeader(b.start, a);
  }

  lemma PlacedBump(brk: int, size: int, a: int)
    requires 0 <= brk <= TWO32 - PAGE && Alignment(a) && 0 < size < TWO32 && !AlignmentWraps(brk, a)
    ensures
      var pl := BumpPlacement(brk, size, a);
      && pl.end == Wrap(pl.payload + size) && GoodPlacement(brk, pl, a) && pl.payload > 0
      && (pl.payload == pl.header + HEADER <==> a <= HEADER || Squeezed(brk, a))
  {
    hide AlignUp, Alignment, Wrap;
    PlacedHeader(brk, a);
    var h := AlignUp(brk + HEADER, a);
    WrapSmall(brk + HEADER);
    WrapSmall(h + HEADER);
    WrapSmall(h - HEADER);
  }

  lemma WrapSmall(x: int)
    requires 0 <= x < TWO32
    ensures Wrap(x) == x
  {
  }

  /** Past the last aligned address the break's payload is 0 and its header the last one there is. */
  lemma WrappedBump(brk: int, size: int, a: int)
    requires 0 <= brk <= TWO32 - PAGE && Alignment(a) && 0 < size < TWO32 && AlignmentWraps(brk, a)
    ensures BumpPlacement(brk, size, a) == Placement(TWO32 - HEADER, 0, size)
  {
    hide AlignUp, Alignment;
    WrappedHeader(Block(brk, 0), a);
    assert Wrap(brk + HEADER) == brk + HEADER && Wrap(0 + size) == size;
  }

  // ----- Free list -----

  lemma OrderedCons(f: Block, rest: seq<Block>, lo: int, hi: int)
    requires lo <= f.start && MIN_FREE <= f.size && End(f) <= hi && OrderedFree(rest, End(f) + 1, hi)
    ensures OrderedFree([f] + rest, lo, hi)
  {
  }

  lemma OrderedTail(fl: seq<Block>, lo: int, hi: int)
    requires OrderedFree(fl, lo, hi) && fl != []
    ensures OrderedFree(fl[1..], End(fl[0]) + 1, hi)
    ensures lo <= fl[0].start && MIN_FREE <= fl[0].size && End(fl[0]) <= hi
  {
  }

  lemma OrderedWeaken(fl: seq<Block>, lo: int, hi: int, lo': int, hi': int)
    requires OrderedFree(fl, lo, hi) && lo' <= lo && hi <= hi'
    ensures OrderedFree(fl, lo', hi')
  {
  }

  lemma MergeNextOrdered(b: Block, fl: seq<Block>, lo: int, hi: int)
    requires OrderedFree(fl, End(b), hi) && lo <= b.start && MIN_FREE <= b.size && End(b) <= hi < TWO32 && 0 <= b.start
    ensures OrderedFree(MergeNext(b, fl), lo, hi)
    ensures FreeBytes(MergeNext(b, fl)) == b.size + FreeBytes(fl)
  {
    hide OrderedFree, FreeBytes;
    if fl != [] {
      OrderedTail(fl, End(b), hi);
      assert fl == [fl[0]] + fl[1..];
      BytesCons(fl[0], fl[1..]);
    }
    if fl != [] && End(b) == fl[0].start {
      var merged := Block(b.start, b.size + fl[0].size);
      OrderedCons(merged, fl[1..], lo, hi);
      BytesCons(merged, fl[1..]);
    } else {
      OrderedFromFirst(fl, End(b), hi);
      OrderedCons(b, fl, lo, hi);
      BytesCons(b, fl);
    }
  }

  /** If the first block starts past `lo`, they all do. */
  lemma OrderedFromFirst(fl: seq<Block>, lo: int, hi: int)
    requires OrderedFree(fl, lo, hi) && (fl != [] ==> lo < fl[0].start)
    ensures OrderedFree(fl, lo + 1, hi)
  {
    forall i | 0 <= i < |fl| ensures lo + 1 <= fl[i].start {
      if i > 0 {
        assert End(fl[0]) < fl[i].start;
      }
    }
  }

  lemma OrderedAfter(fl: seq<Block>, b: Block, lo: int, hi: int)
    requires OrderedFree(fl, lo, hi) && ClearOf(fl, b.start, End(b)) && b.size >= MIN_FREE
    requires fl != [] ==> fl[0].start >= b.start
    ensures OrderedFree(fl, End(b), hi)
  {
    forall i | 0 <= i < |fl| ensures End(b) <= fl[i].start {
      assert Apart(fl[i].start, End(fl[i]), b.start, End(b));
      if i > 0 {
        assert End(fl[0]) < fl[i].start;
      }
    }
  }

  lemma ClearTail(fl: seq<Block>, x: int, y: int)
    requires fl != [] && ClearOf(fl, x, y)
    ensures Apart(fl[0].start, End(fl[0]), x, y) && ClearOf(fl[1..], x, y)
  {
  }

  lemma BytesCons(f: Block, rest: seq<Block>)
    ensures FreeBytes([f] + rest) == f.size + FreeBytes(rest)
  {
    assert ([f] + rest)[1..] == rest;
  }

  /** Insertion keeps the list ordered and coalesced and adds exactly the block's bytes. */
  lemma {:induction false} InsertOrdered(fl: seq<Block>, b: Block, lo: int, hi: int)
    requires OrderedFree(fl, lo, hi) && ClearOf(fl, b.start, End(b))
    requires 0 <= lo <= b.start && MIN_FREE <= b.size && End(b) <= hi < TWO32
    ensures OrderedFree(InsertFree(fl, b), lo, hi)
    ensures FreeBytes(InsertFree(fl, b)) == FreeBytes(fl) + b.size
  {
    hide OrderedFree, ClearOf, FreeBytes, MergeNext;
    if fl == [] || fl[0].start >= b.start {
      OrderedAfter(fl, b, lo, hi);
      MergeNextOrdered(b, fl, lo, hi);
    } else {
      var f, rest := fl[0], fl[1..];
      OrderedTail(fl, lo, hi);
      ClearTail(fl, b.start, End(b));
      assert fl == [f] + rest;
      BytesCons(f, rest);
      if |fl| > 1 && fl[1].start < b.start {
        OrderedTail2(fl, lo, hi);
        InsertOrdered(rest, b, End(f) + 1, hi);
        OrderedCons(f, InsertFree(rest, b), lo, hi);
        BytesCons(f, InsertFree(rest, b));
      } else {
        OrderedAfter(rest, b, End(f) + 1, hi);
        if End(f) == b.start {
          MergeNextOrdered(Block(f.start, f.size + b.size), rest, lo, hi);
        } else {
          MergeNextOrdered(b, rest, End(f) + 1, hi);
          OrderedCons(f, MergeNext(b, rest), lo, hi);
          BytesCons(f, MergeNext(b, rest));
        }
      }
    }
  }

  lemma OrderedTail2(fl: seq<Block>, lo: int, hi: int)
    requires OrderedFree(fl, lo, hi) && |fl| > 1
    ensures End(fl[0]) < fl[1].start
  {
  }

  lemma MergeNextClear(b: Block, fl: seq<Block>, x: int, y: int)
    requires x < y && ClearOf(fl, x, y) && Apart(b.start, End(b), x, y)
    requires 0 <= b.start && 0 <= End(b) < TWO32
    ensures ClearOf(MergeNext(b, fl), x, y)
  {
    var out := MergeNext(b, fl);
    forall i | 0 <= i < |out| ensures Apart(out[i].start, End(out[i]), x, y) {
      if fl != [] && End(b) == fl[0].start {
        assert i > 0 ==> out[i] == fl[i];
        assert Apart(fl[0].start, End(fl[0]), x, y);
      } else {
        assert i > 0 ==> out[i] == fl[i - 1];
      }
    }
  }

  /** Whatever lies clear of the list and of the new block lies clear of the result. */
  lemma {:induction false} InsertClear(fl: seq<Block>, b: Block, lo: int, hi: int, x: int, y: int)
    requires OrderedFree(fl, lo, hi) && 0 <= lo <= b.start && MIN_FREE <= b.size && End(b) <= hi < TWO32
    requires x < y && ClearOf(fl, x, y) && Apart(b.start, End(b), x, y)
    ensures ClearOf(InsertFree(fl, b), x, y)
  {
    hide OrderedFree, ClearOf, MergeNext;
    if fl == [] || fl[0].start >= b.start {
      MergeNextClear(b, fl, x, y);
    } else {
      var f, rest := fl[0], fl[1..];
      OrderedTail(fl, lo, hi);
      ClearTail(fl, x, y);
      if |fl| > 1 && fl[1].start < b.start {
        OrderedTail2(fl, lo, hi);
        InsertClear(rest, b, End(f) + 1, hi, x, y);
        ClearCons(f, InsertFree(rest, b), x, y);
      } else if End(f) == b.start {
        MergeNextClear(Block(f.start, f.size + b.size), rest, x, y);
      } else {
        MergeNextClear(b, rest, x, y);
        ClearCons(f, MergeNext(b, rest), x, y);
      }
    }
  }

  lemma ClearCons(f: Block, rest: seq<Block>, x: int, y: int)
    requires Apart(f.start, End(f), x, y) && ClearOf(rest, x, y)
    ensures ClearOf([f] + rest, x, y)
  {
  }

  /** Insertion covers exactly the addresses of the list and of the new block. */
  predicate Covers(fl: seq<Block>, x: int)
  {
    exists i :: 0 <= i < |fl| && fl[i].start <= x < End(fl[i])
  }

  lemma CoversCons(f: Block, rest: seq<Block>, x: int)
    ensures Covers([f] + rest, x) <==> f.start <= x < End(f) || Covers(rest, x)
  {
    var all := [f] + rest;
    if Covers(rest, x) {
      var i :| 0 <= i < |rest| && rest[i].start <= x < End(rest[i]);
      assert all[i + 1] == rest[i];
    }
    if f.start <= x < End(f) {
      assert all[0] == f;
    }
    if Covers(all, x) {
      var i :| 0 <= i < |all| && all[i].start <= x < End(all[i]);
      if i > 0 {
        assert rest[i - 1] == all[i];
      }
    }
  }

  lemma CoversFirst(fl: seq<Block>, x: int)
    requires fl != []
    ensures Covers(fl, x) <==> fl[0].start <= x < End(fl[0]) || Covers(fl[1..], x)
  {
    assert [fl[0]] + fl[1..] == fl;
    CoversCons(fl[0], fl[1..], x);
  }

  lemma MergeNextCovers(b: Block, fl: seq<Block>, x: int)
    requires 0 <= End(b) < TWO32 && 0 <= b.size && (fl != [] ==> 0 <= fl[0].size)
    ensures Covers(MergeNext(b, fl), x) <==> b.start <= x < End(b) || Covers(fl, x)
  {
    hide Covers;
    if fl != [] && End(b) == fl[0].start {
      CoversCons(Block(b.start, b.size + fl[0].size), fl[1..], x);
      CoversFirst(fl, x);
    } else {
      CoversCons(b, fl, x);
    }
  }

  lemma {:induction false} InsertCovers(fl: seq<Block>, b: Block, lo: int, hi: int, x: int)
    requires OrderedFree(fl, lo, hi) && 0 <= lo <= b.start && MIN_FREE <= b.size && End(b) <= hi < TWO32
    ensures Covers(InsertFree(fl, b), x) <==> b.start <= x < End(b) || Covers(fl, x)
  {
    hide Covers, MergeNext;
    if fl == [] || fl[0].start >= b.start {
      MergeNextCovers(b, fl, x);
    } else {
      var f, rest := fl[0], fl[1..];
      OrderedTail(fl, lo, hi);
      CoversFirst(fl, x);
      assert rest != [] ==> 0 <= rest[0].size;
      if |fl| > 1 && fl[1].start < b.start {
        InsertCovers(rest, b, End(f) + 1, hi, x);
        CoversCons(f, InsertFree(rest, b), x);
      } else if End(f) == b.start {
        MergeNextCovers(Block(f.start, f.size + b.size), rest, x);
      } else {
        MergeNextCovers(b, rest, x);
        CoversCons(f, MergeNext(b, rest), x);
      }
    }
  }

  /** `Release` with a size that is 0 or large enough. */
  lemma ReleaseKeeps(fl: seq<Block>, start: int, size: int, lo: int, hi: int)
    requires OrderedFree(fl, lo, hi) && ClearOf(fl, start, start + size)
    requires 0 <= lo <= start && start + size <= hi < TWO32 && (size == 0 || MIN_FREE <= size)
    ensures OrderedFree(Release(fl, start, size), lo, hi)
    ensures FreeBytes(Release(fl, start, size)) == FreeBytes(fl) + size
  {
    if size != 0 {
      InsertOrdered(fl, Block(start, size), lo, hi);
    }
  }

  lemma ReleaseClear(fl: seq<Block>, start: int, size: int, lo: int, hi: int, x: int, y: int)
    requires OrderedFree(fl, lo, hi)
    requires 0 <= lo <= start && start + size <= hi < TWO32 && (size == 0 || MIN_FREE <= size)
    requires x < y && ClearOf(fl, x, y) && Apart(start, start + size, x, y)
    ensures ClearOf(Release(fl, start, size), x, y)
  {
    if size != 0 {
      InsertClear(fl, Block(start, size), lo, hi, x, y);
    }
  }

  // ----- Sums -----

  lemma {:induction false} FreeBytesSplit(fl: seq<Block>, k: nat)
    requires k < |fl|
    ensures FreeBytes(fl) == FreeBytes(fl[..k]) + fl[k].size + FreeBytes(fl[k + 1..])
  {
    if k > 0 {
      FreeBytesSplit(fl[1..], k - 1);
      assert fl[1..][..k - 1] == fl[..k][1..];
      assert fl[1..][k..] == fl[k + 1..];
    }
  }

  lemma {:induction false} FreeBytesNonNegative(fl: seq<Block>)
    requires forall i :: 0 <= i < |fl| ==> 0 <= fl[i].size
    ensures 0 <= FreeBytes(fl)
  {
    if fl != [] {
      FreeBytesNonNegative(fl[1..]);
    }
  }

  lemma LiveAppend(live: seq<Alloc>, al: Alloc)
    ensures LiveSizes(live + [al]) == LiveSizes(live) + al.size
    ensures LiveBytes(live + [al]) == LiveBytes(live) + al.bytes
  {
    var all := live + [al];
    assert all[..|all| - 1] == live;
  }

  lemma {:induction false} LiveWithout(live: seq<Alloc>, k: nat)
    requires k < |live|
    ensures LiveSizes(Without(live, k)) == LiveSizes(live) - live[k].size
    ensures LiveBytes(Without(live, k)) == LiveBytes(live) - live[k].bytes
  {
    var n := |live| - 1;
    var out := Without(live, k);
    if k == n {
      assert out == live[..n];
    } else {
      LiveWithout(live[..n], k);
      assert out[..|out| - 1] == Without(live[..n], k);
      assert out[|out| - 1] == live[n];
    }
  }

  lemma {:induction false} LiveBounds(live: seq<Alloc>, lo: int, hi: int)
    requires forall i :: 0 <= i < |live| ==> GoodAlloc(live[i], lo, hi)
    ensures 0 <= LiveBytes(live) <= LiveSizes(live)
    ensures forall i :: 0 <= i < |live| ==> live[i].bytes <= LiveBytes(live)
  {
    hide IsPowerOfTwo;
    if live != [] {
      var n := |live| - 1;
      LiveBounds(live[..n], lo, hi);
      assert forall i :: 0 <= i < n ==> live[i] == live[..n][i];
    }
  }

  // ----- Live blocks -----

  /** A new block that is apart from all others joins the live ones. */
  lemma LiveGrows(live: seq<Alloc>, fl: seq<Block>, fl': seq<Block>, lo: int, hi: int, hi': int, al: Alloc)
    requires GoodLive(live, fl, lo, hi) && hi <= hi' && GoodAlloc(al, lo, hi')
    requires forall i :: 0 <= i < |live| ==> ClearOf(fl', live[i].header, live[i].header + live[i].size)
    requires ClearOf(fl', al.header, al.header + al.size)
    requires forall i :: 0 <= i < |live| ==>
      Apart(live[i].header, live[i].header + live[i].size, al.header, al.header + al.size)
    ensures GoodLive(live + [al], fl', lo, hi')
  {
    hide IsPowerOfTwo, ClearOf;
    var all := live + [al];
    forall i | 0 <= i < |all|
      ensures GoodAlloc(all[i], lo, hi') && ClearOf(fl', all[i].header, all[i].header + all[i].size)
    {
      if i < |live| {
        assert all[i] == live[i];
      }
    }
  }

  lemma LiveShrinks(live: seq<Alloc>, fl: seq<Block>, fl': seq<Block>, lo: int, hi: int, k: nat)
    requires GoodLive(live, fl, lo, hi) && k < |live|
    requires forall i :: 0 <= i < |live| && i != k ==> ClearOf(fl', live[i].header, live[i].header + live[i].size)
    ensures GoodLive(Without(live, k), fl', lo, hi)
  {
    hide GoodAlloc, ClearOf;
    var out := Without(live, k);
    forall i | 0 <= i < |out|
      ensures GoodAlloc(out[i], lo, hi) && ClearOf(fl', out[i].header, out[i].header + out[i].size)
    {
      var i' := if i < k then i else i + 1;
      assert out[i] == live[i'];
    }
    forall i, j | 0 <= i < j < |out|
      ensures Apart(out[i].header, out[i].header + out[i].size, out[j].header, out[j].header + out[j].size)
    {
      var i', j' := if i < k then i else i + 1, if j < k then j else j + 1;
      assert out[i] == live[i'] && out[j] == live[j'] && i' < j';
    }
  }

  lemma GoodAllocSize(al: Alloc, lo: int, hi: int)
    requires GoodAlloc(al, lo, hi)
    ensures HEADER < al.size && 0 < al.bytes && al.header < al.header + al.size <= hi
  {
  }

  // ----- Taking a free block -----

  /** Block `k` can be carved at this placement. */
  predicate Carvable(s: State, k: nat, pl: Placement, a: int)
  {
    && Geometry(s) && OrderedFree(s.free, s.start, s.brk) && k < |s.free|
    && a > 0 && GoodPlacement(s.free[k].start, pl, a) && pl.payload < pl.end
    && (pl.header == s.free[k].start || pl.header >= s.free[k].start + MIN_FREE)
    && (pl.end == End(s.free[k]) || pl.end + MIN_FREE <= End(s.free[k]))
  }

  function WithPrefix(s: State, k: nat, pl: Placement): seq<Block>
    requires k < |s.free|
  {
    Release(s.free[k + 1..], s.free[k].start, pl.header - s.free[k].start)
  }

  function Carved(s: State, k: nat, pl: Placement): seq<Block>
    requires k < |s.free|
  {
    Release(WithPrefix(s, k, pl), pl.end, End(s.free[k]) - pl.end)
  }

  lemma RestAfter(s: State, k: nat)
    requires OrderedFree(s.free, s.start, s.brk) && k < |s.free|
    ensures OrderedFree(s.free[k + 1..], s.start, s.brk)
    ensures s.start <= s.free[k].start && End(s.free[k]) <= s.brk
    ensures ClearOf(s.free[k + 1..], s.free[k].start, End(s.free[k]))
  {
    var rest := s.free[k + 1..];
    assert forall i :: 0 <= i < |rest| ==> rest[i] == s.free[k + 1 + i];
  }

  lemma RestClear(s: State, k: nat, x: int, y: int)
    requires k < |s.free| && ClearOf(s.free, x, y)
    ensures ClearOf(s.free[k + 1..], x, y) && Apart(s.free[k].start, End(s.free[k]), x, y)
  {
  }

  /** The free list after block `k` has been carved up, and what it leaves alone. */
  lemma CarvedList(s: State, k: nat, pl: Placement, a: int)
    requires Carvable(s, k, pl, a)
    ensures OrderedFree(Carved(s, k, pl), s.start, s.brk)
    ensures FreeBytes(Carved(s, k, pl))
         == FreeBytes(s.free[k + 1..]) + s.free[k].size - (pl.end - pl.header)
    ensures ClearOf(Carved(s, k, pl), pl.header, pl.end)
    ensures OrderedFree(WithPrefix(s, k, pl), s.start, s.brk)
  {
    hide Release, OrderedFree, ClearOf, FreeBytes;
    var b, rest := s.free[k], s.free[k + 1..];
    RestAfter(s, k);
    ClearPart(rest, b.start, End(b), b.start, pl.header);
    ClearPart(rest, b.start, End(b), pl.header, End(b));
    ReleaseKeeps(rest, b.start, pl.header - b.start, s.start, s.brk);
    ReleaseClear(rest, b.start, pl.header - b.start, s.start, s.brk, pl.header, End(b));
    var mid := WithPrefix(s, k, pl);
    ClearPart(mid, pl.header, End(b), pl.end, End(b));
    ReleaseKeeps(mid, pl.end, End(b) - pl.end, s.start, s.brk);
    ClearPart(mid, pl.header, End(b), pl.header, pl.end);
    ReleaseClear(mid, pl.end, End(b) - pl.end, s.start, s.brk, pl.header, pl.end);
  }

  lemma CarvedClear(s: State, k: nat, pl: Placement, a: int, x: int, y: int)
    requires Carvable(s, k, pl, a) && x < y && ClearOf(s.free, x, y)
    ensures ClearOf(Carved(s, k, pl), x, y)
  {
    hide Release, OrderedFree, ClearOf, FreeBytes;
    var b, rest := s.free[k], s.free[k + 1..];
    RestAfter(s, k);
    RestClear(s, k, x, y);
    CarvedList(s, k, pl, a);
    ReleaseClear(rest, b.start, pl.header - b.start, s.start, s.brk, x, y);
    ReleaseClear(WithPrefix(s, k, pl), pl.end, End(b) - pl.end, s.start, s.brk, x, y);
  }

  lemma ClearPart(fl: seq<Block>, lo: int, hi: int, lo': int, hi': int)
    requires ClearOf(fl, lo, hi) && lo <= lo' <= hi' <= hi
    ensures ClearOf(fl, lo', hi')
  {
    forall i | 0 <= i < |fl| ensures Apart(fl[i].start, End(fl[i]), lo', hi') {
      assert Apart(fl[i].start, End(fl[i]), lo, hi);
    }
  }

  /** A taken block inside its free block is apart from everything live. */
  lemma TakenApart(s: State, k: nat, lo: int, hi: int)
    requires GoodLive(s.live, s.free, s.start, s.brk) && k < |s.free|
    requires s.free[k].start <= lo <= hi <= End(s.free[k])
    ensures forall i :: 0 <= i < |s.live| ==>
      Apart(s.live[i].header, s.live[i].header + s.live[i].size, lo, hi)
  {
    hide GoodAlloc;
    forall i | 0 <= i < |s.live| ensures Apart(s.live[i].header, s.live[i].header + s.live[i].size, lo, hi) {
      assert ClearOf(s.free, s.live[i].header, s.live[i].header + s.live[i].size);
      assert Apart(s.free[k].start, End(s.free[k]), s.live[i].header, s.live[i].header + s.live[i].size);
    }
  }

  /** The sizes and alignments a request may have: any 32-bit size, any 32-bit power of two. */
  predicate ValidRequest(size: int, a: int)
  {
    Alignment(a) && 0 <= size < TWO32
  }

  lemma NewAlloc(pl: Placement, from: int, size: int, a: int, lo: int, hi: int)
    requires IsPowerOfTwo(a) && a > 0 && GoodPlacement(from, pl, a) && lo <= from && 0 < size
    requires 0 <= pl.header && pl.payload + size <= pl.end <= hi < TWO32
    ensures GoodAlloc(Alloc(pl.header, Wrap(pl.end - pl.header), pl.payload, size, a), lo, hi)
    ensures Wrap(pl.end - pl.header) == pl.end - pl.header
  {
    hide IsPowerOfTwo;
  }

  /** Taking a block keeps the invariant when the payload's end does not wrap. */
  lemma TakeKeepsInv(s: State, k: nat, size: int, a: int)
    requires Inv(s) && ValidRequest(size, a) && 0 < size
    requires k < |s.free| && PlaceIn(s.free[k], size, a).Some? && !AlignmentWraps(s.free[k].start, a)
    requires PlaceIn(s.free[k], size, a).value.payload + size < TWO32
    ensures Inv(TakeBlock(s, k, PlaceIn(s.free[k], size, a).value, size, a))
  {
    hide PlaceIn, Carved, Inv, IsPowerOfTwo;
    var b := s.free[k];
    var pl := PlaceIn(b, size, a).value;
    BlockBounds(s, k);
    PlacedIn(b, size, a);
    CarveKeepsInv(s, k, pl, size, a);
  }

  /** The live blocks after block `k` has been carved up. */
  lemma CarvedLive(s: State, k: nat, pl: Placement, size: int, a: int)
    requires Inv(s) && ValidRequest(size, a) && 0 < size && Carvable(s, k, pl, a)
    requires pl.payload + size <= pl.end
    ensures
      var al := Alloc(pl.header, pl.end - pl.header, pl.payload, size, a);
      && TakeBlock(s, k, pl, size, a).free == Carved(s, k, pl)
      && TakeBlock(s, k, pl, size, a).live == s.live + [al]
      && GoodLive(s.live + [al], Carved(s, k, pl), s.start, s.brk)
  {
    hide IsPowerOfTwo, Release, LiveBytes, LiveSizes, FreeBytes, GoodAlloc, ClearOf, OrderedFree, GoodLive, Wrap;
    BlockBounds(s, k);
    WrapSmall(End(s.free[k]));
    CarvedList(s, k, pl, a);
    TakenApart(s, k, pl.header, pl.end);
    NewAlloc(pl, s.free[k].start, size, a, s.start, s.brk);
    var al := Alloc(pl.header, pl.end - pl.header, pl.payload, size, a);
    LiveParts(s.live, s.free, s.start, s.brk);
    forall i | 0 <= i < |s.live|
      ensures ClearOf(Carved(s, k, pl), s.live[i].header, s.live[i].header + s.live[i].size)
    {
      GoodAllocSize(s.live[i], s.start, s.brk);
      CarvedClear(s, k, pl, a, s.live[i].header, s.live[i].header + s.live[i].size);
    }
    LiveGrows(s.live, s.free, Carved(s, k, pl), s.start, s.brk, s.brk, al);
  }

  lemma CarveKeepsInv(s: State, k: nat, pl: Placement, size: int, a: int)
    requires Inv(s) && ValidRequest(size, a) && 0 < size && Carvable(s, k, pl, a)
    requires pl.payload + size <= pl.end
    ensures Inv(TakeBlock(s, k, pl, size, a))
  {
    hide IsPowerOfTwo, Release, LiveBytes, LiveSizes, FreeBytes, GoodAlloc, ClearOf, OrderedFree, GoodLive, Carved,
         Wrap;
    var s' := TakeBlock(s, k, pl, size, a);
    BlockBounds(s, k);
    CarvedList(s, k, pl, a);
    CarvedLive(s, k, pl, size, a);
    LiveAppend(s.live, Alloc(pl.header, pl.end - pl.header, pl.payload, size, a));
    FreeBytesSplit(s.free, k);
    DroppedBytes(s, k);
    LiveParts(s'.live, s'.free, s.start, s.brk);
    LiveBounds(s'.live, s.start, s.brk);
    LiveParts(s.live, s.free, s.start, s.brk);
    LiveBounds(s.live, s.start, s.brk);
    RemainingBytes(s');
    WrapSmall(s.active + size);
  }

  lemma BlockBounds(s: State, k: nat)
    requires Inv(s) && k < |s.free|
    ensures 0 <= s.start <= s.free[k].start && MIN_FREE <= s.free[k].size
    ensures End(s.free[k]) <= s.brk <= s.limit <= TWO32 - PAGE
    ensures Geometry(s) && OrderedFree(s.free, s.start, s.brk)
  {
  }

  lemma DroppedBytes(s: State, k: nat)
    requires OrderedFree(s.free, s.start, s.brk) && k <= |s.free|
    ensures 0 <= FreeBytes(s.free[..k])
  {
    FreeBytesNonNegative(s.free[..k]);
  }

  lemma RemainingBytes(s: State)
    requires OrderedFree(s.free, s.start, s.brk)
    ensures 0 <= FreeBytes(s.free)
  {
    FreeBytesNonNegative(s.free);
  }

  // ----- Growing -----

  /** Growing keeps the invariant unless the alignment wraps and the request is served all the same. */
  lemma BumpKeepsInv(s: State, size: int, a: int, pages: nat)
    requires Inv(s) && ValidRequest(size, a) && 0 < size
    ensures Inv(BumpAlloc(s, size, a, pages).0) <==> !BumpBreaks(s, size, a, pages)
  {
    hide BumpPlacement, IsPowerOfTwo, PagesNeeded, LiveBytes, LiveSizes, FreeBytes, OrderedFree, GoodLive, GoodAlloc,
      AlignUp;
    if AlignmentWraps(s.brk, a) {
      BumpAtNull(s, size, a, pages);
    } else {
      PlacedBump(s.brk, size, a);
      var pl := BumpPlacement(s.brk, size, a);
      if pl.payload <= pl.end <= s.limit {
        assert pl.payload + size == pl.end;
        hide Wrap;
        PagesFit(s, pl.end, pages);
        if PagesNeeded(s.mapped, pl.end) <= pages {
          BumpGrows(s, pl, size, a);
        }
      }
    }
  }

  lemma BumpAtNull(s: State, size: int, a: int, pages: nat)
    requires Inv(s) && ValidRequest(size, a) && 0 < size && AlignmentWraps(s.brk, a)
    ensures Inv(BumpAlloc(s, size, a, pages).0) <==> !BumpBreaks(s, size, a, pages)
  {
    hide BumpPlacement, Alignment, PagesNeeded, Inv;
    BreakBounds(s);
    WrappedBump(s.brk, size, a);
    if size <= s.limit {
      MapKeeps(s, size, pages);
      if PagesNeeded(s.mapped, size) <= pages {
        OutsideBreaks(BumpAlloc(s, size, a, pages).0, |s.live|);
      }
    }
  }

  lemma BreakBounds(s: State)
    requires Inv(s)
    ensures 0 <= s.start <= s.brk <= s.limit <= TWO32 - PAGE
  {
  }

  /** The break is served at address 0. */
  predicate BumpBreaks(s: State, size: int, a: int, pages: nat)
  {
    AlignmentWraps(s.brk, a) && size <= s.limit && PagesNeeded(s.mapped, size) <= pages
  }

  lemma MapKeeps(s: State, end: int, pages: nat)
    requires Inv(s) && 0 < end <= s.limit
    ensures pages < PagesNeeded(s.mapped, end) ==> Inv(s.(mapped := s.mapped + pages * PAGE))
  {
    hide IsPowerOfTwo, LiveBytes, LiveSizes, FreeBytes, OrderedFree, GoodLive;
  }

  /** A block whose header is the last in the address space is not in the heap. */
  lemma OutsideBreaks(s: State, k: nat)
    requires k < |s.live| && s.live[k].header == TWO32 - HEADER && 0 < s.live[k].bytes
    ensures !Inv(s)
  {
    if Inv(s) {
      LiveInside(s, k);
    }
  }

  lemma LiveInside(s: State, k: nat)
    requires Inv(s) && k < |s.live|
    ensures s.start <= s.live[k].header && s.live[k].header + HEADER + s.live[k].bytes <= s.brk <= s.limit < TWO32
  {
    hide IsPowerOfTwo;
    assert GoodAlloc(s.live[k], s.start, s.brk);
  }

  lemma BumpGrows(s: State, pl: Placement, size: int, a: int)
    requires Inv(s) && ValidRequest(size, a) && 0 < size
    requires GoodPlacement(s.brk, pl, a) && pl.payload + size == pl.end <= s.limit
    ensures var live := s.live + [Alloc(pl.header, Wrap(pl.end - pl.header), pl.payload, size, a)];
      && OrderedFree(s.free, s.start, pl.end) && GoodLive(live, s.free, s.start, pl.end)
      && Wrap(s.active + size) == LiveBytes(live)
      && LiveSizes(live) + FreeBytes(s.free) + (s.lost + (pl.header - s.brk)) == pl.end - s.start
  {
    hide IsPowerOfTwo, LiveBytes, LiveSizes, FreeBytes, GoodAlloc, ClearOf, OrderedFree, GoodLive;
    NewAlloc(pl, s.brk, size, a, s.start, pl.end);
    var al := Alloc(pl.header, Wrap(pl.end - pl.header), pl.payload, size, a);
    LiveParts(s.live, s.free, s.start, s.brk);
    BeyondBreak(s, pl.header, pl.end);
    LiveGrows(s.live, s.free, s.free, s.start, s.brk, pl.end, al);
    LiveAppend(s.live, al);
    OrderedWeaken(s.free, s.start, s.brk, s.start, pl.end);
    LiveParts(s.live + [al], s.free, s.start, pl.end);
    LiveBounds(s.live + [al], s.start, pl.end);
    RemainingBytes(s);
  }

  lemma LiveParts(live: seq<Alloc>, fl: seq<Block>, lo: int, hi: int)
    requires GoodLive(live, fl, lo, hi)
    ensures forall i :: 0 <= i < |live| ==>
      GoodAlloc(live[i], lo, hi) && ClearOf(fl, live[i].header, live[i].header + live[i].size)
  {
  }

  lemma BeyondBreak(s: State, lo: int, hi: int)
    requires Inv(s) && s.brk <= lo
    ensures ClearOf(s.free, lo, hi)
    ensures forall i :: 0 <= i < |s.live| ==> Apart(s.live[i].header, s.live[i].header + s.live[i].size, lo, hi)
  {
    hide IsPowerOfTwo;
    forall i | 0 <= i < |s.live| ensures Apart(s.live[i].header, s.live[i].header + s.live[i].size, lo, hi) {
      assert GoodAlloc(s.live[i], s.start, s.brk);
    }
  }

  /** Page-wise growth reaches the end it needs and stays within the page-aligned limit. */
  lemma PagesFit(s: State, end: int, pages: nat)
    requires Geometry(s) && s.brk <= end <= s.limit
    ensures var need := PagesNeeded(s.mapped, end);
      && 0 <= need && end <= s.mapped + need * PAGE <= s.limit
      && (pages < need ==> s.mapped + pages * PAGE <= s.limit)
      && (s.mapped + need * PAGE) % PAGE == 0 && (s.mapped + pages * PAGE) % PAGE == 0
  {
  }

  // ----- Allocation -----

  function EffectiveAlignment(alignment: nat): int
  {
    if alignment == 0 then 1 else alignment
  }

  /** The two cases the source does not check, in the block or at the break the request lands on: the end of
      the payload wraps around, or the aligned address does. */
  predicate Breaks(s: State, size: int, a: int, pages: nat)
    requires a > 0
  {
    var k := FirstFit(s.free, size, a, 0);
    if size == 0 then false
    else if k < |s.free| then
      PlaceIn(s.free[k], size, a).value.payload + size >= TWO32 || AlignmentWraps(s.free[k].start, a)
    else BumpBreaks(s, size, a, pages)
  }

  /** Allocation keeps the invariant exactly when neither the payload's end nor the aligned address wraps. */
  lemma AllocateKeepsInv(s: State, size: nat, alignment: nat, pages: nat)
    requires Inv(s) && ValidRequest(size, EffectiveAlignment(alignment))
    ensures Inv(Allocate(s, size, alignment, pages).0) <==> !Breaks(s, size, EffectiveAlignment(alignment), pages)
  {
    hide Inv, ValidRequest, PlaceIn, BumpAlloc, TakeBlock, AlignmentWraps, BumpBreaks;
    var a := EffectiveAlignment(alignment);
    if size != 0 {
      var k := FirstFit(s.free, size, a, 0);
      if k < |s.free| {
        if AlignmentWraps(s.free[k].start, a) {
          WrapTakesNull(s, k, size, a, pages);
        } else {
          PayloadPositive(s, k, size, a);
          if Breaks(s, size, a, pages) {
            WrapBreaksInv(s, k, size, a);
          } else {
            TakeKeepsInv(s, k, size, a);
          }
        }
      } else {
        BumpKeepsInv(s, size, a, pages);
      }
    }
  }

  lemma PayloadPositive(s: State, k: nat, size: int, a: int)
    requires Inv(s) && ValidRequest(size, a) && 0 < size
    requires k < |s.free| && PlaceIn(s.free[k], size, a).Some? && !AlignmentWraps(s.free[k].start, a)
    ensures PlaceIn(s.free[k], size, a).value.payload > 0
  {
    hide PlaceIn, IsPowerOfTwo;
    BlockBounds(s, k);
    PlacedIn(s.free[k], size, a);
  }

  /** A block taken at address 0 is recorded at the end of the address space, and stays there whatever the
      break does next. */
  lemma WrapTakesNull(s: State, k: nat, size: int, a: int, pages: nat)
    requires Inv(s) && ValidRequest(size, a) && 0 < size
    requires k < |s.free| && PlaceIn(s.free[k], size, a).Some? && AlignmentWraps(s.free[k].start, a)
    ensures
      var pl := PlaceIn(s.free[k], size, a).value;
      var taken := TakeBlock(s, k, pl, size, a);
      pl.payload == 0 && !Inv(taken) && !Inv(BumpAlloc(taken, size, a, pages).0)
  {
    hide PlaceIn, AlignUp, Alignment, Inv, Release, BumpPlacement, PagesNeeded;
    BlockBounds(s, k);
    PlaceInShape(s.free[k], size, a);
    var taken := TakeBlock(s, k, PlaceIn(s.free[k], size, a).value, size, a);
    OutsideBreaks(taken, |s.live|);
    OutsideBreaks(BumpAlloc(taken, size, a, pages).0, |s.live|);
  }

  /** A wrapped payload end gives a block that does not contain its payload or leaves the heap. */
  lemma WrapBreaksInv(s: State, k: nat, size: int, a: int)
    requires Inv(s) && ValidRequest(size, a) && 0 < size
    requires k < |s.free| && PlaceIn(s.free[k], size, a).Some? && !AlignmentWraps(s.free[k].start, a)
    requires PlaceIn(s.free[k], size, a).value.payload + size >= TWO32
    ensures !Inv(TakeBlock(s, k, PlaceIn(s.free[k], size, a).value, size, a))
  {
    hide PlaceIn, IsPowerOfTwo, Release, LiveBytes, LiveSizes, FreeBytes, ClearOf, OrderedFree;
    var b := s.free[k];
    var pl := PlaceIn(b, size, a).value;
    BlockBounds(s, k);
    PlacedIn(b, size, a);
    var s' := TakeBlock(s, k, pl, size, a);
    var al := s'.live[|s.live|];
    assert al.payload + al.bytes >= TWO32 > s.brk;
    assert !GoodAlloc(al, s'.start, s'.brk);
  }

  /** Whether the payload of a request lands right behind its header. */
  predicate LandsBehindHeader(s: State, size: int, a: int)
    requires a > 0
  {
    var k := FirstFit(s.free, size, a, 0);
    if k < |s.free| then BehindHeader(s.free[k].start, a) else a <= HEADER || Squeezed(s.brk, a)
  }

  /** The pointer an allocation returns: null, with nothing taken, or the payload of the newest live block,
      aligned, inside the heap, and right behind its header exactly when the alignment is small or squeezed. */
  lemma AllocateReturns(s: State, size: nat, alignment: nat, pages: nat)
    requires Inv(s) && ValidRequest(size, EffectiveAlignment(alignment))
    requires !Breaks(s, size, EffectiveAlignment(alignment), pages)
    ensures var (s', ptr) := Allocate(s, size, alignment, pages);
      var a := EffectiveAlignment(alignment);
      if ptr == 0 then s'.live == s.live && s'.free == s.free && s'.brk == s.brk else
        && |s'.live| == |s.live| + 1 && s'.live[..|s.live|] == s.live
        && s'.live[|s.live|].payload == ptr && s'.live[|s.live|].bytes == size && s'.live[|s.live|].align == a
        && ptr % a == 0 && s.start + HEADER <= ptr && ptr + size <= s'.brk <= s.limit
        && (ptr == s'.live[|s.live|].header + HEADER <==> LandsBehindHeader(s, size, a))
  {
    hide IsPowerOfTwo, Inv, Release, PlaceIn, BumpPlacement, PagesNeeded, AlignmentWraps, Squeezed, BehindHeader,
         BumpBreaks;
    AllocateKeepsInv(s, size, alignment, pages);
    var a := EffectiveAlignment(alignment);
    var (s', ptr) := Allocate(s, size, alignment, pages);
    var k := FirstFit(s.free, size, a, 0);
    if size > 0 && k < |s.free| {
      BlockBounds(s, k);
      PlacedIn(s.free[k], size, a);
      PlacedBehind(s.free[k], size, a);
      LastIsGood(s');
    } else if size > 0 {
      BumpReturns(s, size, a, pages);
      if ptr != 0 {
        LastIsGood(s');
      }
    }
  }

  lemma BumpReturns(s: State, size: int, a: int, pages: nat)
    requires Inv(s) && ValidRequest(size, a) && 0 < size && !BumpBreaks(s, size, a, pages)
    ensures var (s', ptr) := BumpAlloc(s, size, a, pages);
      && s'.free == s.free && s'.start == s.start && s'.limit == s.limit
      && (if ptr == 0 then s'.live == s.live && s'.brk == s.brk else
        && |s'.live| == |s.live| + 1 && s'.live[..|s.live|] == s.live
        && s'.live[|s.live|].payload == ptr && s'.live[|s.live|].bytes == size && s'.live[|s.live|].align == a
        && (ptr == s'.live[|s.live|].header + HEADER <==> a <= HEADER || Squeezed(s.brk, a)))
  {
    hide IsPowerOfTwo, BumpPlacement, PagesNeeded, LiveBytes, LiveSizes, FreeBytes, OrderedFree, GoodLive, AlignUp;
    if AlignmentWraps(s.brk, a) {
      WrappedBump(s.brk, size, a);
    } else {
      PlacedBump(s.brk, size, a);
    }
  }

  lemma LastIsGood(s: State)
    requires Inv(s) && s.live != []
    ensures GoodAlloc(s.live[|s.live| - 1], s.start, s.brk) && 0 <= s.start && s.brk <= s.limit
    ensures 0 < s.live[|s.live| - 1].payload
  {
    assert GoodAlloc(s.live[|s.live| - 1], s.start, s.brk);
  }

  // ----- Freeing -----

  lemma FreeKeepsInv(s: State, ptr: int)
    requires Inv(s)
    ensures Inv(Free(s, ptr))
  {
    hide IsPowerOfTwo, LiveBytes, LiveSizes, FreeBytes, ClearOf, OrderedFree, InsertFree;
    var k := FindHeader(s.live, ptr - HEADER, 0);
    if ptr != 0 && k < |s.live| {
      var al := s.live[k];
      var s' := Free(s, ptr);
      assert GoodAlloc(al, s.start, s.brk) && ClearOf(s.free, al.header, al.header + al.size);
      ReleaseKeeps(s.free, al.header, al.size, s.start, s.brk);
      forall i | 0 <= i < |s.live| && i != k
        ensures ClearOf(s'.free, s.live[i].header, s.live[i].header + s.live[i].size)
      {
        assert GoodAlloc(s.live[i], s.start, s.brk);
        assert ClearOf(s.free, s.live[i].header, s.live[i].header + s.live[i].size);
        ReleaseClear(s.free, al.header, al.size, s.start, s.brk, s.live[i].header, s.live[i].header + s.live[i].size);
      }
      LiveShrinks(s.live, s.free, s'.free, s.start, s.brk, k);
      LiveWithout(s.live, k);
      LiveBounds(s.live, s.start, s.brk);
    }
  }

  /** Freeing a live pointer releases its block exactly when the payload sits right behind the header, which it
      does for every alignment up to the header's size; another block stays live, since its header is not where
      `free` looks. */
  lemma FreeReleases(s: State, k: nat)
    requires Inv(s) && k < |s.live|
    ensures s.live[k].payload == s.live[k].header + HEADER ==>
      Free(s, s.live[k].payload).live == Without(s.live, k) &&
      Free(s, s.live[k].payload).active == s.active - s.live[k].bytes
    ensures s.live[k].payload != s.live[k].header + HEADER ==> Free(s, s.live[k].payload) == s
    ensures s.live[k].align <= HEADER ==> s.live[k].payload == s.live[k].header + HEADER
  {
    hide IsPowerOfTwo, LiveBytes, LiveSizes, FreeBytes, ClearOf, OrderedFree, InsertFree;
    var al := s.live[k];
    assert GoodAlloc(al, s.start, s.brk);
    var j := FindHeader(s.live, al.payload - HEADER, 0);
    LiveBounds(s.live, s.start, s.brk);
    if j < |s.live| && j != k {
      assert GoodAlloc(s.live[j], s.start, s.brk);
      InsideOneBlock(s, j, k);
    }
  }

  /** The word below a payload lies in the payload's own block and in no other. */
  lemma InsideOneBlock(s: State, j: nat, k: nat)
    requires Inv(s) && j < |s.live| && k < |s.live| && j != k
    ensures s.live[j].header != s.live[k].payload - HEADER
  {
    hide IsPowerOfTwo;
    assert GoodAlloc(s.live[j], s.start, s.brk) && GoodAlloc(s.live[k], s.start, s.brk);
    var x, y := s.live[j], s.live[k];
    assert Apart(x.header, x.header + x.size, y.header, y.header + y.size) by {
      if j < k {
        assert Apart(x.header, x.header + x.size, y.header, y.header + y.size);
      } else {
        assert Apart(y.header, y.header + y.size, x.header, x.header + x.size);
      }
    }
  }

  // ----- Conservation -----

  /** Exact byte conservation on the free-list path: nothing is lost exactly when the head of the list is
      the block taken. */
  lemma NothingLostIffHeadFits(s: State, size: nat, alignment: nat, pages: nat)
    requires Inv(s) && ValidRequest(size, EffectiveAlignment(alignment)) && 0 < size
    requires FirstFit(s.free, size, EffectiveAlignment(alignment), 0) < |s.free|
    requires !Breaks(s, size, EffectiveAlignment(alignment), pages)
    ensures var s' := Allocate(s, size, alignment, pages).0;
      s'.lost == s.lost <==> FirstFit(s.free, size, EffectiveAlignment(alignment), 0) == 0
  {
    hide IsPowerOfTwo, PlaceIn, Release, BumpAlloc, AlignmentWraps;
    var k := FirstFit(s.free, size, EffectiveAlignment(alignment), 0);
    PayloadPositive(s, k, size, EffectiveAlignment(alignment));
    if k > 0 {
      assert s.free[..k][0].size >= MIN_FREE;
      FreeBytesNonNegative(s.free[..k][1..]);
    }
  }

  // ----- All runs -----

  datatype Op = AllocOp(size: nat, alignment: nat, pages: nat) | FreeOp(ptr: int)

  function Apply(s: State, op: Op): State
  {
    match op
    case AllocOp(size, alignment, pages) => Allocate(s, size, alignment, pages).0
    case FreeOp(ptr) => Free(s, ptr)
  }

  function Run(s: State, ops: seq<Op>): State
  {
    if ops == [] then s else Apply(Run(s, ops[..|ops| - 1]), ops[|ops| - 1])
  }

  predicate ValidOp(op: Op)
  {
    op.AllocOp? ==> ValidRequest(op.size, EffectiveAlignment(op.alignment))
  }

  /** The step breaks the heap: an allocation whose payload end or aligned address wraps where it lands. */
  predicate BreaksAt(s: State, op: Op)
    requires ValidOp(op)
  {
    op.AllocOp? && Breaks(s, op.size, EffectiveAlignment(op.alignment), op.pages)
  }

  lemma ApplyKeepsInv(s: State, op: Op)
    requires Inv(s) && ValidOp(op)
    ensures Inv(Apply(s, op)) <==> !BreaksAt(s, op)
  {
    hide Inv, IsPowerOfTwo, PlaceIn, Release, Breaks, Allocate, Free;
    match op {
      case AllocOp(size, alignment, pages) => AllocateKeepsInv(s, size, alignment, pages);
      case FreeOp(ptr) => FreeKeepsInv(s, ptr);
    }
  }

  /** No allocation of the run breaks the heap in the state it meets. */
  predicate NeverBreaks(s: State, ops: seq<Op>)
    requires forall i :: 0 <= i < |ops| ==> ValidOp(ops[i])
  {
    forall i :: 0 <= i < |ops| ==> !BreaksAt(Run(s, ops[..i]), ops[i])
  }

  /** Heap safety over all runs: any sequence of allocations and frees keeps the invariant at every step, if and
      only if no allocation wraps where it lands. */
  lemma {:induction false} HeapSafe(s: State, ops: seq<Op>)
    requires Inv(s) && forall i :: 0 <= i < |ops| ==> ValidOp(ops[i])
    ensures (forall i :: 0 <= i <= |ops| ==> Inv(Run(s, ops[..i]))) <==> NeverBreaks(s, ops)
  {
    hide Inv, Apply, BreaksAt, ValidOp;
    if ops == [] {
      assert forall i :: 0 <= i <= |ops| ==> ops[..i] == [];
    } else {
      var n := |ops| - 1;
      var init := ops[..n];
      assert forall i :: 0 <= i <= n ==> init[..i] == ops[..i];
      assert forall i :: 0 <= i < n ==> init[i] == ops[i];
      HeapSafe(s, init);
      assert ops[..|ops|] == ops && init[..n] == init;
      assert Run(s, ops) == Apply(Run(s, init), ops[n]);
      if Inv(Run(s, init)) {
        ApplyKeepsInv(Run(s, init), ops[n]);
      }
    }
  }

  /** A request small enough for every sum to stay below 2^32 breaks no sound heap. */
  lemma SmallRequestsSafe(s: State, size: nat, a: int, pages: nat)
    requires Inv(s) && ValidRequest(size, a) && s.limit + 2 * HEADER + 2 * a + size <= TWO32
    ensures !Breaks(s, size, a, pages)
  {
    hide IsPowerOfTwo, PlaceIn, AlignUp, Inv, Wrap, PagesNeeded;
    BreakBounds(s);
    var k := FirstFit(s.free, size, a, 0);
    if size > 0 && k < |s.free| {
      BlockBounds(s, k);
      PlaceInShape(s.free[k], size, a);
      PlacedHeader(s.free[k].start, a);
    }
  }

  lemma InitInv(heapStart: int, heapLimit: int)
    requires 0 <= heapStart <= TWO32 - PAGE && 0 <= heapLimit < TWO32
    ensures Inv(Init(heapStart, heapLimit))
  {
    AlignedUp(heapStart, PAGE);
    MultipleBelow(Wrap(heapLimit + PAGE - 1), PAGE);
  }

  /** Two live payloads never share a byte. */
  lemma PayloadsDisjoint(s: State, i: nat, j: nat)
    requires Inv(s) && i < j < |s.live|
    ensures Apart(s.live[i].payload, s.live[i].payload + s.live[i].bytes,
                  s.live[j].payload, s.live[j].payload + s.live[j].bytes)
  {
    hide IsPowerOfTwo;
    assert GoodAlloc(s.live[i], s.start, s.brk) && GoodAlloc(s.live[j], s.start, s.brk);
    assert Apart(s.live[i].header, s.live[i].header + s.live[i].size,
                 s.live[j].header, s.live[j].header + s.live[j].size);
  }
}
