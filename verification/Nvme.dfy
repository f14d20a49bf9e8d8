/** The NVMe queue pair as an interleaving of driver and controller steps.

    The driver has one command outstanding at a time and polls the completion
    entry at its head.  It zeroes every entry it consumes, so on every second
    lap an idle entry already shows the phase the driver expects; what keeps it
    from being consumed is that command identifiers are never 0. */
module Nvme {
  import opened Bytes

  /** Fields of a command other than its identifier are opaque here. */
  datatype Command = Command(cid: Word, body: int)

  /** The last double word of a completion entry: identifier, phase bit and 15 status bits. */
  type Dword = x: int | 0 <= x < 0x1_0000_0000

  type StatusField = x: int | 0 <= x < 0x8000

  function CidOf(dw3: Dword): Word
  {
    dw3 % 0x1_0000
  }

  predicate PhaseOf(dw3: Dword)
  {
    (dw3 / 0x1_0000) % 2 == 1
  }

  /** The status code as the driver masks it: the low seven status bits. */
  function CodeOf(dw3: Dword): Byte
  {
    (dw3 / 0x2_0000) % 128
  }

  /** A completion entry as the controller writes it. */
  function Entry(cid: Word, phase: bool, status: StatusField): Dword
  {
    cid as int + 0x1_0000 * (if phase then 1 else 0) + 0x2_0000 * (status as int)
  }

  lemma EntryFields(cid: Word, phase: bool, status: StatusField)
    ensures CidOf(Entry(cid, phase, status)) == cid
    ensures PhaseOf(Entry(cid, phase, status)) == phase
    ensures CodeOf(Entry(cid, phase, status)) == status % 128
  {
    var p := if phase then 1 else 0;
    var e := Entry(cid, phase, status);
    assert e == cid as int + 0x1_0000 * (p + 2 * (status as int));
    assert e / 0x1_0000 == p + 2 * (status as int);
    assert e / 0x2_0000 == status as int;
  }

  datatype Controller = Controller(doorbell: nat, sqHead: nat, inflight: Option<Command>, cqTail: nat, phase: bool)

  datatype Driver = Driver(sqTail: nat, cqHead: nat, phase: bool, nextCid: Word, waiting: Option<Word>)

  /** `submitted`, `posted` and `results` are logs: the commands the driver wrote, the completions the
      controller wrote, and the status codes the driver handed back. */
  datatype System = System(
    depth: nat, sq: seq<Command>, cq: seq<Dword>, d: Driver, c: Controller,
    submitted: seq<Command>, posted: seq<(Word, StatusField)>, results: seq<Byte>)

  function Init(depth: nat): System
  {
    System(depth, seq(depth, _ => Command(0, 0)), seq(depth, _ => 0),
           Driver(0, 0, true, 1, None), Controller(0, 0, None, 0, true), [], [], [])
  }

  // ----- Steps -----

  datatype Step = Submit(body: int) | Fetch | Post(status: StatusField) | Poll

  function NextIndex(i: nat, depth: nat): nat
    requires depth > 0
  {
    (i + 1) % depth
  }

  /** The identifier the next command gets: never 0, also after the 16-bit counter wraps. */
  function FreshCid(nextCid: Word): (cid: Word)
    ensures cid != 0
  {
    if nextCid == 0 then 1 else nextCid
  }

  predicate Enabled(s: System, step: Step)
  {
    match step
    case Submit(_) => s.d.waiting.None?
    case Fetch => s.c.inflight.None? && s.c.sqHead != s.c.doorbell
    case Post(_) => s.c.inflight.Some?
    case Poll => s.d.waiting.Some?
  }

  predicate Shaped(s: System)
  {
    && s.depth > 1 && |s.sq| == s.depth && |s.cq| == s.depth
    && s.d.sqTail < s.depth && s.d.cqHead < s.depth && s.c.sqHead < s.depth && s.c.cqTail < s.depth
  }

  /** Driver: write the command at the tail and ring the doorbell. */
  function SubmitStep(s: System, body: int): System
    requires Shaped(s)
  {
    var cid := FreshCid(s.d.nextCid);
    var cmd := Command(cid, body);
    var tail := NextIndex(s.d.sqTail, s.depth);
    s.(sq := s.sq[s.d.sqTail := cmd],
       d := s.d.(sqTail := tail, nextCid := (cid as int + 1) % 0x1_0000, waiting := Some(cid)),
       c := s.c.(doorbell := tail),
       submitted := s.submitted + [cmd])
  }

  /** Controller: take the command at its submission head. */
  function FetchStep(s: System): System
    requires Shaped(s)
  {
    s.(c := s.c.(inflight := Some(s.sq[s.c.sqHead]), sqHead := NextIndex(s.c.sqHead, s.depth)))
  }

  /** Controller: complete the command in flight at its completion tail, with the phase of its lap. */
  function PostStep(s: System, status: StatusField): System
    requires Shaped(s) && s.c.inflight.Some?
  {
    var cid := s.c.inflight.value.cid;
    var tail := NextIndex(s.c.cqTail, s.depth);
    s.(cq := s.cq[s.c.cqTail := Entry(cid, s.c.phase, status)],
       c := s.c.(inflight := None, cqTail := tail, phase := if tail == 0 then !s.c.phase else s.c.phase),
       posted := s.posted + [(cid, status)])
  }

  /** The test the driver applies to the entry at its head. */
  predicate Accepts(s: System)
    requires Shaped(s) && s.d.waiting.Some?
  {
    PhaseOf(s.cq[s.d.cqHead]) == s.d.phase && CidOf(s.cq[s.d.cqHead]) == s.d.waiting.value
  }

  /** One turn of the driver's polling loop. */
  function PollStep(s: System): System
    requires Shaped(s) && s.d.waiting.Some?
  {
    if !Accepts(s) then s else
      var head := NextIndex(s.d.cqHead, s.depth);
      s.(cq := s.cq[s.d.cqHead := 0],
         d := s.d.(cqHead := head, phase := if head == 0 then !s.d.phase else s.d.phase, waiting := None),
         results := s.results + [CodeOf(s.cq[s.d.cqHead])])
  }

  function Apply(s: System, step: Step): System
    requires Shaped(s) && Enabled(s, step)
  {
    match step
    case Submit(body) => SubmitStep(s, body)
    case Fetch => FetchStep(s)
    case Post(status) => PostStep(s, status)
    case Poll => PollStep(s)
  }

  /** A step that is not enabled does nothing; this lets any sequence of steps be a run. */
  function Run(s: System, steps: seq<Step>): System
    decreases |steps|
  {
    if steps == [] then s else
      var before := Run(s, steps[..|steps| - 1]);
      var step := steps[|steps| - 1];
      if Shaped(before) && Enabled(before, step) then Apply(before, step) else before
  }

  // ----- Invariant -----

  /** The index and phase one past an entry. */
  predicate OnePast(i: nat, phase: bool, i': nat, phase': bool, depth: nat)
    requires depth > 0
  {
    i' == NextIndex(i, depth) && phase' == (if i' == 0 then !phase else phase)
  }

  /** All completion entries are zero, except possibly the one at the driver's head. */
  predicate IdleEntriesZero(s: System, exceptHead: bool)
  {
    forall i :: 0 <= i < |s.cq| && !(exceptHead && i == s.d.cqHead) ==> s.cq[i] == 0
  }

  predicate ResultsDelivered(s: System)
    requires |s.results| <= |s.posted| <= |s.submitted|
  {
    && (forall i :: 0 <= i < |s.posted| ==> s.posted[i].0 == s.submitted[i].cid)
    && (forall i :: 0 <= i < |s.results| ==> s.results[i] == s.posted[i].1 % 128)
  }

  /** Nothing outstanding. */
  predicate Quiet(s: System)
    requires Shaped(s)
  {
    && |s.posted| == |s.submitted| == |s.results|
    && s.c.inflight.None? && s.c.sqHead == s.d.sqTail
    && s.c.cqTail == s.d.cqHead && s.c.phase == s.d.phase
    && IdleEntriesZero(s, false)
  }

  /** One command outstanding, its completion not yet posted. */
  predicate Pending(s: System)
    requires Shaped(s)
  {
    && |s.submitted| == |s.results| + 1 && |s.posted| == |s.results|
    && s.d.waiting == Some(s.submitted[|s.results|].cid)
    && s.c.cqTail == s.d.cqHead && s.c.phase == s.d.phase
    && IdleEntriesZero(s, false)
    && (if s.c.inflight.None?
        then s.sq[s.c.sqHead] == s.submitted[|s.results|] && s.d.sqTail == NextIndex(s.c.sqHead, s.depth)
        else s.c.inflight.value == s.submitted[|s.results|] && s.c.sqHead == s.d.sqTail)
  }

  /** One command outstanding, its completion waiting at the driver's head. */
  predicate Completed(s: System)
    requires Shaped(s)
  {
    && |s.submitted| == |s.posted| == |s.results| + 1
    && s.d.waiting == Some(s.submitted[|s.results|].cid)
    && s.c.inflight.None? && s.c.sqHead == s.d.sqTail
    && OnePast(s.d.cqHead, s.d.phase, s.c.cqTail, s.c.phase, s.depth)
    && s.cq[s.d.cqHead] == Entry(s.posted[|s.results|].0, s.d.phase, s.posted[|s.results|].1)
    && IdleEntriesZero(s, true)
  }

  predicate Inv(s: System)
  {
    && Shaped(s) && s.c.doorbell == s.d.sqTail
    && |s.results| <= |s.posted| <= |s.submitted|
    && ResultsDelivered(s)
    && (forall i :: 0 <= i < |s.submitted| ==> s.submitted[i].cid != 0)
    && (if s.d.waiting.None? then Quiet(s) else Pending(s) || Completed(s))
  }

  lemma InitInv(depth: nat)
    requires depth > 1
    ensures Inv(Init(depth))
  {
  }

  lemma NextIndexBound(i: nat, depth: nat)
    requires i < depth && depth > 1
    ensures NextIndex(i, depth) == (if i + 1 == depth then 0 else i + 1)
    ensures NextIndex(i, depth) < depth && NextIndex(i, depth) != i
  {
    if i + 1 < depth {
      SmallMod(i + 1, depth);
    } else {
      WholeMod(depth);
    }
  }

  lemma WholeMod(d: nat)
    requires d > 0
    ensures d % d == 0
  {
  }

  lemma SubmitKeepsInv(s: System, body: int)
    requires Inv(s) && s.d.waiting.None?
    ensures Inv(SubmitStep(s, body)) && Pending(SubmitStep(s, body))
  {
    hide NextIndex;
    NextIndexBound(s.d.sqTail, s.depth);
  }

  lemma FetchKeepsInv(s: System)
    requires Inv(s) && Enabled(s, Fetch)
    ensures Inv(FetchStep(s)) && Pending(FetchStep(s))
  {
    hide NextIndex;
    NextIndexBound(s.c.sqHead, s.depth);
  }

  lemma PostKeepsInv(s: System, status: StatusField)
    requires Inv(s) && s.c.inflight.Some?
    ensures Inv(PostStep(s, status)) && Completed(PostStep(s, status))
  {
    hide NextIndex, Entry;
    NextIndexBound(s.c.cqTail, s.depth);
    assert Pending(s);
  }

  /** The driver accepts the entry at its head exactly when the completion of the command it waits for has
      been posted there, and then the code it reads is that completion's. */
  lemma AcceptsOnlyOwnCompletion(s: System)
    requires Inv(s) && s.d.waiting.Some?
    ensures Accepts(s) <==> |s.posted| == |s.submitted|
    ensures Accepts(s) ==> s.posted[|s.results|].0 == s.d.waiting.value
    ensures Accepts(s) ==> CodeOf(s.cq[s.d.cqHead]) == s.posted[|s.results|].1 % 128
  {
    hide Entry, CidOf, PhaseOf, CodeOf;
    if |s.posted| == |s.submitted| {
      var (cid, status) := s.posted[|s.results|];
      EntryFields(cid, s.d.phase, status);
    } else {
      ZeroEntry();
    }
  }

  lemma ZeroEntry()
    ensures CidOf(0) == 0 && !PhaseOf(0)
  {
  }

  lemma PollKeepsInv(s: System)
    requires Inv(s) && s.d.waiting.Some?
    ensures Inv(PollStep(s))
  {
    hide NextIndex, Entry, CidOf, PhaseOf, CodeOf;
    AcceptsOnlyOwnCompletion(s);
    NextIndexBound(s.d.cqHead, s.depth);
    if Accepts(s) {
      assert Completed(s);
      assert Quiet(PollStep(s));
    }
  }

  lemma ApplyKeepsInv(s: System, step: Step)
    requires Inv(s) && Enabled(s, step)
    ensures Inv(Apply(s, step))
  {
    hide Inv;
    match step {
      case Submit(body) => SubmitKeepsInv(s, body);
      case Fetch => FetchKeepsInv(s);
      case Post(status) => PostKeepsInv(s, status);
      case Poll => PollKeepsInv(s);
    }
  }

  lemma {:induction false} RunKeepsInv(s: System, steps: seq<Step>)
    requires Inv(s)
    ensures Inv(Run(s, steps))
    decreases |steps|
  {
    hide Inv, Apply;
    if steps != [] {
      var before := Run(s, steps[..|steps| - 1]);
      RunKeepsInv(s, steps[..|steps| - 1]);
      InvShaped(before);
      if Enabled(before, steps[|steps| - 1]) {
        ApplyKeepsInv(before, steps[|steps| - 1]);
      }
    }
  }

  lemma InvShaped(s: System)
    requires Inv(s)
    ensures Shaped(s)
  {
  }

  /** Completion safety, in every interleaving and across any number of laps and identifier wraps: the
      k-th result handed back is the low seven bits of the status the controller posted for the k-th command,
      reported as success exactly when they are zero, and the driver's head and phase equal the controller's
      tail and phase whenever nothing is outstanding. */
  lemma CompletionSafety(depth: nat, steps: seq<Step>)
    requires depth > 1
    ensures var s := Run(Init(depth), steps);
      && Inv(s)
      && |s.results| <= |s.posted| <= |s.submitted| <= |s.results| + 1
      && (forall k :: 0 <= k < |s.results| ==>
            s.posted[k].0 == s.submitted[k].cid && s.results[k] == s.posted[k].1 % 128
            && (Succeeded(s.results[k]) <==> s.posted[k].1 % 128 == 0))
      && (s.d.waiting.None? ==> s.d.cqHead == s.c.cqTail && s.d.phase == s.c.phase)
  {
    hide Run;
    InitInv(depth);
    RunKeepsInv(Init(depth), steps);
  }

  /** What the controller works on is what the driver was asked to do: submitted from rest and fetched, a command
      arrives as it was given, under a fresh identifier. */
  lemma FetchedAsSubmitted(depth: nat, steps: seq<Step>, body: int)
    requires depth > 1 && Run(Init(depth), steps).d.waiting.None?
    ensures var s := Run(Init(depth), steps);
      && Inv(s) && Enabled(s, Submit(body))
      && var t := Apply(s, Submit(body));
      && Inv(t) && Enabled(t, Fetch)
      && Apply(t, Fetch).c.inflight == Some(Command(FreshCid(s.d.nextCid), body))
  {
    hide Run;
    InitInv(depth);
    RunKeepsInv(Init(depth), steps);
    var s := Run(Init(depth), steps);
    ApplyKeepsInv(s, Submit(body));
    NextIndexBound(s.d.sqTail, s.depth);
  }

  /** Identifiers run through 1 to 65535 and begin again: commands fewer than 65535 apart never share one. */
  lemma {:induction false} IdentifiersCycle(depth: nat, steps: seq<Step>)
    requires depth > 1
    ensures var s := Run(Init(depth), steps);
      && FreshCid(s.d.nextCid) == |s.submitted| % 0xFFFF + 1
      && forall k :: 0 <= k < |s.submitted| ==> s.submitted[k].cid == k % 0xFFFF + 1
    decreases |steps|
  {
    hide Inv;
    if steps != [] {
      var init, step := steps[..|steps| - 1], steps[|steps| - 1];
      IdentifiersCycle(depth, init);
      var before := Run(Init(depth), init);
      InitInv(depth);
      RunKeepsInv(Init(depth), init);
      InvShaped(before);
      if Enabled(before, step) && step.Submit? {
        NextIdentifier(before.d.nextCid, |before.submitted|);
      }
    }
  }

  lemma NextIdentifier(nextCid: Word, n: nat)
    requires FreshCid(nextCid) == n % 0xFFFF + 1
    ensures FreshCid((FreshCid(nextCid) as int + 1) % 0x1_0000) == (n + 1) % 0xFFFF + 1
  {
  }

  /** What the driver tells its caller. */
  predicate Succeeded(code: Byte)
  {
    code == 0
  }

  /** The mask drops the eighth status bit: a command that failed with status 0x80 is reported as a success. */
  lemma FailureReadsAsSuccess()
    ensures
      var s := Run(Init(2), [Submit(0), Fetch, Post(0x80), Poll]);
      s.posted == [(1, 0x80)] && |s.results| == 1 && Succeeded(s.results[0])
  {
    var steps := [Submit(0), Fetch, Post(0x80), Poll];
    assert steps[..3] == [Submit(0), Fetch, Post(0x80)] && steps[..3][..2] == [Submit(0), Fetch];
    assert steps[..3][..2][..1] == [Submit(0)] && steps[..3][..2][..1][..0] == [];
    var s1 := Run(Init(2), [Submit(0)]);
    assert s1 == SubmitStep(Init(2), 0);
    var s2 := Run(Init(2), [Submit(0), Fetch]);
    assert s2 == FetchStep(s1);
    var s3 := Run(Init(2), [Submit(0), Fetch, Post(0x80)]);
    assert s3 == PostStep(s2, 0x80);
    EntryFields(1, true, 0x80);
    assert Run(Init(2), steps) == PollStep(s3);
  }

  /** A posted completion is picked up by the very next poll. */
  lemma PollDelivers(s: System)
    requires Inv(s) && s.d.waiting.Some? && |s.posted| == |s.submitted|
    ensures PollStep(s).d.waiting.None? && PollStep(s).results == s.results + [s.posted[|s.results|].1 % 128]
  {
    AcceptsOnlyOwnCompletion(s);
  }

  /** The phase test alone would not do: whenever the driver expects phase 0, an entry that nobody has posted
      already passes it. */
  lemma PhaseAloneIsNotEnough(s: System)
    requires Inv(s) && s.d.waiting.Some? && |s.posted| < |s.submitted| && !s.d.phase
    ensures PhaseOf(s.cq[s.d.cqHead]) == s.d.phase && !Accepts(s)
  {
    AcceptsOnlyOwnCompletion(s);
    ZeroEntry();
  }

  // ----- Laps -----

  lemma NextLap(n: nat, d: nat)
    requires d > 1
    ensures (n + 1) % d == NextIndex(n % d, d)
    ensures (n + 1) / d == n / d + (if NextIndex(n % d, d) == 0 then 1 else 0)
  {
    hide NextIndex;
    var q, r, q', r' := n / d, n % d, (n + 1) / d, (n + 1) % d;
    NextIndexBound(r, d);
    assert d * q + r + 1 == d * q' + r';
    assert d * (q' - q) == r + 1 - r';
    Scaled(d, q' - q);
  }

  /** The driver's position counted from the beginning: head and phase are those of lap `results / depth`. */
  predicate OnLap(s: System)
  {
    s.depth > 1 && s.d.cqHead == |s.results| % s.depth && (s.d.phase <==> (|s.results| / s.depth) % 2 == 0)
  }

  lemma StepOnLap(s: System, step: Step)
    requires Shaped(s) && Enabled(s, step) && OnLap(s)
    ensures OnLap(Apply(s, step)) && Apply(s, step).depth == s.depth
  {
    hide PhaseOf, CidOf, CodeOf, Entry, NextIndex;
    NextLap(|s.results|, s.depth);
  }

  lemma {:induction false} RunOnLap(depth: nat, steps: seq<Step>)
    requires depth > 1
    ensures OnLap(Run(Init(depth), steps)) && Run(Init(depth), steps).depth == depth
    decreases |steps|
  {
    if steps == [] {
      StartOfLap(depth);
    } else {
      hide OnLap, Shaped, Enabled, Apply;
      RunOnLap(depth, steps[..|steps| - 1]);
      var before := Run(Init(depth), steps[..|steps| - 1]);
      if Shaped(before) && Enabled(before, steps[|steps| - 1]) {
        StepOnLap(before, steps[|steps| - 1]);
      }
    }
  }

  lemma StartOfLap(depth: nat)
    requires depth > 1
    ensures 0 % depth == 0 && 0 / depth == 0
  {
  }
}
