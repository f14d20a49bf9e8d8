/** The driver's queue object and the physical region pages of a transfer. */
module NvmeQueue {
  import opened Bytes
  import opened Nvme

  class Queue {
    const depth: nat
    const sq: array<Command>
    const cq: array<Dword>
    var sqTail: nat
    var cqHead: nat
    var cqPhase: bool
    var nextCid: Word

    ghost predicate Valid()
      reads this
    {
      sq.Length == depth && cq.Length == depth && 1 < depth && sqTail < depth && cqHead < depth
    }

    /** The system this queue is the driver's side of. */
    ghost function View(waiting: Option<Word>, c: Controller, submitted: seq<Command>,
                        posted: seq<(Word, StatusField)>, results: seq<Byte>): System
      reads this, sq, cq
    {
      System(depth, sq[..], cq[..], Driver(sqTail, cqHead, cqPhase, nextCid, waiting), c, submitted, posted, results)
    }

    constructor (depth: nat)
      requires depth > 1
      ensures Valid() && this.depth == depth && fresh(sq) && fresh(cq)
      ensures View(None, Controller(0, 0, None, 0, true), [], [], []) == Nvme.Init(depth)
    {
      this.depth := depth;
      sq := new Command[depth](_ => Command(0, 0));
      cq := new Dword[depth](_ => 0);
      sqTail, cqHead, cqPhase, nextCid := 0, 0, true, 1;
    }

    /** `submit_command` up to the doorbell: the driver half of a `Submit` step. */
    method Enqueue(body: int, ghost c: Controller, ghost submitted: seq<Command>,
                   ghost posted: seq<(Word, StatusField)>, ghost results: seq<Byte>)
      returns (cid: Word, doorbell: nat)
      requires Valid() && c.sqHead < depth && c.cqTail < depth
      modifies this, sq
      ensures Valid()
      ensures var s := old(View(None, c, submitted, posted, results));
        View(Some(cid), c.(doorbell := doorbell), submitted + [Command(cid, body)], posted, results)
        == SubmitStep(s, body)
    {
      NextIndexBound(sqTail, depth);
      cid := if nextCid == 0 then 1 else nextCid;
      nextCid := (cid as int + 1) % 0x1_0000;
      sq[sqTail] := Command(cid, body);
      sqTail := (sqTail + 1) % depth;
      doorbell := sqTail;
    }

    /** One turn of `wait_for_cqe`: a `Poll` step.  The entry is consumed, and the status code returned,
        exactly when it carries the awaited identifier and the expected phase. */
    method PollOnce(cid: Word, ghost c: Controller, ghost submitted: seq<Command>,
                    ghost posted: seq<(Word, StatusField)>, ghost results: seq<Byte>)
      returns (code: Option<Byte>)
      requires Valid() && c.sqHead < depth && c.cqTail < depth
      modifies this, cq
      ensures Valid()
      ensures var s := old(View(Some(cid), c, submitted, posted, results));
        && (code.Some? <==> Accepts(s))
        && View(if code.Some? then None else Some(cid), c, submitted, posted,
                if code.Some? then results + [code.value] else results) == PollStep(s)
    {
      NextIndexBound(cqHead, depth);
      var dw3 := cq[cqHead];
      if PhaseOf(dw3) != cqPhase || CidOf(dw3) != cid {
        return None;
      }
      cq[cqHead] := 0;
      cqHead := (cqHead + 1) % depth;
      if cqHead == 0 {
        cqPhase := !cqPhase;
      }
      return Some(CodeOf(dw3));
    }
  }

  // ----- Physical region pages -----

  const PAGE: nat := 4096
  const LIST_ENTRIES: nat := 512

  /** Address translation maps pages to frames and keeps the offset in the page. */
  function Phys(frame: nat -> nat, v: nat): nat
  {
    frame(v / PAGE) * PAGE + v % PAGE
  }

  lemma SamePage(frame: nat -> nat, v: nat, k: nat)
    requires v % PAGE + k < PAGE
    ensures Phys(frame, v + k) == Phys(frame, v) + k
  {
    assert (v + k) / PAGE == v / PAGE;
  }

  lemma SameOffset(frame: nat -> nat, v: nat)
    ensures Phys(frame, v) % PAGE == v % PAGE
  {
  }

  /** The physical address of byte `k` of a transfer as a controller reads the descriptor: the first entry
      covers the rest of its page; the second is a page, or a list of pages when more than one is left. */
  function ByteAddress(prp1: nat, prp2: nat, list: seq<nat>, bytes: nat, k: nat): Option<nat>
  {
    var span := PAGE - prp1 % PAGE;
    if k < span then Some(prp1 + k)
    else if bytes <= span + PAGE then Some(prp2 + (k - span))
    else if (k - span) / PAGE < |list| then Some(list[(k - span) / PAGE] + (k - span) % PAGE)
    else None
  }

  /** The descriptor names, byte for byte, the physical addresses of the buffer. */
  ghost predicate Describes(frame: nat -> nat, buffer: nat, bytes: nat, prp1: nat, prp2: nat, list: seq<nat>)
  {
    forall k: nat :: k < bytes ==> ByteAddress(prp1, prp2, list, bytes, k) == Some(Phys(frame, buffer + k))
  }

  /** `list` holds the frames of the pages from `cursor` on. */
  ghost predicate ListsPages(frame: nat -> nat, cursor: nat, list: seq<nat>)
  {
    forall j :: 0 <= j < |list| ==> list[j] == Phys(frame, cursor + j * PAGE)
  }

  lemma ListedByte(frame: nat -> nat, buffer: nat, bytes: nat, list: seq<nat>, k: nat)
    requires var span := PAGE - buffer % PAGE;
      k < bytes && span + PAGE < bytes <= span + |list| * PAGE && ListsPages(frame, buffer + span, list)
    ensures ByteAddress(Phys(frame, buffer), 0, list, bytes, k) == Some(Phys(frame, buffer + k))
  {
    hide Phys;
    SameOffset(frame, buffer);
    var span := PAGE - buffer % PAGE;
    if k < span {
      SamePage(frame, buffer, k);
    } else {
      var j, r := (k - span) / PAGE, (k - span) % PAGE;
      var page := buffer + span + j * PAGE;
      assert page % PAGE == 0 && buffer + k == page + r && j < |list|;
      SamePage(frame, page, r);
    }
  }

  lemma ShortTransfer(frame: nat -> nat, buffer: nat, bytes: nat, prp2: nat)
    requires var span := PAGE - buffer % PAGE;
      bytes <= span || (bytes <= span + PAGE && prp2 == Phys(frame, buffer + span))
    ensures Describes(frame, buffer, bytes, Phys(frame, buffer), prp2, [])
  {
    hide Phys;
    SameOffset(frame, buffer);
    var span := PAGE - buffer % PAGE;
    forall k: nat | k < bytes
      ensures ByteAddress(Phys(frame, buffer), prp2, [], bytes, k) == Some(Phys(frame, buffer + k))
    {
      if k < span {
        SamePage(frame, buffer, k);
      } else {
        SamePage(frame, buffer + span, k - span);
      }
    }
  }

  /** Fills the list page by page; stops when it is full. */
  method FillList(frame: nat -> nat, start: nat, total: nat, list: array<nat>) returns (entries: nat, left: nat)
    requires list.Length == LIST_ENTRIES && start % PAGE == 0 && total > 0
    modifies list
    ensures entries <= LIST_ENTRIES && ListsPages(frame, start, list[..entries])
    ensures left == 0 <==> total <= LIST_ENTRIES * PAGE
    ensures left == 0 ==> total <= entries * PAGE
  {
    hide Phys;
    var cursor := start;
    left, entries := total, 0;
    while left > 0 && entries < LIST_ENTRIES
      invariant entries <= LIST_ENTRIES
      invariant cursor + left == start + total && cursor >= start
      invariant left > 0 ==> cursor == start + entries * PAGE
      invariant total <= left + entries * PAGE
      invariant ListsPages(frame, start, list[..entries])
    {
      list[entries] := Phys(frame, cursor);
      assert list[..entries + 1] == list[..entries] + [Phys(frame, start + entries * PAGE)];
      var chunk := if left > PAGE then PAGE else left;
      cursor := cursor + chunk;
      left := left - chunk;
      entries := entries + 1;
    }
  }

  /** `build_prps`.  It fails exactly when the list is too short, and otherwise the descriptor covers the
      transfer. */
  method BuildPrps(frame: nat -> nat, buffer: nat, bytes: nat, list: array<nat>, listAddress: nat)
    returns (ok: bool, prp1: nat, prp2: nat, ghost used: seq<nat>)
    requires list.Length == LIST_ENTRIES
    modifies list
    ensures ok <==> buffer != 0 && bytes <= PAGE - buffer % PAGE + LIST_ENTRIES * PAGE
    ensures ok ==> used <= list[..] && (used != [] ==> prp2 == Phys(frame, listAddress))
    ensures ok ==> Describes(frame, buffer, bytes, prp1, prp2, used)
  {
    hide Phys, ListsPages;
    prp1, prp2, used, ok := 0, 0, [], buffer != 0;
    if buffer == 0 || bytes == 0 {
      return;
    }
    prp1 := Phys(frame, buffer);
    SameOffset(frame, buffer);
    var span := PAGE - prp1 % PAGE;
    if bytes <= span {
      ShortTransfer(frame, buffer, bytes, prp2);
      return;
    }
    var remaining := bytes - span;
    var cursor := buffer + span;
    assert cursor % PAGE == 0;
    if remaining <= PAGE {
      prp2 := Phys(frame, cursor);
      ShortTransfer(frame, buffer, bytes, prp2);
      return;
    }
    var entries, left := FillList(frame, cursor, remaining, list);
    if left != 0 {
      ok := false;
      return;
    }
    prp2 := Phys(frame, listAddress);
    used := list[..entries];
    forall k: nat | k < bytes ensures ByteAddress(prp1, prp2, used, bytes, k) == Some(Phys(frame, buffer + k)) {
      ListedByte(frame, buffer, bytes, used, k);
    }
  }
}
