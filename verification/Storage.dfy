/** The persistent store: extents appended to a disk behind a superblock, across failed writes and
    restarts. */
module Storage {
  import opened Bytes
  import opened SnapshotCodec

  const SUPERBLOCK_LBA: nat := 1
  const INDEX_LBA: nat := 2
  const DATA_START_LBA: nat := 10
  const MAGIC: U32 := 0x484F_4B55

  type Disk = seq<seq<Byte>>

  /** The superblock as kept in memory. */
  datatype Super = Super(magic: U32, nextFree: U32, reserved: seq<Byte>)
  datatype Store = Store(disk: Disk, sb: Super)
  datatype Handle = Handle(start: nat, sectors: nat)

  predicate IsDisk(d: Disk)
  {
    |d| < 0x1_0000_0000 && forall i :: 0 <= i < |d| ==> |d[i]| == SECTOR
  }

  predicate Wf(st: Store)
  {
    IsDisk(st.disk) && |st.sb.reserved| == 504
  }

  // ----- Sectors -----

  /** A sector write either takes effect whole or fails and changes nothing. */
  function PutSector(d: Disk, lba: nat, sector: seq<Byte>, works: bool): (Disk, bool)
  {
    if works && lba < |d| then (d[lba := sector], true) else (d, false)
  }

  function SectorsOf(n: nat): nat
  {
    (n + SECTOR - 1) / SECTOR
  }

  /** The least number of sectors that hold the data. */
  lemma SectorsLeast(n: nat)
    ensures n <= SectorsOf(n) * SECTOR < n + SECTOR
  {
  }

  /** Sector `i` of the data, padded with zeros. */
  function Chunk(data: seq<Byte>, i: nat): (s: seq<Byte>)
    requires i < SectorsOf(|data|)
    ensures |s| == SECTOR
  {
    var lo := i * SECTOR;
    var n := if |data| - lo > SECTOR then SECTOR else |data| - lo;
    data[lo..lo + n] + Zeros(SECTOR - n)
  }

  function SuperBytes(sb: Super): seq<Byte>
  {
    U32Bytes(sb.magic) + U32Bytes(sb.nextFree) + sb.reserved
  }

  function SuperOf(sector: seq<Byte>): Super
    requires |sector| == SECTOR
  {
    Super(ReadU32(sector, 0), ReadU32(sector, 4), sector[8..])
  }

  lemma SuperRoundTrip(sb: Super)
    requires |sb.reserved| == 504
    ensures |SuperBytes(sb)| == SECTOR && SuperOf(SuperBytes(sb)) == sb
  {
    hide U32Bytes, ReadU32;
    var a, b := U32Bytes(sb.magic), U32Bytes(sb.nextFree);
    assert SuperBytes(sb) == [] + a + (b + sb.reserved);
    ReadU32At([], sb.magic, b + sb.reserved);
    assert SuperBytes(sb) == a + b + sb.reserved;
    ReadU32At(a, sb.nextFree, sb.reserved);
  }

  // ----- Operations -----

  /** Writes the first `n` sectors of the data, stopping at the first failure. */
  function PutData(d: Disk, start: nat, data: seq<Byte>, n: nat, works: nat -> bool): (Disk, bool)
    requires n <= SectorsOf(|data|)
    decreases n
  {
    if n == 0 then (d, true)
    else
      var (e, good) := PutData(d, start, data, n - 1, works);
      if good then PutSector(e, start + n - 1, Chunk(data, n - 1), works(n - 1)) else (e, false)
  }

  /** Appends an extent. The sector writes succeed or fail as `works` says, the superblock's last. */
  function Write(st: Store, data: seq<Byte>, works: nat -> bool): (r: (Store, Option<Handle>))
    requires Wf(st)
  {
    if data == [] then (st, None)
    else
      var n, start := SectorsOf(|data|), st.sb.nextFree;
      var (d, good) := PutData(st.disk, start, data, n, works);
      if !good then (st.(disk := d), None)
      else
        DataFits(st.disk, start, data, n, works);
        var sb := st.sb.(nextFree := start + n);
        var (e, flushed) := PutSector(d, SUPERBLOCK_LBA, SuperBytes(sb), works(n));
        (Store(e, sb), if flushed then Some(Handle(start, n)) else None)
  }

  /** Reads the superblock, formatting it if it is not one. If it cannot be read the store starts over. */
  function Init(st: Store, readable: bool, works: bool): Store
    requires Wf(st)
  {
    if !readable || SUPERBLOCK_LBA >= |st.disk| then st.(sb := st.sb.(magic := 0, nextFree := DATA_START_LBA))
    else
      var sb := SuperOf(st.disk[SUPERBLOCK_LBA]);
      if sb.magic == MAGIC && sb.nextFree >= DATA_START_LBA then st.(sb := sb)
      else
        var blank := Super(MAGIC, DATA_START_LBA, Zeros(504));
        Store(PutSector(st.disk, SUPERBLOCK_LBA, SuperBytes(blank), works).0, blank)
  }

  /** Adds an entry to the index sector. */
  function AddIndex(st: Store, e: IndexEntry, readable: bool, works: bool): (Store, bool)
    requires Wf(st) && IsText(e.name)
  {
    var buf := if readable && INDEX_LBA < |st.disk| then st.disk[INDEX_LBA] else Zeros(SECTOR);
    var out := AddEntry(buf, e);
    if out.None? then (st, false)
    else
      var (d, good) := PutSector(st.disk, INDEX_LBA, out.value, works);
      (st.(disk := d), good)
  }

  // ----- What a write leaves behind -----

  lemma {:induction false} DataFits(d: Disk, start: nat, data: seq<Byte>, n: nat, works: nat -> bool)
    requires IsDisk(d) && n <= SectorsOf(|data|)
    ensures IsDisk(PutData(d, start, data, n, works).0) && |PutData(d, start, data, n, works).0| == |d|
    ensures PutData(d, start, data, n, works).1 ==> start + n <= |d| || n == 0
    decreases n
  {
    hide Chunk;
    if n > 0 {
      DataFits(d, start, data, n - 1, works);
    }
  }

  /** Sectors outside the extent being written keep their contents; if all goes well the extent holds
      the data. */
  lemma {:induction false} DataPlaced(d: Disk, start: nat, data: seq<Byte>, n: nat, works: nat -> bool, i: nat)
    requires IsDisk(d) && n <= SectorsOf(|data|) && i < |d|
    ensures |PutData(d, start, data, n, works).0| == |d|
    ensures !(start <= i < start + n) ==> PutData(d, start, data, n, works).0[i] == d[i]
    ensures PutData(d, start, data, n, works).1 && start <= i < start + n ==>
      PutData(d, start, data, n, works).0[i] == Chunk(data, i - start)
    decreases n
  {
    hide Chunk;
    if n > 0 {
      DataPlaced(d, start, data, n - 1, works, i);
    }
  }

  lemma WriteKeepsWf(st: Store, data: seq<Byte>, works: nat -> bool)
    requires Wf(st)
    ensures Wf(Write(st, data, works).0) && |Write(st, data, works).0.disk| == |st.disk|
  {
    hide Chunk, SuperBytes, PutData;
    if data != [] {
      DataFits(st.disk, st.sb.nextFree, data, SectorsOf(|data|), works);
      var next := st.sb.nextFree + SectorsOf(|data|);
      SuperRoundTrip(st.sb.(nextFree := if next < TWO32 then next else 0));
    }
  }

  // ----- Extents -----

  /** Data whose write reported success, and where it went. */
  datatype Extent = Extent(start: nat, data: seq<Byte>)

  function End(e: Extent): nat
  {
    e.start + SectorsOf(|e.data|)
  }

  predicate Holds(d: Disk, e: Extent)
  {
    && End(e) <= |d|
    && forall i :: 0 <= i < SectorsOf(|e.data|) ==> d[e.start + i] == Chunk(e.data, i)
  }

  predicate DiskSuperOk(d: Disk, bound: nat)
    requires IsDisk(d)
  {
    && SUPERBLOCK_LBA < |d|
    && SuperOf(d[SUPERBLOCK_LBA]).magic == MAGIC && SuperOf(d[SUPERBLOCK_LBA]).nextFree >= bound
  }

  /** The successful extents lie one after another past the reserved sectors, hold their data, and end
      before the next free sector both in memory and on the disk. */
  predicate Inv(st: Store, es: seq<Extent>)
  {
    && Wf(st) && st.sb.magic == MAGIC && st.sb.nextFree >= DATA_START_LBA
    && (forall k :: 0 <= k < |es| ==> Survives(st, es[k]))
    && (forall j, k :: 0 <= j < k < |es| ==> End(es[j]) <= es[k].start)
  }

  predicate Survives(st: Store, e: Extent)
    requires Wf(st)
  {
    && e.start >= DATA_START_LBA && End(e) <= st.sb.nextFree && Holds(st.disk, e)
    && DiskSuperOk(st.disk, End(e)) && DiskSuperOk(st.disk, DATA_START_LBA)
  }

  lemma ExtentKept(d: Disk, d': Disk, e: Extent)
    requires |d'| == |d| && Holds(d, e)
    requires forall i :: e.start <= i < End(e) ==> d'[i] == d[i]
    ensures Holds(d', e)
  {
  }

  /** A write extends the ledger when it reports success, and harms no earlier extent either way. */
  function Ledger(st: Store, data: seq<Byte>, works: nat -> bool, es: seq<Extent>): seq<Extent>
    requires Wf(st)
  {
    if Write(st, data, works).1.Some? then es + [Extent(st.sb.nextFree, data)] else es
  }

  /** What any write does to the sectors: below the old frontier only the superblock can change. */
  lemma WriteTouches(st: Store, data: seq<Byte>, works: nat -> bool, i: nat)
    requires Wf(st) && i < |st.disk|
    ensures |Write(st, data, works).0.disk| == |st.disk|
    ensures i < st.sb.nextFree && i != SUPERBLOCK_LBA ==> Write(st, data, works).0.disk[i] == st.disk[i]
    ensures Write(st, data, works).1.None? && i == SUPERBLOCK_LBA < st.sb.nextFree ==>
      Write(st, data, works).0.disk[i] == st.disk[i]
  {
    hide Chunk, SuperBytes, PutData;
    if data != [] {
      DataPlaced(st.disk, st.sb.nextFree, data, SectorsOf(|data|), works, i);
    }
  }

  /** What a successful write adds. */
  lemma WriteAdds(st: Store, data: seq<Byte>, works: nat -> bool)
    requires Wf(st) && st.sb.nextFree >= DATA_START_LBA && st.sb.magic == MAGIC
    requires Write(st, data, works).1.Some?
    ensures
      var e := Extent(st.sb.nextFree, data);
      && Write(st, data, works).1 == Some(Handle(e.start, SectorsOf(|data|)))
      && Wf(Write(st, data, works).0) && Survives(Write(st, data, works).0, e)
      && Write(st, data, works).0.sb.nextFree == End(e)
  {
    hide Chunk, SuperBytes, SuperOf, PutData;
    WriteKeepsWf(st, data, works);
    var n := SectorsOf(|data|);
    DataFits(st.disk, st.sb.nextFree, data, n, works);
    var after := Write(st, data, works).0;
    var e := Extent(st.sb.nextFree, data);
    SuperRoundTrip(after.sb);
    assert after.disk[SUPERBLOCK_LBA] == SuperBytes(after.sb);
    forall i | 0 <= i < n ensures after.disk[e.start + i] == Chunk(data, i) {
      DataPlaced(st.disk, e.start, data, n, works, e.start + i);
    }
  }

  lemma SurvivesWrite(st: Store, data: seq<Byte>, works: nat -> bool, e: Extent)
    requires Wf(st) && st.sb.nextFree >= DATA_START_LBA && st.sb.magic == MAGIC && Survives(st, e)
    ensures Wf(Write(st, data, works).0) && Survives(Write(st, data, works).0, e)
  {
    hide Chunk, SuperBytes, SuperOf, Write, Holds;
    WriteKeepsWf(st, data, works);
    var after := Write(st, data, works).0;
    HoldsFits(st.disk, e);
    WriteTouches(st, data, works, SUPERBLOCK_LBA);
    forall i | e.start <= i < End(e) ensures after.disk[i] == st.disk[i] {
      WriteTouches(st, data, works, i);
    }
    ExtentKept(st.disk, after.disk, e);
    WriteFrontier(st, data, works);
    if Write(st, data, works).1.Some? {
      WriteAdds(st, data, works);
    }
  }

  lemma HoldsFits(d: Disk, e: Extent)
    requires Holds(d, e)
    ensures End(e) <= |d|
  {
  }

  lemma WriteFrontier(st: Store, data: seq<Byte>, works: nat -> bool)
    requires Wf(st)
    ensures Write(st, data, works).0.sb.nextFree >= st.sb.nextFree
    ensures Write(st, data, works).0.sb.magic == st.sb.magic
  {
  }

  lemma WriteKeepsInv(st: Store, data: seq<Byte>, works: nat -> bool, es: seq<Extent>)
    requires Inv(st, es)
    ensures Inv(Write(st, data, works).0, Ledger(st, data, works, es))
  {
    hide Chunk, Write, Survives;
    WriteKeepsWf(st, data, works);
    WriteFrontier(st, data, works);
    forall k | 0 <= k < |es| ensures Survives(Write(st, data, works).0, es[k]) {
      SurvivesWrite(st, data, works, es[k]);
    }
    if Write(st, data, works).1.Some? {
      WriteAdds(st, data, works);
      forall k | 0 <= k < |es| ensures End(es[k]) <= st.sb.nextFree {
        EndsBefore(st, es[k]);
      }
    }
  }

  lemma EndsBefore(st: Store, e: Extent)
    requires Wf(st) && Survives(st, e)
    ensures DATA_START_LBA <= e.start && End(e) <= st.sb.nextFree && End(e) <= |st.disk|
  {
  }

  /** A restart leaves a sound store exactly when the superblock can be read. */
  lemma InitKeepsInv(st: Store, readable: bool, works: bool, es: seq<Extent>)
    requires Inv(st, es) && SUPERBLOCK_LBA < |st.disk|
    ensures Inv(Init(st, readable, works), es) <==> readable
  {
    hide Chunk, SuperBytes, U32Bytes, ReadU32;
    var after := Init(st, readable, works);
    if readable {
      SuperRoundTrip(Super(MAGIC, DATA_START_LBA, Zeros(504)));
      forall k | 0 <= k < |es| ensures Survives(after, es[k]) {
        assert Survives(st, es[k]);
      }
    }
  }

  /** What an unreadable superblock costs, on any disk: the next write lands on the first data sectors and
      reports success, the restart after it begins again there, and the write after that replaces the data. */
  lemma UnreadableStartLoses(st: Store, first: seq<Byte>, works: nat -> bool, formatWorks: bool, second: seq<Byte>,
                             works': nat -> bool)
    requires Wf(st) && Write(Init(st, false, false), first, works).1.Some?
    ensures Wf(Write(Init(st, false, false), first, works).0)
    ensures
      var a := Init(st, false, false);
      var (b, h) := Write(a, first, works);
      var c := Init(b, true, formatWorks);
      && h == Some(Handle(DATA_START_LBA, SectorsOf(|first|))) && Wf(c) && c.sb.nextFree == DATA_START_LBA
      && (Write(c, second, works').1.Some? ==>
        && Write(c, second, works').1.value.start == DATA_START_LBA
        && Holds(Write(c, second, works').0.disk, Extent(DATA_START_LBA, second)))
  {
    hide Chunk, SuperBytes, SuperOf, PutData;
    var a := Init(st, false, false);
    WriteKeepsWf(a, first, works);
    var b := Write(a, first, works).0;
    SuperRoundTrip(b.sb);
    assert b.disk[SUPERBLOCK_LBA] == SuperBytes(b.sb);
    SuperRoundTrip(Super(MAGIC, DATA_START_LBA, Zeros(504)));
    var c := Init(b, true, formatWorks);
    if Write(c, second, works').1.Some? {
      WriteAdds(c, second, works');
    }
  }

  /** A write to a disk that works succeeds when it fits. */
  lemma {:induction false} WorkingData(d: Disk, start: nat, data: seq<Byte>, n: nat, works: nat -> bool)
    requires n <= SectorsOf(|data|) && start + n <= |d| && forall i :: works(i)
    ensures PutData(d, start, data, n, works).1 && |PutData(d, start, data, n, works).0| == |d|
    decreases n
  {
    hide Chunk;
    if n > 0 {
      WorkingData(d, start, data, n - 1, works);
    }
  }

  lemma WorkingWrite(st: Store, data: seq<Byte>, works: nat -> bool)
    requires Wf(st) && data != [] && st.sb.nextFree + SectorsOf(|data|) <= |st.disk| && SUPERBLOCK_LBA < |st.disk|
    requires forall i :: works(i)
    ensures Write(st, data, works).1.Some?
  {
    hide PutData, Chunk, SuperBytes;
    WorkingData(st.disk, st.sb.nextFree, data, SectorsOf(|data|), works);
  }

  /** Such a run on a small blank disk that works perfectly but for one read. */
  lemma LostExtentExample()
    ensures
      var blank := Store(seq(16, _ => Zeros(SECTOR)), Super(0, 0, Zeros(504)));
      var works := (i: nat) => true;
      && Wf(blank)
      && var (b, h) := Write(Init(blank, false, false), [1], works);
      && h.Some? && Wf(b) && Wf(Init(b, true, true))
      && var (d, h') := Write(Init(b, true, true), [2], works);
      h' == h && !Holds(d.disk, Extent(h.value.start, [1]))
  {
    hide PutData, SuperBytes, SuperOf, Write;
    var blank := Store(seq(16, _ => Zeros(SECTOR)), Super(0, 0, Zeros(504)));
    var works := (i: nat) => true;
    WorkingWrite(Init(blank, false, false), [1], works);
    var b := Write(Init(blank, false, false), [1], works).0;
    UnreadableStartLoses(blank, [1], works, true, [2], works);
    WriteTouches(Init(blank, false, false), [1], works, 0);
    var c := Init(b, true, true);
    assert |c.disk| == 16;
    WorkingWrite(c, [2], works);
    var d := Write(c, [2], works).0;
    WriteHandle(c, [2], works);
    assert d.disk[DATA_START_LBA + 0] == Chunk([2], 0);
    assert Chunk([1], 0)[0] == 1 && Chunk([2], 0)[0] == 2;
  }

  lemma WriteHandle(st: Store, data: seq<Byte>, works: nat -> bool)
    requires Wf(st) && Write(st, data, works).1.Some?
    ensures Write(st, data, works).1 == Some(Handle(st.sb.nextFree, SectorsOf(|data|)))
  {
  }

  lemma AddIndexKeepsInv(st: Store, e: IndexEntry, readable: bool, works: bool, es: seq<Extent>)
    requires Inv(st, es) && IsText(e.name)
    ensures Inv(AddIndex(st, e, readable, works).0, es)
  {
    hide Chunk, SuperBytes, SuperOf, AddEntry, IsText;
    var after := AddIndex(st, e, readable, works).0;
    AddedSize(if readable && INDEX_LBA < |st.disk| then st.disk[INDEX_LBA] else Zeros(SECTOR), e);
    assert Wf(after);
    forall k | 0 <= k < |es| ensures Survives(after, es[k]) {
      assert Survives(st, es[k]);
    }
  }

  lemma AddedSize(buf: seq<Byte>, e: IndexEntry)
    requires |buf| == SECTOR && IsText(e.name)
    ensures AddEntry(buf, e).Some? ==> |AddEntry(buf, e).value| == SECTOR
  {
  }

  // ----- Runs -----

  datatype Op =
    | OpWrite(data: seq<Byte>, works: nat -> bool)
    | OpRestart(readable: bool, formatWorks: bool)
    | OpIndex(entry: IndexEntry, readable: bool, indexWorks: bool)

  predicate OpOk(op: Op)
  {
    op.OpIndex? ==> IsText(op.entry.name)
  }

  function Step(st: Store, op: Op): Store
    requires Wf(st) && OpOk(op)
  {
    match op
    case OpWrite(data, works) => Write(st, data, works).0
    case OpRestart(readable, works) => Init(st, readable, works)
    case OpIndex(entry, readable, works) => AddIndex(st, entry, readable, works).0
  }

  function StepLedger(st: Store, op: Op, es: seq<Extent>): seq<Extent>
    requires Wf(st) && OpOk(op)
  {
    match op
    case OpWrite(data, works) => Ledger(st, data, works, es)
    case OpRestart(_, _) => es
    case OpIndex(_, _, _) => es
  }

  /** A restart that cannot read the superblock. */
  predicate BlindRestart(op: Op)
  {
    op.OpRestart? && !op.readable
  }

  lemma StepKeepsWf(st: Store, op: Op)
    requires Wf(st) && OpOk(op)
    ensures Wf(Step(st, op)) && |Step(st, op).disk| == |st.disk|
  {
    hide Write, Init, AddIndex;
    match op
    case OpWrite(data, works) => WriteKeepsWf(st, data, works);
    case OpRestart(readable, works) => InitKeepsWf(st, readable, works);
    case OpIndex(entry, readable, works) => AddIndexKeepsWf(st, entry, readable, works);
  }

  lemma StepKeepsInv(st: Store, op: Op, es: seq<Extent>)
    requires Inv(st, es) && OpOk(op) && SUPERBLOCK_LBA < |st.disk|
    ensures Wf(st) && (Inv(Step(st, op), StepLedger(st, op, es)) <==> !BlindRestart(op))
  {
    hide Inv, Write, Init, AddIndex;
    InvWf(st, es);
    match op
    case OpWrite(data, works) => WriteKeepsInv(st, data, works, es);
    case OpRestart(readable, works) => InitKeepsInv(st, readable, works, es);
    case OpIndex(entry, readable, works) => AddIndexKeepsInv(st, entry, readable, works, es);
  }

  lemma InvWf(st: Store, es: seq<Extent>)
    requires Inv(st, es)
    ensures Wf(st)
  {
  }

  lemma InitKeepsWf(st: Store, readable: bool, works: bool)
    requires Wf(st)
    ensures Wf(Init(st, readable, works)) && |Init(st, readable, works).disk| == |st.disk|
  {
    hide U32Bytes, ReadU32;
  }

  lemma AddIndexKeepsWf(st: Store, e: IndexEntry, readable: bool, works: bool)
    requires Wf(st) && IsText(e.name)
    ensures Wf(AddIndex(st, e, readable, works).0) && |AddIndex(st, e, readable, works).0.disk| == |st.disk|
  {
    hide AddEntry, IsText;
    AddedSize(if readable && INDEX_LBA < |st.disk| then st.disk[INDEX_LBA] else Zeros(SECTOR), e);
  }

  ghost predicate Reaches(st: Store, es: seq<Extent>, ops: seq<Op>, last: Store, all: seq<Extent>)
    requires Wf(st) && forall i :: 0 <= i < |ops| ==> OpOk(ops[i])
    decreases |ops|
  {
    if ops == [] then last == st && all == es
    else
      StepKeepsWf(st, ops[0]);
      Reaches(Step(st, ops[0]), StepLedger(st, ops[0], es), ops[1..], last, all)
  }

  /** After every step of the run the store is sound and holds all the extents it has reported so far. */
  ghost predicate SoundThroughout(st: Store, es: seq<Extent>, ops: seq<Op>)
    requires Wf(st) && forall i :: 0 <= i < |ops| ==> OpOk(ops[i])
    decreases |ops|
  {
    if ops == [] then Inv(st, es)
    else
      StepKeepsWf(st, ops[0]);
      Inv(st, es) && SoundThroughout(Step(st, ops[0]), StepLedger(st, ops[0], es), ops[1..])
  }

  predicate NeverBlind(ops: seq<Op>)
  {
    forall i :: 0 <= i < |ops| ==> !BlindRestart(ops[i])
  }

  /** Over every run of writes, index updates and restarts, with reads and sector writes failing at will, the
      store, its superblock in memory included, is sound and holds all the extents ever reported after every
      step, if and only if each restart could read the superblock. */
  lemma {:induction false} ExtentsSurvive(st: Store, es: seq<Extent>, ops: seq<Op>, last: Store, all: seq<Extent>)
    requires Inv(st, es) && SUPERBLOCK_LBA < |st.disk|
    requires forall i :: 0 <= i < |ops| ==> OpOk(ops[i])
    requires Reaches(st, es, ops, last, all)
    ensures SoundThroughout(st, es, ops) <==> NeverBlind(ops)
    ensures NeverBlind(ops) ==> Inv(last, all) && es <= all
    decreases |ops|
  {
    hide Inv, Step;
    if ops != [] {
      InvWf(st, es);
      StepKeepsWf(st, ops[0]);
      StepKeepsInv(st, ops[0], es);
      LedgerGrows(st, ops[0], es);
      if !BlindRestart(ops[0]) {
        ExtentsSurvive(Step(st, ops[0]), StepLedger(st, ops[0], es), ops[1..], last, all);
        assert NeverBlind(ops[1..]) ==> NeverBlind(ops) by {
          assert forall i :: 0 < i < |ops| ==> ops[i] == ops[1..][i - 1];
        }
      }
    }
  }

  lemma LedgerGrows(st: Store, op: Op, es: seq<Extent>)
    requires Wf(st) && OpOk(op)
    ensures es <= StepLedger(st, op, es)
  {
  }

  /** Any disk becomes a store with no extents. */
  lemma InitInv(st: Store, works: bool)
    requires Wf(st) && SUPERBLOCK_LBA < |st.disk|
    ensures Inv(Init(st, true, works), [])
  {
    hide U32Bytes, ReadU32;
    SuperRoundTrip(Super(MAGIC, DATA_START_LBA, Zeros(504)));
  }

  // ----- The disk alone -----

  /** The disk's part of the invariant: the extents are apart, hold their data and end before the next free
      sector the disk records. */
  predicate DiskSound(d: Disk, es: seq<Extent>)
  {
    && IsDisk(d)
    && (forall k :: 0 <= k < |es| ==> Lasts(d, es[k]))
    && (forall j, k :: 0 <= j < k < |es| ==> End(es[j]) <= es[k].start)
  }

  predicate Lasts(d: Disk, e: Extent)
    requires IsDisk(d)
  {
    e.start >= DATA_START_LBA && Holds(d, e) && DiskSuperOk(d, End(e)) && DiskSuperOk(d, DATA_START_LBA)
  }

  lemma InvDiskSound(st: Store, es: seq<Extent>)
    requires Inv(st, es)
    ensures DiskSound(st.disk, es)
  {
    hide Chunk, SuperOf, Holds;
    forall k | 0 <= k < |es| ensures Lasts(st.disk, es[k]) {
      assert Survives(st, es[k]);
    }
  }

  /** A restart that can read the superblock makes the store sound again, whatever was in memory. */
  lemma RestartRecovers(st: Store, works: bool, es: seq<Extent>)
    requires Wf(st) && DiskSound(st.disk, es) && SUPERBLOCK_LBA < |st.disk|
    ensures Inv(Init(st, true, works), es)
  {
    hide Chunk, SuperBytes, SuperOf, Holds;
    if es == [] {
      InitInv(st, works);
    } else {
      assert Lasts(st.disk, es[0]);
      InitKeepsWf(st, true, works);
      forall k | 0 <= k < |es| ensures Survives(Init(st, true, works), es[k]) {
        assert Lasts(st.disk, es[k]);
      }
    }
  }

  /** An index update touches no extent and not the superblock. */
  lemma IndexKeepsDisk(st: Store, e: IndexEntry, readable: bool, works: bool, es: seq<Extent>)
    requires Wf(st) && IsText(e.name) && DiskSound(st.disk, es)
    ensures DiskSound(AddIndex(st, e, readable, works).0.disk, es)
  {
    hide Chunk, SuperOf, AddEntry, IsText;
    AddIndexKeepsWf(st, e, readable, works);
    var d := AddIndex(st, e, readable, works).0.disk;
    forall k | 0 <= k < |es| ensures Lasts(d, es[k]) {
      assert Lasts(st.disk, es[k]);
      ExtentKept(st.disk, d, es[k]);
    }
  }

  /** Whether the store is still blind after the step. */
  function BlindAfter(blind: bool, op: Op): bool
  {
    if op.OpRestart? then !op.readable else blind
  }

  /** Nothing is written between a restart that cannot read the superblock and the next one that can. */
  predicate Careful(blind: bool, ops: seq<Op>)
    decreases |ops|
  {
    ops != [] ==> !(blind && ops[0].OpWrite? && ops[0].data != []) && Careful(BlindAfter(blind, ops[0]), ops[1..])
  }

  /** After every step of the run the disk is sound and holds all the extents reported so far. */
  ghost predicate DiskSoundThroughout(st: Store, es: seq<Extent>, ops: seq<Op>)
    requires Wf(st) && forall i :: 0 <= i < |ops| ==> OpOk(ops[i])
    decreases |ops|
  {
    if ops == [] then DiskSound(st.disk, es)
    else
      StepKeepsWf(st, ops[0]);
      DiskSound(st.disk, es) && DiskSoundThroughout(Step(st, ops[0]), StepLedger(st, ops[0], es), ops[1..])
  }

  /** One careful step: blind, the disk stays sound; not blind, the whole store does. */
  lemma CarefulStep(st: Store, es: seq<Extent>, blind: bool, op: Op)
    requires Wf(st) && OpOk(op) && SUPERBLOCK_LBA < |st.disk| && Careful(blind, [op])
    requires DiskSound(st.disk, es) && (!blind ==> Inv(st, es))
    ensures DiskSound(Step(st, op).disk, StepLedger(st, op, es))
    ensures !BlindAfter(blind, op) ==> Inv(Step(st, op), StepLedger(st, op, es))
  {
    hide Inv, DiskSound, AddIndex, SuperBytes, SuperOf, PutData;
    if BlindAfter(blind, op) {
      if op.OpIndex? {
        IndexKeepsDisk(st, op.entry, op.readable, op.indexWorks, es);
      }
    } else {
      if op.OpRestart? {
        RestartRecovers(st, op.formatWorks, es);
      } else {
        StepKeepsInv(st, op, es);
      }
      InvDiskSound(Step(st, op), StepLedger(st, op, es));
    }
  }

  /** Over every careful run, with reads and sector writes failing at will, the disk holds all the extents ever
      reported after every step, blind restarts or not. */
  lemma {:induction false} DiskSurvives(st: Store, es: seq<Extent>, blind: bool, ops: seq<Op>, last: Store,
                                        all: seq<Extent>)
    requires Wf(st) && SUPERBLOCK_LBA < |st.disk| && DiskSound(st.disk, es) && (!blind ==> Inv(st, es))
    requires forall i :: 0 <= i < |ops| ==> OpOk(ops[i])
    requires Careful(blind, ops) && Reaches(st, es, ops, last, all)
    ensures DiskSoundThroughout(st, es, ops)
    ensures DiskSound(last.disk, all) && es <= all
    decreases |ops|
  {
    hide Inv, DiskSound, Step, BlindAfter;
    if ops != [] {
      StepKeepsWf(st, ops[0]);
      assert [ops[0]][1..] == [];
      CarefulStep(st, es, blind, ops[0]);
      LedgerGrows(st, ops[0], es);
      DiskSurvives(Step(st, ops[0]), StepLedger(st, ops[0], es), BlindAfter(blind, ops[0]), ops[1..], last, all);
    }
  }

  /** Some write of the run reports success while the store is blind. */
  predicate StoresBlindly(st: Store, blind: bool, ops: seq<Op>)
    requires Wf(st) && forall i :: 0 <= i < |ops| ==> OpOk(ops[i])
    decreases |ops|
  {
    ops != [] &&
    (StepKeepsWf(st, ops[0]);
     (blind && ops[0].OpWrite? && Write(st, ops[0].data, ops[0].works).1.Some?)
     || StoresBlindly(Step(st, ops[0]), BlindAfter(blind, ops[0]), ops[1..]))
  }

  /** Such a write leaves a superblock on the disk that is not one. */
  lemma BlindWriteBreaks(st: Store, data: seq<Byte>, works: nat -> bool, es: seq<Extent>)
    requires Wf(st) && st.sb.magic == 0 && Write(st, data, works).1.Some?
    ensures !DiskSound(Write(st, data, works).0.disk, Ledger(st, data, works, es))
  {
    hide Chunk, SuperBytes, SuperOf, PutData, Holds;
    WriteKeepsWf(st, data, works);
    DataFits(st.disk, st.sb.nextFree, data, SectorsOf(|data|), works);
    var after := Write(st, data, works).0;
    SuperRoundTrip(after.sb);
    assert after.disk[SUPERBLOCK_LBA] == SuperBytes(after.sb);
    assert !Lasts(after.disk, Ledger(st, data, works, es)[|es|]);
  }

  /** And so, over every run, one write that reports success between a restart that could not read the
      superblock and the next that can leaves a disk that is not sound. */
  lemma {:induction false} BlindStoreLoses(st: Store, es: seq<Extent>, blind: bool, ops: seq<Op>)
    requires Wf(st) && (blind ==> st.sb.magic == 0) && forall i :: 0 <= i < |ops| ==> OpOk(ops[i])
    requires StoresBlindly(st, blind, ops)
    ensures !DiskSoundThroughout(st, es, ops)
    decreases |ops|
  {
    hide DiskSound, Write, Init, AddIndex;
    var op := ops[0];
    StepKeepsWf(st, op);
    if blind && op.OpWrite? && Write(st, op.data, op.works).1.Some? {
      BlindWriteBreaks(st, op.data, op.works, es);
      if ops[1..] != [] {
        StepKeepsWf(Step(st, op), ops[1]);
      }
    } else {
      StaysBlind(st, blind, op);
      BlindStoreLoses(Step(st, op), StepLedger(st, op, es), BlindAfter(blind, op), ops[1..]);
    }
  }

  lemma StaysBlind(st: Store, blind: bool, op: Op)
    requires Wf(st) && OpOk(op) && (blind ==> st.sb.magic == 0)
    ensures BlindAfter(blind, op) ==> Step(st, op).sb.magic == 0
  {
    hide PutData, SuperBytes, SuperOf, AddEntry;
    if op.OpWrite? && op.data != [] {
      DataFits(st.disk, st.sb.nextFree, op.data, SectorsOf(|op.data|), op.works);
    }
  }

  // ----- Reading back -----

  /** The first `n` sectors of an extent, joined. */
  function ReadSectors(d: Disk, start: nat, n: nat): seq<Byte>
    requires start + n <= |d|
    decreases n
  {
    if n == 0 then [] else ReadSectors(d, start, n - 1) + d[start + n - 1]
  }

  /** What reading a run of sectors gives, if the disk has them. */
  function RawSectors(d: Disk, start: nat, n: nat): Option<seq<Byte>>
  {
    if start + n > |d| then None else Some(ReadSectors(d, start, n))
  }

  lemma {:induction false} ReadsPrefix(d: Disk, e: Extent, n: nat)
    requires Holds(d, e) && n <= SectorsOf(|e.data|)
    ensures ReadSectors(d, e.start, n) ==
      if n * SECTOR <= |e.data| then e.data[..n * SECTOR] else e.data + Zeros(n * SECTOR - |e.data|)
    decreases n
  {
    if n > 0 {
      hide Chunk, SectorsOf;
      ReadsPrefix(d, e, n - 1);
      assert d[e.start + (n - 1)] == Chunk(e.data, n - 1);
      ChunkExtends(e.data, n);
    }
  }

  lemma ChunkExtends(data: seq<Byte>, n: nat)
    requires 0 < n <= SectorsOf(|data|)
    ensures (n - 1) * SECTOR <= |data|
    ensures data[..(n - 1) * SECTOR] + Chunk(data, n - 1) ==
      if n * SECTOR <= |data| then data[..n * SECTOR] else data + Zeros(n * SECTOR - |data|)
  {
    var lo := (n - 1) * SECTOR;
    if n * SECTOR <= |data| {
      assert data[..n * SECTOR] == data[..lo] + data[lo..n * SECTOR];
    } else {
      assert data == data[..lo] + data[lo..];
    }
  }

  /** A surviving extent reads back as its data padded with zeros. */
  lemma ExtentReadsBack(st: Store, es: seq<Extent>, k: nat)
    requires Inv(st, es) && k < |es|
    ensures
      var n := SectorsOf(|es[k].data|);
      && es[k].start + n <= |st.disk| && n * SECTOR >= |es[k].data|
      && ReadSectors(st.disk, es[k].start, n) == es[k].data + Zeros(n * SECTOR - |es[k].data|)
  {
    hide SuperOf, Chunk, ReadSectors;
    assert Survives(st, es[k]);
    var n := SectorsOf(|es[k].data|);
    ReadsPrefix(st.disk, es[k], n);
    if n * SECTOR == |es[k].data| {
      assert es[k].data[..n * SECTOR] == es[k].data + Zeros(0);
    }
  }
}
