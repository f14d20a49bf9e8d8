/** What saving snapshots, failing to, and restarting leave for the restore to find, over every run. */
module Catalog {
  import opened Bytes
  import opened Paths
  import opened FileTree
  import opened InodeTable
  import opened RamFs
  import opened Snapshot
  import opened SnapshotCodec
  import opened Replay
  import opened SnapshotIo
  import opened Packages
  import Storage
  import StorageDriver

  // ----- What the index lists -----

  /** The entry names an extent the store has reported safe. */
  predicate Listed(e: IndexEntry, es: seq<Storage.Extent>)
  {
    exists k :: 0 <= k < |es| && es[k].start == e.start && Storage.SectorsOf(|es[k].data|) == e.sectors
  }

  predicate AllListed(idx: seq<IndexEntry>, es: seq<Storage.Extent>)
  {
    forall i :: 0 <= i < |idx| ==> Listed(idx[i], es)
  }

  /** A sound store whose index lists these entries. */
  predicate Catalogued(st: Storage.Store, es: seq<Storage.Extent>, idx: seq<IndexEntry>)
  {
    && Storage.Inv(st, es) && Storage.INDEX_LBA < |st.disk|
    && IndexHolds(st.disk[Storage.INDEX_LBA], idx) && AllListed(idx, es)
  }

  /** The restore finds the listed entries up to the first one without a name, names cut. */
  lemma IndexedIs(st: Storage.Store, es: seq<Storage.Extent>, idx: seq<IndexEntry>)
    requires Catalogued(st, es, idx)
    ensures Storage.IsDisk(st.disk) && Indexed(st.disk, true) == ReadBack(idx)
  {
    hide IndexHolds, ParseIndex, ReadU32, AllListed;
    IndexReadsBack(st.disk[Storage.INDEX_LBA], idx);
  }

  /** What an entry's sectors hold depends only on the extent they belong to. */
  lemma EntryData(st: Storage.Store, es: seq<Storage.Extent>, e: IndexEntry) returns (k: nat)
    requires Storage.Inv(st, es) && Listed(e, es)
    ensures k < |es| && es[k].start == e.start && Storage.SectorsOf(|es[k].data|) == e.sectors
    ensures e.sectors * SECTOR >= |es[k].data|
    ensures Storage.RawSectors(st.disk, e.start, e.sectors)
      == Some(es[k].data + Zeros(e.sectors * SECTOR - |es[k].data|))
  {
    hide Storage.Inv, Storage.ReadSectors, Zeros;
    k :| 0 <= k < |es| && es[k].start == e.start && Storage.SectorsOf(|es[k].data|) == e.sectors;
    Storage.ExtentReadsBack(st, es, k);
  }

  lemma SameData(st: Storage.Store, after: Storage.Store, es: seq<Storage.Extent>, more: seq<Storage.Extent>,
                 e: IndexEntry)
    requires Storage.Inv(st, es) && Storage.Inv(after, more) && es <= more && Listed(e, es)
    ensures Storage.RawSectors(after.disk, e.start, e.sectors) == Storage.RawSectors(st.disk, e.start, e.sectors)
  {
    hide Storage.Inv, Storage.RawSectors;
    var k := EntryData(st, es, e);
    assert more[k] == es[k];
    Storage.ExtentReadsBack(after, more, k);
    RawIs(after.disk, e.start, e.sectors);
  }

  lemma RawIs(d: Storage.Disk, start: nat, n: nat)
    requires start + n <= |d|
    ensures Storage.RawSectors(d, start, n) == Some(Storage.ReadSectors(d, start, n))
  {
  }

  /** Listed packages survive whatever keeps the extents. */
  lemma {:induction false} PackagesKept(st: Storage.Store, after: Storage.Store, es: seq<Storage.Extent>,
                                        more: seq<Storage.Extent>, idx: seq<IndexEntry>)
    requires Storage.Inv(st, es) && Storage.Inv(after, more) && es <= more && AllListed(idx, es)
    ensures PackagesOf(after.disk, idx) == PackagesOf(st.disk, idx)
  {
    hide Storage.Inv, Storage.RawSectors, Parse, Listed;
    if idx != [] {
      PackagesKept(st, after, es, more, idx[..|idx| - 1]);
      SameData(st, after, es, more, idx[|idx| - 1]);
    }
  }

  // ----- What the restore finds -----

  /** The packages before the first one without a name, names cut as the index cuts them. */
  function Shown(ps: seq<Package>): seq<Package>
  {
    if ps == [] || ps[0].name == "" then []
    else
      var name := if |ps[0].name| < MAX_NAME then ps[0].name else ps[0].name[..MAX_NAME];
      [Package(name, ps[0].records)] + Shown(ps[1..])
  }

  lemma {:induction false} PackagesCons(d: Storage.Disk, e: IndexEntry, rest: seq<IndexEntry>)
    ensures PackagesOf(d, [e] + rest) == PackagesOf(d, [e]) + PackagesOf(d, rest)
    decreases rest
  {
    hide Storage.RawSectors, Parse;
    if rest == [] {
      assert [e] + rest == [e];
      assert PackagesOf(d, [e]) + [] == PackagesOf(d, [e]);
    } else {
      var n := |rest| - 1;
      assert ([e] + rest)[..|[e] + rest| - 1] == [e] + rest[..n];
      PackagesCons(d, e, rest[..n]);
    }
  }

  lemma OnePackage(st: Storage.Store, es: seq<Storage.Extent>, e: IndexEntry)
    requires Storage.Inv(st, es) && Listed(e, es)
    ensures Storage.RawSectors(st.disk, e.start, e.sectors).Some?
    ensures PackagesOf(st.disk, [e])
      == [Package(e.name, Parse(Storage.RawSectors(st.disk, e.start, e.sectors).value, 0))]
  {
    hide Storage.Inv, Storage.RawSectors, Parse;
    var k := EntryData(st, es, e);
    assert [e][..0] == [];
  }

  lemma {:induction false} ShownPackages(st: Storage.Store, es: seq<Storage.Extent>, idx: seq<IndexEntry>)
    requires Storage.Inv(st, es) && AllListed(idx, es)
    ensures PackagesOf(st.disk, ReadBack(idx)) == Shown(PackagesOf(st.disk, idx))
    decreases idx
  {
    hide Storage.Inv, Storage.RawSectors, Parse, Listed;
    if idx != [] {
      var e, rest := idx[0], idx[1..];
      assert idx == [e] + rest && Listed(e, es);
      ShownPackages(st, es, rest);
      PackagesCons(st.disk, e, rest);
      OnePackage(st, es, e);
      if e.name != "" {
        var cut := e.(name := if |e.name| < MAX_NAME then e.name else e.name[..MAX_NAME]);
        SameListed(e, cut, es);
        OnePackage(st, es, cut);
        PackagesCons(st.disk, cut, ReadBack(rest));
      }
    }
  }

  lemma SameListed(e: IndexEntry, e': IndexEntry, es: seq<Storage.Extent>)
    requires Listed(e, es) && e'.start == e.start && e'.sectors == e.sectors
    ensures Listed(e', es)
  {
  }

  /** The packages the restore reads from a disk. */
  function Found(d: Storage.Disk): seq<Package>
    requires Storage.IsDisk(d)
  {
    PackagesOf(d, Indexed(d, true))
  }

  /** A sound store that has saved these packages and lists them all. */
  predicate Keeps(st: Storage.Store, es: seq<Storage.Extent>, idx: seq<IndexEntry>, ps: seq<Package>)
  {
    Catalogued(st, es, idx) && PackagesOf(st.disk, idx) == ps
  }

  lemma FoundIs(st: Storage.Store, es: seq<Storage.Extent>, idx: seq<IndexEntry>, ps: seq<Package>)
    requires Keeps(st, es, idx, ps)
    ensures Storage.IsDisk(st.disk) && Found(st.disk) == Shown(ps)
  {
    hide IndexHolds, AllListed, Indexed, PackagesOf;
    IndexedIs(st, es, idx);
    ShownPackages(st, es, idx);
  }

  // ----- One save -----

  lemma HandleFits(st: Storage.Store, data: seq<Byte>, works: nat -> bool)
    requires Storage.Wf(st)
    ensures Storage.Wf(Storage.Write(st, data, works).0)
    ensures Storage.Write(st, data, works).1.Some? ==>
      var h := Storage.Write(st, data, works).1.value;
      data != [] && h.start == st.sb.nextFree && h.sectors == Storage.SectorsOf(|data|) < 0x1_0000_0000
  {
    Storage.WriteKeepsWf(st, data, works);
    Storage.DataFits(st.disk, st.sb.nextFree, data, Storage.SectorsOf(|data|), works);
  }

  /** Saving: the payload to an extent, then an entry to the index. */
  function SaveTo(st: Storage.Store, rs: seq<Record>, name: string, works: nat -> bool, readable: bool,
                  indexWorks: bool)
      : (Storage.Store, bool)
    requires Storage.Wf(st) && AllEncodable(rs) && IsText(name)
  {
    HandleFits(st, EncodeAll(rs), works);
    var (st1, h) := Storage.Write(st, EncodeAll(rs), works);
    if h.None? then (st1, false)
    else Storage.AddIndex(st1, IndexEntry(name, h.value.start, h.value.sectors), readable, indexWorks)
  }

  /** What is listed after a save: an index that cannot be read is replaced. */
  function SavedLedger(ps: seq<Package>, ok: bool, p: Package, readable: bool): seq<Package>
  {
    if !ok then ps else (if readable then ps else []) + [p]
  }

  /** The write half of a save keeps everything listed. */
  lemma WriteKeeps(st: Storage.Store, es: seq<Storage.Extent>, idx: seq<IndexEntry>, ps: seq<Package>, data: seq<Byte>,
                   works: nat -> bool)
    requires Keeps(st, es, idx, ps)
    ensures Storage.Wf(st) && Keeps(Storage.Write(st, data, works).0, Storage.Ledger(st, data, works, es), idx, ps)
  {
    hide Storage.Write, Storage.Survives, IndexHolds, PackagesOf, Listed;
    Storage.WriteKeepsInv(st, data, works, es);
    Storage.WriteTouches(st, data, works, Storage.INDEX_LBA);
    var st1, more := Storage.Write(st, data, works).0, Storage.Ledger(st, data, works, es);
    PackagesKept(st, st1, es, more, idx);
    forall i | 0 <= i < |idx| ensures Listed(idx[i], more) {
      ListedMore(idx[i], es, more);
    }
  }

  lemma ListedMore(e: IndexEntry, es: seq<Storage.Extent>, more: seq<Storage.Extent>)
    requires Listed(e, es) && es <= more
    ensures Listed(e, more)
  {
    var k :| 0 <= k < |es| && es[k].start == e.start && Storage.SectorsOf(|es[k].data|) == e.sectors;
    assert more[k] == es[k];
  }

  /** The index half: an update that fails changes nothing, one that succeeds lists the new package. */
  lemma IndexKeeps(st: Storage.Store, es: seq<Storage.Extent>, idx: seq<IndexEntry>, ps: seq<Package>, e: IndexEntry,
                   rs: seq<Record>,
                   readable: bool, indexWorks: bool)
    requires Keeps(st, es, idx, ps) && IsText(e.name) && AllEncodable(rs) && es != []
    requires es[|es| - 1] == Storage.Extent(e.start, EncodeAll(rs)) && e.sectors == Storage.SectorsOf(|EncodeAll(rs)|)
    ensures
      var (st2, ok) := Storage.AddIndex(st, e, readable, indexWorks);
      var base := if readable then idx else [];
      Keeps(st2, es, if ok then base + [e] else idx, SavedLedger(ps, ok, Package(e.name, rs), readable))
  {
    hide Storage.AddIndex, Storage.Inv, IndexHolds, IsText, EncodeAll, AllEncodable, Parse, Zeros, Storage.RawSectors,
         EncodeEntries;
    Storage.InvWf(st, es);
    var (st2, ok) := Storage.AddIndex(st, e, readable, indexWorks);
    StorageDriver.IndexGrows(st, e, readable, indexWorks, idx);
    if ok {
      Storage.AddIndexKeepsInv(st, e, readable, indexWorks, es);
      Storage.AddIndexKeepsWf(st, e, readable, indexWorks);
      var base := if readable then idx else [];
      PackagesKept(st, st2, es, es, base);
      assert (base + [e])[..|base|] == base;
      NewestListed(e, es);
      Storage.ExtentReadsBack(st2, es, |es| - 1);
      RawIs(st2.disk, e.start, e.sectors);
      ParseEncoded([], rs, e.sectors * SECTOR - |EncodeAll(rs)|);
      assert [] + EncodeAll(rs) == EncodeAll(rs);
    }
  }

  lemma NewestListed(e: IndexEntry, es: seq<Storage.Extent>)
    requires es != [] && es[|es| - 1].start == e.start && Storage.SectorsOf(|es[|es| - 1].data|) == e.sectors
    ensures Listed(e, es)
  {
  }

  /** Every way a save can go keeps the store sound, and says what is then listed. */
  lemma SaveKeeps(st: Storage.Store, es: seq<Storage.Extent>, idx: seq<IndexEntry>, ps: seq<Package>, rs: seq<Record>,
                  name: string,
                  works: nat -> bool, readable: bool, indexWorks: bool)
      returns (more: seq<Storage.Extent>, idx': seq<IndexEntry>)
    requires Keeps(st, es, idx, ps) && AllEncodable(rs) && IsText(name)
    ensures Storage.Wf(st)
    ensures
      var (st2, ok) := SaveTo(st, rs, name, works, readable, indexWorks);
      && Keeps(st2, more, idx', SavedLedger(ps, ok, Package(name, rs), readable)) && |st2.disk| == |st.disk|
      && (ok ==> exists start, sectors :: idx' == (if readable then idx else []) + [IndexEntry(name, start, sectors)])
  {
    hide Storage.Write, Storage.AddIndex, Keeps, EncodeAll, AllEncodable, IsText;
    var data := EncodeAll(rs);
    KeepsWf(st, es, idx, ps);
    WriteKeeps(st, es, idx, ps, data, works);
    HandleFits(st, data, works);
    Storage.WriteTouches(st, data, works, 0);
    more := Storage.Ledger(st, data, works, es);
    idx' := idx;
    var (st1, h) := Storage.Write(st, data, works);
    if h.Some? {
      var e := IndexEntry(name, h.value.start, h.value.sectors);
      IndexKeeps(st1, more, idx, ps, e, rs, readable, indexWorks);
      Storage.AddIndexKeepsWf(st1, e, readable, indexWorks);
      var base := if readable then idx else [];
      idx' := if Storage.AddIndex(st1, e, readable, indexWorks).1 then base + [e] else idx;
    }
  }

  /** After a save the restore finds, if it failed, what it found before; if it succeeded, the saved package
      last, behind all the packages before it exactly when the index could be read or listed none. */
  lemma SaveAddsPackage(st: Storage.Store, es: seq<Storage.Extent>, idx: seq<IndexEntry>, ps: seq<Package>,
                        rs: seq<Record>,
                        name: string, works: nat -> bool, readable: bool, indexWorks: bool)
    requires Keeps(st, es, idx, ps) && AllEncodable(rs) && IsText(name)
    ensures Storage.Wf(st)
    ensures
      var (st2, ok) := SaveTo(st, rs, name, works, readable, indexWorks);
      var ps' := SavedLedger(ps, ok, Package(name, rs), readable);
      && Storage.IsDisk(st2.disk) && Found(st2.disk) == Shown(ps')
      && (!ok ==> Found(st2.disk) == Found(st.disk))
      && (ok ==> (ps' == ps + [Package(name, rs)] <==> readable || ps == []))
  {
    hide Keeps, SaveTo, EncodeAll, AllEncodable, IsText, Found, Shown;
    var more, idx' := SaveKeeps(st, es, idx, ps, rs, name, works, readable, indexWorks);
    var (st2, ok) := SaveTo(st, rs, name, works, readable, indexWorks);
    FoundIs(st, es, idx, ps);
    FoundIs(st2, more, idx', SavedLedger(ps, ok, Package(name, rs), readable));
    if ok && !readable && ps != [] {
      assert |ps + [Package(name, rs)]| > 1;
    }
  }

  // ----- Every run -----

  datatype Event =
    | SaveEvent(records: seq<Record>, name: string, works: nat -> bool, readable: bool, indexWorks: bool)
    | RestartEvent(superReadable: bool, formatWorks: bool)

  predicate EventOk(e: Event)
  {
    e.SaveEvent? ==> AllEncodable(e.records) && IsText(e.name)
  }

  function Step(st: Storage.Store, e: Event): Storage.Store
    requires Storage.Wf(st) && EventOk(e)
  {
    match e
    case SaveEvent(rs, name, works, readable, indexWorks) => SaveTo(st, rs, name, works, readable, indexWorks).0
    case RestartEvent(readable, works) => Storage.Init(st, readable, works)
  }

  function StepLedger(st: Storage.Store, e: Event, ps: seq<Package>): seq<Package>
    requires Storage.Wf(st) && EventOk(e)
  {
    match e
    case SaveEvent(rs, name, works, readable, indexWorks) =>
      SavedLedger(ps, SaveTo(st, rs, name, works, readable, indexWorks).1, Package(name, rs), readable)
    case RestartEvent(_, _) => ps
  }

  predicate BlindRestart(e: Event)
  {
    e.RestartEvent? && !e.superReadable
  }

  /** A sound store that lists exactly these packages. */
  ghost predicate Sound(st: Storage.Store, ps: seq<Package>)
  {
    exists es, idx :: Keeps(st, es, idx, ps)
  }

  lemma RestartKeeps(st: Storage.Store, es: seq<Storage.Extent>, idx: seq<IndexEntry>, ps: seq<Package>, works: bool)
    requires Keeps(st, es, idx, ps)
    ensures Storage.Wf(st) && Keeps(Storage.Init(st, true, works), es, idx, ps)
  {
    hide IndexHolds, PackagesOf, AllListed, Storage.SuperOf, Storage.SuperBytes, Storage.Survives;
    Storage.InitKeepsInv(st, true, works, es);
    PackagesKept(st, Storage.Init(st, true, works), es, es, idx);
  }

  lemma StepKeepsWf(st: Storage.Store, e: Event)
    requires Storage.Wf(st) && EventOk(e)
    ensures Storage.Wf(Step(st, e))
  {
    hide Storage.Wf, Storage.Init, Storage.Write, Storage.AddIndex, EncodeAll, AllEncodable, IsText;
    match e
    case SaveEvent(rs, name, works, readable, indexWorks) =>
      HandleFits(st, EncodeAll(rs), works);
      var (st1, h) := Storage.Write(st, EncodeAll(rs), works);
      if h.Some? {
        Storage.AddIndexKeepsWf(st1, IndexEntry(name, h.value.start, h.value.sectors), readable, indexWorks);
      }
    case RestartEvent(readable, works) => Storage.InitKeepsWf(st, readable, works);
  }

  lemma StepKeeps(st: Storage.Store, ps: seq<Package>, e: Event)
    requires Sound(st, ps) && EventOk(e)
    ensures Storage.Wf(st) && (Sound(Step(st, e), StepLedger(st, e, ps)) <==> !BlindRestart(e))
  {
    hide Keeps, SaveTo, Storage.Init, AllEncodable, IsText;
    var es, idx :| Keeps(st, es, idx, ps);
    KeepsWf(st, es, idx, ps);
    match e
    case SaveEvent(rs, name, works, readable, indexWorks) =>
      var more, idx' := SaveKeeps(st, es, idx, ps, rs, name, works, readable, indexWorks);
    case RestartEvent(readable, works) =>
      if readable {
        RestartKeeps(st, es, idx, ps, works);
      } else {
        BlindUnsound(st, works, ps);
      }
  }

  lemma BlindUnsound(st: Storage.Store, works: bool, ps: seq<Package>)
    requires Storage.Wf(st)
    ensures !Sound(Storage.Init(st, false, works), ps)
  {
    hide IndexHolds, PackagesOf, AllListed, Storage.Survives;
  }

  /** The run reaches this store, having listed these packages. */
  ghost predicate Reaches(st: Storage.Store, ps: seq<Package>, events: seq<Event>, last: Storage.Store,
                          all: seq<Package>)
    requires Storage.Wf(st) && forall i :: 0 <= i < |events| ==> EventOk(events[i])
    decreases |events|
  {
    if events == [] then last == st && all == ps
    else
      StepKeepsWf(st, events[0]);
      Reaches(Step(st, events[0]), StepLedger(st, events[0], ps), events[1..], last, all)
  }

  /** After every event of the run the store is sound and lists what the saves so far promised. */
  ghost predicate SoundThroughout(st: Storage.Store, ps: seq<Package>, events: seq<Event>)
    requires Storage.Wf(st) && forall i :: 0 <= i < |events| ==> EventOk(events[i])
    decreases |events|
  {
    if events == [] then Sound(st, ps)
    else
      StepKeepsWf(st, events[0]);
      Sound(st, ps) && SoundThroughout(Step(st, events[0]), StepLedger(st, events[0], ps), events[1..])
  }

  predicate NeverBlind(events: seq<Event>)
  {
    forall i :: 0 <= i < |events| ==> !BlindRestart(events[i])
  }

  /** Over every run of saves, failed saves and restarts: the store, its superblock in memory included, stays
      sound throughout if and only if each restart could read the superblock, and the restore then finds exactly
      the packages whose saves reported success, in order, since the index was last unreadable. */
  lemma {:induction false} CatalogueExact(st: Storage.Store, ps: seq<Package>, events: seq<Event>, last: Storage.Store,
                                          all: seq<Package>)
    requires Sound(st, ps) && Storage.Wf(st) && forall i :: 0 <= i < |events| ==> EventOk(events[i])
    requires Reaches(st, ps, events, last, all)
    ensures SoundThroughout(st, ps, events) <==> NeverBlind(events)
    ensures NeverBlind(events) ==> Storage.IsDisk(last.disk) && Found(last.disk) == Shown(all)
    decreases |events|
  {
    hide Keeps, Step, StepLedger, EventOk, Found, Shown;
    if events == [] {
      var es, idx :| Keeps(st, es, idx, ps);
      FoundIs(st, es, idx, ps);
    } else {
      hide Sound;
      StepKeeps(st, ps, events[0]);
      StepKeepsWf(st, events[0]);
      if !BlindRestart(events[0]) {
        CatalogueExact(Step(st, events[0]), StepLedger(st, events[0], ps), events[1..], last, all);
        assert NeverBlind(events[1..]) ==> NeverBlind(events) by {
          assert forall i :: 0 < i < |events| ==> events[i] == events[1..][i - 1];
        }
      }
    }
  }

  /** A disk with a blank index starts with nothing listed. */
  lemma BlankKeeps(st: Storage.Store, works: bool)
    requires Storage.Wf(st) && Storage.INDEX_LBA < |st.disk| && IndexHolds(st.disk[Storage.INDEX_LBA], [])
    ensures Keeps(Storage.Init(st, true, works), [], [], []) && Sound(Storage.Init(st, true, works), [])
  {
    hide IndexHolds, Storage.SuperOf, Storage.SuperBytes;
    Storage.InitInv(st, works);
  }

  lemma {:induction false} AllShown(ps: seq<Package>)
    requires forall i :: 0 <= i < |ps| ==> ps[i].name != ""
    ensures AllRecords(Shown(ps)) == AllRecords(ps)
    decreases ps
  {
    if ps != [] {
      AllShown(ps[1..]);
      RecordsCons(ps[0], ps[1..]);
      assert ps == [ps[0]] + ps[1..];
      RecordsCons(Shown(ps)[0], Shown(ps[1..]));
    }
  }

  lemma {:induction false} RecordsCons(p: Package, rest: seq<Package>)
    ensures AllRecords([p] + rest) == p.records + AllRecords(rest)
    decreases rest
  {
    if rest == [] {
      assert [p] + rest == [p] && [p][..0] == [];
      assert AllRecords([p]) == [] + p.records;
      assert p.records + [] == p.records;
    } else {
      var n := |rest| - 1;
      assert ([p] + rest)[..|[p] + rest| - 1] == [p] + rest[..n];
      RecordsCons(p, rest[..n]);
      Associative(p.records, AllRecords(rest[..n]), rest[n].records);
    }
  }

  /** From a blank index, through any saves, failed saves and restarts that can read the superblock: restoring
      onto any file system gives every file the bytes of the latest successful snapshot that has it, and leaves
      the files no snapshot has, markers aside. */
  lemma RestoreYieldsLatest(st: Storage.Store, works: bool, events: seq<Event>, last: Storage.Store,
                            all: seq<Package>, fs: Fs, u: Tree)
    requires Storage.Wf(st) && Storage.INDEX_LBA < |st.disk| && IndexHolds(st.disk[Storage.INDEX_LBA], [])
    requires forall i :: 0 <= i < |events| ==> EventOk(events[i])
    requires Storage.Wf(Storage.Init(st, true, works)) && Reaches(Storage.Init(st, true, works), [], events, last, all)
    requires NeverBlind(events)
    requires forall i :: 0 <= i < |all| ==> all[i].name != ""
    requires Inv(fs) && FirstClosed(fs.fds) < MAX_FDS
    requires TreeOk(u) && |u| <= MAX_INODES && Within(fs.tree, u) && Fits(Shown(all), u)
    ensures Storage.IsDisk(last.disk)
    ensures
      var g := RestoreAll(fs, Found(last.disk));
      && g.fds == fs.fds && Within(g.tree, u)
      && forall n :: !IsMarker(Shown(all), n) ==> RestoredAt(fs, g, AllRecords(all), n)
  {
    hide Keeps, EventOk, Found, Shown, Storage.Init, IndexHolds, RestoreAll, Reaches, AllRecords, IsMarker, Fits,
         RestoredAt, NeverBlind, SoundThroughout, Sound, Storage.Wf, Storage.IsDisk, Inv, FirstClosed, Within, TreeOk;
    BlankKeeps(st, works);
    CatalogueExact(Storage.Init(st, true, works), [], events, last, all);
    LaterPackagesWin(fs, Shown(all), u);
    AllShown(all);
  }

  // ----- Two ways to lose a snapshot -----

  lemma SmallSave(st: Storage.Store, es: seq<Storage.Extent>, idx: seq<IndexEntry>, ps: seq<Package>, r: Record,
                  name: string,
                  works: nat -> bool, readable: bool)
    requires Keeps(st, es, idx, ps) && AllEncodable([r]) && IsText(name) && forall i :: works(i)
    requires Storage.Wf(st) && EncodeAll([r]) != [] && st.sb.nextFree + Storage.SectorsOf(|EncodeAll([r])|) <= |st.disk|
    requires AreEntries(idx) && 4 + |EncodeEntries(if readable then idx else [])| + 12 + |name| <= SECTOR
    ensures SaveTo(st, [r], name, works, readable, true).1
  {
    hide Storage.Write, Storage.AddIndex, EncodeAll, EncodeEntries, IsText, IndexHolds, PackagesOf, Storage.Inv;
    var data := EncodeAll([r]);
    Storage.WorkingWrite(st, data, works);
    WriteKeeps(st, es, idx, ps, data, works);
    HandleFits(st, data, works);
    var (st1, h) := Storage.Write(st, data, works);
    Storage.WriteTouches(st, data, works, Storage.INDEX_LBA);
    StorageDriver.IndexGrows(st1, IndexEntry(name, h.value.start, h.value.sectors), readable, true, idx);
  }

  const NOTE: Record := Record("/a", [1])

  lemma NoteSize()
    ensures AllEncodable([NOTE]) && |EncodeAll([NOTE])| == 11 && Storage.SectorsOf(11) == 1
  {
    assert [NOTE][1..] == [];
  }

  lemma Blank(n: nat)
    requires 3 <= n < 0x1_0000_0000
    ensures
      var st := Storage.Store(seq(n, _ => Zeros(SECTOR)), Storage.Super(0, 0, Zeros(504)));
      && Storage.Wf(st) && Keeps(Storage.Init(st, true, true), [], [], [])
      && Storage.Init(st, true, true).sb.nextFree == Storage.DATA_START_LBA
      && |Storage.Init(st, true, true).disk| == n && AreEntries([]) && EncodeEntries([]) == []
  {
    hide IndexHolds, Keeps, Storage.SuperBytes;
    var st := Storage.Store(seq(n, _ => Zeros(SECTOR)), Storage.Super(0, 0, Zeros(504)));
    BlankIndex();
    BlankKeeps(st, true);
    assert ReadU32(Zeros(SECTOR), 0) == 0;
  }

  /** On a blank disk that works but for one read of the index: the first of two snapshots saved is gone. */
  lemma ForgottenSnapshot(works: nat -> bool)
    requires forall i :: works(i)
    ensures
      var st := Storage.Store(seq(64, _ => Zeros(SECTOR)), Storage.Super(0, 0, Zeros(504)));
      && Storage.Wf(st) && AllEncodable([NOTE]) && IsText("a") && IsText("b")
      && Storage.Wf(Storage.Init(st, true, true))
      && var (st1, saved) := SaveTo(Storage.Init(st, true, true), [NOTE], "a", works, true, true);
      && saved && Storage.Wf(st1)
      && var (st2, again) := SaveTo(st1, [NOTE], "b", works, false, true);
      again && Storage.IsDisk(st2.disk) && Found(st2.disk) == [Package("b", [NOTE])]
  {
    hide Keeps, SaveTo, EncodeAll, Found, EncodeEntries, Storage.Init, AllEncodable, Storage.SectorsOf;
    var st := Storage.Store(seq(64, _ => Zeros(SECTOR)), Storage.Super(0, 0, Zeros(504)));
    Blank(64);
    NoteSize();
    var st0 := Storage.Init(st, true, true);
    KeepsWf(st0, [], [], []);
    SmallSave(st0, [], [], [], NOTE, "a", works, true);
    var es, idx := SaveKeeps(st0, [], [], [], [NOTE], "a", works, true, true);
    var st1 := SaveTo(st0, [NOTE], "a", works, true, true).0;
    assert [] + [Package("a", [NOTE])] == [Package("a", [NOTE])];
    KeepsWf(st1, es, idx, [Package("a", [NOTE])]);
    SavedFrontier(st0, [NOTE], "a", works, true, true);
    SmallSave(st1, es, idx, [Package("a", [NOTE])], NOTE, "b", works, false);
    SaveAddsPackage(st1, es, idx, [Package("a", [NOTE])], [NOTE], "b", works, false, true);
    assert Shown([Package("b", [NOTE])]) == [Package("b", [NOTE])];
  }

  /** On a blank disk that works: a snapshot saved under an empty name hides itself and the next. */
  lemma NamelessHides(works: nat -> bool)
    requires forall i :: works(i)
    ensures
      var st := Storage.Store(seq(64, _ => Zeros(SECTOR)), Storage.Super(0, 0, Zeros(504)));
      && Storage.Wf(st) && AllEncodable([NOTE]) && IsText("") && IsText("b") && Storage.Wf(Storage.Init(st, true, true))
      && var (st1, saved) := SaveTo(Storage.Init(st, true, true), [NOTE], "", works, true, true);
      && saved && Storage.Wf(st1)
      && var (st2, again) := SaveTo(st1, [NOTE], "b", works, true, true);
      again && Storage.IsDisk(st2.disk) && Found(st2.disk) == []
  {
    hide Keeps, SaveTo, EncodeAll, Found, EncodeEntries, Storage.Init, AllEncodable, Storage.SectorsOf;
    var st := Storage.Store(seq(64, _ => Zeros(SECTOR)), Storage.Super(0, 0, Zeros(504)));
    Blank(64);
    NoteSize();
    var st0 := Storage.Init(st, true, true);
    KeepsWf(st0, [], [], []);
    SmallSave(st0, [], [], [], NOTE, "", works, true);
    var es, idx := SaveKeeps(st0, [], [], [], [NOTE], "", works, true, true);
    var st1 := SaveTo(st0, [NOTE], "", works, true, true).0;
    assert [] + [Package("", [NOTE])] == [Package("", [NOTE])];
    KeepsWf(st1, es, idx, [Package("", [NOTE])]);
    OneEntry(idx);
    SavedFrontier(st0, [NOTE], "", works, true, true);
    SmallSave(st1, es, idx, [Package("", [NOTE])], NOTE, "b", works, true);
    SaveAddsPackage(st1, es, idx, [Package("", [NOTE])], [NOTE], "b", works, true, true);
    assert Shown([Package("", [NOTE])] + [Package("b", [NOTE])]) == [];
  }

  lemma OneEntry(idx: seq<IndexEntry>)
    requires AreEntries(idx) && |idx| == 1
    ensures |EncodeEntries(idx)| == 12 + |idx[0].name|
  {
    assert idx[1..] == [];
  }

  lemma KeepsWf(st: Storage.Store, es: seq<Storage.Extent>, idx: seq<IndexEntry>, ps: seq<Package>)
    requires Keeps(st, es, idx, ps)
    ensures Storage.Wf(st) && AreEntries(idx) && Storage.INDEX_LBA < |st.disk|
  {
  }

  lemma SavedFrontier(st: Storage.Store, rs: seq<Record>, name: string, works: nat -> bool, readable: bool,
                      indexWorks: bool)
    requires Storage.Wf(st) && AllEncodable(rs) && IsText(name) && SaveTo(st, rs, name, works, readable, indexWorks).1
    ensures SaveTo(st, rs, name, works, readable, indexWorks).0.sb.nextFree
      == st.sb.nextFree + Storage.SectorsOf(|EncodeAll(rs)|)
  {
    hide EncodeAll, AddEntry, Storage.PutData;
    HandleFits(st, EncodeAll(rs), works);
  }

  // ----- Saving in place -----

  /** Saves the file system as a snapshot: the payload, its extent, its index entry. */
  method SaveSnapshot(driver: StorageDriver.Driver, fs: FileSystem, name: string, works: nat -> bool, readable: bool,
                      indexWorks: bool) returns (ok: bool)
    requires fs.Valid() && Storable(fs.Abs().tree) && Storage.Wf(driver.View()) && IsText(name)
    requires {driver.disk as object} !! {fs.slots as object, fs.fds}
    modifies fs.slots, fs.fds, driver, driver.disk
    ensures fs.Valid() && fs.Abs() == old(fs.Abs()) && fs.slots[..] == old(fs.slots[..])
    ensures Walkable(fs.slots[..]) && IsDir(TreeOf(fs.slots[..]), "/")
    ensures
      var rs := if HasFd(fs.Abs()) then WalkAll(fs.slots[..], "/") else [];
      && AllEncodable(rs)
      && (driver.View(), ok) == SaveTo(old(driver.View()), rs, name, works, readable, indexWorks)
  {
    hide fs.Abs, Inv, WalkAll, EncodeAll, AllEncodable, HasFd, Storable, TreeOf, Walkable, IsText, Storage.AddIndex;
    ghost var st := driver.View();
    var payload := Save(fs);
    ghost var rs := if HasFd(fs.Abs()) then WalkAll(fs.slots[..], "/") else [];
    NothingEncoded();
    assert driver.View() == st;
    if payload.None? {
      return false;
    }
    var h := driver.Write(payload.value, works);
    if h.None? {
      return false;
    }
    HandleFits(st, payload.value, works);
    ok := driver.AddIndexEntry(IndexEntry(name, h.value.start, h.value.sectors), readable, indexWorks);
  }

  lemma NothingEncoded()
    ensures AllEncodable([]) && EncodeAll([]) == []
  {
  }
}
