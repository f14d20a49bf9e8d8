/** The persistent store's in-place operations on its superblock and its disk. */
module StorageDriver {
  import opened Bytes
  import opened SnapshotCodec
  import opened Storage

  class Driver {
    const disk: array<seq<Byte>>
    var sb: Super

    ghost function View(): Store
      reads this, disk
    {
      Store(disk[..], sb)
    }

    constructor (disk: array<seq<Byte>>)
      requires IsDisk(disk[..])
      ensures this.disk == disk && Wf(View())
    {
      this.disk := disk;
      sb := Super(0, 0, Zeros(504));
    }

    /** Loads the superblock, or formats one. */
    method Init(readable: bool, works: bool)
      requires Wf(View())
      modifies this, disk
      ensures View() == Storage.Init(old(View()), readable, works)
    {
      if !readable || SUPERBLOCK_LBA >= disk.Length {
        sb := sb.(magic := 0, nextFree := DATA_START_LBA);
        return;
      }
      sb := SuperOf(disk[SUPERBLOCK_LBA]);
      if sb.magic != MAGIC || sb.nextFree < DATA_START_LBA {
        sb := Super(MAGIC, DATA_START_LBA, Zeros(504));
        var flushed := WriteSector(SUPERBLOCK_LBA, SuperBytes(sb), works);
      }
    }

    method WriteSector(lba: nat, sector: seq<Byte>, works: bool) returns (ok: bool)
      modifies disk
      ensures (disk[..], ok) == PutSector(old(disk[..]), lba, sector, works)
    {
      if !works || lba >= disk.Length {
        return false;
      }
      disk[lba] := sector;
      assert disk[..] == old(disk[..])[lba := sector];
      return true;
    }

    /** Appends an extent, sector by sector, then the superblock. */
    method Write(data: seq<Byte>, works: nat -> bool) returns (h: Option<Handle>)
      requires Wf(View())
      modifies this, disk
      ensures (View(), h) == Storage.Write(old(View()), data, works)
    {
      hide PutSector, SuperBytes;
      if data == [] {
        return None;
      }
      var sectors := SectorsOf(|data|);
      var start := sb.nextFree;
      var size, i := |data|, 0;
      while i < sectors
        invariant 0 <= i <= sectors && sb == old(sb)
        invariant size == if i * SECTOR <= |data| then |data| - i * SECTOR else 0
        invariant (disk[..], true) == PutData(old(disk[..]), start, data, i, works)
      {
        var copy := if size > SECTOR then SECTOR else size;
        var sector := data[i * SECTOR..i * SECTOR + copy] + Zeros(SECTOR - copy);
        assert sector == Chunk(data, i);
        ghost var before := disk[..];
        var ok := WriteSector(start + i, sector, works(i));
        assert (disk[..], ok) == PutData(old(disk[..]), start, data, i + 1, works);
        if !ok {
          FailureStays(old(disk[..]), start, data, i + 1, sectors, works);
          return None;
        }
        size := size - copy;
        i := i + 1;
      }
      DataFits(old(disk[..]), start, data, sectors, works);
      sb := sb.(nextFree := sb.nextFree + sectors);
      var flushed := WriteSector(SUPERBLOCK_LBA, SuperBytes(sb), works(sectors));
      if !flushed {
        return None;
      }
      return Some(Handle(start, sectors));
    }

    /** Reads an extent; an empty one is refused. */
    method Read(h: Handle) returns (bytes: Option<seq<Byte>>)
      ensures bytes == if h.sectors == 0 then None else RawSectors(disk[..], h.start, h.sectors)
    {
      if h.sectors == 0 {
        return None;
      }
      bytes := ReadRaw(h.start, h.sectors);
    }

    /** Reads a run of sectors; the device refuses ones it does not have. */
    method ReadRaw(start: nat, sectors: nat) returns (bytes: Option<seq<Byte>>)
      ensures bytes == RawSectors(disk[..], start, sectors)
    {
      if start + sectors > disk.Length {
        return None;
      }
      var out: seq<Byte> := [];
      for i := 0 to sectors
        invariant out == ReadSectors(disk[..], start, i)
      {
        out := out + disk[start + i];
      }
      return Some(out);
    }

    /** Walks the index to its end and appends an entry. */
    method AddIndexEntry(e: IndexEntry, readable: bool, works: bool) returns (ok: bool)
      requires Wf(View()) && IsText(e.name)
      modifies disk
      ensures (View(), ok) == AddIndex(old(View()), e, readable, works)
    {
      hide EncodeEntry, U32Bytes, ReadU32, EntryOffset, IsText;
      ghost var st := View();
      var was := if readable && INDEX_LBA < disk.Length then disk[INDEX_LBA] else Zeros(SECTOR);
      var count: nat := ReadU32(was, 0);
      OffsetStart(was);
      assert AddEntry(was, e).None? ==> AddIndex(st, e, readable, works) == (st, false);
      var off: nat, k: nat := 4, 0;
      while k < count
        invariant k <= count && off <= SECTOR && EntryOffset(was, k) == Some(off) && View() == st
      {
        OffsetStep(was, k);
        if off + 12 > SECTOR {
          OffsetGone(was, k + 1, count);
          return false;
        }
        off := (off + 12 + ReadU32(was, off)) % 0x1_0000_0000;
        if off > SECTOR {
          OffsetGone(was, k + 1, count);
          return false;
        }
        k := k + 1;
      }
      if off + 12 + |e.name| > SECTOR {
        return false;
      }
      var buf := new Byte[SECTOR](i requires 0 <= i < SECTOR => was[i]);
      assert buf[..] == was;
      CopyBytes(buf, off, EncodeEntry(e));
      CopyBytes(buf, 0, U32Bytes((count + 1) % 0x1_0000_0000));
      ok := WriteSector(INDEX_LBA, buf[..], works);
    }
  }

  lemma {:induction false} FailureStays(d: Disk, start: nat, data: seq<Byte>, i: nat, n: nat, works: nat -> bool)
    requires i <= n <= SectorsOf(|data|) && !PutData(d, start, data, i, works).1
    ensures PutData(d, start, data, n, works) == PutData(d, start, data, i, works)
    decreases n
  {
    hide Chunk, PutSector;
    if i < n {
      FailureStays(d, start, data, i, n - 1, works);
    }
  }

  lemma OffsetStart(buf: seq<Byte>)
    requires |buf| == SECTOR
    ensures EntryOffset(buf, 0) == Some(4)
  {
  }

  lemma OffsetStep(buf: seq<Byte>, e: nat)
    requires |buf| == SECTOR && EntryOffset(buf, e).Some?
    ensures
      var prev := EntryOffset(buf, e).value;
      EntryOffset(buf, e + 1) ==
        if prev + 12 > SECTOR then None
        else
          var off := (prev + 12 + ReadU32(buf, prev)) % 0x1_0000_0000;
          if off > SECTOR then None else Some(off)
  {
    hide ReadU32;
  }

  lemma {:induction false} OffsetGone(buf: seq<Byte>, e: nat, n: nat)
    requires |buf| == SECTOR && e <= n && EntryOffset(buf, e).None?
    ensures EntryOffset(buf, n).None?
    decreases n
  {
    hide ReadU32;
    if e < n {
      OffsetGone(buf, e, n - 1);
    }
  }

  /** An index update succeeds exactly when the write works and the entry fits, and then lists it last; one that
      fails changes nothing.  An index that cannot be read counts as empty, so what it listed is gone. */
  lemma IndexGrows(st: Store, e: IndexEntry, readable: bool, works: bool, es: seq<IndexEntry>)
    requires Wf(st) && IsText(e.name) && INDEX_LBA < |st.disk| && IndexHolds(st.disk[INDEX_LBA], es)
    ensures AreEntries(es)
    ensures
      var (after, ok) := AddIndex(st, e, readable, works);
      var base := if readable then es else [];
      && (ok <==> works && 4 + |EncodeEntries(base)| + 12 + |e.name| <= SECTOR)
      && (ok ==> IndexHolds(after.disk[INDEX_LBA], base + [e]))
      && (!ok ==> after == st)
  {
    hide IndexHolds, AddEntry, EncodeEntries, IsText, Zeros;
    HoldsEntries(st.disk[INDEX_LBA], es);
    BlankIndex();
    AddEntryLists(if readable then st.disk[INDEX_LBA] else Zeros(SECTOR), if readable then es else [], e);
  }

  lemma HoldsEntries(buf: seq<Byte>, es: seq<IndexEntry>)
    requires IndexHolds(buf, es)
    ensures AreEntries(es)
  {
  }
}
