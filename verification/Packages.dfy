/** Restoring every snapshot the index lists, in order, each followed by its installed marker. */
module Packages {
  import opened Bytes
  import opened Paths
  import opened FileTree
  import opened InodeTable
  import opened RamFs
  import opened Snapshot
  import opened SnapshotCodec
  import opened Replay
  import opened SnapshotIo
  import Storage
  import StorageDriver

  datatype Package = Package(name: string, records: seq<Record>)

  function MarkerPath(name: string): string
  {
    "/var/lib/wirth/pkgdb/" + (if |name| < 96 then name else name[..96]) + ".installed"
  }

  /** Creates or truncates a file, and closes it. */
  function Touch(fs: Fs, path: string): Fs
  {
    var (b, fd) := Open(fs, path, REWRITE);
    if fd < 0 then b else Close(b, fd).0
  }

  ghost function RestoreAll(fs: Fs, ps: seq<Package>): (g: Fs)
    requires Inv(fs)
    ensures Inv(g)
  {
    if ps == [] then fs
    else
      var p := ps[|ps| - 1];
      var a := RewriteAll(RestoreAll(fs, ps[..|ps| - 1]), p.records);
      TouchKeepsInv(a, MarkerPath(p.name));
      Touch(a, MarkerPath(p.name))
  }

  lemma TouchKeepsInv(fs: Fs, path: string)
    requires Inv(fs)
    ensures Inv(Touch(fs, path))
  {
    hide Open, Close, Inv;
    OpenKeepsInv(fs, path, REWRITE);
    var (b, fd) := Open(fs, path, REWRITE);
    ReadCloseKeepInv(b, fd, 0);
  }

  // ----- Later packages win -----

  function AllRecords(ps: seq<Package>): seq<Record>
  {
    if ps == [] then [] else AllRecords(ps[..|ps| - 1]) + ps[|ps| - 1].records
  }

  predicate IsMarker(ps: seq<Package>, n: string)
  {
    exists i :: 0 <= i < |ps| && Normalize(MarkerPath(ps[i].name)) == Some(n)
  }

  /** The tree has room for the packages: their files are its files, and so are their markers where their
      directory exists. */
  predicate Fits(ps: seq<Package>, u: Tree)
  {
    && (forall i :: 0 <= i < |ps| ==> forall r :: r in ps[i].records ==> IsFile(u, r.path))
    && (forall i :: 0 <= i < |ps| ==> MarkerFits(ps[i].name, u))
  }

  predicate MarkerFits(name: string, u: Tree)
  {
    var m := Normalize(MarkerPath(name));
    m.Some? && m.value != "/" && IsDir(u, Parent(m.value)) ==> IsFile(u, m.value)
  }

  /** Touching changes at most the one file. */
  lemma TouchWithin(fs: Fs, name: string, u: Tree)
    requires Inv(fs) && Within(fs.tree, u) && MarkerFits(name, u) && FirstClosed(fs.fds) < MAX_FDS
    ensures
      var g := Touch(fs, MarkerPath(name));
      && g.fds == fs.fds && Within(g.tree, u)
      && forall n :: Normalize(MarkerPath(name)) != Some(n) ==>
        (n in g.tree <==> n in fs.tree) && (n in fs.tree ==> g.tree[n] == fs.tree[n])
  {
    hide Normalize, MarkerPath, Parent, TreeOk;
    var k := FirstClosed(fs.fds);
    var (b, fd) := Open(fs, MarkerPath(name), REWRITE);
    if fd >= 0 {
      assert fs.fds[k := b.fds[k]][k := Closed] == fs.fds;
    }
  }

  /** A package with a plain, short name leaves an empty marker of that name behind, if the marker directory is there
      and has room. */
  lemma MarkerMade(fs: Fs, name: string)
    requires Inv(fs) && FirstClosed(fs.fds) < MAX_FDS && IsName(name) && |name| <= 32
    requires IsDir(fs.tree, "/var/lib/wirth/pkgdb") && |fs.tree| < MAX_INODES
    requires !IsDir(fs.tree, Join("/var/lib/wirth/pkgdb", name + ".installed"))
    ensures var marker := Join("/var/lib/wirth/pkgdb", name + ".installed");
      var g := Touch(fs, MarkerPath(name));
      marker in g.tree && g.tree[marker] == File([]) && g.fds == fs.fds
  {
    hide Normalize, Parent, TreeOk;
    var dir := "/var/lib/wirth/pkgdb";
    var marker := Join(dir, name + ".installed");
    assert IsNormal(dir) by {
      assert forall n :: n in fs.tree ==> IsNormal(n) by {
        NamesNormal(fs);
      }
    }
    assert '/' !in ".installed";
    JoinNormal(dir, name + ".installed");
    assert marker == MarkerPath(name);
    NormalizeIdempotent(marker);
    var k := FirstClosed(fs.fds);
    assert fs.fds[k := Opened(marker, 0, REWRITE)][k := Closed] == fs.fds;
  }

  lemma NamesNormal(fs: Fs)
    requires Inv(fs)
    ensures forall n :: n in fs.tree ==> IsNormal(n)
  {
  }

  lemma {:induction false} LastDataAppend(a: seq<Record>, b: seq<Record>, n: string)
    ensures LastData(a + b, n) == if LastData(b, n).Some? then LastData(b, n) else LastData(a, n)
  {
    if b == [] {
      assert a + b == a;
    } else {
      assert (a + b)[..|a + b| - 1] == a + b[..|b| - 1];
      LastDataAppend(a, b[..|b| - 1], n);
    }
  }

  /** Restoring packages in order: every file but the markers ends with the bytes of the last record for it
      in any package, and files no package has are as they were. */
  lemma {:induction false} LaterPackagesWin(fs: Fs, ps: seq<Package>, u: Tree)
    requires Inv(fs) && TreeOk(u) && |u| <= MAX_INODES && Within(fs.tree, u) && Fits(ps, u)
    requires FirstClosed(fs.fds) < MAX_FDS
    ensures
      var g := RestoreAll(fs, ps);
      && g.fds == fs.fds && Within(g.tree, u)
      && forall n :: !IsMarker(ps, n) ==> RestoredAt(fs, g, AllRecords(ps), n)
  {
    hide Inv, TreeOk, Within, RewriteAll, MarkerPath, Normalize, Touch, FirstClosed, MarkerFits;
    if ps != [] {
      var init, p := ps[..|ps| - 1], ps[|ps| - 1];
      LaterPackagesWin(fs, init, u);
      var a := RestoreAll(fs, init);
      ReplayRestores(a, p.records, u);
      var b := RewriteAll(a, p.records);
      TouchWithin(b, p.name, u);
      var g := Touch(b, MarkerPath(p.name));
      forall n | !IsMarker(ps, n) ensures RestoredAt(fs, g, AllRecords(ps), n) {
        NotMarker(ps, n);
        assert RestoredAt(fs, a, AllRecords(init), n) && RestoredAt(a, b, p.records, n);
        LastDataAppend(AllRecords(init), p.records, n);
      }
    }
  }

  lemma NotMarker(ps: seq<Package>, n: string)
    requires ps != [] && !IsMarker(ps, n)
    ensures !IsMarker(ps[..|ps| - 1], n) && Normalize(MarkerPath(ps[|ps| - 1].name)) != Some(n)
  {
    hide Normalize, MarkerPath;
    assert forall i :: 0 <= i < |ps| - 1 ==> ps[..|ps| - 1][i] == ps[i];
  }

  // ----- From the disk -----

  /** The packages of index entries whose sectors can be read. */
  function PackagesOf(d: Storage.Disk, es: seq<IndexEntry>): seq<Package>
  {
    if es == [] then []
    else
      var e := es[|es| - 1];
      var data := Storage.RawSectors(d, e.start, e.sectors);
      PackagesOf(d, es[..|es| - 1]) + if data.None? then [] else [Package(e.name, Parse(data.value, 0))]
  }

  /** The entries the index sector lists, if it can be read. */
  function Indexed(d: Storage.Disk, readable: bool): seq<IndexEntry>
    requires Storage.IsDisk(d)
  {
    if !readable || Storage.INDEX_LBA >= |d| then []
    else ParseIndex(d[Storage.INDEX_LBA], 4, ReadU32(d[Storage.INDEX_LBA], 0))
  }

  method TouchFile(fs: FileSystem, path: string)
    requires fs.Valid()
    modifies fs.slots, fs.fds
    ensures fs.Valid() && fs.Abs() == Touch(old(fs.Abs()), path)
  {
    hide fs.Abs, Inv, FileTree.Open, FileTree.Close;
    var fd := fs.Open(path, REWRITE);
    if fd >= 0 {
      var closed := fs.Close(fd);
    }
  }

  lemma NextPackage(f: Fs, d: Storage.Disk, done: seq<IndexEntry>, e: IndexEntry)
    requires Inv(f)
    ensures
      var a := RestoreAll(f, PackagesOf(d, done));
      var data := Storage.RawSectors(d, e.start, e.sectors);
      RestoreAll(f, PackagesOf(d, done + [e])) ==
        if data.None? then a else Touch(RewriteAll(a, Parse(data.value, 0)), MarkerPath(e.name))
  {
    hide Parse, RewriteAll, Touch, MarkerPath, Storage.RawSectors, Inv;
    assert (done + [e])[..|done|] == done;
    var ps := PackagesOf(d, done);
    var data := Storage.RawSectors(d, e.start, e.sectors);
    if data.Some? {
      var p := Package(e.name, Parse(data.value, 0));
      assert (ps + [p])[..|ps|] == ps;
    } else {
      assert ps + [] == ps;
    }
  }

  /** Restores one package and marks it, if its sectors can be read. */
  method RestoreEntry(driver: StorageDriver.Driver, fs: FileSystem, e: IndexEntry, block: nat -> Byte,
                      ghost f: Fs, ghost done: seq<IndexEntry>)
    requires fs.Valid() && Storage.Wf(driver.View()) && driver.disk.Length * SECTOR <= 0x8000_0000
    requires {driver.disk as object} !! {fs.slots as object, fs.fds}
    requires Inv(f) && fs.Abs() == RestoreAll(f, PackagesOf(driver.disk[..], done))
    modifies fs.slots, fs.fds
    ensures fs.Valid() && fs.Abs() == RestoreAll(f, PackagesOf(driver.disk[..], done + [e]))
  {
    hide fs.Abs, Inv, Parse, RewriteAll, Touch, MarkerPath, RestoreAll, PackagesOf, Storage.RawSectors;
    NextPackage(f, driver.disk[..], done, e);
    var data := driver.ReadRaw(e.start, e.sectors);
    if data.Some? {
      RawSize(driver.disk[..], e.start, e.sectors);
      Restore(fs, data.value, block);
      TouchFile(fs, MarkerPath(e.name));
    }
  }

  /** Walks an index and restores each package it lists. */
  method RestoreListed(driver: StorageDriver.Driver, fs: FileSystem, buf: seq<Byte>, block: nat -> Byte)
    requires fs.Valid() && Storage.Wf(driver.View()) && driver.disk.Length * SECTOR <= 0x8000_0000
    requires {driver.disk as object} !! {fs.slots as object, fs.fds} && |buf| == SECTOR
    modifies fs.slots, fs.fds
    ensures fs.Valid() && Inv(old(fs.Abs()))
    ensures fs.Abs() == RestoreAll(old(fs.Abs()), PackagesOf(driver.disk[..], ParseIndex(buf, 4, ReadU32(buf, 0))))
  {
    hide fs.Abs, Inv, ReadU32, EntryAt, RestoreAll, PackagesOf, ParseIndex, Storage.Wf;
    ghost var f, d := fs.Abs(), driver.disk[..];
    NothingRestored(f, d);
    var count: nat := ReadU32(buf, 0);
    var off: nat, e: nat := 4, 0;
    ghost var done: seq<IndexEntry> := [];
    assert [] + ParseIndex(buf, 4, count) == ParseIndex(buf, 4, count);
    while e < count && EntryAt(buf, off).Some?
      invariant e <= count && off <= SECTOR && fs.Valid()
      invariant ParseIndex(buf, 4, count) == done + ParseIndex(buf, off, count - e)
      invariant fs.Abs() == RestoreAll(f, PackagesOf(d, done))
      decreases count - e
    {
      NextEntry(buf, off, count - e);
      var entry := EntryAt(buf, off).value;
      Associative(done, [entry], ParseIndex(buf, off + 12 + ReadU32(buf, off), count - e - 1));
      RestoreEntry(driver, fs, entry, block, f, done);
      done := done + [entry];
      off := off + 12 + ReadU32(buf, off);
      e := e + 1;
    }
    NoEntry(buf, off, count - e);
    assert done + [] == done;
  }

  /** Reads the index and restores each package it lists. */
  method RestorePackages(driver: StorageDriver.Driver, fs: FileSystem, readable: bool, block: nat -> Byte)
    requires fs.Valid() && Storage.Wf(driver.View()) && driver.disk.Length * SECTOR <= 0x8000_0000
    requires {driver.disk as object} !! {fs.slots as object, fs.fds}
    modifies fs.slots, fs.fds
    ensures fs.Valid() && Inv(old(fs.Abs()))
    ensures fs.Abs() == RestoreAll(old(fs.Abs()), PackagesOf(driver.disk[..], Indexed(driver.disk[..], readable)))
  {
    hide fs.Abs, Inv, ReadU32, RestoreAll, PackagesOf, ParseIndex;
    NothingRestored(fs.Abs(), driver.disk[..]);
    if readable && Storage.INDEX_LBA < driver.disk.Length {
      RestoreListed(driver, fs, driver.disk[Storage.INDEX_LBA], block);
    }
  }

  lemma NothingRestored(f: Fs, d: Storage.Disk)
    requires Inv(f)
    ensures RestoreAll(f, PackagesOf(d, [])) == f
  {
  }

  lemma NextEntry(buf: seq<Byte>, off: nat, n: nat)
    requires |buf| == SECTOR && off <= SECTOR && EntryAt(buf, off).Some? && n > 0
    ensures off + 4 <= SECTOR && off + 12 + ReadU32(buf, off) <= SECTOR
    ensures ParseIndex(buf, off, n) == [EntryAt(buf, off).value] + ParseIndex(buf, off + 12 + ReadU32(buf, off), n - 1)
  {
    hide ReadU32;
  }

  lemma NoEntry(buf: seq<Byte>, off: nat, n: nat)
    requires |buf| == SECTOR && off <= SECTOR && (n == 0 || EntryAt(buf, off).None?)
    ensures ParseIndex(buf, off, n) == []
  {
    hide ReadU32, EntryAt;
  }

  lemma RawSize(d: Storage.Disk, start: nat, n: nat)
    requires Storage.IsDisk(d) && Storage.RawSectors(d, start, n).Some?
    ensures |Storage.RawSectors(d, start, n).value| == n * SECTOR && start + n <= |d|
  {
    ReadSize(d, start, n);
  }

  lemma {:induction false} ReadSize(d: Storage.Disk, start: nat, n: nat)
    requires Storage.IsDisk(d) && start + n <= |d|
    ensures |Storage.ReadSectors(d, start, n)| == n * SECTOR
    decreases n
  {
    if n > 0 {
      ReadSize(d, start, n - 1);
    }
  }
}
