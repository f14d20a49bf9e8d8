/** Saving and restoring snapshots through the file system's own operations. */
module SnapshotIo {
  import opened Bytes
  import opened Paths
  import opened FileTree
  import opened InodeTable
  import opened RamFs
  import opened Snapshot
  import opened SnapshotCodec
  import opened Replay

  const READ: Flags := Flags(true, false, false, false)

  ghost predicate HasFd(fs: Fs)
  {
    FirstClosed(fs.fds) < |fs.fds|
  }

  /** The state while a file is being read. */
  ghost function Reading(fs: Fs, p: string, offset: nat): Fs
    requires HasFd(fs)
  {
    fs.(fds := fs.fds[FirstClosed(fs.fds) := Opened(p, offset, READ)])
  }

  lemma OpenToRead(fs: Fs, p: string)
    requires Inv(fs) && IsFile(fs.tree, p)
    ensures Open(fs, p, READ) == if HasFd(fs) then (Reading(fs, p, 0), FirstClosed(fs.fds) + FD_OFFSET) else (fs, -1)
  {
    hide IsNormal, Parent, Normalize, FirstClosed;
    NormalizeIdempotent(p);
  }

  lemma ReadChunk(fs: Fs, p: string, offset: nat, count: nat)
    requires Inv(fs) && IsFile(fs.tree, p) && HasFd(fs) && offset <= |fs.tree[p].bytes|
    ensures Inv(Reading(fs, p, offset))
    ensures
      var n := Min(count, |fs.tree[p].bytes| - offset);
      Read(Reading(fs, p, offset), FirstClosed(fs.fds) + FD_OFFSET, count) ==
        (Reading(fs, p, offset + n), Some(fs.tree[p].bytes[offset..offset + n]))
  {
    hide TreeOk;
    var k := FirstClosed(fs.fds);
    var n := Min(count, |fs.tree[p].bytes| - offset);
    var moved := Opened(p, offset + n, READ);
    assert fs.fds[k := Opened(p, offset, READ)][k := moved] == fs.fds[k := moved];
    assert n == 0 ==> fs.tree[p].bytes[offset..offset + n] == [];
  }

  lemma CloseRead(fs: Fs, p: string, offset: nat)
    requires HasFd(fs)
    ensures Close(Reading(fs, p, offset), FirstClosed(fs.fds) + FD_OFFSET) == (fs, 0)
  {
    var k := FirstClosed(fs.fds);
    assert fs.fds[k := Opened(p, offset, READ)][k := Closed] == fs.fds;
  }

  // ----- Sizes -----

  function RecordsSize(rs: seq<Record>): nat
  {
    if rs == [] then 0 else RecordsSize(rs[..|rs| - 1]) + 8 + |rs[|rs| - 1].path| + |rs[|rs| - 1].data|
  }

  lemma {:induction false} SizeAppend(a: seq<Record>, b: seq<Record>)
    ensures RecordsSize(a + b) == RecordsSize(a) + RecordsSize(b)
  {
    if b == [] {
      assert a + b == a;
    } else {
      var n := |b| - 1;
      assert (a + b)[..|a + b| - 1] == a + b[..n];
      SizeAppend(a, b[..n]);
    }
  }

  lemma {:induction false} EncodedSize(rs: seq<Record>)
    requires AllEncodable(rs)
    ensures |EncodeAll(rs)| == RecordsSize(rs)
  {
    if rs != [] {
      EncodedSize(rs[1..]);
      assert rs == [rs[0]] + rs[1..];
      SizeAppend([rs[0]], rs[1..]);
      assert [rs[0]][..0] == [];
    }
  }

  /** The records a save writes: none at all when no descriptor is free. */
  ghost function Saved(fs: Fs, s: seq<Inode>, dir: string, k: nat): seq<Record>
    requires Walkable(s) && IsDir(TreeOf(s), dir) && k <= |Listing(s, dir)|
  {
    if HasFd(fs) then Walk(s, dir, k) else []
  }

  lemma SavedStep(fs: Fs, s: seq<Inode>, dir: string, k: nat)
    requires Walkable(s) && IsDir(TreeOf(s), dir) && k < |Listing(s, dir)|
    ensures
      var e := Listing(s, dir)[k];
      var child := Join(dir, e.name);
      && |dir| < |child| <= MAX_PATH && child in TreeOf(s) && (TreeOf(s)[child].Dir? <==> e.isDir)
      && Saved(fs, s, dir, k + 1) == Saved(fs, s, dir, k) +
        (if e.isDir then Saved(fs, s, child, |Listing(s, child)|)
         else if HasFd(fs) then [Record(child, TreeOf(s)[child].bytes)] else [])
  {
    hide Walkable, TreeOf, Join, Listing, HasFd;
    EntryInTree(s, dir, k);
    assert Walk(s, dir, k + 1) == Walk(s, dir, k) + WalkEntry(s, dir, k);
  }

  /** A directory of a file system lists at most as many entries as there are inodes. */
  lemma {:induction false} ListingFits(s: seq<Inode>, dir: string)
    ensures |Listing(s, dir)| <= |s|
  {
    if s != [] {
      ListingFits(s[..|s| - 1], dir);
    }
  }

  /** Reads a directory of the tree in full. */
  method ListAll(fs: FileSystem, dir: string) returns (entries: seq<DirEntry>)
    requires fs.Valid() && IsDir(TreeOf(fs.slots[..]), dir)
    ensures Walkable(fs.slots[..]) && entries == Listing(fs.slots[..], dir)
  {
    hide IsNormal, Parent, Normalize, Listing;
    NormalizeIdempotent(dir);
    ListingFits(fs.slots[..], dir);
    var r := fs.ReadDir(dir, 64);
    entries := r.value;
    assert entries == Listing(fs.slots[..], dir);
  }

  // ----- First pass: the size -----

  /** Adds the size of one file's record, measured by reading the file. */
  method MeasureFile(fs: FileSystem, p: string, total0: nat) returns (total: nat)
    requires fs.Valid() && IsFile(fs.Abs().tree, p)
    modifies fs.slots, fs.fds
    ensures fs.Valid() && fs.Abs() == old(fs.Abs()) && fs.slots[..] == old(fs.slots[..])
    ensures total == total0 + if HasFd(fs.Abs()) then 8 + |p| + |fs.Abs().tree[p].bytes| else 0
  {
    hide fs.Abs, Inv, HasFd, Reading, FileTree.Open, FileTree.Read, FileTree.Close;
    ghost var f := fs.Abs();
    OpenToRead(f, p);
    var fd := fs.Open(p, READ);
    if fd < 0 {
      return total0;
    }
    ghost var bytes := f.tree[p].bytes;
    var length := 0;
    ReadChunk(f, p, 0, 512);
    var chunk := fs.Read(fd, 512);
    while chunk.value != []
      invariant fs.Valid() && fs.slots[..] == old(fs.slots[..]) && chunk.Some?
      invariant length <= |bytes| && chunk.value == bytes[length..length + Min(512, |bytes| - length)]
      invariant fs.Abs() == Reading(f, p, length + |chunk.value|)
      decreases |bytes| - length
    {
      length := length + |chunk.value|;
      ReadChunk(f, p, length, 512);
      chunk := fs.Read(fd, 512);
    }
    CloseRead(f, p, length);
    var r := fs.Close(fd);
    return total0 + 8 + |p| + length;
  }

  /** The size pass over a directory. */
  method Compute(fs: FileSystem, dir: string, total0: nat) returns (total: nat)
    requires fs.Valid() && IsDir(TreeOf(fs.slots[..]), dir)
    modifies fs.slots, fs.fds
    ensures fs.Valid() && fs.Abs() == old(fs.Abs()) && fs.slots[..] == old(fs.slots[..])
    ensures Walkable(fs.slots[..])
    ensures total == total0 + RecordsSize(Saved(fs.Abs(), fs.slots[..], dir, |Listing(fs.slots[..], dir)|))
    decreases MAX_PATH - |dir|
  {
    hide IsNormal, Parent, Listing, Join, HasFd, Saved, RecordsSize, TreeOf, SlotsOk;
    var entries := ListAll(fs, dir);
    ghost var s, f := fs.slots[..], fs.Abs();
    total := total0;
    SavedNone(f, s, dir);
    for i := 0 to |entries|
      invariant fs.Valid() && fs.Abs() == f && fs.slots[..] == s
      invariant total == total0 + RecordsSize(Saved(f, s, dir, i))
    {
      SavedStep(f, s, dir, i);
      var child := Join(dir, entries[i].name);
      if entries[i].isDir {
        SizeAppend(Saved(f, s, dir, i), Saved(f, s, child, |Listing(s, child)|));
        total := Compute(fs, child, total);
      } else {
        var rs := if HasFd(f) then [Record(child, f.tree[child].bytes)] else [];
        SizeAppend(Saved(f, s, dir, i), rs);
        OneSize(child, f.tree[child].bytes);
        total := MeasureFile(fs, child, total);
      }
    }
  }

  lemma SavedNone(fs: Fs, s: seq<Inode>, dir: string)
    requires Walkable(s) && IsDir(TreeOf(s), dir)
    ensures Saved(fs, s, dir, 0) == [] && RecordsSize(Saved(fs, s, dir, 0)) == 0
  {
  }

  lemma OneSize(p: string, bytes: seq<Byte>)
    ensures RecordsSize([Record(p, bytes)]) == 8 + |p| + |bytes| && RecordsSize([]) == 0
  {
    assert [Record(p, bytes)][..0] == [];
  }

  // ----- Second pass: the bytes -----

  /** Names are C strings and sizes fit their 32-bit fields. */
  predicate Storable(t: Tree)
  {
    forall n :: n in t ==> IsText(n) && (t[n].File? ==> |t[n].bytes| < 0x1_0000_0000)
  }

  lemma SavedEncodable(fs: Fs, s: seq<Inode>, dir: string, k: nat)
    requires Walkable(s) && IsDir(TreeOf(s), dir) && k <= |Listing(s, dir)| && Storable(TreeOf(s))
    ensures AllEncodable(Saved(fs, s, dir, k))
  {
    hide SlotsOk, TreeOf, Parent, Walk, IsText;
    WalkFaithful(s, dir, k);
    forall i | 0 <= i < |Saved(fs, s, dir, k)| ensures Encodable(Saved(fs, s, dir, k)[i]) {
      var r := Saved(fs, s, dir, k)[i];
      assert r in Walk(s, dir, k);
      assert Faithful(TreeOf(s), r);
    }
  }

  /** The record as laid out before its data length is known. */
  ghost function Header(p: string): seq<Byte>
    requires IsText(p) && |p| < 0x1_0000_0000
  {
    U32Bytes(|p|) + U32Bytes(0) + TextBytes(p)
  }

  lemma SplicedPrefix(a: seq<Byte>, off: nat, b: seq<Byte>)
    requires off + |b| <= |a|
    ensures Splice(a, off, b)[..off + |b|] == a[..off] + b
  {
  }

  /** Patching the length completes the record. */
  lemma PatchedRecord(a: seq<Byte>, off: nat, r: Record)
    requires Encodable(r) && off + |Encode(r)| <= |a|
    requires a[..off + |Encode(r)|] == a[..off] + (Header(r.path) + r.data)
    ensures Splice(a, off + 4, U32Bytes(|r.data|))[..off + |Encode(r)|] == a[..off] + Encode(r)
  {
    hide U32Bytes, TextBytes, IsText;
    var n := U32Bytes(|r.path|);
    var end := off + |Encode(r)|;
    var whole := a[..off] + (Header(r.path) + r.data);
    assert Header(r.path) + r.data == n + U32Bytes(0) + TextBytes(r.path) + r.data;
    assert a[off..off + 4] == whole[off..off + 4] == n;
    assert a[off + 8..end] == whole[off + 8..] == TextBytes(r.path) + r.data;
    assert Encode(r) == n + U32Bytes(|r.data|) + (TextBytes(r.path) + r.data);
  }

  /** Copies a file being read into the payload, chunk by chunk, if it fits. */
  method FillData(fs: FileSystem, fd: int, ghost f: Fs, p: string, payload: array<Byte>, off0: nat)
      returns (ok: bool, off: nat, ghost pos: nat)
    requires fs.Valid() && Inv(f) && IsFile(f.tree, p) && HasFd(f) && off0 <= payload.Length
    requires fs.Abs() == Reading(f, p, 0) && fd == FirstClosed(f.fds) + FD_OFFSET
    modifies fs.fds, payload
    ensures fs.Valid() && fs.Abs() == Reading(f, p, pos)
    ensures ok <==> off0 + |f.tree[p].bytes| <= payload.Length
    ensures ok ==> off == off0 + |f.tree[p].bytes| && payload[..off] == old(payload[..off0]) + f.tree[p].bytes
  {
    hide fs.Abs, Inv, HasFd, Reading, FileTree.Read;
    ghost var bytes := f.tree[p].bytes;
    ghost var was := payload[..off0];
    ghost var length := 0;
    off := off0;
    assert was + bytes[..0] == was;
    ReadChunk(f, p, 0, 512);
    var chunk := fs.Read(fd, 512);
    while chunk.value != []
      invariant fs.Valid() && chunk.Some?
      invariant length <= |bytes| && chunk.value == bytes[length..length + Min(512, |bytes| - length)]
      invariant fs.Abs() == Reading(f, p, length + |chunk.value|)
      invariant off == off0 + length <= payload.Length
      invariant payload[..off] == was + bytes[..length]
      decreases |bytes| - length
    {
      if off + |chunk.value| > payload.Length {
        return false, off, length + |chunk.value|;
      }
      AppendChunk(payload, off, chunk.value);
      ChunkAdded(bytes, length, |chunk.value|);
      Associative(was, bytes[..length], chunk.value);
      off := off + |chunk.value|;
      length := length + |chunk.value|;
      ReadChunk(f, p, length, 512);
      chunk := fs.Read(fd, 512);
    }
    assert bytes[..length] == bytes;
    return true, off, length;
  }

  method AppendChunk(payload: array<Byte>, off: nat, chunk: seq<Byte>)
    requires off + |chunk| <= payload.Length
    modifies payload
    ensures payload[..off + |chunk|] == old(payload[..off]) + chunk
  {
    hide Splice;
    SplicedPrefix(payload[..], off, chunk);
    assert payload[..][..off] == payload[..off];
    CopyBytes(payload, off, chunk);
    assert payload[..off + |chunk|] == payload[..][..off + |chunk|];
  }

  /** Fills in the data length of the record at `off`. */
  method PatchLength(payload: array<Byte>, off: nat, ghost r: Record, length: U32)
    requires Encodable(r) && length == |r.data| && off + |Encode(r)| <= payload.Length
    requires payload[..off + |Encode(r)|] == payload[..off] + (Header(r.path) + r.data)
    modifies payload
    ensures payload[..off + |Encode(r)|] == old(payload[..off]) + Encode(r)
  {
    hide Splice, Encodable, Encode, Header, U32Bytes;
    ghost var before := payload[..];
    ghost var end := off + |Encode(r)|;
    assert before[..end] == payload[..end] && before[..off] == payload[..off];
    RecordSize(r);
    PatchedRecord(before, off, r);
    CopyBytes(payload, off + 4, U32Bytes(length));
    assert payload[..end] == payload[..][..end];
  }

  lemma RecordSize(r: Record)
    requires Encodable(r)
    ensures |Encode(r)| == 8 + |r.path| + |r.data| && IsText(r.path) && 1 <= |r.path| <= MAX_TEXT
    ensures |r.data| < 0x1_0000_0000
  {
  }

  /** Appends one file's record to the payload, if it fits. */
  method FillFile(fs: FileSystem, p: string, payload: array<Byte>, off0: nat) returns (ok: bool, off: nat)
    requires fs.Valid() && IsFile(fs.Abs().tree, p) && off0 <= payload.Length
    requires Encodable(Record(p, fs.Abs().tree[p].bytes))
    modifies fs.slots, fs.fds, payload
    ensures fs.Valid() && fs.Abs() == old(fs.Abs()) && fs.slots[..] == old(fs.slots[..])
    ensures
      var bytes := if HasFd(fs.Abs()) then Encode(Record(p, fs.Abs().tree[p].bytes)) else [];
      && (ok <==> off0 + |bytes| <= payload.Length)
      && (ok ==> off == off0 + |bytes| && payload[..off] == old(payload[..off0]) + bytes)
  {
    hide fs.Abs, Inv, HasFd, Reading, IsText, Encodable, Encode, Header, FileTree.Open, FileTree.Close;
    ghost var f := fs.Abs();
    OpenToRead(f, p);
    var fd := fs.Open(p, READ);
    if fd < 0 {
      return true, off0;
    }
    ghost var r := Record(p, f.tree[p].bytes);
    RecordSize(r);
    if off0 + 8 + |p| > payload.Length {
      CloseRead(f, p, 0);
      var closed := fs.Close(fd);
      return false, off0;
    }
    ghost var was := payload[..off0];
    WriteHeader(payload, off0, p);
    var start := off0 + 8 + |p|;
    ghost var pos;
    ok, off, pos := FillData(fs, fd, f, p, payload, start);
    if ok {
      Associative(was, Header(p), r.data);
      assert |was| == off0;
      assert payload[..off0] == payload[..off][..off0] == was;
      PatchLength(payload, off0, r, off - start);
    }
    CloseRead(f, p, pos);
    var closed := fs.Close(fd);
  }

  lemma ChunkAdded(bytes: seq<Byte>, n: nat, m: nat)
    requires n + m <= |bytes|
    ensures bytes[..n] + bytes[n..n + m] == bytes[..n + m]
  {
  }

  /** The path length, a zero data length, and the path. */
  method WriteHeader(payload: array<Byte>, off: nat, p: string)
    requires IsText(p) && |p| < 0x1_0000_0000 && off + 8 + |p| <= payload.Length
    modifies payload
    ensures payload[..off + 8 + |p|] == old(payload[..off]) + Header(p)
  {
    hide Splice, IsText, TextBytes, U32Bytes;
    CopyBytes(payload, off, U32Bytes(|p|));
    SplicedPrefix(old(payload[..]), off, U32Bytes(|p|));
    ghost var a := payload[..];
    CopyBytes(payload, off + 4, U32Bytes(0));
    SplicedPrefix(a, off + 4, U32Bytes(0));
    ghost var b := payload[..];
    CopyBytes(payload, off + 8, TextBytes(p));
    SplicedPrefix(b, off + 8, TextBytes(p));
    assert old(payload[..])[..off] == old(payload[..off]);
    assert payload[..off + 8 + |p|] == payload[..][..off + 8 + |p|];
  }

  /** The fill pass over a directory. */
  method Fill(fs: FileSystem, dir: string, payload: array<Byte>, off0: nat) returns (ok: bool, off: nat)
    requires fs.Valid() && IsDir(TreeOf(fs.slots[..]), dir) && off0 <= payload.Length
    requires Storable(fs.Abs().tree)
    modifies fs.slots, fs.fds, payload
    ensures fs.Valid() && fs.Abs() == old(fs.Abs()) && fs.slots[..] == old(fs.slots[..])
    ensures Walkable(fs.slots[..])
    ensures
      var rs := Saved(fs.Abs(), fs.slots[..], dir, |Listing(fs.slots[..], dir)|);
      && AllEncodable(rs)
      && (ok <==> off0 + RecordsSize(rs) <= payload.Length)
      && (ok ==> off == off0 + RecordsSize(rs) && payload[..off] == old(payload[..off0]) + EncodeAll(rs))
    decreases MAX_PATH - |dir|
  {
    hide IsNormal, Parent, Listing, Join, HasFd, Saved, RecordsSize, TreeOf, SlotsOk, Storable, AllEncodable, EncodeAll,
      Encodable, Encode;
    var entries := ListAll(fs, dir);
    ghost var s, f := fs.slots[..], fs.Abs();
    ghost var was := payload[..off0];
    ghost var n := |Listing(s, dir)|;
    off := off0;
    SavedNone(f, s, dir);
    NoneEncoded(was);
    SavedEncodable(f, s, dir, n);
    for i := 0 to |entries|
      invariant fs.Valid() && fs.Abs() == f && fs.slots[..] == s
      invariant AllEncodable(Saved(f, s, dir, i))
      invariant off == off0 + RecordsSize(Saved(f, s, dir, i)) <= payload.Length
      invariant payload[..off] == was + EncodeAll(Saved(f, s, dir, i))
    {
      SavedStep(f, s, dir, i);
      SavedEncodable(f, s, dir, i + 1);
      SizeGrows(f, s, dir, i + 1, n);
      var child := Join(dir, entries[i].name);
      ghost var done := Saved(f, s, dir, i);
      ghost var before := payload[..off];
      ghost var rs;
      if entries[i].isDir {
        rs := Saved(f, s, child, |Listing(s, child)|);
        SizeAppend(done, rs);
        var fits, end := Fill(fs, child, payload, off);
        if !fits {
          return false, off;
        }
        off := end;
      } else {
        rs := if HasFd(f) then [Record(child, f.tree[child].bytes)] else [];
        SizeAppend(done, rs);
        OneSize(child, f.tree[child].bytes);
        StorableRecord(f.tree, child);
        OneEncoded(Record(child, f.tree[child].bytes));
        var fits, end := FillFile(fs, child, payload, off);
        if !fits {
          return false, off;
        }
        off := end;
      }
      EncodeAppend(done, rs);
      Associative(was, EncodeAll(done), EncodeAll(rs));
    }
    ok := true;
  }

  lemma NoneEncoded(was: seq<Byte>)
    ensures AllEncodable([]) && EncodeAll([]) == [] && was + [] == was
  {
  }

  lemma OneEncoded(r: Record)
    requires Encodable(r)
    ensures AllEncodable([r]) && EncodeAll([r]) == Encode(r) && AllEncodable([]) && EncodeAll([]) == []
    ensures |Encode(r)| == 8 + |r.path| + |r.data|
  {
    assert [r][1..] == [];
  }

  lemma StorableRecord(t: Tree, p: string)
    requires Storable(t) && IsFile(t, p) && TreeOk(t)
    ensures Encodable(Record(p, t[p].bytes))
  {
  }

  lemma {:induction false} SizeGrows(fs: Fs, s: seq<Inode>, dir: string, i: nat, j: nat)
    requires Walkable(s) && IsDir(TreeOf(s), dir) && i <= j <= |Listing(s, dir)|
    ensures RecordsSize(Saved(fs, s, dir, i)) <= RecordsSize(Saved(fs, s, dir, j))
    decreases j
  {
    hide Walkable, TreeOf, Listing, HasFd, RecordsSize;
    if i < j {
      SizeGrows(fs, s, dir, i, j - 1);
      if HasFd(fs) {
        SizeAppend(Walk(s, dir, j - 1), WalkEntry(s, dir, j - 1));
      }
    }
  }

  /** Both passes: the payload holds the encoding of every file's record, and nothing is left over. */
  method Save(fs: FileSystem) returns (payload: Option<seq<Byte>>)
    requires fs.Valid() && Storable(fs.Abs().tree)
    modifies fs.slots, fs.fds
    ensures fs.Valid() && fs.Abs() == old(fs.Abs()) && fs.slots[..] == old(fs.slots[..])
    ensures Walkable(fs.slots[..]) && IsDir(TreeOf(fs.slots[..]), "/")
    ensures
      var rs := if HasFd(fs.Abs()) then WalkAll(fs.slots[..], "/") else [];
      && AllEncodable(rs)
      && (payload.None? <==> rs == [])
      && (payload.Some? ==> payload.value == EncodeAll(rs))
  {
    hide IsNormal, Parent, Listing, RecordsSize, TreeOf, SlotsOk, Storable, AllEncodable, EncodeAll, HasFd;
    var total := Compute(fs, "/", 0);
    ghost var rs := Saved(fs.Abs(), fs.slots[..], "/", |Listing(fs.slots[..], "/")|);
    SavedEncodable(fs.Abs(), fs.slots[..], "/", |Listing(fs.slots[..], "/")|);
    NothingIffZero(rs);
    if total == 0 {
      return None;
    }
    var buffer := new Byte[total](i => 0);
    var ok, off := Fill(fs, "/", buffer, 0);
    assert buffer[..0] == [];
    assert [] + EncodeAll(rs) == EncodeAll(rs);
    return Some(buffer[..off]);
  }

  lemma NothingIffZero(rs: seq<Record>)
    ensures RecordsSize(rs) == 0 <==> rs == []
  {
  }

  // ----- Restoring -----

  method MakeParentDirs(fs: FileSystem, path: string)
    requires fs.Valid()
    modifies fs.slots
    ensures fs.Valid() && fs.Abs() == MakeParents(old(fs.Abs()), path, |path|)
  {
    hide fs.Abs, Inv, FileTree.Md;
    if path == "" {
      return;
    }
    var prefix, i := "/", 1;
    while i < |path|
      invariant 1 <= i <= |path|
      invariant prefix == "/" + path[1..i]
      invariant fs.Valid() && fs.Abs() == MakeParents(old(fs.Abs()), path, i)
    {
      if path[i] == '/' {
        var made := fs.Md(prefix);
      }
      prefix := prefix + [path[i]];
      assert path[1..i + 1] == path[1..i] + [path[i]];
      i := i + 1;
    }
  }

  /** Creates or truncates the file of one record and writes its data. */
  method RewriteFile(fs: FileSystem, r: Record, block: nat -> Byte)
    requires fs.Valid() && |r.data| <= 0x8000_0000
    modifies fs.slots, fs.fds
    ensures fs.Valid() && fs.Abs() == Rewrite(old(fs.Abs()), r)
  {
    hide fs.Abs, Inv, MakeParents, FileTree.Open, FileTree.Write, FileTree.Close;
    MakeParentDirs(fs, r.path);
    ghost var a := fs.Abs();
    OpenedAtStart(a, r.path, REWRITE);
    var fd := fs.Open(r.path, REWRITE);
    if fd >= 0 {
      var written, gap := fs.Write(fd, r.data, block, true);
      assert gap == [];
      var closed := fs.Close(fd);
    }
  }

  /** Replays the records of a payload read back from the disk. */
  method Restore(fs: FileSystem, data: seq<Byte>, block: nat -> Byte)
    requires fs.Valid() && |data| <= 0x8000_0000
    modifies fs.slots, fs.fds
    ensures fs.Valid() && Inv(old(fs.Abs())) && fs.Abs() == RewriteAll(old(fs.Abs()), Parse(data, 0))
  {
    hide fs.Abs, Inv, Rewrite, RecordEnd, RecordAt;
    ghost var done: seq<Record> := [];
    ghost var f := fs.Abs();
    var po := 0;
    while RecordEnd(data, po).Some?
      invariant po <= |data| && fs.Valid() && Inv(f)
      invariant Parse(data, 0) == done + Parse(data, po)
      invariant fs.Abs() == RewriteAll(f, done)
      decreases |data| - po
    {
      RecordBounds(data, po);
      var r := RecordAt(data, po);
      RewriteFile(fs, r, block);
      assert (done + [r])[..|done|] == done;
      done := done + [r];
      po := RecordEnd(data, po).value;
    }
    assert done + [] == done;
  }

  lemma RecordBounds(data: seq<Byte>, po: nat)
    requires RecordEnd(data, po).Some?
    ensures po < RecordEnd(data, po).value <= |data| && |RecordAt(data, po).data| <= |data|
  {
  }

  /** A snapshot read back from its zero-padded sectors restores exactly the saved files. */
  lemma SavedRestores(s: seq<Inode>, k: nat)
    requires Walkable(s) && |s| <= MAX_INODES && Storable(TreeOf(s))
    ensures IsDir(TreeOf(s), "/") && AllEncodable(WalkAll(s, "/")) && Inv(EMPTY)
    ensures
      var data := EncodeAll(WalkAll(s, "/")) + Zeros(k);
      Files(RewriteAll(EMPTY, Parse(data, 0)).tree) == Files(TreeOf(s))
  {
    hide TreeOf, SlotsOk, TreeOk, EncodeAll, AllEncodable, Parse, RewriteAll, Files, Zeros, Storable, Listing;
    SnapshotRestores(s);
    SavedEncodable(EMPTY, s, "/", |Listing(s, "/")|);
    assert EMPTY.fds[0].Closed?;
    ParseEncoded([], WalkAll(s, "/"), k);
    assert [] + EncodeAll(WalkAll(s, "/")) == EncodeAll(WalkAll(s, "/"));
  }
}
