/** The RAM file system's in-place operations on its tables. */
module RamFs {
  import opened Bytes
  import opened Paths
  import opened FileTree
  import opened InodeTable

  // ----- Normalizing a path -----

  /** What the output buffer holds after `i` characters. */
  ghost function DraftAt(path: string, i: nat): string
    requires i <= |path|
  {
    Draft(Scan(path[..i]))
  }

  ghost predicate BetweenNames(path: string, i: nat)
    requires i <= |path|
  {
    Scan(path[..i]).cur == ""
  }

  lemma DraftStart(path: string)
    requires path != "" && path[0] == '/'
    ensures DraftAt(path, 1) == "/" && BetweenNames(path, 1)
  {
    assert path[..1][..0] == "" && path[..1] == [path[0]];
    assert Scan(path[..1]) == Scanned([], "");
    assert Slashed([]) == "";
  }

  lemma DraftOfChar(s: Scanned, c: char)
    ensures Draft(ScanChar(s, c)) == if c == '/' && s.cur == "" then Draft(s) else Draft(s) + [c]
    ensures ScanChar(s, c).cur == "" <==> c == '/'
  {
    assert (s.done + [s.cur])[..|s.done|] == s.done;
    assert Slashed(s.done + [s.cur]) == Draft(s);
  }

  lemma DraftStep(path: string, i: nat)
    requires i < |path|
    ensures DraftAt(path, i + 1) ==
      if path[i] == '/' && BetweenNames(path, i) then DraftAt(path, i) else DraftAt(path, i) + [path[i]]
    ensures BetweenNames(path, i + 1) <==> path[i] == '/'
  {
    hide Draft, ScanChar;
    var q := path[..i + 1];
    assert q[..|q| - 1] == path[..i] && q[|q| - 1] == path[i];
    DraftOfChar(Scan(path[..i]), path[i]);
  }

  lemma {:induction false} DraftGrows(path: string, i: nat, j: nat)
    requires i <= j <= |path|
    ensures |DraftAt(path, i)| <= |DraftAt(path, j)|
    decreases j
  {
    hide DraftAt, BetweenNames;
    if i < j {
      DraftGrows(path, i, j - 1);
      DraftStep(path, j - 1);
    }
  }

  function Trimmed(d: string): string
  {
    if |d| > 1 && d[|d| - 1] == '/' then d[..|d| - 1] else d
  }

  /** The final draft without its trailing slash is the canonical text. */
  lemma TrimmedDraft(s: Scanned)
    requires '/' !in s.cur
    ensures Render(if s.cur == "" then s.done else s.done + [s.cur]) == Trimmed(Draft(s))
  {
    var d := Draft(s);
    if s.cur == "" {
      assert d[..|d| - 1] == Slashed(s.done);
      SlashedLength(s.done);
    } else {
      assert (s.done + [s.cur])[..|s.done|] == s.done;
      assert d[|d| - 1] == s.cur[|s.cur| - 1];
      assert s.cur[|s.cur| - 1] in s.cur;
    }
  }

  lemma NormalizeDraft(path: string)
    requires path != "" && path[0] == '/'
    ensures Normalize(path) ==
      if |DraftAt(path, |path|)| > MAX_PATH then None else Some(Trimmed(DraftAt(path, |path|)))
  {
    hide Scan, Draft, Render, Trimmed;
    assert path[..|path|] == path;
    ScanNames(path);
    TrimmedDraft(Scan(path));
  }

  /** Copies the path, folding slashes, and drops a trailing one. */
  method NormalizePath(path: string) returns (p: Option<string>)
    ensures p == Normalize(path)
  {
    if path == "" || path[0] != '/' {
      return None;
    }
    hide Normalize, DraftAt, BetweenNames;
    DraftStart(path);
    NormalizeDraft(path);
    var out, prevSlash, i := "/", true, 1;
    while i < |path|
      invariant 1 <= i <= |path|
      invariant out == DraftAt(path, i) && 1 <= |out| <= MAX_PATH
      invariant prevSlash <==> BetweenNames(path, i)
    {
      var c := path[i];
      DraftStep(path, i);
      if !(c == '/' && prevSlash) {
        if |out| + 1 >= MAX_PATH + 1 {
          DraftGrows(path, i + 1, |path|);
          return None;
        }
        out := out + [c];
        prevSlash := c == '/';
      }
      i := i + 1;
    }
    if |out| > 1 && out[|out| - 1] == '/' {
      out := out[..|out| - 1];
    }
    return Some(out);
  }

  // ----- The tables -----

  class FileSystem {
    const slots: array<Inode>
    const fds: array<Descriptor>

    ghost predicate TablesOk()
      reads slots, fds
    {
      && slots.Length == MAX_INODES && fds.Length == MAX_FDS
      && SlotsOk(slots[..]) && FdsOk(fds[..], slots[..])
    }

    ghost function Abs(): Fs
      requires TablesOk()
      reads slots, fds
    {
      Fs(TreeOf(slots[..]), Handles(fds[..], slots[..]))
    }

    ghost predicate Valid()
      reads slots, fds
    {
      TablesOk() && Inv(Abs())
    }

    /** An empty root directory. */
    constructor ()
      ensures fresh(slots) && fresh(fds) && Valid() && Abs() == EMPTY
    {
      var root := Node(true, "/", [], 0);
      var s := new Inode[MAX_INODES](i => if i == 0 then root else Free);
      var d := new Descriptor[MAX_FDS](i => Unused);
      slots := s;
      fds := d;
      new;
      RootOnly(slots[..]);
      assert Handles(fds[..], slots[..]) == EMPTY.fds;
      EmptyInv();
    }

    method FindInode(name: string) returns (i: nat)
      requires TablesOk()
      ensures i <= MAX_INODES
      ensures i < MAX_INODES ==> name in TreeOf(slots[..]) && slots[i].Node? && slots[i].name == name
      ensures i < MAX_INODES ==> TreeOf(slots[..])[name] == EntryOf(slots[i])
      ensures i == MAX_INODES <==> name !in TreeOf(slots[..])
    {
      hide TreeOf;
      i := 0;
      while i < MAX_INODES && !(slots[i].Node? && slots[i].name == name)
        invariant i <= MAX_INODES
        invariant forall j :: 0 <= j < i ==> !(slots[j].Node? && slots[j].name == name)
      {
        i := i + 1;
      }
      if i < MAX_INODES {
        TreeLookup(slots[..], i);
      } else if name in TreeOf(slots[..]) {
        ghost var j := TreeIndex(slots[..], name);
      }
    }

    /** Takes the first free slot; there is one unless the tree is full. */
    method CreateInode(name: string, isDir: bool) returns (i: nat)
      requires TablesOk() && name !in TreeOf(slots[..])
      modifies slots
      ensures i == MAX_INODES <==> |old(TreeOf(slots[..]))| == MAX_INODES
      ensures i == MAX_INODES ==> slots[..] == old(slots[..])
      ensures i != MAX_INODES ==> i < MAX_INODES && slots[i] == Node(isDir, name, [], 0)
      ensures TablesOk()
      ensures i != MAX_INODES ==>
        Abs() == old(Abs()).(tree := old(Abs()).tree[name := if isDir then Dir else File([])])
    {
      hide TreeOf, Handles;
      i := 0;
      while i < MAX_INODES && slots[i].Node?
        invariant i <= MAX_INODES
        invariant forall j :: 0 <= j < i ==> slots[j].Node?
      {
        i := i + 1;
      }
      TreeSize(slots[..]);
      UsedBound(slots[..]);
      if i < MAX_INODES {
        var node := Node(isDir, name, [], 0);
        TreePut(slots[..], i, node);
        HandlesKept(fds[..], slots[..], slots[..][i := node]);
        slots[i] := node;
        assert slots[..] == old(slots[..])[i := node];
      }
    }

    method ParentDirectoryExists(p: string) returns (ok: bool)
      requires TablesOk() && IsNormal(p) && |p| <= MAX_PATH
      ensures ok <==> p == "/" || IsDir(TreeOf(slots[..]), Parent(p))
    {
      hide TreeOf, SlotsOk, FdsOk;
      if p == "/" {
        return true;
      }
      OneIsRoot(p);
      var lastSlash, i := -1, 0;
      while i < |p|
        invariant 0 <= i <= |p|
        invariant lastSlash == LastSlash(p[..i])
      {
        assert p[..i + 1][..i] == p[..i] && p[..i + 1][i] == p[i];
        if p[i] == '/' {
          lastSlash := i;
        }
        i := i + 1;
      }
      assert p[..|p|] == p;
      var parent := if lastSlash <= 0 then p[..1] else p[..lastSlash];
      assert p[..1] == "/";
      var k := FindInode(parent);
      ok := k < MAX_INODES && slots[k].isDir;
    }

    method AllocFd() returns (k: nat)
      requires TablesOk()
      ensures k == FirstClosed(Abs().fds) && |Abs().fds| == MAX_FDS && k <= MAX_FDS
    {
      k := 0;
      while k < MAX_FDS && fds[k].Using?
        invariant k <= MAX_FDS
        invariant forall j :: 0 <= j < k ==> fds[j].Using?
      {
        k := k + 1;
      }
      FirstClosedIs(Abs().fds, k);
    }

    /** Replaces one descriptor. */
    method SetFd(k: nat, e: Descriptor)
      requires TablesOk() && k < MAX_FDS
      requires e.Using? ==> e.inode < MAX_INODES && slots[e.inode].Node?
      modifies fds
      ensures TablesOk() && fds[..] == old(fds[..])[k := e]
      ensures Abs() == old(Abs()).(fds := old(Abs()).fds[
        k := if e.Unused? then Closed else Opened(slots[e.inode].name, e.offset, e.flags)])
    {
      hide TreeOf, Handles, SlotsOk;
      HandlesPut(fds[..], slots[..], k, e);
      fds[k] := e;
      assert fds[..] == old(fds[..])[k := e];
    }

    /** Replaces the bytes of a file in place. */
    method SetData(i: nat, data: seq<Byte>, size: nat)
      requires TablesOk() && i < MAX_INODES && slots[i].Node? && !slots[i].isDir && size <= |data|
      modifies slots
      ensures TablesOk() && slots[..] == old(slots[..])[i := old(slots[i]).(data := data, size := size)]
      ensures Abs() == old(Abs()).(tree := old(Abs()).tree[old(slots[i].name) := File(data[..size])])
    {
      hide TreeOf, Handles, SlotsOk;
      var node := slots[i].(data := data, size := size);
      TreePut(slots[..], i, node);
      HandlesKept(fds[..], slots[..], slots[..][i := node]);
      slots[i] := node;
      assert slots[..] == old(slots[..])[i := node];
    }

    method Open(path: string, flags: Flags) returns (fd: int)
      requires Valid()
      modifies slots, fds
      ensures Valid() && (Abs(), fd) == FileTree.Open(old(Abs()), path, flags)
      ensures !flags.create && !flags.truncate ==> slots[..] == old(slots[..])
    {
      hide TreeOf, Handles, SlotsOk, FdsOk, Inv, FileTree.FirstClosed, Normalize, Parent, IsNormal;
      OpenKeepsInv(Abs(), path, flags);
      var p := NormalizePath(path);
      if p.None? || p.value == "/" {
        return -1;
      }
      NormalizeNormal(path);
      var i := FindInode(p.value);
      if i == MAX_INODES {
        if !flags.create {
          return -1;
        }
        var parent := ParentDirectoryExists(p.value);
        if !parent {
          return -1;
        }
        TreeSize(slots[..]);
        UsedBound(slots[..]);
        i := CreateInode(p.value, false);
        if i == MAX_INODES {
          return -1;
        }
      }
      if slots[i].isDir {
        return -1;
      }
      ghost var t := if p.value in old(Abs()).tree && !(flags.truncate && flags.write)
        then old(Abs()).tree else old(Abs()).tree[p.value := File([])];
      if flags.truncate && flags.write {
        SetData(i, slots[i].data, 0);
      }
      assert Abs().tree == t && Abs().fds == old(Abs()).fds;
      var k := AllocFd();
      if k == MAX_FDS {
        return -1;
      }
      SetFd(k, Using(i, 0, flags));
      return k + FD_OFFSET;
    }

    /** The table index behind a descriptor, if it is open. */
    method GetFd(fd: int) returns (k: Option<nat>)
      requires TablesOk()
      ensures k.Some? <==> IsOpen(Abs(), fd)
      ensures k.Some? ==> k.value == fd - FD_OFFSET && k.value < MAX_FDS && fds[k.value].Using?
      ensures k.Some? ==>
        var d := fds[k.value];
        && d.inode < MAX_INODES && slots[d.inode].Node?
        && Abs().fds[k.value] == Opened(slots[d.inode].name, d.offset, d.flags)
    {
      var index := fd - FD_OFFSET;
      if index < 0 || index >= MAX_FDS || fds[index].Unused? {
        return None;
      }
      return Some(index);
    }

    /** An open descriptor names a file, whose entry is the inode's bytes. */
    lemma OpenFile(k: nat)
      requires Valid() && k < MAX_FDS && fds[k].Using?
      ensures
        var d := fds[k];
        && d.inode < MAX_INODES && slots[d.inode].Node? && !slots[d.inode].isDir
        && slots[d.inode].size <= |slots[d.inode].data|
        && slots[d.inode].name in Abs().tree
        && Abs().tree[slots[d.inode].name] == File(slots[d.inode].data[..slots[d.inode].size])
    {
      hide TreeOf, TreeOk;
      assert Abs().fds[k].Opened?;
      TreeLookup(slots[..], fds[k].inode);
    }

    method Read(fd: int, count: nat) returns (r: Option<seq<Byte>>)
      requires Valid()
      modifies fds
      ensures Valid() && (Abs(), r) == FileTree.Read(old(Abs()), fd, count)
    {
      hide TreeOf, Handles, SlotsOk, FdsOk, Inv;
      ReadCloseKeepInv(Abs(), fd, count);
      var k := GetFd(fd);
      if k.None? || !fds[k.value].flags.read {
        return None;
      }
      OpenFile(k.value);
      var d := fds[k.value];
      var node := slots[d.inode];
      if d.offset >= node.size {
        return Some([]);
      }
      var remaining := node.size - d.offset;
      var n := if count < remaining then count else remaining;
      var bytes := node.data[d.offset..d.offset + n];
      SliceOfPrefix(node.data, node.size, d.offset, d.offset + n);
      SetFd(k.value, d.(offset := d.offset + n));
      return Some(bytes);
    }

    /** Grows a file's buffer by doubling; the file's own bytes are kept, the rest of the new block is
        whatever it held. */
    method EnsureCapacity(i: nat, required: nat, block: nat -> Byte, memory: bool) returns (ok: bool)
      requires TablesOk() && i < MAX_INODES && slots[i].Node? && !slots[i].isDir
      requires required <= 0x8000_0000
      modifies slots
      ensures TablesOk() && Abs() == old(Abs())
      ensures slots[i].Node? && slots[i].name == old(slots[i].name) && slots[i].size == old(slots[i].size)
      ensures !slots[i].isDir
      ensures ok <==> required <= |old(slots[i].data)| || memory
      ensures ok ==> required <= |slots[i].data|
    {
      hide TreeOf, Handles, SlotsOk, FdsOk;
      TreeLookup(slots[..], i);
      assert slots[i].size <= |slots[i].data| by {
        SizeFits(slots[..], i);
      }
      var node := slots[i];
      if required <= |node.data| {
        return true;
      }
      var capacity := if |node.data| == 0 then 64 else |node.data|;
      ghost var first := capacity;
      while capacity < required
        invariant capacity > 0
        invariant Doubled(capacity, required) == Doubled(first, required)
        decreases required - capacity
      {
        capacity := 2 * capacity;
      }
      assert capacity == NewCapacity(|node.data|, required);
      if !memory {
        return false;
      }
      var rest := seq(capacity - node.size, (j: nat) => block(j));
      var data := node.data[..node.size] + rest;
      assert data[..node.size] == node.data[..node.size];
      SetData(i, data, node.size);
      assert Abs().tree == old(Abs()).tree;
      return true;
    }

    /** Writes at the descriptor's offset. `gap` is what the buffer held between the end of the file and
        that offset. */
    method Write(fd: int, buf: seq<Byte>, block: nat -> Byte, memory: bool) returns (r: int, ghost gap: seq<Byte>)
      requires Valid()
      requires IsOpen(Abs(), fd) ==> Abs().fds[fd - FD_OFFSET].offset + |buf| <= 0x8000_0000
      modifies slots, fds
      ensures Valid() && |gap| == Hole(old(Abs()), fd)
      ensures r >= 0 || memory ==> (Abs(), r) == FileTree.Write(old(Abs()), fd, buf, gap)
      ensures r < 0 ==> Abs() == old(Abs())
    {
      hide TreeOf, Handles, SlotsOk, FdsOk, Inv, Overwritten;
      r := -1;
      gap := seq(Hole(Abs(), fd), j => 0);
      var k := GetFd(fd);
      if k.None? || !fds[k.value].flags.write {
        return;
      }
      OpenFile(k.value);
      var d := fds[k.value];
      var end := d.offset + |buf|;
      var ok := EnsureCapacity(d.inode, end, block, memory);
      if !ok {
        return;
      }
      OpenFile(k.value);
      var node := slots[d.inode];
      if d.offset > node.size {
        gap := node.data[node.size..d.offset];
      } else {
        gap := [];
      }
      var data := Splice(node.data, d.offset, buf);
      var size := if end > node.size then end else node.size;
      SpliceIsOverwrite(node.data, node.size, d.offset, buf, gap);
      WriteKeepsInv(Abs(), fd, buf, gap);
      SetData(d.inode, data, size);
      SetFd(k.value, d.(offset := end));
      r := |buf|;
    }

    method Close(fd: int) returns (r: int)
      requires Valid()
      modifies fds
      ensures Valid() && (Abs(), r) == FileTree.Close(old(Abs()), fd)
    {
      hide TreeOf, Handles, SlotsOk, FdsOk, Inv;
      ReadCloseKeepInv(Abs(), fd, 0);
      var k := GetFd(fd);
      if k.None? {
        return -1;
      }
      SetFd(k.value, Unused);
      return 0;
    }

    method Md(path: string) returns (r: int)
      requires Valid()
      modifies slots
      ensures Valid() && (Abs(), r) == FileTree.Md(old(Abs()), path)
    {
      hide TreeOf, Handles, SlotsOk, FdsOk, Inv, Normalize, Parent, IsNormal;
      MdKeepsInv(Abs(), path);
      var p := NormalizePath(path);
      if p.None? {
        return -1;
      }
      if p.value == "/" {
        return 0;
      }
      NormalizeNormal(path);
      var i := FindInode(p.value);
      if i < MAX_INODES {
        return if slots[i].isDir then 0 else -1;
      }
      var parent := ParentDirectoryExists(p.value);
      if !parent {
        return -1;
      }
      TreeSize(slots[..]);
      UsedBound(slots[..]);
      i := CreateInode(p.value, true);
      return if i == MAX_INODES then -1 else 0;
    }

    /** The first `max` entries of the listing. */
    method ReadDir(path: string, max: nat) returns (entries: Option<seq<DirEntry>>)
      requires Valid()
      ensures entries.Some? <==> max > 0 && Normalize(path).Some? && IsDir(Abs().tree, Normalize(path).value)
      ensures entries.Some? ==>
        var all := Listing(slots[..], Normalize(path).value);
        entries.value == all[..Min(max, |all|)]
    {
      hide TreeOf, Handles, SlotsOk, FdsOk, Normalize, Parent, BaseName, ChildName;
      if max == 0 {
        return None;
      }
      var p := NormalizePath(path);
      if p.None? {
        return None;
      }
      NormalizeNormal(path);
      var d := FindInode(p.value);
      if d == MAX_INODES || !slots[d].isDir {
        return None;
      }
      var out: seq<DirEntry>, i := [], 0;
      assert slots[..][..0] == [];
      while i < MAX_INODES && |out| < max
        invariant i <= MAX_INODES && |out| <= max
        invariant out == Listing(slots[..][..i], p.value)
      {
        ghost var s := slots[..];
        assert s[..i + 1][..i] == s[..i] && s[..i + 1][i] == slots[i];
        if slots[i].Node? {
          NameIsNormal(i);
          ChildIffParent(p.value, slots[i].name);
          var child := ChildName(p.value, slots[i].name);
          if child.Some? {
            out := out + [DirEntry(child.value, slots[i].isDir)];
          }
        }
        i := i + 1;
      }
      ListingPrefix(slots[..], p.value, i);
      assert slots[..][..MAX_INODES] == slots[..];
      return Some(out);
    }

    lemma NameIsNormal(i: nat)
      requires Valid() && i < MAX_INODES && slots[i].Node?
      ensures IsNormal(slots[i].name) && |slots[i].name| <= MAX_PATH && slots[i].name in Abs().tree
      ensures slots[i].size <= |slots[i].data| && Abs().tree[slots[i].name] == EntryOf(slots[i])
    {
      hide TreeOf, IsNormal, Parent;
      TreeLookup(slots[..], i);
    }

    /** Frees the slot of an entry that no descriptor uses. */
    method RemoveInode(i: nat)
      requires TablesOk() && i < MAX_INODES && slots[i].Node?
      requires forall k :: 0 <= k < MAX_FDS && fds[k].Using? ==> fds[k].inode != i
      modifies slots
      ensures TablesOk() && Abs() == old(Abs()).(tree := old(Abs()).tree - {old(slots[i].name)})
    {
      hide TreeOf, Handles, SlotsOk;
      TreeDrop(slots[..], i);
      HandlesKept(fds[..], slots[..], slots[..][i := Free]);
      slots[i] := Free;
      assert slots[..] == old(slots[..])[i := Free];
    }

    /** Whether a descriptor uses this inode. */
    method InUse(i: nat) returns (used: bool)
      requires TablesOk() && i < MAX_INODES && slots[i].Node?
      ensures used <==> exists k :: 0 <= k < MAX_FDS && fds[k].Using? && fds[k].inode == i
      ensures used <==> HeldOpen(Abs(), slots[i].name)
    {
      hide TreeOf;
      var k := 0;
      while k < MAX_FDS && !(fds[k].Using? && fds[k].inode == i)
        invariant k <= MAX_FDS
        invariant forall j :: 0 <= j < k ==> !(fds[j].Using? && fds[j].inode == i)
      {
        k := k + 1;
      }
      used := k < MAX_FDS;
      if used {
        assert Abs().fds[k].Opened? && Abs().fds[k].name == slots[i].name;
      }
    }

    method Rd(path: string) returns (r: int)
      requires Valid()
      modifies slots
      ensures Valid() && (Abs(), r) == FileTree.Rd(old(Abs()), path)
    {
      hide TreeOf, Handles, SlotsOk, FdsOk, Inv, Normalize, Parent, IsNormal, HasChildren, HeldOpen;
      RdKeepsInv(Abs(), path);
      var p := NormalizePath(path);
      if p.None? || p.value == "/" {
        return -1;
      }
      NormalizeNormal(path);
      var i := FindInode(p.value);
      if i == MAX_INODES || !slots[i].isDir {
        return -1;
      }
      if |p.value| + 1 >= MAX_PATH + 1 {
        return -1;
      }
      var empty := NothingUnder(p.value);
      if !empty {
        return -1;
      }
      var used := InUse(i);
      DirectoriesAreNotOpen(Abs(), p.value);
      if used {
        return -1;
      }
      RemoveInode(i);
      return 0;
    }

    /** Whether no name starts with the directory's name and a slash. */
    method NothingUnder(dir: string) returns (empty: bool)
      requires Valid() && dir != "/" && IsDir(Abs().tree, dir)
      ensures empty <==> !HasChildren(Abs().tree, dir)
    {
      hide TreeOf, Handles, SlotsOk, FdsOk, IsNormal, Parent, HasChildren;
      var j := 0;
      while j < MAX_INODES && !(slots[j].Node? && slots[j].name != dir && dir + "/" <= slots[j].name)
        invariant j <= MAX_INODES
        invariant forall k :: 0 <= k < j && slots[k].Node? ==> !(dir + "/" <= slots[k].name)
      {
        j := j + 1;
      }
      empty := j == MAX_INODES;
      DescendantIffChild(Abs().tree, dir);
      if !empty {
        NameIsNormal(j);
        assert slots[j].name in Abs().tree && dir + "/" <= slots[j].name;
      } else if n :| n in Abs().tree && dir + "/" <= n {
        ghost var k := TreeIndex(slots[..], n);
        assert false;
      }
    }

    method Unlink(path: string) returns (r: int)
      requires Valid()
      modifies slots
      ensures Valid() && (Abs(), r) == FileTree.Unlink(old(Abs()), path)
    {
      hide TreeOf, Handles, SlotsOk, FdsOk, Inv, Normalize, IsNormal, HeldOpen;
      UnlinkKeepsInv(Abs(), path);
      var p := NormalizePath(path);
      if p.None? || p.value == "/" {
        return -1;
      }
      var i := FindInode(p.value);
      if i == MAX_INODES || slots[i].isDir {
        return -1;
      }
      var used := InUse(i);
      if used {
        return -1;
      }
      RemoveInode(i);
      return 0;
    }
  }

  lemma RootOnly(s: seq<Inode>)
    requires |s| > 0 && s[0] == Node(true, "/", [], 0) && forall i :: 1 <= i < |s| ==> s[i].Free?
    ensures SlotsOk(s) && TreeOf(s) == map["/" := Dir]
  {
    assert SlotsOk(s);
    TreeLookup(s, 0);
  }

  lemma SliceOfPrefix(data: seq<Byte>, size: nat, lo: nat, hi: nat)
    requires lo <= hi <= size <= |data|
    ensures data[..size][lo..hi] == data[lo..hi]
  {
  }

  lemma SizeFits(s: seq<Inode>, i: nat)
    requires SlotsOk(s) && i < |s| && s[i].Node?
    ensures s[i].size <= |s[i].data|
  {
  }

  lemma {:induction false} ListingPrefix(s: seq<Inode>, dir: string, i: nat)
    requires i <= |s|
    ensures Listing(s[..i], dir) <= Listing(s, dir)
  {
    if i < |s| {
      ListingPrefix(s[..|s| - 1], dir, i);
      assert s[..|s| - 1][..i] == s[..i];
    } else {
      assert s[..i] == s;
    }
  }

  lemma DirectoriesAreNotOpen(fs: Fs, p: string)
    requires Inv(fs) && IsDir(fs.tree, p)
    ensures !HeldOpen(fs, p)
  {
    hide TreeOk;
  }

  /** Splicing into the buffer overwrites the file. */
  lemma SpliceIsOverwrite(data: seq<Byte>, size: nat, offset: nat, buf: seq<Byte>, gap: seq<Byte>)
    requires size <= |data| && offset + |buf| <= |data|
    requires gap == if offset <= size then [] else data[size..offset]
    ensures
      var end := offset + |buf|;
      var newSize := if end > size then end else size;
      && |Splice(data, offset, buf)| == |data|
      && Splice(data, offset, buf)[..newSize] == Overwritten(data[..size], offset, buf, gap)
  {
    var head := if offset <= size then data[..size][..offset] else data[..size] + gap;
    assert head == data[..offset];
    var end := offset + |buf|;
    if end <= size {
      assert data[..size][end..] == data[end..][..size - end];
    }
  }
}
