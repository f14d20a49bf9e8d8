/** The RAM file system as its callers see it: a tree of named files and directories, and the open
    descriptors. */
module FileTree {
  import opened Bytes
  import opened Paths

  const MAX_INODES: nat := 64
  const MAX_FDS: nat := 32
  /** Descriptors 0, 1 and 2 are the console's. */
  const FD_OFFSET: nat := 3

  datatype Entry = Dir | File(bytes: seq<Byte>)
  type Tree = map<string, Entry>

  datatype Flags = Flags(read: bool, write: bool, create: bool, truncate: bool)
  datatype Handle = Closed | Opened(name: string, offset: nat, flags: Flags)
  datatype Fs = Fs(tree: Tree, fds: seq<Handle>)

  predicate IsDir(t: Tree, p: string)
  {
    p in t && t[p].Dir?
  }

  predicate IsFile(t: Tree, p: string)
  {
    p in t && t[p].File?
  }

  /** What every operation keeps: a rooted tree whose names are normalized and whose every entry sits in
      an existing directory. */
  predicate TreeOk(t: Tree)
  {
    && IsDir(t, "/")
    && (forall n :: n in t ==> IsNormal(n) && |n| <= MAX_PATH)
    && (forall n :: n in t && n != "/" ==> IsDir(t, Parent(n)))
  }

  predicate Inv(fs: Fs)
  {
    && TreeOk(fs.tree) && |fs.tree| <= MAX_INODES
    && |fs.fds| == MAX_FDS
    && forall k :: 0 <= k < |fs.fds| && fs.fds[k].Opened? ==> IsFile(fs.tree, fs.fds[k].name)
  }

  // ----- Operations -----

  const EMPTY: Fs := Fs(map["/" := Dir], seq(MAX_FDS, i => Closed))

  /** The lowest closed descriptor, or the table size. */
  function FirstClosed(fds: seq<Handle>): (k: nat)
    ensures k <= |fds|
    ensures k < |fds| ==> fds[k].Closed?
    ensures forall i :: 0 <= i < k ==> fds[i].Opened?
  {
    if fds == [] || fds[0].Closed? then 0 else 1 + FirstClosed(fds[1..])
  }

  predicate CanCreate(t: Tree, p: string)
  {
    p !in t && p != "/" && IsDir(t, Parent(p)) && |t| < MAX_INODES
  }

  /** Opening a file. A missing file is created and an existing one truncated as the flags ask, even when
      no descriptor is left. */
  function Open(fs: Fs, path: string, flags: Flags): (Fs, int)
  {
    var p := Normalize(path);
    if p.None? || p.value == "/" then (fs, -1)
    else if p.value !in fs.tree && !(flags.create && CanCreate(fs.tree, p.value)) then (fs, -1)
    else if IsDir(fs.tree, p.value) then (fs, -1)
    else
      var keep := p.value in fs.tree && !(flags.truncate && flags.write);
      var t := if keep then fs.tree else fs.tree[p.value := File([])];
      var k := FirstClosed(fs.fds);
      if k == |fs.fds| then (Fs(t, fs.fds), -1)
      else (Fs(t, fs.fds[k := Opened(p.value, 0, flags)]), k + FD_OFFSET)
  }

  predicate IsOpen(fs: Fs, fd: int)
  {
    FD_OFFSET <= fd < FD_OFFSET + |fs.fds| && fs.fds[fd - FD_OFFSET].Opened?
  }

  predicate Readable(fs: Fs, fd: int)
  {
    IsOpen(fs, fd) && fs.fds[fd - FD_OFFSET].flags.read
  }

  predicate Writable(fs: Fs, fd: int)
  {
    IsOpen(fs, fd) && fs.fds[fd - FD_OFFSET].flags.write
  }

  function Read(fs: Fs, fd: int, count: nat): (Fs, Option<seq<Byte>>)
    requires Inv(fs)
  {
    if !Readable(fs, fd) then (fs, None)
    else
      var k := fd - FD_OFFSET;
      var h := fs.fds[k];
      var bytes := fs.tree[h.name].bytes;
      if h.offset >= |bytes| then (fs, Some([]))
      else
        var n := Min(count, |bytes| - h.offset);
        (fs.(fds := fs.fds[k := h.(offset := h.offset + n)]), Some(bytes[h.offset..h.offset + n]))
  }

  /** The bytes of a file after `buf` is written at `offset`. Past the end, `gap` fills the hole. */
  function Overwritten(bytes: seq<Byte>, offset: nat, buf: seq<Byte>, gap: seq<Byte>): seq<Byte>
    requires |gap| == if offset <= |bytes| then 0 else offset - |bytes|
  {
    var head := if offset <= |bytes| then bytes[..offset] else bytes + gap;
    var tail := if offset + |buf| <= |bytes| then bytes[offset + |buf|..] else [];
    head + buf + tail
  }

  /** How far a write to this descriptor would start past the end of its file. */
  function Hole(fs: Fs, fd: int): nat
    requires Inv(fs)
  {
    if !IsOpen(fs, fd) then 0
    else
      var h := fs.fds[fd - FD_OFFSET];
      var size := |fs.tree[h.name].bytes|;
      if h.offset <= size then 0 else h.offset - size
  }

  function Write(fs: Fs, fd: int, buf: seq<Byte>, gap: seq<Byte>): (Fs, int)
    requires Inv(fs) && |gap| == Hole(fs, fd)
  {
    if !Writable(fs, fd) then (fs, -1)
    else
      var k := fd - FD_OFFSET;
      var h := fs.fds[k];
      var bytes := Overwritten(fs.tree[h.name].bytes, h.offset, buf, gap);
      (Fs(fs.tree[h.name := File(bytes)], fs.fds[k := h.(offset := h.offset + |buf|)]), |buf|)
  }

  function Close(fs: Fs, fd: int): (Fs, int)
  {
    if !IsOpen(fs, fd) then (fs, -1) else (fs.(fds := fs.fds[fd - FD_OFFSET := Closed]), 0)
  }

  function Md(fs: Fs, path: string): (Fs, int)
  {
    var p := Normalize(path);
    if p.None? then (fs, -1)
    else if p.value == "/" then (fs, 0)
    else if p.value in fs.tree then (fs, if IsDir(fs.tree, p.value) then 0 else -1)
    else if !CanCreate(fs.tree, p.value) then (fs, -1)
    else (fs.(tree := fs.tree[p.value := Dir]), 0)
  }

  predicate ChildOf(t: Tree, dir: string, n: string)
  {
    n in t && n != "/" && Parent(n) == dir
  }

  predicate HasChildren(t: Tree, dir: string)
  {
    exists n :: n in t && ChildOf(t, dir, n)
  }

  /** Removing a directory: it must be empty, and its name must leave room for a slash. */
  function Rd(fs: Fs, path: string): (Fs, int)
  {
    var p := Normalize(path);
    if p.None? || p.value == "/" || !IsDir(fs.tree, p.value) then (fs, -1)
    else if |p.value| == MAX_PATH || HasChildren(fs.tree, p.value) then (fs, -1)
    else (fs.(tree := fs.tree - {p.value}), 0)
  }

  predicate HeldOpen(fs: Fs, p: string)
  {
    exists k :: 0 <= k < |fs.fds| && fs.fds[k].Opened? && fs.fds[k].name == p
  }

  function Unlink(fs: Fs, path: string): (Fs, int)
  {
    var p := Normalize(path);
    if p.None? || p.value == "/" || !IsFile(fs.tree, p.value) || HeldOpen(fs, p.value) then (fs, -1)
    else (fs.(tree := fs.tree - {p.value}), 0)
  }

  // ----- Invariance -----

  lemma AddKeepsTree(t: Tree, p: string, e: Entry)
    requires TreeOk(t) && IsNormal(p) && |p| <= MAX_PATH && p !in t && IsDir(t, Parent(p))
    ensures TreeOk(t[p := e])
  {
    hide IsNormal, Parent;
  }

  lemma RefileKeepsTree(t: Tree, p: string, bytes: seq<Byte>)
    requires TreeOk(t) && IsFile(t, p)
    ensures TreeOk(t[p := File(bytes)]) && t[p := File(bytes)].Keys == t.Keys
    ensures |t[p := File(bytes)]| == |t|
  {
    hide IsNormal, Parent;
    assert t[p := File(bytes)].Keys == t.Keys;
  }

  lemma RemoveKeepsTree(t: Tree, p: string)
    requires TreeOk(t) && p in t && p != "/" && !HasChildren(t, p)
    ensures TreeOk(t - {p}) && |t - {p}| <= |t|
  {
    hide IsNormal, Parent;
    var u := t - {p};
    forall n | n in u && n != "/" ensures IsDir(u, Parent(n)) {
      assert IsDir(t, Parent(n));
      assert ChildOf(t, Parent(n), n);
    }
    assert u.Keys == t.Keys - {p};
  }

  lemma AddedSize(t: Tree, p: string, e: Entry)
    requires p !in t
    ensures |t[p := e]| == |t| + 1
  {
    assert t[p := e].Keys == t.Keys + {p};
  }

  /** A file has no children, so removing it leaves a tree. */
  lemma FilesHaveNoChildren(t: Tree, p: string)
    requires TreeOk(t) && IsFile(t, p)
    ensures !HasChildren(t, p)
  {
    hide IsNormal, Parent;
  }

  lemma OpenKeepsInv(fs: Fs, path: string, flags: Flags)
    requires Inv(fs)
    ensures Inv(Open(fs, path, flags).0)
  {
    hide IsNormal, Parent, Normalize;
    var p := Normalize(path);
    if p.Some? {
      NormalizeNormal(path);
      if p.value !in fs.tree && CanCreate(fs.tree, p.value) {
        AddKeepsTree(fs.tree, p.value, File([]));
        AddedSize(fs.tree, p.value, File([]));
      }
      if IsFile(fs.tree, p.value) {
        RefileKeepsTree(fs.tree, p.value, []);
      }
    }
  }

  lemma WriteKeepsInv(fs: Fs, fd: int, buf: seq<Byte>, gap: seq<Byte>)
    requires Inv(fs) && |gap| == Hole(fs, fd)
    ensures Inv(Write(fs, fd, buf, gap).0)
  {
    hide IsNormal, Parent, Overwritten;
    if Writable(fs, fd) {
      var h := fs.fds[fd - FD_OFFSET];
      RefileKeepsTree(fs.tree, h.name, Overwritten(fs.tree[h.name].bytes, h.offset, buf, gap));
    }
  }

  lemma ReadCloseKeepInv(fs: Fs, fd: int, count: nat)
    requires Inv(fs)
    ensures Inv(Read(fs, fd, count).0) && Inv(Close(fs, fd).0)
    ensures Read(fs, fd, count).0.tree == fs.tree && Close(fs, fd).0.tree == fs.tree
  {
    hide TreeOk;
  }

  lemma MdKeepsInv(fs: Fs, path: string)
    requires Inv(fs)
    ensures Inv(Md(fs, path).0)
  {
    hide IsNormal, Parent, Normalize;
    var p := Normalize(path);
    if p.Some? {
      NormalizeNormal(path);
      if CanCreate(fs.tree, p.value) {
        AddKeepsTree(fs.tree, p.value, Dir);
        AddedSize(fs.tree, p.value, Dir);
      }
    }
  }

  lemma RdKeepsInv(fs: Fs, path: string)
    requires Inv(fs)
    ensures Inv(Rd(fs, path).0)
  {
    hide IsNormal, Parent, Normalize, HasChildren;
    var p := Normalize(path);
    if p.Some? && p.value != "/" && IsDir(fs.tree, p.value) && !HasChildren(fs.tree, p.value) {
      RemoveKeepsTree(fs.tree, p.value);
    }
  }

  lemma UnlinkKeepsInv(fs: Fs, path: string)
    requires Inv(fs)
    ensures Inv(Unlink(fs, path).0)
  {
    hide IsNormal, Parent, Normalize, HasChildren;
    var p := Normalize(path);
    if p.Some? && p.value != "/" && IsFile(fs.tree, p.value) && !HeldOpen(fs, p.value) {
      FilesHaveNoChildren(fs.tree, p.value);
      RemoveKeepsTree(fs.tree, p.value);
    }
  }

  // ----- What calls undo, and what a write leaves -----

  lemma OrphansHaveNoParent(t: Tree, p: string, e: Entry)
    requires TreeOk(t) && p !in t && IsNormal(p) && p != "/"
    ensures !HasChildren(t[p := e], p)
  {
    SplitNormal(p);
    hide IsNormal, Parent;
    assert Parent(p) != p;
    assert forall n :: n in t[p := e] && n != p ==> n in t;
  }

  /** Removing a directory just made puts the file system back, if its name leaves room for a slash. */
  lemma MdThenRd(fs: Fs, path: string)
    requires Inv(fs) && Normalize(path).Some? && CanCreate(fs.tree, Normalize(path).value)
    ensures
      var (a, made) := Md(fs, path);
      made == 0 && Rd(a, path) == if |Normalize(path).value| < MAX_PATH then (fs, 0) else (a, -1)
  {
    hide Normalize, IsNormal, Parent, HasChildren;
    var p := Normalize(path).value;
    NormalizeNormal(path);
    OrphansHaveNoParent(fs.tree, p, Dir);
    assert fs.tree[p := Dir] - {p} == fs.tree;
  }

  /** A directory of the root whose name takes all sixty-three characters can be made and not removed. */
  lemma LongNameStays()
    ensures Inv(EMPTY)
    ensures
      var path := "/" + seq(62, _ => 'd');
      && Normalize(path) == Some(path)
      && Md(EMPTY, path).1 == 0 && Rd(Md(EMPTY, path).0, path) == (Md(EMPTY, path).0, -1)
  {
    hide Normalize, Parent;
    EmptyInv();
    var name: string := seq(62, _ => 'd');
    var path := "/" + name;
    assert IsName(name) by {
      assert forall c :: c in name ==> c == 'd';
    }
    JoinNormal("/", name);
    NormalizeIdempotent(path);
    assert |EMPTY.tree| == 1 by {
      assert EMPTY.tree.Keys == {"/"};
    }
    MdThenRd(EMPTY, path);
  }

  /** Unlinking a file just created and closed puts the file system back. */
  lemma CreateThenUnlink(fs: Fs, path: string, flags: Flags)
    requires Inv(fs) && flags.create && Normalize(path).Some? && CanCreate(fs.tree, Normalize(path).value)
    requires FirstClosed(fs.fds) < MAX_FDS
    ensures
      var (a, fd) := Open(fs, path, flags);
      fd >= 0 && Close(a, fd).1 == 0 && Unlink(Close(a, fd).0, path) == (fs, 0)
  {
    hide Normalize, IsNormal, Parent, TreeOk;
    var p := Normalize(path).value;
    var k := FirstClosed(fs.fds);
    var (a, fd) := Open(fs, path, flags);
    assert fs.fds[k := Opened(p, 0, flags)][k := Closed] == fs.fds;
    assert Close(a, fd).0 == Fs(fs.tree[p := File([])], fs.fds);
    assert !HeldOpen(Close(a, fd).0, p);
    assert fs.tree[p := File([])] - {p} == fs.tree;
  }

  /** Each byte after a write: from the buffer inside the written range, as it was before it and after
      it, and from the hole between. */
  lemma OverwrittenAt(bytes: seq<Byte>, offset: nat, buf: seq<Byte>, gap: seq<Byte>, k: nat)
    requires |gap| == if offset <= |bytes| then 0 else offset - |bytes|
    ensures |Overwritten(bytes, offset, buf, gap)| == if offset + |buf| > |bytes| then offset + |buf| else |bytes|
    ensures
      var after := Overwritten(bytes, offset, buf, gap);
      k < |after| ==>
        after[k] ==
          if offset <= k < offset + |buf| then buf[k - offset]
          else if k < |bytes| then bytes[k]
          else gap[k - |bytes|]
  {
  }

  /** What a second descriptor reads after a write: its part of the file as overwritten.  At the same offset that
      is the data itself. */
  lemma ReadsWhatWasWritten(fs: Fs, fd: int, other: int, data: seq<Byte>, gap: seq<Byte>, count: nat)
    requires Inv(fs) && Writable(fs, fd) && Readable(fs, other) && fd != other && |gap| == Hole(fs, fd)
    requires fs.fds[fd - FD_OFFSET].name == fs.fds[other - FD_OFFSET].name
    ensures Inv(Write(fs, fd, data, gap).0)
    ensures
      var w, r := fs.fds[fd - FD_OFFSET], fs.fds[other - FD_OFFSET];
      var after := Overwritten(fs.tree[w.name].bytes, w.offset, data, gap);
      var got := Read(Write(fs, fd, data, gap).0, other, count).1;
      && got == Some(if r.offset >= |after| then [] else after[r.offset..r.offset + Min(count, |after| - r.offset)])
      && (r.offset == w.offset && count <= |data| ==> got == Some(data[..count]))
  {
    hide TreeOk;
    WriteKeepsInv(fs, fd, data, gap);
    var w := fs.fds[fd - FD_OFFSET];
    OverwrittenSlice(fs.tree[w.name].bytes, w.offset, data, gap, count);
  }

  lemma OverwrittenSlice(bytes: seq<Byte>, offset: nat, buf: seq<Byte>, gap: seq<Byte>, count: nat)
    requires |gap| == if offset <= |bytes| then 0 else offset - |bytes|
    ensures |Overwritten(bytes, offset, buf, gap)| >= offset + |buf|
    ensures count <= |buf| ==> Overwritten(bytes, offset, buf, gap)[offset..offset + count] == buf[..count]
  {
  }

  // ----- Runs -----

  datatype Op =
    | OpOpen(path: string, flags: Flags)
    | OpRead(fd: int, count: nat)
    | OpWrite(fd: int, buf: seq<Byte>, gap: seq<Byte>)
    | OpClose(fd: int)
    | OpMd(path: string)
    | OpRd(path: string)
    | OpUnlink(path: string)

  /** One call; a gap of the wrong size is no call. */
  function Step(fs: Fs, op: Op): Fs
    requires Inv(fs)
  {
    match op
    case OpOpen(path, flags) => Open(fs, path, flags).0
    case OpRead(fd, count) => Read(fs, fd, count).0
    case OpWrite(fd, buf, gap) => if |gap| == Hole(fs, fd) then Write(fs, fd, buf, gap).0 else fs
    case OpClose(fd) => Close(fs, fd).0
    case OpMd(path) => Md(fs, path).0
    case OpRd(path) => Rd(fs, path).0
    case OpUnlink(path) => Unlink(fs, path).0
  }

  lemma StepKeepsInv(fs: Fs, op: Op)
    requires Inv(fs)
    ensures Inv(Step(fs, op))
  {
    hide Inv, Open, Read, Write, Close, Md, Rd, Unlink, Hole;
    match op
    case OpOpen(path, flags) => OpenKeepsInv(fs, path, flags);
    case OpRead(fd, count) => ReadCloseKeepInv(fs, fd, count);
    case OpWrite(fd, buf, gap) =>
      if |gap| == Hole(fs, fd) {
        WriteKeepsInv(fs, fd, buf, gap);
      }
    case OpClose(fd) => ReadCloseKeepInv(fs, fd, 0);
    case OpMd(path) => MdKeepsInv(fs, path);
    case OpRd(path) => RdKeepsInv(fs, path);
    case OpUnlink(path) => UnlinkKeepsInv(fs, path);
  }

  ghost predicate Reaches(fs: Fs, ops: seq<Op>, last: Fs)
    requires Inv(fs)
    decreases |ops|
  {
    if ops == [] then last == fs
    else
      StepKeepsInv(fs, ops[0]);
      Reaches(Step(fs, ops[0]), ops[1..], last)
  }

  lemma EmptyInv()
    ensures Inv(EMPTY)
  {
    assert |EMPTY.tree| == 1 by {
      assert EMPTY.tree.Keys == {"/"};
    }
  }

  /** Every state any sequence of calls leads to is a well-formed tree with live descriptors. */
  lemma {:induction false} TreeSafe(fs: Fs, ops: seq<Op>, last: Fs)
    requires Inv(fs) && Reaches(fs, ops, last)
    ensures Inv(last)
    decreases |ops|
  {
    if ops != [] {
      StepKeepsInv(fs, ops[0]);
      TreeSafe(Step(fs, ops[0]), ops[1..], last);
    }
  }

  /** Above every entry under a directory's name sits a direct child of the directory. */
  lemma {:induction false} Ancestor(t: Tree, n: string, dir: string) returns (child: string)
    requires TreeOk(t) && n in t && IsNormal(dir) && dir != "/" && dir + "/" <= n
    ensures ChildOf(t, dir, child)
    decreases |n|
  {
    SplitNormal(n);
    OneIsRoot(n);
    if Parent(n) == dir {
      child := n;
    } else {
      PrefixOfParent(n, dir);
      child := Ancestor(t, Parent(n), dir);
    }
  }

  lemma PrefixOfParent(n: string, dir: string)
    requires IsNormal(n) && IsNormal(dir) && dir != "/" && dir + "/" <= n && n != "/" && Parent(n) != dir
    ensures Parent(n) != "/" && dir + "/" <= Parent(n)
  {
    var k := LastSlash(n);
    assert n[|dir|] == '/';
    OneIsRoot(dir);
    assert k >= |dir|;
    assert n[..|dir|] == dir;
    assert Parent(n) == n[..k];
  }

  /** A directory has a descendant exactly when it has a direct child. */
  lemma DescendantIffChild(t: Tree, dir: string)
    requires TreeOk(t) && IsDir(t, dir) && dir != "/"
    ensures (exists n :: n in t && dir + "/" <= n) <==> HasChildren(t, dir)
  {
    hide Parent, IsNormal;
    if n :| n in t && dir + "/" <= n {
      var child := Ancestor(t, n, dir);
    }
    if HasChildren(t, dir) {
      var n :| n in t && ChildOf(t, dir, n);
      ChildStartsWith(dir, n);
    }
  }
}
