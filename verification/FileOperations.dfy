/** What each file system call answers and does, exactly, and how calls undo or repeat each other. */
module FileOperations {
  import opened Bytes
  import opened Paths
  import opened FileTree

  /** The two trees have the same entries everywhere but at `p`. */
  ghost predicate SameElsewhere(t: Tree, u: Tree, p: string)
  {
    forall n :: n in t || n in u ==> n == p || (n in t && n in u && u[n] == t[n])
  }

  /** The descriptors agree everywhere but at `fd`. */
  predicate SameHandles(a: seq<Handle>, b: seq<Handle>, fd: int)
  {
    |a| == |b| && forall k :: 0 <= k < |a| && k + FD_OFFSET != fd ==> a[k] == b[k]
  }

  /** Descriptors start at 3, and this one is open with these rights. */
  predicate OpenFor(fs: Fs, fd: int, read: bool, write: bool)
  {
    && 3 <= fd < 3 + |fs.fds| && fs.fds[fd - 3].Opened?
    && (read ==> fs.fds[fd - 3].flags.read) && (write ==> fs.fds[fd - 3].flags.write)
  }

  predicate SomeClosed(fds: seq<Handle>)
  {
    exists k :: 0 <= k < |fds| && fds[k].Closed?
  }

  // ----- Opening -----

  /** The path names a file, or one that may be made. */
  predicate Openable(fs: Fs, path: string, create: bool)
  {
    && Normalize(path).Some?
    && var p := Normalize(path).value;
    p != "/" && (IsFile(fs.tree, p) || (create && p !in fs.tree && IsDir(fs.tree, Parent(p)) && |fs.tree| < MAX_INODES))
  }

  /** Opening answers a descriptor exactly when the file is there or can be made and a descriptor is free: the lowest
      free one, at offset 0, on that file.  The file is empty if it was made or truncated, and as it was otherwise;
      no other entry and no other descriptor changes. */
  lemma OpenExact(fs: Fs, path: string, flags: Flags)
    requires Inv(fs)
    ensures var (g, r) := Open(fs, path, flags);
      var ok := Openable(fs, path, flags.create);
      && (r >= FD_OFFSET <==> ok && SomeClosed(fs.fds)) && (r >= FD_OFFSET || r == -1)
      && (!ok ==> g == fs)
      && (ok ==>
            var p := Normalize(path).value;
            var kept := p in fs.tree && !(flags.truncate && flags.write);
            && SameElsewhere(fs.tree, g.tree, p)
            && IsFile(g.tree, p) && g.tree[p] == (if kept then fs.tree[p] else File([])))
      && (r == -1 ==> g.fds == fs.fds)
      && (r >= FD_OFFSET ==>
            && IsOpen(g, r) && !IsOpen(fs, r) && (forall k :: FD_OFFSET <= k < r ==> IsOpen(fs, k))
            && g.fds[r - FD_OFFSET] == Opened(Normalize(path).value, 0, flags)
            && SameHandles(fs.fds, g.fds, r))
  {
    hide Normalize, Parent, TreeOk;
  }

  // ----- Reading and writing -----

  /** Reading fails exactly on a descriptor that is not open for reading; it moves that descriptor by what it read
      and changes nothing else. */
  lemma ReadExact(fs: Fs, fd: int, count: nat)
    requires Inv(fs)
    ensures var (g, r) := Read(fs, fd, count);
      && (r.Some? <==> OpenFor(fs, fd, true, false))
      && g.tree == fs.tree && SameHandles(fs.fds, g.fds, fd)
      && (r.None? ==> g == fs)
      && (r.Some? ==>
            var h := fs.fds[fd - FD_OFFSET];
            var bytes := fs.tree[h.name].bytes;
            && g.fds[fd - FD_OFFSET] == h.(offset := h.offset + |r.value|)
            && |r.value| == (if h.offset >= |bytes| then 0 else Min(count, |bytes| - h.offset))
            && forall i :: 0 <= i < |r.value| ==> r.value[i] == bytes[h.offset + i])
  {
    hide TreeOk;
  }

  lemma JoinedSlices(s: seq<Byte>, i: nat, j: nat, k: nat)
    requires i <= j <= k <= |s|
    ensures s[i..j] + s[j..k] == s[i..k]
  {
  }

  /** Reading in two parts reads what reading at once does. */
  lemma ReadInParts(fs: Fs, fd: int, m: nat, n: nat)
    requires Inv(fs) && Readable(fs, fd)
    ensures Inv(Read(fs, fd, m).0)
    ensures var (g, a) := Read(fs, fd, m);
      var (h, b) := Read(g, fd, n);
      a.Some? && b.Some? && Read(fs, fd, m + n) == (h, Some(a.value + b.value))
  {
    hide TreeOk;
    ReadCloseKeepInv(fs, fd, m);
    var k := fd - FD_OFFSET;
    var f := fs.fds[k];
    var bytes := fs.tree[f.name].bytes;
    var (g, a) := Read(fs, fd, m);
    var (h, b) := Read(g, fd, n);
    if f.offset < |bytes| {
      var x := Min(m, |bytes| - f.offset);
      var y := Min(m + n, |bytes| - f.offset);
      var moved := f.(offset := f.offset + y);
      assert g.tree == fs.tree && g.fds == fs.fds[k := f.(offset := f.offset + x)];
      JoinedSlices(bytes, f.offset, f.offset + x, f.offset + y);
      assert fs.fds[k := f.(offset := f.offset + x)][k := moved] == fs.fds[k := moved];
      if f.offset + x >= |bytes| {
        assert y == x && a.value + [] == a.value;
      }
    } else {
      assert g == fs && h == fs && a.value + b.value == [];
    }
  }

  /** Writing fails exactly on a descriptor that is not open for writing; otherwise it answers the number of bytes,
      moves that descriptor by it, and changes the contents of that file only. */
  lemma WriteExact(fs: Fs, fd: int, buf: seq<Byte>, gap: seq<Byte>)
    requires Inv(fs) && |gap| == Hole(fs, fd)
    ensures var (g, r) := Write(fs, fd, buf, gap);
      && (r == -1 <==> !OpenFor(fs, fd, false, true)) && (r == -1 || r == |buf|)
      && (r == -1 ==> g == fs)
      && SameHandles(fs.fds, g.fds, fd)
      && (r >= 0 ==>
            var h := fs.fds[fd - FD_OFFSET];
            && g.fds[fd - FD_OFFSET] == h.(offset := h.offset + |buf|)
            && IsFile(g.tree, h.name) && SameElsewhere(fs.tree, g.tree, h.name))
  {
    hide TreeOk, Overwritten;
  }

  /** Writing in two parts writes what writing at once does. */
  lemma WriteInParts(fs: Fs, fd: int, a: seq<Byte>, b: seq<Byte>, gap: seq<Byte>)
    requires Inv(fs) && Writable(fs, fd) && |gap| == Hole(fs, fd)
    ensures Inv(Write(fs, fd, a, gap).0)
    ensures var g := Write(fs, fd, a, gap).0;
      Hole(g, fd) == 0 && Write(g, fd, b, []).0 == Write(fs, fd, a + b, gap).0
  {
    hide TreeOk, Overwritten;
    WriteKeepsInv(fs, fd, a, gap);
    var k := fd - FD_OFFSET;
    var h := fs.fds[k];
    var bytes := fs.tree[h.name].bytes;
    OverwrittenAt(bytes, h.offset, a, gap, 0);
    OverwrittenTwice(bytes, h.offset, a, b, gap);
    var once := Overwritten(bytes, h.offset, a, gap);
    assert Write(fs, fd, a, gap).0.tree[h.name] == File(once);
    var both := File(Overwritten(bytes, h.offset, a + b, gap));
    assert fs.tree[h.name := File(once)][h.name := both] == fs.tree[h.name := both];
  }

  lemma OverwrittenTwice(bytes: seq<Byte>, offset: nat, a: seq<Byte>, b: seq<Byte>, gap: seq<Byte>)
    requires |gap| == if offset <= |bytes| then 0 else offset - |bytes|
    ensures var once := Overwritten(bytes, offset, a, gap);
      && offset + |a| <= |once|
      && Overwritten(once, offset + |a|, b, []) == Overwritten(bytes, offset, a + b, gap)
  {
    var once := Overwritten(bytes, offset, a, gap);
    var head := if offset <= |bytes| then bytes[..offset] else bytes + gap;
    assert |head| == offset;
    assert once[..offset + |a|] == head + a;
    assert head + a + b == head + (a + b);
    if offset + |a| + |b| <= |bytes| {
      assert once[offset + |a| + |b|..] == bytes[offset + |a + b|..];
    }
  }

  /** Closing answers 0 exactly on an open descriptor, and frees that one only. */
  lemma CloseExact(fs: Fs, fd: int)
    ensures var (g, r) := Close(fs, fd);
      && (r == 0 <==> OpenFor(fs, fd, false, false)) && (r == 0 || r == -1) && !OpenFor(g, fd, false, false)
      && g.tree == fs.tree && SameHandles(fs.fds, g.fds, fd)
  {
  }

  // ----- Directories -----

  /** Making a directory answers 0 exactly when it is one afterwards because it already was, or because its name was
      free, its parent is a directory and there is room; only then and only there does the tree change. */
  lemma MdExact(fs: Fs, path: string)
    requires Inv(fs)
    ensures var (g, r) := Md(fs, path);
      var p := Normalize(path);
      var there := p.Some? && IsDir(fs.tree, p.value);
      var room := p.Some? && p.value !in fs.tree && IsDir(fs.tree, Parent(p.value)) && |fs.tree| < MAX_INODES;
      && (r == 0 <==> there || room) && (r == 0 || r == -1) && g.fds == fs.fds
      && (!room ==> g == fs)
      && (room ==> IsDir(g.tree, p.value) && SameElsewhere(fs.tree, g.tree, p.value))
  {
    hide Normalize, Parent;
    assert IsDir(fs.tree, "/");
  }

  /** Removing a directory answers 0 exactly for an empty directory other than the root whose path leaves room for a
      slash; the directory is then gone and nothing else has changed. */
  lemma RdExact(fs: Fs, path: string)
    requires Inv(fs)
    ensures var (g, r) := Rd(fs, path);
      var p := Normalize(path);
      var empty := p.Some? && forall n :: n in fs.tree && n != "/" ==> Parent(n) != p.value;
      && (r == 0 <==> p.Some? && p.value != "/" && IsDir(fs.tree, p.value) && empty && |p.value| < MAX_PATH)
      && (r == 0 || r == -1) && g.fds == fs.fds
      && (r == -1 ==> g == fs)
      && (r == 0 ==> p.value !in g.tree && SameElsewhere(fs.tree, g.tree, p.value))
  {
    hide Normalize, Parent;
    var p := Normalize(path);
    if p.Some? {
      NormalizeNormal(path);
      if !HasChildren(fs.tree, p.value) {
        forall n | n in fs.tree && n != "/" ensures Parent(n) != p.value {
          assert !ChildOf(fs.tree, p.value, n);
        }
      }
    }
  }

  // ----- Unlinking -----

  /** Unlinking answers 0 exactly for a file that no descriptor holds, whatever its contents; the file is then gone,
      opening it without creating fails, and no other entry and no descriptor has changed. */
  lemma UnlinkExact(fs: Fs, path: string, flags: Flags)
    requires Inv(fs)
    ensures var (g, r) := Unlink(fs, path);
      var p := Normalize(path);
      var held := p.Some? && exists k :: 0 <= k < |fs.fds| && fs.fds[k].Opened? && fs.fds[k].name == p.value;
      && (r == 0 <==> p.Some? && IsFile(fs.tree, p.value) && !held)
      && (r == 0 || r == -1) && g.fds == fs.fds
      && (r == -1 ==> g == fs)
      && (r == 0 ==> p.value !in g.tree && SameElsewhere(fs.tree, g.tree, p.value))
      && (r == 0 && !flags.create ==> Open(g, path, flags) == (g, -1))
  {
    hide Normalize, TreeOk;
    RootIsDir(fs);
    RemovedElsewhere(fs.tree, if Normalize(path).Some? then Normalize(path).value else "");
  }

  lemma RootIsDir(fs: Fs)
    requires Inv(fs)
    ensures IsDir(fs.tree, "/")
  {
  }

  lemma RemovedElsewhere(t: Tree, p: string)
    ensures p !in t - {p} && SameElsewhere(t, t - {p}, p)
  {
  }

  /** A file that was closed by everyone can always be removed and made again, empty. */
  lemma UnlinkThenCreate(fs: Fs, path: string, flags: Flags)
    requires Inv(fs) && flags.create && SomeClosed(fs.fds) && Unlink(fs, path).1 == 0
    ensures var g := Unlink(fs, path).0;
      var (h, r) := Open(g, path, flags);
      r >= FD_OFFSET && IsFile(h.tree, Normalize(path).value) && h.tree[Normalize(path).value] == File([])
  {
    hide Normalize, Parent;
    var p := Normalize(path).value;
    NormalizeNormal(path);
    var g := Unlink(fs, path).0;
    UnlinkKeepsInv(fs, path);
    assert g.tree.Keys == fs.tree.Keys - {p};
    ParentStays(fs, p);
    OpenExact(g, path, flags);
  }

  lemma ParentStays(fs: Fs, p: string)
    requires Inv(fs) && IsFile(fs.tree, p)
    ensures p != "/" && IsDir(fs.tree, Parent(p)) && Parent(p) != p
  {
    hide Parent, IsNormal;
    assert IsDir(fs.tree, "/");
  }
}
