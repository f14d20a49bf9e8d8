/** Replaying snapshot records onto a file system. */
module Replay {
  import opened Bytes
  import opened Paths
  import opened FileTree
  import opened InodeTable
  import opened Snapshot

  const REWRITE: Flags := Flags(false, true, true, true)

  /** Makes the directory before each slash of `path` up to position `i`. */
  function MakeParents(fs: Fs, path: string, i: nat): Fs
    requires i <= |path|
    decreases i
  {
    if i <= 1 then fs
    else
      var a := MakeParents(fs, path, i - 1);
      if path[i - 1] == '/' then Md(a, "/" + path[1..i - 1]).0 else a
  }

  lemma {:induction false} ParentsKeepInv(fs: Fs, path: string, i: nat)
    requires Inv(fs) && i <= |path|
    ensures Inv(MakeParents(fs, path, i))
    decreases i
  {
    hide Inv, Md;
    if i > 1 {
      ParentsKeepInv(fs, path, i - 1);
      MdKeepsInv(MakeParents(fs, path, i - 1), "/" + path[1..i - 1]);
    }
  }

  /** Rewrites one file: its parents are made, then it is created or truncated, and written. */
  function Rewrite(fs: Fs, r: Record): Fs
    requires Inv(fs)
  {
    ParentsKeepInv(fs, r.path, |r.path|);
    var a := MakeParents(fs, r.path, |r.path|);
    OpenKeepsInv(a, r.path, REWRITE);
    var (b, fd) := Open(a, r.path, REWRITE);
    if fd < 0 then b
    else
      OpenedAtStart(a, r.path, REWRITE);
      Close(Write(b, fd, r.data, []).0, fd).0
  }

  lemma OpenedAtStart(fs: Fs, path: string, flags: Flags)
    requires Inv(fs)
    ensures Inv(Open(fs, path, flags).0)
    ensures
      var (b, fd) := Open(fs, path, flags);
      fd >= 0 ==> IsOpen(b, fd) && b.fds[fd - FD_OFFSET].offset == 0 && Hole(b, fd) == 0
  {
    hide TreeOk, Normalize;
    OpenKeepsInv(fs, path, flags);
  }

  lemma RewriteKeepsInv(fs: Fs, r: Record)
    requires Inv(fs)
    ensures Inv(Rewrite(fs, r))
  {
    hide Inv, MakeParents, Open, Write, Close;
    ParentsKeepInv(fs, r.path, |r.path|);
    var a := MakeParents(fs, r.path, |r.path|);
    OpenedAtStart(a, r.path, REWRITE);
    var (b, fd) := Open(a, r.path, REWRITE);
    if fd >= 0 {
      WriteKeepsInv(b, fd, r.data, []);
      ReadCloseKeepInv(Write(b, fd, r.data, []).0, fd, 0);
    }
  }

  ghost function RewriteAll(fs: Fs, rs: seq<Record>): (g: Fs)
    requires Inv(fs)
    ensures Inv(g)
  {
    if rs == [] then fs
    else
      var a := RewriteAll(fs, rs[..|rs| - 1]);
      RewriteKeepsInv(a, rs[|rs| - 1]);
      Rewrite(a, rs[|rs| - 1])
  }

  // ----- Restoring within a known tree -----

  /** Every entry of `t` is an entry of `u`, of the same kind. */
  predicate Within(t: Tree, u: Tree)
  {
    forall n :: n in t ==> n in u && (t[n].Dir? <==> u[n].Dir?)
  }

  /** A tree within another that lacks one of its entries has room for it. */
  lemma RoomFor(t: Tree, u: Tree, n: string)
    requires Within(t, u) && n in u && n !in t
    ensures |t| < |u|
  {
    assert t.Keys <= u.Keys - {n};
    CardMonotone(t.Keys, u.Keys - {n});
    assert |u.Keys - {n}| == |u| - 1;
  }

  lemma {:induction false} CardMonotone<T>(a: set<T>, b: set<T>)
    requires a <= b
    ensures |a| <= |b|
    decreases a
  {
    if a != {} {
      var x :| x in a;
      CardMonotone(a - {x}, b - {x});
    }
  }

  lemma SlashInNormal(p: string, i: nat)
    requires IsNormal(p) && 1 <= i < |p| && p[i] == '/'
    ensures p != "/" && i <= LastSlash(p) < |p| && Parent(p) == p[..LastSlash(p)]
    ensures |p[..i]| > 1 && p[..LastSlash(p)][..i] == p[..i]
  {
    NoDoubleSlash(p, i - 1);
  }

  /** Every prefix of an entry that ends before a slash is a directory. */
  lemma {:induction false} PrefixIsDir(u: Tree, p: string, i: nat)
    requires TreeOk(u) && p in u && 1 <= i < |p| && p[i] == '/'
    ensures IsDir(u, p[..i]) && IsNormal(p[..i]) && p[..i] != "/"
    decreases |p|
  {
    hide IsNormal, Parent, LastSlash;
    SlashInNormal(p, i);
    var k := LastSlash(p);
    assert IsDir(u, Parent(p));
    if i < k {
      assert p[..k][i] == '/';
      PrefixIsDir(u, p[..k], i);
    }
  }

  predicate ParentsMade(t: Tree, p: string, i: nat)
    requires i <= |p|
  {
    forall j :: 1 <= j < i && p[j] == '/' ==> IsDir(t, p[..j])
  }

  /** `g` is `fs` with more directories of `u`. */
  ghost predicate OnlyDirsAdded(fs: Fs, g: Fs, u: Tree)
  {
    && g.fds == fs.fds && Inv(g) && Within(g.tree, u)
    && (forall n :: n in fs.tree ==> n in g.tree && g.tree[n] == fs.tree[n])
    && (forall n :: n in g.tree && n !in fs.tree ==> g.tree[n].Dir?)
  }

  /** Making one directory of `u` whose parent exists. */
  lemma MdAdds(fs: Fs, u: Tree, q: string)
    requires Inv(fs) && TreeOk(u) && |u| <= MAX_INODES && Within(fs.tree, u)
    requires IsDir(u, q) && q != "/" && IsDir(fs.tree, Parent(q))
    ensures OnlyDirsAdded(fs, Md(fs, q).0, u) && IsDir(Md(fs, q).0.tree, q)
  {
    hide Parent, IsNormal, Normalize;
    NormalizeIdempotent(q);
    MdKeepsInv(fs, q);
    if q !in fs.tree {
      RoomFor(fs.tree, u, q);
    }
  }

  lemma ParentBySlash(t: Tree, p: string, i: nat)
    requires TreeOk(t) && IsNormal(p) && 1 <= i < |p| && p[i] == '/' && ParentsMade(t, p, i)
    requires IsNormal(p[..i]) && p[..i] != "/"
    ensures IsDir(t, Parent(p[..i]))
  {
    var k := LastSlash(p[..i]);
    if k > 0 {
      assert p[..i][..k] == p[..k];
    }
  }

  lemma {:induction false} ParentsAdded(fs: Fs, u: Tree, p: string, i: nat)
    requires Inv(fs) && TreeOk(u) && |u| <= MAX_INODES && Within(fs.tree, u) && p in u && i <= |p|
    ensures OnlyDirsAdded(fs, MakeParents(fs, p, i), u) && ParentsMade(MakeParents(fs, p, i).tree, p, i)
    decreases i
  {
    hide IsNormal, Parent, Md, Inv, TreeOk, Within;
    if i > 1 {
      ParentsAdded(fs, u, p, i - 1);
      var a := MakeParents(fs, p, i - 1);
      if p[i - 1] == '/' {
        InTreeNormal(u, p);
        assert "/" + p[1..i - 1] == p[..i - 1];
        PrefixIsDir(u, p, i - 1);
        InvTree(a);
        ParentBySlash(a.tree, p, i - 1);
        MdAdds(a, u, p[..i - 1]);
      }
    }
  }

  lemma InTreeNormal(u: Tree, p: string)
    requires TreeOk(u) && p in u
    ensures IsNormal(p) && |p| <= MAX_PATH && p[0] == '/'
  {
  }

  lemma InvTree(fs: Fs)
    requires Inv(fs)
    ensures TreeOk(fs.tree) && |fs.fds| == MAX_FDS
  {
  }

  /** `g` is `fs` with the file `r` rewritten and perhaps more directories of `u`. */
  ghost predicate Rewritten(fs: Fs, g: Fs, r: Record, u: Tree)
  {
    && g.fds == fs.fds && Inv(g) && Within(g.tree, u) && Faithful(g.tree, r)
    && (forall n :: n in fs.tree && n != r.path ==> n in g.tree && g.tree[n] == fs.tree[n])
    && (forall n :: n in g.tree && n !in fs.tree && n != r.path ==> g.tree[n].Dir?)
  }

  /** Opening for rewrite once the parents exist leaves the file empty and open at its start. */
  lemma OpenForRewrite(fs: Fs, p: string, u: Tree)
    requires Inv(fs) && TreeOk(u) && |u| <= MAX_INODES && Within(fs.tree, u) && IsFile(u, p)
    requires ParentsMade(fs.tree, p, |p|) && FirstClosed(fs.fds) < MAX_FDS
    ensures
      var k := FirstClosed(fs.fds);
      Open(fs, p, REWRITE) == (Fs(fs.tree[p := File([])], fs.fds[k := Opened(p, 0, REWRITE)]), k + FD_OFFSET)
  {
    hide IsNormal, Parent, Normalize, FirstClosed, ParentsMade;
    InTreeNormal(u, p);
    NormalizeIdempotent(p);
    assert p != "/";
    if p !in fs.tree {
      WholeParent(fs.tree, p);
      RoomFor(fs.tree, u, p);
    }
  }

  /** Writing a whole empty file and closing it. */
  lemma WriteAndClose(t: Tree, fds: seq<Handle>, k: nat, r: Record)
    requires k < |fds| && fds[k].Closed?
    requires Inv(Fs(t[r.path := File([])], fds[k := Opened(r.path, 0, REWRITE)]))
    ensures
      var b := Fs(t[r.path := File([])], fds[k := Opened(r.path, 0, REWRITE)]);
      && Hole(b, k + FD_OFFSET) == 0
      && Close(Write(b, k + FD_OFFSET, r.data, []).0, k + FD_OFFSET).0 == Fs(t[r.path := File(r.data)], fds)
  {
    hide TreeOk;
    assert Overwritten([], 0, r.data, []) == r.data;
    assert t[r.path := File([])][r.path := File(r.data)] == t[r.path := File(r.data)];
  }

  lemma WriteWhole(fs: Fs, r: Record, u: Tree)
    requires Inv(fs) && TreeOk(u) && |u| <= MAX_INODES && Within(fs.tree, u) && IsFile(u, r.path)
    requires ParentsMade(fs.tree, r.path, |r.path|) && FirstClosed(fs.fds) < MAX_FDS
    ensures
      var (b, fd) := Open(fs, r.path, REWRITE);
      && fd >= 0 && Inv(b) && Hole(b, fd) == 0
      && Rewritten(fs, Close(Write(b, fd, r.data, []).0, fd).0, r, u)
  {
    hide Open, Write, Close, Inv, TreeOk, ParentsMade, FirstClosed;
    OpenForRewrite(fs, r.path, u);
    OpenKeepsInv(fs, r.path, REWRITE);
    InvTree(fs);
    var (b, fd) := Open(fs, r.path, REWRITE);
    WriteAndClose(fs.tree, fs.fds, FirstClosed(fs.fds), r);
    WriteKeepsInv(b, fd, r.data, []);
    ReadCloseKeepInv(Write(b, fd, r.data, []).0, fd, 0);
  }

  lemma WholeParent(t: Tree, p: string)
    requires TreeOk(t) && IsNormal(p) && p != "/" && ParentsMade(t, p, |p|)
    ensures IsDir(t, Parent(p))
  {
    SplitNormal(p);
    var k := LastSlash(p);
    assert p[|p| - 1] != '/' by {
      OneIsRoot(p);
    }
  }

  lemma RewriteWithin(fs: Fs, r: Record, u: Tree)
    requires Inv(fs) && TreeOk(u) && |u| <= MAX_INODES && Within(fs.tree, u) && IsFile(u, r.path)
    requires FirstClosed(fs.fds) < MAX_FDS
    ensures Rewritten(fs, Rewrite(fs, r), r, u)
  {
    hide IsNormal, Parent, Md, Inv, TreeOk, Within, MakeParents, Open, Write, Close;
    ParentsAdded(fs, u, r.path, |r.path|);
    var a := MakeParents(fs, r.path, |r.path|);
    WriteWhole(a, r, u);
  }

  /** The data of the last record for a path. */
  function LastData(rs: seq<Record>, p: string): Option<seq<Byte>>
  {
    if rs == [] then None
    else if rs[|rs| - 1].path == p then Some(rs[|rs| - 1].data)
    else LastData(rs[..|rs| - 1], p)
  }

  /** What replaying promises for one path. */
  ghost predicate RestoredAt(fs: Fs, g: Fs, rs: seq<Record>, n: string)
  {
    match LastData(rs, n)
    case Some(data) => n in g.tree && g.tree[n] == File(data)
    case None => if n in fs.tree then n in g.tree && g.tree[n] == fs.tree[n] else n in g.tree ==> g.tree[n].Dir?
  }

  /** Replaying records of files of a tree that fits: each file ends with the bytes of its last record,
      every other file is as it was. */
  lemma {:induction false} ReplayRestores(fs: Fs, rs: seq<Record>, u: Tree)
    requires Inv(fs) && TreeOk(u) && |u| <= MAX_INODES && Within(fs.tree, u)
    requires FirstClosed(fs.fds) < MAX_FDS
    requires forall r :: r in rs ==> IsFile(u, r.path)
    ensures
      var g := RewriteAll(fs, rs);
      g.fds == fs.fds && Within(g.tree, u) && forall n :: RestoredAt(fs, g, rs, n)
  {
    hide Inv, TreeOk, Within, Rewrite;
    if rs != [] {
      var init, last := rs[..|rs| - 1], rs[|rs| - 1];
      ReplayRestores(fs, init, u);
      var a := RewriteAll(fs, init);
      assert last in rs;
      RewriteWithin(a, last, u);
      var g := Rewrite(a, last);
      forall n ensures RestoredAt(fs, g, rs, n) {
        assert RestoredAt(fs, a, init, n);
      }
    }
  }

  /** The files of a tree, without its directories. */
  ghost function Files(t: Tree): map<string, seq<Byte>>
  {
    map n | n in t && t[n].File? :: t[n].bytes
  }

  lemma {:induction false} LastDataFaithful(t: Tree, rs: seq<Record>, n: string)
    requires forall r :: r in rs ==> Faithful(t, r)
    ensures LastData(rs, n).Some? ==> IsFile(t, n) && LastData(rs, n).value == t[n].bytes
    ensures LastData(rs, n).None? ==> forall r :: r in rs ==> r.path != n
  {
    if rs != [] {
      LastDataFaithful(t, rs[..|rs| - 1], n);
      assert rs[|rs| - 1] in rs;
      assert forall r :: r in rs ==> r in rs[..|rs| - 1] || r == rs[|rs| - 1];
    }
  }

  /** Saving a file system and replaying the records onto an empty one gives back exactly its files. */
  lemma SnapshotRestores(s: seq<Inode>)
    requires Walkable(s) && |s| <= MAX_INODES
    ensures Inv(EMPTY) && IsDir(TreeOf(s), "/")
    ensures Files(RewriteAll(EMPTY, WalkAll(s, "/")).tree) == Files(TreeOf(s))
  {
    hide SlotsOk, TreeOf, TreeOk, RewriteAll, WalkAll;
    EmptyInv();
    var u := TreeOf(s);
    TreeSize(s);
    UsedBound(s);
    WalkExact(s);
    var rs := WalkAll(s, "/");
    assert EMPTY.fds[0].Closed?;
    ReplayRestores(EMPTY, rs, u);
    var t := RewriteAll(EMPTY, rs).tree;
    forall n ensures IsFile(t, n) <==> IsFile(u, n)
    {
      LastDataFaithful(u, rs, n);
      assert RestoredAt(EMPTY, RewriteAll(EMPTY, rs), rs, n);
      if IsFile(u, n) {
        assert Record(n, u[n].bytes) in rs;
      }
    }
    forall n | IsFile(u, n) ensures t[n].bytes == u[n].bytes {
      LastDataFaithful(u, rs, n);
      assert RestoredAt(EMPTY, RewriteAll(EMPTY, rs), rs, n);
      assert Record(n, u[n].bytes) in rs;
    }
  }
}
