/** Snapshots: the records a walk of the tree yields, their byte encoding, and what replaying them
    restores. */
module Snapshot {
  import opened Bytes
  import opened Paths
  import opened FileTree
  import opened InodeTable

  datatype Record = Record(path: string, data: seq<Byte>)

  // ----- The walk -----

  ghost predicate Walkable(s: seq<Inode>)
  {
    SlotsOk(s) && TreeOk(TreeOf(s))
  }

  /** The records below the first `k` entries of a directory, depth first. */
  ghost function Walk(s: seq<Inode>, dir: string, k: nat): seq<Record>
    requires Walkable(s) && IsDir(TreeOf(s), dir) && k <= |Listing(s, dir)|
    decreases MAX_PATH - |dir|, k, 0
  {
    if k == 0 then [] else Walk(s, dir, k - 1) + WalkEntry(s, dir, k - 1)
  }

  ghost function WalkEntry(s: seq<Inode>, dir: string, k: nat): seq<Record>
    requires Walkable(s) && IsDir(TreeOf(s), dir) && k < |Listing(s, dir)|
    decreases MAX_PATH - |dir|, k, 1
  {
    EntryInTree(s, dir, k);
    var e := Listing(s, dir)[k];
    var child := Join(dir, e.name);
    if e.isDir then Walk(s, child, |Listing(s, child)|) else [Record(child, TreeOf(s)[child].bytes)]
  }

  ghost function WalkAll(s: seq<Inode>, dir: string): seq<Record>
    requires Walkable(s) && IsDir(TreeOf(s), dir)
  {
    Walk(s, dir, |Listing(s, dir)|)
  }

  lemma EntryInTree(s: seq<Inode>, dir: string, k: nat)
    requires Walkable(s) && IsDir(TreeOf(s), dir) && k < |Listing(s, dir)|
    ensures
      var e := Listing(s, dir)[k];
      var child := Join(dir, e.name);
      && IsNormal(dir) && IsName(e.name)
      && child in TreeOf(s) && |dir| < |child| <= MAX_PATH && (TreeOf(s)[child].Dir? <==> e.isDir)
      && IsNormal(child) && Parent(child) == dir
  {
    hide SlotsOk, TreeOf, Parent, IsNormal, Listing, Join;
    ListingExact(s, dir);
    assert Listing(s, dir)[k] in Listing(s, dir);
    JoinNormal(dir, Listing(s, dir)[k].name);
  }

  /** A record tells the bytes of the file it names. */
  ghost predicate Faithful(t: Tree, r: Record)
  {
    r.path in t && t[r.path] == File(r.data)
  }

  lemma {:induction false} WalkFaithful(s: seq<Inode>, dir: string, k: nat)
    requires Walkable(s) && IsDir(TreeOf(s), dir) && k <= |Listing(s, dir)|
    ensures forall r :: r in Walk(s, dir, k) ==> Faithful(TreeOf(s), r)
    decreases MAX_PATH - |dir|, k
  {
    hide Walkable, TreeOf, Join, Listing;
    if k > 0 {
      WalkFaithful(s, dir, k - 1);
      EntryInTree(s, dir, k - 1);
      var e := Listing(s, dir)[k - 1];
      if e.isDir {
        var child := Join(dir, e.name);
        WalkFaithful(s, child, |Listing(s, child)|);
      }
    }
  }

  lemma {:induction false} WalkHasEntry(s: seq<Inode>, dir: string, j: nat, k: nat)
    requires Walkable(s) && IsDir(TreeOf(s), dir) && j < k <= |Listing(s, dir)|
    ensures forall r :: r in WalkEntry(s, dir, j) ==> r in Walk(s, dir, k)
    decreases k
  {
    hide Walkable, TreeOf, Join, Listing, WalkEntry;
    if j < k - 1 {
      WalkHasEntry(s, dir, j, k - 1);
    }
  }

  /** The walk of a directory holds the walk of each directory in it, and each file in it. */
  lemma ChildInWalk(s: seq<Inode>, n: string)
    requires Walkable(s) && n in TreeOf(s) && n != "/"
    ensures IsDir(TreeOf(s), Parent(n))
    ensures TreeOf(s)[n].File? ==> Record(n, TreeOf(s)[n].bytes) in WalkAll(s, Parent(n))
    ensures TreeOf(s)[n].Dir? ==> forall r :: r in WalkAll(s, n) ==> r in WalkAll(s, Parent(n))
  {
    hide SlotsOk, TreeOf, Parent, BaseName, IsNormal, Join, Listing;
    var dir := Parent(n);
    assert ChildOf(TreeOf(s), dir, n);
    ListingExact(s, dir);
    var e := DirEntry(BaseName(n), TreeOf(s)[n].Dir?);
    assert e in Listing(s, dir);
    var k :| 0 <= k < |Listing(s, dir)| && Listing(s, dir)[k] == e;
    WalkHasEntry(s, dir, k, |Listing(s, dir)|);
  }

  lemma {:induction false} WalkNested(s: seq<Inode>, dir: string)
    requires Walkable(s) && IsDir(TreeOf(s), dir)
    ensures IsDir(TreeOf(s), "/")
    ensures forall r :: r in WalkAll(s, dir) ==> r in WalkAll(s, "/")
    decreases |dir|
  {
    hide SlotsOk, TreeOf, Parent, IsNormal, Listing;
    if dir != "/" {
      ChildInWalk(s, dir);
      SplitNormal(dir);
      WalkNested(s, Parent(dir));
    }
  }

  /** Walking from the root yields a record of every file, with its bytes, and of nothing else. */
  lemma WalkExact(s: seq<Inode>)
    requires Walkable(s)
    ensures IsDir(TreeOf(s), "/")
    ensures forall r :: r in WalkAll(s, "/") ==> Faithful(TreeOf(s), r)
    ensures forall n :: IsFile(TreeOf(s), n) ==> Record(n, TreeOf(s)[n].bytes) in WalkAll(s, "/")
  {
    hide SlotsOk, TreeOf, Parent, IsNormal, Listing, Walk;
    WalkFaithful(s, "/", |Listing(s, "/")|);
    forall n | IsFile(TreeOf(s), n) ensures Record(n, TreeOf(s)[n].bytes) in WalkAll(s, "/") {
      ChildInWalk(s, n);
      WalkNested(s, Parent(n));
    }
  }
}
