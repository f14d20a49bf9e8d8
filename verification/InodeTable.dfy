/** The tables of the RAM file system, and the tree they stand for. */
module InodeTable {
  import opened Bytes
  import opened Paths
  import opened FileTree

  /** A used inode keeps its bytes in a buffer of which `size` are the file. */
  datatype Inode = Free | Node(isDir: bool, name: string, data: seq<Byte>, size: nat)
  datatype Descriptor = Unused | Using(inode: nat, offset: nat, flags: Flags)
  datatype DirEntry = DirEntry(name: string, isDir: bool)

  // ----- What the tables stand for -----

  predicate SlotsOk(s: seq<Inode>)
  {
    && (forall i :: 0 <= i < |s| && s[i].Node? ==> s[i].size <= |s[i].data|)
    && (forall i, j :: 0 <= i < |s| && 0 <= j < |s| && s[i].Node? && s[j].Node? && s[i].name == s[j].name ==> i == j)
  }

  function EntryOf(n: Inode): Entry
    requires n.Node? && n.size <= |n.data|
  {
    if n.isDir then Dir else File(n.data[..n.size])
  }

  ghost function TreeOf(s: seq<Inode>): Tree
    requires SlotsOk(s)
  {
    map i | 0 <= i < |s| && s[i].Node? :: s[i].name := EntryOf(s[i])
  }

  predicate FdsOk(d: seq<Descriptor>, s: seq<Inode>)
  {
    forall k :: 0 <= k < |d| && d[k].Using? ==> d[k].inode < |s| && s[d[k].inode].Node?
  }

  ghost function Handles(d: seq<Descriptor>, s: seq<Inode>): seq<Handle>
    requires FdsOk(d, s)
  {
    seq(|d|, k requires 0 <= k < |d| =>
      if d[k].Unused? then Closed else Opened(s[d[k].inode].name, d[k].offset, d[k].flags))
  }

  lemma TreeLookup(s: seq<Inode>, i: nat)
    requires SlotsOk(s) && i < |s| && s[i].Node?
    ensures s[i].name in TreeOf(s) && TreeOf(s)[s[i].name] == EntryOf(s[i])
  {
  }

  lemma TreeIndex(s: seq<Inode>, n: string) returns (i: nat)
    requires SlotsOk(s) && n in TreeOf(s)
    ensures i < |s| && s[i].Node? && s[i].name == n && TreeOf(s)[n] == EntryOf(s[i])
  {
    i :| 0 <= i < |s| && s[i].Node? && s[i].name == n;
  }

  /** Filling a free slot under a new name, or changing a used one under its name. */
  lemma TreePut(s: seq<Inode>, i: nat, node: Inode)
    requires SlotsOk(s) && i < |s| && node.Node? && node.size <= |node.data|
    requires if s[i].Free? then node.name !in TreeOf(s) else s[i].name == node.name
    ensures SlotsOk(s[i := node]) && TreeOf(s[i := node]) == TreeOf(s)[node.name := EntryOf(node)]
  {
    hide TreeOf, EntryOf;
    var u := s[i := node];
    forall j | 0 <= j < |s| && s[j].Node? ensures s[j].name in TreeOf(s) {
      TreeLookup(s, j);
    }
    assert SlotsOk(u);
    hide SlotsOk;
    var t := TreeOf(s)[node.name := EntryOf(node)];
    forall n ensures n in TreeOf(u) <==> n in t {
      if n in TreeOf(u) {
        var j := TreeIndex(u, n);
      }
      if n in TreeOf(s) {
        var j := TreeIndex(s, n);
        TreeLookup(u, j);
      }
      TreeLookup(u, i);
    }
    forall n | n in t ensures TreeOf(u)[n] == t[n] {
      var j := TreeIndex(u, n);
      if j != i {
        TreeLookup(s, j);
      }
    }
  }

  lemma TreeDrop(s: seq<Inode>, i: nat)
    requires SlotsOk(s) && i < |s| && s[i].Node?
    ensures SlotsOk(s[i := Free]) && TreeOf(s[i := Free]) == TreeOf(s) - {s[i].name}
  {
    hide TreeOf, EntryOf;
    var u := s[i := Free];
    assert SlotsOk(u);
    var t := TreeOf(s) - {s[i].name};
    forall n ensures n in TreeOf(u) <==> n in t {
      if n in TreeOf(u) {
        var j := TreeIndex(u, n);
        TreeLookup(s, j);
      }
      if n in t {
        var j := TreeIndex(s, n);
        TreeLookup(u, j);
      }
    }
    forall n | n in t ensures TreeOf(u)[n] == t[n] {
      var j := TreeIndex(u, n);
      TreeLookup(s, j);
    }
  }

  lemma TreeSnoc(s: seq<Inode>)
    requires SlotsOk(s) && s != []
    ensures SlotsOk(s[..|s| - 1])
    ensures TreeOf(s).Keys == TreeOf(s[..|s| - 1]).Keys + if s[|s| - 1].Node? then {s[|s| - 1].name} else {}
    ensures s[|s| - 1].Node? ==> s[|s| - 1].name !in TreeOf(s[..|s| - 1])
  {
    hide TreeOf, EntryOf;
    var n := |s| - 1;
    var init := s[..n];
    assert SlotsOk(init);
    if s[n].Node? {
      TreeLookup(s, n);
      if s[n].name in TreeOf(init) {
        var j := TreeIndex(init, s[n].name);
      }
    }
    hide SlotsOk;
    forall m | m in TreeOf(s) ensures m in TreeOf(init) || (s[n].Node? && m == s[n].name) {
      var j := TreeIndex(s, m);
      if j < n {
        TreeLookup(init, j);
      }
    }
    forall m | m in TreeOf(init) ensures m in TreeOf(s) {
      var j := TreeIndex(init, m);
      TreeLookup(s, j);
    }
  }

  function UsedSlots(s: seq<Inode>): nat
  {
    if s == [] then 0 else UsedSlots(s[..|s| - 1]) + if s[|s| - 1].Node? then 1 else 0
  }

  lemma {:induction false} UsedBound(s: seq<Inode>)
    ensures UsedSlots(s) <= |s|
    ensures UsedSlots(s) == |s| <==> forall i :: 0 <= i < |s| ==> s[i].Node?
  {
    if s != [] {
      var n := |s| - 1;
      UsedBound(s[..n]);
      assert forall i :: 0 <= i < n ==> s[..n][i] == s[i];
    }
  }

  lemma GrownSet<T>(a: set<T>, b: set<T>, x: T, grows: bool)
    requires b == a + if grows then {x} else {}
    requires grows ==> x !in a
    ensures |b| == |a| + if grows then 1 else 0
  {
  }

  /** The tree has an entry per used slot. */
  lemma {:induction false} TreeSize(s: seq<Inode>)
    requires SlotsOk(s)
    ensures |TreeOf(s)| == UsedSlots(s)
  {
    if s == [] {
      assert TreeOf(s).Keys == {};
    } else {
      hide TreeOf, EntryOf, SlotsOk;
      var n := |s| - 1;
      TreeSnoc(s);
      TreeSize(s[..n]);
      var name := if s[n].Node? then s[n].name else "";
      GrownSet(TreeOf(s[..n]).Keys, TreeOf(s).Keys, name, s[n].Node?);
      assert |TreeOf(s)| == |TreeOf(s).Keys| && |TreeOf(s[..n])| == |TreeOf(s[..n]).Keys|;
    }
  }

  lemma HandlesKept(d: seq<Descriptor>, s: seq<Inode>, u: seq<Inode>)
    requires FdsOk(d, s)
    requires forall k :: 0 <= k < |d| && d[k].Using? ==>
      d[k].inode < |u| && u[d[k].inode].Node? && u[d[k].inode].name == s[d[k].inode].name
    ensures FdsOk(d, u) && Handles(d, u) == Handles(d, s)
  {
  }

  lemma HandlesPut(d: seq<Descriptor>, s: seq<Inode>, k: nat, e: Descriptor)
    requires FdsOk(d, s) && k < |d|
    requires e.Using? ==> e.inode < |s| && s[e.inode].Node?
    ensures FdsOk(d[k := e], s)
    ensures Handles(d[k := e], s) ==
      Handles(d, s)[k := if e.Unused? then Closed else Opened(s[e.inode].name, e.offset, e.flags)]
  {
    assert FdsOk(d[k := e], s);
  }

  lemma {:induction false} FirstClosedIs(fds: seq<Handle>, k: nat)
    requires k <= |fds| && (k < |fds| ==> fds[k].Closed?) && forall i :: 0 <= i < k ==> fds[i].Opened?
    ensures FirstClosed(fds) == k
  {
    if k > 0 {
      assert fds[0].Opened?;
      FirstClosedIs(fds[1..], k - 1);
    }
  }

  // ----- Listings -----

  predicate Lists(node: Inode, dir: string)
  {
    node.Node? && node.name != "/" && Parent(node.name) == dir
  }

  /** The direct children of a directory, in table order. */
  function Listing(s: seq<Inode>, dir: string): seq<DirEntry>
  {
    if s == [] then []
    else
      var last := s[|s| - 1];
      Listing(s[..|s| - 1], dir) + if Lists(last, dir) then [DirEntry(BaseName(last.name), last.isDir)] else []
  }

  lemma {:induction false} ListingEntry(s: seq<Inode>, dir: string, k: nat) returns (i: nat)
    requires k < |Listing(s, dir)|
    ensures i < |s| && Lists(s[i], dir)
    ensures Listing(s, dir)[k] == DirEntry(BaseName(s[i].name), s[i].isDir) && k == |Listing(s[..i], dir)|
  {
    var n := |s| - 1;
    if k < |Listing(s[..n], dir)| {
      i := ListingEntry(s[..n], dir, k);
      assert s[..n][..i] == s[..i];
    } else {
      i := n;
    }
  }

  lemma {:induction false} ListingHas(s: seq<Inode>, dir: string, i: nat) returns (k: nat)
    requires i < |s| && Lists(s[i], dir)
    ensures k < |Listing(s, dir)| && Listing(s, dir)[k] == DirEntry(BaseName(s[i].name), s[i].isDir)
  {
    var n := |s| - 1;
    if i < n {
      k := ListingHas(s[..n], dir, i);
    } else {
      k := |Listing(s[..n], dir)|;
    }
  }

  /** A listing names the direct children of a directory: all of them, nothing else, none twice. */
  lemma ListingExact(s: seq<Inode>, dir: string)
    requires SlotsOk(s) && TreeOk(TreeOf(s)) && IsDir(TreeOf(s), dir)
    ensures forall e :: e in Listing(s, dir) ==>
      && IsName(e.name) && ChildOf(TreeOf(s), dir, Join(dir, e.name))
      && (TreeOf(s)[Join(dir, e.name)].Dir? <==> e.isDir)
    ensures forall n :: ChildOf(TreeOf(s), dir, n) ==>
      DirEntry(BaseName(n), TreeOf(s)[n].Dir?) in Listing(s, dir) && Join(dir, BaseName(n)) == n
    ensures forall j, k :: 0 <= j < k < |Listing(s, dir)| ==> Listing(s, dir)[j].name != Listing(s, dir)[k].name
  {
    hide Parent, BaseName, IsNormal, Join, Listing;
    var t := TreeOf(s);
    forall e | e in Listing(s, dir)
      ensures IsName(e.name) && ChildOf(t, dir, Join(dir, e.name)) && (t[Join(dir, e.name)].Dir? <==> e.isDir)
    {
      var k :| 0 <= k < |Listing(s, dir)| && Listing(s, dir)[k] == e;
      var i := ListingEntry(s, dir, k);
      TreeLookup(s, i);
      SplitNormal(s[i].name);
    }
    forall n | ChildOf(t, dir, n)
      ensures DirEntry(BaseName(n), t[n].Dir?) in Listing(s, dir) && Join(dir, BaseName(n)) == n
    {
      var i := TreeIndex(s, n);
      var k := ListingHas(s, dir, i);
      SplitNormal(n);
    }
    forall j, k | 0 <= j < k < |Listing(s, dir)|
      ensures Listing(s, dir)[j].name != Listing(s, dir)[k].name
    {
      var a := ListingEntry(s, dir, j);
      var b := ListingEntry(s, dir, k);
      TreeLookup(s, a);
      TreeLookup(s, b);
      SplitNormal(s[a].name);
      SplitNormal(s[b].name);
    }
  }

  // ----- Growth -----

  /** The first doubling of `c` that holds `required` bytes. */
  function Doubled(c: nat, required: nat): (r: nat)
    requires c > 0
    ensures r >= required && r >= c
    ensures r == c || r < 2 * required
    decreases required - c
  {
    if c >= required then c else Doubled(2 * c, required)
  }

  function NewCapacity(capacity: nat, required: nat): nat
  {
    Doubled(if capacity == 0 then 64 else capacity, required)
  }
}
