/** FAT16 cluster chains: what the image builder writes and what the kernel reads back. */
module FatChain {
  import opened Bytes
  import opened FatLayout

  const END_OF_CHAIN: Word := 0xFFFF
  /** Numbers from here on end a chain. */
  const LAST_CLUSTER: nat := 0xFFF8
  const CLUSTER_BYTES: nat := 4096

  // ----- The table -----

  /** The entry of a cluster; past the table every chain ends. */
  function NextCluster(fat: seq<Byte>, c: nat): Word
  {
    if 2 * c + 1 >= |fat| then END_OF_CHAIN else ReadU16(fat, 2 * c)
  }

  function SetEntry(fat: seq<Byte>, c: Word, v: Word): (r: seq<Byte>)
    ensures |r| == |fat|
  {
    if 2 * c + 2 <= |fat| then PatchU16(fat, 2 * c, v) else fat
  }

  /** The first `k` of the `n` entries of a chain from `start`, cluster numbers cut to 16 bits. */
  function PutChain(fat: seq<Byte>, start: nat, n: nat, k: nat): (r: seq<Byte>)
    requires k <= n
    ensures |r| == |fat|
    decreases k
  {
    if k == 0 then fat
    else
      var c: Word := (start + k - 1) % 0x1_0000;
      SetEntry(PutChain(fat, start, n, k - 1), c, if k < n then (c + 1) % 0x1_0000 else END_OF_CHAIN)
  }

  /** The clusters of the chain follow one another and the last ends it. */
  predicate IsChain(fat: seq<Byte>, start: nat, n: nat)
  {
    forall c :: start <= c < start + n ==> NextCluster(fat, c) == if c + 1 < start + n then c + 1 else END_OF_CHAIN
  }

  lemma EntryAfterSet(fat: seq<Byte>, c: Word, v: Word, d: nat)
    ensures NextCluster(SetEntry(fat, c, v), d) == if d == c && 2 * c + 2 <= |fat| then v else NextCluster(fat, d)
  {
    hide PatchU16, ReadU16;
    if 2 * c + 2 <= |fat| {
      if d == c {
        ReadPatched(fat, 2 * c, v);
      } else if 2 * d + 1 < |fat| {
        PatchedElsewhere(fat, 2 * c, v, 2 * d);
      }
    }
  }

  lemma PatchedElsewhere(fat: seq<Byte>, a: nat, v: Word, b: nat)
    requires a + 1 < |fat| && b + 1 < |fat| && (b + 1 < a || a + 1 < b)
    ensures ReadU16(PatchU16(fat, a, v), b) == ReadU16(fat, b)
  {
  }

  lemma {:induction false} ChainEntries(fat: seq<Byte>, start: nat, n: nat, k: nat, d: nat)
    requires k <= n && start + n <= LAST_CLUSTER && 2 * (start + n) <= |fat|
    ensures NextCluster(PutChain(fat, start, n, k), d) ==
      if !(start <= d < start + k) then NextCluster(fat, d)
      else if d + 1 < start + n then d + 1 else END_OF_CHAIN
    decreases k
  {
    hide SetEntry, NextCluster;
    if k > 0 {
      ChainEntries(fat, start, n, k - 1, d);
      var c: Word := start + k - 1;
      EntryAfterSet(PutChain(fat, start, n, k - 1), c, if k < n then c + 1 else END_OF_CHAIN, d);
    }
  }

  /** Writing a chain makes a chain and leaves every other entry alone. */
  lemma ChainWritten(fat: seq<Byte>, start: nat, n: nat)
    requires start + n <= LAST_CLUSTER && 2 * (start + n) <= |fat|
    ensures IsChain(PutChain(fat, start, n, n), start, n)
    ensures forall d :: 0 <= d && !(start <= d < start + n) ==>
      NextCluster(PutChain(fat, start, n, n), d) == NextCluster(fat, d)
  {
    hide NextCluster, PutChain;
    forall d | 0 <= d
      ensures NextCluster(PutChain(fat, start, n, n), d) ==
        if !(start <= d < start + n) then NextCluster(fat, d)
        else if d + 1 < start + n then d + 1 else END_OF_CHAIN
    {
      ChainEntries(fat, start, n, n, d);
    }
  }

  /** A chain apart from the one being written survives. */
  lemma ChainKept(fat: seq<Byte>, start: nat, n: nat, other: nat, m: nat)
    requires start + n <= LAST_CLUSTER && 2 * (start + n) <= |fat|
    requires IsChain(fat, other, m) && (other + m <= start || start + n <= other)
    ensures IsChain(PutChain(fat, start, n, n), other, m)
  {
    hide NextCluster, PutChain;
    ChainWritten(fat, start, n);
  }

  // ----- All the files of an image -----

  function ClustersOf(size: nat): nat
  {
    (size + CLUSTER_BYTES - 1) / CLUSTER_BYTES
  }

  /** Where the file after the first `j` starts. */
  function StartOf(first: nat, sizes: seq<nat>, j: nat): (c: nat)
    requires j <= |sizes|
    ensures c >= first
  {
    if j == 0 then first else StartOf(first, sizes, j - 1) + ClustersOf(sizes[j - 1])
  }

  lemma {:induction false} StartsGrow(first: nat, sizes: seq<nat>, i: nat, j: nat)
    requires i <= j <= |sizes|
    ensures StartOf(first, sizes, i) <= StartOf(first, sizes, j)
    decreases j
  {
    if i < j {
      StartsGrow(first, sizes, i, j - 1);
    }
  }

  /** The table with the chains of the first `j` files. */
  function PutChains(fat: seq<Byte>, first: nat, sizes: seq<nat>, j: nat): (r: seq<Byte>)
    requires j <= |sizes|
    ensures |r| == |fat|
  {
    if j == 0 then fat
    else
      var n := ClustersOf(sizes[j - 1]);
      PutChain(PutChains(fat, first, sizes, j - 1), StartOf(first, sizes, j - 1), n, n)
  }

  /** Every file ends up with its own chain. */
  lemma {:induction false} AllChains(fat: seq<Byte>, first: nat, sizes: seq<nat>, j: nat, i: nat)
    requires i < j <= |sizes|
    requires StartOf(first, sizes, |sizes|) <= LAST_CLUSTER && 2 * StartOf(first, sizes, |sizes|) <= |fat|
    ensures IsChain(PutChains(fat, first, sizes, j), StartOf(first, sizes, i), ClustersOf(sizes[i]))
    ensures StartOf(first, sizes, i) + ClustersOf(sizes[i]) <= StartOf(first, sizes, j)
    decreases j
  {
    hide IsChain, PutChain;
    var before := PutChains(fat, first, sizes, j - 1);
    var start, n := StartOf(first, sizes, j - 1), ClustersOf(sizes[j - 1]);
    StartsGrow(first, sizes, j, |sizes|);
    if i == j - 1 {
      ChainWritten(before, start, n);
    } else {
      AllChains(fat, first, sizes, j - 1, i);
      ChainKept(before, start, n, StartOf(first, sizes, i), ClustersOf(sizes[i]));
    }
  }

  // ----- Data clusters -----

  /** Byte offset of a cluster in the image. */
  function ClusterOffset(l: Layout, c: nat): nat
    requires c >= 2
  {
    (l.firstDataSector + (c - 2) * SECTORS_PER_CLUSTER) * BYTES_PER_SECTOR
  }

  /** A file's bytes filled up to whole clusters. */
  function Padded(file: seq<Byte>): (r: seq<Byte>)
    ensures |r| == ClustersOf(|file|) * CLUSTER_BYTES
  {
    file + Zeros(ClustersOf(|file|) * CLUSTER_BYTES - |file|)
  }

  predicate Contains(image: seq<Byte>, off: nat, bytes: seq<Byte>)
  {
    off + |bytes| <= |image| && image[off..off + |bytes|] == bytes
  }

  /** The image with the first `j` files in their clusters. */
  function PutFiles(image: seq<Byte>, l: Layout, first: nat, files: seq<seq<Byte>>, j: nat): (r: seq<Byte>)
    requires j <= |files| && first >= 2
    requires ClusterOffset(l, StartOf(first, Sizes(files), |files|)) <= |image|
    ensures |r| == |image|
    decreases j
  {
    if j == 0 then image
    else
      var start := StartOf(first, Sizes(files), j - 1);
      FileFits(l, first, files, j - 1, |image|);
      Splice(PutFiles(image, l, first, files, j - 1), ClusterOffset(l, start), Padded(files[j - 1]))
  }

  function Sizes(files: seq<seq<Byte>>): (s: seq<nat>)
    ensures |s| == |files|
  {
    seq(|files|, i requires 0 <= i < |files| => |files[i]|)
  }

  lemma OffsetStep(l: Layout, c: nat, n: nat)
    requires c >= 2
    ensures ClusterOffset(l, c + n) == ClusterOffset(l, c) + n * CLUSTER_BYTES
  {
  }

  lemma FileFits(l: Layout, first: nat, files: seq<seq<Byte>>, i: nat, size: nat)
    requires i < |files| && first >= 2
    requires ClusterOffset(l, StartOf(first, Sizes(files), |files|)) <= size
    ensures StartOf(first, Sizes(files), i) >= 2
    ensures
      ClusterOffset(l, StartOf(first, Sizes(files), i)) + |Padded(files[i])|
        == ClusterOffset(l, StartOf(first, Sizes(files), i + 1)) <= size
  {
    var sizes := Sizes(files);
    StartsGrow(first, sizes, 0, i);
    StartsGrow(first, sizes, i + 1, |sizes|);
    OffsetStep(l, StartOf(first, sizes, i), ClustersOf(sizes[i]));
    OffsetStep(l, StartOf(first, sizes, i + 1), StartOf(first, sizes, |sizes|) - StartOf(first, sizes, i + 1));
  }

  lemma OffsetsGrow(l: Layout, first: nat, sizes: seq<nat>, i: nat, j: nat)
    requires first >= 2 && i <= j <= |sizes|
    ensures ClusterOffset(l, StartOf(first, sizes, i)) <= ClusterOffset(l, StartOf(first, sizes, j))
  {
    StartsGrow(first, sizes, i, j);
  }

  lemma StartAtFirst(first: nat, sizes: seq<nat>)
    ensures StartOf(first, sizes, 0) == first
  {
  }

  lemma SpliceContains(image: seq<Byte>, off: nat, bytes: seq<Byte>)
    requires off + |bytes| <= |image|
    ensures Contains(Splice(image, off, bytes), off, bytes)
  {
  }

  lemma SpliceElsewhere(image: seq<Byte>, off: nat, bytes: seq<Byte>, at: nat, other: seq<Byte>)
    requires off + |bytes| <= |image| && Contains(image, at, other)
    requires at + |other| <= off || off + |bytes| <= at
    ensures Contains(Splice(image, off, bytes), at, other)
  {
    var s := Splice(image, off, bytes);
    assert s[at..at + |other|] == image[at..at + |other|];
  }

  /** Every file's clusters hold its bytes, and what lies before the first file is untouched. */
  lemma {:induction false} FilesPlaced(image: seq<Byte>, l: Layout, first: nat, files: seq<seq<Byte>>, j: nat, i: nat)
    requires i < j <= |files| && first >= 2
    requires ClusterOffset(l, StartOf(first, Sizes(files), |files|)) <= |image|
    ensures StartOf(first, Sizes(files), i) >= 2
    ensures
      var off := ClusterOffset(l, StartOf(first, Sizes(files), i));
      Contains(PutFiles(image, l, first, files, j), off, Padded(files[i]))
    decreases j
  {
    hide Splice, Padded, Contains, ClusterOffset, Sizes, StartOf;
    var sizes := Sizes(files);
    FileFits(l, first, files, i, |image|);
    FileFits(l, first, files, j - 1, |image|);
    var before := PutFiles(image, l, first, files, j - 1);
    var off := ClusterOffset(l, StartOf(first, sizes, j - 1));
    if i == j - 1 {
      SpliceContains(before, off, Padded(files[i]));
    } else {
      FilesPlaced(image, l, first, files, j - 1, i);
      OffsetsGrow(l, first, sizes, i + 1, j - 1);
      SpliceElsewhere(before, off, Padded(files[j - 1]), ClusterOffset(l, StartOf(first, sizes, i)), Padded(files[i]));
    }
  }

  lemma {:induction false} MetadataKept(image: seq<Byte>, l: Layout, first: nat, files: seq<seq<Byte>>, j: nat,
                                        at: nat, bytes: seq<Byte>)
    requires j <= |files| && first >= 2
    requires ClusterOffset(l, StartOf(first, Sizes(files), |files|)) <= |image|
    requires Contains(image, at, bytes) && at + |bytes| <= ClusterOffset(l, first)
    ensures Contains(PutFiles(image, l, first, files, j), at, bytes)
    decreases j
  {
    hide Splice, Padded, Contains, ClusterOffset, Sizes, StartOf;
    if j > 0 {
      var sizes := Sizes(files);
      MetadataKept(image, l, first, files, j - 1, at, bytes);
      FileFits(l, first, files, j - 1, |image|);
      OffsetsGrow(l, first, sizes, 0, j - 1);
      StartAtFirst(first, sizes);
      SpliceElsewhere(PutFiles(image, l, first, files, j - 1), ClusterOffset(l, StartOf(first, sizes, j - 1)),
        Padded(files[j - 1]), at, bytes);
    }
  }

  // ----- Reading a file back -----

  /** The first `k` sectors of a cluster, or of what is left of the file; fails past the image. */
  function ReadCluster(image: seq<Byte>, sector: nat, n: nat): Option<seq<Byte>>
  {
    var sectors := (n + BYTES_PER_SECTOR - 1) / BYTES_PER_SECTOR;
    if (sector + sectors) * BYTES_PER_SECTOR > |image| then None
    else Some(image[sector * BYTES_PER_SECTOR..sector * BYTES_PER_SECTOR + n])
  }

  /** The bytes found by following a chain from `c` until `remaining` bytes are read or it ends. */
  function Follow(image: seq<Byte>, fat: seq<Byte>, firstData: nat, perCluster: nat, c: nat,
                  remaining: nat): Option<seq<Byte>>
    requires perCluster > 0
    decreases remaining
  {
    if c < 2 || c >= LAST_CLUSTER || remaining == 0 then Some([])
    else
      var n := Min(remaining, perCluster * BYTES_PER_SECTOR);
      var chunk := ReadCluster(image, firstData + (c - 2) * perCluster, n);
      if chunk.None? then None
      else
        var rest := Follow(image, fat, firstData, perCluster, NextCluster(fat, c), remaining - n);
        if rest.None? then None else Some(chunk.value + rest.value)
  }

  /** A result with bytes already read put in front. */
  ghost function Prefix(got: seq<Byte>, r: Option<seq<Byte>>): Option<seq<Byte>>
  {
    if r.None? then None else Some(got + r.value)
  }

  lemma FollowStep(image: seq<Byte>, fat: seq<Byte>, firstData: nat, perCluster: nat, c: nat, remaining: nat)
    requires perCluster > 0 && 2 <= c < LAST_CLUSTER && remaining > 0
    ensures
      var n := Min(remaining, perCluster * BYTES_PER_SECTOR);
      var chunk := ReadCluster(image, firstData + (c - 2) * perCluster, n);
      && 0 < n <= perCluster * BYTES_PER_SECTOR
      && (n % BYTES_PER_SECTOR == 0 || n == remaining)
      && Follow(image, fat, firstData, perCluster, c, remaining) ==
        if chunk.None? then None
        else Prefix(chunk.value, Follow(image, fat, firstData, perCluster, NextCluster(fat, c), remaining - n))
  {
    hide ReadCluster, NextCluster;
  }

  lemma FollowEnd(image: seq<Byte>, fat: seq<Byte>, firstData: nat, perCluster: nat, c: nat, remaining: nat)
    requires perCluster > 0 && (c < 2 || c >= LAST_CLUSTER || remaining == 0)
    ensures Follow(image, fat, firstData, perCluster, c, remaining) == Some([])
  {
  }

  lemma ClusterOf(size: nat, i: nat)
    requires i < ClustersOf(size)
    ensures i * CLUSTER_BYTES < size
    ensures i + 1 < ClustersOf(size) <==> (i + 1) * CLUSTER_BYTES < size
  {
  }

  /** Following a file's chain from its cluster `i` gives the rest of the file. */
  lemma {:induction false} FollowFile(image: seq<Byte>, fat: seq<Byte>, l: Layout, start: nat, file: seq<Byte>, i: nat)
    requires start >= 2 && start + ClustersOf(|file|) <= LAST_CLUSTER && i < ClustersOf(|file|)
    requires IsChain(fat, start, ClustersOf(|file|)) && Contains(image, ClusterOffset(l, start), Padded(file))
    ensures i * CLUSTER_BYTES <= |file|
    ensures Follow(image, fat, l.firstDataSector, SECTORS_PER_CLUSTER, start + i, |file| - i * CLUSTER_BYTES)
      == Some(file[i * CLUSTER_BYTES..])
    decreases ClustersOf(|file|) - i
  {
    hide ReadCluster, Contains, NextCluster, Padded, ClusterOffset, ClustersOf, Follow;
    ClusterOf(|file|, i);
    var done := i * CLUSTER_BYTES;
    var n := Min(|file| - done, CLUSTER_BYTES);
    ClusterRead(image, l, start, file, i);
    var c := start + i;
    FollowStep(image, fat, l.firstDataSector, SECTORS_PER_CLUSTER, c, |file| - done);
    assert NextCluster(fat, c) == if i + 1 < ClustersOf(|file|) then c + 1 else END_OF_CHAIN;
    if i + 1 < ClustersOf(|file|) {
      FollowFile(image, fat, l, start, file, i + 1);
      assert file[done..] == file[done..done + n] + file[done + n..];
    } else {
      FollowEnd(image, fat, l.firstDataSector, SECTORS_PER_CLUSTER, END_OF_CHAIN, 0);
      assert file[done..] == file[done..done + n] + [];
    }
  }

  lemma ClusterRead(image: seq<Byte>, l: Layout, start: nat, file: seq<Byte>, i: nat)
    requires start >= 2 && i < ClustersOf(|file|) && Contains(image, ClusterOffset(l, start), Padded(file))
    ensures i * CLUSTER_BYTES <= |file|
    ensures
      var done := i * CLUSTER_BYTES;
      var n := Min(|file| - done, CLUSTER_BYTES);
      ReadCluster(image, l.firstDataSector + (start + i - 2) * SECTORS_PER_CLUSTER, n) == Some(file[done..done + n])
  {
    var done := i * CLUSTER_BYTES;
    var n := Min(|file| - done, CLUSTER_BYTES);
    var off := ClusterOffset(l, start);
    OffsetStep(l, start, i);
    var at := ClusterOffset(l, start + i);
    assert at == off + done;
    PieceOf(image, off, Padded(file), done, n);
    assert Padded(file)[done..done + n] == file[done..done + n];
  }

  lemma PieceOf(image: seq<Byte>, off: nat, bytes: seq<Byte>, at: nat, n: nat)
    requires Contains(image, off, bytes) && at + n <= |bytes|
    ensures image[off + at..off + at + n] == bytes[at..at + n]
  {
    var a, b := image[off + at..off + at + n], bytes[at..at + n];
    forall k | 0 <= k < n ensures a[k] == b[k] {
      assert b[k] == bytes[at + k] == image[off..off + |bytes|][at + k];
    }
  }

  // ----- The image as a whole -----

  /** What the builder checks before it writes. */
  predicate CapacityOk(l: Layout, first: nat, sizes: seq<nat>)
  {
    StartOf(first, sizes, |sizes|) - 2 <= l.clusterCount
  }

  lemma CapacitySuffices(l: Layout, first: nat, sizes: seq<nat>)
    requires IsValid(l) && CapacityOk(l, first, sizes) && first >= 2
    ensures 2 * StartOf(first, sizes, |sizes|) <= l.sectorsPerFat * BYTES_PER_SECTOR
    ensures StartOf(first, sizes, |sizes|) <= l.clusterCount + 2
    ensures ClusterOffset(l, StartOf(first, sizes, |sizes|)) <= l.totalSectors * BYTES_PER_SECTOR
    ensures (l.firstFatSector + l.sectorsPerFat) * BYTES_PER_SECTOR <= ClusterOffset(l, first)
  {
  }

  /** The table kept in the image. */
  function FatIn(image: seq<Byte>, l: Layout): seq<Byte>
    requires (l.firstFatSector + l.sectorsPerFat) * BYTES_PER_SECTOR <= |image|
  {
    image[l.firstFatSector * BYTES_PER_SECTOR..(l.firstFatSector + l.sectorsPerFat) * BYTES_PER_SECTOR]
  }

  /** Any file written to a valid layout that passes the capacity check reads back exactly, from the table
      and the clusters found in the image. */
  lemma ImageRoundTrip(image: seq<Byte>, base: seq<Byte>, l: Layout, first: nat, files: seq<seq<Byte>>, i: nat)
    requires IsValid(l) && |image| == l.totalSectors * BYTES_PER_SECTOR && first >= 2
    requires CapacityOk(l, first, Sizes(files)) && l.clusterCount + 2 <= LAST_CLUSTER
    requires |base| == l.sectorsPerFat * BYTES_PER_SECTOR && i < |files|
    requires Contains(image, l.firstFatSector * BYTES_PER_SECTOR, PutChains(base, first, Sizes(files), |files|))
    ensures ClusterOffset(l, StartOf(first, Sizes(files), |files|)) <= |image|
    ensures
      var written := PutFiles(image, l, first, files, |files|);
      var start := StartOf(first, Sizes(files), i);
      Follow(written, FatIn(written, l), l.firstDataSector, SECTORS_PER_CLUSTER, start, |files[i]|) == Some(files[i])
  {
    hide Follow, PutChains, IsChain, PutFiles, Padded, Contains, ClusterOffset, StartOf, Sizes, Splice, FatIn;
    var sizes := Sizes(files);
    var start := StartOf(first, sizes, i);
    SizeAt(files, i);
    CapacitySuffices(l, first, sizes);
    var fat := PutChains(base, first, sizes, |files|);
    AllChains(base, first, sizes, |files|, i);
    MetadataKept(image, l, first, files, |files|, l.firstFatSector * BYTES_PER_SECTOR, fat);
    var written := PutFiles(image, l, first, files, |files|);
    FatFound(written, l, fat);
    FilesPlaced(image, l, first, files, |files|, i);
    if files[i] == [] {
      FollowNothing(written, fat, l.firstDataSector, start);
    } else {
      FollowFile(written, fat, l, start, files[i], 0);
      assert files[i][0..] == files[i];
    }
  }

  lemma SizeAt(files: seq<seq<Byte>>, i: nat)
    requires i < |files|
    ensures Sizes(files)[i] == |files[i]|
  {
  }

  lemma FatFound(image: seq<Byte>, l: Layout, fat: seq<Byte>)
    requires |fat| == l.sectorsPerFat * BYTES_PER_SECTOR && Contains(image, l.firstFatSector * BYTES_PER_SECTOR, fat)
    ensures (l.firstFatSector + l.sectorsPerFat) * BYTES_PER_SECTOR <= |image| && FatIn(image, l) == fat
  {
  }

  lemma FollowNothing(image: seq<Byte>, fat: seq<Byte>, firstData: nat, c: nat)
    ensures Follow(image, fat, firstData, SECTORS_PER_CLUSTER, c, 0) == Some([])
  {
  }
}
