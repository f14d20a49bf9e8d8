/** Building the FAT image and reading a file from it, in place. */
module FatImage {
  import opened Bytes
  import opened FatLayout
  import opened FatChain

  /** The fixed entries: the two reserved ones and the directories' one-cluster chains. */
  function BaseTable(size: nat, kernelFiles: bool): (r: seq<Byte>)
    ensures |r| == size
  {
    var a := SetEntry(SetEntry(Zeros(size), 0, 0xFFF8), 1, END_OF_CHAIN);
    var b := SetEntry(SetEntry(SetEntry(a, 2, END_OF_CHAIN), 3, END_OF_CHAIN), 5, END_OF_CHAIN);
    if kernelFiles then SetEntry(b, 4, END_OF_CHAIN) else b
  }

  method StoreEntry(fat: array<Byte>, c: Word, v: Word)
    modifies fat
    ensures fat[..] == SetEntry(old(fat[..]), c, v)
  {
    if 2 * c + 2 <= fat.Length {
      StoreU16(fat, 2 * c, v);
    }
  }

  method WriteChain(fat: array<Byte>, start: nat, n: nat)
    modifies fat
    ensures fat[..] == PutChain(old(fat[..]), start, n, n)
  {
    hide SetEntry;
    for i := 0 to n
      invariant fat[..] == PutChain(old(fat[..]), start, n, i)
    {
      var c: Word := (start + i) % 0x1_0000;
      StoreEntry(fat, c, if i + 1 < n then (c + 1) % 0x1_0000 else END_OF_CHAIN);
    }
  }

  /** The whole table: the fixed entries, then each file's chain after the one before. */
  method BuildTable(size: nat, kernelFiles: bool, sizes: seq<nat>) returns (fat: array<Byte>)
    ensures fresh(fat)
    ensures fat[..] == PutChains(BaseTable(size, kernelFiles), if kernelFiles then 6 else 4, sizes, |sizes|)
  {
    hide SetEntry, PutChain;
    fat := new Byte[size](i => 0);
    assert fat[..] == Zeros(size);
    StoreEntry(fat, 0, 0xFFF8);
    StoreEntry(fat, 1, END_OF_CHAIN);
    StoreEntry(fat, 2, END_OF_CHAIN);
    StoreEntry(fat, 3, END_OF_CHAIN);
    StoreEntry(fat, 5, END_OF_CHAIN);
    if kernelFiles {
      StoreEntry(fat, 4, END_OF_CHAIN);
    }
    var first := if kernelFiles then 6 else 4;
    var start := first;
    for j := 0 to |sizes|
      invariant start == StartOf(first, sizes, j)
      invariant fat[..] == PutChains(BaseTable(size, kernelFiles), first, sizes, j)
    {
      WriteChain(fat, start, ClustersOf(sizes[j]));
      start := start + ClustersOf(sizes[j]);
    }
  }

  /** The directories' one-cluster chains survive the files' chains: clusters 2 to 5 with kernel files, 2 and 3
      without. */
  lemma DirectoriesKept(size: nat, kernelFiles: bool, sizes: seq<nat>, c: nat)
    requires 2 <= c <= if kernelFiles then 5 else 3
    requires
      var end := StartOf(if kernelFiles then 6 else 4, sizes, |sizes|);
      2 * end <= size && end <= LAST_CLUSTER
    ensures
      var fat := PutChains(BaseTable(size, kernelFiles), if kernelFiles then 6 else 4, sizes, |sizes|);
      NextCluster(fat, c) == END_OF_CHAIN
  {
    hide PutChains, SetEntry, NextCluster;
    var a := SetEntry(SetEntry(Zeros(size), 0, 0xFFF8), 1, END_OF_CHAIN);
    var b := SetEntry(a, 2, END_OF_CHAIN);
    var d := SetEntry(b, 3, END_OF_CHAIN);
    var e := SetEntry(d, 5, END_OF_CHAIN);
    EntryAfterSet(a, 2, END_OF_CHAIN, c);
    EntryAfterSet(b, 3, END_OF_CHAIN, c);
    EntryAfterSet(d, 5, END_OF_CHAIN, c);
    EntryAfterSet(e, 4, END_OF_CHAIN, c);
    BelowFirst(BaseTable(size, kernelFiles), if kernelFiles then 6 else 4, sizes, |sizes|, c);
  }

  lemma {:induction false} BelowFirst(fat: seq<Byte>, first: nat, sizes: seq<nat>, j: nat, c: nat)
    requires j <= |sizes| && c < first
    requires 2 * StartOf(first, sizes, |sizes|) <= |fat| && StartOf(first, sizes, |sizes|) <= LAST_CLUSTER
    ensures NextCluster(PutChains(fat, first, sizes, j), c) == NextCluster(fat, c)
    decreases j
  {
    hide NextCluster, PutChain;
    if j > 0 {
      BelowFirst(fat, first, sizes, j - 1, c);
      StartsGrow(first, sizes, j, |sizes|);
      var n := ClustersOf(sizes[j - 1]);
      ChainWritten(PutChains(fat, first, sizes, j - 1), StartOf(first, sizes, j - 1), n);
    }
  }

  /** The rest of the table: the two reserved entries, and a free entry for every cluster past the last file, but for
      the fifth, which is taken even without kernel files. */
  lemma RestOfTable(size: nat, kernelFiles: bool, sizes: seq<nat>, c: nat)
    requires 12 <= size && 2 * c + 2 <= size
    requires
      var end := StartOf(if kernelFiles then 6 else 4, sizes, |sizes|);
      2 * end <= size && end <= LAST_CLUSTER && (c < 2 || end <= c < 0x1_0000)
    ensures
      var fat := PutChains(BaseTable(size, kernelFiles), if kernelFiles then 6 else 4, sizes, |sizes|);
      NextCluster(fat, c) == if c == 0 then 0xFFF8 else if c == 1 || c == 5 then END_OF_CHAIN else 0
  {
    hide PutChains, SetEntry, NextCluster;
    var first := if kernelFiles then 6 else 4;
    BaseEntries(size, kernelFiles, c);
    if c < 2 {
      BelowFirst(BaseTable(size, kernelFiles), first, sizes, |sizes|, c);
    } else {
      PastLast(BaseTable(size, kernelFiles), first, sizes, |sizes|, c);
    }
  }

  lemma BaseEntries(size: nat, kernelFiles: bool, c: nat)
    requires 12 <= size && 2 * c + 2 <= size && c < 0x1_0000
    ensures NextCluster(BaseTable(size, kernelFiles), c) ==
      if c == 0 then 0xFFF8
      else if c == 1 || c == 2 || c == 3 || c == 5 || (c == 4 && kernelFiles) then END_OF_CHAIN
      else 0
  {
    hide SetEntry, NextCluster;
    var z := Zeros(size);
    var a := SetEntry(z, 0, 0xFFF8);
    var b := SetEntry(a, 1, END_OF_CHAIN);
    var d := SetEntry(b, 2, END_OF_CHAIN);
    var e := SetEntry(d, 3, END_OF_CHAIN);
    var f := SetEntry(e, 5, END_OF_CHAIN);
    FreeEntry(size, c);
    EntryAfterSet(z, 0, 0xFFF8, c);
    EntryAfterSet(a, 1, END_OF_CHAIN, c);
    EntryAfterSet(b, 2, END_OF_CHAIN, c);
    EntryAfterSet(d, 3, END_OF_CHAIN, c);
    EntryAfterSet(e, 5, END_OF_CHAIN, c);
    EntryAfterSet(f, 4, END_OF_CHAIN, c);
  }

  lemma FreeEntry(size: nat, c: nat)
    requires 2 * c + 2 <= size
    ensures NextCluster(Zeros(size), c) == 0
  {
  }

  lemma {:induction false} PastLast(fat: seq<Byte>, first: nat, sizes: seq<nat>, j: nat, c: nat)
    requires j <= |sizes| && c >= StartOf(first, sizes, |sizes|)
    requires 2 * StartOf(first, sizes, |sizes|) <= |fat| && StartOf(first, sizes, |sizes|) <= LAST_CLUSTER
    ensures NextCluster(PutChains(fat, first, sizes, j), c) == NextCluster(fat, c)
    decreases j
  {
    hide NextCluster, PutChain;
    if j > 0 {
      PastLast(fat, first, sizes, j - 1, c);
      StartsGrow(first, sizes, j, |sizes|);
      ChainWritten(PutChains(fat, first, sizes, j - 1), StartOf(first, sizes, j - 1), ClustersOf(sizes[j - 1]));
    }
  }

  // ----- The capacity check -----

  function TotalClusters(sizes: seq<nat>, j: nat): nat
    requires j <= |sizes|
  {
    if j == 0 then 0 else TotalClusters(sizes, j - 1) + ClustersOf(sizes[j - 1])
  }

  /** The clusters of a file as the builder counts them, in 32-bit arithmetic. */
  function Counted(size: nat): nat
  {
    (size % TWO32 + CLUSTER_BYTES - 1) % TWO32 / CLUSTER_BYTES
  }

  function TotalCounted(sizes: seq<nat>, j: nat): nat
    requires j <= |sizes|
  {
    if j == 0 then 0 else TotalCounted(sizes, j - 1) + Counted(sizes[j - 1])
  }

  /** The builder's check: the files' clusters plus four for directories, or three without kernel files, in
      32-bit arithmetic. */
  predicate CheckPasses(l: Layout, kernelFiles: bool, sizes: seq<nat>)
  {
    l.clusterCount >= (TotalCounted(sizes, |sizes|) + if kernelFiles then 4 else 3) % TWO32
  }

  /** The largest size the builder counts and writes correctly. */
  const LARGEST: nat := TWO32 - CLUSTER_BYTES

  /** A file is counted exactly up to the largest size; beyond it, short. */
  lemma CountedExact(size: nat)
    ensures Counted(size) < 0x10_0000
    ensures size <= LARGEST ==> Counted(size) == ClustersOf(size)
    ensures size > LARGEST ==> ClustersOf(size) >= 0x10_0000
  {
  }

  lemma {:induction false} TotalExact(sizes: seq<nat>, j: nat)
    requires j <= |sizes|
    ensures TotalCounted(sizes, j) <= j * 0x10_0000
    ensures (forall i :: 0 <= i < j ==> sizes[i] <= LARGEST) ==> TotalCounted(sizes, j) == TotalClusters(sizes, j)
    ensures (exists i :: 0 <= i < j && sizes[i] > LARGEST) ==> TotalClusters(sizes, j) >= 0x10_0000
    decreases j
  {
    hide Counted, ClustersOf;
    if j > 0 {
      TotalExact(sizes, j - 1);
      CountedExact(sizes[j - 1]);
    }
  }

  lemma {:induction false} StartIsTotal(first: nat, sizes: seq<nat>, j: nat)
    requires j <= |sizes|
    ensures StartOf(first, sizes, j) == first + TotalClusters(sizes, j)
    decreases j
  {
    if j > 0 {
      StartIsTotal(first, sizes, j - 1);
    }
  }

  /** The files of an image, at most four, fit exactly when the check passes and none is larger than the builder
      can count; without kernel files the check wants one cluster more. */
  lemma CheckExact(l: Layout, kernelFiles: bool, sizes: seq<nat>)
    requires |sizes| <= 4 && l.clusterCount < 0x10_0000
    ensures
      var small := forall i :: 0 <= i < |sizes| ==> sizes[i] <= LARGEST;
      && (kernelFiles ==> (CheckPasses(l, true, sizes) && small <==> CapacityOk(l, 6, sizes)))
      && (!kernelFiles ==> (CheckPasses(l, false, sizes) && small <==> StartOf(4, sizes, |sizes|) - 2 < l.clusterCount))
  {
    hide TotalClusters, TotalCounted;
    TotalExact(sizes, |sizes|);
    StartIsTotal(6, sizes, |sizes|);
    StartIsTotal(4, sizes, |sizes|);
  }

  /** Every layout the builder computes is within that bound. */
  lemma FewClusters(l: Layout)
    requires IsValid(l) && InScope(l.totalSectors)
    ensures l.clusterCount < 0x10_0000
  {
  }

  /** The loop that writes a file compares a 32-bit product with the size: it ends exactly up to the largest
      size. */
  lemma WriteLoopEnds(size: nat)
    ensures (exists k: nat :: Written(k) >= size) <==> size <= LARGEST
  {
    if size <= LARGEST {
      assert Written(0xF_FFFF) == LARGEST;
    }
    forall k: nat ensures Written(k) <= LARGEST {
      MultiplesBelow(k);
    }
  }

  /** Bytes written after `k` turns, as the loop computes them. */
  function Written(k: nat): nat
  {
    k * CLUSTER_BYTES % TWO32
  }

  lemma MultiplesBelow(k: nat)
    ensures k * CLUSTER_BYTES % TWO32 <= LARGEST
  {
    assert (k * CLUSTER_BYTES) % TWO32 == (k % 0x10_0000) * CLUSTER_BYTES;
  }

  /** The layout of the 32 MiB boot partition. */
  const BOOT: Layout := Layout(65536, 32, 8179, 1, 65, 97)

  lemma BootLayout()
    ensures IsValid(BOOT) && ReachedAt(BOOT, 2)
  {
    assert Iterate(65536, 0) == 0;
    assert Iterate(65536, 1) == 32;
    assert Iterate(65536, 2) == 32;
  }

  /** A file that just fits the boot partition without kernel files, and that the check refuses. */
  lemma TooStrictExample()
    ensures
      var sizes := [8177 * CLUSTER_BYTES];
      IsValid(BOOT) && CapacityOk(BOOT, 4, sizes) && !CheckPasses(BOOT, false, sizes)
  {
    var sizes := [8177 * CLUSTER_BYTES];
    assert TotalCounted(sizes, 1) == TotalCounted(sizes, 0) + Counted(sizes[0]);
    assert StartOf(4, sizes, 1) == StartOf(4, sizes, 0) + ClustersOf(sizes[0]);
  }

  /** A file of 4 GiB, which the check takes for an empty one. */
  lemma HugeFilePasses()
    ensures CheckPasses(BOOT, false, [TWO32]) && !CapacityOk(BOOT, 4, [TWO32])
  {
    var sizes := [TWO32];
    assert TotalCounted(sizes, 1) == TotalCounted(sizes, 0) + Counted(sizes[0]);
    assert StartOf(4, sizes, 1) == StartOf(4, sizes, 0) + ClustersOf(sizes[0]);
  }

  /** The 32 MiB boot partition has few enough clusters for every chain number to be a real one. */
  lemma BootPartitionInRange(l: Layout)
    requires IsValid(l) && l.totalSectors == 32 * 2048
    ensures l.clusterCount + 2 <= LAST_CLUSTER
  {
  }

  // ----- Writing a file -----

  /** Writes a file cluster by cluster, filling the last one with zeros. */
  method WriteFile(image: array<Byte>, l: Layout, file: seq<Byte>, start: nat)
    requires start >= 2 && ClusterOffset(l, start) + |Padded(file)| <= image.Length
    modifies image
    ensures image[..] == Splice(old(image[..]), ClusterOffset(l, start), Padded(file))
  {
    hide Splice, Padded, ClusterOffset;
    var off := ClusterOffset(l, start);
    SpliceNothing(image[..], off);
    PaddedPrefix(file, 0);
    var k := 0;
    while k * CLUSTER_BYTES < |file|
      invariant k * CLUSTER_BYTES <= |Padded(file)| && k <= ClustersOf(|file|)
      invariant image[..] == Splice(old(image[..]), off, Padded(file)[..k * CLUSTER_BYTES])
    {
      var done := k * CLUSTER_BYTES;
      var n := Min(|file| - done, CLUSTER_BYTES);
      var chunk := file[done..done + n] + Zeros(CLUSTER_BYTES - n);
      PaddedPrefix(file, k + 1);
      OffsetStep(l, start, k);
      SpliceTwice(old(image[..]), off, Padded(file)[..done], chunk);
      CopyBytes(image, ClusterOffset(l, start + k), chunk);
      k := k + 1;
    }
    WholePadded(file, k);
  }

  /** The padded file, one more cluster at a time. */
  lemma PaddedPrefix(file: seq<Byte>, k: nat)
    requires k <= ClustersOf(|file|)
    ensures k * CLUSTER_BYTES <= |Padded(file)|
    ensures k == 0 ==> Padded(file)[..k * CLUSTER_BYTES] == []
    ensures k > 0 ==>
      var done := (k - 1) * CLUSTER_BYTES;
      && done <= |file|
      && var n := Min(|file| - done, CLUSTER_BYTES);
      Padded(file)[..k * CLUSTER_BYTES] == Padded(file)[..done] + (file[done..done + n] + Zeros(CLUSTER_BYTES - n))
  {
    if k > 0 {
      var done := (k - 1) * CLUSTER_BYTES;
      var n := Min(|file| - done, CLUSTER_BYTES);
      var p := Padded(file);
      assert p[done..k * CLUSTER_BYTES] == file[done..done + n] + Zeros(CLUSTER_BYTES - n);
      assert p[..k * CLUSTER_BYTES] == p[..done] + p[done..k * CLUSTER_BYTES];
    }
  }

  lemma WholePadded(file: seq<Byte>, k: nat)
    requires k * CLUSTER_BYTES >= |file| && k <= ClustersOf(|file|) && k * CLUSTER_BYTES <= |Padded(file)|
    ensures Padded(file)[..k * CLUSTER_BYTES] == Padded(file)
  {
    assert k == ClustersOf(|file|);
  }

  /** Writes every file at its start cluster. */
  method WriteFiles(image: array<Byte>, l: Layout, first: nat, files: seq<seq<Byte>>)
    requires first >= 2 && ClusterOffset(l, StartOf(first, Sizes(files), |files|)) <= image.Length
    modifies image
    ensures image[..] == PutFiles(old(image[..]), l, first, files, |files|)
  {
    hide Splice, Padded, ClusterOffset, Sizes;
    var start := first;
    for j := 0 to |files|
      invariant start == StartOf(first, Sizes(files), j)
      invariant image[..] == PutFiles(old(image[..]), l, first, files, j)
    {
      FileFits(l, first, files, j, image.Length);
      SizeAt(files, j);
      WriteFile(image, l, files[j], start);
      start := start + ClustersOf(|files[j]|);
    }
  }

  // ----- Reading a file -----

  /** Reads a file's chain into a buffer of whole sectors that can hold the file. It ends on any table,
      looping ones included, and stays inside the buffer. */
  method ReadFile(image: seq<Byte>, fat: seq<Byte>, firstData: nat, perCluster: nat, start: Word, size: nat,
                  buf: array<Byte>)
      returns (ok: bool, count: nat)
    requires perCluster > 0 && size <= buf.Length && buf.Length % BYTES_PER_SECTOR == 0
    modifies buf
    ensures
      var r := Follow(image, fat, firstData, perCluster, start, size);
      && (ok <==> r.Some?)
      && (ok ==> count == |r.value| <= size && buf[..count] == r.value)
  {
    hide Follow, ReadCluster, NextCluster;
    var c: Word, remaining: nat, pos: nat := start, size, 0;
    ghost var goal := Follow(image, fat, firstData, perCluster, start, size);
    ghost var got: seq<Byte> := [];
    Prefixed(got, goal);
    while 2 <= c < LAST_CLUSTER && remaining > 0
      invariant remaining + pos == size && |got| == pos && buf[..pos] == got
      invariant pos % BYTES_PER_SECTOR == 0 || remaining == 0
      invariant goal == Prefix(got, Follow(image, fat, firstData, perCluster, c, remaining))
      decreases remaining
    {
      FollowStep(image, fat, firstData, perCluster, c, remaining);
      var n := Min(remaining, perCluster * BYTES_PER_SECTOR);
      ghost var sector := firstData + (c - 2) * perCluster;
      var fine := ReadSectors(image, firstData + (c - 2) * perCluster, perCluster, n, buf, pos);
      if !fine {
        return false, pos;
      }
      ghost var chunk := ReadCluster(image, sector, n).value;
      PrefixStep(got, chunk, Follow(image, fat, firstData, perCluster, NextCluster(fat, c), remaining - n));
      got := got + chunk;
      pos := pos + n;
      remaining := remaining - n;
      c := NextCluster(fat, c);
    }
    FollowEnd(image, fat, firstData, perCluster, c, remaining);
    assert got + [] == got;
    return true, pos;
  }

  /** Copies a sector to the buffer, of which the first `step` bytes belong to the file. */
  method CopySector(buf: array<Byte>, at: nat, sector: seq<Byte>, step: nat)
    requires |sector| == BYTES_PER_SECTOR && at + BYTES_PER_SECTOR <= buf.Length && step <= BYTES_PER_SECTOR
    modifies buf
    ensures buf[..at + step] == old(buf[..at]) + sector[..step]
  {
    CopyBytes(buf, at, sector);
  }

  /** What has been read of a range of the image. */
  ghost function Taken(image: seq<Byte>, base: nat, n: nat): seq<Byte>
  {
    if base + n <= |image| then image[base..base + n] else []
  }

  lemma TakenStep(front: seq<Byte>, image: seq<Byte>, base: nat, n: nat, sector: seq<Byte>, step: nat)
    requires base + n + |sector| <= |image| && sector == image[base + n..base + n + |sector|] && step <= |sector|
    ensures front + Taken(image, base, n) + sector[..step] == front + Taken(image, base, n + step)
  {
    assert sector[..step] == image[base + n..base + n + step];
    assert image[base..base + n] + image[base + n..base + n + step] == image[base..base + n + step];
  }

  /** The sectors of one cluster, until the cluster or the file ends. */
  method ReadSectors(image: seq<Byte>, sector: nat, perCluster: nat, n: nat, buf: array<Byte>,
                     pos: nat) returns (ok: bool)
    requires 0 < n <= perCluster * BYTES_PER_SECTOR && pos + n <= buf.Length
    requires pos % BYTES_PER_SECTOR == 0 && buf.Length % BYTES_PER_SECTOR == 0
    modifies buf
    ensures ok <==> ReadCluster(image, sector, n).Some?
    ensures ok ==> |ReadCluster(image, sector, n).value| == n
    ensures ok ==> buf[..pos + n] == old(buf[..pos]) + ReadCluster(image, sector, n).value
  {
    hide Taken;
    ghost var base, front := sector * BYTES_PER_SECTOR, buf[..pos];
    TakenNothing(front, image, base);
    var s, left := 0, n;
    while s < perCluster && left > 0
      invariant left == (if s * BYTES_PER_SECTOR >= n then 0 else n - s * BYTES_PER_SECTOR)
      invariant s > 0 ==> (s - 1) * BYTES_PER_SECTOR < n && (sector + s) * BYTES_PER_SECTOR <= |image|
      invariant buf[..pos + (n - left)] == front + Taken(image, base, n - left)
    {
      var lba := (sector + s) * BYTES_PER_SECTOR;
      if lba + BYTES_PER_SECTOR > |image| {
        return false;
      }
      var bytes := image[lba..lba + BYTES_PER_SECTOR];
      var step := Min(left, BYTES_PER_SECTOR);
      RoomForSector(pos, s, n, buf.Length);
      TakenStep(front, image, base, n - left, bytes, step);
      CopySector(buf, pos + (n - left), bytes, step);
      left := left - step;
      s := s + 1;
    }
    TakenAll(image, sector, n, s);
    return true;
  }

  lemma TakenNothing(front: seq<Byte>, image: seq<Byte>, base: nat)
    ensures front + Taken(image, base, 0) == front
  {
  }

  lemma RoomForSector(pos: nat, s: nat, n: nat, length: nat)
    requires pos % BYTES_PER_SECTOR == 0 && length % BYTES_PER_SECTOR == 0
    requires s * BYTES_PER_SECTOR < n && pos + n <= length
    ensures pos + s * BYTES_PER_SECTOR + BYTES_PER_SECTOR <= length
  {
    var p, l := pos / BYTES_PER_SECTOR, length / BYTES_PER_SECTOR;
    assert pos == p * BYTES_PER_SECTOR && length == l * BYTES_PER_SECTOR;
    assert (p + s) * BYTES_PER_SECTOR < l * BYTES_PER_SECTOR;
  }

  lemma TakenAll(image: seq<Byte>, sector: nat, n: nat, s: nat)
    requires 0 < n <= s * BYTES_PER_SECTOR && (s - 1) * BYTES_PER_SECTOR < n
    requires (sector + s) * BYTES_PER_SECTOR <= |image|
    ensures ReadCluster(image, sector, n) == Some(Taken(image, sector * BYTES_PER_SECTOR, n))
    ensures |Taken(image, sector * BYTES_PER_SECTOR, n)| == n
  {
    assert (n + BYTES_PER_SECTOR - 1) / BYTES_PER_SECTOR == s;
  }

  lemma Prefixed(got: seq<Byte>, r: Option<seq<Byte>>)
    requires got == []
    ensures Prefix(got, r) == r
  {
    if r.Some? {
      assert got + r.value == r.value;
    }
  }

  lemma PrefixStep(got: seq<Byte>, chunk: seq<Byte>, r: Option<seq<Byte>>)
    ensures Prefix(got, Prefix(chunk, r)) == Prefix(got + chunk, r)
  {
    if r.Some? {
      assert got + (chunk + r.value) == got + chunk + r.value;
    }
  }
}
