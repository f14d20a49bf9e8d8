/** The FAT16 layout of the boot partition, found by iterating on the size of the table. */
module FatLayout {
  const BYTES_PER_SECTOR: nat := 512
  const SECTORS_PER_CLUSTER: nat := 8
  const RESERVED_SECTORS: nat := 1
  const NUM_FATS: nat := 2
  const ROOT_SECTORS: nat := 32

  datatype Layout = Layout(totalSectors: nat, sectorsPerFat: nat, clusterCount: nat,
                           firstFatSector: nat, rootDirSector: nat, firstDataSector: nat)

  /** The table has an entry for every cluster and the two reserved ones, and everything fits. */
  predicate IsValid(l: Layout)
  {
    && l.firstFatSector == RESERVED_SECTORS
    && l.rootDirSector == RESERVED_SECTORS + NUM_FATS * l.sectorsPerFat
    && l.firstDataSector == l.rootDirSector + ROOT_SECTORS
    && (l.clusterCount + 2) * 2 <= l.sectorsPerFat * BYTES_PER_SECTOR
    && l.firstDataSector + l.clusterCount * SECTORS_PER_CLUSTER <= l.totalSectors
  }

  // ----- One step of the iteration -----

  /** Sectors left for data with a table of `fat` sectors, in 32-bit arithmetic. */
  function DataSectors(total: nat, fat: nat): nat
  {
    (total - RESERVED_SECTORS - ROOT_SECTORS - NUM_FATS * fat) % 0x1_0000_0000
  }

  function Clusters(total: nat, fat: nat): nat
  {
    DataSectors(total, fat) / SECTORS_PER_CLUSTER
  }

  function FatFor(clusters: nat): nat
  {
    ((clusters + 2) * 2 + BYTES_PER_SECTOR - 1) / BYTES_PER_SECTOR
  }

  function Next(total: nat, fat: nat): nat
  {
    FatFor(Clusters(total, fat))
  }

  /** Disk sizes the 32-bit sector count can hold: 1 to 4095 MiB. */
  predicate InScope(total: nat)
  {
    2048 <= total <= 4095 * 2048
  }

  /** A table size reached by the iteration leaves room for data. */
  predicate Roomy(total: nat, fat: nat)
  {
    RESERVED_SECTORS + ROOT_SECTORS + NUM_FATS * fat <= total
  }

  lemma NextRoomy(total: nat, fat: nat)
    requires InScope(total) && Roomy(total, fat)
    ensures Roomy(total, Next(total, fat))
  {
    assert Clusters(total, fat) * SECTORS_PER_CLUSTER <= total;
  }

  /** A larger table leaves fewer clusters, which need a smaller table. */
  lemma NextAntitone(total: nat, a: nat, b: nat)
    requires InScope(total) && a <= b && Roomy(total, b)
    ensures Next(total, b) <= Next(total, a)
  {
    assert DataSectors(total, b) <= DataSectors(total, a);
    assert Clusters(total, b) <= Clusters(total, a);
  }

  /** The sizes the iteration goes through. */
  function Iterate(total: nat, i: nat): nat
  {
    if i == 0 then 0 else Next(total, Iterate(total, i - 1))
  }

  /** The iteration swings: up on even steps, down on odd ones. */
  lemma {:induction false} Swing(total: nat, i: nat)
    requires InScope(total)
    ensures Roomy(total, Iterate(total, i)) && Roomy(total, Iterate(total, i + 1))
    ensures i % 2 == 0 ==> Iterate(total, i) <= Iterate(total, i + 1)
    ensures i % 2 == 1 ==> Iterate(total, i) >= Iterate(total, i + 1)
  {
    hide Next, InScope, Roomy;
    if i == 0 {
      StartRoomy(total);
    } else {
      Swing(total, i - 1);
      var a, b := Iterate(total, i - 1), Iterate(total, i);
      NextRoomy(total, b);
      if a <= b {
        NextAntitone(total, a, b);
      } else {
        NextAntitone(total, b, a);
      }
    }
  }

  lemma StartRoomy(total: nat)
    requires InScope(total)
    ensures Roomy(total, 0) && Roomy(total, Next(total, 0))
  {
    NextRoomy(total, 0);
  }

  /** With a table no larger than the one the clusters were counted for, everything fits. */
  lemma Fits(total: nat, before: nat, fat: nat)
    requires InScope(total) && Roomy(total, before) && fat <= before && fat == Next(total, before)
    ensures (Clusters(total, before) + 2) * 2 <= fat * BYTES_PER_SECTOR
    ensures RESERVED_SECTORS + NUM_FATS * fat + ROOT_SECTORS + Clusters(total, before) * SECTORS_PER_CLUSTER <= total
  {
  }

  /** The layout takes its table and its clusters from step `i`. */
  predicate ReachedAt(l: Layout, i: nat)
    requires i > 0
  {
    && l.sectorsPerFat == Iterate(l.totalSectors, i)
    && l.clusterCount == Clusters(l.totalSectors, Iterate(l.totalSectors, i - 1))
  }

  /** Sixteen steps at most; the layout is valid whether or not they reach a fixed point, because the
      count stops after an even number. */
  method ComputeLayout(sizeMiB: nat) returns (l: Layout)
    requires 1 <= sizeMiB <= 4095
    ensures IsValid(l) && l.totalSectors == sizeMiB * 2048
    ensures exists i :: 0 < i <= 16 && ReachedAt(l, i)
  {
    hide Next, Clusters;
    var total := sizeMiB * 1024 * 1024 / BYTES_PER_SECTOR;
    assert total == sizeMiB * 2048;
    var fat, clusters, i := 0, 0, 0;
    while i < 16
      invariant i <= 16 && fat == Iterate(total, i)
      invariant i > 0 ==> clusters == Clusters(total, Iterate(total, i - 1))
    {
      Swing(total, i);
      var newClusters := Clusters(total, fat);
      var newFat := FatFor(newClusters);
      NextIs(total, fat);
      if newFat == fat {
        clusters := newClusters;
        Fits(total, fat, fat);
        i := i + 1;
        break;
      }
      fat := newFat;
      clusters := newClusters;
      i := i + 1;
    }
    if i == 16 {
      Swing(total, 15);
      Fits(total, Iterate(total, 15), fat);
    }
    var root := RESERVED_SECTORS + NUM_FATS * fat;
    l := Layout(total, fat, clusters, RESERVED_SECTORS, root, root + ROOT_SECTORS);
    assert ReachedAt(l, i);
  }

  lemma NextIs(total: nat, fat: nat)
    ensures Next(total, fat) == FatFor(Clusters(total, fat))
  {
  }
}
