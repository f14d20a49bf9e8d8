/** A snapshot on the disk: what the store promises and what the codec promises, together. */
module Persistence {
  import opened Bytes
  import opened FileTree
  import opened InodeTable
  import opened Snapshot
  import opened SnapshotCodec
  import opened Replay
  import opened SnapshotIo
  import Storage

  /** In any state the store can reach, reading a stored snapshot and replaying it onto an empty file
      system gives back exactly the files that were saved. */
  lemma StoredSnapshotRestores(st: Storage.Store, es: seq<Storage.Extent>, k: nat, s: seq<Inode>)
    requires Storage.Inv(st, es) && k < |es|
    requires Walkable(s) && |s| <= MAX_INODES && Storable(TreeOf(s))
    requires IsDir(TreeOf(s), "/") && AllEncodable(WalkAll(s, "/"))
    requires es[k].data == EncodeAll(WalkAll(s, "/"))
    ensures Inv(EMPTY)
    ensures
      var n := Storage.SectorsOf(|es[k].data|);
      && es[k].start + n <= |st.disk|
      && Files(RewriteAll(EMPTY, Parse(Storage.ReadSectors(st.disk, es[k].start, n), 0)).tree) == Files(TreeOf(s))
  {
    hide *;
    Storage.ExtentReadsBack(st, es, k);
    var n := Storage.SectorsOf(|es[k].data|);
    SavedRestores(s, n * SECTOR - |es[k].data|);
  }
}
