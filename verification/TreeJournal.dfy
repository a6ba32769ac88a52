// The file tree through crashes: whatever the kernel's syncs commit, and
// wherever the power is cut, the next mount can rebuild the tree it recovers,
// and a tree that was synced comes back.
module TreeJournal {
  import opened Bytes
  import opened JournalFormat
  import opened JournalDisk
  import opened JournalRecords
  import opened JournalRuns
  import opened JournalDurability
  import opened JournalLists
  import opened JournalSession
  import opened JournalRestore
  import opened FileSync
  import opened SparseFiles
  import opened FileTree
  import opened TreeRebuild
  import opened TreeWalk
  import opened TreeSync
  import MountPlan
  import opened Paths

  /** A snapshot every mount can turn into a file tree. */
  ghost predicate Treelike(s: Snapshot) {
    s.version == VERSION && exists rs :: Lists(s, rs) && Rebuildable(rs) && WriterList(rs)
  }

  /** What the calls of a kernel commit over `a`: a walked tree, or the sync of
      one file. */
  ghost predicate KernelCommit(a: Snapshot, b: Snapshot) {
    || (exists v :: ValidView(v) && SnapshotOf(b, v))
    || (exists target, live, includeMetadata :: KeptInode(live) && SyncedWith(a, b, target, live, includeMetadata))
  }

  predicate KeptInode(live: Inode) {
    SparseImage(live.data) && live.mode <= 0xFFF
  }

  ghost predicate KernelCommits(run: seq<Sys>) {
    forall i :: 0 <= i < |run| - 1 && run[i].phase.Ready? && run[i + 1].phase.Writing? ==>
      KernelCommit(run[i].phase.mem.snap, run[i + 1].phase.next)
  }

  lemma WalkedIsTreelike(s: Snapshot, v: View)
    requires ValidView(v) && SnapshotOf(s, v) && s.version == VERSION
    ensures Treelike(s)
  {
    hide ValidView, WalkOf, Rebuildable, WriterList, PayloadBytes, RebuildOf, SameTree, Rebuilt;
    SyncThenRestore(v, 0);
    var rs := WalkOf(v).records;
    WriterSmall(rs);
    assert Lists(s, rs);
  }

  lemma WriterSmall(rs: seq<Record>)
    requires WriterList(rs)
    ensures |rs| < 0x1_0000_0000
  {
    hide AllRestorable;
    FewRecords(rs);
  }

  lemma SyncedIsTreelike(a: Snapshot, b: Snapshot, target: Name, live: Inode, includeMetadata: bool)
    requires Treelike(a) && KeptInode(live) && SyncedWith(a, b, target, live, includeMetadata) && b.version == VERSION
    ensures Treelike(b)
  {
    hide Rebuildable, WriterList, PayloadBytes, FileSyncOf, RebuildOf, SameTree, SparseImage, Decoded;
    var rs :| Lists(a, rs) && Rebuildable(rs) && WriterList(rs);
    var m := SyncMoves(rs, target, live, includeMetadata);
    MovedRebuildable(rs, m, Merged(rs[m], live, includeMetadata));
    SyncKeepsWriter(rs, target, live, includeMetadata);
    var next := FileSyncOf(a.payload, a.count, target, live, includeMetadata).records;
    WriterSmall(next);
    assert Lists(b, next);
  }

  lemma CommitIsTreelike(a: Snapshot, b: Snapshot)
    requires KernelCommit(a, b) && b.version == VERSION && (a == FRESH || Treelike(a))
    ensures Treelike(b)
  {
    hide Treelike, ValidView, SnapshotOf, KeptInode, FileSyncOf, PayloadBytes;
    if v :| ValidView(v) && SnapshotOf(b, v) {
      WalkedIsTreelike(b, v);
    } else {
      var target, live, includeMetadata :| KeptInode(live) && SyncedWith(a, b, target, live, includeMetadata);
      SyncedIsTreelike(a, b, target, live, includeMetadata);
    }
  }

  lemma BegunVersion(s: Sys, t: Sys, bs: BlockSize)
    requires Inv(s, bs) && Inv(t, bs) && Next(s, t, bs) && s.phase.Ready? && t.phase.Writing?
    ensures t.phase.next.version == VERSION
  {
    hide Settled, Recover, Blocks, Read32, ReadRun, HeaderBlock;
  }

  ghost predicate CarriesTrees(c: DurableCell) {
    (c.durable == FRESH || Treelike(c.durable)) && (c.pending.Some? ==> Treelike(c.pending.value))
  }

  lemma {:induction false} TreesUpTo(run: seq<Sys>, bs: BlockSize, j: nat)
    requires IsRun(run, bs) && FreshDisk(run[0].media.now, bs) && KernelCommits(run) && j < |run|
    ensures Inv(run[j], bs) && CarriesTrees(Abstract(run[j], bs))
  {
    hide Inv, Next, Abstract, Treelike, KernelCommit, FreshDisk, Init;
    RunInvariant(run, bs, j);
    if j == 0 {
      FreshAbstract(run[0], bs);
    } else {
      TreesUpTo(run, bs, j - 1);
      var s, t := run[j - 1], run[j];
      assert Next(s, t, bs) by { assert Next(run[j - 1], run[j - 1 + 1], bs); }
      StepRefines(s, t, bs);
      StepCases(s, t, bs);
      if s.phase.Ready? && t.phase.Writing? {
        assert KernelCommit(run[j - 1].phase.mem.snap, run[j - 1 + 1].phase.next);
        BegunVersion(s, t, bs);
        ReadyDurable(s, bs);
        CommitIsTreelike(s.phase.mem.snap, t.phase.next);
      }
    }
  }

  lemma ReadyDurable(s: Sys, bs: BlockSize)
    requires Inv(s, bs) && s.phase.Ready?
    ensures Abstract(s, bs).durable == s.phase.mem.snap
  {
    hide Settled, Recover;
  }

  /** The records of what a mount recovers, and that all operations of its
      restore succeed. */
  ghost predicate Rebuilds(s: Snapshot, rs: seq<Record>, tick: u64) {
    && Lists(s, rs) && RestoreOf(s.payload, s.version, s.count) == Restored
    && RebuildOf(rs, tick).Done? && Rebuilt(RebuildOf(rs, tick).tree, rs)
  }

  lemma TreelikeRebuilds(s: Snapshot, tick: u64) returns (rs: seq<Record>)
    requires Treelike(s)
    ensures Rebuilds(s, rs, tick)
  {
    hide Rebuildable, Rebuilt, WriterList, RestoreOf, RebuildOf, PayloadBytes;
    rs :| Lists(s, rs) && Rebuildable(rs) && WriterList(rs);
    RebuildMeaning(rs, tick);
    assert Written(s);
    WrittenRestores(s);
  }

  /** No crash leaves a disk whose tree cannot be rebuilt: at any state of any
      run of walked-tree and one-file commits, with any failures, the mount of
      any crash image finds nothing yet or a list all of whose operations
      succeed. */
  lemma EveryMountRebuilds(run: seq<Sys>, bs: BlockSize, j: nat, image: seq<Block>, tick: u64) returns (rs: seq<Record>)
    requires IsRun(run, bs) && FreshDisk(run[0].media.now, bs) && KernelCommits(run) && j < |run|
    requires CrashImage(run[j].media, image)
    ensures IsDisk(image, bs) && Recover(image, bs).Mounted?
    ensures var snap := Recover(image, bs).memory.snap; snap == FRESH || Rebuilds(snap, rs, tick)
  {
    hide Inv, Next, Abstract, Treelike, FreshDisk, Init, Recover, CrashImage, IsDisk, Rebuilds, KernelCommits;
    TreesUpTo(run, bs, j);
    RunCrashSafe(run, bs, j, image);
    rs := [];
    var snap := Recover(image, bs).memory.snap;
    if snap != FRESH {
      rs := TreelikeRebuilds(snap, tick);
    }
  }

  /** A synced tree comes back: once a global sync has reported durable success,
      then after any later crash the mount finds a newer generation or rebuilds
      the very tree that was synced, names, contents, links, modes, ticks and
      owners. */
  lemma SyncedTreeReturns(mounts: seq<MountPlan.MountEntry>, mountId: nat, v: View, run: seq<Sys>, e: nat, j: nat,
                          image: seq<Block>, bs: BlockSize, tick: u64)
    requires IsRun(run, bs) && ValidView(v) && Acknowledged(Global(mounts, mountId, v), run, e) && e <= j < |run|
    requires CrashImage(run[j].media, image)
    ensures IsDisk(image, bs) && Recover(image, bs).Mounted?
    ensures var snap, rs := Recover(image, bs).memory.snap, WalkOf(v).records;
            || snap.generation > run[e - 1].phase.next.generation
            || (Lists(snap, rs) && RebuildOf(rs, tick).Done? && SameTree(v.tree, RebuildOf(rs, tick).tree))
  {
    hide IsRun, CrashImage, Recover, IsDisk, ValidView, WalkOf, PayloadBytes, RebuildOf, SameTree, Rebuildable, Rebuilt,
      WriterList;
    AcknowledgedCallSurvives(Global(mounts, mountId, v), run, e, j, image, bs);
    SyncThenRestore(v, tick);
    WriterSmall(WalkOf(v).records);
  }

  /** What `fsync` takes from the live file. */
  function InodeOf(n: Node): Inode
    requires n.File? && Kept(n)
  {
    StoredSize(n);
    Inode(n.meta.mode, n.meta.times, n.meta.owner, StoredFile(n.contents))
  }

  /** After `fsync` of a file the rebuilt tree holds that very file, under all
      its names, and is otherwise the tree rebuilt before. */
  lemma FsyncedFileReturns(rs: seq<Record>, target: Name, n: Node, tick: u64)
    requires Rebuildable(rs) && n.File? && Kept(n)
    requires FileSyncOf(PayloadBytes(rs), |rs|, target, InodeOf(n), true).Payload?
    ensures RebuildOf(rs, tick).Done? && Fold(target) in RebuildOf(rs, tick).tree.entries
    ensures var was := RebuildOf(rs, tick).tree;
            var after := RebuildOf(FileSyncOf(PayloadBytes(rs), |rs|, target, InodeOf(n), true).records, tick);
            after.Done? && SameTree(SetNode(was, was.entries[Fold(target)].node, n), after.tree)
  {
    hide FileSyncOf, PayloadBytes, Rebuildable, SameTree, RebuildOf, Decoded, StoredFile, SparseImage, Fold;
    StoredReturns(n);
    var m := FileSyncRebuilds(rs, target, InodeOf(n), true, tick);
  }
}
