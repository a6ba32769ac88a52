// Selective durability over whole runs: what one-file syncs, I/O failures and
// crashes can and cannot change on the disk.
module JournalDurability {
  import opened Bytes
  import opened Checksums
  import opened JournalFormat
  import opened JournalDisk
  import opened JournalRecords
  import opened JournalRuns
  import opened FileSync

  /** The snapshot's payload is the serialization of these records. */
  ghost predicate Lists(s: Snapshot, rs: seq<Record>) {
    s.payload == PayloadBytes(rs) && s.count == |rs| < 0x1_0000_0000
  }

  ghost predicate SyncedWith(a: Snapshot, b: Snapshot, target: Name, live: Inode, includeMetadata: bool) {
    && 4 <= |a.payload|
    && FileSyncOf(a.payload, a.count, target, live, includeMetadata).Payload?
    && var rs := FileSyncOf(a.payload, a.count, target, live, includeMetadata).records;
       b.payload == PayloadBytes(rs) && b.count == |rs|
  }

  /** `b` is what a sync of some file other than `q` commits over `a`. */
  ghost predicate SyncsAnother(a: Snapshot, b: Snapshot, q: Name) {
    exists target, live, includeMetadata :: target != q && SyncedWith(a, b, target, live, includeMetadata)
  }

  /** A record list is determined by its payload. */
  lemma ListsUnique(s: Snapshot, a: seq<Record>, b: seq<Record>)
    requires Lists(s, a) && Lists(s, b)
    ensures a == b
  {
    hide RecordBytes, Serialize, Le;
    assert s.payload[4..] == Serialize(a) && s.payload[4..] == Serialize(b);
    SerializeInjective(a, b);
  }

  /** A sync of another file changes nothing recorded under `q`. */
  lemma SyncKeepsOthers(a: Snapshot, b: Snapshot, rs: seq<Record>, q: Name) returns (qs: seq<Record>)
    requires SyncsAnother(a, b, q) && Lists(a, rs)
    ensures Lists(b, qs) && Named(qs, q) == Named(rs, q)
  {
    hide FileSyncOf, PayloadBytes;
    var target, live, includeMetadata :| target != q && SyncedWith(a, b, target, live, includeMetadata);
    var listed := FileSyncMeaning(a.payload, a.count, target, live, includeMetadata);
    ListsUnique(a, rs, listed);
    qs := FileSyncOf(a.payload, a.count, target, live, includeMetadata).records;
  }

  /** Every commit begun from state `start` on is a one-file sync of something
      else. */
  ghost predicate OnlyOthersSynced(run: seq<Sys>, start: nat, q: Name) {
    forall i :: start <= i < |run| - 1 && run[i].phase.Ready? && run[i + 1].phase.Writing? ==>
      SyncsAnother(run[i].phase.mem.snap, run[i + 1].phase.next, q)
  }

  /** The durable list, and the list in flight when there is one. */
  ghost predicate Carries(c: DurableCell, rs: seq<Record>, inFlight: seq<Record>) {
    Lists(c.durable, rs) && (c.pending.Some? ==> Lists(c.pending.value, inFlight))
  }

  lemma {:induction false} UntouchedUpTo(run: seq<Sys>, bs: BlockSize, i: nat, j: nat, rs: seq<Record>, q: Name)
    returns (now: seq<Record>, inFlight: seq<Record>)
    requires IsRun(run, bs) && i <= j < |run| && OnlyOthersSynced(run, i, q)
    requires run[i].phase.Off? || run[i].phase.Ready?
    requires MediaOk(run[i].media, bs) && Lists(Abstract(run[i], bs).durable, rs)
    ensures Inv(run[j], bs) && Carries(Abstract(run[j], bs), now, inFlight)
    ensures Named(now, q) == Named(rs, q)
    ensures Abstract(run[j], bs).pending.Some? ==> Named(inFlight, q) == Named(rs, q)
    decreases j
  {
    hide Lists, Inv, Next, Named, MediaOk, Abstract, Init;
    RunInvariant(run, bs, j);
    InvMedia(run[j], bs);
    if i == j {
      QuietAbstract(run[i], bs);
      now, inFlight := rs, rs;
    } else {
      now, inFlight := UntouchedUpTo(run, bs, i, j - 1, rs, q);
      RunInvariant(run, bs, j - 1);
      InvMedia(run[j - 1], bs);
      var s, t := run[j - 1], run[j];
      assert Next(s, t, bs) by { assert Next(run[j - 1], run[j - 1 + 1], bs); }
      StepRefines(s, t, bs);
      StepCases(s, t, bs);
      var c, d := Abstract(s, bs), Abstract(t, bs);
      if d == c {
      } else if c.pending.Some? {
        if d.durable == c.pending.value {
          now := inFlight;
        }
      } else {
        assert i <= j - 1 && run[j - 1].phase.Ready? && run[j - 1 + 1].phase.Writing?;
        inFlight := SyncKeepsOthers(s.phase.mem.snap, t.phase.next, now, q);
      }
    }
  }

  lemma InvMedia(s: Sys, bs: BlockSize)
    requires Inv(s, bs)
    ensures MediaOk(s.media, bs)
  {
  }

  lemma QuietAbstract(s: Sys, bs: BlockSize)
    requires MediaOk(s.media, bs) && (s.phase.Off? || s.phase.Ready?)
    ensures Abstract(s, bs).pending.None?
  {
  }

  /** Only beginning a commit puts something in flight. */
  lemma StepCases(s: Sys, t: Sys, bs: BlockSize)
    requires Inv(s, bs) && Inv(t, bs) && Next(s, t, bs)
    ensures Abstract(t, bs).pending.Some? && Abstract(s, bs).pending.None? ==>
              s.phase.Ready? && t.phase.Writing? && Abstract(s, bs).durable == s.phase.mem.snap
              && Abstract(t, bs) == DurableCell(s.phase.mem.snap, Some(t.phase.next))
  {
    hide Settled, Recover, Blocks, Read32, ReadRun, HeaderBlock;
  }

  /** Dirty state of a file never becomes durable through another file's sync:
      through any run of one-file syncs of other files, with any failures and
      crashes, every mount recovers the very record of `q` that was durable at
      the start. */
  lemma UnsyncedNeverDurable(run: seq<Sys>, bs: BlockSize, i: nat, j: nat, rs: seq<Record>, q: Name, image: seq<Block>)
    returns (recovered: seq<Record>)
    requires IsRun(run, bs) && i <= j < |run| && OnlyOthersSynced(run, i, q)
    requires run[i].phase.Off? || run[i].phase.Ready?
    requires MediaOk(run[i].media, bs) && Lists(Abstract(run[i], bs).durable, rs)
    requires CrashImage(run[j].media, image)
    ensures IsDisk(image, bs) && Recover(image, bs).Mounted?
    ensures Lists(Recover(image, bs).memory.snap, recovered) && Named(recovered, q) == Named(rs, q)
  {
    hide Lists, Inv, IsRun, Recover, CrashImage, Abstract, Settled, MediaOk, OnlyOthersSynced, Named;
    var now, inFlight := UntouchedUpTo(run, bs, i, j, rs, q);
    CrashSafe(run[j], image, bs);
    InvMedia(run[j], bs);
    recovered := if Recover(image, bs).memory.snap == Abstract(run[j], bs).durable then now else inFlight;
  }

  /** The list a sync commits, from the list it starts from. */
  lemma SyncLists(a: Snapshot, b: Snapshot, rs: seq<Record>, target: Name, live: Inode, includeMetadata: bool)
    returns (qs: seq<Record>)
    requires SyncedWith(a, b, target, live, includeMetadata) && Lists(a, rs)
    ensures Lists(b, qs) && |Named(rs, target)| == 1 && |Named(qs, target)| == 1
    ensures SyncedRecord(Named(rs, target)[0], Named(qs, target)[0], live, includeMetadata)
    ensures forall q: Name :: q != target ==> Named(qs, q) == Named(rs, q)
  {
    hide FileSyncOf, PayloadBytes;
    var listed := FileSyncMeaning(a.payload, a.count, target, live, includeMetadata);
    ListsUnique(a, rs, listed);
    qs := FileSyncOf(a.payload, a.count, target, live, includeMetadata).records;
  }

  /** Once the sync of `target` has been acknowledged, then through any later
      syncs of other files, any failures and any crash, a mount recovers for
      `target` the very record the sync promised. */
  lemma SyncedStaysPut(run: seq<Sys>, bs: BlockSize, i: nat, j: nat, rs: seq<Record>, target: Name, live: Inode,
                           includeMetadata: bool, image: seq<Block>)
    returns (recovered: seq<Record>)
    requires IsRun(run, bs) && i + 1 <= j < |run| && OnlyOthersSynced(run, i + 1, target)
    requires run[i].phase.HeaderWritten? && run[i + 1].phase.Ready?
    requires SyncedWith(run[i].phase.mem.snap, run[i].phase.next, target, live, includeMetadata)
    requires Lists(run[i].phase.mem.snap, rs) && CrashImage(run[j].media, image)
    ensures IsDisk(image, bs) && Recover(image, bs).Mounted? && Lists(Recover(image, bs).memory.snap, recovered)
    ensures |Named(rs, target)| == 1 && |Named(recovered, target)| == 1
    ensures SyncedRecord(Named(rs, target)[0], Named(recovered, target)[0], live, includeMetadata)
  {
    hide Lists, Inv, IsRun, Recover, CrashImage, Settled, MediaOk, OnlyOthersSynced, Named, SyncedWith, SyncedRecord;
    var qs := SyncLists(run[i].phase.mem.snap, run[i].phase.next, rs, target, live, includeMetadata);
    AcknowledgedState(run, bs, i);
    recovered := UnsyncedNeverDurable(run, bs, i + 1, j, qs, target, image);
  }

  /** Every commit begun from state `start` on is a one-file sync. */
  ghost predicate OneFileSyncs(run: seq<Sys>, start: nat) {
    forall i :: start <= i < |run| - 1 && run[i].phase.Ready? && run[i + 1].phase.Writing? ==>
      SyncsSome(run[i].phase.mem.snap, run[i + 1].phase.next)
  }

  /** `b` is what a sync of some file commits over `a`. */
  ghost predicate SyncsSome(a: Snapshot, b: Snapshot) {
    exists target, live, includeMetadata :: SyncedWith(a, b, target, live, includeMetadata)
  }

  /** Step `k` begins a sync of `target` that turns `before` into `after`. */
  ghost predicate BeganSync(run: seq<Sys>, k: nat, target: Name, before: Record, after: Record) {
    && k + 1 < |run| && run[k].phase.Ready? && run[k + 1].phase.Writing?
    && exists live, includeMetadata ::
         SyncedWith(run[k].phase.mem.snap, run[k + 1].phase.next, target, live, includeMetadata)
         && SyncedRecord(before, after, live, includeMetadata)
  }

  /** `after` is `before`, or what a chain of syncs of `target`, each begun in
      the run at a step in [lo, hi), makes of it. */
  ghost predicate Evolves(run: seq<Sys>, lo: nat, hi: nat, target: Name, before: Record, after: Record)
    decreases hi
  {
    || after == before
    || exists k: nat, last: Record ::
         lo <= k < hi && BeganSync(run, k, target, last, after) && Evolves(run, lo, k, target, before, last)
  }

  lemma EvolvesLonger(run: seq<Sys>, lo: nat, hi: nat, target: Name, before: Record, after: Record)
    requires Evolves(run, lo, hi, target, before, after)
    ensures Evolves(run, lo, hi + 1, target, before, after)
  {
    hide BeganSync;
  }

  /** A list's only record of `target` has evolved from `first`. */
  ghost predicate Evolved(run: seq<Sys>, lo: nat, hi: nat, target: Name, first: Record, rs: seq<Record>) {
    |Named(rs, target)| == 1 && Evolves(run, lo, hi, target, first, Named(rs, target)[0])
  }

  /** A begun sync, of the target or of another file. */
  lemma SyncEvolves(run: seq<Sys>, lo: nat, k: nat, target: Name, first: Record, now: seq<Record>)
    returns (qs: seq<Record>)
    requires OneFileSyncs(run, lo) && lo <= k < |run| - 1 && run[k].phase.Ready? && run[k + 1].phase.Writing?
    requires Lists(run[k].phase.mem.snap, now) && Evolved(run, lo, k, target, first, now)
    ensures Lists(run[k + 1].phase.next, qs) && Evolved(run, lo, k + 1, target, first, qs)
  {
    hide Lists, Named, SyncedWith, SyncedRecord, Evolves;
    var other, live, includeMetadata :|
      SyncedWith(run[k].phase.mem.snap, run[k + 1].phase.next, other, live, includeMetadata);
    qs := SyncLists(run[k].phase.mem.snap, run[k + 1].phase.next, now, other, live, includeMetadata);
    if other == target {
      assert BeganSync(run, k, target, Named(now, target)[0], Named(qs, target)[0]);
      OneMore(run, lo, k, target, first, Named(now, target)[0], Named(qs, target)[0]);
    } else {
      EvolvesLonger(run, lo, k, target, first, Named(now, target)[0]);
    }
  }

  lemma OneMore(run: seq<Sys>, lo: nat, k: nat, target: Name, first: Record, last: Record, after: Record)
    requires lo <= k && BeganSync(run, k, target, last, after) && Evolves(run, lo, k, target, first, last)
    ensures Evolves(run, lo, k + 1, target, first, after)
  {
    hide BeganSync;
  }

  lemma {:induction false} EvolvedUpTo(run: seq<Sys>, bs: BlockSize, i: nat, j: nat, rs: seq<Record>, target: Name)
    returns (now: seq<Record>, inFlight: seq<Record>)
    requires IsRun(run, bs) && i <= j < |run| && OneFileSyncs(run, i) && |Named(rs, target)| == 1
    requires run[i].phase.Off? || run[i].phase.Ready?
    requires MediaOk(run[i].media, bs) && Lists(Abstract(run[i], bs).durable, rs)
    ensures Inv(run[j], bs) && Carries(Abstract(run[j], bs), now, inFlight)
    ensures Evolved(run, i, j, target, Named(rs, target)[0], now)
    ensures Abstract(run[j], bs).pending.Some? ==> Evolved(run, i, j, target, Named(rs, target)[0], inFlight)
    decreases j
  {
    hide Lists, Inv, Next, Named, MediaOk, Abstract, Init, Evolves, OneFileSyncs, SyncedWith;
    RunInvariant(run, bs, j);
    InvMedia(run[j], bs);
    var first := Named(rs, target)[0];
    if i == j {
      QuietAbstract(run[i], bs);
      now, inFlight := rs, rs;
      EvolvesNot(run, i, target, first);
    } else {
      now, inFlight := EvolvedUpTo(run, bs, i, j - 1, rs, target);
      RunInvariant(run, bs, j - 1);
      InvMedia(run[j - 1], bs);
      var s, t := run[j - 1], run[j];
      assert Next(s, t, bs) by { assert Next(run[j - 1], run[j - 1 + 1], bs); }
      StepRefines(s, t, bs);
      StepCases(s, t, bs);
      var c, d := Abstract(s, bs), Abstract(t, bs);
      EvolvesLonger(run, i, j - 1, target, first, Named(now, target)[0]);
      if c.pending.Some? {
        EvolvesLonger(run, i, j - 1, target, first, Named(inFlight, target)[0]);
        if d.durable == c.pending.value {
          now := inFlight;
        }
      } else if d != c {
        inFlight := SyncEvolves(run, i, j - 1, target, first, now);
      }
    }
  }

  lemma EvolvesNot(run: seq<Sys>, i: nat, target: Name, first: Record)
    ensures Evolves(run, i, i, target, first, first)
  {
  }

  /** Durability of a synced file, end to end: once the sync of `target` has
      been acknowledged, then through any later one-file syncs, of `target`
      itself or of others, any failures and any crash, a mount recovers for
      `target` the record the sync promised, or what later begun syncs of
      `target` make of that record: nothing older, and nothing else. */
  lemma SyncedStaysDurable(run: seq<Sys>, bs: BlockSize, i: nat, j: nat, rs: seq<Record>, target: Name, live: Inode,
                           includeMetadata: bool, image: seq<Block>)
    returns (acked: Record, recovered: seq<Record>)
    requires IsRun(run, bs) && i + 1 <= j < |run| && OneFileSyncs(run, i + 1)
    requires run[i].phase.HeaderWritten? && run[i + 1].phase.Ready?
    requires SyncedWith(run[i].phase.mem.snap, run[i].phase.next, target, live, includeMetadata)
    requires Lists(run[i].phase.mem.snap, rs) && CrashImage(run[j].media, image)
    ensures IsDisk(image, bs) && Recover(image, bs).Mounted? && Lists(Recover(image, bs).memory.snap, recovered)
    ensures |Named(rs, target)| == 1 && SyncedRecord(Named(rs, target)[0], acked, live, includeMetadata)
    ensures |Named(recovered, target)| == 1 && Evolves(run, i + 1, j, target, acked, Named(recovered, target)[0])
  {
    hide Lists, Inv, IsRun, Recover, CrashImage, Settled, MediaOk, OneFileSyncs, Named, SyncedWith, SyncedRecord, Abstract,
      Evolves;
    var qs := SyncLists(run[i].phase.mem.snap, run[i].phase.next, rs, target, live, includeMetadata);
    acked := Named(qs, target)[0];
    AcknowledgedState(run, bs, i);
    var now, inFlight := EvolvedUpTo(run, bs, i + 1, j, qs, target);
    CrashSafe(run[j], image, bs);
    InvMedia(run[j], bs);
    recovered := if Recover(image, bs).memory.snap == Abstract(run[j], bs).durable then now else inFlight;
  }

  lemma AcknowledgedState(run: seq<Sys>, bs: BlockSize, i: nat)
    requires IsRun(run, bs) && i + 1 < |run| && run[i].phase.HeaderWritten? && run[i + 1].phase.Ready?
    ensures MediaOk(run[i + 1].media, bs) && Abstract(run[i + 1], bs).durable == run[i].phase.next
  {
    hide Recover, Settled;
    RunInvariant(run, bs, i + 1);
    assert Next(run[i], run[i + 1], bs);
  }

  /** The recovered payload of a listed snapshot parses, on the host, to
      exactly the records that were committed. */
  lemma RecoveredRecords(d: seq<Block>, m: Memory, rs: seq<Record>, bs: BlockSize)
    requires IsDisk(d, bs) && Recover(d, bs) == Mounted(m) && Lists(m.snap, rs) && Hostable(rs)
    ensures ParsePayload(m.snap.payload, Crc32(m.snap.payload), m.snap.count) == Parsed(rs)
  {
    hide PayloadBytes, ParsePayload, Recover, Crc32;
    ParseOfPayload(rs);
  }
}
