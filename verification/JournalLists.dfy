// Runs in which every commit is a record list of the kernel's writers: what
// they leave in the header blocks, and that after any crash the mount's
// restore accepts the payload it finds.
module JournalLists {
  import opened Bytes
  import opened Checksums
  import opened JournalFormat
  import opened JournalDisk
  import opened JournalRecords
  import opened JournalRuns
  import opened JournalCorruption
  import opened JournalDurability
  import opened JournalRestore
  import Paths

  /** A snapshot as a commit writes it. */
  ghost predicate Written(s: Snapshot) {
    s.version == VERSION && exists rs :: Lists(s, rs) && WriterList(rs)
  }

  ghost predicate FreshOrWritten(s: Snapshot) {
    s == FRESH || Written(s)
  }

  /** Every commit begun in the run is of a writer's list. */
  ghost predicate CommitsLists(run: seq<Sys>) {
    forall i :: 0 <= i < |run| - 1 && run[i].phase.Ready? && run[i + 1].phase.Writing? ==> Written(run[i + 1].phase.next)
  }

  ghost predicate Carried(c: DurableCell) {
    FreshOrWritten(c.durable) && (c.pending.Some? ==> Written(c.pending.value))
  }

  lemma {:induction false} CarriedUpTo(run: seq<Sys>, bs: BlockSize, j: nat)
    requires IsRun(run, bs) && FreshDisk(run[0].media.now, bs) && CommitsLists(run) && j < |run|
    ensures Inv(run[j], bs) && Carried(Abstract(run[j], bs))
  {
    hide Inv, Next, Abstract, Written, FreshDisk, Init;
    RunInvariant(run, bs, j);
    if j == 0 {
      FreshAbstract(run[0], bs);
    } else {
      CarriedUpTo(run, bs, j - 1);
      var s, t := run[j - 1], run[j];
      assert Next(s, t, bs) by { assert Next(run[j - 1], run[j - 1 + 1], bs); }
      StepRefines(s, t, bs);
      StepCases(s, t, bs);
      assert s.phase.Ready? && t.phase.Writing? ==> Written(t.phase.next) by {
        assert run[j - 1].phase.Ready? && run[j - 1 + 1].phase.Writing? ==> Written(run[j - 1 + 1].phase.next);
      }
    }
  }

  lemma FreshAbstract(s: Sys, bs: BlockSize)
    requires Init(s, bs) && FreshDisk(s.media.now, bs)
    ensures MediaOk(s.media, bs) && Abstract(s, bs) == DurableCell(FRESH, None)
  {
    hide ReadRun, Crc32, Read32;
    ZeroAbsent(s.media.now[0], 0);
    ZeroAbsent(s.media.now[1], 1);
    SettledRecovers(s.media.now, FRESH_MEMORY, bs);
  }

  lemma ZeroAbsent(block: Block, slot: nat)
    requires HEADER_SIZE <= |block| && AllZero(block)
    ensures ReadHeader(block, slot).Absent?
  {
  }

  /** A mounted memory that restore accepts. */
  predicate Restores(m: Memory) {
    m == FRESH_MEMORY || RestoreOf(m.snap.payload, m.snap.version, m.snap.count) == Restored
  }

  lemma WrittenRestores(s: Snapshot)
    requires Written(s)
    ensures RestoreOf(s.payload, s.version, s.count) == Restored
  {
    hide RestoreOf, PayloadBytes;
    var rs :| Lists(s, rs) && WriterList(rs);
    WriterIsKernel(rs);
    RestoreExactly(rs);
  }

  lemma WriterIsKernel(rs: seq<Record>)
    requires WriterList(rs)
    ensures FileSync.KernelRecords(rs)
  {
    hide Paths.ValidRelativePath, KindData, LinkData;
    assert forall i :: 0 <= i < |rs| ==> Restorable(rs[i]);
  }

  /** A crash is followed by a mount that returns: whatever point of whatever
      run the power is cut at, the payload chosen passes all three passes of
      restore, and is the committed list or the one in flight. */
  lemma CrashRestores(run: seq<Sys>, bs: BlockSize, i: nat, image: seq<Block>)
    requires IsRun(run, bs) && FreshDisk(run[0].media.now, bs) && CommitsLists(run) && i < |run|
    requires CrashImage(run[i].media, image)
    ensures IsDisk(image, bs) && Recover(image, bs).Mounted? && MediaOk(run[i].media, bs)
    ensures Restores(Recover(image, bs).memory)
    ensures var snap, c := Recover(image, bs).memory.snap, Abstract(run[i], bs);
            FreshOrWritten(snap) && (snap == c.durable || c.pending == Some(snap))
  {
    hide Inv, Next, Abstract, Written, FreshDisk, Init, Recover, RestoreOf, CrashImage, MediaOk, IsDisk;
    CarriedUpTo(run, bs, i);
    RunCrashSafe(run, bs, i, image);
    var m := Recover(image, bs).memory;
    if m.snap == FRESH {
      FreshMemory(image, m, bs);
    } else {
      WrittenRestores(m.snap);
    }
  }

  /** The empty snapshot is only ever recovered from two absent headers. */
  lemma FreshMemory(d: seq<Block>, m: Memory, bs: BlockSize)
    requires IsDisk(d, bs) && Recover(d, bs) == Mounted(m) && m.snap == FRESH
    ensures m == FRESH_MEMORY && ReadHeader(d[0], 0).Absent? && ReadHeader(d[1], 1).Absent?
  {
    hide ReadHeader, Crc32, Read32, ReadRun;
  }

  // --------------------------------------------------- the header blocks

  /** If the block reads as a valid header, a commit of a writer's list put it
      there. */
  ghost predicate OurHeader(block: Block, slot: nat)
    requires HEADER_SIZE <= |block| && slot < 2
  {
    ReadHeader(block, slot).Valid? ==>
      exists s :: WellFormed(s) && Written(s) && ReadHeader(block, slot) == Valid(HeaderFor(slot, s))
  }

  /** And it is not damaged. */
  ghost predicate CleanHeader(block: Block, slot: nat)
    requires HEADER_SIZE <= |block| && slot < 2
  {
    !ReadHeader(block, slot).Invalid? && OurHeader(block, slot)
  }

  ghost predicate CleanMedia(m: Media, bs: BlockSize)
    requires MediaOk(m, bs)
  {
    (forall b :: b in m.may[0] ==> CleanHeader(b, 0)) && (forall b :: b in m.may[1] ==> CleanHeader(b, 1))
  }

  lemma CommittedIsClean(slot: nat, s: Snapshot, bs: BlockSize)
    requires slot < 2 && WellFormed(s) && Written(s)
    ensures CleanHeader(HeaderBlock(HeaderFor(slot, s), bs), slot)
  {
    hide ReadHeader, HeaderBlock, Written, WellFormed;
    EncodedHeaderReads(HeaderFor(slot, s), bs);
  }

  /** The step relation leaves both header blocks clean. */
  lemma StepKeepsClean(s: Sys, t: Sys, bs: BlockSize)
    requires Inv(s, bs) && Inv(t, bs) && Next(s, t, bs) && CleanMedia(s.media, bs)
    requires s.phase.PayloadFlushed? ==> Written(s.phase.next)
    ensures CleanMedia(t.media, bs)
  {
    hide CleanMedia, Inv, WriteSectorStep, Recover, HeaderBlock, WellFormed;
    if WriteHeaderStep(s, t, bs) {
      HeaderStepClean(s, t, bs);
    } else if WriteSectorStep(s, t, bs) {
      SectorStepClean(s, t, bs);
    } else {
      OtherStepClean(s, t, bs);
    }
  }

  /** The other steps write no block; a crash or a flush narrows the media. */
  lemma OtherStepClean(s: Sys, t: Sys, bs: BlockSize)
    requires Inv(s, bs) && Inv(t, bs) && Next(s, t, bs) && CleanMedia(s.media, bs)
    requires !WriteHeaderStep(s, t, bs) && !WriteSectorStep(s, t, bs)
    ensures CleanMedia(t.media, bs)
  {
    hide CleanHeader, Recover, WriteHeaderStep, WriteSectorStep, Inv;
    InvMedia(s, bs);
    InvMedia(t, bs);
    assert t.media == s.media || t.media == Definite(s.media.now)
        || (CrashImage(s.media, t.media.now) && t.media == Definite(t.media.now));
    assert forall l :: 0 <= l < 2 ==> t.media.may[l] <= s.media.may[l];
  }

  lemma HeaderStepClean(s: Sys, t: Sys, bs: BlockSize)
    requires Inv(s, bs) && Inv(t, bs) && WriteHeaderStep(s, t, bs) && CleanMedia(s.media, bs) && Written(s.phase.next)
    ensures CleanMedia(t.media, bs)
  {
    hide CleanHeader, Settled, Recover, Blocks, Read32, ReadRun, HeaderBlock, Written, InRegion, WellFormed;
    CommittedIsClean(Other(s.phase.mem.active), s.phase.next, bs);
  }

  lemma SectorStepClean(s: Sys, t: Sys, bs: BlockSize)
    requires Inv(s, bs) && Inv(t, bs) && WriteSectorStep(s, t, bs) && CleanMedia(s.media, bs)
    ensures CleanMedia(t.media, bs)
  {
    hide CleanHeader, Settled, Recover, Blocks, Read32, ReadRun, HeaderBlock, Written, InRegion, WellFormed;
    assert 2 <= PayloadStart(bs, Other(s.phase.mem.active)) + s.phase.done;
  }

  lemma {:induction false} CleanUpTo(run: seq<Sys>, bs: BlockSize, j: nat)
    requires IsRun(run, bs) && FreshDisk(run[0].media.now, bs) && CommitsLists(run) && j < |run|
    ensures MediaOk(run[j].media, bs) && CleanMedia(run[j].media, bs)
  {
    hide Inv, Next, Abstract, Written, CleanHeader, CleanMedia, Init;
    RunInvariant(run, bs, j);
    InvMedia(run[j], bs);
    if j == 0 {
      FreshClean(run[0], bs);
    } else {
      CleanUpTo(run, bs, j - 1);
      RunInvariant(run, bs, j - 1);
      CarriedUpTo(run, bs, j - 1);
      var s, t := run[j - 1], run[j];
      assert Next(s, t, bs) by { assert Next(run[j - 1], run[j - 1 + 1], bs); }
      FlushedCarries(s, bs);
      StepKeepsClean(s, t, bs);
    }
  }

  lemma FreshClean(s: Sys, bs: BlockSize)
    requires Init(s, bs) && FreshDisk(s.media.now, bs) && MediaOk(s.media, bs)
    ensures CleanMedia(s.media, bs)
  {
    hide Settled, Recover;
    ZeroAbsent(s.media.now[0], 0);
    ZeroAbsent(s.media.now[1], 1);
    hide ReadHeader;
    assert Fixed(s.media, 0) && Fixed(s.media, 1);
  }

  lemma FlushedCarries(s: Sys, bs: BlockSize)
    requires Inv(s, bs)
    ensures MediaOk(s.media, bs) && (s.phase.PayloadFlushed? ==> Abstract(s, bs).pending == Some(s.phase.next))
  {
  }

  /** After a crash anywhere in such a run both header blocks are absent or as
      a commit left them. */
  lemma CrashIsClean(run: seq<Sys>, bs: BlockSize, i: nat, image: seq<Block>)
    requires IsRun(run, bs) && FreshDisk(run[0].media.now, bs) && CommitsLists(run) && i < |run|
    requires CrashImage(run[i].media, image)
    ensures IsDisk(image, bs) && CleanHeader(image[0], 0) && CleanHeader(image[1], 1)
  {
    hide CleanHeader, CommitsLists, IsRun, FreshDisk;
    CleanUpTo(run, bs, i);
    ImageIsDisk(run[i].media, image, bs);
  }

  /** One changed byte leaves no valid header that no commit wrote. */
  lemma OursAfterOneByte(d: seq<Block>, e: seq<Block>, slot: nat, l: nat, i: nat, bs: BlockSize)
    requires IsDisk(d, bs) && IsDisk(e, bs) && slot < 2 && OneByteChanged(d, e, l, i) && CleanHeader(d[slot], slot)
    ensures OurHeader(e[slot], slot)
  {
    hide ReadHeader, Written, DifferOnlyAt;
    if l == slot {
      if ReadHeader(d[slot], slot).Absent? {
        AbsentIsZero(d[slot], slot);
        NoisyBlock(d[slot], e[slot], slot, i);
      } else if i < HEADER_SIZE {
        HeaderCorruptionDetected(d[slot], e[slot], slot, i);
      } else {
        HeaderTailIgnored(d[slot], e[slot], slot, i);
      }
    } else {
      assert e[slot] == d[slot];
    }
  }
}
