// What the commit protocol reaches when nothing fails: every payload can be
// committed over every state a run reaches, and from the second commit on the
// disk holds the two newest generations, both intact.
module JournalReach {
  import opened Bytes
  import opened Checksums
  import opened JournalFormat
  import opened JournalDisk
  import opened JournalRuns
  import opened JournalCorruption
  import opened JournalStore

  lemma SectorFits(s: Sys, bs: BlockSize)
    requires Inv(s, bs) && s.phase.Writing? && s.phase.done < |Blocks(s.phase.next.payload, bs)|
    ensures MediaOk(s.media, bs) && |s.media.now| == |s.media.may| && s.phase.mem.active < 2
    ensures PayloadStart(bs, Other(s.phase.mem.active)) + s.phase.done < |s.media.now|
  {
    hide Settled, Recover, Read32;
    InvFlushable(s, bs);
  }

  /** The remaining payload blocks, each written without failure. */
  lemma {:induction false} WriteRest(steps: seq<Sys>, mem: Memory, new_: Snapshot, done: nat, bs: BlockSize)
    returns (r: seq<Sys>)
    requires Segment(steps, mem, new_, bs) && Inv(steps[0], bs)
    requires Last(steps).phase == Writing(mem, new_, done) && done <= |Blocks(new_.payload, bs)|
    ensures Segment(r, mem, new_, bs) && steps <= r
    ensures Last(r).phase == Writing(mem, new_, |Blocks(new_.payload, bs)|)
    decreases |Blocks(new_.payload, bs)| - done
  {
    hide Inv, Blocks, Next, Cached, PayloadStart, MediaOk;
    r := steps;
    if done < |Blocks(new_.payload, bs)| {
      SegmentInvariant(steps, mem, new_, bs, |steps| - 1);
      SectorFits(Last(steps), bs);
      var m := Last(steps).media;
      var n := Cached(m, PayloadStart(bs, Other(mem.active)) + done, Blocks(new_.payload, bs)[done], true);
      SectorNext(m, n, mem, new_, done, true, bs);
      r := Grow(steps, Sys(n, Writing(mem, new_, done + 1)), mem, new_, bs);
      r := WriteRest(r, mem, new_, done + 1, bs);
    }
  }

  /** With the payload flushed beside the active generation, the header write
      leaves a disk that holds both. */
  lemma BothHeld(s: Sys, bs: BlockSize)
    requires Inv(s, bs) && s.phase.PayloadFlushed? && s.phase.next.generation < 0x1_0000_0000_0000_0000
    ensures WellFormed(s.phase.next) && s.phase.mem.active < 2 && IsDisk(s.media.now, bs)
    ensures var slot := Other(s.phase.mem.active);
            var e := s.media.now[slot := HeaderBlock(HeaderFor(slot, s.phase.next), bs)];
            && IsDisk(e, bs)
            && (s.phase.mem != FRESH_MEMORY ==> HealthyPair(e, slot, s.phase.next, s.phase.mem.snap, bs))
  {
    hide HeaderBlock, ReadHeader, ReadRun, Read32, Recover, Crc32, MediaOk, Fixed;
    assert IsDisk(s.media.now, bs) by { InvIsDisk(s, bs); }
    var mem, next, d := s.phase.mem, s.phase.next, s.media.now;
    PublishSettles(d, mem, next, bs);
    var e := d[Other(mem.active) := HeaderBlock(HeaderFor(Other(mem.active), next), bs)];
    if mem != FRESH_MEMORY {
      ReadRunSame(d, e, PayloadStart(bs, mem.active), |mem.snap.payload|, bs);
    }
  }

  /** Progress: over every state a run can be in between commits, every
      committable payload can be committed, generation counter permitting; and
      unless it is the partition's first, the disk then holds the new and the
      old generation intact. */
  lemma CommitCompletes(s: Sys, payload: seq<byte>, count: nat, bs: BlockSize) returns (steps: seq<Sys>)
    requires Inv(s, bs) && s.phase.Ready? && Committable(payload, count)
    requires s.phase.mem.snap.generation < 0xFFFF_FFFF_FFFF_FFFF
    ensures Segment(steps, s.phase.mem, NextSnapshot(s.phase.mem, payload, count), bs) && steps[0] == s
    ensures Last(steps).phase == Ready(Memory(Other(s.phase.mem.active), NextSnapshot(s.phase.mem, payload, count)))
    ensures s.phase.mem != FRESH_MEMORY ==>
              HealthyPair(Last(steps).media.now, Other(s.phase.mem.active), NextSnapshot(s.phase.mem, payload, count),
                          s.phase.mem.snap, bs)
  {
    hide Inv, Next, Blocks, MediaOk, HeaderBlock, Forced, Definite, Committable, HealthyPair, IsDisk, WellFormed;
    var mem, new_ := s.phase.mem, NextSnapshot(s.phase.mem, payload, count);
    InvMediaOk(s, bs);
    BeginNext(s.media, mem, payload, count, bs);
    steps := [s];
    steps := Grow(steps, Sys(s.media, Writing(mem, new_, 0)), mem, new_, bs);
    steps := WriteRest(steps, mem, new_, 0, bs);
    SegmentInvariant(steps, mem, new_, bs, |steps| - 1);
    var m := Last(steps).media;
    InvMediaOk(Last(steps), bs);
    FlushNext(m, Definite(m.now), mem, new_, true, bs);
    steps := Grow(steps, Sys(Definite(m.now), PayloadFlushed(mem, new_)), mem, new_, bs);
    SegmentInvariant(steps, mem, new_, bs, |steps| - 1);
    BothHeld(Last(steps), bs);
    var flushed := Last(steps).media;
    InvMediaOk(Last(steps), bs);
    HeadersFit(flushed, bs);
    var b := HeaderBlock(HeaderFor(Other(mem.active), new_), bs);
    HeaderNext(flushed, Forced(flushed, Other(mem.active), b), mem, new_, true, bs);
    steps := Grow(steps, Sys(Forced(flushed, Other(mem.active), b), HeaderWritten(mem, new_)), mem, new_, bs);
    SegmentInvariant(steps, mem, new_, bs, |steps| - 1);
    var sealed_ := Last(steps).media;
    InvMediaOk(Last(steps), bs);
    NowOf(flushed, Other(mem.active), b);
    SealNext(sealed_, Definite(sealed_.now), mem, new_, true, bs);
    steps := Grow(steps, Sys(Definite(sealed_.now), Ready(Memory(Other(mem.active), new_))), mem, new_, bs);
    NowOf(flushed, Other(mem.active), b);
    DefiniteNow(sealed_.now);
    DefiniteNow(m.now);
  }

  lemma InvIsDisk(s: Sys, bs: BlockSize)
    requires Inv(s, bs)
    ensures IsDisk(s.media.now, bs)
  {
  }

  lemma InvMediaOk(s: Sys, bs: BlockSize)
    requires Inv(s, bs)
    ensures MediaOk(s.media, bs) && |s.media.now| == |s.media.may|
  {
  }

  lemma NowOf(m: Media, l: nat, b: Block)
    requires l < |m.now| == |m.may|
    ensures Forced(m, l, b).now == m.now[l := b]
  {
  }

  lemma DefiniteNow(d: seq<Block>)
    ensures Definite(d).now == d
  {
  }

  // ------------------------------------------------------- from a fresh disk

  /** A run continued by a commit segment that starts where it ends. */
  lemma Continue(run: seq<Sys>, steps: seq<Sys>, mem: Memory, new_: Snapshot, bs: BlockSize) returns (r: seq<Sys>)
    requires IsRun(run, bs) && Segment(steps, mem, new_, bs) && steps[0] == Last(run)
    ensures IsRun(r, bs) && r[0] == run[0] && Last(r) == Last(steps)
  {
    hide Next, Init;
    r := run + steps[1..];
    forall i | 0 <= i < |r| - 1
      ensures Next(r[i], r[i + 1], bs)
    {
      if i < |run| - 1 {
        assert Next(run[i], run[i + 1], bs);
      } else {
        assert Next(steps[i - |run| + 1], steps[i - |run| + 1 + 1], bs);
      }
    }
  }

  /** From every fresh partition any two payloads can be committed in turn:
      generation 1 ends in slot 0, generation 2 in slot 1, both intact, and the
      next mount yields the second. */
  lemma TwoGenerations(d: seq<Block>, first: seq<byte>, firstCount: nat, second: seq<byte>, secondCount: nat,
                       bs: BlockSize)
    returns (run: seq<Sys>)
    requires FreshDisk(d, bs) && Committable(first, firstCount) && Committable(second, secondCount)
    ensures IsRun(run, bs) && run[0] == Sys(Definite(d), Off)
    ensures var old_, new_ := Snapshot(1, VERSION, firstCount, first), Snapshot(2, VERSION, secondCount, second);
            var e := Last(run).media.now;
            && Last(run).phase == Ready(Memory(1, new_))
            && HealthyPair(e, 1, new_, old_, bs) && Recover(e, bs) == Mounted(Memory(1, new_))
  {
    hide Inv, Committable, HealthyPair, Segment, IsDisk, Recover, MediaOk, Definite;
    FreshInit(d, bs);
    var off := Sys(Definite(d), Off);
    var ready := FreshMounts(d, bs);
    run := [off, ready];
    var steps := CommitCompletes(ready, first, firstCount, bs);
    run := Continue(run, steps, FRESH_MEMORY, NextSnapshot(FRESH_MEMORY, first, firstCount), bs);
    RunInvariant(run, bs, |run| - 1);
    var middle := Last(run);
    steps := CommitCompletes(middle, second, secondCount, bs);
    run := Continue(run, steps, middle.phase.mem, NextSnapshot(middle.phase.mem, second, secondCount), bs);
    RunInvariant(run, bs, |run| - 1);
    ReadyRecovers(Last(run), bs);
  }

  lemma FreshMounts(d: seq<Block>, bs: BlockSize) returns (ready: Sys)
    requires FreshDisk(d, bs)
    ensures ready == Sys(Definite(d), Ready(FRESH_MEMORY)) && Inv(ready, bs)
    ensures IsRun([Sys(Definite(d), Off), ready], bs)
  {
    hide Settled;
    FreshInit(d, bs);
    ready := Sys(Definite(d), Ready(FRESH_MEMORY));
    FreshSettled(d, bs);
    SettledRecovers(d, FRESH_MEMORY, bs);
    DefiniteNow(d);
    assert MountStep(Sys(Definite(d), Off), ready, bs);
    StepRefines(Sys(Definite(d), Off), ready, bs);
  }

  lemma FreshSettled(d: seq<Block>, bs: BlockSize)
    requires FreshDisk(d, bs)
    ensures Settled(d, FRESH_MEMORY, bs)
  {
  }

  lemma ReadyRecovers(s: Sys, bs: BlockSize)
    requires Inv(s, bs) && s.phase.Ready?
    ensures IsDisk(s.media.now, bs) && Recover(s.media.now, bs) == Mounted(s.phase.mem)
  {
    SettledRecovers(s.media.now, s.phase.mem, bs);
  }
}
