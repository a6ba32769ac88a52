// The commit protocol as a step machine over a block device with a volatile
// write cache, and its safety over whole runs of commits, I/O failures,
// crashes and mounts.
module JournalRuns {
  import opened Bytes
  import opened Checksums
  import opened JournalFormat
  import opened JournalDisk

  // ----------------------------------------------------------- the device

  /** What reads return now, and for each block every content it may have
      after a power loss: unflushed writes land in any subset and any order,
      one block at a time being atomic. */
  datatype Media = Media(now: seq<Block>, may: seq<set<Block>>)

  ghost predicate MediaOk(m: Media, bs: BlockSize) {
    && IsDisk(m.now, bs)
    && |m.may| == |m.now|
    && (forall l :: 0 <= l < |m.now| ==> m.now[l] in m.may[l])
    && (forall l, b :: 0 <= l < |m.may| && b in m.may[l] ==> |b| == bs)
  }

  ghost predicate CrashImage(m: Media, image: seq<Block>) {
    |image| == |m.may| && forall l :: 0 <= l < |image| ==> image[l] in m.may[l]
  }

  /** A cached write: the old contents stay possible until a flush. */
  function Cached(m: Media, l: nat, b: Block, visible: bool): Media
    requires l < |m.now| == |m.may|
  {
    Media(if visible then m.now[l := b] else m.now, m.may[l := m.may[l] + {b}])
  }

  /** A write with force-unit-access: only the new contents remain possible. */
  function Forced(m: Media, l: nat, b: Block): Media
    requires l < |m.now| == |m.may|
  {
    Media(m.now[l := b], m.may[l := {b}])
  }

  function Definite(d: seq<Block>): Media {
    Media(d, seq(|d|, l requires 0 <= l < |d| => {d[l]}))
  }

  ghost predicate Fixed(m: Media, l: nat)
    requires l < |m.now| == |m.may|
  {
    m.may[l] == {m.now[l]}
  }

  // ------------------------------------------------------------ the machine

  datatype Phase =
    | Off
    | Ready(mem: Memory)
    | Writing(mem: Memory, next: Snapshot, done: nat)
    | PayloadFlushed(mem: Memory, next: Snapshot)
    | HeaderWritten(mem: Memory, next: Snapshot)
    | Damaged(mem: Memory, next: Snapshot)

  datatype Sys = Sys(media: Media, phase: Phase)

  /** The snapshot a commit of `payload` publishes over `m`. */
  function NextSnapshot(m: Memory, payload: seq<byte>, count: nat): Snapshot {
    Snapshot(m.snap.generation + 1, VERSION, count, payload)
  }

  predicate Committable(payload: seq<byte>, count: nat) {
    4 <= |payload| <= MAX_PAYLOAD && count == Read32(payload, 0)
  }

  ghost predicate MountStep(s: Sys, t: Sys, bs: BlockSize)
    requires MediaOk(s.media, bs)
  {
    s.phase.Off? && t.media == s.media && Recover(s.media.now, bs).Mounted?
    && t.phase == Ready(Recover(s.media.now, bs).memory)
  }

  ghost predicate BeginStep(s: Sys, t: Sys) {
    s.phase.Ready? && t.media == s.media
    && exists payload, count :: Committable(payload, count)
                                && t.phase == Writing(s.phase.mem, NextSnapshot(s.phase.mem, payload, count), 0)
  }

  ghost predicate WriteSectorStep(s: Sys, t: Sys, bs: BlockSize)
    requires MediaOk(s.media, bs)
  {
    && s.phase.Writing? && s.phase.mem.active < 2
    && s.phase.done < |Blocks(s.phase.next.payload, bs)|
    && var l := PayloadStart(bs, Other(s.phase.mem.active)) + s.phase.done;
       var b := Blocks(s.phase.next.payload, bs)[s.phase.done];
       && l < |s.media.now|
       && ((t.media == Cached(s.media, l, b, true) && t.phase == s.phase.(done := s.phase.done + 1))
           || (t.phase == Damaged(s.phase.mem, s.phase.next)
               && (t.media == Cached(s.media, l, b, true) || t.media == Cached(s.media, l, b, false) || t.media == s.media)))
  }

  ghost predicate FlushPayloadStep(s: Sys, t: Sys, bs: BlockSize)
    requires MediaOk(s.media, bs)
  {
    && s.phase.Writing? && s.phase.done == |Blocks(s.phase.next.payload, bs)|
    && ((t.media == Definite(s.media.now) && t.phase == PayloadFlushed(s.phase.mem, s.phase.next))
        || (t.media == s.media && t.phase == Damaged(s.phase.mem, s.phase.next)))
  }

  /** The generation counter is about to wrap: the commit is refused. */
  ghost predicate WrapStep(s: Sys, t: Sys) {
    && s.phase.PayloadFlushed? && s.phase.next.generation == 0x1_0000_0000_0000_0000
    && t.media == s.media && t.phase == Ready(s.phase.mem)
  }

  ghost predicate WriteHeaderStep(s: Sys, t: Sys, bs: BlockSize)
    requires MediaOk(s.media, bs)
  {
    && s.phase.PayloadFlushed? && s.phase.mem.active < 2 && WellFormed(s.phase.next)
    && var slot := Other(s.phase.mem.active);
       var b := HeaderBlock(HeaderFor(slot, s.phase.next), bs);
       || (t.media == Forced(s.media, slot, b) && t.phase == HeaderWritten(s.phase.mem, s.phase.next))
       || (t.phase == Damaged(s.phase.mem, s.phase.next)
           && (t.media == Cached(s.media, slot, b, true) || t.media == Cached(s.media, slot, b, false) || t.media == s.media))
  }

  ghost predicate FlushHeaderStep(s: Sys, t: Sys) {
    && s.phase.HeaderWritten?
    && ((t.media == Definite(s.media.now) && t.phase == Ready(Memory(Other(s.phase.mem.active), s.phase.next)))
        || (t.media == s.media && t.phase == Damaged(s.phase.mem, s.phase.next)))
  }

  /** Power loss at any point: some crash image becomes the disk. */
  ghost predicate CrashStep(s: Sys, t: Sys, bs: BlockSize) {
    t.phase.Off? && CrashImage(s.media, t.media.now) && t.media == Definite(t.media.now)
  }

  ghost predicate Next(s: Sys, t: Sys, bs: BlockSize) {
    MediaOk(s.media, bs)
    && (MountStep(s, t, bs) || BeginStep(s, t) || WriteSectorStep(s, t, bs) || FlushPayloadStep(s, t, bs)
        || WrapStep(s, t) || WriteHeaderStep(s, t, bs) || FlushHeaderStep(s, t) || CrashStep(s, t, bs))
  }

  // ------------------------------------------- the simple form it refines

  /** One durable cell and at most one update in flight. */
  datatype DurableCell = DurableCell(durable: Snapshot, pending: Option<Snapshot>)

  predicate CellNext(r: DurableCell, q: DurableCell) {
    || q == r
    || (r.pending.None? && q.durable == r.durable && q.pending.Some?
        && q.pending.value.generation == r.durable.generation + 1)
    || (r.pending.Some? && q == DurableCell(r.pending.value, None))
    || (r.pending.Some? && q == DurableCell(r.durable, None))
  }

  ghost function Abstract(s: Sys, bs: BlockSize): DurableCell
    requires MediaOk(s.media, bs)
  {
    match s.phase
    case Off =>
      DurableCell(if Recover(s.media.now, bs).Mounted? then Recover(s.media.now, bs).memory.snap else FRESH, None)
    case Ready(mem) => DurableCell(mem.snap, None)
    case Writing(mem, next, _) => DurableCell(mem.snap, Some(next))
    case PayloadFlushed(mem, next) => DurableCell(mem.snap, Some(next))
    case HeaderWritten(mem, next) => DurableCell(mem.snap, Some(next))
    case Damaged(mem, next) => DurableCell(mem.snap, Some(next))
  }

  // ------------------------------------------------------------ invariant

  ghost predicate AllFixed(m: Media)
    requires |m.now| == |m.may|
  {
    forall l :: 0 <= l < |m.now| ==> Fixed(m, l)
  }

  ghost predicate Update(mem: Memory, next: Snapshot) {
    && mem.active < 2
    && Committable(next.payload, next.count)
    && next.version == VERSION
    && next.generation == mem.snap.generation + 1
    && mem.snap.generation < 0x1_0000_0000_0000_0000
  }

  ghost predicate Inv(s: Sys, bs: BlockSize) {
    && MediaOk(s.media, bs)
    && match s.phase
       case Off =>
         && AllFixed(s.media)
         && Recover(s.media.now, bs).Mounted?
         && var mem := Recover(s.media.now, bs).memory;
            mem.active < 2 && mem.snap.generation < 0x1_0000_0000_0000_0000 && Settled(s.media.now, mem, bs)
       case Ready(mem) =>
         AllFixed(s.media) && mem.active < 2 && mem.snap.generation < 0x1_0000_0000_0000_0000
         && Settled(s.media.now, mem, bs)
       case Writing(mem, next, done) =>
         && Update(mem, next)
         && Settled(s.media.now, mem, bs)
         && (forall l :: 0 <= l < |s.media.now| && !InRegion(l, Other(mem.active), bs) ==> Fixed(s.media, l))
         && done <= |Blocks(next.payload, bs)|
         && (forall i :: 0 <= i < done ==>
               s.media.now[PayloadStart(bs, Other(mem.active)) + i] == Blocks(next.payload, bs)[i])
       case PayloadFlushed(mem, next) =>
         && AllFixed(s.media)
         && Update(mem, next)
         && Settled(s.media.now, mem, bs)
         && ReadRun(s.media.now, PayloadStart(bs, Other(mem.active)), |next.payload|, bs) == next.payload
       case HeaderWritten(mem, next) =>
         && AllFixed(s.media)
         && Update(mem, next) && next.generation < 0x1_0000_0000_0000_0000
         && Settled(s.media.now, Memory(Other(mem.active), next), bs)
       case Damaged(mem, next) =>
         && Update(mem, next)
         && forall image :: CrashImage(s.media, image) ==>
              IsDisk(image, bs)
              && (Settled(image, mem, bs)
                  || (next.generation < 0x1_0000_0000_0000_0000 && Settled(image, Memory(Other(mem.active), next), bs)))
  }

  lemma ImageIsDisk(m: Media, image: seq<Block>, bs: BlockSize)
    requires MediaOk(m, bs) && CrashImage(m, image)
    ensures IsDisk(image, bs)
  {
  }

  /** With every block fixed there is one crash image: the disk as read. */
  lemma OneImage(m: Media, image: seq<Block>)
    requires |m.now| == |m.may| && AllFixed(m) && CrashImage(m, image)
    ensures image == m.now
  {
    forall l | 0 <= l < |image|
      ensures image[l] == m.now[l]
    {
      assert Fixed(m, l);
    }
  }

  lemma DefiniteOk(d: seq<Block>, bs: BlockSize)
    requires IsDisk(d, bs)
    ensures MediaOk(Definite(d), bs) && AllFixed(Definite(d))
  {
  }

  /** While the passive region is being written every crash image is settled
      on the committed state. */
  lemma InFlightSettled(m: Media, mem: Memory, image: seq<Block>, bs: BlockSize)
    requires MediaOk(m, bs) && mem.active < 2 && Settled(m.now, mem, bs) && CrashImage(m, image)
    requires forall l :: 0 <= l < |m.now| && !InRegion(l, Other(mem.active), bs) ==> Fixed(m, l)
    ensures IsDisk(image, bs) && Settled(image, mem, bs)
  {
    ImageIsDisk(m, image, bs);
    forall l | 0 <= l < |m.now| && !InRegion(l, Other(mem.active), bs)
      ensures image[l] == m.now[l]
    {
      assert Fixed(m, l);
    }
    SettledFrame(m.now, image, mem, bs);
  }

  /** Safety of one state: after a crash anywhere, a mount succeeds and yields
      the committed snapshot or the one in flight, nothing else. */
  lemma CrashSafe(s: Sys, image: seq<Block>, bs: BlockSize)
    requires Inv(s, bs) && CrashImage(s.media, image)
    ensures IsDisk(image, bs) && Recover(image, bs).Mounted?
    ensures var mem := Recover(image, bs).memory;
            && Settled(image, mem, bs) && mem.active < 2 && mem.snap.generation < 0x1_0000_0000_0000_0000
            && (mem.snap == Abstract(s, bs).durable || Abstract(s, bs).pending == Some(mem.snap))
  {
    ImageIsDisk(s.media, image, bs);
    match s.phase {
      case Off => OneImage(s.media, image);
      case Ready(mem) => OneImage(s.media, image); SettledRecovers(image, mem, bs);
      case Writing(mem, next, _) =>
        InFlightSettled(s.media, mem, image, bs);
        SettledRecovers(image, mem, bs);
      case PayloadFlushed(mem, next) => OneImage(s.media, image); SettledRecovers(image, mem, bs);
      case HeaderWritten(mem, next) =>
        OneImage(s.media, image);
        SettledRecovers(image, Memory(Other(mem.active), next), bs);
      case Damaged(mem, next) =>
        if Settled(image, mem, bs) {
          SettledRecovers(image, mem, bs);
        } else {
          SettledRecovers(image, Memory(Other(mem.active), next), bs);
        }
    }
  }

  // ------------------------------------------------ every step keeps it

  lemma MountKeeps(s: Sys, t: Sys, bs: BlockSize)
    requires Inv(s, bs) && MountStep(s, t, bs)
    ensures Inv(t, bs) && CellNext(Abstract(s, bs), Abstract(t, bs))
  {
  }

  lemma BeginKeeps(s: Sys, t: Sys, bs: BlockSize)
    requires Inv(s, bs) && BeginStep(s, t)
    ensures Inv(t, bs) && CellNext(Abstract(s, bs), Abstract(t, bs))
  {
  }

  lemma CachedOk(m: Media, l: nat, b: Block, visible: bool, bs: BlockSize)
    requires MediaOk(m, bs) && l < |m.now| && |b| == bs
    ensures MediaOk(Cached(m, l, b, visible), bs)
    ensures forall k :: 0 <= k < |m.now| && k != l && Fixed(m, k) ==> Fixed(Cached(m, l, b, visible), k)
  {
  }

  lemma ForcedOk(m: Media, l: nat, b: Block, bs: BlockSize)
    requires MediaOk(m, bs) && AllFixed(m) && l < |m.now| && |b| == bs
    ensures MediaOk(Forced(m, l, b), bs) && AllFixed(Forced(m, l, b))
  {
    forall k | 0 <= k < |m.now|
      ensures Fixed(Forced(m, l, b), k)
    {
      assert Fixed(m, k);
    }
  }

  /** A failed or pending payload write leaves every image settled. */
  lemma DamagedInRegion(m: Media, mem: Memory, next: Snapshot, bs: BlockSize)
    requires MediaOk(m, bs) && Update(mem, next) && Settled(m.now, mem, bs)
    requires forall l :: 0 <= l < |m.now| && !InRegion(l, Other(mem.active), bs) ==> Fixed(m, l)
    ensures Inv(Sys(m, Damaged(mem, next)), bs)
  {
    forall image | CrashImage(m, image)
      ensures IsDisk(image, bs) && Settled(image, mem, bs)
    {
      InFlightSettled(m, mem, image, bs);
    }
  }

  /** What a payload write, done, pending or failed, leaves of the device. */
  lemma RegionWrite(m: Media, n: Media, mem: Memory, l: nat, b: Block, bs: BlockSize)
    requires MediaOk(m, bs) && mem.active < 2 && Settled(m.now, mem, bs)
    requires l < |m.now| && |b| == bs && InRegion(l, Other(mem.active), bs)
    requires n == Cached(m, l, b, true) || n == Cached(m, l, b, false) || n == m
    requires forall k :: 0 <= k < |m.now| && !InRegion(k, Other(mem.active), bs) ==> Fixed(m, k)
    ensures MediaOk(n, bs) && |n.now| == |m.now| && Settled(n.now, mem, bs)
    ensures forall k :: 0 <= k < |n.now| && !InRegion(k, Other(mem.active), bs) ==> Fixed(n, k)
  {
    hide Settled;
    CachedOk(m, l, b, true, bs);
    CachedOk(m, l, b, false, bs);
    SettledFrame(m.now, n.now, mem, bs);
  }

  lemma WriteSectorKeeps(s: Sys, t: Sys, bs: BlockSize)
    requires Inv(s, bs) && WriteSectorStep(s, t, bs)
    ensures Inv(t, bs) && CellNext(Abstract(s, bs), Abstract(t, bs))
  {
    hide Settled, Recover, Blocks, Read32, MediaOk, InRegion, Fixed;
    var mem, next, done := s.phase.mem, s.phase.next, s.phase.done;
    var slot := Other(mem.active);
    var l := PayloadStart(bs, slot) + done;
    var b := Blocks(next.payload, bs)[done];
    SectorInRegion(next.payload, slot, done, bs);
    RegionWrite(s.media, t.media, mem, l, b, bs);
    if t.phase.Damaged? {
      DamagedInRegion(t.media, mem, next, bs);
    }
  }

  lemma SectorInRegion(payload: seq<byte>, slot: nat, done: nat, bs: BlockSize)
    requires |payload| <= MAX_PAYLOAD && done < |Blocks(payload, bs)|
    ensures InRegion(PayloadStart(bs, slot) + done, slot, bs)
  {
  }

  lemma InvFlushable(s: Sys, bs: BlockSize)
    requires Inv(s, bs) && s.phase.Writing?
    ensures IsDisk(s.media.now, bs) && |s.media.now| == |s.media.may|
    ensures |s.phase.next.payload| <= MAX_PAYLOAD
    ensures PayloadStart(bs, Other(s.phase.mem.active)) + Sectors(|s.phase.next.payload|, bs) <= |s.media.now|
  {
    hide Settled, Recover, Read32;
    RegionFits(s.media.now, Other(s.phase.mem.active), |s.phase.next.payload|, bs);
  }

  lemma FlushPayloadKeeps(s: Sys, t: Sys, bs: BlockSize)
    requires Inv(s, bs) && FlushPayloadStep(s, t, bs)
    ensures Inv(t, bs) && CellNext(Abstract(s, bs), Abstract(t, bs))
  {
    hide Settled, Recover, Read32, MediaOk, InRegion, Fixed, Committable, PayloadStart, ReadRun, Blocks, CrashImage, Sectors;
    var mem, next := s.phase.mem, s.phase.next;
    if t.phase.Damaged? {
      DamagedInRegion(s.media, mem, next, bs);
    } else {
      InvFlushable(s, bs);
      DefiniteOk(s.media.now, bs);
      ReadRunOfBlocks(s.media.now, PayloadStart(bs, Other(mem.active)), next.payload, bs);
    }
  }

  lemma WrapKeeps(s: Sys, t: Sys, bs: BlockSize)
    requires Inv(s, bs) && WrapStep(s, t)
    ensures Inv(t, bs) && CellNext(Abstract(s, bs), Abstract(t, bs))
  {
  }

  lemma WriteHeaderKeeps(s: Sys, t: Sys, bs: BlockSize)
    requires Inv(s, bs) && WriteHeaderStep(s, t, bs)
    ensures Inv(t, bs) && CellNext(Abstract(s, bs), Abstract(t, bs))
  {
    hide Settled, Recover, Read32, HeaderBlock, ReadRun, Crc32;
    var mem, next := s.phase.mem, s.phase.next;
    var slot := Other(mem.active);
    var d := s.media.now;
    var b := HeaderBlock(HeaderFor(slot, next), bs);
    PublishSettles(d, mem, next, bs);
    if t.phase.HeaderWritten? {
      ForcedOk(s.media, slot, b, bs);
    } else {
      CachedOk(s.media, slot, b, true, bs);
      CachedOk(s.media, slot, b, false, bs);
      HeaderImages(s.media, t.media, slot, b, bs);
    }
  }

  /** What a power loss leaves of one cached header block over fixed ones. */
  lemma HeaderImages(m: Media, n: Media, slot: nat, b: Block, bs: BlockSize)
    requires MediaOk(m, bs) && MediaOk(n, bs) && AllFixed(m) && slot < |m.now| && |b| == bs
    requires n == m || n == Cached(m, slot, b, true) || n == Cached(m, slot, b, false)
    ensures forall image :: CrashImage(n, image) ==> IsDisk(image, bs) && (image == m.now || image == m.now[slot := b])
  {
    forall image | CrashImage(n, image)
      ensures IsDisk(image, bs) && (image == m.now || image == m.now[slot := b])
    {
      ImageIsDisk(n, image, bs);
      forall k | 0 <= k < |m.now| && k != slot
        ensures image[k] == m.now[k]
      {
        assert Fixed(m, k);
      }
      assert Fixed(m, slot);
      if image[slot] == m.now[slot] {
        assert image == m.now;
      } else {
        assert image == m.now[slot := b];
      }
    }
  }

  lemma FlushHeaderKeeps(s: Sys, t: Sys, bs: BlockSize)
    requires Inv(s, bs) && FlushHeaderStep(s, t)
    ensures Inv(t, bs) && CellNext(Abstract(s, bs), Abstract(t, bs))
  {
    var mem, next := s.phase.mem, s.phase.next;
    if t.phase.Ready? {
      DefiniteOk(s.media.now, bs);
    } else {
      forall image | CrashImage(s.media, image)
        ensures image == s.media.now
      {
        OneImage(s.media, image);
      }
    }
  }

  lemma CrashKeeps(s: Sys, t: Sys, bs: BlockSize)
    requires Inv(s, bs) && CrashStep(s, t, bs)
    ensures Inv(t, bs) && CellNext(Abstract(s, bs), Abstract(t, bs))
  {
    CrashSafe(s, t.media.now, bs);
    DefiniteOk(t.media.now, bs);
    SettledRecovers(t.media.now, Recover(t.media.now, bs).memory, bs);
  }

  /** Every step of the protocol, every I/O failure and every crash keeps the
      invariant and is a step of the durable register. */
  lemma StepRefines(s: Sys, t: Sys, bs: BlockSize)
    requires Inv(s, bs) && Next(s, t, bs)
    ensures Inv(t, bs) && CellNext(Abstract(s, bs), Abstract(t, bs))
  {
    if MountStep(s, t, bs) { MountKeeps(s, t, bs); }
    else if BeginStep(s, t) { BeginKeeps(s, t, bs); }
    else if WriteSectorStep(s, t, bs) { WriteSectorKeeps(s, t, bs); }
    else if FlushPayloadStep(s, t, bs) { FlushPayloadKeeps(s, t, bs); }
    else if WrapStep(s, t) { WrapKeeps(s, t, bs); }
    else if WriteHeaderStep(s, t, bs) { WriteHeaderKeeps(s, t, bs); }
    else if FlushHeaderStep(s, t) { FlushHeaderKeeps(s, t, bs); }
    else { CrashKeeps(s, t, bs); }
  }

  // ------------------------------------------------------------ whole runs

  /** A run starts powered off on a definite disk that mounts. */
  ghost predicate Init(s: Sys, bs: BlockSize) {
    s.phase.Off? && Inv(s, bs)
  }

  ghost predicate IsRun(run: seq<Sys>, bs: BlockSize) {
    && 0 < |run|
    && Init(run[0], bs)
    && forall i :: 0 <= i < |run| - 1 ==> Next(run[i], run[i + 1], bs)
  }

  lemma {:induction false} RunInvariant(run: seq<Sys>, bs: BlockSize, i: nat)
    requires IsRun(run, bs) && i < |run|
    ensures Inv(run[i], bs)
  {
    if i > 0 {
      RunInvariant(run, bs, i - 1);
      StepRefines(run[i - 1], run[i], bs);
    }
  }

  /** Crash safety over whole runs: cut the power at any state of any run and
      the next mount yields the committed snapshot or the one in flight. */
  lemma RunCrashSafe(run: seq<Sys>, bs: BlockSize, i: nat, image: seq<Block>)
    requires IsRun(run, bs) && i < |run| && CrashImage(run[i].media, image)
    ensures IsDisk(image, bs) && MediaOk(run[i].media, bs) && Recover(image, bs).Mounted?
    ensures var snap, r := Recover(image, bs).memory.snap, Abstract(run[i], bs);
            snap == r.durable || r.pending == Some(snap)
  {
    RunInvariant(run, bs, i);
    CrashSafe(run[i], image, bs);
  }

  /** The durable generation never goes back, and one generation never names
      two different snapshots. */
  lemma {:induction false} NoRollback(run: seq<Sys>, bs: BlockSize, i: nat, j: nat)
    requires IsRun(run, bs) && i <= j < |run|
    ensures Inv(run[i], bs) && Inv(run[j], bs)
    ensures var r, q := Abstract(run[i], bs).durable, Abstract(run[j], bs).durable;
            r.generation <= q.generation && (r.generation == q.generation ==> r == q)
    decreases j
  {
    hide Inv, Abstract, Next;
    RunInvariant(run, bs, i);
    RunInvariant(run, bs, j);
    if i < j {
      NoRollback(run, bs, i, j - 1);
      RunInvariant(run, bs, j - 1);
      StepRefines(run[j - 1], run[j], bs);
      PendingIsNext(run[j - 1], bs);
    }
  }

  lemma PendingIsNext(s: Sys, bs: BlockSize)
    requires Inv(s, bs)
    ensures Abstract(s, bs).pending.Some? ==>
              Abstract(s, bs).pending.value.generation == Abstract(s, bs).durable.generation + 1
  {
  }

  lemma AcknowledgingStep(s: Sys, t: Sys, bs: BlockSize)
    requires Inv(s, bs) && Inv(t, bs) && Next(s, t, bs) && s.phase.HeaderWritten? && t.phase.Ready?
    ensures Abstract(t, bs).durable == s.phase.next
  {
    hide Settled, Recover;
    assert FlushHeaderStep(s, t);
  }

  /** An acknowledged commit survives: from the step that reports success on,
      every crash of every later state mounts that very snapshot or one of a
      newer generation. */
  lemma AcknowledgedSurvives(run: seq<Sys>, bs: BlockSize, i: nat, j: nat, image: seq<Block>)
    requires IsRun(run, bs) && i + 1 <= j < |run|
    requires run[i].phase.HeaderWritten? && run[i + 1].phase.Ready?
    requires CrashImage(run[j].media, image)
    ensures IsDisk(image, bs) && Recover(image, bs).Mounted?
    ensures var snap, acked := Recover(image, bs).memory.snap, run[i].phase.next;
            snap == acked || snap.generation > acked.generation
  {
    hide Inv, Abstract, Recover, CrashImage;
    RunInvariant(run, bs, i);
    RunInvariant(run, bs, i + 1);
    RunInvariant(run, bs, j);
    AcknowledgingStep(run[i], run[i + 1], bs);
    NoRollback(run, bs, i + 1, j);
    RunCrashSafe(run, bs, j, image);
    PendingIsNext(run[j], bs);
  }

  // ------------------------------------------------------- slots by parity

  /** Generation n sits in slot (n - 1) mod 2. */
  predicate SlotOfGeneration(m: Memory) {
    m.active == (m.snap.generation + 1) % 2
  }

  ghost predicate Parity(s: Sys, bs: BlockSize)
    requires Inv(s, bs)
  {
    match s.phase
    case Off => SlotOfGeneration(Recover(s.media.now, bs).memory)
    case Ready(mem) => SlotOfGeneration(mem)
    case Writing(mem, _, _) => SlotOfGeneration(mem)
    case PayloadFlushed(mem, _) => SlotOfGeneration(mem)
    case HeaderWritten(mem, _) => SlotOfGeneration(mem)
    case Damaged(mem, _) => SlotOfGeneration(mem)
  }

  /** Crash images keep the slot rule too. */
  lemma ImageParity(s: Sys, image: seq<Block>, bs: BlockSize)
    requires Inv(s, bs) && Parity(s, bs) && CrashImage(s.media, image)
    ensures IsDisk(image, bs) && Recover(image, bs).Mounted? && SlotOfGeneration(Recover(image, bs).memory)
  {
    hide Settled, Recover, Blocks, Read32, ReadRun;
    CrashSafe(s, image, bs);
    match s.phase {
      case Off => OneImage(s.media, image);
      case Ready(mem) => OneImage(s.media, image); SettledRecovers(image, mem, bs);
      case Writing(mem, next, _) => InFlightSettled(s.media, mem, image, bs); SettledRecovers(image, mem, bs);
      case PayloadFlushed(mem, next) => OneImage(s.media, image); SettledRecovers(image, mem, bs);
      case HeaderWritten(mem, next) =>
        OneImage(s.media, image);
        SettledRecovers(image, Memory(Other(mem.active), next), bs);
      case Damaged(mem, next) =>
        if Settled(image, mem, bs) {
          SettledRecovers(image, mem, bs);
        } else {
          SettledRecovers(image, Memory(Other(mem.active), next), bs);
        }
    }
  }

  lemma StepParity(s: Sys, t: Sys, bs: BlockSize)
    requires Inv(s, bs) && Inv(t, bs) && Next(s, t, bs) && Parity(s, bs)
    ensures Parity(t, bs)
  {
    hide Settled, Recover, Blocks, Read32, ReadRun, HeaderBlock, Crc32;
    if CrashStep(s, t, bs) {
      ImageParity(s, t.media.now, bs);
    }
  }

  ghost predicate FreshDisk(d: seq<Block>, bs: BlockSize) {
    IsDisk(d, bs) && AllZero(d[0]) && AllZero(d[1])
  }

  lemma FreshInit(d: seq<Block>, bs: BlockSize)
    requires FreshDisk(d, bs)
    ensures Init(Sys(Definite(d), Off), bs) && Parity(Sys(Definite(d), Off), bs)
  {
    DefiniteOk(d, bs);
    SettledRecovers(d, FRESH_MEMORY, bs);
  }

  /** From a fresh partition, through any run, generation n is only ever
      mounted from slot (n - 1) mod 2. */
  lemma {:induction false} RunParity(run: seq<Sys>, bs: BlockSize, i: nat)
    requires IsRun(run, bs) && FreshDisk(run[0].media.now, bs) && i < |run|
    ensures Inv(run[i], bs) && Parity(run[i], bs)
  {
    RunInvariant(run, bs, i);
    if i == 0 {
      FreshInit(run[0].media.now, bs);
      SettledRecovers(run[0].media.now, FRESH_MEMORY, bs);
    } else {
      RunParity(run, bs, i - 1);
      StepParity(run[i - 1], run[i], bs);
    }
  }
}
