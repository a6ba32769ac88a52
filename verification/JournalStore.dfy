// The kernel's block device and journal store as objects
// (src/runtime_persist.zig): mount, payload loading and the commit, whose every
// device operation is a step of the machine in JournalRuns.
module JournalStore {
  import opened Bytes
  import opened Checksums
  import opened JournalFormat
  import opened JournalDisk
  import opened JournalRuns
  import opened JournalRecords
  import opened FileSync
  import opened MountPlan
  import opened JournalRestore
  import TreeWalk

  /** A block device with a volatile cache; `may` is what a power loss can
      leave of each block. Any operation may fail; `failures` counts those that
      did, of the operations inside the device. */
  class Device {
    const bs: BlockSize
    var now: seq<Block>
    ghost var may: seq<set<Block>>
    ghost var failures: nat

    ghost function Contents(): Media
      reads this`now, this`may
    {
      Media(now, may)
    }

    ghost predicate Valid()
      reads this`now, this`may
    {
      MediaOk(Contents(), bs)
    }

    constructor (bs: BlockSize, disk: seq<Block>)
      requires IsDisk(disk, bs)
      ensures this.bs == bs && Contents() == Definite(disk) && Valid()
    {
      this.bs := bs;
      now := disk;
      may := Definite(disk).may;
      failures := 0;
      new;
      DefiniteOk(disk, bs);
    }

    method Read(l: nat) returns (ok: bool, b: Block)
      requires Valid()
      modifies this`failures
      ensures ok ==> l < |now| && b == now[l]
      ensures failures == old(failures) + if l < |now| && !ok then 1 else 0
    {
      ok := *;
      b := [];
      if l >= |now| {
        return false, b;
      }
      if ok {
        b := now[l];
      } else {
        failures := failures + 1;
      }
    }

    method Write(l: nat, b: Block, forceUnitAccess: bool) returns (ok: bool)
      requires Valid() && |b| == bs
      modifies this
      ensures Valid() && |now| == |old(now)|
      ensures failures == old(failures) + if l < |now| && !ok then 1 else 0
      ensures l >= |now| ==> !ok && Contents() == old(Contents())
      ensures l < |now| && ok ==>
                Contents() == if forceUnitAccess then Forced(old(Contents()), l, b)
                              else Cached(old(Contents()), l, b, true)
      ensures l < |now| && !ok ==>
                Contents() in {old(Contents()), Cached(old(Contents()), l, b, true), Cached(old(Contents()), l, b, false)}
    {
      if l >= |now| {
        return false;
      }
      CachedOk(Contents(), l, b, true, bs);
      CachedOk(Contents(), l, b, false, bs);
      ok := *;
      if ok {
        if forceUnitAccess {
          may := may[l := {b}];
        } else {
          may := may[l := may[l] + {b}];
        }
        now := now[l := b];
      } else {
        failures := failures + 1;
        var reached: bool := *;
        var visible: bool := *;
        if reached {
          may := may[l := may[l] + {b}];
          if visible {
            now := now[l := b];
          }
        }
      }
    }

    method Flush() returns (ok: bool)
      requires Valid()
      modifies this
      ensures Valid() && now == old(now)
      ensures Contents() == if ok then Definite(now) else old(Contents())
      ensures failures == old(failures) + if ok then 0 else 1
    {
      ok := *;
      if !ok {
        failures := failures + 1;
      } else {
        DefiniteOk(now, bs);
        may := Definite(now).may;
      }
    }
  }

  datatype DamageReason = Undamaged | PayloadWrite | PayloadFlush | HeaderWrite | HeaderFlush

  datatype MountResult = MountOk | MountIo | MountCorrupt | MountNoSpace

  datatype CheckResult = CheckOk | CheckNotConfigured | CheckIo | CheckCorrupt

  datatype CommitResult = Committed | NotConfigured | IoFailure | NoSpace

  datatype GlobalResult =
    | AllSynced(durable: bool)
    | GlobalReadOnly
    | PlanRejected
    | TreeRejected
    | GlobalFailed(result: CommitResult)

  datatype SyncResult = Synced | SyncReadOnly | SyncNotConfigured | SyncIo | SyncNoSpace | SyncFailed(error: SyncError)

  /** What a mount that no failed operation stops answers. */
  function MountAnswer(d: seq<Block>, bs: BlockSize): MountResult
    requires IsDisk(d, bs)
  {
    match Recover(d, bs)
    case Unmountable => MountCorrupt
    case Mounted(m) =>
      if m == FRESH_MEMORY then MountOk
      else match RestoreOf(m.snap.payload, m.snap.version, m.snap.count)
        case Restored => MountOk
        case RestoreCorrupt => MountCorrupt
        case RestoreNoSpace => MountNoSpace
  }

  /** What restore answers for a snapshot's payload. */
  predicate RestoredAs(s: Snapshot, r: RestoreResult) {
    RestoreOf(s.payload, s.version, s.count) == r
  }

  /** Restore refuses a payload whose count word is not the header's. */
  lemma CountDecides(p: seq<byte>, version: nat, count: nat)
    requires 4 <= |p|
    ensures Read32(p, 0) != count ==> RestoreOf(p, version, count) == RestoreCorrupt
  {
  }

  /** The two ways to an answer: the payload of a candidate, or two empty
      headers. */
  lemma AnswerSelected(d: seq<Block>, h: Header, bs: BlockSize)
    requires IsDisk(d, bs) && Newest(Candidate(d, 0, bs), Candidate(d, 1, bs)) == Some(h)
    ensures Encodable(h)
    ensures MountAnswer(d, bs) == match RestoreOf(PayloadOf(d, h, bs), h.version, h.recordCount)
                                  case Restored => MountOk
                                  case RestoreCorrupt => MountCorrupt
                                  case RestoreNoSpace => MountNoSpace
  {
    hide ReadHeader, Candidate, PayloadOf, Read32, Recover, RestoreOf;
    RecoverSelected(d, h, bs);
    CandidateEncodable(d, h, bs);
    CountDecides(PayloadOf(d, h, bs), h.version, h.recordCount);
  }

  lemma CandidateEncodable(d: seq<Block>, h: Header, bs: BlockSize)
    requires IsDisk(d, bs) && Newest(Candidate(d, 0, bs), Candidate(d, 1, bs)) == Some(h)
    ensures Encodable(h) && 4 <= |PayloadOf(d, h, bs)|
  {
    hide ReadHeader, Crc32;
  }

  lemma RecoverSelected(d: seq<Block>, h: Header, bs: BlockSize)
    requires IsDisk(d, bs) && Newest(Candidate(d, 0, bs), Candidate(d, 1, bs)) == Some(h)
    ensures Encodable(h)
    ensures var p := PayloadOf(d, h, bs);
            Recover(d, bs) == if Read32(p, 0) != h.recordCount then Unmountable
                              else Mounted(Memory(h.slot, Snapshot(h.generation, h.version, h.recordCount, p)))
  {
  }

  lemma RecoverNone(d: seq<Block>, bs: BlockSize)
    requires IsDisk(d, bs) && Newest(Candidate(d, 0, bs), Candidate(d, 1, bs)).None?
    ensures Recover(d, bs) == if ReadHeader(d[0], 0).Absent? && ReadHeader(d[1], 1).Absent? then Mounted(FRESH_MEMORY)
                              else Unmountable
  {
  }

  lemma MountNext(m: Media, mem: Memory, bs: BlockSize)
    requires MediaOk(m, bs) && Recover(m.now, bs) == Mounted(mem)
    ensures MountStep(Sys(m, Off), Sys(m, Ready(mem)), bs)
  {
  }

  class Store {
    const device: Device
    const payload: array<byte>
    var mounted: bool
    var damaged: bool
    var damageReason: DamageReason
    var generation: u64
    var activeSlot: nat
    var recordCount: nat
    var payloadLength: nat
    var payloadVersion: nat
    var recoveries: nat
    var corruptHeaders: nat
    var readOnlyRemounts: nat
    var readOnlyRemountFailures: nat
    var discardedDirtyPages: nat

    ghost predicate Valid()
      reads this, payload, device
    {
      && device.Valid()
      && payload.Length == MAX_PAYLOAD
      && payloadLength <= MAX_PAYLOAD
      && activeSlot < 2
    }

    /** The committed state held in memory. */
    ghost function InMemory(): Memory
      reads this, payload
      requires payloadLength <= payload.Length
    {
      Memory(activeSlot, Snapshot(generation, payloadVersion, recordCount, payload[..payloadLength]))
    }

    /** An unmounted store, with the defaults of `initialize`. */
    constructor (device: Device)
      requires device.Valid()
      ensures Valid() && this.device == device && !mounted && !damaged && InMemory() == FRESH_MEMORY
      ensures fresh(payload)
    {
      this.device := device;
      payload := new byte[MAX_PAYLOAD](i => 0);
      mounted, damaged, damageReason := false, false, Undamaged;
      generation, activeSlot, recordCount, payloadLength, payloadVersion := 0, 1, 0, 0, VERSION;
      recoveries, corruptHeaders := 0, 0;
      readOnlyRemounts, readOnlyRemountFailures, discardedDirtyPages := 0, 0, 0;
    }

    /** `readHeader`: reads one header block and counts a refused one. */
    method LoadHeader(slot: nat) returns (ok: bool, state: HeaderState)
      requires Valid() && slot < 2
      modifies this`corruptHeaders, device`failures
      ensures Valid()
      ensures device.failures == old(device.failures) + if ok then 0 else 1
      ensures ok ==> state == ReadHeader(device.now[slot], slot)
      ensures corruptHeaders == old(corruptHeaders) + if ok && state.Invalid? then 1 else 0
    {
      var block: Block;
      ok, block := device.Read(slot);
      state := Absent;
      if ok {
        state := ReadHeader(block, slot);
        if state.Invalid? {
          corruptHeaders := corruptHeaders + 1;
        }
      }
    }

    /** `validatePayload`: the CRC of the declared payload, block by block. */
    method ValidatePayload(h: Header) returns (ok: bool, valid: bool)
      requires Valid() && Encodable(h)
      modifies device`failures
      ensures Valid()
      ensures device.failures == old(device.failures) + if ok then 0 else 1
      ensures ok ==> valid == (Crc32(PayloadOf(device.now, h, device.bs)) == h.payloadCrc)
    {
      hide ReadRun, Sectors, CrcUpdate, CrcFinish, Crc32, PayloadStart;
      var bs, start := device.bs, PayloadStart(device.bs, h.slot);
      RegionFits(device.now, h.slot, h.payloadLength, bs);
      ghost var whole := PayloadOf(device.now, h, bs);
      ghost var consumed: seq<byte> := [];
      var crc: Register := CRC_START;
      CrcOf([]);
      var remaining: nat, sector: nat := h.payloadLength, 0;
      while remaining != 0
        invariant remaining <= h.payloadLength && sector + Sectors(remaining, bs) == Sectors(h.payloadLength, bs)
        invariant consumed + ReadRun(device.now, start + sector, remaining, bs) == whole
        invariant crc == CrcUpdate(CRC_START, consumed)
        invariant device.failures == old(device.failures)
      {
        ReadRunStep(device.now, start + sector, remaining, bs);
        var block: Block;
        ok, block := device.Read(start + sector);
        if !ok {
          return false, false;
        }
        var count := Min(remaining, bs);
        CrcUpdateConcat(CRC_START, consumed, block[..count]);
        crc := ComputeCrcUpdate(crc, block[..count]);
        ghost var rest := ReadRun(device.now, start + sector + 1, remaining - count, bs);
        assert consumed + (block[..count] + rest) == (consumed + block[..count]) + rest;
        consumed := consumed + block[..count];
        remaining, sector := remaining - count, sector + 1;
      }
      EmptyRun(device.now, start + sector, bs);
      assert consumed == whole;
      CrcOf(whole);
      return true, CrcFinish(crc) == h.payloadCrc;
    }

    /** `loadPayload`: copies the declared payload into the payload buffer. */
    method LoadPayload(h: Header) returns (ok: bool)
      requires Valid() && Encodable(h) && payload != device as object
      modifies payload, device`failures
      ensures Valid()
      ensures device.failures == old(device.failures) + if ok then 0 else 1
      ensures ok ==> payload[..h.payloadLength] == PayloadOf(device.now, h, device.bs)
    {
      hide ReadRun, Sectors, PayloadStart, Splice, ReadHeader, MediaOk;
      MediaIsDisk(device.Contents(), device.bs);
      var bs, start := device.bs, PayloadStart(device.bs, h.slot);
      RegionFits(device.now, h.slot, h.payloadLength, bs);
      ghost var whole := PayloadOf(device.now, h, bs);
      Blit(payload, 0, Zeros(MAX_PAYLOAD));
      var remaining: nat, offset: nat, sector: nat := h.payloadLength, 0, 0;
      while remaining != 0
        invariant remaining + offset == h.payloadLength
        invariant sector + Sectors(remaining, bs) == Sectors(h.payloadLength, bs)
        invariant payload[..offset] + ReadRun(device.now, start + sector, remaining, bs) == whole
        invariant device.failures == old(device.failures)
      {
        ReadRunStep(device.now, start + sector, remaining, bs);
        var block: Block;
        ok, block := device.Read(start + sector);
        if !ok {
          return false;
        }
        var count := Min(remaining, bs);
        ghost var rest := ReadRun(device.now, start + sector + 1, remaining - count, bs);
        ghost var before := payload[..];
        assert before[..offset] == payload[..offset];
        Blit(payload, offset, block[..count]);
        LoadedOn(before, offset, block[..count], rest);
        assert payload[..offset + count] == payload[..][..offset + count];
        remaining, offset, sector := remaining - count, offset + count, sector + 1;
      }
      EmptyRun(device.now, start + sector, bs);
      return true;
    }

    /** `validCandidate`. */
    method ValidCandidate(state: HeaderState, ghost slot: nat) returns (ok: bool, c: Option<Header>)
      requires Valid() && slot < 2 && state == ReadHeader(device.now[slot], slot)
      modifies device`failures
      ensures Valid()
      ensures device.failures == old(device.failures) + if ok then 0 else 1
      ensures ok ==> c == Candidate(device.now, slot, device.bs)
    {
      match state {
        case Valid(h) =>
          var valid: bool;
          ok, valid := ValidatePayload(h);
          return ok, if valid then Some(h) else None;
        case _ =>
          return true, None;
      }
    }

    /** The selection half of `mount`: both headers, both payload checks, the
        newest candidate, and whether choosing it was a recovery. */
    method SelectCandidate() returns (ok: bool, selected: Option<Header>, recovery: bool, absent: bool)
      requires Valid()
      modifies this`corruptHeaders, device`failures
      ensures Valid()
      ensures device.failures == old(device.failures) + if ok then 0 else 1
      ensures ok ==> selected == Newest(Candidate(device.now, 0, device.bs), Candidate(device.now, 1, device.bs))
      ensures ok ==> (absent <==> ReadHeader(device.now[0], 0).Absent? && ReadHeader(device.now[1], 1).Absent?)
      ensures ok ==> corruptHeaders == old(corruptHeaders) + CorruptHeaders(device.now, device.bs)
      ensures ok && selected.Some? ==> Recoveries(device.now, device.bs) == if recovery then 1 else 0
      ensures ok && selected.None? ==> Recoveries(device.now, device.bs) == 0
    {
      hide IsDisk, ReadHeader, Candidate, PayloadOf;
      selected, recovery, absent := None, false, false;
      var first, second: HeaderState;
      var firstValid, secondValid: Option<Header>;
      ok, first := LoadHeader(0);
      if ok {
        ok, second := LoadHeader(1);
      }
      if ok {
        ok, firstValid := ValidCandidate(first, 0);
      }
      if ok {
        ok, secondValid := ValidCandidate(second, 1);
      }
      if ok {
        selected := Newest(firstValid, secondValid);
        var firstRejected := !first.Absent? && firstValid.None?;
        var secondRejected := !second.Absent? && secondValid.None?;
        recovery := firstRejected || secondRejected
                    || (firstValid.Some? && secondValid.Some?
                        && firstValid.value.generation != secondValid.value.generation);
        absent := first.Absent? && second.Absent?;
      }
    }

    /** The selected candidate's half of `mount`: the payload is loaded and
        restored, and only then the memory moves to the candidate. */
    method RestoreCandidate(h: Header) returns (r: MountResult)
      requires Valid() && payload != device as object
      requires Newest(Candidate(device.now, 0, device.bs), Candidate(device.now, 1, device.bs)) == Some(h)
      modifies this`generation, this`activeSlot, this`recordCount, this`payloadLength, this`payloadVersion, payload
      modifies device`failures
      ensures Valid()
      ensures device.failures == old(device.failures) + if r.MountIo? then 1 else 0
      ensures !r.MountIo? ==> r == MountAnswer(device.now, device.bs)
      ensures r.MountOk? ==> Recover(device.now, device.bs) == Mounted(InMemory()) && RestoredAs(InMemory().snap, Restored)
      ensures r.MountCorrupt? ==>
                var found := Recover(device.now, device.bs);
                found == Unmountable || RestoredAs(found.memory.snap, RestoreCorrupt)
      ensures r.MountNoSpace? ==>
                var found := Recover(device.now, device.bs);
                found.Mounted? && RestoredAs(found.memory.snap, RestoreNoSpace)
    {
      hide IsDisk, ReadHeader, Candidate, PayloadOf, Read32, Recover, Newest, RestoreOf, MountAnswer;
      RecoverSelected(device.now, h, device.bs);
      AnswerSelected(device.now, h, device.bs);
      var ok := LoadPayload(h);
      if !ok {
        return MountIo;
      }
      var restored := RestorePayload(payload, h.payloadLength, h.version, h.recordCount);
      CountDecides(payload[..h.payloadLength], h.version, h.recordCount);
      if restored == RestoreCorrupt {
        return MountCorrupt;
      }
      if restored == RestoreNoSpace {
        return MountNoSpace;
      }
      generation, activeSlot, recordCount := h.generation, h.slot, h.recordCount;
      payloadLength, payloadVersion := h.payloadLength, h.version;
      return MountOk;
    }

    /** `mount`, with every operation on the file tree succeeding: the memory
        becomes exactly what Recover says of the disk, once all three passes of
        restore accept its payload, and the counters tell how. */
    method Mount() returns (r: MountResult)
      requires Valid() && payload != device as object
      modifies this, payload, device`failures
      ensures Valid() && !damaged
      ensures device.failures == old(device.failures) + if r.MountIo? then 1 else 0
      ensures !r.MountIo? ==> r == MountAnswer(device.now, device.bs)
      ensures mounted <==> r.MountOk?
      ensures r.MountOk? ==> Recover(device.now, device.bs) == Mounted(InMemory())
      ensures r.MountOk? ==> MountStep(Sys(device.Contents(), Off), Sys(device.Contents(), Ready(InMemory())), device.bs)
      ensures r.MountOk? ==> recoveries == Recoveries(device.now, device.bs)
      ensures r.MountOk? ==> InMemory() == FRESH_MEMORY || RestoredAs(InMemory().snap, Restored)
      ensures r.MountCorrupt? ==>
                var found := Recover(device.now, device.bs);
                found == Unmountable || RestoredAs(found.memory.snap, RestoreCorrupt)
      ensures r.MountNoSpace? ==>
                var found := Recover(device.now, device.bs);
                found.Mounted? && RestoredAs(found.memory.snap, RestoreNoSpace)
      ensures !r.MountIo? ==> corruptHeaders == CorruptHeaders(device.now, device.bs)
    {
      hide IsDisk, ReadHeader, Candidate, PayloadOf, Read32, Recoveries, CorruptHeaders, Recover, MountStep, Newest, RestoredAs;
      mounted, damaged, damageReason := false, false, Undamaged;
      generation, activeSlot, recordCount, payloadLength, payloadVersion := 0, 1, 0, 0, VERSION;
      recoveries, corruptHeaders := 0, 0;
      var ok, selected, recovery, absent := SelectCandidate();
      if !ok {
        return MountIo;
      }
      if selected.Some? {
        var h := selected.value;
        r := RestoreCandidate(h);
        if r != MountOk {
          return;
        }
        recoveries := if recovery then 1 else 0;
      } else {
        RecoverNone(device.now, device.bs);
        if !absent {
          return MountCorrupt;
        }
      }
      mounted := true;
      MountNext(device.Contents(), InMemory(), device.bs);
      return MountOk;
    }

    /** `check`: the verdict on the disk is exactly CheckPasses. */
    method Check() returns (r: CheckResult)
      requires Valid()
      modifies this`corruptHeaders, device`failures
      ensures Valid() && InMemory() == old(InMemory())
      ensures device.failures == old(device.failures) + if r.CheckIo? then 1 else 0
      ensures r.CheckNotConfigured? <==> !mounted
      ensures r.CheckOk? ==> CheckPasses(device.now, InMemory(), device.bs)
      ensures r.CheckCorrupt? ==> !CheckPasses(device.now, InMemory(), device.bs)
    {
      hide ReadHeader, PayloadOf, Crc32;
      if !mounted {
        return CheckNotConfigured;
      }
      var ok: bool;
      if generation == 0 {
        var first, second: HeaderState;
        ok, first := LoadHeader(0);
        if !ok {
          return CheckIo;
        }
        ok, second := LoadHeader(1);
        if !ok {
          return CheckIo;
        }
        return if !first.Absent? || !second.Absent? then CheckCorrupt else CheckOk;
      }
      var state: HeaderState;
      ok, state := LoadHeader(activeSlot);
      if !ok {
        return CheckIo;
      }
      match state {
        case Valid(h) =>
          if h.generation != generation || h.version != payloadVersion {
            return CheckCorrupt;
          }
          ValidIsEncodable(device.now[activeSlot], activeSlot);
          var valid: bool;
          ok, valid := ValidatePayload(h);
          if !ok {
            return CheckIo;
          }
          return if valid then CheckOk else CheckCorrupt;
        case _ =>
          return CheckCorrupt;
      }
    }

    /** `recordIoDamage`: only the first damage counts, and it remounts the file
        tree read-only; `remounted` is the number of dirty pages the remount
        discards, or nothing when it fails. */
    method RecordIoDamage(reason: DamageReason, remounted: Option<nat>)
      modifies this`damaged, this`damageReason
      modifies this`readOnlyRemounts, this`readOnlyRemountFailures, this`discardedDirtyPages
      ensures damaged && damageReason == if old(damaged) then old(damageReason) else reason
      ensures readOnlyRemounts == old(readOnlyRemounts) + if !old(damaged) && remounted.Some? then 1 else 0
      ensures readOnlyRemountFailures == old(readOnlyRemountFailures) + if !old(damaged) && remounted.None? then 1 else 0
      ensures discardedDirtyPages
              == old(discardedDirtyPages) + if !old(damaged) && remounted.Some? then remounted.value else 0
    {
      if damaged {
        return;
      }
      damaged, damageReason := true, reason;
      if remounted.None? {
        readOnlyRemountFailures := readOnlyRemountFailures + 1;
        return;
      }
      readOnlyRemounts, discardedDirtyPages := readOnlyRemounts + 1, discardedDirtyPages + remounted.value;
    }

    /** One payload write: a step of the machine, or the damage. */
    method WriteSector(l: nat, block: Block, ghost done: nat, ghost mem: Memory, ghost new_: Snapshot,
                       ghost before: seq<Sys>)
      returns (ok: bool, ghost steps: seq<Sys>)
      requires Valid() && payload != device as object
      requires mem.active < 2 && done < |Blocks(new_.payload, device.bs)| && block == Blocks(new_.payload, device.bs)[done]
      requires l == PayloadStart(device.bs, Other(mem.active)) + done && l < |device.now|
      requires Segment(before, mem, new_, device.bs) && Last(before) == Sys(device.Contents(), Writing(mem, new_, done))
      modifies device
      ensures Valid() && InMemory() == old(InMemory()) && |device.now| == |old(device.now)|
      ensures Segment(steps, mem, new_, device.bs) && before <= steps && |steps| == |before| + 1
      ensures Last(steps) == Sys(device.Contents(), if ok then Writing(mem, new_, done + 1) else Damaged(mem, new_))
      ensures steps[|steps| - 2] == Last(before)
      ensures device.failures == old(device.failures) + if ok then 0 else 1
    {
      hide Blocks, PayloadStart, Cached, Forced, Next, Segment, IsDisk, MediaOk;
      ghost var media := device.Contents();
      ok := device.Write(l, block, false);
      SectorNext(media, device.Contents(), mem, new_, done, ok, device.bs);
      steps := Grow(before, Sys(device.Contents(), if ok then Writing(mem, new_, done + 1) else Damaged(mem, new_)),
                    mem, new_, device.bs);
    }

    /** The payload loop of `commitSnapshot`: one zero-filled block at a time,
        without force-unit-access, stopping at the first refused write. */
    method WritePayload(next: array<byte>, length: nat, slot: nat, ghost mem: Memory, ghost new_: Snapshot,
                        ghost before: seq<Sys>)
      returns (ok: bool, ghost steps: seq<Sys>)
      requires Valid() && next != device as object && payload != device as object
      requires length <= next.Length && length <= MAX_PAYLOAD && new_.payload == next[..length]
      requires mem.active < 2 && slot == Other(mem.active)
      requires Segment(before, mem, new_, device.bs) && Last(before) == Sys(device.Contents(), Writing(mem, new_, 0))
      modifies device
      ensures Valid() && InMemory() == old(InMemory())
      ensures device.failures == old(device.failures) + if ok then 0 else 1
      ensures Segment(steps, mem, new_, device.bs) && before <= steps
      ensures ok ==> Last(steps) == Sys(device.Contents(), Writing(mem, new_, |Blocks(new_.payload, device.bs)|))
      ensures !ok ==> |before| < |steps| && Last(steps) == Sys(device.Contents(), Damaged(mem, new_))
                      && ReasonFits(steps[|steps| - 2].phase, PayloadWrite, device.bs)
    {
      hide Blocks, Sectors, PayloadStart, Next, Cached;
      var bs := device.bs;
      RegionFits(device.now, slot, length, bs);
      assert 0 < |before|;
      hide IsDisk, MediaOk, Segment;
      var start := PayloadStart(bs, slot);
      ghost var image := Blocks(new_.payload, bs);
      var remaining: nat, offset: nat, sector: nat := length, 0, 0;
      steps := before;
      assert new_.payload[0..] == new_.payload;
      while remaining != 0
        invariant Valid() && next[..length] == new_.payload && |device.now| == |old(device.now)|
        invariant remaining + offset == length
        invariant sector <= |image| && image[sector..] == Blocks(new_.payload[offset..], bs)
        invariant 0 < |before| && Segment(steps, mem, new_, bs) && before <= steps
        invariant Last(steps) == Sys(device.Contents(), Writing(mem, new_, sector))
        invariant InMemory() == old(InMemory()) && device.failures == old(device.failures)
      {
        var n := Min(remaining, bs);
        var block := next[offset..offset + n] + Zeros(bs - n);
        NextSector(image, new_.payload, offset, sector, n, bs);
        assert new_.payload[offset..offset + n] == next[offset..offset + n];
        ok, steps := WriteSector(start + sector, block, sector, mem, new_, steps);
        if !ok {
          return;
        }
        remaining, offset, sector := remaining - n, offset + n, sector + 1;
      }
      EmptyBlocks(bs);
      assert new_.payload[offset..] == [];
      ok := true;
    }

    /** The preparing half of `commitSnapshot`: the payload blocks, then the
        first flush. */
    method PreparePayload(next: array<byte>, length: nat, slot: nat, ghost mem: Memory, ghost new_: Snapshot,
                          ghost before: seq<Sys>)
      returns (ok: bool, reason: DamageReason, ghost steps: seq<Sys>)
      requires Valid() && next != device as object && payload != device as object
      requires length <= next.Length && length <= MAX_PAYLOAD && new_.payload == next[..length]
      requires mem.active < 2 && slot == Other(mem.active)
      requires Segment(before, mem, new_, device.bs) && Last(before) == Sys(device.Contents(), Writing(mem, new_, 0))
      modifies device
      ensures Valid() && InMemory() == old(InMemory())
      ensures device.failures == old(device.failures) + if ok then 0 else 1
      ensures Segment(steps, mem, new_, device.bs) && before <= steps
      ensures ok ==> Last(steps) == Sys(device.Contents(), PayloadFlushed(mem, new_))
      ensures !ok ==> |before| < |steps| && Last(steps) == Sys(device.Contents(), Damaged(mem, new_))
                      && ReasonFits(steps[|steps| - 2].phase, reason, device.bs)
    {
      hide Blocks, Next, Definite, IsDisk, MediaOk;
      ok, steps := WritePayload(next, length, slot, mem, new_, before);
      if !ok {
        return ok, PayloadWrite, steps;
      }
      ghost var media := device.Contents();
      ok := device.Flush();
      FlushNext(media, device.Contents(), mem, new_, ok, device.bs);
      reason := if ok then Undamaged else PayloadFlush;
      steps := Grow(steps, Sys(device.Contents(), if ok then PayloadFlushed(mem, new_) else Damaged(mem, new_)), mem, new_,
                    device.bs);
    }

    /** The publishing half of `commitSnapshot`: header with
        force-unit-access, then the second flush. */
    method PublishHeader(h: Header, ghost mem: Memory, ghost new_: Snapshot, ghost before: seq<Sys>)
      returns (ok: bool, reason: DamageReason, ghost steps: seq<Sys>)
      requires Valid() && payload != device as object
      requires mem.active < 2 && WellFormed(new_) && h == HeaderFor(Other(mem.active), new_)
      requires Segment(before, mem, new_, device.bs) && Last(before) == Sys(device.Contents(), PayloadFlushed(mem, new_))
      modifies device
      ensures Valid() && InMemory() == old(InMemory())
      ensures device.failures == old(device.failures) + if ok then 0 else 1
      ensures Segment(steps, mem, new_, device.bs) && before <= steps && |before| < |steps|
      ensures ok ==> Last(steps) == Sys(device.Contents(), Ready(Memory(h.slot, new_)))
                     && steps[|steps| - 2].phase == HeaderWritten(mem, new_)
      ensures !ok ==> Last(steps) == Sys(device.Contents(), Damaged(mem, new_))
                      && ReasonFits(steps[|steps| - 2].phase, reason, device.bs)
    {
      hide IsDisk, MediaOk, HeaderBlock, Cached, Forced, Definite, Next, WellFormed;
      var bs := device.bs;
      ghost var media := device.Contents();
      var sector := new byte[bs];
      EncodeHeader(sector, h, bs);
      ok := device.Write(h.slot, sector[..], true);
      HeadersFit(media, bs);
      HeaderNext(media, device.Contents(), mem, new_, ok, bs);
      if !ok {
        steps := Grow(before, Sys(device.Contents(), Damaged(mem, new_)), mem, new_, bs);
        return ok, HeaderWrite, steps;
      }
      media := device.Contents();
      steps := Grow(before, Sys(media, HeaderWritten(mem, new_)), mem, new_, bs);
      ok := device.Flush();
      SealNext(media, device.Contents(), mem, new_, ok, bs);
      if !ok {
        steps := Grow(steps, Sys(device.Contents(), Damaged(mem, new_)), mem, new_, bs);
        return ok, HeaderFlush, steps;
      }
      steps := Grow(steps, Sys(device.Contents(), Ready(Memory(h.slot, new_))), mem, new_, bs);
      return ok, Undamaged, steps;
    }

    /** The last part of `commitSnapshot`: the memory moves to the snapshot. */
    method Adopt(next: array<byte>, length: nat, h: Header)
      requires Valid() && payload != device as object && next != payload
      requires length == h.payloadLength <= next.Length && length <= MAX_PAYLOAD && h.slot < 2
      modifies this, payload
      ensures Valid() && mounted == old(mounted) && damaged == old(damaged) && damageReason == old(damageReason)
      ensures InMemory() == Memory(h.slot, Snapshot(h.generation, VERSION, h.recordCount, next[..length]))
    {
      Blit(payload, 0, Zeros(MAX_PAYLOAD));
      Blit(payload, 0, next[..length]);
      generation, activeSlot, recordCount := h.generation, h.slot, h.recordCount;
      payloadLength, payloadVersion := length, VERSION;
      assert payload[..length] == next[..length];
    }

    /** `commitSnapshot`: payload blocks to the passive slot, flush, header with
        force-unit-access, flush; only then the memory moves. The ghost result
        lists every state the system went through: the call is a run segment
        of the step machine, whatever the device does. */
    method CommitSnapshot(next: array<byte>, length: nat, count: nat) returns (r: CommitResult, ghost steps: seq<Sys>)
      requires Valid() && !damaged && payload != device as object
      requires next.Length == MAX_PAYLOAD && next != payload && next != device as object
      requires length <= MAX_PAYLOAD && Committable(next[..length], count)
      modifies this, payload, device
      ensures Valid()
      ensures !old(mounted) ==> r.NotConfigured? && InMemory() == old(InMemory())
                                && device.Contents() == old(device.Contents())
      ensures old(mounted) ==> !r.NotConfigured? && mounted
      ensures device.failures == old(device.failures) + if r.IoFailure? then 1 else 0
      ensures old(mounted) ==>
                CommitLeft(steps, Sys(old(device.Contents()), Ready(old(InMemory()))), old(next[..length]), count, r,
                           device.Contents(), InMemory(), damaged, device.bs)
      ensures old(mounted) && r.IoFailure? ==>
                2 <= |steps| && ReasonFits(steps[|steps| - 2].phase, damageReason, device.bs)
    {
      hide IsDisk, MediaOk, Blocks, Read32, HeaderBlock, Cached, Forced, Definite, Next, ReasonFits, Crc32;
      steps := [];
      if !mounted {
        return NotConfigured, steps;
      }
      var bs, slot := device.bs, Other(activeSlot);
      ghost var mem := InMemory();
      ghost var new_ := NextSnapshot(mem, next[..length], count);
      ghost var media := device.Contents();
      steps := [Sys(media, Ready(mem))];
      BeginNext(media, mem, next[..length], count, bs);
      steps := Grow(steps, Sys(media, Writing(mem, new_, 0)), mem, new_, bs);
      var remount: Option<nat> := *;
      var ok: bool, reason: DamageReason;
      ok, reason, steps := PreparePayload(next, length, slot, mem, new_, steps);
      if !ok {
        RecordIoDamage(reason, remount);
        return IoFailure, steps;
      }
      media := device.Contents();
      if generation == 0xFFFF_FFFF_FFFF_FFFF {
        WrapNext(media, mem, new_, bs);
        steps := Grow(steps, Sys(media, Ready(mem)), mem, new_, bs);
        return NoSpace, steps;
      }
      var nextGeneration: u64 := generation + 1;
      var h := Header(slot, VERSION, nextGeneration, length, Crc32(next[..length]), count);
      ok, reason, steps := PublishHeader(h, mem, new_, steps);
      if !ok {
        RecordIoDamage(reason, remount);
        return IoFailure, steps;
      }
      Adopt(next, length, h);
      return Committed, steps;
    }

    /** `sync`: nothing is written unless every writable mount is covered and
        the tree can be serialized, and then exactly one commit of the walked
        tree is made when the store is one of the mounts. */
    method Sync(mounts: seq<MountEntry>, mountId: nat, v: TreeWalk.View, next: array<byte>)
      returns (r: GlobalResult, ghost steps: seq<Sys>)
      requires Valid() && payload != device as object && TreeWalk.ValidView(v)
      requires next.Length == MAX_PAYLOAD && next != payload && next != device as object
      modifies this, payload, device, next
      ensures Valid() && mounted == old(mounted)
      ensures device.failures == old(device.failures) + if r == GlobalFailed(IoFailure) then 1 else 0
      ensures r.GlobalReadOnly? <==> old(damaged)
      ensures r.PlanRejected? <==> !old(damaged) && !Coverable(mounts, old(mounted), mountId)
      ensures r.TreeRejected? <==>
                !old(damaged) && Coverable(mounts, old(mounted), mountId) && old(mounted) && TreeWalk.WalkOf(v).WalkFailed?
      ensures r.AllSynced? && !r.durable <==> !old(damaged) && Coverable(mounts, old(mounted), mountId) && !old(mounted)
      ensures r != GlobalFailed(Committed)
      ensures (r.AllSynced? && r.durable) || r.GlobalFailed? ==>
                TreeWalk.WalkOf(v).Walking?
                && var rs := TreeWalk.WalkOf(v).records;
                   CommitLeft(steps, Sys(old(device.Contents()), Ready(old(InMemory()))), PayloadBytes(rs), |rs|,
                              if r.AllSynced? then Committed else r.result,
                              device.Contents(), InMemory(), damaged, device.bs)
      ensures r.GlobalReadOnly? || r.PlanRejected? || r.TreeRejected? || (r.AllSynced? && !r.durable) ==>
                InMemory() == old(InMemory()) && device.Contents() == old(device.Contents()) && damaged == old(damaged)
    {
      hide Segment, Coverable, IsDisk, MediaOk, TreeWalk.WalkOf, TreeWalk.ValidView, PayloadBytes;
      steps := [];
      if damaged {
        return GlobalReadOnly, steps;
      }
      var plan := PlanWritableMounts(mounts, mounted, mountId);
      if !plan.Plan? {
        return PlanRejected, steps;
      }
      if plan.durableMountId == 0 {
        return AllSynced(false), steps;
      }
      var walked := TreeWalk.SerializeTree(v, next);
      if walked.SerializeFailed? {
        return TreeRejected, steps;
      }
      ListCommittable(TreeWalk.WalkOf(v).records);
      var done: CommitResult;
      done, steps := CommitSnapshot(next, walked.length, walked.count);
      return if done.Committed? then AllSynced(true) else GlobalFailed(done), steps;
    }

    /** `syncFile` and `syncFileData`: what the fsync and fdatasync calls do to
        the journal. A damaged store refuses, an unmounted one is not
        configured, an unmigrated or empty one does not support it, a build that
        fails gives its error, and otherwise exactly one commit is made, of the
        payload FileSyncOf builds from the committed one. */
    method SyncFile(target: Name, live: Inode, includeMetadata: bool, next: array<byte>)
      returns (r: SyncResult, ghost steps: seq<Sys>)
      requires Valid() && payload != device as object
      requires next.Length == MAX_PAYLOAD && next != payload && next != device as object
      modifies this, payload, device, next
      ensures Valid() && mounted == old(mounted)
      ensures device.failures == old(device.failures) + if r.SyncIo? then 1 else 0
      ensures r.SyncReadOnly? <==> old(damaged)
      ensures r.SyncNotConfigured? <==> !old(damaged) && !old(mounted)
      ensures r.SyncFailed? <==>
                !old(damaged) && old(mounted) && FileSyncRefuses(old(InMemory()).snap, target, live, includeMetadata).Some?
      ensures r.SyncFailed? ==> FileSyncRefuses(old(InMemory()).snap, target, live, includeMetadata) == Some(r.error)
      ensures !old(damaged) && old(mounted) && (old(InMemory()).snap.generation == 0 || old(InMemory()).snap.version != 3) ==>
                r == SyncFailed(Unsupported)
      ensures r.SyncReadOnly? || r.SyncNotConfigured? || r.SyncFailed? ==>
                InMemory() == old(InMemory()) && device.Contents() == old(device.Contents()) && damaged == old(damaged)
      ensures r.Synced? || r.SyncIo? || r.SyncNoSpace? ==>
                var old_ := old(InMemory());
                && 4 <= |old_.snap.payload|
                && FileSyncOf(old_.snap.payload, old_.snap.count, target, live, includeMetadata).Payload?
                && var rs := FileSyncOf(old_.snap.payload, old_.snap.count, target, live, includeMetadata).records;
                   CommitLeft(steps, Sys(old(device.Contents()), Ready(old_)), PayloadBytes(rs), |rs|, OutcomeOf(r),
                              device.Contents(), InMemory(), damaged, device.bs)
    {
      hide FileSyncOf, PayloadBytes, Segment, IsDisk, MediaOk, UnLe;
      steps := [];
      if damaged {
        return SyncReadOnly, steps;
      }
      if !mounted {
        return SyncNotConfigured, steps;
      }
      if generation == 0 || payloadLength < 4 || payloadVersion != VERSION {
        return SyncFailed(Unsupported), steps;
      }
      var built := BuildFileSync(payload, payloadLength, recordCount, target, live, includeMetadata, next);
      match built {
        case Failure(e) =>
          return SyncFailed(e), steps;
        case Snapshotted(length, count) =>
          SnapshotCommittable(payload[..payloadLength], recordCount, target, live, includeMetadata);
          var done: CommitResult;
          done, steps := CommitSnapshot(next, length, count);
          match done {
            case Committed => return Synced, steps;
            case IoFailure => return SyncIo, steps;
            case NoSpace => return SyncNoSpace, steps;
            case NotConfigured => return SyncNotConfigured, steps;
          }
      }
    }
  }

  lemma ListCommittable(rs: seq<Record>)
    requires |PayloadBytes(rs)| <= MAX_PAYLOAD
    ensures Committable(PayloadBytes(rs), |rs|)
  {
    hide Serialize, Le;
    TreeWalk.FewRecords(rs);
    CountOf(rs);
  }

  /** The result of the commit inside a one-file sync. */
  function OutcomeOf(r: SyncResult): CommitResult {
    match r
    case Synced => Committed
    case SyncIo => IoFailure
    case SyncNoSpace => NoSpace
    case _ => NotConfigured
  }

  /** Why a mounted, undamaged store refuses to sync a file, if it does. */
  function FileSyncRefuses(s: Snapshot, target: Name, live: Inode, includeMetadata: bool): Option<SyncError> {
    if s.generation == 0 || |s.payload| < 4 || s.version != VERSION then Some(Unsupported)
    else
      match FileSyncOf(s.payload, s.count, target, live, includeMetadata)
      case BuildFailed(e) => Some(e)
      case Payload(_) => None
  }

  /** What one commit of a payload leaves behind: the machine steps it took from
      `before`, and the memory and damage flag that match the last of them. */
  ghost predicate CommitLeft(steps: seq<Sys>, before: Sys, payload: seq<byte>, count: nat, r: CommitResult,
                             media: Media, mem: Memory, damaged: bool, bs: BlockSize) {
    && before.phase.Ready?
    && var old_, new_ := before.phase.mem, NextSnapshot(before.phase.mem, payload, count);
       && Segment(steps, old_, new_, bs) && steps[0] == before
       && match r
          case Committed =>
            && mem == Memory(Other(old_.active), new_) && !damaged && Last(steps) == Sys(media, Ready(mem))
            && 2 <= |steps| && steps[|steps| - 2].phase == HeaderWritten(old_, new_)
          case IoFailure => mem == old_ && damaged && Last(steps) == Sys(media, Damaged(old_, new_))
          case NoSpace =>
            && mem == old_ && !damaged && Last(steps) == Sys(media, Ready(old_))
            && old_.snap.generation == 0xFFFF_FFFF_FFFF_FFFF
          case NotConfigured => false
  }

  lemma SnapshotCommittable(p: seq<byte>, count: nat, target: Name, live: Inode, includeMetadata: bool)
    requires 4 <= |p|
    ensures var built := FileSyncOf(p, count, target, live, includeMetadata);
            built.Payload? ==> Committable(PayloadBytes(built.records), |built.records|)
  {
    hide RecordBytes, Serialize, ScanFrom;
    var built := FileSyncOf(p, count, target, live, includeMetadata);
    if built.Payload? {
      var rs := FileSyncMeaning(p, count, target, live, includeMetadata);
      var next := PayloadBytes(built.records);
      assert next[0..4] == Le(|built.records|, 4);
      FieldBytes(p, 0, 4);
      FieldOfLe(next, 0, 4, |built.records|);
    }
  }

  // Each device operation of the commit as a step of the machine.

  lemma BeginNext(m: Media, mem: Memory, payload: seq<byte>, count: nat, bs: BlockSize)
    requires MediaOk(m, bs) && Committable(payload, count)
    ensures Next(Sys(m, Ready(mem)), Sys(m, Writing(mem, NextSnapshot(mem, payload, count), 0)), bs)
  {
    hide Committable;
    assert BeginStep(Sys(m, Ready(mem)), Sys(m, Writing(mem, NextSnapshot(mem, payload, count), 0)));
  }

  lemma SectorNext(m: Media, n: Media, mem: Memory, next: Snapshot, done: nat, ok: bool, bs: BlockSize)
    requires MediaOk(m, bs) && mem.active < 2 && done < |Blocks(next.payload, bs)|
    requires PayloadStart(bs, Other(mem.active)) + done < |m.now|
    requires var l, b := PayloadStart(bs, Other(mem.active)) + done, Blocks(next.payload, bs)[done];
             if ok then n == Cached(m, l, b, true) else n in {m, Cached(m, l, b, true), Cached(m, l, b, false)}
    ensures Next(Sys(m, Writing(mem, next, done)),
                 Sys(n, if ok then Writing(mem, next, done + 1) else Damaged(mem, next)), bs)
  {
    hide Blocks, Cached, PayloadStart;
    assert WriteSectorStep(Sys(m, Writing(mem, next, done)),
                           Sys(n, if ok then Writing(mem, next, done + 1) else Damaged(mem, next)), bs);
  }

  lemma FlushNext(m: Media, n: Media, mem: Memory, next: Snapshot, ok: bool, bs: BlockSize)
    requires MediaOk(m, bs) && n == if ok then Definite(m.now) else m
    ensures Next(Sys(m, Writing(mem, next, |Blocks(next.payload, bs)|)),
                 Sys(n, if ok then PayloadFlushed(mem, next) else Damaged(mem, next)), bs)
  {
    hide Blocks, Definite;
    assert FlushPayloadStep(Sys(m, Writing(mem, next, |Blocks(next.payload, bs)|)),
                            Sys(n, if ok then PayloadFlushed(mem, next) else Damaged(mem, next)), bs);
  }

  lemma WrapNext(m: Media, mem: Memory, next: Snapshot, bs: BlockSize)
    requires MediaOk(m, bs) && next.generation == 0x1_0000_0000_0000_0000
    ensures Next(Sys(m, PayloadFlushed(mem, next)), Sys(m, Ready(mem)), bs)
  {
    assert WrapStep(Sys(m, PayloadFlushed(mem, next)), Sys(m, Ready(mem)));
  }

  lemma HeaderNext(m: Media, n: Media, mem: Memory, next: Snapshot, ok: bool, bs: BlockSize)
    requires MediaOk(m, bs) && mem.active < 2 && WellFormed(next)
    requires var slot := Other(mem.active);
             var b := HeaderBlock(HeaderFor(slot, next), bs);
             slot < |m.now|
             && if ok then n == Forced(m, slot, b) else n in {m, Cached(m, slot, b, true), Cached(m, slot, b, false)}
    ensures Next(Sys(m, PayloadFlushed(mem, next)),
                 Sys(n, if ok then HeaderWritten(mem, next) else Damaged(mem, next)), bs)
  {
    hide HeaderBlock, HeaderFor, Cached, Forced, WellFormed;
    assert WriteHeaderStep(Sys(m, PayloadFlushed(mem, next)),
                           Sys(n, if ok then HeaderWritten(mem, next) else Damaged(mem, next)), bs);
  }

  lemma HeadersFit(m: Media, bs: BlockSize)
    requires MediaOk(m, bs)
    ensures 2 <= |m.now|
  {
  }

  lemma SealNext(m: Media, n: Media, mem: Memory, next: Snapshot, ok: bool, bs: BlockSize)
    requires MediaOk(m, bs) && n == if ok then Definite(m.now) else m
    ensures Next(Sys(m, HeaderWritten(mem, next)),
                 Sys(n, if ok then Ready(Memory(Other(mem.active), next)) else Damaged(mem, next)), bs)
  {
    hide Definite;
    assert FlushHeaderStep(Sys(m, HeaderWritten(mem, next)),
                           Sys(n, if ok then Ready(Memory(Other(mem.active), next)) else Damaged(mem, next)));
  }

  /** A state of one commit of `new_` over `mem`. */
  ghost predicate OfCommit(p: Phase, mem: Memory, new_: Snapshot) {
    match p
    case Off => false
    case Ready(m) => m == mem || m == Memory(Other(mem.active), new_)
    case Writing(m, next, _) => m == mem && next == new_
    case PayloadFlushed(m, next) => m == mem && next == new_
    case HeaderWritten(m, next) => m == mem && next == new_
    case Damaged(m, next) => m == mem && next == new_
  }

  /** Consecutive steps of the machine, all within one commit. */
  ghost predicate Segment(steps: seq<Sys>, mem: Memory, new_: Snapshot, bs: BlockSize) {
    && 0 < |steps|
    && (forall i :: 0 <= i < |steps| ==> OfCommit(steps[i].phase, mem, new_))
    && (forall i :: 0 <= i < |steps| - 1 ==> Next(steps[i], steps[i + 1], bs))
  }

  ghost function Last(steps: seq<Sys>): Sys
    requires 0 < |steps|
  {
    steps[|steps| - 1]
  }

  lemma SegmentStarts(steps: seq<Sys>, mem: Memory, new_: Snapshot, bs: BlockSize)
    requires Segment(steps, mem, new_, bs)
    ensures 0 < |steps|
  {
  }

  lemma Grow(steps: seq<Sys>, t: Sys, mem: Memory, new_: Snapshot, bs: BlockSize) returns (r: seq<Sys>)
    requires Segment(steps, mem, new_, bs) && Next(Last(steps), t, bs) && OfCommit(t.phase, mem, new_)
    ensures r == steps + [t] && Segment(r, mem, new_, bs) && steps <= r
  {
    hide Next, OfCommit;
    r := steps + [t];
    forall i | 0 <= i < |r| - 1
      ensures Next(r[i], r[i + 1], bs)
    {
      if i < |steps| - 1 {
        assert Next(steps[i], steps[i + 1], bs);
      }
    }
  }

  lemma {:induction false} SegmentInvariant(steps: seq<Sys>, mem: Memory, new_: Snapshot, bs: BlockSize, i: nat)
    requires Segment(steps, mem, new_, bs) && Inv(steps[0], bs) && i < |steps|
    ensures Inv(steps[i], bs)
  {
    if i > 0 {
      SegmentInvariant(steps, mem, new_, bs, i - 1);
      StepRefines(steps[i - 1], steps[i], bs);
    }
  }

  /** Whatever the device does during a `commitSnapshot` call, and wherever in
      the call the power fails, the next mount yields the snapshot committed
      before the call or the one being committed, complete. */
  lemma CommitCrashSafe(steps: seq<Sys>, mem: Memory, new_: Snapshot, bs: BlockSize, i: nat, image: seq<Block>)
    requires Segment(steps, mem, new_, bs) && Inv(steps[0], bs) && i < |steps| && CrashImage(steps[i].media, image)
    ensures IsDisk(image, bs) && Recover(image, bs).Mounted?
    ensures Recover(image, bs).memory.snap in {mem.snap, new_}
  {
    hide Next, Inv, Recover, CrashImage;
    SegmentInvariant(steps, mem, new_, bs, i);
    CrashSafe(steps[i], image, bs);
    assert OfCommit(steps[i].phase, mem, new_);
    NotOff(steps[i], mem, new_, bs);
  }

  lemma NotOff(s: Sys, mem: Memory, new_: Snapshot, bs: BlockSize)
    requires Inv(s, bs) && OfCommit(s.phase, mem, new_)
    ensures Abstract(s, bs).durable in {mem.snap, new_}
    ensures Abstract(s, bs).pending in {None, Some(new_)}
  {
  }

  lemma MediaIsDisk(m: Media, bs: BlockSize)
    requires MediaOk(m, bs)
    ensures IsDisk(m.now, bs)
  {
  }

  /** One more block loaded behind the bytes before it. */
  lemma LoadedOn(buffer: seq<byte>, offset: nat, piece: seq<byte>, rest: seq<byte>)
    requires offset + |piece| <= |buffer|
    ensures Splice(buffer, offset, piece)[..offset + |piece|] + rest == buffer[..offset] + (piece + rest)
  {
    assert Splice(buffer, offset, piece)[..offset + |piece|] == buffer[..offset] + piece;
  }

  /** The next block of a payload being written from `offset` on. */
  lemma NextSector(image: seq<Block>, payload: seq<byte>, offset: nat, sector: nat, n: nat, bs: BlockSize)
    requires offset < |payload| && n == Min(|payload| - offset, bs)
    requires sector <= |image| && image[sector..] == Blocks(payload[offset..], bs)
    ensures sector < |image| && image[sector] == payload[offset..offset + n] + Zeros(bs - n)
    ensures image[sector + 1..] == Blocks(payload[offset + n..], bs)
  {
    hide Blocks;
    var rest := payload[offset..];
    BlocksStep(rest, bs);
    assert rest[..n] == payload[offset..offset + n] && rest[n..] == payload[offset + n..];
    assert image[sector] == image[sector..][0] && image[sector + 1..] == image[sector..][1..];
  }

  lemma EmptyBlocks(bs: BlockSize)
    ensures Blocks([], bs) == []
  {
  }

  /** The damage reason names the operation that failed. */
  ghost predicate ReasonFits(p: Phase, reason: DamageReason, bs: BlockSize) {
    match p
    case Writing(_, next, done) =>
      if done < |Blocks(next.payload, bs)| then reason == PayloadWrite else reason == PayloadFlush
    case PayloadFlushed(_, _) => reason == HeaderWrite
    case HeaderWritten(_, _) => reason == HeaderFlush
    case _ => false
  }
}
