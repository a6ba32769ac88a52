// Where the commit protocol stops being crash safe: the exact condition on the
// disk a commit starts from, and the disks that violate it.
module JournalLimits {
  import opened Bytes
  import opened Checksums
  import opened JournalFormat
  import opened JournalDisk
  import opened JournalRecords
  import opened JournalRuns
  import opened JournalCorruption
  import opened JournalDurability
  import opened JournalRestore
  import opened JournalLists

  /** Block `l` is where a commit to `slot` puts one of the payload's blocks,
      and `b` is that block. */
  predicate Lands(b: Block, slot: nat, payload: seq<byte>, l: nat, bs: BlockSize) {
    var start := PayloadStart(bs, slot);
    start <= l < start + |Blocks(payload, bs)| && b == Blocks(payload, bs)[l - start]
  }

  /** What a power loss may leave of `d` while `payload` is being written to
      `slot`: each of its blocks landed or did not, and nothing else changed. */
  ghost predicate InFlight(d: seq<Block>, image: seq<Block>, slot: nat, payload: seq<byte>, bs: BlockSize) {
    && |image| == |d|
    && forall l :: 0 <= l < |d| ==> image[l] == d[l] || Lands(image[l], slot, payload, l, bs)
  }

  /** The passive slot's header is valid and a mount would prefer it to `m` if
      its payload checksum matched. */
  predicate Outranks(block: Block, m: Memory)
    requires HEADER_SIZE <= |block| && m.active < 2
  {
    ReadHeader(block, Other(m.active)).Valid?
    && var g := ReadHeader(block, Other(m.active)).header.generation;
       g > m.snap.generation || (g == m.snap.generation && m.active == 1)
  }

  /** Crash safety, in the window before its header is written, of every commit
      the kernel could begin on this disk. */
  ghost predicate SafeToCommit(d: seq<Block>, m: Memory, bs: BlockSize)
    requires IsDisk(d, bs) && m.active < 2
  {
    forall rs, image :: WriterList(rs) && InFlight(d, image, Other(m.active), PayloadBytes(rs), bs) ==>
                        IsDisk(image, bs) && Recover(image, bs) == Mounted(m)
  }

  lemma InFlightIsDisk(d: seq<Block>, image: seq<Block>, slot: nat, payload: seq<byte>, bs: BlockSize)
    requires IsDisk(d, bs) && slot < 2 && |payload| <= MAX_PAYLOAD && InFlight(d, image, slot, payload, bs)
    ensures IsDisk(image, bs)
    ensures forall l :: 0 <= l < |d| && !InRegion(l, slot, bs) ==> image[l] == d[l]
  {
    forall l | 0 <= l < |d|
      ensures |image[l]| == bs && (InRegion(l, slot, bs) || image[l] == d[l])
    {
      assert image[l] == d[l] || Lands(image[l], slot, payload, l, bs);
    }
  }

  /** What a mounted memory rests on: the slot it came from, or two absent
      headers. */
  lemma MountedRests(d: seq<Block>, m: Memory, bs: BlockSize)
    requires IsDisk(d, bs) && Recover(d, bs) == Mounted(m)
    ensures m.active < 2
    ensures if m == FRESH_MEMORY then ReadHeader(d[0], 0).Absent? && ReadHeader(d[1], 1).Absent?
            else Holds(d, m.active, m.snap, bs)
  {
    hide ReadHeader, Crc32, Read32, ReadRun;
    if m == FRESH_MEMORY {
      FreshMemory(d, m, bs);
    }
  }

  /** The active slot is untouched by writes to the other region. */
  lemma ActiveSurvives(d: seq<Block>, image: seq<Block>, m: Memory, bs: BlockSize)
    requires IsDisk(d, bs) && IsDisk(image, bs) && |image| == |d| && m.active < 2
    requires Holds(d, m.active, m.snap, bs)
    requires forall l :: 0 <= l < |d| && !InRegion(l, Other(m.active), bs) ==> image[l] == d[l]
    ensures image[0] == d[0] && image[1] == d[1] && Holds(image, m.active, m.snap, bs)
  {
    hide ReadHeader, Crc32, Read32, ReadRun;
    assert image[0] == d[0] && image[1] == d[1];
    ReadRunSame(d, image, PayloadStart(bs, m.active), |m.snap.payload|, bs);
  }

  /** A mount with the active slot holding `m.snap`, by the other candidate. */
  lemma RecoverAgainst(d: seq<Block>, m: Memory, bs: BlockSize)
    requires IsDisk(d, bs) && m.active < 2 && Holds(d, m.active, m.snap, bs)
    ensures !(Outranks(d[Other(m.active)], m) && Candidate(d, Other(m.active), bs).Some?)
            <==> Recover(d, bs) == Mounted(m)
  {
    hide Crc32, Read32, ReadRun, ReadHeader;
    CandidateOfHolds(d, m.active, m.snap, bs);
  }

  /** The disk after every block of the payload has landed. */
  lemma AllLanded(d: seq<Block>, slot: nat, payload: seq<byte>, bs: BlockSize) returns (image: seq<Block>)
    requires IsDisk(d, bs) && slot < 2 && |payload| <= MAX_PAYLOAD
    ensures InFlight(d, image, slot, payload, bs) && IsDisk(image, bs)
    ensures ReadRun(image, PayloadStart(bs, slot), |payload|, bs) == payload
    ensures image[0] == d[0] && image[1] == d[1]
  {
    var start, landed := PayloadStart(bs, slot), Blocks(payload, bs);
    RegionFits(d, slot, |payload|, bs);
    image := Overlay(d, start, landed);
    OverlayInFlight(d, image, slot, payload, bs);
    InFlightIsDisk(d, image, slot, payload, bs);
    hide InFlight, Blocks, PayloadStart, Sectors;
    forall i | 0 <= i < |landed|
      ensures image[start + i] == landed[i]
    {
      assert image[start + i] == landed[start + i - start];
    }
    ReadRunOfBlocks(image, start, payload, bs);
  }

  lemma Overlay(d: seq<Block>, start: nat, landed: seq<Block>) returns (image: seq<Block>)
    requires start + |landed| <= |d|
    ensures |image| == |d|
    ensures forall l :: 0 <= l < |d| ==> image[l] == if start <= l < start + |landed| then landed[l - start] else d[l]
  {
    image := d[..start] + landed + d[start + |landed|..];
  }

  lemma OverlayInFlight(d: seq<Block>, image: seq<Block>, slot: nat, payload: seq<byte>, bs: BlockSize)
    requires |image| == |d|
    requires var start, landed := PayloadStart(bs, slot), Blocks(payload, bs);
             forall l :: 0 <= l < |d| ==> image[l] == if start <= l < start + |landed| then landed[l - start] else d[l]
    ensures InFlight(d, image, slot, payload, bs)
  {
    hide Blocks, PayloadStart;
  }

  /** The exact condition, on every mounted disk whose passive header, if
      valid, is one a commit left there: every commit the kernel could begin is
      crash safe until its header is written if and only if that header does
      not outrank the mounted generation. */
  lemma SafeToCommitExactly(d: seq<Block>, m: Memory, bs: BlockSize)
    requires IsDisk(d, bs) && m.active < 2 && Recover(d, bs) == Mounted(m)
    requires OurHeader(d[Other(m.active)], Other(m.active))
    ensures SafeToCommit(d, m, bs) <==> !Outranks(d[Other(m.active)], m)
  {
    hide Recover, Outranks, SafeToCommit, OurHeader;
    if Outranks(d[Other(m.active)], m) {
      var rs, image := Unsafe(d, m, bs);
      Refuted(d, m, rs, image, bs);
    } else {
      NotOutrankedIsSafe(d, m, bs);
    }
  }

  lemma Refuted(d: seq<Block>, m: Memory, rs: seq<Record>, image: seq<Block>, bs: BlockSize)
    requires IsDisk(d, bs) && m.active < 2 && IsDisk(image, bs)
    requires WriterList(rs) && InFlight(d, image, Other(m.active), PayloadBytes(rs), bs)
    requires Recover(image, bs) != Mounted(m)
    ensures !SafeToCommit(d, m, bs)
  {
    hide Recover, WriterList, InFlight, PayloadBytes, IsDisk;
  }

  /** Without an outranking header every commit is safe, whoever wrote the
      passive header. */
  lemma NotOutrankedIsSafe(d: seq<Block>, m: Memory, bs: BlockSize)
    requires IsDisk(d, bs) && m.active < 2 && Recover(d, bs) == Mounted(m) && !Outranks(d[Other(m.active)], m)
    ensures SafeToCommit(d, m, bs)
  {
    hide Crc32, Read32, ReadRun, Recover, Holds, ReadHeader, Lands, Candidate, PayloadBytes, AllRestorable, InFlight;
    var slot := Other(m.active);
    MountedRests(d, m, bs);
    forall rs, image | WriterList(rs) && InFlight(d, image, slot, PayloadBytes(rs), bs)
      ensures IsDisk(image, bs) && Recover(image, bs) == Mounted(m)
    {
      InFlightIsDisk(d, image, slot, PayloadBytes(rs), bs);
      InFlightSize(d, image, slot, PayloadBytes(rs), bs);
      if m == FRESH_MEMORY {
        assert image[0] == d[0] && image[1] == d[1];
        SettledRecovers(image, m, bs);
      } else {
        ActiveSurvives(d, image, m, bs);
        RecoverAgainst(image, m, bs);
      }
    }
  }

  /** With one, committing the very list it declares again is unsafe once all
      its blocks have landed. */
  lemma Unsafe(d: seq<Block>, m: Memory, bs: BlockSize) returns (rs: seq<Record>, image: seq<Block>)
    requires IsDisk(d, bs) && m.active < 2 && Recover(d, bs) == Mounted(m) && Outranks(d[Other(m.active)], m)
    requires OurHeader(d[Other(m.active)], Other(m.active))
    ensures WriterList(rs) && InFlight(d, image, Other(m.active), PayloadBytes(rs), bs)
    ensures IsDisk(image, bs) && Recover(image, bs) != Mounted(m)
  {
    hide Crc32, Read32, ReadRun, Recover, Holds, ReadHeader, Lands, InFlight, Candidate, IsDisk, PayloadBytes,
         AllRestorable, OurHeader;
    var slot := Other(m.active);
    HeadersExist(d, bs);
    MountedRests(d, m, bs);
    var s := DeclaredBy(d[slot], slot);
    rs :| Lists(s, rs) && WriterList(rs);
    image := AllLanded(d, slot, s.payload, bs);
    InFlightIsDisk(d, image, slot, s.payload, bs);
    InFlightSize(d, image, slot, s.payload, bs);
    HeadersExist(image, bs);
    ActiveSurvives(d, image, m, bs);
    CandidateOfRun(image, slot, HeaderFor(slot, s), s.payload, bs);
    RecoverAgainst(image, m, bs);
  }

  lemma DeclaredBy(block: Block, slot: nat) returns (s: Snapshot)
    requires HEADER_SIZE <= |block| && slot < 2 && ReadHeader(block, slot).Valid? && OurHeader(block, slot)
    ensures WellFormed(s) && Written(s) && ReadHeader(block, slot) == Valid(HeaderFor(slot, s))
  {
    hide ReadHeader, WellFormed, Written;
    s :| WellFormed(s) && Written(s) && ReadHeader(block, slot) == Valid(HeaderFor(slot, s));
  }

  lemma HeadersExist(d: seq<Block>, bs: BlockSize)
    requires IsDisk(d, bs)
    ensures 2 <= |d| && |d[0]| == bs && |d[1]| == bs
  {
  }

  lemma InFlightSize(d: seq<Block>, image: seq<Block>, slot: nat, payload: seq<byte>, bs: BlockSize)
    requires InFlight(d, image, slot, payload, bs)
    ensures |image| == |d|
  {
  }

  lemma CandidateOfRun(d: seq<Block>, slot: nat, h: Header, payload: seq<byte>, bs: BlockSize)
    requires IsDisk(d, bs) && slot < 2 && Encodable(h) && h.slot == slot && ReadHeader(d[slot], slot) == Valid(h)
    requires PayloadStart(bs, slot) + Sectors(h.payloadLength, bs) <= |d|
    requires ReadRun(d, PayloadStart(bs, slot), h.payloadLength, bs) == payload && Crc32(payload) == h.payloadCrc
    ensures Candidate(d, slot, bs).Some?
  {
  }

  /** The disks the run theorems start from are all safe to commit on. */
  lemma SettledIsSafe(d: seq<Block>, m: Memory, bs: BlockSize)
    requires IsDisk(d, bs) && m.active < 2 && Settled(d, m, bs)
    ensures SafeToCommit(d, m, bs)
  {
    SettledRecovers(d, m, bs);
    hide SafeToCommit, Recover, Holds;
    NotOutrankedIsSafe(d, m, bs);
  }

  // ----------------------------------- how a mounted disk becomes unsafe

  /** After one changed byte on a healthy pair the mounted disk is again a
      settled one, except when the byte is in the newest generation's payload:
      its header stays valid and newer than what is mounted. */
  lemma SettledAfterOneByte(d: seq<Block>, e: seq<Block>, newest: nat, new_: Snapshot, old_: Snapshot,
                            l: nat, i: nat, bs: BlockSize)
    requires HealthyPair(d, newest, new_, old_, bs) && IsDisk(e, bs) && OneByteChanged(d, e, l, i)
    ensures Recover(e, bs).Mounted?
    ensures Settled(e, Recover(e, bs).memory, bs) <==> !(2 <= l && Protected(newest, new_, l, i, bs))
  {
    hide ReadHeader, Candidate, Recover, PayloadOf, Read32, ReadRun, Crc32, OneByteChanged, Protected;
    OneByteRecovery(d, e, newest, new_, old_, l, i, bs);
    SlotAfter(d, e, newest, new_, l, i, bs);
    SlotAfter(d, e, Other(newest), old_, l, i, bs);
    ProtectedParts(newest, new_, l, i, bs);
    ProtectedParts(Other(newest), old_, l, i, bs);
    if newest == 0 {
      ProtectedOnce(new_, old_, l, i, bs);
    } else {
      ProtectedOnce(old_, new_, l, i, bs);
    }
    if l < 2 && i >= HEADER_SIZE {
      assert !Protected(newest, new_, l, i, bs) && !Protected(Other(newest), old_, l, i, bs);
    }
  }

  /** Then a generation the mount rejected can come back. The byte is damaged
      in block `l` of the newest payload; the mount falls back to the older
      generation; the next commit is of another list of which one block has the
      contents the damaged block had; that block lands alone and the power
      fails. The mount that follows recovers neither the committed state nor the
      one in flight but the rejected generation, and no checksum collides. */
  lemma RejectedGenerationReturns(d: seq<Block>, e: seq<Block>, newest: nat, new_: Snapshot, old_: Snapshot,
                                  l: nat, i: nat, rs: seq<Record>, bs: BlockSize)
    requires HealthyPair(d, newest, new_, old_, bs) && IsDisk(e, bs) && OneByteChanged(d, e, l, i)
    requires 2 <= l && Protected(newest, new_, l, i, bs)
    requires WriterList(rs) && PayloadBytes(rs) != new_.payload && Lands(d[l], newest, PayloadBytes(rs), l, bs)
    ensures Recover(e, bs) == Mounted(Memory(Other(newest), old_))
    ensures var image := e[l := d[l]];
            && InFlight(e, image, newest, PayloadBytes(rs), bs) && IsDisk(image, bs)
            && Recover(image, bs) == Mounted(Memory(newest, new_))
    ensures new_ !in {old_, NextSnapshot(Memory(Other(newest), old_), PayloadBytes(rs), |rs|)}
  {
    hide ReadHeader, Candidate, Recover, PayloadOf, Read32, ReadRun, Crc32, Protected, Holds, Lands, WriterList,
         PayloadBytes;
    OneByteRecovery(d, e, newest, new_, old_, l, i, bs);
    var image := e[l := d[l]];
    assert image == d;
    HealthyRecovers(d, newest, new_, old_, bs);
  }

  lemma HealthyRecovers(d: seq<Block>, newest: nat, new_: Snapshot, old_: Snapshot, bs: BlockSize)
    requires HealthyPair(d, newest, new_, old_, bs)
    ensures Recover(d, bs) == Mounted(Memory(newest, new_))
  {
    hide ReadHeader, Read32, ReadRun, Crc32, Holds;
    CandidateOfHolds(d, newest, new_, bs);
    CandidateOfHolds(d, Other(newest), old_, bs);
    HoldsFacts(d, newest, new_, bs);
    HoldsFacts(d, Other(newest), old_, bs);
  }

  /** The kernel's own check cannot see the danger: it passes on that disk,
      on which not every commit is safe. */
  lemma CheckMissesIt(d: seq<Block>, e: seq<Block>, newest: nat, new_: Snapshot, old_: Snapshot,
                      l: nat, i: nat, bs: BlockSize)
    requires HealthyPair(d, newest, new_, old_, bs) && IsDisk(e, bs) && OneByteChanged(d, e, l, i)
    requires 2 <= l && Protected(newest, new_, l, i, bs) && 0 < old_.generation && Written(new_)
    ensures var m := Memory(Other(newest), old_);
            Recover(e, bs) == Mounted(m) && CheckPasses(e, m, bs) && !SafeToCommit(e, m, bs)
  {
    hide ReadHeader, Candidate, Recover, PayloadOf, Read32, ReadRun, Crc32, Protected, SafeToCommit, OneByteChanged, Written;
    var m := Memory(Other(newest), old_);
    OneByteRecovery(d, e, newest, new_, old_, l, i, bs);
    SlotAfter(d, e, newest, new_, l, i, bs);
    SlotAfter(d, e, Other(newest), old_, l, i, bs);
    if newest == 0 {
      ProtectedOnce(new_, old_, l, i, bs);
    } else {
      ProtectedOnce(old_, new_, l, i, bs);
    }
    CandidateOfHolds(e, Other(newest), old_, bs);
    SafeToCommitExactly(e, m, bs);
  }
}
