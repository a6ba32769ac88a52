// The host's view of the journal in an image file: the readers of
// scripts/test-x86_64-persistence.py find, in a partition of a flat image,
// exactly what the kernel's mount finds on the blocks, and the image built by
// scripts/create-nvme-test-image.py is where every run of the machine can start.
module JournalHost {
  import opened Bytes
  import opened Checksums
  import opened JournalFormat
  import opened JournalRecords
  import opened JournalDisk
  import opened JournalRuns
  import opened JournalDurability
  import opened JournalLists
  import N = NvmeImage

  /** `slot_payload_lba`, and the same expression inside `parse_records`. */
  function SlotPayloadLba(first: nat, slot: nat, bs: BlockSize): nat {
    first + 2 + slot * ((MAX_PAYLOAD + bs - 1) / bs)
  }

  lemma SlotPayloadLbaMeaning(first: nat, slot: nat, bs: BlockSize)
    requires slot < 2
    ensures SlotPayloadLba(first, slot, bs) == first + PayloadStart(bs, slot)
    ensures forall lba: nat :: lba * bs == At(lba, bs)
  {
  }

  /** What a mount of a version-3 list rests on, field by field. */
  lemma MountedHeader(d: seq<Block>, m: Memory, bs: BlockSize) returns (h: Header)
    requires IsDisk(d, bs) && Recover(d, bs) == Mounted(m) && 4 <= |m.snap.payload|
    ensures m.active < 2 && Encodable(h) && ReadHeader(d[m.active], m.active) == Valid(h)
    ensures h == Header(m.active, m.snap.version, m.snap.generation, |m.snap.payload|, Crc32(m.snap.payload), m.snap.count)
    ensures ReadRun(d, PayloadStart(bs, m.active), |m.snap.payload|, bs) == m.snap.payload
  {
    hide ReadHeader, Crc32, Read32, ReadRun;
    h := Newest(Candidate(d, 0, bs), Candidate(d, 1, bs)).value;
    assert Candidate(d, h.slot, bs) == Some(h);
    CandidateFacts(d, h.slot, bs);
  }

  lemma CandidateFacts(d: seq<Block>, slot: nat, bs: BlockSize)
    requires IsDisk(d, bs) && slot < 2 && Candidate(d, slot, bs).Some?
    ensures var h := Candidate(d, slot, bs).value;
            ReadHeader(d[slot], slot) == Valid(h) && Crc32(PayloadOf(d, h, bs)) == h.payloadCrc
  {
  }

  /** The header parser accepts the mounted slot of the image with the mounted
      generation, and the record parser then returns exactly `rs`. */
  ghost predicate HostReads(image: seq<byte>, first: nat, m: Memory, rs: seq<Record>, bs: BlockSize) {
    && m.active < 2 && At(first + m.active, bs) + bs <= |image|
    && var parsed := ParsedBlock(image[At(first + m.active, bs)..At(first + m.active, bs) + bs], m.active);
       && parsed.Accepted? && parsed.header.generation == m.snap.generation && parsed.header.slot == m.active
       && var start := At(SlotPayloadLba(first, m.active, bs), bs);
          && start + parsed.header.payloadLength <= |image|
          && ParsePayload(image[start..start + parsed.header.payloadLength], parsed.header.payloadCrc,
                          parsed.header.recordCount) == Parsed(rs)
  }

  /** The host reads what the kernel mounts, in any image backing a disk that
      mounts a version-3 record list. */
  lemma HostReadsMounted(image: seq<byte>, first: nat, d: seq<Block>, m: Memory, rs: seq<Record>, bs: BlockSize)
    requires IsDisk(d, bs) && Backs(image, first, d, bs) && Recover(d, bs) == Mounted(m)
    requires m.snap.version == VERSION && Lists(m.snap, rs) && Hostable(rs)
    ensures HostReads(image, first, m, rs, bs)
  {
    hide ReadHeader, ParsedBlock, Crc32, Recover, ReadRun, ParsePayload, Serialize, Hostable;
    var h := MountedHeader(d, m, bs);
    ReadersAgree(d[m.active], m.active);
    assert image[At(first + m.active, bs)..At(first + m.active, bs) + bs] == d[m.active];
    RegionFits(d, m.active, h.payloadLength, bs);
    SliceIsRun(image, first, d, PayloadStart(bs, m.active), h.payloadLength, bs);
    SlotPayloadLbaMeaning(first, m.active, bs);
    RecoveredRecords(d, m, rs, bs);
  }

  /** And it calls a slot empty exactly when the kernel does. */
  lemma HostReadsAbsent(image: seq<byte>, first: nat, d: seq<Block>, slot: nat, bs: BlockSize)
    requires IsDisk(d, bs) && Backs(image, first, d, bs) && slot < 2
    ensures At(first + slot, bs) + bs <= |image|
    ensures ParsedBlock(image[At(first + slot, bs)..At(first + slot, bs) + bs], slot) == NoHeader
            <==> ReadHeader(d[slot], slot) == Absent
  {
    hide ReadHeader, ParsedBlock;
    assert image[At(first + slot, bs)..At(first + slot, bs) + bs] == d[slot];
    ReadersAgree(d[slot], slot);
  }

  // ------------------------------------------- runs seen in an image file

  /** A version-3 list the host's record parser reads. */
  ghost predicate HostList(s: Snapshot, rs: seq<Record>) {
    s.version == VERSION && Lists(s, rs) && Hostable(rs)
  }

  /** Cut the power anywhere in a run that began on a fresh partition and look
      at the image on the host. Where nothing has been committed the host may
      find both slots empty; otherwise the generation a mount would choose is in
      slot (n - 1) mod 2, and the host reads either the durable list or the one
      in flight, exactly. */
  lemma HostReadsEveryCrash(run: seq<Sys>, bs: BlockSize, i: nat, d: seq<Block>, image: seq<byte>, first: nat,
                            durable: seq<Record>, pending: seq<Record>)
    requires IsRun(run, bs) && FreshDisk(run[0].media.now, bs) && i < |run| && CrashImage(run[i].media, d)
    requires MediaOk(run[i].media, bs)
    requires var c := Abstract(run[i], bs);
             && (c.durable == FRESH || HostList(c.durable, durable))
             && (c.pending.Some? ==> HostList(c.pending.value, pending))
    requires Backs(image, first, d, bs)
    ensures IsDisk(d, bs) && Recover(d, bs).Mounted?
    ensures var m, c := Recover(d, bs).memory, Abstract(run[i], bs);
            if m.snap == FRESH then c.durable == FRESH && HostSeesNothing(image, first, bs)
            else
              && m.active == (m.snap.generation + 1) % 2
              && ((m.snap == c.durable && HostReads(image, first, m, durable, bs))
                  || (c.pending == Some(m.snap) && HostReads(image, first, m, pending, bs)))
  {
    hide IsRun, Inv, Parity, Recover, CrashImage, HostReads, Lists, Hostable, Backs, IsDisk, Abstract, FreshDisk,
         MediaOk, Next, HostSeesNothing;
    RunParity(run, bs, i);
    InvMedia(run[i], bs);
    ImageParity(run[i], d, bs);
    RunCrashSafe(run, bs, i, d);
    var m, c := Recover(d, bs).memory, Abstract(run[i], bs);
    if m.snap == FRESH {
      FreshMemory(d, m, bs);
      NothingSeen(image, first, d, bs);
      NoFreshPending(pending);
    } else if m.snap == c.durable {
      HostReadsMounted(image, first, d, m, durable, bs);
    } else {
      HostReadsMounted(image, first, d, m, pending, bs);
    }
  }

  /** Both slots of the image are empty. */
  ghost predicate HostSeesNothing(image: seq<byte>, first: nat, bs: BlockSize) {
    SlotEmpty(image, first, 0, bs) && SlotEmpty(image, first, 1, bs)
  }

  ghost predicate SlotEmpty(image: seq<byte>, first: nat, slot: nat, bs: BlockSize) {
    && At(first + slot, bs) + bs <= |image|
    && ParsedBlock(image[At(first + slot, bs)..At(first + slot, bs) + bs], slot) == NoHeader
  }

  lemma NothingSeen(image: seq<byte>, first: nat, d: seq<Block>, bs: BlockSize)
    requires IsDisk(d, bs) && Backs(image, first, d, bs)
    requires ReadHeader(d[0], 0).Absent? && ReadHeader(d[1], 1).Absent?
    ensures HostSeesNothing(image, first, bs)
  {
    hide ReadHeader, ParsedBlock, Backs;
    HostReadsAbsent(image, first, d, 0, bs);
    HostReadsAbsent(image, first, d, 1, bs);
  }

  lemma NoFreshPending(rs: seq<Record>)
    ensures !HostList(FRESH, rs)
  {
    hide Hostable;
  }

  // ------------------------------------------------------- the fresh image

  /** The data partition of the image the builder makes. */
  function DataBlocks(l: N.Layout, efi: seq<byte>, readme: nat, crossLink: bool, f: N.Fixtures): seq<Block>
    requires N.Ordered(l) && N.Accepted(l, Sectors(|efi|, l.bs), readme) && N.FixturesOk(f)
  {
    DataEnds(l);
    PartitionBlocks(N.Disk(l, efi, readme, crossLink, f), l.dataFirst, l.dataLast + 1 - l.dataFirst, l.bs)
  }

  /** It is, for every image, a disk on which a run may start, and it mounts as
      the empty tree at generation 0. */
  lemma FreshImageStarts(l: N.Layout, efi: seq<byte>, readme: nat, crossLink: bool, f: N.Fixtures)
    requires N.Ordered(l) && N.Accepted(l, Sectors(|efi|, l.bs), readme) && N.FixturesOk(f)
    ensures var d := DataBlocks(l, efi, readme, crossLink, f);
            && Backs(N.Disk(l, efi, readme, crossLink, f), l.dataFirst, d, l.bs)
            && FreshDisk(d, l.bs) && Init(Sys(Definite(d), Off), l.bs)
            && Recover(d, l.bs) == Mounted(FRESH_MEMORY)
  {
    hide N.Disk, N.Accepted, Init, N.FixturesOk, Definite, N.Ordered;
    DataEnds(l);
    N.DataInside(l, l.dataFirst, l.dataFirst + 1);
    N.DataInside(l, l.dataFirst + 1, l.dataFirst + 2);
    N.DataPartitionZero(l, efi, readme, crossLink, f, l.dataFirst, l.dataFirst + 1);
    N.DataPartitionZero(l, efi, readme, crossLink, f, l.dataFirst + 1, l.dataFirst + 2);
    var d := DataBlocks(l, efi, readme, crossLink, f);
    NextBlock(l.dataFirst, l.bs);
    NextBlock(l.dataFirst + 1, l.bs);
    assert AllZero(d[0]) && AllZero(d[1]);
    FreshInit(d, l.bs);
    SettledRecovers(d, FRESH_MEMORY, l.bs);
  }

  /** The host calls both journal slots of the fresh image empty. */
  lemma JournalAbsent(l: N.Layout, efi: seq<byte>, readme: nat, crossLink: bool, f: N.Fixtures, slot: nat)
    requires N.Ordered(l) && N.Accepted(l, Sectors(|efi|, l.bs), readme) && N.FixturesOk(f) && slot < 2
    ensures var image, lo := N.Disk(l, efi, readme, crossLink, f), At(l.dataFirst + slot, l.bs);
            lo + l.bs <= |image| && ParsedBlock(image[lo..lo + l.bs], slot) == NoHeader
  {
    hide N.Disk, N.Accepted, Init, N.FixturesOk, N.Ordered, DataBlocks, Backs, Recover, Definite, ParsedBlock;
    FreshImageStarts(l, efi, readme, crossLink, f);
    HostReadsAbsent(N.Disk(l, efi, readme, crossLink, f), l.dataFirst, DataBlocks(l, efi, readme, crossLink, f), slot, l.bs);
  }

  lemma DataEnds(l: N.Layout)
    requires N.Ordered(l)
    ensures l.dataFirst + 2 + 2 * RegionSectors(l.bs) <= l.dataLast + 1 && At(l.dataLast + 1, l.bs) <= N.TotalBytes(l)
    ensures l.dataFirst + (l.dataLast + 1 - l.dataFirst) == l.dataLast + 1
  {
  }
}
