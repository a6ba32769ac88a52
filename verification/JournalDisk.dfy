// The journal partition as blocks: slot geometry, payload reads, and what a
// mount finds on a given disk (src/runtime_persist.zig).
module JournalDisk {
  import opened Bytes
  import opened Checksums
  import opened JournalFormat

  type Block = seq<byte>

  /** `(n + block_size - 1) / block_size`. */
  function Sectors(n: nat, bs: BlockSize): nat {
    if bs == 512 then (n + 511) / 512 else (n + 4095) / 4096
  }

  /** The byte offset of a block, or the size of that many blocks. */
  function At(lba: nat, bs: BlockSize): nat {
    if bs == 512 then 512 * lba else 4096 * lba
  }

  /** The image file holds the partition's blocks from block `first` on. */
  ghost predicate Backs(image: seq<byte>, first: nat, d: seq<Block>, bs: BlockSize) {
    && At(first + |d|, bs) <= |image|
    && forall l :: 0 <= l < |d| ==> image[At(first + l, bs)..At(first + l, bs) + bs] == d[l]
  }

  /** The blocks of a partition in a flat image. */
  function PartitionBlocks(image: seq<byte>, first: nat, n: nat, bs: BlockSize): (d: seq<Block>)
    requires At(first + n, bs) <= |image|
    ensures |d| == n
    ensures forall l :: 0 <= l < n ==> |d[l]| == bs && d[l] == image[At(first + l, bs)..At(first + l, bs) + bs]
  {
    if n == 0 then []
    else
      PartitionBlocks(image, first, n - 1, bs) + [image[At(first + n - 1, bs)..At(first + n - 1, bs) + bs]]
  }

  lemma NextBlock(lba: nat, bs: BlockSize)
    ensures At(lba + 1, bs) == At(lba, bs) + bs
  {
  }

  function RegionSectors(bs: BlockSize): nat {
    Sectors(MAX_PAYLOAD, bs)
  }

  function PayloadStart(bs: BlockSize, slot: nat): nat {
    2 + slot * RegionSectors(bs)
  }

  function Other(slot: nat): nat {
    if slot == 0 then 1 else 0
  }

  /** A partition large enough for two headers and two payload regions. */
  ghost predicate IsDisk(d: seq<Block>, bs: BlockSize) {
    && 2 + 2 * RegionSectors(bs) <= |d|
    && forall l :: 0 <= l < |d| ==> |d[l]| == bs
  }

  /** The first `len` bytes of the blocks from `lba` on. */
  function ReadRun(d: seq<Block>, lba: nat, len: nat, bs: BlockSize): (s: seq<byte>)
    requires forall l :: 0 <= l < |d| ==> |d[l]| == bs
    requires lba + Sectors(len, bs) <= |d|
    ensures |s| == len
    decreases len
  {
    if len == 0 then []
    else
      var k := Min(len, bs);
      d[lba][..k] + ReadRun(d, lba + 1, len - k, bs)
  }

  lemma ReadRunStep(d: seq<Block>, lba: nat, len: nat, bs: BlockSize)
    requires forall l :: 0 <= l < |d| ==> |d[l]| == bs
    requires lba + Sectors(len, bs) <= |d| && 0 < len
    ensures Sectors(len, bs) == 1 + Sectors(len - Min(len, bs), bs) && lba < |d|
    ensures ReadRun(d, lba, len, bs) == d[lba][..Min(len, bs)] + ReadRun(d, lba + 1, len - Min(len, bs), bs)
  {
  }

  lemma EmptyRun(d: seq<Block>, lba: nat, bs: BlockSize)
    requires forall l :: 0 <= l < |d| ==> |d[l]| == bs
    requires lba + Sectors(0, bs) <= |d|
    ensures ReadRun(d, lba, 0, bs) == []
  {
  }

  lemma BlocksStep(p: seq<byte>, bs: BlockSize)
    requires 0 < |p|
    ensures var k := Min(|p|, bs); Blocks(p, bs) == [p[..k] + Zeros(bs - k)] + Blocks(p[k..], bs)
  {
  }

  /** Consecutive file bytes are consecutive block bytes. */
  lemma {:induction false} SliceIsRun(image: seq<byte>, first: nat, d: seq<Block>, lba: nat, len: nat, bs: BlockSize)
    requires Backs(image, first, d, bs) && (forall l :: 0 <= l < |d| ==> |d[l]| == bs)
    requires lba + Sectors(len, bs) <= |d|
    ensures At(first + lba, bs) + len <= |image|
    ensures image[At(first + lba, bs)..At(first + lba, bs) + len] == ReadRun(d, lba, len, bs)
    decreases len
  {
    hide ReadRun, At;
    var lo := At(first + lba, bs);
    RunInside(first + lba, len, first + |d|, bs);
    if len == 0 {
      EmptyRun(d, lba, bs);
    } else {
      var k := Min(len, bs);
      ReadRunStep(d, lba, len, bs);
      NextBlock(first + lba, bs);
      SliceIsRun(image, first, d, lba + 1, len - k, bs);
      hide Sectors;
      assert image[lo..lo + k] == d[lba][..k] by { SliceOfSlice(image, lo, lo + bs, 0, k); }
      assert image[lo..lo + len] == image[lo..lo + k] + image[lo + k..lo + len];
      assert k < bs ==> len - k == 0 && image[lo + bs..lo + bs] == [];
    }
  }

  lemma RunInside(lba: nat, len: nat, end: nat, bs: BlockSize)
    requires lba + Sectors(len, bs) <= end
    ensures At(lba, bs) + len <= At(end, bs)
  {
  }

  lemma RegionFits(d: seq<Block>, slot: nat, len: nat, bs: BlockSize)
    requires IsDisk(d, bs) && slot < 2 && len <= MAX_PAYLOAD
    ensures PayloadStart(bs, slot) + Sectors(len, bs) <= |d|
  {
  }

  /** A payload cut into blocks, the last one zero-filled. */
  function Blocks(p: seq<byte>, bs: BlockSize): (b: seq<Block>)
    ensures |b| == Sectors(|p|, bs)
    ensures forall i :: 0 <= i < |b| ==> |b[i]| == bs
  {
    if |p| == 0 then []
    else
      var k := Min(|p|, bs);
      [p[..k] + Zeros(bs - k)] + Blocks(p[k..], bs)
  }

  lemma {:induction false} ReadRunOfBlocks(d: seq<Block>, lba: nat, p: seq<byte>, bs: BlockSize)
    requires forall l :: 0 <= l < |d| ==> |d[l]| == bs
    requires lba + Sectors(|p|, bs) <= |d|
    requires forall i :: 0 <= i < |Blocks(p, bs)| ==> d[lba + i] == Blocks(p, bs)[i]
    ensures ReadRun(d, lba, |p|, bs) == p
    decreases |p|
  {
    hide ReadRun, Blocks;
    if |p| == 0 {
      EmptyRun(d, lba, bs);
    } else {
      ReadRunStep(d, lba, |p|, bs);
      BlocksStep(p, bs);
      var k := Min(|p|, bs);
      var rest := p[k..];
      assert d[lba] == d[lba + 0] == Blocks(p, bs)[0];
      forall i | 0 <= i < |Blocks(rest, bs)|
        ensures d[lba + 1 + i] == Blocks(rest, bs)[i]
      {
        assert d[lba + (i + 1)] == Blocks(p, bs)[i + 1];
      }
      ReadRunOfBlocks(d, lba + 1, rest, bs);
      assert d[lba][..k] == p[..k];
    }
  }

  lemma {:induction false} ReadRunSame(d: seq<Block>, e: seq<Block>, lba: nat, len: nat, bs: BlockSize)
    requires forall l :: 0 <= l < |d| ==> |d[l]| == bs
    requires forall l :: 0 <= l < |e| ==> |e[l]| == bs
    requires lba + Sectors(len, bs) <= |d| && |e| == |d|
    requires forall l :: lba <= l < lba + Sectors(len, bs) ==> d[l] == e[l]
    ensures ReadRun(d, lba, len, bs) == ReadRun(e, lba, len, bs)
    decreases len
  {
    if len > 0 {
      assert d[lba] == e[lba];
      ReadRunSame(d, e, lba + 1, len - Min(len, bs), bs);
    }
  }

  // ------------------------------------------------------------------ mount

  /** A generation's contents: what a commit makes durable. */
  datatype Snapshot = Snapshot(generation: nat, version: nat, count: nat, payload: seq<byte>)

  /** The empty tree a fresh partition mounts as. */
  const FRESH: Snapshot := Snapshot(0, VERSION, 0, [])

  /** The store's committed state: the active slot and what it holds. */
  datatype Memory = Memory(active: nat, snap: Snapshot)

  const FRESH_MEMORY: Memory := Memory(1, FRESH)

  datatype Recovery = Unmountable | Mounted(memory: Memory)

  function PayloadOf(d: seq<Block>, h: Header, bs: BlockSize): seq<byte>
    requires IsDisk(d, bs) && Encodable(h)
  {
    ReadRun(d, PayloadStart(bs, h.slot), h.payloadLength, bs)
  }

  /** `validCandidate(readHeader(slot))`. */
  function Candidate(d: seq<Block>, slot: nat, bs: BlockSize): (c: Option<Header>)
    requires IsDisk(d, bs) && slot < 2
    ensures c.Some? ==> Encodable(c.value) && c.value.slot == slot
  {
    match ReadHeader(d[slot], slot)
    case Valid(h) => if Crc32(PayloadOf(d, h, bs)) == h.payloadCrc then Some(h) else None
    case _ => None
  }

  /** The newest candidate; slot 0 on a tie. */
  function Newest(first: Option<Header>, second: Option<Header>): Option<Header> {
    if first.Some? && second.Some? then
      if second.value.generation > first.value.generation then second else first
    else if first.Some? then first else second
  }

  /** What `mount` finds, up to the reconstruction of the file tree. */
  function Recover(d: seq<Block>, bs: BlockSize): Recovery
    requires IsDisk(d, bs)
  {
    var chosen := Newest(Candidate(d, 0, bs), Candidate(d, 1, bs));
    if chosen.Some? then
      var h := chosen.value;
      var payload := PayloadOf(d, h, bs);
      if Read32(payload, 0) != h.recordCount then Unmountable
      else Mounted(Memory(h.slot, Snapshot(h.generation, h.version, h.recordCount, payload)))
    else if ReadHeader(d[0], 0).Absent? && ReadHeader(d[1], 1).Absent? then Mounted(FRESH_MEMORY)
    else Unmountable
  }

  /** `corrupt_headers` after a mount: nonzero header blocks refused. */
  function CorruptHeaders(d: seq<Block>, bs: BlockSize): nat
    requires IsDisk(d, bs)
  {
    (if ReadHeader(d[0], 0).Invalid? then 1 else 0) + (if ReadHeader(d[1], 1).Invalid? then 1 else 0)
  }

  /** `recoveries` after a mount that selected a candidate. */
  function Recoveries(d: seq<Block>, bs: BlockSize): nat
    requires IsDisk(d, bs)
  {
    var first, second := Candidate(d, 0, bs), Candidate(d, 1, bs);
    if first.None? && second.None? then 0
    else if (!ReadHeader(d[0], 0).Absent? && first.None?) || (!ReadHeader(d[1], 1).Absent? && second.None?)
            || (first.Some? && second.Some? && first.value.generation != second.value.generation) then 1
    else 0
  }

  /** What `check` verifies of a mounted disk: only the active slot, or for the
      empty tree that both slots are absent. */
  predicate CheckPasses(d: seq<Block>, m: Memory, bs: BlockSize)
    requires IsDisk(d, bs) && m.active < 2
  {
    if m.snap.generation == 0 then ReadHeader(d[0], 0).Absent? && ReadHeader(d[1], 1).Absent?
    else
      var c := Candidate(d, m.active, bs);
      c.Some? && c.value.generation == m.snap.generation && c.value.version == m.snap.version
  }

  /** Exactly when the check passes. */
  lemma CheckExactly(d: seq<Block>, m: Memory, bs: BlockSize)
    requires IsDisk(d, bs) && m.active < 2
    ensures m.snap.generation == 0 ==>
              (CheckPasses(d, m, bs) <==> ReadHeader(d[0], 0).Absent? && ReadHeader(d[1], 1).Absent?)
    ensures m.snap.generation != 0 ==>
              (CheckPasses(d, m, bs) <==>
                 exists h :: && ReadHeader(d[m.active], m.active) == Valid(h) && Encodable(h) && h.slot == m.active
                             && h.generation == m.snap.generation && h.version == m.snap.version
                             && Crc32(ReadRun(d, PayloadStart(bs, m.active), h.payloadLength, bs)) == h.payloadCrc)
  {
    hide ReadHeader, Crc32, ReadRun;
  }

  // -------------------------------------------------- settled disks

  predicate WellFormed(s: Snapshot) {
    && s.generation < 0x1_0000_0000_0000_0000
    && 1 <= s.version <= 3
    && 4 <= |s.payload| <= MAX_PAYLOAD
    && s.count == Read32(s.payload, 0)
  }

  function HeaderFor(slot: nat, s: Snapshot): (h: Header)
    requires slot < 2 && WellFormed(s)
    ensures Encodable(h)
  {
    Header(slot, s.version, s.generation, |s.payload|, Crc32(s.payload), s.count)
  }

  /** The slot's header and payload region hold exactly this snapshot. */
  ghost predicate Holds(d: seq<Block>, slot: nat, s: Snapshot, bs: BlockSize)
    requires IsDisk(d, bs) && slot < 2
  {
    && WellFormed(s)
    && ReadHeader(d[slot], slot) == Valid(HeaderFor(slot, s))
    && ReadRun(d, PayloadStart(bs, slot), |s.payload|, bs) == s.payload
  }

  /** A header block that no mount prefers to generation `g`. */
  predicate Stale(block: Block, slot: nat, g: nat)
    requires HEADER_SIZE <= |block|
  {
    ReadHeader(block, slot).Valid? ==> ReadHeader(block, slot).header.generation < g
  }

  /** The disk of a store whose committed state is `m`, with a passive header
      that can only be older. */
  ghost predicate Settled(d: seq<Block>, m: Memory, bs: BlockSize)
    requires IsDisk(d, bs)
  {
    || (m.active < 2 && Holds(d, m.active, m.snap, bs) && Stale(d[Other(m.active)], Other(m.active), m.snap.generation))
    || (m == FRESH_MEMORY && ReadHeader(d[0], 0).Absent? && ReadHeader(d[1], 1).Absent?)
  }

  /** Exactly what a mount recovers: the empty tree from two absent headers, or
      a slot whose header and payload agree, unless the other slot has such a
      pair of a newer generation, or of the same one and is slot 0. */
  lemma RecoverExactly(d: seq<Block>, m: Memory, bs: BlockSize)
    requires IsDisk(d, bs)
    ensures Recover(d, bs) == Mounted(m) <==>
              || (m == FRESH_MEMORY && ReadHeader(d[0], 0).Absent? && ReadHeader(d[1], 1).Absent?)
              || (&& m.active < 2 && Candidate(d, m.active, bs).Some?
                  && var h, other := Candidate(d, m.active, bs).value, Candidate(d, Other(m.active), bs);
                     && (other.Some? ==> other.value.generation < h.generation
                                         || (other.value.generation == h.generation && m.active == 0))
                     && Read32(PayloadOf(d, h, bs), 0) == h.recordCount
                     && m.snap == Snapshot(h.generation, h.version, h.recordCount, PayloadOf(d, h, bs)))
  {
    hide ReadHeader, Crc32, Read32, PayloadOf;
    AbsentNoCandidate(d, 0, bs);
    AbsentNoCandidate(d, 1, bs);
    hide Candidate;
  }

  lemma AbsentNoCandidate(d: seq<Block>, slot: nat, bs: BlockSize)
    requires IsDisk(d, bs) && slot < 2
    ensures ReadHeader(d[slot], slot).Absent? ==> Candidate(d, slot, bs).None?
  {
  }

  /** A settled disk mounts as its committed state, whatever the passive
      payload region contains: no assumption on CRC collisions is needed. */
  lemma SettledRecovers(d: seq<Block>, m: Memory, bs: BlockSize)
    requires IsDisk(d, bs) && Settled(d, m, bs)
    ensures Recover(d, bs) == Mounted(m)
  {
    hide ReadHeader, Crc32, Read32, ReadRun;
  }

  /** A settled disk passes the kernel's own check, with one exception: a
      generation 0 held in a slot, which the check takes for the empty tree. */
  lemma SettledPasses(d: seq<Block>, m: Memory, bs: BlockSize)
    requires IsDisk(d, bs) && m.active < 2 && Settled(d, m, bs)
    ensures CheckPasses(d, m, bs)
            <==> !(m.snap.generation == 0 && Holds(d, m.active, m.snap, bs))
  {
    hide Crc32, Read32, ReadRun, ReadHeader;
  }

  /** Settledness reads only the headers and the active payload. */
  lemma SettledFrame(d: seq<Block>, e: seq<Block>, m: Memory, bs: BlockSize)
    requires IsDisk(d, bs) && IsDisk(e, bs) && |e| == |d| && m.active < 2 && Settled(d, m, bs)
    requires forall l :: 0 <= l < |d| && !InRegion(l, Other(m.active), bs) ==> e[l] == d[l]
    ensures Settled(e, m, bs)
  {
    hide ReadHeader, Crc32, Read32, ReadRun;
    assert e[0] == d[0] && e[1] == d[1];
    if Holds(d, m.active, m.snap, bs) {
      ReadRunSame(d, e, PayloadStart(bs, m.active), |m.snap.payload|, bs);
    }
  }

  predicate InRegion(l: nat, slot: nat, bs: BlockSize) {
    PayloadStart(bs, slot) <= l < PayloadStart(bs, slot) + RegionSectors(bs)
  }

  /** Publishing: over a settled disk whose passive region already holds the
      next payload, the header write alone moves the disk to the next state. */
  lemma PublishSettles(d: seq<Block>, m: Memory, next: Snapshot, bs: BlockSize)
    requires IsDisk(d, bs) && m.active < 2 && Settled(d, m, bs)
    requires WellFormed(next) && next.generation == m.snap.generation + 1
    requires ReadRun(d, PayloadStart(bs, Other(m.active)), |next.payload|, bs) == next.payload
    ensures var slot := Other(m.active);
            var e := d[slot := HeaderBlock(HeaderFor(slot, next), bs)];
            IsDisk(e, bs) && Settled(e, Memory(slot, next), bs)
  {
    hide Crc32, ReadHeader, HeaderBlock, ReadRun, Read32;
    var slot := Other(m.active);
    var h := HeaderFor(slot, next);
    var e := d[slot := HeaderBlock(h, bs)];
    EncodedHeaderReads(h, bs);
    ReadRunSame(d, e, PayloadStart(bs, slot), |next.payload|, bs);
    assert e[m.active] == d[m.active];
  }
}
