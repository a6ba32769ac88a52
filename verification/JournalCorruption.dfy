// Block corruption against the A/B journal: what a mount does with a healthy
// pair of generations after any one byte of the disk has changed.
module JournalCorruption {
  import opened Bytes
  import opened Checksums
  import opened JournalFormat
  import opened JournalDisk

  /** Both slots hold a snapshot and `newest` holds the greater generation. */
  ghost predicate HealthyPair(d: seq<Block>, newest: nat, new_: Snapshot, old_: Snapshot, bs: BlockSize) {
    && IsDisk(d, bs) && newest < 2
    && Holds(d, newest, new_, bs)
    && Holds(d, Other(newest), old_, bs)
    && old_.generation < new_.generation
  }

  /** Byte `i` of block `sectors` of a region, as an offset in the payload. */
  function PayloadOffset(sectors: nat, i: nat, bs: BlockSize): nat {
    if bs == 512 then 512 * sectors + i else 4096 * sectors + i
  }

  /** The bytes a slot's validity rests on: its 48 header bytes and exactly
      the declared payload. */
  predicate Protected(slot: nat, s: Snapshot, l: nat, i: nat, bs: BlockSize) {
    || (l == slot && i < HEADER_SIZE)
    || (PayloadStart(bs, slot) <= l && PayloadOffset(l - PayloadStart(bs, slot), i, bs) < |s.payload|)
  }

  /** `e` is `d` with byte `i` of block `l` changed. */
  ghost predicate OneByteChanged(d: seq<Block>, e: seq<Block>, l: nat, i: nat) {
    && |e| == |d| && l < |d|
    && DifferOnlyAt(d[l], e[l], i)
    && forall k :: 0 <= k < |d| && k != l ==> e[k] == d[k]
  }

  lemma {:induction false} RunChanged(d: seq<Block>, e: seq<Block>, lba: nat, len: nat, l: nat, i: nat, bs: BlockSize)
    requires forall k :: 0 <= k < |d| ==> |d[k]| == bs
    requires forall k :: 0 <= k < |e| ==> |e[k]| == bs
    requires OneByteChanged(d, e, l, i) && lba + Sectors(len, bs) <= |d|
    requires lba <= l && PayloadOffset(l - lba, i, bs) < len
    ensures DifferOnlyAt(ReadRun(d, lba, len, bs), ReadRun(e, lba, len, bs), PayloadOffset(l - lba, i, bs))
    decreases len
  {
    hide ReadRun;
    ReadRunStep(d, lba, len, bs);
    ReadRunStep(e, lba, len, bs);
    var k := Min(len, bs);
    var r, q := ReadRun(d, lba + 1, len - k, bs), ReadRun(e, lba + 1, len - k, bs);
    var a, b := d[lba][..k], e[lba][..k];
    if l == lba {
      ReadRunSame(d, e, lba + 1, len - k, bs);
      DifferTake(d[lba], e[lba], i, k);
      hide DifferOnlyAt;
      DifferAppend(a, b, r, i);
    } else {
      RunChanged(d, e, lba + 1, len - k, l, i, bs);
      assert k == bs && a == b;
      DifferPrepend(a, r, q, PayloadOffset(l - lba - 1, i, bs));
    }
  }

  lemma DifferTake(a: seq<byte>, b: seq<byte>, i: nat, k: nat)
    requires DifferOnlyAt(a, b, i) && i < k <= |a|
    ensures DifferOnlyAt(a[..k], b[..k], i)
  {
    assert a[..k][..i] == a[..i] && b[..k][..i] == b[..i];
    assert a[..k][i + 1..] == a[i + 1..][..k - i - 1] && b[..k][i + 1..] == b[i + 1..][..k - i - 1];
  }

  lemma DifferAppend(a: seq<byte>, b: seq<byte>, t: seq<byte>, i: nat)
    requires DifferOnlyAt(a, b, i)
    ensures DifferOnlyAt(a + t, b + t, i)
  {
    assert (a + t)[..i] == a[..i] && (b + t)[..i] == b[..i];
    assert (a + t)[i + 1..] == a[i + 1..] + t && (b + t)[i + 1..] == b[i + 1..] + t;
  }

  lemma DifferPrepend(t: seq<byte>, a: seq<byte>, b: seq<byte>, i: nat)
    requires DifferOnlyAt(a, b, i)
    ensures DifferOnlyAt(t + a, t + b, |t| + i)
  {
    assert (t + a)[..|t| + i] == t + a[..i] && (t + b)[..|t| + i] == t + b[..i];
    assert (t + a)[|t| + i + 1..] == a[i + 1..] && (t + b)[|t| + i + 1..] == b[i + 1..];
  }

  lemma {:induction false} RunUnchanged(d: seq<Block>, e: seq<Block>, lba: nat, len: nat, l: nat, i: nat, bs: BlockSize)
    requires forall k :: 0 <= k < |d| ==> |d[k]| == bs
    requires forall k :: 0 <= k < |e| ==> |e[k]| == bs
    requires OneByteChanged(d, e, l, i) && lba + Sectors(len, bs) <= |d|
    requires l < lba || len <= PayloadOffset(l - lba, i, bs)
    ensures ReadRun(d, lba, len, bs) == ReadRun(e, lba, len, bs)
    decreases len
  {
    if len > 0 {
      var k := Min(len, bs);
      if l == lba {
        assert d[lba][..k] == d[lba][..i][..k] && e[lba][..k] == e[lba][..i][..k];
        ReadRunSame(d, e, lba + 1, len - k, bs);
      } else {
        assert d[lba] == e[lba];
        RunUnchanged(d, e, lba + 1, len - k, l, i, bs);
      }
    }
  }

  /** A header outside whose first 48 bytes something changed reads the same. */
  lemma HeaderTailIgnored(a: seq<byte>, b: seq<byte>, slot: nat, i: nat)
    requires HEADER_SIZE <= |a| && HEADER_SIZE <= i && DifferOnlyAt(a, b, i) && ReadHeader(a, slot).Valid?
    ensures ReadHeader(b, slot) == ReadHeader(a, slot)
  {
    assert a[..HEADER_SIZE] == a[..i][..HEADER_SIZE] && b[..HEADER_SIZE] == b[..i][..HEADER_SIZE];
    HeaderPrefix(a, b);
    assert b[0] == b[..8][0];
  }

  /** One slot under one changed byte: a candidate exactly as before when the
      byte is unprotected, and no candidate at all when it is protected. */
  lemma SlotAfter(d: seq<Block>, e: seq<Block>, slot: nat, s: Snapshot, l: nat, i: nat, bs: BlockSize)
    requires IsDisk(d, bs) && IsDisk(e, bs) && slot < 2 && Holds(d, slot, s, bs) && OneByteChanged(d, e, l, i)
    ensures Protected(slot, s, l, i, bs) ==> Candidate(e, slot, bs) == None
    ensures Protected(slot, s, l, i, bs) ==>
              (ReadHeader(e[slot], slot) == Invalid <==> l == slot)
              && (l != slot ==> ReadHeader(e[slot], slot) == ReadHeader(d[slot], slot))
    ensures !Protected(slot, s, l, i, bs) ==> Holds(e, slot, s, bs)
  {
    hide ReadHeader, Crc32, Read32;
    var start := PayloadStart(bs, slot);
    if l == slot {
      RunUnchanged(d, e, start, |s.payload|, l, i, bs);
      if i < HEADER_SIZE {
        HeaderCorruptionDetected(d[slot], e[slot], slot, i);
      } else {
        HeaderTailIgnored(d[slot], e[slot], slot, i);
      }
    } else if Protected(slot, s, l, i, bs) {
      RunChanged(d, e, start, |s.payload|, l, i, bs);
      CrcDetectsOneByte(s.payload, ReadRun(e, start, |s.payload|, bs), PayloadOffset(l - start, i, bs));
    } else {
      RunUnchanged(d, e, start, |s.payload|, l, i, bs);
    }
  }

  /** No byte is protected for both slots. */
  lemma ProtectedOnce(a: Snapshot, b: Snapshot, l: nat, i: nat, bs: BlockSize)
    requires |a.payload| <= MAX_PAYLOAD && |b.payload| <= MAX_PAYLOAD
    ensures !(Protected(0, a, l, i, bs) && Protected(1, b, l, i, bs))
  {
  }

  lemma CandidateOfHolds(d: seq<Block>, slot: nat, s: Snapshot, bs: BlockSize)
    requires IsDisk(d, bs) && slot < 2 && Holds(d, slot, s, bs)
    ensures Candidate(d, slot, bs) == Some(HeaderFor(slot, s)) && PayloadOf(d, HeaderFor(slot, s), bs) == s.payload
    ensures ReadHeader(d[slot], slot).Valid?
  {
  }

  lemma CandidateOfAbsent(d: seq<Block>, slot: nat, bs: BlockSize)
    requires IsDisk(d, bs) && slot < 2 && ReadHeader(d[slot], slot).Absent?
    ensures Candidate(d, slot, bs) == None
  {
  }

  lemma HoldsFacts(d: seq<Block>, slot: nat, s: Snapshot, bs: BlockSize)
    requires IsDisk(d, bs) && slot < 2 && Holds(d, slot, s, bs)
    ensures WellFormed(s) && ReadHeader(d[slot], slot).Valid?
  {
  }

  lemma ProtectedParts(slot: nat, s: Snapshot, l: nat, i: nat, bs: BlockSize)
    ensures l == slot < 2 ==> (Protected(slot, s, l, i, bs) <==> i < HEADER_SIZE)
    ensures l < 2 && l != slot ==> !Protected(slot, s, l, i, bs)
  {
  }

  lemma AfterProtected(d: seq<Block>, e: seq<Block>, slot: nat, s: Snapshot, l: nat, i: nat, bs: BlockSize)
    requires IsDisk(d, bs) && IsDisk(e, bs) && slot < 2 && Holds(d, slot, s, bs) && OneByteChanged(d, e, l, i)
    requires Protected(slot, s, l, i, bs)
    ensures Candidate(e, slot, bs) == None && !ReadHeader(e[slot], slot).Absent?
  {
    hide ReadHeader, Candidate;
    SlotAfter(d, e, slot, s, l, i, bs);
  }

  /** Recovery from a healthy pair after any one byte of the disk changes, in
      the headers, the payloads or anywhere else: the newest generation still
      mounts unless the byte is one its validity rests on, and then the older
      generation mounts. The counters tell the two kinds of damage apart. */
  lemma OneByteRecovery(d: seq<Block>, e: seq<Block>, newest: nat, new_: Snapshot, old_: Snapshot,
                        l: nat, i: nat, bs: BlockSize)
    requires HealthyPair(d, newest, new_, old_, bs) && IsDisk(e, bs) && OneByteChanged(d, e, l, i)
    ensures Recover(e, bs) == Mounted(if Protected(newest, new_, l, i, bs) then Memory(Other(newest), old_)
                                      else Memory(newest, new_))
    ensures Recoveries(e, bs) == 1
    ensures CorruptHeaders(e, bs) == if l < 2 && i < HEADER_SIZE then 1 else 0
  {
    hide ReadHeader, Candidate, PayloadOf, Holds, Read32, OneByteChanged, Protected;
    var older := Other(newest);
    SlotAfter(d, e, newest, new_, l, i, bs);
    SlotAfter(d, e, older, old_, l, i, bs);
    CandidateOfHolds(d, newest, new_, bs);
    CandidateOfHolds(d, older, old_, bs);
    ProtectedParts(newest, new_, l, i, bs);
    ProtectedParts(older, old_, l, i, bs);
    if newest == 0 {
      ProtectedOnce(new_, old_, l, i, bs);
    } else {
      ProtectedOnce(old_, new_, l, i, bs);
    }
    if !Protected(newest, new_, l, i, bs) { CandidateOfHolds(e, newest, new_, bs); }
    if !Protected(older, old_, l, i, bs) { CandidateOfHolds(e, older, old_, bs); }
    HoldsFacts(d, newest, new_, bs);
    HoldsFacts(d, older, old_, bs);
  }

  /** One nonzero byte does not make a header. */
  lemma NoisyBlock(block: seq<byte>, bad: seq<byte>, slot: nat, i: nat)
    requires HEADER_SIZE <= |block| && AllZero(block) && DifferOnlyAt(block, bad, i)
    ensures ReadHeader(bad, slot) == Invalid
  {
    assert bad[i] != 0;
    if i == 0 {
      assert bad[1] == bad[i + 1..][0] == block[i + 1..][0];
      assert bad[..8][1] != MAGIC[1];
    } else {
      assert bad[0] == bad[..i][0] == block[..i][0];
      assert bad[..8][0] != MAGIC[0];
    }
  }

  lemma AbsentIsZero(block: seq<byte>, slot: nat)
    requires HEADER_SIZE <= |block| && ReadHeader(block, slot).Absent?
    ensures AllZero(block)
  {
  }

  /** With a single generation on the disk, after one changed byte anywhere:
      damage to what its validity rests on is reported, never mistaken for a
      fresh partition, and damage to the empty header block is counted and
      mounted past. */
  lemma OneByteSingleSlot(d: seq<Block>, e: seq<Block>, slot: nat, s: Snapshot, l: nat, i: nat, bs: BlockSize)
    requires IsDisk(d, bs) && IsDisk(e, bs) && slot < 2 && Holds(d, slot, s, bs)
    requires ReadHeader(d[Other(slot)], Other(slot)).Absent?
    requires OneByteChanged(d, e, l, i)
    ensures Recover(e, bs) == if Protected(slot, s, l, i, bs) then Unmountable else Mounted(Memory(slot, s))
    ensures CorruptHeaders(e, bs) == if l == Other(slot) || (l == slot && i < HEADER_SIZE) then 1 else 0
    ensures Recoveries(e, bs) == if l == Other(slot) then 1 else 0
  {
    hide ReadHeader, Candidate, PayloadOf, Holds, Read32, Protected, DifferOnlyAt;
    SlotAfter(d, e, slot, s, l, i, bs);
    HoldsFacts(d, slot, s, bs);
    ProtectedParts(slot, s, l, i, bs);
    var other := Other(slot);
    if l == other {
      AbsentIsZero(d[other], other);
      NoisyBlock(d[other], e[other], other, i);
      CandidateOfInvalid(e, other, bs);
    } else {
      assert e[other] == d[other];
      CandidateOfAbsent(e, other, bs);
    }
    if Protected(slot, s, l, i, bs) {
      AfterProtected(d, e, slot, s, l, i, bs);
    } else {
      CandidateOfHolds(e, slot, s, bs);
    }
  }

  lemma CandidateOfInvalid(d: seq<Block>, slot: nat, bs: BlockSize)
    requires IsDisk(d, bs) && slot < 2 && ReadHeader(d[slot], slot).Invalid?
    ensures Candidate(d, slot, bs) == None
  {
  }
}
