// The data of a sparse-file record (src/runtime_persist.zig, `syncFileRecord`
// and `serialize`; src/runtime_vfs.zig, `restoreSparseFile`): an allocation
// bitmap, the logical size and the allocated blocks in slot order.
module SparseFiles {
  import opened Bytes
  import opened JournalFormat
  import opened JournalRecords

  const MAX_FILE: nat := 32768
  const FILE_BLOCK: nat := 4096
  const BLOCKS_PER_NODE: nat := 8

  function PopCount(b: nat): nat {
    if b == 0 then 0 else b % 2 + PopCount(b / 2)
  }

  /** The data of a sparse file: bitmap, logical size, allocated blocks. */
  predicate SparseImage(data: seq<byte>) {
    && 5 <= |data| <= MAX_RECORD_DATA
    && Read32(data, 1) <= MAX_FILE
    && |data| == 5 + PopCount(data[0]) * FILE_BLOCK
  }

  // ------------------------------------------------------- the encoder

  /** Bit `k` of an unsigned integer. */
  function Bit(b: nat, k: nat): (bit: nat)
    ensures bit < 2
  {
    if k == 0 then b % 2 else Bit(b / 2, k - 1)
  }

  /** Whether block `slot` of an inode is allocated. */
  predicate Allocated(bitmap: byte, slot: nat) {
    Bit(bitmap, slot) == 1
  }

  /** The allocated blocks below `slot`, in order. */
  function Gathered(bitmap: byte, blocks: seq<seq<byte>>, slot: nat): seq<byte>
    requires slot <= |blocks|
  {
    if slot == 0 then []
    else Gathered(bitmap, blocks, slot - 1) + if Allocated(bitmap, slot - 1) then blocks[slot - 1] else []
  }

  function SparseData(bitmap: byte, size: u32, blocks: seq<seq<byte>>): seq<byte>
    requires |blocks| == BLOCKS_PER_NODE
  {
    [bitmap] + Le(size, 4) + Gathered(bitmap, blocks, BLOCKS_PER_NODE)
  }

  function LowBits(b: nat, k: nat): nat
  {
    if k == 0 then 0 else LowBits(b, k - 1) + Bit(b, k - 1)
  }

  lemma {:induction false} LowBitsHalf(b: nat, k: nat)
    ensures LowBits(b, k + 1) == b % 2 + LowBits(b / 2, k)
  {
    if k > 0 {
      LowBitsHalf(b, k - 1);
    }
  }

  lemma {:induction false} PopCountIsLowBits(b: nat, k: nat)
    requires b < Pow2(k)
    ensures PopCount(b) == LowBits(b, k)
  {
    if k == 0 {
    } else {
      PopCountIsLowBits(b / 2, k - 1);
      LowBitsHalf(b, k - 1);
      if b == 0 {
        assert PopCount(0) == 0 && PopCount(0 / 2) == 0;
      }
    }
  }

  lemma {:induction false} GatheredSize(bitmap: byte, blocks: seq<seq<byte>>, slot: nat)
    requires slot <= |blocks| && forall i :: 0 <= i < |blocks| ==> |blocks[i]| == FILE_BLOCK
    ensures |Gathered(bitmap, blocks, slot)| == LowBits(bitmap, slot) * FILE_BLOCK
  {
    if slot > 0 {
      GatheredSize(bitmap, blocks, slot - 1);
    }
  }

  lemma {:induction false} LowBitsBound(b: nat, k: nat)
    ensures LowBits(b, k) <= k
  {
    if k > 0 {
      LowBitsBound(b, k - 1);
    }
  }

  /** What the writers store for a file restores. */
  lemma SparseDataRestores(bitmap: byte, size: u32, blocks: seq<seq<byte>>)
    requires |blocks| == BLOCKS_PER_NODE && forall i :: 0 <= i < |blocks| ==> |blocks[i]| == FILE_BLOCK
    requires size <= MAX_FILE
    ensures SparseImage(SparseData(bitmap, size, blocks))
  {
    hide Gathered, Le;
    var data := SparseData(bitmap, size, blocks);
    assert Pow2(4) == 16 && Pow2(8) == 256;
    PopCountIsLowBits(bitmap, 8);
    GatheredSize(bitmap, blocks, 8);
    LowBitsBound(bitmap, 8);
    Widths();
    assert data[1..5] == Le(size, 4);
    FieldOfLe(data, 1, 4, size);
  }

  /** The assembling loop of `syncFileRecord` and `serialize`, in the scratch
      buffer. */
  method AssembleSparse(scratch: array<byte>, bitmap: byte, size: u32, blocks: seq<seq<byte>>) returns (length: nat)
    requires scratch.Length == MAX_RECORD_DATA && |blocks| == BLOCKS_PER_NODE
    requires forall i :: 0 <= i < |blocks| ==> |blocks[i]| == FILE_BLOCK
    modifies scratch
    ensures length <= scratch.Length && scratch[..length] == SparseData(bitmap, size, blocks)
  {
    hide Splice, Le, Allocated;
    Blit(scratch, 0, [bitmap]);
    WriteLe(scratch, 1, size, 4);
    ghost var base := scratch[..];
    assert base[..5] == [bitmap] + Le(size, 4) by { Prefixed(old(scratch[..]), [bitmap], Le(size, 4)); }
    var offset: nat := 5;
    for slot := 0 to BLOCKS_PER_NODE
      invariant offset == 5 + |Gathered(bitmap, blocks, slot)| <= 5 + slot * FILE_BLOCK
      invariant scratch[..offset] == [bitmap] + Le(size, 4) + Gathered(bitmap, blocks, slot)
    {
      if Allocated(bitmap, slot) {
        ghost var before := scratch[..];
        Blit(scratch, offset, blocks[slot]);
        Appended(before, offset, blocks[slot]);
        offset := offset + |blocks[slot]|;
      }
    }
    return offset;
  }

  lemma Prefixed(dst: seq<byte>, a: seq<byte>, b: seq<byte>)
    requires |a| + |b| <= |dst|
    ensures Splice(Splice(dst, 0, a), |a|, b)[..|a| + |b|] == a + b
  {
  }

  lemma Appended(dst: seq<byte>, at: nat, src: seq<byte>)
    requires at + |src| <= |dst|
    ensures Splice(dst, at, src)[..at + |src|] == dst[..at] + src
  {
  }

  // ------------------------------------------------------- the decoder

  type Slot = Option<seq<byte>>

  /** A file as `restoreSparseFile` rebuilds it: its size and, slot by slot, the
      block allocated there or a hole. */
  datatype SparseFile = SparseFile(size: nat, slots: seq<Slot>)

  lemma {:induction false} LowBitsMonotone(b: nat, k: nat, n: nat)
    requires k <= n
    ensures LowBits(b, k) <= LowBits(b, n)
    ensures k < n && Bit(b, k) == 1 ==> LowBits(b, k) + 1 <= LowBits(b, n)
    decreases n
  {
    if k < n {
      LowBitsMonotone(b, k, n - 1);
    }
  }

  /** What lies in slot `k` of a file of that bitmap and those packed blocks. */
  function SlotAt(bitmap: byte, packed: seq<byte>, k: nat): Slot
    requires k < BLOCKS_PER_NODE && |packed| == LowBits(bitmap, BLOCKS_PER_NODE) * FILE_BLOCK
  {
    LowBitsMonotone(bitmap, k, BLOCKS_PER_NODE);
    var o := LowBits(bitmap, k) * FILE_BLOCK;
    if Allocated(bitmap, k) then Some(packed[o..o + FILE_BLOCK]) else None
  }

  lemma PackedSize(data: seq<byte>)
    requires SparseImage(data)
    ensures |data[5..]| == LowBits(data[0], BLOCKS_PER_NODE) * FILE_BLOCK
  {
    assert Pow2(4) == 16 && Pow2(8) == 256;
    PopCountIsLowBits(data[0], 8);
  }

  function Decoded(data: seq<byte>): (f: SparseFile)
    requires SparseImage(data)
    ensures |f.slots| == BLOCKS_PER_NODE
  {
    PackedSize(data);
    SparseFile(Read32(data, 1),
               seq(BLOCKS_PER_NODE, k requires 0 <= k < BLOCKS_PER_NODE => SlotAt(data[0], data[5..], k)))
  }

  /** `restoreSparseFile`'s loop over the slots. */
  method RestoreSparseFile(data: seq<byte>) returns (f: SparseFile)
    requires SparseImage(data)
    ensures f == Decoded(data)
  {
    PackedSize(data);
    var bitmap, packed := data[0], data[5..];
    var slots: seq<Slot>, offset: nat := [], 0;
    for slot := 0 to BLOCKS_PER_NODE
      invariant offset == LowBits(bitmap, slot) * FILE_BLOCK
      invariant |slots| == slot && forall k :: 0 <= k < slot ==> slots[k] == SlotAt(bitmap, packed, k)
    {
      LowBitsMonotone(bitmap, slot, BLOCKS_PER_NODE);
      if Allocated(bitmap, slot) {
        slots := slots + [Some(packed[offset..offset + FILE_BLOCK])];
        offset := offset + FILE_BLOCK;
      } else {
        slots := slots + [None];
      }
    }
    return SparseFile(Read32(data, 1), slots);
  }

  lemma {:induction false} BitIsQuotient(b: nat, k: nat)
    ensures Bit(b, k) == b / Pow2(k) % 2
  {
    if k > 0 {
      BitIsQuotient(b / 2, k - 1);
      HalfThenShift(b, Pow2(k - 1));
    }
  }

  lemma HalfThenShift(b: nat, p: nat)
    requires 0 < p
    ensures b / 2 / p == b / (2 * p)
  {
    var q, r := b / 2 / p, b / 2 % p;
    assert b / 2 == p * q + r;
    assert (2 * p) * q == 2 * (p * q);
    QuotientIs(b, 2 * p, q, 2 * r + b % 2);
  }

  lemma {:induction false} GatheredAt(bitmap: byte, blocks: seq<seq<byte>>, slot: nat, k: nat)
    requires slot <= |blocks| && forall i :: 0 <= i < |blocks| ==> |blocks[i]| == FILE_BLOCK
    requires k < slot && Allocated(bitmap, k)
    ensures var o := LowBits(bitmap, k) * FILE_BLOCK;
            && o + FILE_BLOCK <= |Gathered(bitmap, blocks, slot)|
            && Gathered(bitmap, blocks, slot)[o..o + FILE_BLOCK] == blocks[k]
    decreases slot
  {
    GatheredSize(bitmap, blocks, slot - 1);
    var before := Gathered(bitmap, blocks, slot - 1);
    var o := LowBits(bitmap, k) * FILE_BLOCK;
    if k < slot - 1 {
      GatheredAt(bitmap, blocks, slot - 1, k);
      var more := if Allocated(bitmap, slot - 1) then blocks[slot - 1] else [];
      assert (before + more)[o..o + FILE_BLOCK] == before[o..o + FILE_BLOCK];
    } else {
      assert (before + blocks[k])[o..o + FILE_BLOCK] == blocks[k];
    }
  }

  /** What a restore gives back of what the writers store: the size, every
      allocated block in its slot, and holes elsewhere. */
  lemma DecodedOfEncoded(bitmap: byte, size: u32, blocks: seq<seq<byte>>)
    requires |blocks| == BLOCKS_PER_NODE && forall i :: 0 <= i < |blocks| ==> |blocks[i]| == FILE_BLOCK
    requires size <= MAX_FILE
    ensures SparseImage(SparseData(bitmap, size, blocks))
    ensures var f := Decoded(SparseData(bitmap, size, blocks));
            && f.size == size
            && forall k :: 0 <= k < BLOCKS_PER_NODE ==>
                 f.slots[k] == if bitmap / Pow2(k) % 2 == 1 then Some(blocks[k]) else None
  {
    hide Gathered, Le, Bit, LowBits, SparseImage;
    SparseDataRestores(bitmap, size, blocks);
    var data := SparseData(bitmap, size, blocks);
    PackedSize(data);
    Widths();
    assert data[0] == bitmap && data[1..5] == Le(size, 4) && data[5..] == Gathered(bitmap, blocks, BLOCKS_PER_NODE);
    FieldOfLe(data, 1, 4, size);
    forall k | 0 <= k < BLOCKS_PER_NODE
      ensures SlotAt(bitmap, data[5..], k) == if bitmap / Pow2(k) % 2 == 1 then Some(blocks[k]) else None
    {
      BitIsQuotient(bitmap, k);
      if Allocated(bitmap, k) {
        GatheredAt(bitmap, blocks, BLOCKS_PER_NODE, k);
      }
    }
  }

  /** The blocks of a file, a hole as zeros. */
  function BlocksOf(f: SparseFile): seq<seq<byte>>
    requires |f.slots| == BLOCKS_PER_NODE
  {
    seq(BLOCKS_PER_NODE, k requires 0 <= k < BLOCKS_PER_NODE =>
        if f.slots[k].Some? then f.slots[k].value else Zeros(FILE_BLOCK))
  }

  lemma {:induction false} GatheredOfSlots(bitmap: byte, packed: seq<byte>, blocks: seq<seq<byte>>, slot: nat)
    requires slot <= BLOCKS_PER_NODE == |blocks| && |packed| == LowBits(bitmap, BLOCKS_PER_NODE) * FILE_BLOCK
    requires forall k :: 0 <= k < BLOCKS_PER_NODE && Allocated(bitmap, k) ==>
               SlotAt(bitmap, packed, k) == Some(blocks[k])
    ensures LowBits(bitmap, slot) <= LowBits(bitmap, BLOCKS_PER_NODE)
    ensures Gathered(bitmap, blocks, slot) == packed[..LowBits(bitmap, slot) * FILE_BLOCK]
  {
    hide Bit;
    LowBitsMonotone(bitmap, slot, BLOCKS_PER_NODE);
    if slot > 0 {
      GatheredOfSlots(bitmap, packed, blocks, slot - 1);
      LowBitsMonotone(bitmap, slot - 1, BLOCKS_PER_NODE);
      var a, b := LowBits(bitmap, slot - 1) * FILE_BLOCK, LowBits(bitmap, slot) * FILE_BLOCK;
      assert packed[..b] == packed[..a] + packed[a..b];
    }
  }

  /** And every accepted data is what the writers store for the file it gives. */
  lemma EncodedOfDecoded(data: seq<byte>)
    requires SparseImage(data)
    ensures SparseData(data[0], Read32(data, 1), BlocksOf(Decoded(data))) == data
  {
    hide LowBits, Allocated, Le, UnLe, Gathered;
    PackedSize(data);
    var f := Decoded(data);
    GatheredOfSlots(data[0], data[5..], BlocksOf(f), BLOCKS_PER_NODE);
    FieldBytes(data, 1, 4);
    var packed := data[5..];
    assert packed[..|packed|] == packed;
    SplitImage(data);
  }

  lemma SplitImage(data: seq<byte>)
    requires 5 <= |data|
    ensures data == [data[0]] + data[1..5] + data[5..]
  {
  }
}
