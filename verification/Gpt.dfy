// GPT headers (section 5.3.2 of the UEFI Specification): `make_gpt_header`
// (scripts/create-nvme-test-image.py) and the kernel's `parseHeader`
// (src/gpt.zig).
module Gpt {
  import opened Bytes
  import opened Checksums

  const HEADER_BYTES: nat := 92
  const ENTRY_ARRAY_BYTES: nat := 16384
  const SIGNATURE: seq<byte> := [0x45, 0x46, 0x49, 0x20, 0x50, 0x41, 0x52, 0x54]
  const DISK_GUID: seq<byte> :=
    [0x78, 0x56, 0x34, 0x12, 0xBC, 0x9A, 0xF0, 0xDE, 0x11, 0x22, 0x33, 0x44, 0x55, 0x66, 0x77, 0x88]

  datatype GptHeader = GptHeader(currentLba: u64, backupLba: u64, firstUsable: u64, lastUsable: u64,
                                 entryLba: u64, arrayCrc: u32)

  /** The header before its CRC field and after it. */
  function Head(): (s: seq<byte>)
    ensures |s| == 16
  {
    SIGNATURE + Le(0x1_0000, 4) + Le(92, 4)
  }

  function Tail(h: GptHeader): (s: seq<byte>)
    ensures |s| == 68
  {
    Le(h.currentLba, 8) + Le(h.backupLba, 8) + Le(h.firstUsable, 8) + Le(h.lastUsable, 8)
    + DISK_GUID + Le(h.entryLba, 8) + Le(128, 4) + Le(128, 4) + Le(h.arrayCrc, 4)
  }

  /** The 92 header bytes around a value of the CRC field. */
  function Raw(h: GptHeader, crc: u32): (s: seq<byte>)
    ensures |s| == HEADER_BYTES
  {
    Head() + Le(crc, 4) + Zeros(4) + Tail(h)
  }

  function Encoded(h: GptHeader): (s: seq<byte>)
    ensures |s| == HEADER_BYTES
  {
    Raw(h, Crc32(Raw(h, 0)))
  }

  function HeaderBlock(h: GptHeader, blockSize: nat): (s: seq<byte>)
    requires 512 <= blockSize
    ensures |s| == blockSize
  {
    Encoded(h) + Zeros(blockSize - HEADER_BYTES)
  }

  /** The first `n` bytes with the CRC field read as zero. */
  function Cleared(block: seq<byte>, n: nat): (s: seq<byte>)
    requires 20 <= n <= |block|
    ensures |s| == n
  {
    block[..16] + Zeros(4) + block[20..n]
  }

  /** The CRC rule for a 92-byte header. */
  predicate CrcOk(block: seq<byte>)
    requires HEADER_BYTES <= |block|
  {
    Read32(block, 16) == Crc32(Cleared(block, HEADER_BYTES))
  }

  datatype Parsed = NotAHeader | Header(fields: GptHeader, headerSize: nat, entryCount: nat, entrySize: nat)

  /** `parseHeader`. */
  function ParseHeader(sector: seq<byte>, namespaceLbas: u64): Parsed {
    if |sector| < HEADER_BYTES || namespaceLbas < 3 then NotAHeader
    else if sector[0..8] != SIGNATURE then NotAHeader
    else if Read32(sector, 8) < 0x1_0000 then NotAHeader
    else if Read32(sector, 12) < HEADER_BYTES || Read32(sector, 12) > |sector| then NotAHeader
    else if Read32(sector, 20) != 0 then NotAHeader
    else if Crc32(Cleared(sector, Read32(sector, 12))) != Read32(sector, 16) then NotAHeader
    else
      var h := GptHeader(Read64(sector, 24), Read64(sector, 32), Read64(sector, 40), Read64(sector, 48),
                         Read64(sector, 72), Read32(sector, 88));
      var count, size := Read32(sector, 80), Read32(sector, 84);
      if h.currentLba == 0 || h.currentLba >= namespaceLbas then NotAHeader
      else if h.backupLba == h.currentLba || h.backupLba >= namespaceLbas then NotAHeader
      else if h.firstUsable > h.lastUsable || h.lastUsable >= namespaceLbas then NotAHeader
      else if h.entryLba == 0 || h.entryLba >= namespaceLbas then NotAHeader
      else if count == 0 || count > 4096 then NotAHeader
      else if size < 128 || size > 512 || size % 8 != 0 then NotAHeader
      else if AllZero(sector[56..72]) then NotAHeader
      else Header(h, Read32(sector, 12), count, size)
  }

  /** Field values the kernel admits on a namespace of that many blocks. */
  predicate Placeable(h: GptHeader, namespaceLbas: u64) {
    && 3 <= namespaceLbas
    && 0 < h.currentLba < namespaceLbas
    && h.backupLba != h.currentLba && h.backupLba < namespaceLbas
    && h.firstUsable <= h.lastUsable < namespaceLbas
    && 0 < h.entryLba < namespaceLbas
  }

  /** The bytes of a sector that begins with a header of `n` bytes: signature,
      revision of at least 1.0, the fields in little-endian form, a disk identity
      that is not all zero, and the checksum over the header with its own field
      taken as zero. */
  ghost predicate Holds(s: seq<byte>, h: GptHeader, n: nat, count: nat, size: nat) {
    && 92 <= n <= |s| && n < 0x1_0000_0000 && count < 0x1_0000_0000 && size < 0x1_0000_0000
    && s[0..8] == [0x45, 0x46, 0x49, 0x20, 0x50, 0x41, 0x52, 0x54] && (s[10] != 0 || s[11] != 0)
    && s[12..16] == Le(n, 4) && s[20..24] == [0, 0, 0, 0]
    && s[16..20] == Le(Crc32(s[..16] + [0, 0, 0, 0] + s[20..n]), 4)
    && s[24..32] == Le(h.currentLba, 8) && s[32..40] == Le(h.backupLba, 8)
    && s[40..48] == Le(h.firstUsable, 8) && s[48..56] == Le(h.lastUsable, 8)
    && (exists i :: 56 <= i < 72 && s[i] != 0)
    && s[72..80] == Le(h.entryLba, 8) && s[80..84] == Le(count, 4) && s[84..88] == Le(size, 4)
    && s[88..92] == Le(h.arrayCrc, 4)
  }

  /** Exactly which sectors parse, and as what. */
  lemma ParseExactly(s: seq<byte>, namespaceLbas: u64, h: GptHeader, n: nat, count: nat, size: nat)
    ensures ParseHeader(s, namespaceLbas) == Header(h, n, count, size)
            <==> && Holds(s, h, n, count, size) && Placeable(h, namespaceLbas)
                 && 1 <= count <= 4096 && 128 <= size <= 512 && size % 8 == 0
  {
    hide Le, UnLe, Crc32, Field;
    if 92 <= |s| {
      HeadExactly(s, n);
      TailExactly(s, h, count, size);
    }
  }

  lemma FieldExactly(s: seq<byte>, o: nat, w: nat, n: nat)
    requires o + w <= |s|
    ensures n < Pow256(w) ==> (Field(s, o, w) == n <==> s[o..o + w] == Le(n, w))
  {
    FieldBytes(s, o, w);
    if s[o..o + w] == Le(n, w) && n < Pow256(w) {
      FieldOfLe(s, o, w, n);
    }
  }

  lemma HeadExactly(s: seq<byte>, n: nat)
    requires 92 <= |s|
    ensures Read32(s, 8) >= 0x1_0000 <==> s[10] != 0 || s[11] != 0
    ensures Read32(s, 12) == n <==> s[12..16] == Le(n, 4) && n < 0x1_0000_0000
    ensures Read32(s, 20) == 0 <==> s[20..24] == [0, 0, 0, 0]
    ensures 92 <= n <= |s| ==>
              Cleared(s, n) == s[..16] + [0, 0, 0, 0] + s[20..n]
              && (Crc32(Cleared(s, n)) == Read32(s, 16) <==> s[16..20] == Le(Crc32(s[..16] + [0, 0, 0, 0] + s[20..n]), 4))
  {
    hide Le, UnLe, Crc32, Field;
    Widths();
    DoubleWordOfField(s, 8);
    ZeroWord();
    assert Zeros(4) == [0, 0, 0, 0];
    FieldExactly(s, 12, 4, n);
    FieldExactly(s, 20, 4, 0);
    if 92 <= n <= |s| {
      FieldExactly(s, 16, 4, Crc32(Cleared(s, n)));
    }
  }

  lemma TailExactly(s: seq<byte>, h: GptHeader, count: nat, size: nat)
    requires 92 <= |s|
    ensures (Read64(s, 24) == h.currentLba <==> s[24..32] == Le(h.currentLba, 8))
            && (Read64(s, 32) == h.backupLba <==> s[32..40] == Le(h.backupLba, 8))
            && (Read64(s, 40) == h.firstUsable <==> s[40..48] == Le(h.firstUsable, 8))
            && (Read64(s, 48) == h.lastUsable <==> s[48..56] == Le(h.lastUsable, 8))
            && (Read64(s, 72) == h.entryLba <==> s[72..80] == Le(h.entryLba, 8))
            && (Read32(s, 88) == h.arrayCrc <==> s[88..92] == Le(h.arrayCrc, 4))
    ensures Read32(s, 80) == count <==> s[80..84] == Le(count, 4) && count < 0x1_0000_0000
    ensures Read32(s, 84) == size <==> s[84..88] == Le(size, 4) && size < 0x1_0000_0000
    ensures AllZero(s[56..72]) <==> !exists i :: 56 <= i < 72 && s[i] != 0
  {
    hide Le, UnLe, Field;
    Widths();
    FieldExactly(s, 24, 8, h.currentLba); FieldExactly(s, 32, 8, h.backupLba); FieldExactly(s, 40, 8, h.firstUsable);
    FieldExactly(s, 48, 8, h.lastUsable); FieldExactly(s, 72, 8, h.entryLba); FieldExactly(s, 88, 4, h.arrayCrc);
    FieldExactly(s, 80, 4, count); FieldExactly(s, 84, 4, size);
    forall i | 56 <= i < 72
      ensures s[56..72][i - 56] == s[i]
    {
    }
    if i :| 56 <= i < 72 && s[i] != 0 {
      assert s[56..72][i - 56] != 0;
    }
  }

  lemma HeadLaid(a: seq<byte>, b: seq<byte>, c: seq<byte>, d: seq<byte>, e: seq<byte>, t: seq<byte>)
    requires |a| == 8 && |b| == |c| == |d| == |e| == 4 && |t| == 68
    ensures var s := (a + b + c) + d + e + t;
            && |s| == 92 && s[0..8] == a && s[8..12] == b && s[12..16] == c && s[16..20] == d && s[20..24] == e
            && s[24..92] == t && Cleared(s, 92) == (a + b + c) + Zeros(4) + e + t
  {
  }

  lemma TailLaid(f: seq<byte>, g: seq<byte>, h: seq<byte>, i: seq<byte>, j: seq<byte>, k: seq<byte>, l: seq<byte>,
                 m: seq<byte>, n: seq<byte>)
    requires |f| == |g| == |h| == |i| == |k| == 8 && |j| == 16 && |l| == |m| == |n| == 4
    ensures var s := f + g + h + i + j + k + l + m + n;
            && |s| == 68 && s[0..8] == f && s[8..16] == g && s[16..24] == h && s[24..32] == i && s[32..48] == j
            && s[48..56] == k && s[56..60] == l && s[60..64] == m && s[64..68] == n
  {
  }

  lemma TailFields(h: GptHeader)
    ensures var s := Tail(h);
            && Field(s, 0, 8) == h.currentLba && Field(s, 8, 8) == h.backupLba && Field(s, 16, 8) == h.firstUsable
            && Field(s, 24, 8) == h.lastUsable && s[32..48] == DISK_GUID && Field(s, 48, 8) == h.entryLba
            && Field(s, 56, 4) == 128 && Field(s, 60, 4) == 128 && Field(s, 64, 4) == h.arrayCrc
  {
    TailLaid(Le(h.currentLba, 8), Le(h.backupLba, 8), Le(h.firstUsable, 8), Le(h.lastUsable, 8), DISK_GUID,
             Le(h.entryLba, 8), Le(128, 4), Le(128, 4), Le(h.arrayCrc, 4));
    var s := Tail(h);
    hide Le, Tail;
    Widths();
    FieldOfLe(s, 0, 8, h.currentLba); FieldOfLe(s, 8, 8, h.backupLba); FieldOfLe(s, 16, 8, h.firstUsable);
    FieldOfLe(s, 24, 8, h.lastUsable); FieldOfLe(s, 48, 8, h.entryLba); FieldOfLe(s, 56, 4, 128);
    FieldOfLe(s, 60, 4, 128); FieldOfLe(s, 64, 4, h.arrayCrc);
  }

  lemma ZeroWord()
    ensures Le(0, 4) == Zeros(4)
  {
    assert Le(0, 3) == [0, 0, 0];
  }

  lemma EncodedLaid(h: GptHeader)
    ensures var s := Encoded(h);
            && s[0..8] == SIGNATURE && s[8..12] == Le(0x1_0000, 4) && s[12..16] == Le(92, 4)
            && s[16..20] == Le(Crc32(Raw(h, 0)), 4) && s[20..24] == Zeros(4) && s[24..92] == Tail(h)
            && Cleared(s, HEADER_BYTES) == Raw(h, 0)
  {
    hide Crc32, Tail, Le;
    HeadLaid(SIGNATURE, Le(0x1_0000, 4), Le(92, 4), Le(Crc32(Raw(h, 0)), 4), Zeros(4), Tail(h));
    ZeroWord();
  }

  /** The parts of a header block, and its CRC. */
  lemma BlockParts(h: GptHeader, blockSize: nat)
    requires 512 <= blockSize
    ensures var b := HeaderBlock(h, blockSize);
            && b[0..8] == SIGNATURE && Read32(b, 8) == 0x1_0000 && Read32(b, 12) == 92
            && Read32(b, 20) == 0 && b[24..92] == Tail(h) && CrcOk(b)
  {
    hide Crc32, Tail, Le, Raw, Encoded;
    var crc := Crc32(Raw(h, 0));
    EncodedLaid(h);
    ZeroWord();
    var b, s := HeaderBlock(h, blockSize), Encoded(h);
    assert b[0..HEADER_BYTES] == s;
    SubSlice(b, 0, s, 0, 8); SubSlice(b, 0, s, 8, 12); SubSlice(b, 0, s, 12, 16); SubSlice(b, 0, s, 16, 20);
    SubSlice(b, 0, s, 20, 24); SubSlice(b, 0, s, 24, 92);
    ClearedSame(b, s);
    Widths();
    FieldOfLe(b, 8, 4, 0x1_0000); FieldOfLe(b, 12, 4, 92); FieldOfLe(b, 16, 4, crc); FieldOfLe(b, 20, 4, 0);
  }

  lemma ClearedSame(b: seq<byte>, s: seq<byte>)
    requires |s| == HEADER_BYTES <= |b| && b[0..HEADER_BYTES] == s
    ensures Cleared(b, HEADER_BYTES) == Cleared(s, HEADER_BYTES)
  {
    SubSlice(b, 0, s, 0, 16);
    SubSlice(b, 0, s, 20, HEADER_BYTES);
  }

  /** What is read from a generated header block. */
  lemma BlockFields(h: GptHeader, blockSize: nat)
    requires 512 <= blockSize
    ensures var b := HeaderBlock(h, blockSize);
            && b[0..8] == SIGNATURE && Read32(b, 8) == 0x1_0000 && Read32(b, 12) == 92
            && Read32(b, 20) == 0 && Read64(b, 24) == h.currentLba && Read64(b, 32) == h.backupLba
            && Read64(b, 40) == h.firstUsable && Read64(b, 48) == h.lastUsable && b[56..72] == DISK_GUID
            && Read64(b, 72) == h.entryLba && Read32(b, 80) == 128 && Read32(b, 84) == 128
            && Read32(b, 88) == h.arrayCrc && CrcOk(b)
  {
    BlockParts(h, blockSize);
    TailFields(h);
    hide HeaderBlock, Tail, CrcOk;
    var b, s := HeaderBlock(h, blockSize), Tail(h);
    FieldShift(b, 24, s);
    SubSlice(b, 24, s, 32, 48);
    assert Field(s, 0, 8) == Field(b, 24 + 0, 8) && Field(s, 8, 8) == Field(b, 24 + 8, 8);
    assert Field(s, 16, 8) == Field(b, 24 + 16, 8) && Field(s, 24, 8) == Field(b, 24 + 24, 8);
    assert Field(s, 48, 8) == Field(b, 24 + 48, 8) && Field(s, 56, 4) == Field(b, 24 + 56, 4);
    assert Field(s, 60, 4) == Field(b, 24 + 60, 4) && Field(s, 64, 4) == Field(b, 24 + 64, 4);
  }

  /** The kernel parses a generated header exactly when its field values can be
      placed on the namespace, and gets those values back. */
  lemma GeneratedParses(h: GptHeader, blockSize: nat, namespaceLbas: u64)
    requires 512 <= blockSize
    ensures ParseHeader(HeaderBlock(h, blockSize), namespaceLbas)
            == if Placeable(h, namespaceLbas) then Header(h, 92, 128, 128) else NotAHeader
  {
    BlockFields(h, blockSize);
    hide HeaderBlock, Crc32, Cleared, Field;
    var b := HeaderBlock(h, blockSize);
    assert b[56..72][0] == 0x78;
  }

  /** One changed byte among the 92 header bytes always breaks the CRC rule. */
  lemma HeaderChangeDetected(block: seq<byte>, bad: seq<byte>, i: nat)
    requires HEADER_BYTES <= |block| && i < HEADER_BYTES && CrcOk(block) && DifferOnlyAt(block, bad, i)
    ensures !CrcOk(bad)
  {
    hide Crc32;
    forall j: nat | j < |block| && j != i
      ensures bad[j] == block[j]
    {
      if j < i {
        assert bad[j] == bad[..i][j];
      } else {
        assert bad[j] == bad[i + 1..][j - i - 1];
      }
    }
    var c, d := Cleared(block, HEADER_BYTES), Cleared(bad, HEADER_BYTES);
    if 16 <= i < 20 {
      assert c == d;
      assert block[16..20][i - 16] != bad[16..20][i - 16];
      if Read32(block, 16) == Read32(bad, 16) {
        UnLeInjective(block[16..20], bad[16..20]);
      }
    } else {
      assert block[16..20] == bad[16..20];
      assert DifferOnlyAt(c, d, i) by {
        assert forall j :: 0 <= j < HEADER_BYTES && j != i ==> c[j] == d[j];
      }
      CrcDetectsOneByte(c, d, i);
    }
  }

  /** Two blocks that differ at `i` only agree on every field that does not
      cover it. */
  lemma FieldOutside(b: seq<byte>, bad: seq<byte>, i: nat, o: nat, w: nat)
    requires DifferOnlyAt(b, bad, i) && o + w <= |b| && (o + w <= i || i < o)
    ensures b[o..o + w] == bad[o..o + w] && Field(b, o, w) == Field(bad, o, w)
  {
    if i < o {
      SliceOfSlice(b, i + 1, |b|, o - i - 1, o - i - 1 + w);
      SliceOfSlice(bad, i + 1, |bad|, o - i - 1, o - i - 1 + w);
    } else {
      SliceOfSlice(b, 0, i, o, o + w);
      SliceOfSlice(bad, 0, i, o, o + w);
      assert b[0..i] == b[..i] && bad[0..i] == bad[..i];
    }
  }

  /** A change outside the header size leaves the size at 92, and the kernel
      refuses it by its checksum. */
  lemma RefusedOutsideSize(h: GptHeader, blockSize: nat, bad: seq<byte>, i: nat, namespaceLbas: u64)
    requires 512 <= blockSize && i < HEADER_BYTES && !(12 <= i < 16)
    requires DifferOnlyAt(HeaderBlock(h, blockSize), bad, i)
    ensures ParseHeader(bad, namespaceLbas) == NotAHeader
  {
    var b := HeaderBlock(h, blockSize);
    BlockFields(h, blockSize);
    HeaderChangeDetected(b, bad, i);
    hide HeaderBlock, Crc32, Cleared, DifferOnlyAt;
    FieldOutside(b, bad, i, 12, 4);
  }

  /** The fields around a changed header size. */
  lemma FieldsAroundSize(h: GptHeader, blockSize: nat, bad: seq<byte>, i: nat)
    requires 512 <= blockSize && 12 <= i < 16 && DifferOnlyAt(HeaderBlock(h, blockSize), bad, i)
    ensures |bad| == blockSize && Read32(bad, 12) != HEADER_BYTES
    ensures i >= 14 ==> Read32(bad, 12) >= 0x1_0000
    ensures bad[0..8] == SIGNATURE && Read32(bad, 8) == 0x1_0000 && Read32(bad, 20) == 0
    ensures Read64(bad, 24) == h.currentLba && Read64(bad, 32) == h.backupLba && Read64(bad, 40) == h.firstUsable
    ensures Read64(bad, 48) == h.lastUsable && bad[56..72] == DISK_GUID && Read64(bad, 72) == h.entryLba
    ensures Read32(bad, 80) == 128 && Read32(bad, 84) == 128 && Read32(bad, 88) == h.arrayCrc
  {
    hide HeaderBlock, Field, DifferOnlyAt, CrcOk;
    HeadAroundSize(h, blockSize, bad, i);
    TailAroundSize(h, blockSize, bad, i);
  }

  lemma HeadAroundSize(h: GptHeader, blockSize: nat, bad: seq<byte>, i: nat)
    requires 512 <= blockSize && 12 <= i < 16 && DifferOnlyAt(HeaderBlock(h, blockSize), bad, i)
    ensures |bad| == blockSize && Read32(bad, 12) != HEADER_BYTES
    ensures i >= 14 ==> Read32(bad, 12) >= 0x1_0000
    ensures bad[0..8] == SIGNATURE && Read32(bad, 8) == 0x1_0000
  {
    hide HeaderBlock, Field, DifferOnlyAt, CrcOk;
    var b := HeaderBlock(h, blockSize);
    BlockFields(h, blockSize);
    SizeChanges(b, bad, i);
    SameLength(b, bad, i);
    FieldOutside(b, bad, i, 0, 8); FieldOutside(b, bad, i, 8, 4);
  }

  lemma TailAroundSize(h: GptHeader, blockSize: nat, bad: seq<byte>, i: nat)
    requires 512 <= blockSize && 12 <= i < 16 && DifferOnlyAt(HeaderBlock(h, blockSize), bad, i)
    ensures |bad| == blockSize && Read32(bad, 20) == 0
    ensures Read64(bad, 24) == h.currentLba && Read64(bad, 32) == h.backupLba && Read64(bad, 40) == h.firstUsable
    ensures Read64(bad, 48) == h.lastUsable && bad[56..72] == DISK_GUID && Read64(bad, 72) == h.entryLba
    ensures Read32(bad, 80) == 128 && Read32(bad, 84) == 128 && Read32(bad, 88) == h.arrayCrc
  {
    hide HeaderBlock, Field, DifferOnlyAt, CrcOk;
    BlockFields(h, blockSize);
    SameLength(HeaderBlock(h, blockSize), bad, i);
    TailOutside(HeaderBlock(h, blockSize), bad, i);
  }

  lemma SameLength(b: seq<byte>, bad: seq<byte>, i: nat)
    requires DifferOnlyAt(b, bad, i)
    ensures |b| == |bad|
  {
  }

  lemma TailOutside(b: seq<byte>, bad: seq<byte>, i: nat)
    requires HEADER_BYTES <= |b| && i < 16 && DifferOnlyAt(b, bad, i)
    ensures |bad| == |b| && b[56..72] == bad[56..72]
    ensures Read32(bad, 20) == Read32(b, 20) && Read64(bad, 24) == Read64(b, 24) && Read64(bad, 32) == Read64(b, 32)
    ensures Read64(bad, 40) == Read64(b, 40) && Read64(bad, 48) == Read64(b, 48) && Read64(bad, 72) == Read64(b, 72)
    ensures Read32(bad, 80) == Read32(b, 80) && Read32(bad, 84) == Read32(b, 84) && Read32(bad, 88) == Read32(b, 88)
  {
    SameLength(b, bad, i);
    hide Field, DifferOnlyAt;
    FieldOutside(b, bad, i, 20, 4); FieldOutside(b, bad, i, 24, 8); FieldOutside(b, bad, i, 32, 8);
    FieldOutside(b, bad, i, 40, 8); FieldOutside(b, bad, i, 48, 8); FieldOutside(b, bad, i, 56, 16);
    FieldOutside(b, bad, i, 72, 8); FieldOutside(b, bad, i, 80, 4); FieldOutside(b, bad, i, 84, 4);
    FieldOutside(b, bad, i, 88, 4);
  }

  lemma SizeChanges(b: seq<byte>, bad: seq<byte>, i: nat)
    requires HEADER_BYTES <= |b| && 12 <= i < 16 && DifferOnlyAt(b, bad, i) && Read32(b, 12) == HEADER_BYTES
    ensures Read32(bad, 12) != HEADER_BYTES
    ensures i >= 14 ==> Read32(bad, 12) >= 0x1_0000
  {
    var was, is_ := b[12..16], bad[12..16];
    assert was[i - 12] != is_[i - 12];
    FieldBytes(b, 12, 4);
    if Read32(bad, 12) == HEADER_BYTES {
      FieldBytes(bad, 12, 4);
      assert false;
    }
    if i >= 14 {
      SizeBytes(was);
      SizeBytes(is_);
    }
  }

  lemma SizeBytes(s: seq<byte>)
    requires |s| == 4
    ensures UnLe(s) == s[0] as int + 0x100 * (s[1] as int) + 0x1_0000 * (s[2] as int) + 0x100_0000 * (s[3] as int)
  {
    assert UnLe(s) == s[0] + 256 * UnLe(s[1..]);
    assert s[1..][1..] == s[2..] && s[2..][1..] == s[3..] && s[3..][1..] == [];
    assert UnLe(s[1..]) == s[1] + 256 * UnLe(s[2..]);
    assert UnLe(s[2..]) == s[2] + 256 * UnLe(s[3..]);
    assert UnLe(s[3..]) == s[3];
  }

  /** The kernel's result on a sector whose other fields are as generated. */
  lemma ParseWithSize(h: GptHeader, bad: seq<byte>, namespaceLbas: u64)
    requires 512 <= |bad| && bad[0..8] == SIGNATURE && Read32(bad, 8) == 0x1_0000 && Read32(bad, 20) == 0
    requires Read64(bad, 24) == h.currentLba && Read64(bad, 32) == h.backupLba && Read64(bad, 40) == h.firstUsable
    requires Read64(bad, 48) == h.lastUsable && bad[56..72] == DISK_GUID && Read64(bad, 72) == h.entryLba
    requires Read32(bad, 80) == 128 && Read32(bad, 84) == 128 && Read32(bad, 88) == h.arrayCrc
    ensures ParseHeader(bad, namespaceLbas)
            == var size := Read32(bad, 12);
               if HEADER_BYTES <= size <= |bad| && Crc32(Cleared(bad, size)) == Read32(bad, 16) && Placeable(h, namespaceLbas)
               then Header(h, size, 128, 128) else NotAHeader
  {
    hide Crc32, Cleared, Field;
    assert bad[56..72][0] == 0x78;
  }

  /** Exactly what the kernel makes of a generated header with one changed byte
      among the 92: it refuses it, except when the byte is in the size field,
      the new size is one the sector has room for, and the checksum over that
      many bytes happens to be the stored one; then it returns the new size. */
  lemma KernelOnChange(h: GptHeader, blockSize: nat, bad: seq<byte>, i: nat, namespaceLbas: u64)
    requires 512 <= blockSize && i < HEADER_BYTES && DifferOnlyAt(HeaderBlock(h, blockSize), bad, i)
    ensures ParseHeader(bad, namespaceLbas)
            == var size := Read32(bad, 12);
               if 12 <= i < 16 && HEADER_BYTES <= size <= blockSize
                  && Crc32(Cleared(bad, size)) == Read32(bad, 16) && Placeable(h, namespaceLbas)
               then Header(h, size, 128, 128) else NotAHeader
  {
    if 12 <= i < 16 {
      hide HeaderBlock, Crc32, Cleared, Field, DifferOnlyAt, ParseHeader;
      FieldsAroundSize(h, blockSize, bad, i);
      ParseWithSize(h, bad, namespaceLbas);
    } else {
      RefusedOutsideSize(h, blockSize, bad, i, namespaceLbas);
    }
  }

  /** So a changed header the kernel accepts shows: its size is no longer 92. */
  lemma AcceptedChangeShows(h: GptHeader, blockSize: nat, bad: seq<byte>, i: nat, namespaceLbas: u64)
    requires 512 <= blockSize && i < HEADER_BYTES && DifferOnlyAt(HeaderBlock(h, blockSize), bad, i)
    ensures ParseHeader(bad, namespaceLbas).Header? ==> ParseHeader(bad, namespaceLbas).headerSize != HEADER_BYTES
  {
    KernelOnChange(h, blockSize, bad, i, namespaceLbas);
    hide ParseHeader, Crc32, Cleared, HeaderBlock;
    if 12 <= i < 16 {
      FieldsAroundSize(h, blockSize, bad, i);
    }
  }

  /** And it refuses every change outside the two low bytes of the size, on any
      sector of less than 64 KiB. */
  lemma KernelRefusesChange(h: GptHeader, blockSize: nat, bad: seq<byte>, i: nat, namespaceLbas: u64)
    requires 512 <= blockSize < 0x1_0000 && i < HEADER_BYTES && !(12 <= i < 14)
    requires DifferOnlyAt(HeaderBlock(h, blockSize), bad, i)
    ensures ParseHeader(bad, namespaceLbas) == NotAHeader
  {
    KernelOnChange(h, blockSize, bad, i, namespaceLbas);
    hide ParseHeader, Crc32, Cleared, HeaderBlock;
    if 12 <= i < 16 {
      FieldsAroundSize(h, blockSize, bad, i);
    }
  }

  // ------------------------------------------- a change the kernel accepts

  /** The entry array's checksum closes the 92 bytes. */
  function Front(h: GptHeader): (s: seq<byte>)
    ensures |s| == 88
  {
    Raw(h, 0)[..88]
  }

  lemma FrontAndWord(h: GptHeader, w: u32)
    ensures Raw(h.(arrayCrc := w), 0) == Front(h) + Le(w, 4)
  {
    hide Le;
    var r, q := Raw(h, 0), Raw(h.(arrayCrc := w), 0);
    assert q[..88] == r[..88] && q[88..] == Le(w, 4);
    assert q == q[..88] + q[88..];
  }

  const WRONG_SIZE_BYTE: byte := 0x5D

  function Flipped(s: seq<byte>): (r: seq<byte>)
    requires 12 < |s|
    ensures |r| == |s|
  {
    s[..12] + [WRONG_SIZE_BYTE] + s[13..]
  }

  /** What the kernel's checksum covers once the size reads 93. */
  lemma ClearedFlipped(b: seq<byte>, raw: seq<byte>)
    requires 93 <= |b| && |raw| == 92 && Cleared(b, 92) == raw && b[92] == 0
    ensures Cleared(Flipped(b), 93) == Flipped(raw[..88]) + raw[88..] + [0]
  {
    var c := Cleared(b, 92);
    var x, y := Cleared(Flipped(b), 93), Flipped(raw[..88]) + raw[88..] + [0];
    assert |x| == |y| == 93;
    forall j | 0 <= j < 93
      ensures x[j] == y[j]
    {
      if j == 12 {
        assert x[j] == WRONG_SIZE_BYTE == y[j];
      } else if j < 92 {
        assert c[j] == raw[j] && y[j] == raw[j];
        assert x[j] == if j < 16 then b[j] else if j < 20 then 0 else b[j];
        assert c[j] == if j < 16 then b[j] else if j < 20 then 0 else b[j];
      } else {
        assert x[j] == b[92] == 0;
      }
    }
  }

  /** The failing family: whatever the other fields of a header the kernel can
      place, there is an entry array for which flipping one bit of the header
      size, 92 to 93, goes unnoticed: the kernel accepts the changed sector. */
  lemma FlippedSizeAccepted(h: GptHeader, blockSize: nat, namespaceLbas: u64)
    returns (array_: seq<byte>, sealed_: GptHeader)
    requires 512 <= blockSize && Placeable(h, namespaceLbas)
    ensures |array_| == ENTRY_ARRAY_BYTES && sealed_ == h.(arrayCrc := Crc32(array_))
    ensures var good := HeaderBlock(sealed_, blockSize);
            && DifferOnlyAt(good, Flipped(good), 12)
            && ParseHeader(Flipped(good), namespaceLbas) == Header(sealed_, 93, 128, 128)
  {
    hide Crc32, Le, Raw, HeaderBlock, ParseHeader;
    var w := ZeroByteUnseen(Front(h), Flipped(Front(h)));
    array_ := CrcSurjective(w, ENTRY_ARRAY_BYTES);
    sealed_ := h.(arrayCrc := w);
    FrontAndWord(h, w);
    var good := HeaderBlock(sealed_, blockSize);
    var raw := Raw(sealed_, 0);
    assert raw[..88] == Front(h) && raw[88..] == Le(w, 4);
    SealedBlock(sealed_, blockSize);
    ClearedFlipped(good, raw);
    FlipsOneByte(good);
    var bad := Flipped(good);
    assert bad[16..20] == good[16..20];
    KernelOnChange(sealed_, blockSize, bad, 12, namespaceLbas);
  }

  /** The block's checksum field and the byte after the header. */
  lemma SealedBlock(h: GptHeader, blockSize: nat)
    requires 512 <= blockSize
    ensures var b := HeaderBlock(h, blockSize);
            && Cleared(b, 92) == Raw(h, 0) && Read32(b, 16) == Crc32(Raw(h, 0))
            && b[12..16] == Le(92, 4) && b[92] == 0
  {
    var crc := Crc32(Raw(h, 0));
    hide Crc32, Tail;
    HeadLaid(SIGNATURE, Le(0x1_0000, 4), Le(92, 4), Le(crc, 4), Zeros(4), Tail(h));
    ZeroWord();
    var b, s := HeaderBlock(h, blockSize), Encoded(h);
    assert Cleared(s, HEADER_BYTES) == Raw(h, 0);
    hide Le, Raw;
    assert b[0..HEADER_BYTES] == s;
    SubSlice(b, 0, s, 12, 16); SubSlice(b, 0, s, 16, 20);
    ClearedSame(b, s);
    Widths();
    FieldOfLe(b, 16, 4, crc);
  }

  lemma FlipsOneByte(b: seq<byte>)
    requires 92 <= |b| && b[12..16] == Le(92, 4)
    ensures DifferOnlyAt(b, Flipped(b), 12) && Read32(Flipped(b), 12) == 93
  {
    assert Le(92, 4) == [92, 0, 0, 0] by {
      assert Le(0, 3) == [0, 0, 0];
    }
    var r := Flipped(b);
    assert b[12] == b[12..16][0];
    assert r[12..16] == [WRONG_SIZE_BYTE] + b[12..16][1..];
    SizeBytes(r[12..16]);
  }

  /** A change of one byte of the entry array no longer matches its CRC. */
  lemma ArrayChangeDetected(array_: seq<byte>, bad: seq<byte>, i: nat, h: GptHeader)
    requires h.arrayCrc == Crc32(array_) && DifferOnlyAt(array_, bad, i)
    ensures h.arrayCrc != Crc32(bad)
  {
    CrcDetectsOneByte(array_, bad, i);
  }

  /** `make_gpt_header`: the fields in place, the CRC last over a zero field. */
  method MakeGptHeader(blockSize: nat, h: GptHeader) returns (header: array<byte>)
    requires 512 <= blockSize
    ensures fresh(header) && header[..] == HeaderBlock(h, blockSize)
  {
    hide Le, Crc32, Splice;
    header := new byte[blockSize](i => 0);
    ghost var z := Zeros(blockSize);
    SpliceAll(header[..], z);
    Blit(header, 0, Zeros(blockSize));
    Blit(header, 0, SIGNATURE);
    Blit(header, 8, Le(0x1_0000, 4));
    ghost var done := Extend(z, 0, SIGNATURE, Le(0x1_0000, 4));
    Blit(header, 12, Le(92, 4));
    done := Extend(z, 0, done, Le(92, 4));
    ghost var y := header[..];
    Blit(header, 24, Le(h.currentLba, 8));
    Blit(header, 32, Le(h.backupLba, 8));
    done := Extend(y, 24, Le(h.currentLba, 8), Le(h.backupLba, 8));
    Blit(header, 40, Le(h.firstUsable, 8));
    done := Extend(y, 24, done, Le(h.firstUsable, 8));
    Blit(header, 48, Le(h.lastUsable, 8));
    done := Extend(y, 24, done, Le(h.lastUsable, 8));
    Blit(header, 56, DISK_GUID);
    done := Extend(y, 24, done, DISK_GUID);
    Blit(header, 72, Le(h.entryLba, 8));
    done := Extend(y, 24, done, Le(h.entryLba, 8));
    Blit(header, 80, Le(128, 4));
    done := Extend(y, 24, done, Le(128, 4));
    Blit(header, 84, Le(128, 4));
    done := Extend(y, 24, done, Le(128, 4));
    Blit(header, 88, Le(h.arrayCrc, 4));
    done := Extend(y, 24, done, Le(h.arrayCrc, 4));
    Assembled(h, blockSize);
    Blit(header, 16, Le(Crc32(header[..92]), 4));
  }

  lemma SpliceAll(dst: seq<byte>, src: seq<byte>)
    requires |src| == |dst|
    ensures Splice(dst, 0, src) == src
  {
  }

  /** The header as the writer leaves it before and after the CRC. */
  lemma Assembled(h: GptHeader, blockSize: nat)
    requires 512 <= blockSize
    ensures var open_ := Splice(Splice(Zeros(blockSize), 0, Head()), 24, Tail(h));
            && open_[..92] == Raw(h, 0)
            && Splice(open_, 16, Le(Crc32(Raw(h, 0)), 4)) == HeaderBlock(h, blockSize)
  {
    ZeroWord();
    hide Head, Tail, Le, Crc32;
  }
}
