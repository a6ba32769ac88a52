// The 48-byte slot header of the A/B journal: the kernel's encoder and reader
// (src/runtime_persist.zig) and the host-side parser of the persistence test
// (scripts/test-x86_64-persistence.py).
module JournalFormat {
  import opened Bytes
  import opened Checksums

  /** "ZIGPERS1" */
  const MAGIC: seq<byte> := [0x5A, 0x49, 0x47, 0x50, 0x45, 0x52, 0x53, 0x31]
  const VERSION: nat := 3
  const HEADER_SIZE: nat := 48
  const COMMIT_MARKER: nat := 0x434F_4D54
  const MAX_PAYLOAD: nat := 65536

  /** The block sizes the store accepts. */
  type BlockSize = n: nat | n == 512 || n == 4096 witness 512

  datatype Header = Header(slot: nat, version: u32, generation: u64, payloadLength: u32,
                           payloadCrc: u32, recordCount: u32)

  datatype HeaderState = Absent | Invalid | Valid(header: Header)

  datatype HeaderError = Truncated | BadMagic | BadLength | BadVersion | BadCommit | BadCrc

  datatype ParsedHeader = NoHeader | Rejected(error: HeaderError) | Accepted(header: Header)

  /** The slot, version and length are ones the kernel's reader admits. */
  predicate Encodable(h: Header) {
    h.slot < 2 && 1 <= h.version <= 3 && 4 <= h.payloadLength <= MAX_PAYLOAD
  }

  /** The header bytes around a given value of the CRC field. */
  function HeaderBytes(h: Header, crc: u32): (s: seq<byte>)
    ensures |s| == HEADER_SIZE
  {
    MAGIC + Le(h.version, 4) + Le(HEADER_SIZE, 4) + Le(h.generation, 8)
    + Le(h.payloadLength, 4) + Le(h.payloadCrc, 4) + Le(h.slot, 4) + Le(h.recordCount, 4)
    + Le(crc, 4) + Le(COMMIT_MARKER, 4)
  }

  function EncodedHeader(h: Header): (s: seq<byte>)
    ensures |s| == HEADER_SIZE
  {
    HeaderBytes(h, Crc32(HeaderBytes(h, 0)))
  }

  function HeaderBlock(h: Header, bs: BlockSize): (s: seq<byte>)
    ensures |s| == bs
  {
    EncodedHeader(h) + Zeros(bs - HEADER_SIZE)
  }

  /** The header with bytes 40..43 cleared, which is what its CRC covers. */
  function Cleared(block: seq<byte>): (s: seq<byte>)
    requires HEADER_SIZE <= |block|
    ensures |s| == HEADER_SIZE
  {
    block[..40] + Zeros(4) + block[44..48]
  }

  function DecodeHeader(block: seq<byte>, slot: nat): Header
    requires HEADER_SIZE <= |block|
  {
    Header(slot, Read32(block, 8), Read64(block, 16), Read32(block, 24), Read32(block, 28), Read32(block, 36))
  }

  /** The kernel's `readHeader`, on the block it read. */
  function ReadHeader(block: seq<byte>, slot: nat): HeaderState
    requires HEADER_SIZE <= |block|
  {
    if AllZero(block) then Absent
    else if block[..8] != MAGIC || Read32(block, 8) !in {1, 2, 3}
            || Read32(block, 12) != HEADER_SIZE || Read32(block, 44) != COMMIT_MARKER then Invalid
    else if Read32(block, 40) != Crc32(Cleared(block)) || Read32(block, 32) != slot
            || Read32(block, 24) < 4 || Read32(block, 24) > MAX_PAYLOAD then Invalid
    else Valid(DecodeHeader(block, slot))
  }

  /** The host's `parse_header`, on the block it read; its checks come in
      another order, name their reason and admit version 3 only. */
  function ParsedBlock(block: seq<byte>, slot: nat): ParsedHeader
    requires HEADER_SIZE <= |block|
  {
    if AllZero(block) then NoHeader
    else if block[..8] != MAGIC then Rejected(BadMagic)
    else if Read32(block, 24) < 4 || Read32(block, 24) > MAX_PAYLOAD then Rejected(BadLength)
    else if Read32(block, 8) != VERSION || Read32(block, 12) != HEADER_SIZE then Rejected(BadVersion)
    else if Read32(block, 32) != slot || Read32(block, 44) != COMMIT_MARKER then Rejected(BadCommit)
    else if Read32(block, 40) != Crc32(Cleared(block)) then Rejected(BadCrc)
    else Accepted(DecodeHeader(block, slot))
  }

  // ----------------------------------------------------- encoder and reader

  /** Where each of the ten header parts lies. */
  lemma Laid(m: seq<byte>, a: seq<byte>, b: seq<byte>, c: seq<byte>, d: seq<byte>, e: seq<byte>,
             f: seq<byte>, g: seq<byte>, x: seq<byte>, y: seq<byte>)
    requires |m| == |c| == 8 && |a| == |b| == |d| == |e| == |f| == |g| == |x| == |y| == 4
    ensures var s := m + a + b + c + d + e + f + g + x + y;
            && |s| == 48
            && s[..8] == m && s[8..12] == a && s[12..16] == b && s[16..24] == c && s[24..28] == d
            && s[28..32] == e && s[32..36] == f && s[36..40] == g && s[40..44] == x && s[44..48] == y
  {
  }

  /** The documented layout of the header. */
  lemma HeaderFields(h: Header, crc: u32)
    requires Encodable(h)
    ensures var s := HeaderBytes(h, crc);
            && s[..8] == [0x5A, 0x49, 0x47, 0x50, 0x45, 0x52, 0x53, 0x31]
            && Read32(s, 8) == h.version
            && Read32(s, 12) == 48
            && Read64(s, 16) == h.generation
            && Read32(s, 24) == h.payloadLength
            && Read32(s, 28) == h.payloadCrc
            && Read32(s, 32) == h.slot
            && Read32(s, 36) == h.recordCount
            && Read32(s, 40) == crc
            && s[44..48] == [0x54, 0x4D, 0x4F, 0x43] && Read32(s, 44) == COMMIT_MARKER
            && Cleared(s) == HeaderBytes(h, 0)
  {
    Widths();
    Laid(MAGIC, Le(h.version, 4), Le(HEADER_SIZE, 4), Le(h.generation, 8), Le(h.payloadLength, 4),
         Le(h.payloadCrc, 4), Le(h.slot, 4), Le(h.recordCount, 4), Le(crc, 4), Le(COMMIT_MARKER, 4));
    var s := HeaderBytes(h, crc);
    FieldOfLe(s, 8, 4, h.version); FieldOfLe(s, 12, 4, HEADER_SIZE); FieldOfLe(s, 16, 8, h.generation);
    FieldOfLe(s, 24, 4, h.payloadLength); FieldOfLe(s, 28, 4, h.payloadCrc); FieldOfLe(s, 32, 4, h.slot);
    FieldOfLe(s, 36, 4, h.recordCount); FieldOfLe(s, 40, 4, crc); FieldOfLe(s, 44, 4, COMMIT_MARKER);
    ClearedBytes(h, crc);
    MarkerBytes();
  }

  lemma MarkerBytes()
    ensures Le(COMMIT_MARKER, 4) == [0x54, 0x4D, 0x4F, 0x43]
  {
    assert Le(0x43, 1) == [0x43] && Le(0x434F, 2) == [0x4F] + Le(0x43, 1);
    assert Le(0x43_4F4D, 3) == [0x4D] + Le(0x434F, 2);
  }

  lemma ClearedBytes(h: Header, crc: u32)
    ensures Cleared(HeaderBytes(h, crc)) == HeaderBytes(h, 0)
  {
    assert Le(0, 4) == Zeros(4) by {
      assert Le(0, 3) == [0, 0, 0] && Le(0, 4) == [0, 0, 0, 0];
    }
    var s, z := HeaderBytes(h, crc), HeaderBytes(h, 0);
    assert s[..40] == z[..40] && z[40..44] == Le(0, 4) && s[44..] == z[44..];
    assert z == z[..40] + z[40..44] + z[44..];
  }

  /** The reader sees the header fields only through the first 48 bytes. */
  lemma HeaderPrefix(a: seq<byte>, b: seq<byte>)
    requires HEADER_SIZE <= |a| && HEADER_SIZE <= |b| && a[..HEADER_SIZE] == b[..HEADER_SIZE]
    ensures a[..8] == b[..8] && Cleared(a) == Cleared(b)
    ensures forall o: nat, w: nat :: o + w <= HEADER_SIZE ==> Field(a, o, w) == Field(b, o, w)
  {
    PrefixPart(a, b, 0, 8);
    PrefixPart(a, b, 0, 40);
    PrefixPart(a, b, 44, 48);
    forall o: nat, w: nat | o + w <= HEADER_SIZE
      ensures Field(a, o, w) == Field(b, o, w)
    {
      PrefixPart(a, b, o, o + w);
    }
  }

  lemma PrefixPart(a: seq<byte>, b: seq<byte>, lo: nat, hi: nat)
    requires HEADER_SIZE <= |a| && HEADER_SIZE <= |b| && a[..HEADER_SIZE] == b[..HEADER_SIZE]
    requires lo <= hi <= HEADER_SIZE
    ensures a[lo..hi] == b[lo..hi] && a[..hi] == b[..hi]
  {
    SliceOfSlice(a, 0, HEADER_SIZE, lo, hi);
    SliceOfSlice(b, 0, HEADER_SIZE, lo, hi);
    SliceOfSlice(a, 0, HEADER_SIZE, 0, hi);
    SliceOfSlice(b, 0, HEADER_SIZE, 0, hi);
  }

  /** What the encoder writes, the reader returns. */
  lemma EncodedHeaderReads(h: Header, bs: BlockSize)
    requires Encodable(h)
    ensures ReadHeader(HeaderBlock(h, bs), h.slot) == Valid(h)
  {
    hide EncodedHeader, ReadHeader;
    var block := HeaderBlock(h, bs);
    assert block[..HEADER_SIZE] == EncodedHeader(h);
    EncodedPrefixReads(block, h);
  }

  /** And what the reader accepts is exactly what the encoder would write for
      the header it returns: the 48 bytes are determined. */
  lemma ReadHeaderIsEncoded(block: seq<byte>, slot: nat)
    requires HEADER_SIZE <= |block| && slot < 2
    requires ReadHeader(block, slot).Valid?
    ensures var h := ReadHeader(block, slot).header;
            Encodable(h) && h.slot == slot && block[..HEADER_SIZE] == EncodedHeader(h)
  {
    hide Le, UnLe, Crc32;
    var h := ReadHeader(block, slot).header;
    var crc := Read32(block, 40);
    FieldBytes(block, 8, 4); FieldBytes(block, 12, 4); FieldBytes(block, 16, 8); FieldBytes(block, 24, 4);
    FieldBytes(block, 28, 4); FieldBytes(block, 32, 4); FieldBytes(block, 36, 4); FieldBytes(block, 40, 4);
    FieldBytes(block, 44, 4);
    Pieces(block);
    assert block[..HEADER_SIZE] == HeaderBytes(h, crc);
    ClearedBytes(h, crc);
    HeaderPrefix(block, HeaderBytes(h, crc));
  }

  /** Exactly which blocks a slot's reader takes for a header: those that begin
      with the encoding of one of its slot. */
  lemma ValidExactly(block: seq<byte>, slot: nat, h: Header)
    requires HEADER_SIZE <= |block| && slot < 2
    ensures ReadHeader(block, slot) == Valid(h)
            <==> h.slot == slot && 1 <= h.version <= 3 && 4 <= h.payloadLength <= 65536 && block[..48] == EncodedHeader(h)
  {
    hide EncodedHeader, HeaderBytes, Cleared, Crc32;
    if ReadHeader(block, slot) == Valid(h) {
      ReadHeaderIsEncoded(block, slot);
    }
    if Encodable(h) && h.slot == slot && block[..48] == EncodedHeader(h) {
      EncodedPrefixReads(block, h);
    }
  }

  lemma EncodedPrefixReads(block: seq<byte>, h: Header)
    requires HEADER_SIZE <= |block| && Encodable(h) && block[..HEADER_SIZE] == EncodedHeader(h)
    ensures ReadHeader(block, h.slot) == Valid(h)
  {
    var s := EncodedHeader(h);
    assert s[..HEADER_SIZE] == s;
    HeaderFields(h, Crc32(HeaderBytes(h, 0)));
    HeaderPrefix(block, s);
    assert block[0] == MAGIC[0] by { assert block[..8][0] == MAGIC[0]; }
    assert !AllZero(block);
  }

  lemma ValidIsEncodable(block: seq<byte>, slot: nat)
    requires HEADER_SIZE <= |block| && slot < 2 && ReadHeader(block, slot).Valid?
    ensures Encodable(ReadHeader(block, slot).header) && ReadHeader(block, slot).header.slot == slot
  {
  }

  lemma Pieces(s: seq<byte>)
    requires HEADER_SIZE <= |s|
    ensures s[..HEADER_SIZE] == s[..8] + s[8..12] + s[12..16] + s[16..24] + s[24..28] + s[28..32] + s[32..36]
                                + s[36..40] + s[40..44] + s[44..48]
  {
  }

  /** The two independent readers agree on every block: absent together, and
      the host accepts exactly the valid headers of version 3. */
  lemma ReadersAgree(block: seq<byte>, slot: nat)
    requires HEADER_SIZE <= |block|
    ensures ParsedBlock(block, slot).NoHeader? <==> ReadHeader(block, slot).Absent?
    ensures forall h :: ParsedBlock(block, slot) == Accepted(h) <==>
                        ReadHeader(block, slot) == Valid(h) && h.version == VERSION
  {
    // Evaluate both checks: they test the same fields in two orders.
    var version := Read32(block, 8);
    assert version == VERSION ==> version in {1, 2, 3};
  }

  /** Which fault the host names, when a block has several: the first in the
      order magic, payload length, version or size, slot or marker, checksum. */
  lemma HostNamesFirst(block: seq<byte>, slot: nat)
    requires HEADER_SIZE <= |block| && exists i :: 0 <= i < |block| && block[i] != 0
    ensures var magic := block[..8] == [0x5A, 0x49, 0x47, 0x50, 0x45, 0x52, 0x53, 0x31];
            var length := 4 <= Read32(block, 24) <= 65536;
            var version := Read32(block, 8) == 3 && Read32(block, 12) == 48;
            var place := Read32(block, 32) == slot && Read32(block, 44) == 0x434F_4D54;
            var sum := Read32(block, 40) == Crc32(block[..40] + [0, 0, 0, 0] + block[44..48]);
            var r := ParsedBlock(block, slot);
            && (!magic <==> r == Rejected(BadMagic))
            && (magic && !length <==> r == Rejected(BadLength))
            && (magic && length && !version <==> r == Rejected(BadVersion))
            && (magic && length && version && !place <==> r == Rejected(BadCommit))
            && (magic && length && version && place && !sum <==> r == Rejected(BadCrc))
            && (magic && length && version && place && sum <==> r.Accepted?)
  {
    hide Crc32, Field;
    assert Zeros(4) == [0, 0, 0, 0];
  }

  /** One-byte corruption anywhere in the 48 header bytes turns a valid header
      into an invalid one: never another valid header, never an absent one. */
  lemma HeaderCorruptionDetected(block: seq<byte>, bad: seq<byte>, slot: nat, i: nat)
    requires HEADER_SIZE <= |block| && slot < 2 && i < HEADER_SIZE
    requires ReadHeader(block, slot).Valid?
    requires DifferOnlyAt(block, bad, i)
    ensures ReadHeader(bad, slot) == Invalid
    ensures ParsedBlock(bad, slot).Rejected?
    ensures 40 <= i < 44 && ParsedBlock(block, slot).Accepted? ==> ParsedBlock(bad, slot) == Rejected(BadCrc)
  {
    ElsewhereSame(block, bad, i);
    assert block[0] == block[..8][0] && block[1] == block[..8][1];
    assert !AllZero(bad) by { assert bad[0] != 0 || bad[1] != 0; }
    if 40 <= i < 44 {
      ChecksumChanges(block, bad, i);
      SameFields(block, bad, i);
    } else {
      ClearedChanges(block, bad, i);
      hide DifferOnlyAt, Cleared, Crc32;
    }
  }

  lemma ChecksumChanges(block: seq<byte>, bad: seq<byte>, i: nat)
    requires HEADER_SIZE <= |block| && 40 <= i < 44 && DifferOnlyAt(block, bad, i)
    ensures |bad| == |block| && Cleared(bad) == Cleared(block) && Read32(bad, 40) != Read32(block, 40)
  {
    hide Le, UnLe;
    ElsewhereSame(block, bad, i);
    assert Cleared(bad) == Cleared(block);
    assert bad[40..44] != block[40..44] by { assert bad[40..44][i - 40] != block[40..44][i - 40]; }
    if Read32(bad, 40) == Read32(block, 40) {
      UnLeInjective(bad[40..44], block[40..44]);
    }
  }

  lemma ClearedChanges(block: seq<byte>, bad: seq<byte>, i: nat)
    requires HEADER_SIZE <= |block| && i < HEADER_SIZE && !(40 <= i < 44) && DifferOnlyAt(block, bad, i)
    ensures |bad| == |block| && Crc32(Cleared(bad)) != Crc32(Cleared(block)) && Read32(bad, 40) == Read32(block, 40)
  {
    hide Le, UnLe, Crc32;
    ElsewhereSame(block, bad, i);
    assert bad[40..44] == block[40..44];
    assert DifferOnlyAt(Cleared(block), Cleared(bad), i) by {
      var c, d := Cleared(block), Cleared(bad);
      assert forall j :: 0 <= j < HEADER_SIZE && j != i ==> c[j] == d[j];
    }
    CrcDetectsOneByte(Cleared(block), Cleared(bad), i);
  }

  lemma SameFields(a: seq<byte>, b: seq<byte>, i: nat)
    requires HEADER_SIZE <= |a| && 40 <= i < 44 && DifferOnlyAt(a, b, i)
    ensures a[..8] == b[..8]
    ensures forall o: nat, w: nat {:trigger Field(b, o, w)} :: o + w <= 40 ==> Field(a, o, w) == Field(b, o, w)
    ensures Read32(a, 44) == Read32(b, 44)
  {
    assert a[..8] == a[..i][..8] && b[..8] == b[..i][..8];
    forall o: nat, w: nat | o + w <= 40
      ensures Field(a, o, w) == Field(b, o, w)
    {
      assert a[o..o + w] == a[..i][o..o + w];
      assert b[o..o + w] == b[..i][o..o + w];
    }
    assert a[44..48] == a[i + 1..][43 - i..47 - i];
    assert b[44..48] == b[i + 1..][43 - i..47 - i];
  }

  // ------------------------------------------------- the code, step by step

  method WriteLe(a: array<byte>, offset: nat, n: nat, w: nat)
    requires offset + w <= a.Length
    modifies a
    ensures a[..] == Splice(old(a[..]), offset, Le(n, w))
  {
    Blit(a, offset, Le(n, w));
  }

  /** The field writes of `encodeHeader`, over a cleared buffer. */
  method WriteFields(sector: array<byte>, h: Header)
    requires HEADER_SIZE <= sector.Length
    modifies sector
    ensures sector[..] == Splice(old(sector[..]), 0, HeaderBytes(h, 0))
  {
    hide Le, Splice;
    ghost var z := sector[..];
    Blit(sector, 0, MAGIC);
    WriteLe(sector, 8, h.version, 4);
    ghost var done := Extend(z, 0, MAGIC, Le(h.version, 4));
    WriteLe(sector, 12, HEADER_SIZE, 4);
    done := Extend(z, 0, done, Le(HEADER_SIZE, 4));
    WriteLe(sector, 16, h.generation, 8);
    done := Extend(z, 0, done, Le(h.generation, 8));
    WriteLe(sector, 24, h.payloadLength, 4);
    done := Extend(z, 0, done, Le(h.payloadLength, 4));
    WriteLe(sector, 28, h.payloadCrc, 4);
    done := Extend(z, 0, done, Le(h.payloadCrc, 4));
    WriteLe(sector, 32, h.slot, 4);
    done := Extend(z, 0, done, Le(h.slot, 4));
    WriteLe(sector, 36, h.recordCount, 4);
    done := Extend(z, 0, done, Le(h.recordCount, 4));
    WriteLe(sector, 40, 0, 4);
    done := Extend(z, 0, done, Le(0, 4));
    WriteLe(sector, 44, COMMIT_MARKER, 4);
    done := Extend(z, 0, done, Le(COMMIT_MARKER, 4));
  }

  /** `encodeHeader`: fills the sector buffer field by field, then seals it. */
  method EncodeHeader(sector: array<byte>, h: Header, bs: BlockSize)
    requires sector.Length == bs && Encodable(h)
    modifies sector
    ensures sector[..] == HeaderBlock(h, bs)
  {
    hide Le, Crc32, HeaderBytes;
    Blit(sector, 0, Zeros(bs));
    assert sector[..] == Zeros(bs);
    WriteFields(sector, h);
    PrefixOf(HeaderBytes(h, 0), bs);
    WriteLe(sector, 40, Crc32(sector[..HEADER_SIZE]), 4);
    Sealed(h, Crc32(HeaderBytes(h, 0)), bs);
  }

  lemma PrefixOf(s: seq<byte>, bs: BlockSize)
    requires |s| <= bs
    ensures Splice(Zeros(bs), 0, s)[..|s|] == s
    ensures Splice(Zeros(bs), 0, s) == s + Zeros(bs - |s|)
  {
  }

  lemma Sealed(h: Header, crc: u32, bs: BlockSize)
    ensures Splice(Splice(Zeros(bs), 0, HeaderBytes(h, 0)), 40, Le(crc, 4)) == HeaderBytes(h, crc) + Zeros(bs - 48)
  {
    hide Le;
  }

  /** `parse_header` on an image file. */
  method ParseHeader(image: seq<byte>, firstLba: nat, slot: nat, bs: BlockSize) returns (r: ParsedHeader)
    ensures var lo := (firstLba + slot) * bs;
            r == if |image| < lo + bs then Rejected(Truncated) else ParsedBlock(image[lo..lo + bs], slot)
  {
    hide ParsedBlock;
    var lo := (firstLba + slot) * bs;
    var bytes := Slice(image, lo, lo + bs);
    if |bytes| != bs {
      return Rejected(Truncated);
    }
    assert bytes == image[lo..lo + bs];
    r := ParseBlock(bytes, slot);
  }

  /** Its checks on the block it read, held in a buffer whose CRC field is
      zeroed in place before the checksum is taken. */
  method ParseBlock(bytes: seq<byte>, slot: nat) returns (r: ParsedHeader)
    requires HEADER_SIZE <= |bytes|
    ensures r == ParsedBlock(bytes, slot)
  {
    hide Crc32, CrcUpdate, CrcFinish;
    var any := false;
    for i := 0 to |bytes|
      invariant any <==> exists j :: 0 <= j < i && bytes[j] != 0
    {
      any := any || bytes[i] != 0;
    }
    if !any {
      return NoHeader;
    }
    if bytes[..8] != MAGIC {
      return Rejected(BadMagic);
    }
    var version, headerSize := Read32(bytes, 8), Read32(bytes, 12);
    var payloadLength := Read32(bytes, 24);
    if payloadLength < 4 || payloadLength > MAX_PAYLOAD {
      return Rejected(BadLength);
    }
    var encodedSlot, storedCrc, marker := Read32(bytes, 32), Read32(bytes, 40), Read32(bytes, 44);
    var block := new byte[|bytes|](i requires 0 <= i < |bytes| => bytes[i]);
    assert block[..] == bytes;
    Blit(block, 40, Zeros(4));
    ClearedInPlace(bytes);
    var register := ComputeCrcUpdate(CRC_START, block[..HEADER_SIZE]);
    var calculatedCrc := CrcFinish(register);
    CrcOf(block[..HEADER_SIZE]);
    if version != VERSION || headerSize != HEADER_SIZE {
      return Rejected(BadVersion);
    }
    if encodedSlot != slot || marker != COMMIT_MARKER {
      return Rejected(BadCommit);
    }
    if storedCrc != calculatedCrc {
      return Rejected(BadCrc);
    }
    return Accepted(Header(slot, version, Read64(bytes, 16), payloadLength, Read32(bytes, 28), Read32(bytes, 36)));
  }

  lemma ClearedInPlace(bytes: seq<byte>)
    requires HEADER_SIZE <= |bytes|
    ensures Splice(bytes, 40, Zeros(4))[..HEADER_SIZE] == Cleared(bytes)
  {
  }

  /** `corrupt_block_byte`: the in-place mutation of one byte of one block,
      refusing a byte outside the block, a truncated block, and a mask that
      leaves the byte as it was. */
  method CorruptBlockByte(image: array<byte>, lba: nat, byteOffset: nat, mask: byte, bs: BlockSize)
    returns (ok: bool)
    modifies image
    ensures ok <==> byteOffset < bs && (lba + 1) * bs <= image.Length && mask != 0
    ensures ok ==> DifferOnlyAt(old(image[..]), image[..], lba * bs + byteOffset)
                   && image[lba * bs + byteOffset] == Xor(old(image[lba * bs + byteOffset]), mask)
    ensures !ok ==> image[..] == old(image[..])
  {
    if byteOffset >= bs || (lba + 1) * bs > image.Length {
      return false;
    }
    var at := lba * bs + byteOffset;
    assert at < image.Length by { assert (lba + 1) * bs == lba * bs + bs; }
    XorByte(image[at], mask);
    if mask == 0 {
      // The set of changed bytes is empty, which is not the byte asked for.
      return false;
    }
    ghost var before := image[..];
    image[at] := Xor(image[at], mask);
    assert DifferOnlyAt(before, image[..], at);
    return true;
  }
}
