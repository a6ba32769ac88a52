// The 32-bit program images stored on the FAT12 volume: `build_elf`
// (scripts/create-legacy-fat12.py) against `verify_elf`
// (scripts/verify-legacy-bios.py).
module LegacyElf {
  import opened Bytes

  const BASE: nat := 0x0040_0000
  const SEGMENT_OFFSET: nat := 0x100
  const HEADERS_END: nat := 84

  /** Identity, file header and program header. */
  function Headers(size: u32, memorySize: u32): (s: seq<byte>)
    ensures |s| == HEADERS_END
  {
    [0x7F, 0x45, 0x4C, 0x46, 1, 1, 1, 0, 0, 0, 0, 0, 0, 0, 0, 0]
    + Le(2, 2) + Le(3, 2) + Le(1, 4) + Le(BASE, 4) + Le(52, 4) + Zeros(8) + Le(52, 2) + Le(32, 2) + Le(1, 2) + Zeros(6)
    + Le(1, 4) + Le(SEGMENT_OFFSET, 4) + Le(BASE, 4) + Le(BASE, 4) + Le(size, 4) + Le(memorySize, 4)
    + Le(5, 4) + Le(0x1000, 4)
  }

  function Image(segment: seq<byte>, memorySize: u32): (s: seq<byte>)
    requires |segment| < 0x1_0000_0000
    ensures |s| == SEGMENT_OFFSET + |segment|
  {
    Headers(|segment|, memorySize) + Zeros(SEGMENT_OFFSET - HEADERS_END) + segment
  }

  /** `verify_elf`. */
  predicate Accepts(data: seq<byte>) {
    && |data| >= HEADERS_END
    && data[..4] == [0x7F, 0x45, 0x4C, 0x46]
    && data[4..7] == [1, 1, 1]
    && Read16(data, 16) == 2 && Read16(data, 18) == 3
    && Read32(data, 24) == BASE
    && Read32(data, 28) == 52
    && Read16(data, 42) == 32 && Read16(data, 44) == 1
    && Read32(data, 52) == 1 && Read32(data, 56) == SEGMENT_OFFSET && Read32(data, 60) == BASE
    && Read32(data, 56) + Read32(data, 68) == |data|
    && Read32(data, 72) >= Read32(data, 68) && Read32(data, 72) <= 4096 && Read32(data, 76) == 5
  }

  lemma Laid(a: seq<byte>, b: seq<byte>, c: seq<byte>, d: seq<byte>, e: seq<byte>, f: seq<byte>, g: seq<byte>,
             h: seq<byte>, i: seq<byte>, j: seq<byte>, k: seq<byte>)
    requires |a| == 16 && |b| == |c| == |h| == |i| == |j| == 2 && |d| == |e| == |f| == 4 && |g| == 8 && |k| == 6
    ensures var s := a + b + c + d + e + f + g + h + i + j + k;
            && |s| == 52 && s[0..16] == a && s[16..18] == b && s[18..20] == c && s[24..28] == e && s[28..32] == f
            && s[42..44] == i && s[44..46] == j
  {
  }

  lemma ProgramLaid(p: seq<byte>, a: seq<byte>, b: seq<byte>, c: seq<byte>, d: seq<byte>, e: seq<byte>, f: seq<byte>,
                    g: seq<byte>, h: seq<byte>)
    requires |p| == 52 && |a| == |b| == |c| == |d| == |e| == |f| == |g| == |h| == 4
    ensures var s := p + a + b + c + d + e + f + g + h;
            && |s| == 84 && s[0..52] == p && s[52..56] == a && s[56..60] == b && s[60..64] == c && s[68..72] == e
            && s[72..76] == f && s[76..80] == g
  {
  }

  /** The verifier accepts a generated image exactly when its memory size
      covers the segment and stays within one page. */
  lemma AcceptsExactly(segment: seq<byte>, memorySize: u32)
    requires |segment| < 0x1_0000_0000
    ensures Accepts(Image(segment, memorySize)) <==> |segment| <= memorySize <= 4096
  {
    hide Le;
    var s := Headers(|segment|, memorySize);
    HeaderSlices(|segment|, memorySize);
    Fields(s, |segment|, memorySize);
    var image := Image(segment, memorySize);
    hide Headers;
    assert image[0..HEADERS_END] == s;
    FieldShift(image, 0, s);
    assert Field(s, 16, 2) == Field(image, 0 + 16, 2) && Field(s, 18, 2) == Field(image, 0 + 18, 2);
    assert Field(s, 24, 4) == Field(image, 0 + 24, 4) && Field(s, 28, 4) == Field(image, 0 + 28, 4);
    assert Field(s, 42, 2) == Field(image, 0 + 42, 2) && Field(s, 44, 2) == Field(image, 0 + 44, 2);
    assert Field(s, 52, 4) == Field(image, 0 + 52, 4) && Field(s, 56, 4) == Field(image, 0 + 56, 4);
    assert Field(s, 60, 4) == Field(image, 0 + 60, 4) && Field(s, 68, 4) == Field(image, 0 + 68, 4);
    assert Field(s, 72, 4) == Field(image, 0 + 72, 4) && Field(s, 76, 4) == Field(image, 0 + 76, 4);
    SubSlice(image, 0, s, 0, 4);
    SubSlice(image, 0, s, 4, 7);
  }

  /** The header fields of the generated images, byte by byte. */
  lemma HeadersAre(size: u32, memorySize: u32)
    ensures var s := Headers(size, memorySize);
            && s[0..16] == [0x7F, 0x45, 0x4C, 0x46, 1, 1, 1, 0, 0, 0, 0, 0, 0, 0, 0, 0]
            && s[16..18] == [2, 0] && s[18..20] == [3, 0] && s[24..28] == [0, 0, 0x40, 0] && s[28..32] == [52, 0, 0, 0]
            && s[42..44] == [32, 0] && s[44..46] == [1, 0]
            && s[52..56] == [1, 0, 0, 0] && s[56..60] == [0, 1, 0, 0] && s[60..64] == [0, 0, 0x40, 0]
            && s[68..72] == Le(size, 4) && s[72..76] == Le(memorySize, 4) && s[76..80] == [5, 0, 0, 0]
  {
    hide Headers, Le;
    HeaderSlices(size, memorySize);
    ShortConstants();
    LongConstants();
  }

  lemma ShortConstants()
    ensures Le(2, 2) == [2, 0] && Le(3, 2) == [3, 0] && Le(32, 2) == [32, 0] && Le(1, 2) == [1, 0]
  {
    TwoBytes(2); TwoBytes(3); TwoBytes(32); TwoBytes(1);
  }

  lemma LongConstants()
    ensures Le(1, 4) == [1, 0, 0, 0] && Le(52, 4) == [52, 0, 0, 0] && Le(5, 4) == [5, 0, 0, 0]
    ensures Le(BASE, 4) == [0, 0, 0x40, 0] && Le(SEGMENT_OFFSET, 4) == [0, 1, 0, 0]
  {
    FourBytes(1); FourBytes(52); FourBytes(5); FourBytes(BASE); FourBytes(SEGMENT_OFFSET);
    hide Le;
  }

  lemma HeaderSlices(size: u32, memorySize: u32)
    ensures var s := Headers(size, memorySize);
            && s[0..16] == [0x7F, 0x45, 0x4C, 0x46, 1, 1, 1, 0, 0, 0, 0, 0, 0, 0, 0, 0]
            && s[16..18] == Le(2, 2) && s[18..20] == Le(3, 2) && s[24..28] == Le(BASE, 4) && s[28..32] == Le(52, 4)
            && s[42..44] == Le(32, 2) && s[44..46] == Le(1, 2)
            && s[52..56] == Le(1, 4) && s[56..60] == Le(SEGMENT_OFFSET, 4) && s[60..64] == Le(BASE, 4)
            && s[68..72] == Le(size, 4) && s[72..76] == Le(memorySize, 4) && s[76..80] == Le(5, 4)
  {
    hide Le;
    var ident := [0x7F, 0x45, 0x4C, 0x46, 1, 1, 1, 0, 0, 0, 0, 0, 0, 0, 0, 0];
    var head := ident + Le(2, 2) + Le(3, 2) + Le(1, 4) + Le(BASE, 4) + Le(52, 4) + Zeros(8) + Le(52, 2) + Le(32, 2)
                + Le(1, 2) + Zeros(6);
    Laid(ident, Le(2, 2), Le(3, 2), Le(1, 4), Le(BASE, 4), Le(52, 4), Zeros(8), Le(52, 2), Le(32, 2), Le(1, 2), Zeros(6));
    ProgramLaid(head, Le(1, 4), Le(SEGMENT_OFFSET, 4), Le(BASE, 4), Le(BASE, 4), Le(size, 4), Le(memorySize, 4), Le(5, 4),
                Le(0x1000, 4));
    var s := Headers(size, memorySize);
    HeadSlices(s, head);
  }

  lemma HeadSlices(s: seq<byte>, head: seq<byte>)
    requires |s| == 84 && |head| == 52 && s[0..52] == head
    ensures s[0..16] == head[0..16] && s[16..18] == head[16..18] && s[18..20] == head[18..20] && s[24..28] == head[24..28]
    ensures s[28..32] == head[28..32] && s[42..44] == head[42..44] && s[44..46] == head[44..46]
  {
  }

  lemma TwoBytes(n: nat)
    ensures Le(n, 2) == [n % 256, n / 256 % 256]
  {
    assert Le(n / 256, 1) == [n / 256 % 256] + Le(n / 256 / 256, 0);
  }

  lemma FourBytes(n: nat)
    ensures Le(n, 4) == [n % 256, n / 256 % 256, n / 256 / 256 % 256, n / 256 / 256 / 256 % 256]
  {
    TwoBytes(n / 256 / 256);
    assert Le(n / 256, 3) == [n / 256 % 256] + Le(n / 256 / 256, 2);
  }

  lemma Fields(s: seq<byte>, size: u32, memorySize: u32)
    requires |s| == 84 && s[0..16] == [0x7F, 0x45, 0x4C, 0x46, 1, 1, 1, 0, 0, 0, 0, 0, 0, 0, 0, 0]
    requires s[16..18] == Le(2, 2) && s[18..20] == Le(3, 2) && s[24..28] == Le(BASE, 4)
    requires s[28..32] == Le(52, 4) && s[42..44] == Le(32, 2) && s[44..46] == Le(1, 2)
    requires s[52..56] == Le(1, 4) && s[56..60] == Le(SEGMENT_OFFSET, 4) && s[60..64] == Le(BASE, 4)
    requires s[68..72] == Le(size, 4) && s[72..76] == Le(memorySize, 4) && s[76..80] == Le(5, 4)
    ensures s[0..4] == [0x7F, 0x45, 0x4C, 0x46] && s[4..7] == [1, 1, 1]
    ensures Field(s, 16, 2) == 2 && Field(s, 18, 2) == 3 && Field(s, 24, 4) == BASE && Field(s, 28, 4) == 52
    ensures Field(s, 42, 2) == 32 && Field(s, 44, 2) == 1 && Field(s, 52, 4) == 1
    ensures Field(s, 56, 4) == SEGMENT_OFFSET && Field(s, 60, 4) == BASE && Field(s, 68, 4) == size
    ensures Field(s, 72, 4) == memorySize && Field(s, 76, 4) == 5
  {
    hide Le, UnLe;
    Widths();
    SubSlice(s, 0, s[0..16], 0, 4); SubSlice(s, 0, s[0..16], 4, 7);
    assert s[0..16][0..4] == [0x7F, 0x45, 0x4C, 0x46];
    assert s[0..16][4..7] == [1, 1, 1];
    FieldOfLe(s, 16, 2, 2); FieldOfLe(s, 18, 2, 3); FieldOfLe(s, 24, 4, BASE); FieldOfLe(s, 28, 4, 52);
    FieldOfLe(s, 42, 2, 32); FieldOfLe(s, 44, 2, 1); FieldOfLe(s, 52, 4, 1); FieldOfLe(s, 56, 4, SEGMENT_OFFSET);
    FieldOfLe(s, 60, 4, BASE); FieldOfLe(s, 68, 4, size); FieldOfLe(s, 72, 4, memorySize); FieldOfLe(s, 76, 4, 5);
  }

  /** `build_elf`. */
  method BuildElf(segment: seq<byte>, memorySize: u32) returns (image: seq<byte>)
    requires |segment| < 0x1_0000_0000
    ensures image == Image(segment, memorySize)
  {
    hide Headers;
    var elf := new byte[SEGMENT_OFFSET + |segment|](i => 0);
    Blit(elf, 0, Zeros(elf.Length));
    Blit(elf, 0, Headers(|segment|, memorySize));
    Blit(elf, SEGMENT_OFFSET, segment);
    assert elf[..] == Image(segment, memorySize);
    image := elf[..];
  }
}
