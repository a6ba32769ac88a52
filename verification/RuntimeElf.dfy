// The fixed-window runtime image: its generator
// (scripts/create-runtime-user-elf.py), its verifier
// (scripts/verify-runtime-user-elf.py), and their agreement with each other
// and with the SDK verifier.
module RuntimeElf {
  import opened Bytes
  import opened Elf64

  const CODE_BASE: nat := 0x80_0000_0000
  const DATA_BASE: nat := 0x80_0000_2000
  const IMAGE_SIZE: nat := 0x3000

  const HEADER: ElfHeader := ElfHeader(2, 0x3E, 1, CODE_BASE, 64, 0, 0, 64, 56, 2, 0, 0, 0)
  const DATA_SEGMENT: ProgramHeader :=
    ProgramHeader(1, 6, DATA_OFFSET, DATA_BASE, 0, PAGE_SIZE, PAGE_SIZE, PAGE_SIZE)

  predicate Buildable(code: seq<byte>, data: seq<byte>) {
    1 <= |code| <= PAGE_SIZE && |data| <= PAGE_SIZE
  }

  function Padded(s: seq<byte>, n: nat): (r: seq<byte>)
    requires |s| <= n
    ensures |r| == n
  {
    s + Zeros(n - |s|)
  }

  /** The image of `build`. */
  function Image(code: seq<byte>, data: seq<byte>): (s: seq<byte>)
    requires Buildable(code, data)
    ensures |s| == IMAGE_SIZE
  {
    Padded(TwoSegmentHeaders(HEADER, CodeSegment(CODE_BASE, |code|), DATA_SEGMENT), CODE_OFFSET) + Padded(code, PAGE_SIZE) + Padded(data, PAGE_SIZE)
  }

  /** The checks of the runtime verifier. */
  predicate RuntimeAccepts(image: seq<byte>) {
    && |image| == IMAGE_SIZE
    && image[..16] == IDENT
    && ReadElfHeader(image, 16) == HEADER
    && var code, rw := ReadProgramHeader(image, 64), ReadProgramHeader(image, 120);
       && code.kind == 1 && code.flags == 5 && code.offset == CODE_OFFSET && code.vaddr == CODE_BASE && code.paddr == 0
       && code.filesz != 0 && code.filesz <= PAGE_SIZE && code.memsz == code.filesz && code.align == PAGE_SIZE
       && rw == DATA_SEGMENT
       && AllZero(image[HEADERS_END..CODE_OFFSET])
  }

  /** Where the parts of a generated image lie. */
  lemma ImageParts(code: seq<byte>, data: seq<byte>)
    requires Buildable(code, data)
    ensures var s := Image(code, data);
            && s[..HEADERS_END] == TwoSegmentHeaders(HEADER, CodeSegment(CODE_BASE, |code|), DATA_SEGMENT)
            && AllZero(s[HEADERS_END..CODE_OFFSET])
            && s[CODE_OFFSET..CODE_OFFSET + |code|] == code
            && AllZero(s[CODE_OFFSET + |code|..DATA_OFFSET])
            && s[DATA_OFFSET..] == Padded(data, PAGE_SIZE)
  {
    hide TwoSegmentHeaders;
  }

  /** The generator satisfies the verifier for every code of 1..4096 bytes and
      every data of at most 4096. */
  lemma BuildAccepted(code: seq<byte>, data: seq<byte>)
    requires Buildable(code, data)
    ensures RuntimeAccepts(Image(code, data))
    ensures ReadProgramHeader(Image(code, data), 64).filesz == |code|
  {
    hide TwoSegmentHeaders, ReadElfHeader, ReadProgramHeader, Image;
    ImageParts(code, data);
    TwoSegmentParts(Image(code, data), HEADER, CodeSegment(CODE_BASE, |code|), DATA_SEGMENT);
  }

  /** Bytes of an image determined by the runtime verifier's checks. */
  lemma AcceptedHeaders(image: seq<byte>)
    requires RuntimeAccepts(image)
    ensures image[..HEADERS_END] == TwoSegmentHeaders(HEADER, CodeSegment(CODE_BASE, ReadProgramHeader(image, 64).filesz), DATA_SEGMENT)
  {
    BytesOfElfHeader(image, 16);
    BytesOfProgramHeader(image, 64);
    BytesOfProgramHeader(image, 120);
    hide HeaderBytes, ProgramHeaderBytes, ReadElfHeader, ReadProgramHeader;
    HeaderPieces(image);
  }

  lemma HeaderPieces(image: seq<byte>)
    requires 176 <= |image|
    ensures image[..176] == image[..16] + image[16..64] + image[64..120] + image[120..176]
  {
  }

  /** The converse: the accepted images with nothing after their code are
      exactly the generated ones, byte for byte. */
  lemma AcceptedIsBuilt(image: seq<byte>)
    requires RuntimeAccepts(image)
    ensures var n := ReadProgramHeader(image, 64).filesz;
            var code, data := image[CODE_OFFSET..CODE_OFFSET + n], image[DATA_OFFSET..];
            Buildable(code, data)
            && (AllZero(image[CODE_OFFSET + n..DATA_OFFSET]) <==> image == Image(code, data))
  {
    hide TwoSegmentHeaders, ReadElfHeader, ReadProgramHeader, Image;
    AcceptedHeaders(image);
    var n := ReadProgramHeader(image, 64).filesz;
    var code, data := image[CODE_OFFSET..CODE_OFFSET + n], image[DATA_OFFSET..];
    assert AllZero(image[HEADERS_END..CODE_OFFSET]);
    hide RuntimeAccepts;
    ImageParts(code, data);
    if AllZero(image[CODE_OFFSET + n..DATA_OFFSET]) {
      Assembled(image, n);
    }
  }

  /** Exactly which images the verifier accepts: those whose first page is that
      of the image generated for their own code and data. */
  lemma AcceptsExactly(image: seq<byte>)
    requires |image| == 0x3000
    ensures RuntimeAccepts(image) <==>
              && 1 <= Read64(image, 96) <= 4096
              && image[..0x1000] == Image(image[0x1000..0x1000 + Read64(image, 96)], image[0x2000..])[..0x1000]
  {
    hide TwoSegmentHeaders, ReadElfHeader, ReadProgramHeader, Image, RuntimeAccepts, Field;
    LengthField(image);
    var n := Read64(image, 96);
    if 1 <= n <= 4096 {
      var code, data := image[0x1000..0x1000 + n], image[0x2000..];
      ImageParts(code, data);
      var s := Image(code, data);
      assert s[..0x1000] == s[..HEADERS_END] + s[HEADERS_END..CODE_OFFSET];
      assert image[..0x1000] == image[..HEADERS_END] + image[HEADERS_END..CODE_OFFSET];
      assert s[HEADERS_END..CODE_OFFSET] == Zeros(CODE_OFFSET - HEADERS_END);
      if RuntimeAccepts(image) {
        AcceptedHeaders(image);
        AcceptedZeros(image);
      }
      if image[..0x1000] == s[..0x1000] {
        assert image[..HEADERS_END] == image[..0x1000][..HEADERS_END] == s[..HEADERS_END];
        assert image[HEADERS_END..CODE_OFFSET] == image[..0x1000][HEADERS_END..] == s[HEADERS_END..CODE_OFFSET];
        TwoSegmentParts(image, HEADER, CodeSegment(CODE_BASE, n), DATA_SEGMENT);
        HeadersAccepted(image);
      }
    }
  }

  lemma LengthField(image: seq<byte>)
    requires |image| == 0x3000
    ensures ReadProgramHeader(image, 64).filesz == Read64(image, 96)
    ensures RuntimeAccepts(image) ==> 1 <= Read64(image, 96) <= 4096
  {
  }

  lemma AcceptedZeros(image: seq<byte>)
    requires RuntimeAccepts(image)
    ensures image[HEADERS_END..CODE_OFFSET] == Zeros(CODE_OFFSET - HEADERS_END)
  {
  }

  lemma HeadersAccepted(image: seq<byte>)
    requires |image| == 0x3000 && image[..16] == IDENT && ReadElfHeader(image, 16) == HEADER
    requires ReadProgramHeader(image, 120) == DATA_SEGMENT && AllZero(image[HEADERS_END..CODE_OFFSET])
    requires var p := ReadProgramHeader(image, 64); p == CodeSegment(CODE_BASE, p.filesz) && 1 <= p.filesz <= 4096
    ensures RuntimeAccepts(image)
  {
    hide ReadElfHeader, ReadProgramHeader;
  }

  lemma Assembled(image: seq<byte>, n: u64)
    requires |image| == IMAGE_SIZE && 0 < n <= PAGE_SIZE
    requires image[..HEADERS_END] == TwoSegmentHeaders(HEADER, CodeSegment(CODE_BASE, n), DATA_SEGMENT) && AllZero(image[HEADERS_END..CODE_OFFSET])
    requires AllZero(image[CODE_OFFSET + n..DATA_OFFSET])
    ensures image == Image(image[CODE_OFFSET..CODE_OFFSET + n], image[DATA_OFFSET..])
  {
    hide TwoSegmentHeaders;
    var code, data := image[CODE_OFFSET..CODE_OFFSET + n], image[DATA_OFFSET..];
    assert image[HEADERS_END..CODE_OFFSET] == Zeros(CODE_OFFSET - HEADERS_END);
    assert image[CODE_OFFSET + n..DATA_OFFSET] == Zeros(PAGE_SIZE - n);
    assert Padded(data, PAGE_SIZE) == data;
    assert Padded(code, PAGE_SIZE) == image[CODE_OFFSET..DATA_OFFSET];
    assert Padded(TwoSegmentHeaders(HEADER, CodeSegment(CODE_BASE, n), DATA_SEGMENT), CODE_OFFSET) == image[..CODE_OFFSET];
    assert image == image[..CODE_OFFSET] + image[CODE_OFFSET..DATA_OFFSET] + image[DATA_OFFSET..];
  }

  /** The window an accepted image is linked for: entry point, code and data
      addresses, and the sizes of its two segments. */
  lemma AcceptedWindow(image: seq<byte>)
    requires RuntimeAccepts(image)
    ensures |image| == 0x3000 && Read64(image, 24) == 0x80_0000_0000 && Read64(image, 80) == 0x80_0000_0000
    ensures Read64(image, 96) == Read64(image, 104) && 1 <= Read64(image, 96) <= 4096
    ensures Read64(image, 136) == 0x80_0000_2000 && Read64(image, 152) == 0x1000 && Read64(image, 160) == 0x1000
    ensures Read32(image, 68) == 5 && Read32(image, 124) == 6
  {
    hide Field;
    assert ReadElfHeader(image, 16).entry == Read64(image, 24);
    var code, data := ReadProgramHeader(image, 64), ReadProgramHeader(image, 120);
    assert code.vaddr == Read64(image, 80) && code.filesz == Read64(image, 96) && code.memsz == Read64(image, 104);
    assert data.vaddr == Read64(image, 136) && data.filesz == Read64(image, 152) && data.memsz == Read64(image, 160);
  }

  /** Every image the runtime verifier accepts the SDK verifier accepts. */
  lemma RuntimeImpliesSdk(image: seq<byte>)
    requires RuntimeAccepts(image)
    ensures SdkAccepts(image)
  {
    hide ReadElfHeader, ReadProgramHeader, ScanOk, Segments;
    var p := ReadProgramHeader(image, 64);
    assert Segment(image, 0) == p && Segment(image, 1) == DATA_SEGMENT;
    var segments := Segments(image, 2);
    assert segments[0] == p && segments[1] == DATA_SEGMENT;
    CodeSegmentOk(p);
    DataSegmentOk();
    assert Executable(segments[0].flags) && Contains(segments[0], CODE_BASE);
    SdkLayout(image);
  }

  lemma CodeSegmentOk(p: ProgramHeader)
    requires p == CodeSegment(CODE_BASE, p.filesz) && 0 < p.filesz <= PAGE_SIZE
    ensures SegmentOk(p, IMAGE_SIZE) && PageCeil(EndOf(p)) <= DATA_BASE && !Writable(p.flags)
    ensures Executable(p.flags) && Contains(p, CODE_BASE)
  {
  }

  lemma DataSegmentOk()
    ensures SegmentOk(DATA_SEGMENT, IMAGE_SIZE)
  {
  }

  datatype BuildResult = Built(image: seq<byte>) | BadCode | BadData

  lemma PaddedParts(h: seq<byte>, code: seq<byte>, data: seq<byte>)
    requires |h| <= CODE_OFFSET && |code| <= PAGE_SIZE && |data| <= PAGE_SIZE
    ensures Padded(h, CODE_OFFSET) + Padded(code, PAGE_SIZE) + Padded(data, PAGE_SIZE)
            == h + Zeros(CODE_OFFSET - |h|) + code + Zeros(PAGE_SIZE - |code|) + (data + Zeros(PAGE_SIZE - |data|))
  {
  }

  /** `build`, with the image filled in place by slice assignments. */
  method Build(code: seq<byte>, data: seq<byte>) returns (r: BuildResult)
    ensures r == if |code| == 0 || |code| > PAGE_SIZE then BadCode
                 else if |data| > PAGE_SIZE then BadData
                 else Built(Image(code, data))
  {
    hide HeaderBytes, ProgramHeaderBytes, Splice;
    if |code| == 0 || |code| > PAGE_SIZE {
      return BadCode;
    }
    if |data| > PAGE_SIZE {
      return BadData;
    }
    var paddedData := data + Zeros(PAGE_SIZE - |data|);
    var image := new byte[DATA_OFFSET + |paddedData|](i => 0);
    ghost var blank := image[..];
    Blit(image, 0, Zeros(IMAGE_SIZE));
    assert image[..] == Zeros(IMAGE_SIZE) by { SpliceReads(blank, 0, Zeros(IMAGE_SIZE)); }
    Blit(image, 0, IDENT + HeaderBytes(HEADER));
    Blit(image, 64, ProgramHeaderBytes(CodeSegment(CODE_BASE, |code|)));
    Blit(image, 120, ProgramHeaderBytes(DATA_SEGMENT));
    HeadersFilled(IMAGE_SIZE, IDENT + HeaderBytes(HEADER), ProgramHeaderBytes(CodeSegment(CODE_BASE, |code|)),
                  ProgramHeaderBytes(DATA_SEGMENT));
    Blit(image, CODE_OFFSET, code);
    Blit(image, DATA_OFFSET, paddedData);
    BodyFilled(TwoSegmentHeaders(HEADER, CodeSegment(CODE_BASE, |code|), DATA_SEGMENT), CODE_OFFSET, code, DATA_OFFSET, paddedData);
    PaddedParts(TwoSegmentHeaders(HEADER, CodeSegment(CODE_BASE, |code|), DATA_SEGMENT), code, data);
    return Built(image[..]);
  }
}
