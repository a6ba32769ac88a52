// The sealed service image (scripts/create-x86-64-user-elf.py) and its
// verifier (scripts/verify-x86-64-user-elf.py) without the constants pinned to
// one build.
module UserElf {
  import opened Bytes
  import opened Checksums
  import opened Elf64

  const CODE_BASE: nat := 0x80_0010_0000
  const DATA_BASE: nat := 0x80_0010_2000
  const DATA_FILE_SIZE: nat := 0x800
  const DATA_MEMORY_SIZE: nat := 0x2000
  const IMAGE_SIZE: nat := 0x2800
  const MARKER: nat := 0x4543_4956_5245_5336
  const CODE_SEAL: nat := 0x7C8
  const DATA_SEAL: nat := 0x7D0

  /** "ZigOs x86-64 ELF64 service active." */
  const MESSAGE: seq<byte> :=
    [0x5A, 0x69, 0x67, 0x4F, 0x73, 0x20, 0x78, 0x38, 0x36, 0x2D, 0x36, 0x34, 0x20, 0x45, 0x4C, 0x46, 0x36,
     0x34, 0x20, 0x73, 0x65, 0x72, 0x76, 0x69, 0x63, 0x65, 0x20, 0x61, 0x63, 0x74, 0x69, 0x76, 0x65, 0x2E]

  /** "PIPE64-PAYLOAD-VERIFIED!" */
  const PIPE_PAYLOAD: seq<byte> :=
    [0x50, 0x49, 0x50, 0x45, 0x36, 0x34, 0x2D, 0x50, 0x41, 0x59, 0x4C, 0x4F,
     0x41, 0x44, 0x2D, 0x56, 0x45, 0x52, 0x49, 0x46, 0x49, 0x45, 0x44, 0x21]

  const HEADER: ElfHeader := ElfHeader(2, 0x3E, 1, CODE_BASE, 64, 0, 0, 64, 56, 2, 0, 0, 0)
  const DATA_SEGMENT: ProgramHeader :=
    ProgramHeader(1, 6, DATA_OFFSET, DATA_BASE, 0, DATA_FILE_SIZE, DATA_MEMORY_SIZE, PAGE_SIZE)

  function Hash(s: seq<byte>): (h: u64) {
    FnvUpdateBound(FNV64, FNV64.offset, s);
    Fnv1a(FNV64, s)
  }

  /** The data segment up to the second seal. */
  function SealedData(code: seq<byte>): (s: seq<byte>)
    ensures |s| == DATA_SEAL
  {
    Zeros(0x400) + MESSAGE + Zeros(30) + PIPE_PAYLOAD + Zeros(0x368) + Le(MARKER, 8) + Le(Hash(code), 8)
  }

  function DataBytes(code: seq<byte>): (s: seq<byte>)
    ensures |s| == DATA_FILE_SIZE
  {
    SealedData(code) + Le(Hash(SealedData(code)), 8) + Zeros(40)
  }

  /** The image of `build_elf`. */
  function Image(code: seq<byte>): (s: seq<byte>)
    requires 1 <= |code| <= PAGE_SIZE
    ensures |s| == IMAGE_SIZE
  {
    TwoSegmentHeaders(HEADER, CodeSegment(CODE_BASE, |code|), DATA_SEGMENT) + Zeros(CODE_OFFSET - HEADERS_END) + code + Zeros(PAGE_SIZE - |code|) + DataBytes(code)
  }

  /** The structural checks of the verifier. */
  predicate StructureOk(image: seq<byte>) {
    && |image| == IMAGE_SIZE
    && image[..8] == IDENT[..8]
    && ReadElfHeader(image, 16) == HEADER
    && var text := ReadProgramHeader(image, 64);
       && text == CodeSegment(CODE_BASE, text.filesz) && 0 < text.filesz <= PAGE_SIZE
       && ReadProgramHeader(image, 120) == DATA_SEGMENT
  }

  function CodeLength(image: seq<byte>): nat
    requires |image| == IMAGE_SIZE
  {
    ReadProgramHeader(image, 64).filesz
  }

  function CodeOf(image: seq<byte>): seq<byte>
    requires |image| == IMAGE_SIZE && CodeLength(image) <= PAGE_SIZE
  {
    image[CODE_OFFSET..CODE_OFFSET + CodeLength(image)]
  }

  function DataOf(image: seq<byte>): (s: seq<byte>)
    requires |image| == IMAGE_SIZE
    ensures |s| == DATA_FILE_SIZE
  {
    image[DATA_OFFSET..DATA_OFFSET + DATA_FILE_SIZE]
  }

  /** The content checks: message, pipe payload, marker and the two seals. */
  predicate SealsOk(image: seq<byte>)
    requires |image| == IMAGE_SIZE && CodeLength(image) <= PAGE_SIZE
  {
    var data := DataOf(image);
    && data[0x400..0x422] == MESSAGE
    && data[0x440..0x458] == PIPE_PAYLOAD
    && Read64(data, 0x7C0) == MARKER
    && Read64(data, CODE_SEAL) == Hash(CodeOf(image))
    && Read64(data, DATA_SEAL) == Hash(data[..DATA_SEAL])
  }

  predicate Accepts(image: seq<byte>) {
    StructureOk(image) && SealsOk(image)
  }

  // ------------------------------------------------ generator and verifier

  lemma ImageParts(code: seq<byte>)
    requires 1 <= |code| <= PAGE_SIZE
    ensures var s := Image(code);
            && s[..HEADERS_END] == TwoSegmentHeaders(HEADER, CodeSegment(CODE_BASE, |code|), DATA_SEGMENT)
            && s[CODE_OFFSET..CODE_OFFSET + |code|] == code
            && s[DATA_OFFSET..DATA_OFFSET + DATA_FILE_SIZE] == DataBytes(code)
  {
    hide TwoSegmentHeaders, DataBytes;
  }

  lemma DataLaid(a: seq<byte>, m: seq<byte>, b: seq<byte>, p: seq<byte>, c: seq<byte>, u: seq<byte>, v: seq<byte>)
    requires |a| == 0x400 && |m| == 34 && |b| == 30 && |p| == 24 && |c| == 0x368 && |u| == |v| == 8
    ensures var s := a + m + b + p + c + u + v;
            && |s| == DATA_SEAL && s[0x400..0x422] == m && s[0x440..0x458] == p
            && s[0x7C0..0x7C8] == u && s[CODE_SEAL..CODE_SEAL + 8] == v
  {
  }

  lemma DataParts(code: seq<byte>)
    ensures var d := DataBytes(code);
            && d[0x400..0x422] == MESSAGE && d[0x440..0x458] == PIPE_PAYLOAD
            && d[..DATA_SEAL] == SealedData(code)
            && d[0x7C0..0x7C8] == Le(MARKER, 8) && d[CODE_SEAL..CODE_SEAL + 8] == Le(Hash(code), 8)
            && d[DATA_SEAL..DATA_SEAL + 8] == Le(Hash(SealedData(code)), 8)
  {
    hide Hash, Le;
    var s := SealedData(code);
    DataLaid(Zeros(0x400), MESSAGE, Zeros(30), PIPE_PAYLOAD, Zeros(0x368), Le(MARKER, 8), Le(Hash(code), 8));
    var d := DataBytes(code);
    assert d[..DATA_SEAL] == s;
    SubSlice(d, 0, s, 0x400, 0x422);
    SubSlice(d, 0, s, 0x440, 0x458);
    SubSlice(d, 0, s, 0x7C0, 0x7C8);
    SubSlice(d, 0, s, CODE_SEAL, CODE_SEAL + 8);
  }

  /** Every generated image passes its verifier and the SDK verifier. */
  lemma BuildAccepted(code: seq<byte>)
    requires 1 <= |code| <= PAGE_SIZE
    ensures Accepts(Image(code)) && CodeOf(Image(code)) == code && SdkAccepts(Image(code))
  {
    hide TwoSegmentHeaders, ReadElfHeader, ReadProgramHeader, Image, DataBytes, SealsOk, SdkAccepts;
    var image := Image(code);
    ImageParts(code);
    TwoSegmentParts(image, HEADER, CodeSegment(CODE_BASE, |code|), DATA_SEGMENT);
    assert image[..8] == image[..16][..8];
    SealsWritten(image, code);
    StructureImpliesSdk(image);
  }

  lemma SealsWritten(image: seq<byte>, code: seq<byte>)
    requires |image| == IMAGE_SIZE && CodeLength(image) <= PAGE_SIZE && CodeOf(image) == code
    requires DataOf(image) == DataBytes(code)
    ensures SealsOk(image)
  {
    DataParts(code);
    hide DataBytes, SealedData, Hash, Le, CodeOf;
    var d := DataBytes(code);
    Widths();
    FieldOfLe(d, 0x7C0, 8, MARKER);
    FieldOfLe(d, CODE_SEAL, 8, Hash(code));
    FieldOfLe(d, DATA_SEAL, 8, Hash(d[..DATA_SEAL]));
  }

  /** The structural checks and the identity bytes imply the SDK verifier's. */
  lemma StructureImpliesSdk(image: seq<byte>)
    requires StructureOk(image) && image[..16] == IDENT
    ensures SdkAccepts(image)
  {
    hide ReadElfHeader, ReadProgramHeader, ScanOk, Segments;
    var p := ReadProgramHeader(image, 64);
    assert Segment(image, 0) == p && Segment(image, 1) == DATA_SEGMENT;
    var segments := Segments(image, 2);
    assert segments[0] == p && segments[1] == DATA_SEGMENT;
    SegmentsOk(p.filesz);
    assert Executable(segments[0].flags) && Contains(segments[0], CODE_BASE);
    SdkLayout(image);
  }

  lemma SegmentsOk(n: u64)
    requires 0 < n <= PAGE_SIZE
    ensures SegmentOk(CodeSegment(CODE_BASE, n), IMAGE_SIZE) && SegmentOk(DATA_SEGMENT, IMAGE_SIZE)
    ensures PageCeil(EndOf(CodeSegment(CODE_BASE, n))) <= DATA_BASE && !Writable(CodeSegment(CODE_BASE, n).flags)
    ensures Executable(CodeSegment(CODE_BASE, n).flags) && Contains(CodeSegment(CODE_BASE, n), CODE_BASE)
  {
  }

  /** Exactly which images the verifier accepts: those that agree with the
      generated image of their own code in identity, headers, message, payload,
      marker and code hash, and whose last seal is over their own data. */
  lemma AcceptsExactly(image: seq<byte>)
    requires |image| == 0x2800
    ensures Accepts(image) <==>
              && 1 <= Read64(image, 96) <= 4096
              && var s := Image(image[0x1000..0x1000 + Read64(image, 96)]);
                 && image[..8] == s[..8] && image[16..64] == s[16..64]
                 && image[64..120] == s[64..120] && image[120..176] == s[120..176]
                 && image[0x2400..0x2422] == s[0x2400..0x2422] && image[0x2440..0x2458] == s[0x2440..0x2458]
                 && image[0x27C0..0x27C8] == s[0x27C0..0x27C8] && image[0x27C8..0x27D0] == s[0x27C8..0x27D0]
                 && image[0x27D0..0x27D8] == Le(Fnv1a(FNV64, image[0x2000..0x27D0]), 8)
  {
    hide Le, UnLe, Fnv1a, Image, ReadElfHeader, ReadProgramHeader, HeaderBytes, ProgramHeaderBytes, StructureOk, SealsOk;
    LengthField(image);
    if 1 <= Read64(image, 96) <= 4096 {
      StructureExactly(image);
      SealsExactly(image);
    } else {
      StructureLength(image);
    }
  }

  lemma LengthField(image: seq<byte>)
    requires |image| == IMAGE_SIZE
    ensures CodeLength(image) == Read64(image, 96)
  {
  }

  lemma StructureLength(image: seq<byte>)
    requires |image| == IMAGE_SIZE
    ensures StructureOk(image) ==> 1 <= CodeLength(image) <= 4096
  {
  }

  lemma StructureExactly(image: seq<byte>)
    requires |image| == IMAGE_SIZE && 1 <= CodeLength(image) <= 4096
    ensures var s := Image(CodeOf(image));
            StructureOk(image) <==> && image[..8] == s[..8] && image[16..64] == s[16..64]
                                    && image[64..120] == s[64..120] && image[120..176] == s[120..176]
  {
    hide Le, UnLe, Image, ReadElfHeader, ReadProgramHeader, HeaderBytes, ProgramHeaderBytes;
    var code := CodeOf(image);
    var s := Image(code);
    ImageParts(code);
    HeaderParts(s, HEADER, CodeSegment(CODE_BASE, |code|), DATA_SEGMENT);
    TwoSegmentParts(s, HEADER, CodeSegment(CODE_BASE, |code|), DATA_SEGMENT);
    assert s[..8] == s[..16][..8];
    BytesOfElfHeader(image, 16);
    BytesOfProgramHeader(image, 64);
    BytesOfProgramHeader(image, 120);
    if image[16..64] == s[16..64] {
      ReadElfHeaderOfBytes(image, 16, HEADER);
    }
    if image[64..120] == s[64..120] {
      ReadProgramHeaderOfBytes(image, 64, CodeSegment(CODE_BASE, |code|));
    }
    if image[120..176] == s[120..176] {
      ReadProgramHeaderOfBytes(image, 120, DATA_SEGMENT);
    }
  }

  lemma HeaderParts(image: seq<byte>, h: ElfHeader, code: ProgramHeader, data: ProgramHeader)
    requires HEADERS_END <= |image| && image[..HEADERS_END] == TwoSegmentHeaders(h, code, data)
    ensures image[16..64] == HeaderBytes(h) && image[64..120] == ProgramHeaderBytes(code)
    ensures image[120..176] == ProgramHeaderBytes(data)
  {
    hide HeaderBytes, ProgramHeaderBytes;
    var s := TwoSegmentHeaders(h, code, data);
    assert s[16..64] == HeaderBytes(h) && s[64..120] == ProgramHeaderBytes(code) && s[120..176] == ProgramHeaderBytes(data);
    SubSlice(image, 0, s, 16, 64);
    SubSlice(image, 0, s, 64, 120);
    SubSlice(image, 0, s, 120, 176);
  }

  lemma SealsExactly(image: seq<byte>)
    requires |image| == IMAGE_SIZE && 1 <= CodeLength(image) <= 4096
    ensures var s := Image(CodeOf(image));
            SealsOk(image) <==>
              && image[0x2400..0x2422] == s[0x2400..0x2422] && image[0x2440..0x2458] == s[0x2440..0x2458]
              && image[0x27C0..0x27C8] == s[0x27C0..0x27C8] && image[0x27C8..0x27D0] == s[0x27C8..0x27D0]
              && image[0x27D0..0x27D8] == Le(Fnv1a(FNV64, image[0x2000..0x27D0]), 8)
  {
    hide Le, UnLe, Image, Fnv1a, CodeLength;
    var code, d := CodeOf(image), DataOf(image);
    SealedLayout(code);
    MarkerBytes();
    SubSlice(image, 0x2000, d, 0x400, 0x422); SubSlice(image, 0x2000, d, 0x440, 0x458);
    SubSlice(image, 0x2000, d, 0x7C0, 0x7C8); SubSlice(image, 0x2000, d, 0x7C8, 0x7D0);
    SubSlice(image, 0x2000, d, 0x7D0, 0x7D8); SubSlice(image, 0x2000, d, 0, 0x7D0);
    assert d[0..0x7D0] == d[..0x7D0];
    SealIs(d, 0x7C0, MARKER);
    SealIs(d, 0x7C8, Hash(code));
    SealIs(d, 0x7D0, Hash(d[..0x7D0]));
  }

  lemma SealIs(d: seq<byte>, o: nat, n: u64)
    requires o + 8 <= |d|
    ensures Read64(d, o) == n <==> d[o..o + 8] == Le(n, 8)
  {
    hide Le, UnLe;
    Widths();
    FieldBytes(d, o, 8);
    if d[o..o + 8] == Le(n, 8) {
      FieldOfLe(d, o, 8, n);
    }
  }

  /** The window an accepted image is linked for: entry point, code and data
      addresses, and the sizes of its two segments. */
  lemma AcceptedWindow(image: seq<byte>)
    requires StructureOk(image)
    ensures Read64(image, 24) == 0x80_0010_0000 && Read64(image, 80) == 0x80_0010_0000
    ensures Read64(image, 96) == Read64(image, 104) && 1 <= Read64(image, 96) <= 4096
    ensures Read64(image, 136) == 0x80_0010_2000 && Read64(image, 152) == 0x800 && Read64(image, 160) == 0x2000
    ensures Read32(image, 68) == 5 && Read32(image, 124) == 6
  {
    hide Field;
    assert ReadElfHeader(image, 16).entry == Read64(image, 24);
    var text, data := ReadProgramHeader(image, 64), ReadProgramHeader(image, 120);
    assert text.vaddr == Read64(image, 80) && text.filesz == Read64(image, 96) && text.memsz == Read64(image, 104);
    assert data.vaddr == Read64(image, 136) && data.filesz == Read64(image, 152) && data.memsz == Read64(image, 160);
  }

  /** Where the parts of a generated image are: code, message, pipe payload,
      marker, the hash of the code, and the hash of all data before it. */
  lemma SealedLayout(code: seq<byte>)
    requires 1 <= |code| <= PAGE_SIZE
    ensures var s := Image(code);
            && |s| == 0x2800 && s[0x1000..0x1000 + |code|] == code
            && s[0x2400..0x2422] == MESSAGE && s[0x2440..0x2458] == PIPE_PAYLOAD
            && s[0x27C0..0x27C8] == [0x36, 0x53, 0x45, 0x52, 0x56, 0x49, 0x43, 0x45]
            && s[0x27C8..0x27D0] == Le(Fnv1a(FNV64, code), 8)
            && s[0x27D0..0x27D8] == Le(Fnv1a(FNV64, s[0x2000..0x27D0]), 8)
  {
    hide Le, Image, DataBytes, SealedData, Fnv1a;
    ImageParts(code);
    DataParts(code);
    MarkerBytes();
    var s, d := Image(code), DataBytes(code);
    assert s[0x2000..0x2800] == d;
    SubSlice(s, 0x2000, d, 0x400, 0x422);
    SubSlice(s, 0x2000, d, 0x440, 0x458);
    SubSlice(s, 0x2000, d, 0x7C0, 0x7C8);
    SubSlice(s, 0x2000, d, 0x7C8, 0x7D0);
    SubSlice(s, 0x2000, d, 0x7D0, 0x7D8);
    SubSlice(s, 0x2000, d, 0, 0x7D0);
    assert d[0..0x7D0] == d[..0x7D0];
  }

  lemma MarkerBytes()
    ensures Le(MARKER, 8) == [0x36, 0x53, 0x45, 0x52, 0x56, 0x49, 0x43, 0x45]
  {
    hide Le;
    LePush(0x36, 0x45_4349_5652_4553, 7); LePush(0x53, 0x4543_4956_5245, 6); LePush(0x45, 0x45_4349_5652, 5);
    LePush(0x52, 0x4543_4956, 4); LePush(0x56, 0x45_4349, 3); LePush(0x49, 0x4543, 2); LePush(0x43, 0x45, 1);
    LePush(0x45, 0, 0);
    assert Le(0, 0) == [];
  }

  // ------------------------------------------------------------------ seals

  /** Offsets in the image the two seals protect: the code, and the data
      segment up to and including the second seal. */
  predicate SealedAt(image: seq<byte>, i: nat)
    requires |image| == IMAGE_SIZE
  {
    CODE_OFFSET <= i < CODE_OFFSET + CodeLength(image) || DATA_OFFSET <= i < DATA_OFFSET + DATA_SEAL + 8
  }

  lemma DifferSlice(a: seq<byte>, b: seq<byte>, i: nat, lo: nat, hi: nat)
    requires DifferOnlyAt(a, b, i) && lo <= hi <= |a|
    ensures lo <= i < hi ==> DifferOnlyAt(a[lo..hi], b[lo..hi], i - lo)
    ensures i < lo || hi <= i ==> a[lo..hi] == b[lo..hi]
  {
    ElsewhereSame(a, b, i);
    hide DifferOnlyAt;
    var x, y := a[lo..hi], b[lo..hi];
    if lo <= i < hi {
      assert x[..i - lo] == y[..i - lo] && x[i - lo + 1..] == y[i - lo + 1..];
      DiffersAt(x, y, i - lo);
    }
  }

  lemma DiffersAt(a: seq<byte>, b: seq<byte>, i: nat)
    requires |a| == |b| && i < |a| && a[i] != b[i] && a[..i] == b[..i] && a[i + 1..] == b[i + 1..]
    ensures DifferOnlyAt(a, b, i)
  {
  }

  /** One changed byte anywhere in the code or in data[0:0x7D8] of an accepted
      image breaks an embedded seal: the code's hash, the data's hash, or the
      stored hash itself. */
  lemma SealBreaks(image: seq<byte>, bad: seq<byte>, i: nat)
    requires Accepts(image) && DifferOnlyAt(image, bad, i) && SealedAt(image, i)
    ensures |bad| == IMAGE_SIZE && CodeLength(bad) == CodeLength(image) && !SealsOk(bad)
  {
    hide Hash, ReadElfHeader;
    var n := CodeLength(image);
    SamePhdr(image, bad, i);
    DifferSlice(image, bad, i, DATA_OFFSET, DATA_OFFSET + DATA_FILE_SIZE);
    DifferSlice(image, bad, i, CODE_OFFSET, CODE_OFFSET + n);
    var a, b := DataOf(image), DataOf(bad);
    if i < DATA_OFFSET {
      HashDetects(CodeOf(image), CodeOf(bad), i - CODE_OFFSET);
    } else {
      var k := i - DATA_OFFSET;
      DifferSlice(a, b, k, 0, DATA_SEAL);
      DifferSlice(a, b, k, DATA_SEAL, DATA_SEAL + 8);
      assert a[0..DATA_SEAL] == a[..DATA_SEAL] && b[0..DATA_SEAL] == b[..DATA_SEAL];
      if k < DATA_SEAL {
        HashDetects(a[..DATA_SEAL], b[..DATA_SEAL], k);
      } else {
        assert a[DATA_SEAL..DATA_SEAL + 8][k - DATA_SEAL] != b[DATA_SEAL..DATA_SEAL + 8][k - DATA_SEAL];
        if Read64(a, DATA_SEAL) == Read64(b, DATA_SEAL) {
          UnLeInjective(a[DATA_SEAL..DATA_SEAL + 8], b[DATA_SEAL..DATA_SEAL + 8]);
        }
      }
    }
  }

  lemma HashDetects(a: seq<byte>, b: seq<byte>, i: nat)
    requires DifferOnlyAt(a, b, i)
    ensures Hash(a) != Hash(b)
  {
    FnvDetectsOneByte(FNV64, a, b, i);
  }

  lemma SamePhdr(image: seq<byte>, bad: seq<byte>, i: nat)
    requires |image| == IMAGE_SIZE && DifferOnlyAt(image, bad, i) && CODE_OFFSET <= i
    ensures ReadProgramHeader(image, 64) == ReadProgramHeader(bad, 64)
  {
    DifferSlice(image, bad, i, 64, 120);
    BytesOfProgramHeader(image, 64);
    ReadProgramHeaderOfBytes(bad, 64, ReadProgramHeader(image, 64));
  }

  /** The data half of `build_elf`: filled first, then sealed over the code
      and over itself, in that order. */
  method FillData(code: seq<byte>) returns (data: array<byte>)
    ensures fresh(data) && data[..] == DataBytes(code)
  {
    hide Le, Fnv1a, Splice, DataBytes;
    data := new byte[DATA_FILE_SIZE](i => 0);
    Blit(data, 0, Zeros(DATA_FILE_SIZE));
    assert data[..] == Zeros(DATA_FILE_SIZE);
    Blit(data, 0x400, MESSAGE);
    Blit(data, 0x440, PIPE_PAYLOAD);
    Blit(data, 0x7C0, Le(MARKER, 8));
    var codeHash := ComputeFnv1a(FNV64, code);
    Blit(data, CODE_SEAL, Le(codeHash, 8));
    FilledPrefix(MESSAGE, PIPE_PAYLOAD, Le(MARKER, 8), Le(codeHash, 8));
    var dataHash := ComputeFnv1a(FNV64, data[..DATA_SEAL]);
    Blit(data, DATA_SEAL, Le(dataHash, 8));
    FilledSeal(SealedData(code), Le(dataHash, 8));
    DataBytesAre(code);
  }

  lemma DataBytesAre(code: seq<byte>)
    ensures DataBytes(code) == SealedData(code) + Le(Hash(SealedData(code)), 8) + Zeros(40)
    ensures Hash(code) == Fnv1a(FNV64, code) && Hash(SealedData(code)) == Fnv1a(FNV64, SealedData(code))
  {
  }

  lemma FilledPrefix(m: seq<byte>, p: seq<byte>, u: seq<byte>, v: seq<byte>)
    requires |m| == 34 && |p| == 24 && |u| == |v| == 8
    ensures var s := Zeros(0x400) + m + Zeros(30) + p + Zeros(0x368) + u + v;
            var d := Splice(Splice(Splice(Splice(Zeros(DATA_FILE_SIZE), 0x400, m), 0x440, p), 0x7C0, u), CODE_SEAL, v);
            d == s + Zeros(48) && d[..DATA_SEAL] == s
  {
  }

  lemma FilledSeal(s: seq<byte>, w: seq<byte>)
    requires |s| == DATA_SEAL && |w| == 8
    ensures Splice(s + Zeros(48), DATA_SEAL, w) == s + w + Zeros(40)
  {
  }

  /** `build_elf`: the sealed data and the code placed under their headers. */
  method BuildElf(code: seq<byte>) returns (ok: bool, result: seq<byte>)
    ensures ok <==> 1 <= |code| <= PAGE_SIZE
    ensures ok ==> result == Image(code)
  {
    hide HeaderBytes, ProgramHeaderBytes, DataBytes, Splice;
    if |code| == 0 || |code| > PAGE_SIZE {
      return false, [];
    }
    var data := FillData(code);
    var image := new byte[DATA_OFFSET + DATA_FILE_SIZE](i => 0);
    ghost var blank := image[..];
    Blit(image, 0, Zeros(IMAGE_SIZE));
    assert image[..] == Zeros(IMAGE_SIZE) by { SpliceReads(blank, 0, Zeros(IMAGE_SIZE)); }
    Blit(image, 0, IDENT + HeaderBytes(HEADER));
    Blit(image, 64, ProgramHeaderBytes(CodeSegment(CODE_BASE, |code|)));
    Blit(image, 120, ProgramHeaderBytes(DATA_SEGMENT));
    HeadersFilled(IMAGE_SIZE, IDENT + HeaderBytes(HEADER), ProgramHeaderBytes(CodeSegment(CODE_BASE, |code|)),
                  ProgramHeaderBytes(DATA_SEGMENT));
    Blit(image, CODE_OFFSET, code);
    Blit(image, DATA_OFFSET, data[..]);
    BodyFilled(TwoSegmentHeaders(HEADER, CodeSegment(CODE_BASE, |code|), DATA_SEGMENT), CODE_OFFSET, code, DATA_OFFSET, data[..]);
    return true, image[..];
  }
}
