// ELF64 headers as bytes, and the SDK image verifier
// (scripts/verify-zigos-sdk-elf.py): one forward scan over the program headers
// against what it promises of all of them together.
module Elf64 {
  import opened Bytes

  const USER_BASE: nat := 0x80_0000_0000
  const MMAP_FLOOR: nat := USER_BASE + 64 * 1024 * 1024
  const PAGE_SIZE: nat := 4096
  const PT_LOAD: nat := 1
  const ELF_HEADER_SIZE: nat := 64
  const PROGRAM_HEADER_SIZE: nat := 56

  /** "\x7fELF", 64-bit, little-endian, version 1, System V, and padding. */
  const IDENT: seq<byte> := [0x7F, 0x45, 0x4C, 0x46, 2, 1, 1, 0, 0, 0, 0, 0, 0, 0, 0, 0]

  datatype ElfHeader = ElfHeader(kind: u16, machine: u16, version: u32, entry: u64, phoff: u64, shoff: u64,
                                 flags: u32, ehsize: u16, phentsize: u16, phnum: u16, shentsize: u16,
                                 shnum: u16, shstrndx: u16)

  datatype ProgramHeader = ProgramHeader(kind: u32, flags: u32, offset: u64, vaddr: u64, paddr: u64,
                                         filesz: u64, memsz: u64, align: u64)

  // ---------------------------------------------------------------- layout

  function HeaderBytes(h: ElfHeader): (s: seq<byte>)
    ensures |s| == 48
  {
    Le(h.kind, 2) + Le(h.machine, 2) + Le(h.version, 4) + Le(h.entry, 8) + Le(h.phoff, 8) + Le(h.shoff, 8)
    + Le(h.flags, 4) + Le(h.ehsize, 2) + Le(h.phentsize, 2) + Le(h.phnum, 2) + Le(h.shentsize, 2)
    + Le(h.shnum, 2) + Le(h.shstrndx, 2)
  }

  function ReadElfHeader(data: seq<byte>, o: nat): ElfHeader
    requires o + 48 <= |data|
  {
    ElfHeader(Read16(data, o), Read16(data, o + 2), Read32(data, o + 4), Read64(data, o + 8), Read64(data, o + 16),
              Read64(data, o + 24), Read32(data, o + 32), Read16(data, o + 36), Read16(data, o + 38),
              Read16(data, o + 40), Read16(data, o + 42), Read16(data, o + 44), Read16(data, o + 46))
  }

  function ProgramHeaderBytes(p: ProgramHeader): (s: seq<byte>)
    ensures |s| == PROGRAM_HEADER_SIZE
  {
    Le(p.kind, 4) + Le(p.flags, 4) + Le(p.offset, 8) + Le(p.vaddr, 8) + Le(p.paddr, 8)
    + Le(p.filesz, 8) + Le(p.memsz, 8) + Le(p.align, 8)
  }

  function ReadProgramHeader(data: seq<byte>, o: nat): ProgramHeader
    requires o + PROGRAM_HEADER_SIZE <= |data|
  {
    ProgramHeader(Read32(data, o), Read32(data, o + 4), Read64(data, o + 8), Read64(data, o + 16),
                  Read64(data, o + 24), Read64(data, o + 32), Read64(data, o + 40), Read64(data, o + 48))
  }

  lemma HeaderLaid(a: seq<byte>, b: seq<byte>, c: seq<byte>, d: seq<byte>, e: seq<byte>, f: seq<byte>, g: seq<byte>,
                   h: seq<byte>, i: seq<byte>, j: seq<byte>, k: seq<byte>, l: seq<byte>, m: seq<byte>)
    requires |a| == |b| == |h| == |i| == |j| == |k| == |l| == |m| == 2
    requires |c| == |g| == 4 && |d| == |e| == |f| == 8
    ensures var s := a + b + c + d + e + f + g + h + i + j + k + l + m;
            && |s| == 48 && s[0..2] == a && s[2..4] == b && s[4..8] == c && s[8..16] == d && s[16..24] == e
            && s[24..32] == f && s[32..36] == g && s[36..38] == h && s[38..40] == i && s[40..42] == j
            && s[42..44] == k && s[44..46] == l && s[46..48] == m
  {
  }

  lemma ProgramLaid(a: seq<byte>, b: seq<byte>, c: seq<byte>, d: seq<byte>, e: seq<byte>, f: seq<byte>, g: seq<byte>,
                    h: seq<byte>)
    requires |a| == |b| == 4 && |c| == |d| == |e| == |f| == |g| == |h| == 8
    ensures var s := a + b + c + d + e + f + g + h;
            && |s| == 56 && s[0..4] == a && s[4..8] == b && s[8..16] == c && s[16..24] == d && s[24..32] == e
            && s[32..40] == f && s[40..48] == g && s[48..56] == h
  {
  }

  /** An encoded header found in a file reads back as itself. */
  lemma ReadElfHeaderOfBytes(data: seq<byte>, o: nat, h: ElfHeader)
    requires o + 48 <= |data| && data[o..o + 48] == HeaderBytes(h)
    ensures ReadElfHeader(data, o) == h
  {
    Widths();
    HeaderLaid(Le(h.kind, 2), Le(h.machine, 2), Le(h.version, 4), Le(h.entry, 8), Le(h.phoff, 8), Le(h.shoff, 8),
               Le(h.flags, 4), Le(h.ehsize, 2), Le(h.phentsize, 2), Le(h.phnum, 2), Le(h.shentsize, 2),
               Le(h.shnum, 2), Le(h.shstrndx, 2));
    hide Le, HeaderBytes;
    var s := HeaderBytes(h);
    FieldOfLe(s, 0, 2, h.kind); FieldOfLe(s, 2, 2, h.machine); FieldOfLe(s, 4, 4, h.version);
    FieldOfLe(s, 8, 8, h.entry); FieldOfLe(s, 16, 8, h.phoff); FieldOfLe(s, 24, 8, h.shoff);
    FieldOfLe(s, 32, 4, h.flags); FieldOfLe(s, 36, 2, h.ehsize); FieldOfLe(s, 38, 2, h.phentsize);
    FieldOfLe(s, 40, 2, h.phnum); FieldOfLe(s, 42, 2, h.shentsize); FieldOfLe(s, 44, 2, h.shnum);
    FieldOfLe(s, 46, 2, h.shstrndx);
    FieldShift(data, o, s);
  }

  lemma ReadProgramHeaderOfBytes(data: seq<byte>, o: nat, p: ProgramHeader)
    requires o + PROGRAM_HEADER_SIZE <= |data| && data[o..o + PROGRAM_HEADER_SIZE] == ProgramHeaderBytes(p)
    ensures ReadProgramHeader(data, o) == p
  {
    Widths();
    ProgramLaid(Le(p.kind, 4), Le(p.flags, 4), Le(p.offset, 8), Le(p.vaddr, 8), Le(p.paddr, 8),
                Le(p.filesz, 8), Le(p.memsz, 8), Le(p.align, 8));
    hide Le, ProgramHeaderBytes;
    var s := ProgramHeaderBytes(p);
    FieldOfLe(s, 0, 4, p.kind); FieldOfLe(s, 4, 4, p.flags); FieldOfLe(s, 8, 8, p.offset);
    FieldOfLe(s, 16, 8, p.vaddr); FieldOfLe(s, 24, 8, p.paddr); FieldOfLe(s, 32, 8, p.filesz);
    FieldOfLe(s, 40, 8, p.memsz); FieldOfLe(s, 48, 8, p.align);
    FieldShift(data, o, s);
  }

  lemma HeaderPieces(s: seq<byte>, o: nat)
    requires o + 48 <= |s|
    ensures s[o..o + 48] == s[o..o + 2] + s[o + 2..o + 4] + s[o + 4..o + 8] + s[o + 8..o + 16] + s[o + 16..o + 24]
                            + s[o + 24..o + 32] + s[o + 32..o + 36] + s[o + 36..o + 38] + s[o + 38..o + 40]
                            + s[o + 40..o + 42] + s[o + 42..o + 44] + s[o + 44..o + 46] + s[o + 46..o + 48]
  {
  }

  lemma ProgramPieces(s: seq<byte>, o: nat)
    requires o + 56 <= |s|
    ensures s[o..o + 56] == s[o..o + 4] + s[o + 4..o + 8] + s[o + 8..o + 16] + s[o + 16..o + 24] + s[o + 24..o + 32]
                            + s[o + 32..o + 40] + s[o + 40..o + 48] + s[o + 48..o + 56]
  {
    assert s[o..o + 4] + s[o + 4..o + 8] == s[o..o + 8];
    assert s[o..o + 8] + s[o + 8..o + 16] == s[o..o + 16];
    assert s[o..o + 16] + s[o + 16..o + 24] == s[o..o + 24];
    assert s[o..o + 24] + s[o + 24..o + 32] == s[o..o + 32];
    assert s[o..o + 32] + s[o + 32..o + 40] == s[o..o + 40];
    assert s[o..o + 40] + s[o + 40..o + 48] == s[o..o + 48];
    assert s[o..o + 48] + s[o + 48..o + 56] == s[o..o + 56];
  }

  /** A header read from a file encodes to the bytes it was read from. */
  lemma BytesOfElfHeader(data: seq<byte>, o: nat)
    requires o + 48 <= |data|
    ensures HeaderBytes(ReadElfHeader(data, o)) == data[o..o + 48]
  {
    FieldBytes(data, o, 2); FieldBytes(data, o + 2, 2); FieldBytes(data, o + 4, 4); FieldBytes(data, o + 8, 8);
    FieldBytes(data, o + 16, 8); FieldBytes(data, o + 24, 8); FieldBytes(data, o + 32, 4); FieldBytes(data, o + 36, 2);
    FieldBytes(data, o + 38, 2); FieldBytes(data, o + 40, 2); FieldBytes(data, o + 42, 2); FieldBytes(data, o + 44, 2);
    FieldBytes(data, o + 46, 2);
    HeaderPieces(data, o);
    hide Le, Field;
  }

  lemma BytesOfProgramHeader(data: seq<byte>, o: nat)
    requires o + PROGRAM_HEADER_SIZE <= |data|
    ensures ProgramHeaderBytes(ReadProgramHeader(data, o)) == data[o..o + PROGRAM_HEADER_SIZE]
  {
    FieldBytes(data, o, 4); FieldBytes(data, o + 4, 4); FieldBytes(data, o + 8, 8); FieldBytes(data, o + 16, 8);
    FieldBytes(data, o + 24, 8); FieldBytes(data, o + 32, 8); FieldBytes(data, o + 40, 8); FieldBytes(data, o + 48, 8);
    ProgramPieces(data, o);
    hide Le, Field;
  }

  // ---------------------------------------------------- the SDK verifier

  predicate Readable(flags: nat) { flags / 4 % 2 == 1 }

  predicate Writable(flags: nat) { flags / 2 % 2 == 1 }

  predicate Executable(flags: nat) { flags % 2 == 1 }

  function EndOf(p: ProgramHeader): nat {
    p.vaddr + p.memsz
  }

  function PageFloor(a: nat): nat {
    a / PAGE_SIZE * PAGE_SIZE
  }

  function PageCeil(a: nat): nat {
    (a + PAGE_SIZE - 1) / PAGE_SIZE * PAGE_SIZE
  }

  predicate Contains(p: ProgramHeader, address: nat) {
    p.vaddr <= address < EndOf(p)
  }

  /** The checks the verifier makes of one program header by itself. */
  predicate SegmentOk(p: ProgramHeader, fileSize: nat) {
    && p.kind == PT_LOAD
    && p.flags != 0 && p.flags < 8
    && Readable(p.flags) && !(Writable(p.flags) && Executable(p.flags))
    && (p.paddr == 0 || p.paddr == p.vaddr)
    && p.memsz != 0 && p.memsz >= p.filesz
    && p.align == PAGE_SIZE && p.offset % PAGE_SIZE == p.vaddr % PAGE_SIZE
    && p.offset <= fileSize && p.filesz <= fileSize - p.offset
    && p.vaddr >= USER_BASE && EndOf(p) > p.vaddr && EndOf(p) <= MMAP_FLOOR
  }

  function Segment(data: seq<byte>, i: nat): ProgramHeader
    requires 64 <= |data| && ReadElfHeader(data, 16).phoff + (i + 1) * PROGRAM_HEADER_SIZE <= |data|
  {
    ReadProgramHeader(data, ReadElfHeader(data, 16).phoff + i * PROGRAM_HEADER_SIZE)
  }

  function Segments(data: seq<byte>, n: nat): (s: seq<ProgramHeader>)
    requires 64 <= |data| && ReadElfHeader(data, 16).phoff + n * PROGRAM_HEADER_SIZE <= |data|
    ensures |s| == n && forall i :: 0 <= i < n ==> s[i] == Segment(data, i)
  {
    if n == 0 then [] else Segments(data, n - 1) + [Segment(data, n - 1)]
  }

  /** The header checks before the scan, in the verifier's order. */
  predicate HeaderOk(data: seq<byte>) {
    && ELF_HEADER_SIZE <= |data|
    && data[..16] == IDENT
    && var h := ReadElfHeader(data, 16);
       && h.kind == 2 && h.machine == 0x3E && h.version == 1 && h.flags == 0 && h.ehsize == 64 && h.phentsize == 56
       && h.phnum != 0 && h.phnum <= 4
       && h.phoff <= |data| && h.phnum * PROGRAM_HEADER_SIZE <= |data| - h.phoff
       && USER_BASE <= h.entry < MMAP_FLOOR
  }

  /** The section-table checks after it. */
  predicate SectionsOk(h: ElfHeader, fileSize: nat) {
    if h.shoff != 0 then
      && h.shentsize == 64 && h.shnum != 0 && h.shnum <= 256
      && h.shstrndx < h.shnum && h.shoff + h.shnum * h.shentsize <= fileSize
    else h.shentsize == 0 && h.shnum == 0 && h.shstrndx == 0
  }

  /** The scan from segment `i` on, with the loop's three variables. */
  predicate ScanOk(segments: seq<ProgramHeader>, i: nat, fileSize: nat, entry: nat,
                   previousEnd: nat, executableEntry: bool, writableSegments: nat)
    requires i <= |segments|
    decreases |segments| - i
  {
    if i == |segments| then executableEntry && writableSegments <= 1
    else
      var p := segments[i];
      && SegmentOk(p, fileSize)
      && previousEnd <= p.vaddr
      && ScanOk(segments, i + 1, fileSize, entry, PageCeil(EndOf(p)),
                executableEntry || (Executable(p.flags) && Contains(p, entry)),
                writableSegments + if Writable(p.flags) then 1 else 0)
  }

  predicate SdkAccepts(data: seq<byte>) {
    && HeaderOk(data)
    && var h := ReadElfHeader(data, 16);
       && ScanOk(Segments(data, h.phnum), 0, |data|, h.entry, USER_BASE, false, 0)
       && SectionsOk(h, |data|)
  }

  /** What the scan promises of all segments together. */
  ghost predicate LayoutOk(segments: seq<ProgramHeader>, fileSize: nat, entry: nat) {
    && (forall i :: 0 <= i < |segments| ==> SegmentOk(segments[i], fileSize))
    && (forall i, j :: 0 <= i < j < |segments| ==> PageCeil(EndOf(segments[i])) <= segments[j].vaddr)
    && (forall i, j :: 0 <= i < j < |segments| ==> !(Writable(segments[i].flags) && Writable(segments[j].flags)))
    && (exists i :: 0 <= i < |segments| && Executable(segments[i].flags) && Contains(segments[i], entry))
  }

  function WritableCount(segments: seq<ProgramHeader>, i: nat): nat
    requires i <= |segments|
    decreases |segments| - i
  {
    if i == |segments| then 0
    else (if Writable(segments[i].flags) then 1 else 0) + WritableCount(segments, i + 1)
  }

  lemma {:induction false} WritableCountMeaning(segments: seq<ProgramHeader>, i: nat)
    requires i <= |segments|
    ensures WritableCount(segments, i) == 0 <==> forall k :: i <= k < |segments| ==> !Writable(segments[k].flags)
    ensures WritableCount(segments, i) <= 1 <==>
              forall j, k :: i <= j < k < |segments| ==> !(Writable(segments[j].flags) && Writable(segments[k].flags))
    decreases |segments| - i
  {
    hide Writable;
    if i < |segments| {
      WritableCountMeaning(segments, i + 1);
    }
  }

  lemma {:induction false} ScanExact(segments: seq<ProgramHeader>, i: nat, fileSize: nat, entry: nat,
                                     previousEnd: nat, executableEntry: bool, writableSegments: nat)
    requires i <= |segments|
    ensures ScanOk(segments, i, fileSize, entry, previousEnd, executableEntry, writableSegments) <==>
              && (forall k :: i <= k < |segments| ==> SegmentOk(segments[k], fileSize))
              && (forall k :: i <= k < |segments| ==> previousEnd <= segments[k].vaddr)
              && (forall j, k :: i <= j < k < |segments| ==> PageCeil(EndOf(segments[j])) <= segments[k].vaddr)
              && (executableEntry || exists k :: i <= k < |segments| && Executable(segments[k].flags) && Contains(segments[k], entry))
              && writableSegments + WritableCount(segments, i) <= 1
    decreases |segments| - i
  {
    hide SegmentOk, Executable, Writable, Contains, PageCeil, EndOf;
    if i < |segments| {
      var p := segments[i];
      ScanExact(segments, i + 1, fileSize, entry, PageCeil(EndOf(p)),
                executableEntry || (Executable(p.flags) && Contains(p, entry)),
                writableSegments + if Writable(p.flags) then 1 else 0);
      SegmentGrows(p, fileSize);
      forall k | i <= k < |segments|
        ensures SegmentOk(p, fileSize) && previousEnd <= p.vaddr && (k > i ==> PageCeil(EndOf(p)) <= segments[k].vaddr)
                ==> previousEnd <= segments[k].vaddr
      {
      }
    }
  }

  lemma SegmentGrows(p: ProgramHeader, fileSize: nat)
    ensures SegmentOk(p, fileSize) ==> p.vaddr < PageCeil(EndOf(p))
  {
  }

  /** The forward scan against all segments together. */
  lemma SdkLayout(data: seq<byte>)
    ensures SdkAccepts(data) <==>
              && HeaderOk(data)
              && LayoutOk(Segments(data, ReadElfHeader(data, 16).phnum), |data|, ReadElfHeader(data, 16).entry)
              && SectionsOk(ReadElfHeader(data, 16), |data|)
  {
    hide SegmentOk, ReadElfHeader, PageCeil, EndOf, Segments, Segment, ScanOk, WritableCount, SectionsOk, Contains, Executable, Writable;
    if HeaderOk(data) {
      var h := ReadElfHeader(data, 16);
      var segments := Segments(data, h.phnum);
      ScanExact(segments, 0, |data|, h.entry, USER_BASE, false, 0);
      WritableCountMeaning(segments, 0);
      forall k | 0 <= k < |segments|
        ensures SegmentOk(segments[k], |data|) ==> USER_BASE <= segments[k].vaddr
      {
        SegmentBase(segments[k], |data|);
      }
    }
  }

  lemma SegmentBase(p: ProgramHeader, fileSize: nat)
    ensures SegmentOk(p, fileSize) ==> USER_BASE <= p.vaddr
  {
  }

  // ------------------------------------------ acceptance over the raw bytes

  ghost predicate RawHeader(data: seq<byte>) {
    && 64 <= |data| && data[..16] == [0x7F, 0x45, 0x4C, 0x46, 2, 1, 1, 0, 0, 0, 0, 0, 0, 0, 0, 0]
    && Field(data, 16, 2) == 2 && Field(data, 18, 2) == 62 && Field(data, 20, 4) == 1
    && Field(data, 48, 4) == 0 && Field(data, 52, 2) == 64 && Field(data, 54, 2) == 56
    && 1 <= Field(data, 56, 2) <= 4 && Field(data, 32, 8) + 56 * Field(data, 56, 2) <= |data|
    && 0x80_0000_0000 <= Field(data, 24, 8) < 0x80_0400_0000
  }

  /** Where program header `i` lies. */
  ghost function At(data: seq<byte>, i: nat): nat
    requires RawHeader(data)
  {
    Field(data, 32, 8) + 56 * i
  }

  ghost predicate HasSegment(data: seq<byte>, i: nat)
    requires RawHeader(data)
  {
    i < Field(data, 56, 2)
  }

  /** A loadable program header: readable and at most one of writable and
      executable, its file bytes in the file and its memory in the window. */
  ghost predicate RawSegment(data: seq<byte>, o: nat)
    requires o + 56 <= |data|
  {
    && Field(data, o, 4) == 1 && Field(data, o + 4, 4) in {4, 5, 6}
    && Field(data, o + 24, 8) in {0, Field(data, o + 16, 8)}
    && 0 < Field(data, o + 40, 8) && Field(data, o + 32, 8) <= Field(data, o + 40, 8)
    && Field(data, o + 48, 8) == 4096 && Field(data, o + 8, 8) % 4096 == Field(data, o + 16, 8) % 4096
    && Field(data, o + 8, 8) + Field(data, o + 32, 8) <= |data|
    && 0x80_0000_0000 <= Field(data, o + 16, 8)
    && Field(data, o + 16, 8) + Field(data, o + 40, 8) <= 0x80_0400_0000
  }

  /** The last page of the segment at `o` comes before the first one at `q`. */
  ghost predicate PagesBefore(data: seq<byte>, o: nat, q: nat)
    requires o + 56 <= |data| && q + 56 <= |data| && 0 < Field(data, o + 40, 8)
  {
    (Field(data, o + 16, 8) + Field(data, o + 40, 8) - 1) / 4096 < Field(data, q + 16, 8) / 4096
  }

  ghost predicate HoldsEntry(data: seq<byte>, o: nat)
    requires o + 56 <= |data| && RawHeader(data)
  {
    && Field(data, o + 4, 4) == 5
    && Field(data, o + 16, 8) <= Field(data, 24, 8) < Field(data, o + 16, 8) + Field(data, o + 40, 8)
  }

  ghost predicate RawLayout(data: seq<byte>)
    requires RawHeader(data)
  {
    && (forall i :: HasSegment(data, i) ==> RawSegment(data, At(data, i)))
    && (forall i, j :: HasSegment(data, i) && HasSegment(data, j) && i < j ==> PagesBefore(data, At(data, i), At(data, j)))
    && (forall i, j :: HasSegment(data, i) && HasSegment(data, j) && i < j ==>
          !(Field(data, At(data, i) + 4, 4) == 6 && Field(data, At(data, j) + 4, 4) == 6))
    && (exists i :: HasSegment(data, i) && HoldsEntry(data, At(data, i)))
  }

  ghost predicate RawSections(data: seq<byte>)
    requires 64 <= |data|
  {
    if Field(data, 40, 8) == 0 then Field(data, 58, 2) == 0 && Field(data, 60, 2) == 0 && Field(data, 62, 2) == 0
    else
      && Field(data, 58, 2) == 64 && 1 <= Field(data, 60, 2) <= 256 && Field(data, 62, 2) < Field(data, 60, 2)
      && Field(data, 40, 8) + 64 * Field(data, 60, 2) <= |data|
  }

  lemma SegmentIsRaw(data: seq<byte>, o: nat)
    requires o + 56 <= |data|
    ensures SegmentOk(ReadProgramHeader(data, o), |data|) <==> RawSegment(data, o)
    ensures RawSegment(data, o) ==> (Writable(Field(data, o + 4, 4)) <==> Field(data, o + 4, 4) == 6)
    ensures RawSegment(data, o) ==> (Executable(Field(data, o + 4, 4)) <==> Field(data, o + 4, 4) == 5)
  {
    FlagsAllowed(Field(data, o + 4, 4));
    hide Field;
  }

  lemma FlagsAllowed(f: nat)
    ensures f != 0 && f < 8 && Readable(f) && !(Writable(f) && Executable(f)) <==> f in {4, 5, 6}
    ensures f in {4, 5, 6} ==> (Writable(f) <==> f == 6) && (Executable(f) <==> f == 5)
  {
  }

  lemma PagesAreRaw(data: seq<byte>, o: nat, q: nat)
    requires o + 56 <= |data| && q + 56 <= |data| && 0 < Field(data, o + 40, 8)
    requires RawSegment(data, o)
    ensures PageCeil(EndOf(ReadProgramHeader(data, o))) <= ReadProgramHeader(data, q).vaddr <==> PagesBefore(data, o, q)
  {
    hide RawSegment;
    CeilBefore(Field(data, o + 16, 8) + Field(data, o + 40, 8), Field(data, q + 16, 8));
    hide Field, PageCeil;
  }

  lemma CeilBefore(end: nat, start: nat)
    requires 0 < end
    ensures PageCeil(end) <= start <==> (end - 1) / 4096 < start / 4096
  {
  }

  lemma HeaderIsRaw(data: seq<byte>)
    ensures HeaderOk(data) <==> RawHeader(data)
  {
    if 64 <= |data| {
      hide Field;
    }
  }

  lemma SegmentsAreRaw(data: seq<byte>)
    requires RawHeader(data) && HeaderOk(data)
    ensures var h := ReadElfHeader(data, 16);
            LayoutOk(Segments(data, h.phnum), |data|, h.entry) <==> RawLayout(data)
  {
    hide SegmentOk, PageCeil, EndOf, Readable, Writable, Executable, RawSegment, PagesBefore, RawHeader, Field, Segments, At,
      HoldsEntry, Contains, HeaderOk;
    SegmentCount(data);
    var h := ReadElfHeader(data, 16);
    var segments := Segments(data, h.phnum);
    hide ReadElfHeader;
    forall i | 0 <= i < |segments|
      ensures HasSegment(data, i) && At(data, i) + 56 <= |data|
      ensures SegmentOk(segments[i], |data|) <==> RawSegment(data, At(data, i))
    {
      SegmentPlace(data, i);
      SegmentIsRaw(data, At(data, i));
    }
    if forall i :: 0 <= i < |segments| ==> SegmentOk(segments[i], |data|) {
      forall i | 0 <= i < |segments|
        ensures 0 < Field(data, At(data, i) + 40, 8)
        ensures Writable(segments[i].flags) <==> Field(data, At(data, i) + 4, 4) == 6
        ensures Executable(segments[i].flags) && Contains(segments[i], h.entry) <==> HoldsEntry(data, At(data, i))
      {
        SegmentPlace(data, i);
        NotEmpty(data, At(data, i));
        EntryIsRaw(data, At(data, i));
      }
      forall i, j | 0 <= i < |segments| && 0 <= j < |segments|
        ensures PageCeil(EndOf(segments[i])) <= segments[j].vaddr <==> PagesBefore(data, At(data, i), At(data, j))
      {
        SegmentPlace(data, i);
        SegmentPlace(data, j);
        PagesAreRaw(data, At(data, i), At(data, j));
      }
    }
  }

  lemma SegmentCount(data: seq<byte>)
    requires RawHeader(data) && HeaderOk(data)
    ensures 64 <= |data|
    ensures forall i: nat :: HasSegment(data, i) <==> i < ReadElfHeader(data, 16).phnum
    ensures ReadElfHeader(data, 16).entry == Field(data, 24, 8)
    ensures ReadElfHeader(data, 16).phoff + ReadElfHeader(data, 16).phnum * PROGRAM_HEADER_SIZE <= |data|
  {
    hide Field;
  }

  lemma NotEmpty(data: seq<byte>, o: nat)
    requires o + 56 <= |data| && RawSegment(data, o)
    ensures 0 < Field(data, o + 40, 8)
  {
    hide Field;
  }

  lemma EntryIsRaw(data: seq<byte>, o: nat)
    requires o + 56 <= |data| && RawHeader(data) && RawSegment(data, o)
    ensures var p := ReadProgramHeader(data, o);
            && (Writable(p.flags) <==> Field(data, o + 4, 4) == 6)
            && (Executable(p.flags) && Contains(p, Field(data, 24, 8)) <==> HoldsEntry(data, o))
  {
    SegmentIsRaw(data, o);
    hide Field, RawHeader, RawSegment, Writable, Executable;
  }

  lemma SegmentPlace(data: seq<byte>, i: nat)
    requires RawHeader(data) && HasSegment(data, i)
    ensures At(data, i) + 56 <= |data| && ReadElfHeader(data, 16).phoff + (i + 1) * PROGRAM_HEADER_SIZE <= |data|
    ensures Segment(data, i) == ReadProgramHeader(data, At(data, i))
  {
    hide Field;
  }

  /** Which files the verifier accepts, byte by byte: the header, one to four
      loadable segments in ascending pages of the window, at most one writable,
      the entry in an executable one, and a section table inside the file or none. */
  lemma SdkExact(data: seq<byte>)
    ensures SdkAccepts(data) <==> RawHeader(data) && RawLayout(data) && RawSections(data)
  {
    hide RawHeader, RawLayout, RawSections, LayoutOk, HeaderOk, SectionsOk, Segments, SdkAccepts;
    SdkLayout(data);
    HeaderIsRaw(data);
    if HeaderOk(data) {
      SegmentsAreRaw(data);
      SectionsAreRaw(data);
    } else {
      NoHeader(data);
    }
  }

  lemma NoHeader(data: seq<byte>)
    requires !HeaderOk(data)
    ensures !SdkAccepts(data)
  {
  }

  lemma SectionsAreRaw(data: seq<byte>)
    requires HeaderOk(data)
    ensures SectionsOk(ReadElfHeader(data, 16), |data|) <==> RawSections(data)
  {
    hide Field;
  }

  /** Page `page` is one the loader maps for segment `p`. */
  predicate Maps(p: ProgramHeader, page: nat) {
    PageFloor(p.vaddr) <= page * PAGE_SIZE < PageCeil(EndOf(p))
  }

  /** Soundness for the mapped pages: in every accepted image each mapped page
      lies in the image window and belongs to one segment only, so no page is
      both writable and executable; the entry is executable and every
      segment's file bytes lie in the file. */
  lemma SdkSound(data: seq<byte>, i: nat, j: nat, page: nat)
    requires SdkAccepts(data)
    requires i < ReadElfHeader(data, 16).phnum && j < ReadElfHeader(data, 16).phnum
    requires Maps(Segment(data, i), page) && Maps(Segment(data, j), page)
    ensures USER_BASE <= page * PAGE_SIZE && (page + 1) * PAGE_SIZE <= MMAP_FLOOR
    ensures i == j && !(Writable(Segment(data, i).flags) && Executable(Segment(data, j).flags))
    ensures Segment(data, i).offset + Segment(data, i).filesz <= |data|
    ensures exists k :: 0 <= k < ReadElfHeader(data, 16).phnum && Executable(Segment(data, k).flags)
                        && Contains(Segment(data, k), ReadElfHeader(data, 16).entry)
  {
    SdkLayout(data);
    hide ScanOk, SectionsOk, Writable, Executable, SegmentOk, Maps, Contains, ReadProgramHeader, LayoutOk;
    var h := ReadElfHeader(data, 16);
    var segments := Segments(data, h.phnum);
    assert segments[i] == Segment(data, i) && segments[j] == Segment(data, j);
    hide ReadElfHeader, Segment, Segments, HeaderOk;
    var k := LayoutSound(segments, |data|, h.entry, i, j, page);
    assert segments[k] == Segment(data, k);
  }

  lemma LayoutSound(segments: seq<ProgramHeader>, fileSize: nat, entry: nat, i: nat, j: nat, page: nat) returns (k: nat)
    requires LayoutOk(segments, fileSize, entry) && i < |segments| && j < |segments|
    requires Maps(segments[i], page) && Maps(segments[j], page)
    ensures USER_BASE <= page * PAGE_SIZE && (page + 1) * PAGE_SIZE <= MMAP_FLOOR
    ensures i == j && !(Writable(segments[i].flags) && Executable(segments[j].flags))
    ensures segments[i].offset + segments[i].filesz <= fileSize
    ensures k < |segments| && Executable(segments[k].flags) && Contains(segments[k], entry)
  {
    hide Writable, Executable, SegmentOk, Maps, Contains, PageCeil, EndOf;
    SegmentParts(segments[i], fileSize);
    PagesInWindow(segments[i], fileSize, page);
    if i < j {
      PagesDisjoint(segments[i], segments[j], page);
    } else if j < i {
      PagesDisjoint(segments[j], segments[i], page);
    }
    k :| 0 <= k < |segments| && Executable(segments[k].flags) && Contains(segments[k], entry);
  }

  lemma SegmentParts(p: ProgramHeader, fileSize: nat)
    requires SegmentOk(p, fileSize)
    ensures !(Writable(p.flags) && Executable(p.flags)) && p.offset + p.filesz <= fileSize
  {
  }

  lemma PagesInWindow(p: ProgramHeader, fileSize: nat, page: nat)
    requires SegmentOk(p, fileSize) && Maps(p, page)
    ensures USER_BASE <= page * PAGE_SIZE && (page + 1) * PAGE_SIZE <= MMAP_FLOOR
  {
  }

  lemma PagesDisjoint(p: ProgramHeader, q: ProgramHeader, page: nat)
    requires PageCeil(EndOf(p)) <= q.vaddr
    ensures !(Maps(p, page) && Maps(q, page))
  {
  }

  lemma ScanStep(segments: seq<ProgramHeader>, i: nat, fileSize: nat, entry: nat,
                 previousEnd: nat, executableEntry: bool, writableSegments: nat)
    requires i <= |segments|
    ensures ScanOk(segments, i, fileSize, entry, previousEnd, executableEntry, writableSegments)
            <==> if i == |segments| then executableEntry && writableSegments <= 1
                 else
                   var p := segments[i];
                   && SegmentOk(p, fileSize) && previousEnd <= p.vaddr
                   && ScanOk(segments, i + 1, fileSize, entry, PageCeil(EndOf(p)),
                             executableEntry || (Executable(p.flags) && Contains(p, entry)),
                             writableSegments + if Writable(p.flags) then 1 else 0)
  {
  }

  // ------------------------------------------------- two-segment images

  const CODE_OFFSET: nat := 0x1000
  const DATA_OFFSET: nat := 0x2000
  const HEADERS_END: nat := 176

  /** The readable and executable segment both generators write. */
  function CodeSegment(base: u64, n: u64): ProgramHeader {
    ProgramHeader(1, 5, CODE_OFFSET, base, 0, n, n, PAGE_SIZE)
  }

  function TwoSegmentHeaders(h: ElfHeader, code: ProgramHeader, data: ProgramHeader): (s: seq<byte>)
    ensures |s| == HEADERS_END
  {
    IDENT + HeaderBytes(h) + ProgramHeaderBytes(code) + ProgramHeaderBytes(data)
  }

  lemma TwoSegmentParts(image: seq<byte>, h: ElfHeader, code: ProgramHeader, data: ProgramHeader)
    requires HEADERS_END <= |image| && image[..HEADERS_END] == TwoSegmentHeaders(h, code, data)
    ensures image[..16] == IDENT && ReadElfHeader(image, 16) == h
    ensures ReadProgramHeader(image, 64) == code && ReadProgramHeader(image, 120) == data
  {
    hide HeaderBytes, ProgramHeaderBytes, ReadElfHeader, ReadProgramHeader;
    var s := TwoSegmentHeaders(h, code, data);
    assert s[0..16] == IDENT && s[16..64] == HeaderBytes(h);
    assert s[64..120] == ProgramHeaderBytes(code) && s[120..176] == ProgramHeaderBytes(data);
    SubSlice(image, 0, s, 0, 16);
    SubSlice(image, 0, s, 16, 64);
    SubSlice(image, 0, s, 64, 120);
    SubSlice(image, 0, s, 120, 176);
    ReadElfHeaderOfBytes(image, 16, h);
    ReadProgramHeaderOfBytes(image, 64, code);
    ReadProgramHeaderOfBytes(image, 120, data);
  }

  // ------------------------------------------- images written in place

  lemma HeadersFilled(size: nat, e: seq<byte>, p: seq<byte>, q: seq<byte>)
    requires |e| == 64 && |p| == |q| == 56 && 176 <= size
    ensures Splice(Splice(Splice(Zeros(size), 0, e), 64, p), 120, q) == e + p + q + Zeros(size - 176)
  {
  }

  lemma BodyFilled(h: seq<byte>, at: nat, code: seq<byte>, dataAt: nat, data: seq<byte>)
    requires |h| <= at && at + |code| <= dataAt
    ensures var size := dataAt + |data|;
            Splice(Splice(h + Zeros(size - |h|), at, code), dataAt, data)
            == h + Zeros(at - |h|) + code + Zeros(dataAt - at - |code|) + data
  {
  }

  // ------------------------------------------------- the code, step by step

  /** The program-header loop, with its three running variables. */
  method ScanSegments(data: seq<byte>, phoff: nat, phnum: nat, entry: nat, ghost segments: seq<ProgramHeader>)
    returns (ok: bool)
    requires phoff + phnum * PROGRAM_HEADER_SIZE <= |data| && |segments| == phnum
    requires forall i :: 0 <= i < phnum ==> segments[i] == ReadProgramHeader(data, phoff + i * PROGRAM_HEADER_SIZE)
    ensures ok <==> ScanOk(segments, 0, |data|, entry, USER_BASE, false, 0)
  {
    hide SegmentOk, PageCeil, EndOf, Executable, Writable, Contains, ScanOk, ReadProgramHeader;
    var previousEnd, executableEntry, writableSegments := USER_BASE, false, 0;
    for index := 0 to phnum
      invariant ScanOk(segments, 0, |data|, entry, USER_BASE, false, 0)
                <==> ScanOk(segments, index, |data|, entry, previousEnd, executableEntry, writableSegments)
    {
      var p := ReadProgramHeader(data, phoff + index * PROGRAM_HEADER_SIZE);
      ScanStep(segments, index, |data|, entry, previousEnd, executableEntry, writableSegments);
      if !SegmentOk(p, |data|) {
        return false;
      }
      if p.vaddr < previousEnd {
        return false;
      }
      previousEnd := PageCeil(EndOf(p));
      if Executable(p.flags) && Contains(p, entry) {
        executableEntry := true;
      }
      if Writable(p.flags) {
        writableSegments := writableSegments + 1;
      }
    }
    ScanStep(segments, phnum, |data|, entry, previousEnd, executableEntry, writableSegments);
    return executableEntry && writableSegments <= 1;
  }

  /** `main` of the SDK verifier: the header checks, the scan, then the section
      table. */
  method VerifySdk(data: seq<byte>) returns (ok: bool)
    ensures ok <==> SdkAccepts(data)
  {
    hide ScanOk, SectionsOk, ReadElfHeader, ReadProgramHeader;
    if !HeaderOk(data) {
      return false;
    }
    var h := ReadElfHeader(data, 16);
    ok := ScanSegments(data, h.phoff, h.phnum, h.entry, Segments(data, h.phnum));
    return ok && SectionsOk(h, |data|);
  }
}
