// The generated NVMe image as the kernel mounts it: its EFI partition, read
// block by block from the finished disk, through the boot volume backend.
module BootImage {
  import opened Bytes
  import JournalFormat
  import opened BootFat
  import opened BootFiles
  import D = JournalDisk
  import N = NvmeImage

  // ------------------------------------------------------------ the blocks

  /** A layout and what the image script is given. */
  datatype Image = Image(l: N.Layout, efi: seq<byte>, readme: nat, crossLink: bool, f: N.Fixtures)

  function FileClusters(m: Image): nat {
    D.Sectors(|m.efi|, m.l.bs)
  }

  /** The images the script accepts, on either of its layouts. */
  predicate Built(m: Image) {
    && N.Ordered(m.l) && m.l.rootSectors == D.Sectors(512 * 32, m.l.bs)
    && N.Accepted(m.l, FileClusters(m), m.readme) && N.FixturesOk(m.f)
  }

  lemma LayoutsBuild(m: Image, bs: JournalFormat.BlockSize)
    requires m.l == N.LayoutFor(bs) && N.Accepted(m.l, FileClusters(m), m.readme) && N.FixturesOk(m.f)
    ensures Built(m)
  {
    N.LayoutOrdered(bs);
  }

  function Disk(m: Image): (disk: seq<byte>)
    requires Built(m)
    ensures |disk| == N.TotalBytes(m.l)
  {
    N.Disk(m.l, m.efi, m.readme, m.crossLink, m.f)
  }

  function Table(m: Image): (fat: seq<byte>)
    requires Built(m)
    ensures |fat| == D.At(m.l.sectorsPerFat, m.l.bs)
  {
    N.Table(m.l, FileClusters(m), m.readme)
  }

  /** The blocks of its EFI partition. */
  function EfiBlocks(m: Image): (d: seq<Block>)
    requires Built(m)
    ensures |d| == m.l.efiSectors && BlocksOf(d, m.l.bs)
  {
    EfiInside(m);
    D.PartitionBlocks(Disk(m), m.l.efiFirst, m.l.efiSectors, m.l.bs)
  }

  lemma EfiInside(m: Image)
    requires Built(m)
    ensures D.At(m.l.efiFirst + m.l.efiSectors, m.l.bs) <= N.TotalBytes(m.l)
  {
  }

  function Region(m: Image, k: nat): N.Region
    requires Built(m) && k < 14
  {
    N.Regions(m.l, m.efi, m.readme, m.crossLink, m.f)[k]
  }

  lemma AtSum(a: nat, b: nat, bs: JournalFormat.BlockSize)
    ensures D.At(a + b, bs) == D.At(a, bs) + D.At(b, bs)
    ensures D.At(b + 1, bs) == D.At(b, bs) + bs && D.At(0, bs) == 0
  {
  }

  lemma AtOrder(a: nat, b: nat, bs: JournalFormat.BlockSize)
    requires a <= b
    ensures D.At(a, bs) <= D.At(b, bs)
  {
  }

  lemma EfiBacked(m: Image)
    requires Built(m)
    ensures D.Backs(Disk(m), m.l.efiFirst, EfiBlocks(m), m.l.bs)
  {
    hide Disk, Built, D.At;
    EfiInside(m);
  }

  /** The blocks of a run, side by side, are that part of the disk. */
  lemma {:induction false} RunBytes(disk: seq<byte>, first: nat, d: seq<Block>, lo: nat, n: nat, bs: JournalFormat.BlockSize)
    requires D.Backs(disk, first, d, bs) && BlocksOf(d, bs) && lo + n <= |d|
    ensures var o := D.At(first + lo, bs);
            o + D.At(n, bs) <= |disk| && Joined(d[lo..lo + n]) == disk[o..o + D.At(n, bs)]
    decreases n
  {
    hide D.At, Joined;
    var o := D.At(first + lo, bs);
    AtOrder(first + lo + n, first + |d|, bs);
    AtSum(first + lo, n, bs);
    if n == 0 {
      JoinedNothing();
      AtSum(0, 0, bs);
      assert d[lo..lo + 0] == [];
    } else {
      RunBytes(disk, first, d, lo + 1, n - 1, bs);
      AtSum(n, n - 1, bs);
      AtSum(0, first + lo, bs);
      var rest := d[lo + 1..lo + 1 + (n - 1)];
      assert d[lo..lo + n] == [d[lo]] + rest;
      JoinedMore(d[lo], rest);
      SliceTwo(disk, o, o + bs, o + D.At(n, bs));
    }
  }

  lemma JoinedNothing()
    ensures Joined([]) == []
  {
  }

  lemma JoinedMore(s: seq<byte>, ss: seq<seq<byte>>)
    ensures Joined([s] + ss) == s + Joined(ss)
  {
    assert ([s] + ss)[1..] == ss;
  }

  /** A write that lies inside a partition and reads back. */
  ghost predicate Written(disk: seq<byte>, first: nat, n: nat, lba: nat, data: seq<byte>, bs: JournalFormat.BlockSize) {
    && first <= lba && lba - first + D.Sectors(|data|, bs) <= n
    && D.At(lba, bs) + |data| <= |disk| && disk[D.At(lba, bs)..D.At(lba, bs) + |data|] == data
  }

  lemma RegionWritten(m: Image, k: nat)
    requires Built(m) && 5 <= k < 14
    ensures Written(Disk(m), m.l.efiFirst, m.l.efiSectors, Region(m, k).lba, Region(m, k).data, m.l.bs)
  {
    var l := m.l;
    hide N.Accepted, N.Disk, N.Regions, D.At;
    N.RegionsApart(l, m.efi, m.readme, m.crossLink, m.f);
    N.DiskReadsBack(l, m.efi, m.readme, m.crossLink, m.f, k);
    var rs := N.Regions(l, m.efi, m.readme, m.crossLink, m.f);
    assert rs[5..][k - 5] == rs[k];
  }

  /** A whole block of a write, found on the partition. */
  lemma DataBlock(disk: seq<byte>, first: nat, d: seq<Block>, lba: nat, data: seq<byte>, i: nat, bs: JournalFormat.BlockSize)
    requires D.Backs(disk, first, d, bs) && Written(disk, first, |d|, lba, data, bs) && D.At(i + 1, bs) <= |data|
    ensures first <= lba && lba - first + i < |d| && D.At(i, bs) + bs <= |data|
    ensures d[lba - first + i] == data[D.At(i, bs)..D.At(i, bs) + bs]
  {
    WholeBlock(|data|, i, bs);
    hide D.Sectors, D.At;
    AtSum(lba, i, bs);
    assert first + (lba - first + i) == lba + i;
    SliceOfSlice(disk, D.At(lba, bs), D.At(lba, bs) + |data|, D.At(i, bs), D.At(i, bs) + bs);
  }

  lemma WholeBlock(n: nat, i: nat, bs: JournalFormat.BlockSize)
    requires D.At(i + 1, bs) <= n
    ensures i < D.Sectors(n, bs) && D.At(i, bs) + bs == D.At(i + 1, bs)
  {
  }

  /** A whole write, found on the partition. */
  lemma DataRun(disk: seq<byte>, first: nat, d: seq<Block>, lba: nat, data: seq<byte>, bs: JournalFormat.BlockSize)
    requires D.Backs(disk, first, d, bs) && BlocksOf(d, bs) && Written(disk, first, |d|, lba, data, bs)
    ensures var lo, n := lba - first, D.Sectors(|data|, bs);
            && 0 <= lo && lo + n <= |d| && |data| <= |Joined(d[lo..lo + n])|
            && Joined(d[lo..lo + n])[..|data|] == data
  {
    HeldBy(|data|, bs);
    hide D.Sectors, D.At, Joined;
    RunBytes(disk, first, d, lba - first, D.Sectors(|data|, bs), bs);
    SliceOfSlice(disk, D.At(lba, bs), D.At(lba, bs) + D.At(D.Sectors(|data|, bs), bs), 0, |data|);
  }

  lemma HeldBy(n: nat, bs: JournalFormat.BlockSize)
    ensures n <= D.At(D.Sectors(n, bs), bs)
  {
  }

  lemma Places(m: Image)
    requires Built(m)
    ensures Region(m, 5) == N.Region(m.l.efiFirst, N.BootSector(m.l))
    ensures Region(m, 6) == N.Region(m.l.firstFat, Table(m))
    ensures Region(m, 7) == N.Region(m.l.firstFat + m.l.sectorsPerFat, Table(m))
    ensures Region(m, 8) == N.Region(m.l.rootLba, N.RootDirectory(m.l, m.readme))
    ensures Region(m, 9) == N.Region(m.l.firstData, N.EfiDirectory(m.l))
    ensures Region(m, 10) == N.Region(m.l.firstData + 1, N.BootDirectory(m.l, |m.efi|, m.readme, m.crossLink))
  {
    hide N.Table, N.BootSector, N.RootDirectory, N.EfiDirectory, N.BootDirectory;
  }

  lemma FilePlaces(m: Image)
    requires Built(m)
    ensures Region(m, 11) == N.Region(m.l.firstData + 2, m.efi)
    ensures Region(m, 12) == N.Region(m.l.firstData + m.readme - 2, m.f.readmeText)
    ensures Region(m, 13) == N.Region(m.l.firstData + m.readme + 1 - 2, m.f.configText)
  {
    hide N.Table, N.BootSector, N.RootDirectory, N.EfiDirectory, N.BootDirectory;
  }

  // ------------------------------------------------------------ the volume

  /** The volume a reader finds, through the first or the second table copy. */
  function VolumeOf(m: Image, second: bool): Volume
    requires Built(m)
  {
    var l := m.l;
    Volume(m.l.bs, 1, if second then 1 + l.sectorsPerFat else 1, 1 + 2 * l.sectorsPerFat, l.rootSectors,
           1 + 2 * l.sectorsPerFat + l.rootSectors, l.clusterCount, EfiBlocks(m))
  }

  lemma VolumeValid(m: Image, second: bool)
    requires Built(m)
    ensures ValidVolume(VolumeOf(m, second))
    ensures ClusterBytes(VolumeOf(m, second)) == m.l.bs
    ensures var v := VolumeOf(m, second); v.bs == m.l.bs && v.d == EfiBlocks(m) && v.clusterCount == m.l.clusterCount
    ensures var l := m.l; l.firstData - l.efiFirst == 1 + 2 * l.sectorsPerFat + l.rootSectors
  {
    hide EfiBlocks;
  }

  lemma BootSectorReads(l: N.Layout)
    requires N.Ordered(l)
    ensures var s := N.BootSector(l);
            && Read16(s, 11) == l.bs && s[13] == 1 && Read16(s, 14) == 1 && s[16] == 2 && Read16(s, 17) == 512
            && Read16(s, 19) == l.efiSectors && Read16(s, 22) == l.sectorsPerFat && Read16(s, 510) == 0xAA55
  {
    hide Le;
    var s := N.BootSector(l);
    var geometry := Le(l.bs, 2) + [1] + Le(1, 2) + [2] + Le(512, 2) + Le(l.efiSectors, 2) + [0xF8]
                    + Le(l.sectorsPerFat, 2) + Le(63, 2) + Le(255, 2) + Le(l.efiFirst, 4);
    GeometryFields(geometry, Le(l.bs, 2), Le(1, 2), Le(512, 2), Le(l.efiSectors, 2), Le(l.sectorsPerFat, 2),
                   Le(63, 2) + Le(255, 2) + Le(l.efiFirst, 4));
    assert s[11..11 + |geometry|] == geometry;
    FieldShift(s, 11, geometry);
    Widths();
    FieldOfLe(geometry, 0, 2, l.bs);
    FieldOfLe(geometry, 3, 2, 1);
    FieldOfLe(geometry, 6, 2, 512);
    FieldOfLe(geometry, 8, 2, l.efiSectors);
    FieldOfLe(geometry, 11, 2, l.sectorsPerFat);
    assert s[11 + 2] == geometry[2] && s[11 + 5] == geometry[5];
    SignatureWord();
    FieldOfLe(s, 510, 2, 0xAA55);
  }

  lemma GeometryFields(g: seq<byte>, a: seq<byte>, b: seq<byte>, c: seq<byte>, d: seq<byte>, e: seq<byte>, rest: seq<byte>)
    requires |a| == |b| == |c| == |d| == |e| == 2
    requires |g| == 13 + |rest| && g == a + [1] + b + [2] + c + d + [0xF8] + e + rest
    ensures g[0..2] == a && g[2] == 1 && g[3..5] == b && g[5] == 2 && g[6..8] == c && g[8..10] == d && g[11..13] == e
  {
  }

  lemma FirstBlock(m: Image)
    requires Built(m)
    ensures N.Ordered(m.l) && 0 < |EfiBlocks(m)| && EfiBlocks(m)[0] == N.BootSector(m.l)
  {
    hide Disk, EfiBlocks, N.BootSector, N.RootDirectory, N.EfiDirectory, N.BootDirectory, Written, Region, Table, D.At;
    Places(m);
    RegionWritten(m, 5);
    EfiBacked(m);
    AtSum(0, 0, m.l.bs);
    DataBlock(Disk(m), m.l.efiFirst, EfiBlocks(m), m.l.efiFirst, N.BootSector(m.l), 0, m.l.bs);
  }

  /** The boot sector the script writes opens as the volume it lays out. */
  lemma Opens(m: Image)
    requires Built(m)
    ensures 0 < |EfiBlocks(m)| && Open(EfiBlocks(m), m.l.bs) == Opened(VolumeOf(m, false))
  {
    hide EfiBlocks, N.BootSector, N.Accepted;
    FirstBlock(m);
    BootSectorReads(m.l);
    RootDivision(m.l);
  }

  lemma RootDivision(l: N.Layout)
    ensures CeilDiv(512 * 32, l.bs) == D.Sectors(512 * 32, l.bs)
  {
  }

  // -------------------------------------------------------------- the table

  /** What the kernel decodes from the table entry of a cluster. */
  function LinkValue(fileClusters: nat, readme: nat, c: nat): Link {
    if 4 <= c && c + 1 < 4 + fileClusters then NextCluster(c + 1)
    else if c < 4 || c + 1 == 4 + fileClusters || c == readme || c == readme + 1 then EndOfChain
    else FreeCluster
  }

  lemma EntryOf(m: Image, second: bool, c: nat)
    requires Built(m) && 2 <= c < m.l.clusterCount + 2
    ensures ValidVolume(VolumeOf(m, second)) && InRange(VolumeOf(m, second), c)
    ensures 2 * c + 2 <= |Table(m)| && TableEntry(VolumeOf(m, second), c) == N.Get16(Table(m), c)
  {
    hide VolumeOf, Built, Disk, EfiBlocks, Table, Written, ValidVolume, D.At, Quotient, Remainder, D.Backs, N.Ordered;
    var v, l := VolumeOf(m, second), m.l;
    VolumeValid(m, second);
    TableWritten(m, second);
    EntryInside(v, c);
    Division(2 * c, m.l.bs);
    var q, r := Quotient(2 * c, m.l.bs), Remainder(2 * c, m.l.bs);
    EntryBlock(q, r, c, l, m.l.bs);
    EntryAt(Disk(m), l.efiFirst, v.d, l.efiFirst + v.firstFat, Table(m), q, r, m.l.bs);
  }

  lemma TableWritten(m: Image, second: bool)
    requires Built(m)
    ensures N.Ordered(m.l)
    ensures D.Backs(Disk(m), m.l.efiFirst, EfiBlocks(m), m.l.bs)
    ensures Written(Disk(m), m.l.efiFirst, |EfiBlocks(m)|, m.l.efiFirst + VolumeOf(m, second).firstFat, Table(m), m.l.bs)
  {
    hide Disk, EfiBlocks, Table, Written, Region, N.BootSector, N.RootDirectory, N.EfiDirectory, N.BootDirectory, D.Sectors,
      D.At, N.Accepted;
    Places(m);
    RegionWritten(m, if second then 7 else 6);
    EfiBacked(m);
  }

  lemma EntryAt(disk: seq<byte>, first: nat, d: seq<Block>, lba: nat, fat: seq<byte>, q: nat, r: nat,
                bs: JournalFormat.BlockSize)
    requires D.Backs(disk, first, d, bs) && Written(disk, first, |d|, lba, fat, bs)
    requires D.At(q + 1, bs) <= |fat| && r + 2 <= bs
    ensures first <= lba && lba - first + q < |d| && |d[lba - first + q]| == bs && D.At(q, bs) + r + 2 <= |fat|
    ensures Read16(d[lba - first + q], r) == Read16(fat, D.At(q, bs) + r)
  {
    hide Written, D.Backs;
    DataBlock(disk, first, d, lba, fat, q, bs);
    AtSum(0, q, bs);
    SliceOfSlice(fat, D.At(q, bs), D.At(q, bs) + bs, r, r + 2);
  }

  lemma EntryBlock(q: nat, r: nat, c: nat, l: N.Layout, bs: JournalFormat.BlockSize)
    requires N.Ordered(l) && l.bs == bs && c < l.clusterCount + 2 && 2 * c == bs * q + r && r + 2 <= bs
    ensures D.At(q, bs) + r == 2 * c && D.At(q + 1, bs) <= D.At(l.sectorsPerFat, bs)
    ensures 2 * c + 2 <= D.At(l.sectorsPerFat, bs)
  {
  }

  lemma LinkOf(m: Image, second: bool, c: nat)
    requires Built(m) && 2 <= c < m.l.clusterCount + 2
    ensures ValidVolume(VolumeOf(m, second))
    ensures DecodeLink(VolumeOf(m, second), c) == LinkValue(FileClusters(m), m.readme, c)
  {
    VolumeValid(m, second);
    hide TableEntry, N.Get16, ValidVolume, Table, N.Table, EfiBlocks, N.Ordered, N.Accepted, Built, InRange, VolumeOf;
    EntryOf(m, second, c);
    TableOf(m, c);
    LinkDecoded(VolumeOf(m, second), c, FileClusters(m), m.readme);
  }

  lemma TableOf(m: Image, c: nat)
    requires Built(m) && 2 <= c < m.l.clusterCount + 2
    ensures N.FIRST_FILE_CLUSTER + FileClusters(m) < 0x1_0000 && 2 * c + 2 <= |Table(m)|
    ensures N.Get16(Table(m), c) == N.EntryValue(c, FileClusters(m), m.readme)
    ensures N.FIRST_FILE_CLUSTER + FileClusters(m) <= m.readme < m.l.clusterCount + 1
  {
    hide N.Get16, N.Table;
    N.TableEntries(m.l, FileClusters(m), m.readme, c);
  }

  lemma LinkDecoded(v: Volume, c: nat, fileClusters: nat, readme: nat)
    requires ValidVolume(v) && InRange(v, c) && N.FIRST_FILE_CLUSTER + fileClusters <= readme < v.clusterCount + 1
    requires TableEntry(v, c) == N.EntryValue(c, fileClusters, readme)
    ensures DecodeLink(v, c) == LinkValue(fileClusters, readme, c)
  {
    hide TableEntry;
  }

  // -------------------------------------------------------- the directories

  const EFI_NAME: seq<byte> := [0x45, 0x46, 0x49]
  const BOOT_NAME: seq<byte> := [0x42, 0x4F, 0x4F, 0x54]
  const README_TXT: seq<byte> := [0x52, 0x45, 0x41, 0x44, 0x4D, 0x45, 0x2E, 0x54, 0x58, 0x54]
  const BOOTX64_EFI: seq<byte> := [0x42, 0x4F, 0x4F, 0x54, 0x58, 0x36, 0x34, 0x2E, 0x45, 0x46, 0x49]
  const BOOT_CFG: seq<byte> := [0x42, 0x4F, 0x4F, 0x54, 0x2E, 0x43, 0x46, 0x47]

  lemma Names()
    ensures ShortName(N.EFI_DIRECTORY_NAME) == EFI_NAME && ShortName(N.BOOT_DIRECTORY_NAME) == BOOT_NAME
    ensures ShortName(N.README_NAME) == README_TXT && ShortName(N.EFI_FILE_NAME) == BOOTX64_EFI
    ensures ShortName(N.CONFIG_NAME) == BOOT_CFG
  {
    hide ShortName;
    NameIs(N.EFI_DIRECTORY_NAME, 3, 0, EFI_NAME);
    NameIs(N.BOOT_DIRECTORY_NAME, 4, 0, BOOT_NAME);
    NameIs(N.README_NAME, 6, 3, README_TXT);
    NameIs(N.EFI_FILE_NAME, 7, 3, BOOTX64_EFI);
    NameIs(N.CONFIG_NAME, 4, 3, BOOT_CFG);
  }

  lemma NameIs(raw: seq<byte>, b: nat, e: nat, name: seq<byte>)
    requires |raw| == 11 && 0 < b <= 8 && e <= 3 && raw[0] != 5
    requires forall k :: 0 <= k < 11 ==> raw[k] != 0 && (raw[k] == SPACE <==> b <= k < 8 || 8 + e <= k)
    requires |name| == b + (if e == 0 then 0 else 1 + e) && name[..b] == raw[..b]
    requires 0 < e ==> name[b] == FULL_STOP && name[b + 1..] == raw[8..8 + e]
    ensures ShortName(raw) == name
  {
    hide ShortName;
    ShortNameOf(raw, b, e);
  }

  /** An entry the script writes is the entry the kernel decodes. */
  lemma ParseOne(sector: seq<byte>, k: nat, name: seq<byte>, attributes: byte, first: u16, size: u32)
    requires |sector| % 32 == 0 && 32 * k + 32 <= |sector| && |name| == 11
    requires sector[32 * k..32 * k + 32] == N.DirectoryEntry(name, attributes, first, size)
    requires name[0] != 0 && name[0] != 0xE5 && attributes != 0x0F && (attributes / 8) % 2 == 0
    ensures var rest := ParseEntries(sector, k + 1);
            ParseEntries(sector, k)
            == DirectorySector([DirEntry(ShortName(name), (attributes / 16) % 2 == 1, first, size)] + rest.entries, rest.ended)
  {
    var e, o := N.DirectoryEntry(name, attributes, first, size), 32 * k;
    N.EntryReads(name, attributes, first, size, sector, o);
    EntryHead(name, attributes, first, size);
    FieldShift(sector, o, e);
    SubSlice(sector, o, e, 0, 11);
    hide N.DirectoryEntry, ShortName, Field;
    assert sector[o + 0] == e[0] && sector[o + 11] == e[11];
    assert Field(sector, o + 20, 2) == Field(e, 20, 2);
  }

  lemma EntryHead(name: seq<byte>, attributes: byte, first: u16, size: u32)
    requires |name| == 11
    ensures var e := N.DirectoryEntry(name, attributes, first, size);
            e[0..11] == name && e[0] == name[0] && e[11] == attributes && Field(e, 20, 2) == 0
  {
    hide Le;
    var e := N.DirectoryEntry(name, attributes, first, size);
    assert e[20..22] == Zeros(2) == [0, 0];
    ZeroField();
  }

  lemma ZeroField()
    ensures UnLe([0, 0]) == 0
  {
    assert UnLe([0, 0][1..]) == UnLe([0]) == 0 + 256 * UnLe([]);
  }

  /** The entries of each directory block. */
  function RootEntries(m: Image): seq<DirEntry> {
    [DirEntry(EFI_NAME, true, 2, 0), DirEntry(README_TXT, false, m.readme, N.README_TEXT_LENGTH)]
  }

  function EfiEntries(): seq<DirEntry> {
    [DirEntry(BOOT_NAME, true, 3, 0)]
  }

  function ConfigFirst(m: Image): nat {
    if m.crossLink then m.readme else m.readme + 1
  }

  function BootEntries(m: Image): seq<DirEntry> {
    [DirEntry(BOOTX64_EFI, false, N.FIRST_FILE_CLUSTER, |m.efi|),
     DirEntry(BOOT_CFG, false, ConfigFirst(m), N.CONFIG_TEXT_LENGTH)]
  }

  lemma ParseEnd(sector: seq<byte>, k: nat)
    requires |sector| % 32 == 0 && 32 * k < |sector| && sector[32 * k] == 0
    ensures ParseEntries(sector, k) == DirectorySector([], true)
  {
  }

  lemma ParseTwo(sector: seq<byte>, n0: seq<byte>, a0: byte, f0: u16, s0: u32, n1: seq<byte>, a1: byte, f1: u16, s1: u32)
    requires |sector| % 32 == 0 && 64 < |sector| && |n0| == |n1| == 11 && sector[64] == 0
    requires sector[..64] == N.DirectoryEntry(n0, a0, f0, s0) + N.DirectoryEntry(n1, a1, f1, s1)
    requires n0[0] != 0 && n0[0] != 0xE5 && a0 != 0x0F && (a0 / 8) % 2 == 0
    requires n1[0] != 0 && n1[0] != 0xE5 && a1 != 0x0F && (a1 / 8) % 2 == 0
    ensures ParseEntries(sector, 0)
            == DirectorySector([DirEntry(ShortName(n0), (a0 / 16) % 2 == 1, f0, s0),
                                DirEntry(ShortName(n1), (a1 / 16) % 2 == 1, f1, s1)], true)
  {
    hide N.DirectoryEntry, ShortName, ParseEntries;
    var e0, e1 := N.DirectoryEntry(n0, a0, f0, s0), N.DirectoryEntry(n1, a1, f1, s1);
    assert sector[0..32] == sector[..64][0..32] == e0;
    assert sector[32..64] == sector[..64][32..64] == e1;
    ParseOne(sector, 0, n0, a0, f0, s0);
    ParseOne(sector, 1, n1, a1, f1, s1);
    ParseEnd(sector, 2);
  }

  lemma Sizes(m: Image)
    requires Built(m)
    ensures m.readme + 1 < 0x1_0000 && |m.efi| < 0x1_0000_0000 && 1 <= m.l.rootSectors
  {
  }

  lemma RootParsed(l: N.Layout, readme: nat, sector: seq<byte>)
    requires N.Ordered(l) && readme < 0x1_0000 && 64 < l.bs
    requires |sector| == l.bs && sector == N.RootDirectory(l, readme)[0..l.bs]
    ensures ParseEntries(sector, 0)
            == DirectorySector([DirEntry(EFI_NAME, true, 2, 0), DirEntry(README_TXT, false, readme, N.README_TEXT_LENGTH)], true)
  {
    Names();
    hide N.DirectoryEntry, ShortName, ParseEntries;
    ParseTwo(sector, N.EFI_DIRECTORY_NAME, 0x10, 2, 0, N.README_NAME, 0x21, readme, N.README_TEXT_LENGTH);
  }

  lemma EfiParsed(l: N.Layout)
    ensures ParseEntries(N.EfiDirectory(l), 0) == DirectorySector(EfiEntries(), true)
  {
    Names();
    hide N.DirectoryEntry, ShortName, ParseEntries;
    var sector := N.EfiDirectory(l);
    ParseOne(sector, 0, N.BOOT_DIRECTORY_NAME, 0x10, 3, 0);
    ParseEnd(sector, 1);
  }

  lemma BootParsed(l: N.Layout, m: Image)
    requires |m.efi| < 0x1_0000_0000 && m.readme + 1 < 0x1_0000
    ensures ParseEntries(N.BootDirectory(l, |m.efi|, m.readme, m.crossLink), 0) == DirectorySector(BootEntries(m), true)
  {
    Names();
    hide N.DirectoryEntry, ShortName, ParseEntries;
    var sector := N.BootDirectory(l, |m.efi|, m.readme, m.crossLink);
    ParseTwo(sector, N.EFI_FILE_NAME, 0x20, 4, |m.efi|, N.CONFIG_NAME, 0x21, ConfigFirst(m), N.CONFIG_TEXT_LENGTH);
  }

  /** The first block of a write. */
  lemma RegionHead(m: Image, k: nat)
    requires Built(m) && 5 <= k < 14 && m.l.bs <= |Region(m, k).data|
    ensures var r, l := Region(m, k), m.l;
            && l.efiFirst <= r.lba && r.lba - l.efiFirst < |EfiBlocks(m)|
            && EfiBlocks(m)[r.lba - l.efiFirst] == r.data[0..m.l.bs]
  {
    hide Built, Disk, EfiBlocks, Region, D.At, Written;
    RegionWritten(m, k);
    EfiBacked(m);
    AtSum(0, 0, m.l.bs);
    DataBlock(Disk(m), m.l.efiFirst, EfiBlocks(m), Region(m, k).lba, Region(m, k).data, 0, m.l.bs);
  }

  /** The first block of the root directory and the two directory clusters. */
  ghost predicate DirectoryBlocks(v: Volume, root: seq<byte>, efi: seq<byte>, boot: seq<byte>)
    requires ValidVolume(v)
  {
    && 0 < v.rootSectors && v.d[v.rootLba] == root
    && InRange(v, 2) && v.d[ClusterLba(v, 2)] == efi
    && InRange(v, 3) && v.d[ClusterLba(v, 3)] == boot
  }

  lemma DirectoriesFound(m: Image, second: bool)
    requires Built(m)
    ensures ValidVolume(VolumeOf(m, second)) && m.l.bs <= |N.RootDirectory(m.l, m.readme)|
    ensures DirectoryBlocks(VolumeOf(m, second), N.RootDirectory(m.l, m.readme)[0..m.l.bs], N.EfiDirectory(m.l),
                            N.BootDirectory(m.l, |m.efi|, m.readme, m.crossLink))
  {
    hide EfiBlocks, Region, N.RootDirectory, N.EfiDirectory, N.BootDirectory, N.BootSector, Built, ValidVolume, Table, N.Ordered,
      ClusterLba, InRange, D.At;
    VolumeValid(m, second);
    Places(m);
    RootFits(m);
    RegionHead(m, 8);
    RegionHead(m, 9);
    RegionHead(m, 10);
    ClusterPlaces(VolumeOf(m, second));
  }

  lemma RootFits(m: Image)
    requires Built(m)
    ensures N.Ordered(m.l) && m.l.bs <= D.At(m.l.rootSectors, m.l.bs)
    ensures m.l.firstData - m.l.efiFirst == 1 + 2 * m.l.sectorsPerFat + m.l.rootSectors
    ensures m.l.rootLba - m.l.efiFirst == 1 + 2 * m.l.sectorsPerFat && 0 < m.l.rootSectors
  {
  }

  lemma ClusterPlaces(v: Volume)
    requires ValidVolume(v) && v.spc == 1
    ensures forall c: nat :: InRange(v, c) ==> c >= 2 && ClusterLba(v, c) == v.firstData + (c - 2)
    ensures InRange(v, 2) && InRange(v, 3)
  {
  }

  /** The entries of the three directories, each ended in its first block. */
  ghost predicate Directories(v: Volume, root: seq<DirEntry>, efi: seq<DirEntry>, boot: seq<DirEntry>)
    requires ValidVolume(v)
  {
    && 0 < v.rootSectors && ParseEntries(v.d[v.rootLba], 0) == DirectorySector(root, true)
    && InRange(v, 2) && ParseEntries(v.d[ClusterLba(v, 2)], 0) == DirectorySector(efi, true)
    && InRange(v, 3) && ParseEntries(v.d[ClusterLba(v, 3)], 0) == DirectorySector(boot, true)
  }

  /** What the kernel decodes from the finished disk's own directory blocks: the
      script's names, kinds, first clusters and sizes, and nothing else. */
  lemma DirectoriesRead(m: Image, second: bool)
    requires Built(m)
    ensures ValidVolume(VolumeOf(m, second))
    ensures Directories(VolumeOf(m, second), RootEntries(m), EfiEntries(), BootEntries(m))
  {
    hide Built, EfiBlocks, N.RootDirectory, N.EfiDirectory, N.BootDirectory, ParseEntries, ClusterLba, ValidVolume, N.Ordered;
    DirectoriesFound(m, second);
    TableWritten(m, second);
    Sizes(m);
    RootParsed(m.l, m.readme, N.RootDirectory(m.l, m.readme)[0..m.l.bs]);
    EfiParsed(m.l);
    BootParsed(m.l, m);
  }

  // --------------------------------------------------------------- the mount

  /** What the mount sees of a generated volume. */
  ghost predicate Generated(v: Volume, m: Image) {
    && ValidVolume(v) && Directories(v, RootEntries(m), EfiEntries(), BootEntries(m))
    && N.FIRST_FILE_CLUSTER + FileClusters(m) <= m.readme < v.clusterCount + 1
    && (forall c :: InRange(v, c) ==> DecodeLink(v, c) == LinkValue(FileClusters(m), m.readme, c))
    && ClustersOf(v, |m.efi|) == FileClusters(m)
    && ClustersOf(v, N.README_TEXT_LENGTH) == 1 && ClustersOf(v, N.CONFIG_TEXT_LENGTH) == 1
  }

  lemma IsGenerated(m: Image, second: bool)
    requires Built(m)
    ensures Generated(VolumeOf(m, second), m)
  {
    hide VolumeOf, ValidVolume, DecodeLink, Directories, Built, EfiBlocks, ClustersOf, InRange;
    var v := VolumeOf(m, second);
    DirectoriesRead(m, second);
    VolumeValid(m, second);
    EnoughClusters(m, v);
    forall c | InRange(v, c)
      ensures DecodeLink(v, c) == LinkValue(FileClusters(m), m.readme, c)
    {
      InTable(m, v, c);
      LinkOf(m, second, c);
    }
  }

  lemma InTable(m: Image, v: Volume, c: nat)
    requires v.clusterCount == m.l.clusterCount && InRange(v, c)
    ensures 2 <= c < m.l.clusterCount + 2
  {
  }

  lemma EnoughClusters(m: Image, v: Volume)
    requires Built(m) && ValidVolume(v) && ClusterBytes(v) == m.l.bs && v.clusterCount == m.l.clusterCount
    ensures ClustersOf(v, |m.efi|) == FileClusters(m)
    ensures ClustersOf(v, N.README_TEXT_LENGTH) == 1 && ClustersOf(v, N.CONFIG_TEXT_LENGTH) == 1
    ensures N.FIRST_FILE_CLUSTER + FileClusters(m) <= m.readme < v.clusterCount + 1
  {
    hide ClusterBytes, N.Ordered, ValidVolume;
  }

  /** The state after each directory of a healthy image. */
  function AfterRoot(m: Image): State {
    State([Directory(0, 0), Directory(2, 1)], [FileEntry(README_TXT, 0, m.readme, N.README_TEXT_LENGTH, [m.readme])],
          {m.readme}, [[m.readme]])
  }

  function AfterEfi(m: Image): State {
    var st := AfterRoot(m);
    State(st.dirs + [Directory(3, 2)], st.files, st.claimed + {2}, st.chains + [[2]])
  }

  function EfiChain(m: Image): seq<nat> {
    Consecutive(N.FIRST_FILE_CLUSTER, FileClusters(m))
  }

  function AfterFile(m: Image): State {
    var st := AfterEfi(m);
    State(st.dirs, st.files + [FileEntry(BOOTX64_EFI, 2, N.FIRST_FILE_CLUSTER, |m.efi|, EfiChain(m))],
          st.claimed + {3} + Clusters(EfiChain(m)), st.chains + [EfiChain(m)])
  }

  function AfterBoot(m: Image): State {
    var st := AfterFile(m);
    State(st.dirs, st.files + [FileEntry(BOOT_CFG, 2, m.readme + 1, N.CONFIG_TEXT_LENGTH, [m.readme + 1])],
          st.claimed + {m.readme + 1}, st.chains + [[m.readme + 1], [3]])
  }

  /** A file of one cluster. */
  lemma OneCluster(v: Volume, c: nat, size: nat, claimed: set<nat>)
    requires ValidVolume(v) && InRange(v, c) && DecodeLink(v, c) == EndOfChain && ClustersOf(v, size) <= 1
    ensures ValidateFile(v, c, size, claimed)
            == if c in claimed then WalkFailed(CrossLinkedCluster) else Walked(claimed + {c}, [c])
  {
    hide DecodeLink, ClustersOf;
  }

  /** A directory that ends in its first block. */
  lemma EndedBlocks(v: Volume, lba: nat, n: nat, parent: nat, st: State)
    requires ValidVolume(v) && lba + n <= |v.d| && 0 < n && parent < |st.dirs| && ParseEntries(v.d[lba], 0).ended
    ensures ScanBlocks(v, lba, n, parent, st) == AddEntries(v, ParseEntries(v.d[lba], 0), 0, parent, st)
  {
    hide AddEntries, ParseEntries, ValidVolume;
  }

  lemma RootInside(v: Volume)
    requires ValidVolume(v)
    ensures v.rootLba + v.rootSectors <= |v.d| && 0 < v.spc && 0 < v.clusterCount
  {
  }

  lemma RootScanned(v: Volume, m: Image)
    requires Generated(v, m)
    ensures ScanDirectory(v, 0, ROOT_STATE) == Scanned(AfterRoot(m), true)
  {
    hide DecodeLink, ClustersOf, ParseEntries, ValidVolume, ValidateFile, ScanBlocks;
    RootInside(v);
    var sector := DirectorySector(RootEntries(m), true);
    EndedBlocks(v, v.rootLba, v.rootSectors, 0, ROOT_STATE);
    OneCluster(v, m.readme, N.README_TEXT_LENGTH, {});
    var st := ROOT_STATE.(dirs := [Directory(0, 0), Directory(2, 1)]);
    assert {} + {m.readme} == {m.readme} && ROOT_STATE.dirs + [Directory(2, 1)] == st.dirs;
    assert AddEntries(v, sector, 2, 0, AfterRoot(m)) == Scanned(AfterRoot(m), true);
    assert AddEntries(v, sector, 1, 0, st) == Scanned(AfterRoot(m), true);
    assert AddEntries(v, sector, 0, 0, ROOT_STATE) == Scanned(AfterRoot(m), true);
  }

  /** A directory of one cluster that ends in its first block. */
  lemma OneClusterDirectory(v: Volume, c: nat, index: nat, st: State, sector: DirectorySector)
    requires ValidVolume(v) && InRange(v, c) && DecodeLink(v, c) == EndOfChain && c !in st.claimed
    requires index < |st.dirs| && st.dirs[index].first == c && st.dirs[index].depth <= MAX_DEPTH
    requires ParseEntries(v.d[ClusterLba(v, c)], 0) == sector && sector.ended
    ensures ScanDirectory(v, index, st)
            == match AddEntries(v, sector, 0, index, st.(claimed := st.claimed + {c}))
               case ScanFailed(e) => ScanFailed(e)
               case Scanned(next, _) => Scanned(next.(chains := next.chains + [[c]]), true)
  {
    hide DecodeLink, ParseEntries, ValidVolume, AddEntries, ScanBlocks, ClusterLba;
    RootInside(v);
    var claimed := st.(claimed := st.claimed + {c});
    EndedBlocks(v, ClusterLba(v, c), v.spc, index, claimed);
    assert [] + [c] == [c];
  }

  lemma EfiScanned(v: Volume, m: Image)
    requires Generated(v, m)
    ensures ScanDirectory(v, 1, AfterRoot(m)) == Scanned(AfterEfi(m), true)
  {
    hide DecodeLink, ClustersOf, ParseEntries, ValidVolume, ScanDirectory, ClusterLba;
    var sector := DirectorySector(EfiEntries(), true);
    var st := AfterRoot(m);
    OneClusterDirectory(v, 2, 1, st, sector);
    var claimed := st.(claimed := st.claimed + {2});
    var next := claimed.(dirs := st.dirs + [Directory(3, 2)]);
    assert AddEntries(v, sector, 1, 1, next) == Scanned(next, true);
    assert AddEntries(v, sector, 0, 1, claimed) == Scanned(next, true);
  }

  /** The EFI file over the clusters claimed before it. */
  lemma EfiFileValidated(v: Volume, m: Image)
    requires Generated(v, m)
    ensures var claimed := {m.readme, 2, 3};
            ValidateFile(v, N.FIRST_FILE_CLUSTER, |m.efi|, claimed)
            == if m.efi != [] then Walked(claimed + Clusters(EfiChain(m)), EfiChain(m))
               else if m.readme == N.FIRST_FILE_CLUSTER then WalkFailed(CrossLinkedCluster)
               else WalkFailed(CorruptFilesystem)
  {
    hide DecodeLink, ClustersOf, ValidVolume, Directories, Clusters, WalkFile;
    RootInside(v);
    var claimed, n := {m.readme, 2, 3}, FileClusters(m);
    if m.efi != [] {
      EfiChainGood(v, m);
      WalkLinked(v, 4, n, claimed, claimed + Clusters(EfiChain(m)), EfiChain(m));
    } else {
      assert DecodeLink(v, 4) == LinkValue(0, m.readme, 4);
      EmptyFileWalk(v, n, claimed);
    }
  }

  lemma EmptyFileWalk(v: Volume, required: nat, claimed: set<nat>)
    requires ValidVolume(v) && (4 in claimed || DecodeLink(v, 4) == FreeCluster)
    ensures WalkFile(v, 4, 0, required, {}, claimed)
            == if 4 in claimed then WalkFailed(CrossLinkedCluster) else WalkFailed(CorruptFilesystem)
  {
    hide DecodeLink;
  }

  lemma EfiChainGood(v: Volume, m: Image)
    requires Generated(v, m) && m.efi != []
    ensures LinkedChain(v, N.FIRST_FILE_CLUSTER, EfiChain(m)) && Avoids(EfiChain(m), {m.readme, 2, 3})
    ensures |EfiChain(m)| == FileClusters(m)
  {
    hide DecodeLink, ClustersOf, ValidVolume, Directories, Consecutive;
    var chain := EfiChain(m);
    forall k | 0 <= k < |chain|
      ensures InRange(v, chain[k]) && DecodeLink(v, chain[k]) == LinkValue(FileClusters(m), m.readme, 4 + k)
    {
    }
  }

  /** The last directory: the EFI file, then the config, or the first refusal. */
  lemma BootScanned(v: Volume, m: Image)
    requires Generated(v, m)
    ensures ScanDirectory(v, 2, AfterEfi(m))
            == if m.efi == [] then
                 ScanFailed(if m.readme == N.FIRST_FILE_CLUSTER then CrossLinkedCluster else CorruptFilesystem)
               else if m.crossLink then ScanFailed(CrossLinkedCluster)
               else Scanned(AfterBoot(m), true)
  {
    hide DecodeLink, ClustersOf, ParseEntries, ValidVolume, ScanDirectory, ClusterLba, ValidateFile, Consecutive, Clusters;
    var sector := DirectorySector(BootEntries(m), true);
    var st := AfterEfi(m);
    OneClusterDirectory(v, 3, 2, st, sector);
    EfiFileValidated(v, m);
    var claimed := st.(claimed := {m.readme, 2, 3});
    assert st.claimed + {3} == {m.readme, 2, 3};
    assert BOOT_CFG != [] && !IsDots(BOOTX64_EFI) && !IsDots(BOOT_CFG);
    if m.efi != [] {
      NotInEfi(m, m.readme + 1);
      OneCluster(v, ConfigFirst(m), N.CONFIG_TEXT_LENGTH, AfterFile(m).claimed);
      var file := AfterFile(m);
      assert file.claimed == {m.readme, 2, 3} + Clusters(EfiChain(m));
      if !m.crossLink {
        var next := AfterBoot(m).(chains := file.chains + [[m.readme + 1]]);
        assert next.chains + [[3]] == AfterBoot(m).chains;
        assert AddEntries(v, sector, 2, 2, next) == Scanned(next, true);
        assert AddEntries(v, sector, 1, 2, file) == Scanned(next, true);
      } else {
        assert AddEntries(v, sector, 1, 2, file) == ScanFailed(CrossLinkedCluster);
      }
      assert AddEntries(v, sector, 0, 2, claimed) == AddEntries(v, sector, 1, 2, file);
    }
  }

  lemma NotInEfi(m: Image, c: nat)
    requires N.FIRST_FILE_CLUSTER + FileClusters(m) <= c
    ensures c !in Clusters(EfiChain(m))
  {
  }

  function FreeBelow(m: Image, hi: nat): int {
    var next := N.FIRST_FILE_CLUSTER + FileClusters(m);
    (if hi <= next then 0 else hi - next) - (if hi > m.readme then 1 else 0) - (if hi > m.readme + 1 then 1 else 0)
  }

  lemma {:induction false} FreeCounted(v: Volume, m: Image, hi: nat)
    requires Generated(v, m) && m.efi != [] && 2 <= hi <= v.clusterCount + 2
    ensures CountFree(v, hi) == FreeBelow(m, hi)
    decreases hi
  {
    hide DecodeLink, ClustersOf, ValidVolume, Directories;
    if hi > 2 {
      FreeCounted(v, m, hi - 1);
      assert InRange(v, hi - 1);
    }
  }

  /** What the mount of a generated image must return. */
  function Expected(m: Image): MountResult
    requires Built(m)
  {
    Room(m);
    ExpectedWith(m, m.l.clusterCount - FileClusters(m) - 4)
  }

  function ExpectedWith(m: Image, free: nat): MountResult {
    if m.efi == [] then Refused(if m.readme == N.FIRST_FILE_CLUSTER then CrossLinkedCluster else CorruptFilesystem)
    else if m.crossLink then Refused(CrossLinkedCluster)
    else Volumed(AfterBoot(m), free)
  }

  /** The mount of every generated volume, through either table copy. With a
      nonempty EFI file and the config in its own cluster it succeeds, with
      exactly three files on their chains; a cross-linked image is refused as
      such; an empty EFI file, whose entry names a cluster it does not own, is
      refused too. */
  lemma VolumeMounts(m: Image, second: bool)
    requires Built(m)
    ensures ValidVolume(VolumeOf(m, second)) && MountVolume(VolumeOf(m, second)) == Expected(m)
  {
    hide VolumeOf, Generated, Built, ValidVolume, MountVolume, ExpectedWith;
    var v := VolumeOf(m, second);
    IsGenerated(m, second);
    VolumeValid(m, second);
    Room(m);
    GeneratedMounts(v, m);
  }

  lemma GeneratedMounts(v: Volume, m: Image)
    requires Generated(v, m) && ValidVolume(v) && FileClusters(m) + 4 <= v.clusterCount
    ensures MountVolume(v) == ExpectedWith(m, v.clusterCount - FileClusters(m) - 4)
  {
    hide Generated, ScanAll, CountFree, ValidVolume, AfterBoot, FileClusters;
    Scans(v, m);
    if m.efi != [] {
      GeneratedFree(v, m);
    }
  }

  lemma Scans(v: Volume, m: Image)
    requires Generated(v, m) && ValidVolume(v)
    ensures ScanAll(v, 0, ROOT_STATE)
            == if m.efi == [] then
                 ScanFailed(if m.readme == N.FIRST_FILE_CLUSTER then CrossLinkedCluster else CorruptFilesystem)
               else if m.crossLink then ScanFailed(CrossLinkedCluster)
               else Scanned(AfterBoot(m), true)
  {
    hide Generated, ScanDirectory, ValidVolume, AfterRoot, AfterEfi, AfterBoot;
    DirectoryCounts(m);
    RootScanned(v, m);
    EfiScanned(v, m);
    BootScanned(v, m);
    assert ScanAll(v, 3, AfterBoot(m)) == Scanned(AfterBoot(m), true);
    assert ScanAll(v, 2, AfterEfi(m))
        == if m.efi == [] || m.crossLink then ScanDirectory(v, 2, AfterEfi(m)) else Scanned(AfterBoot(m), true);
    assert ScanAll(v, 1, AfterRoot(m)) == ScanAll(v, 2, AfterEfi(m));
  }

  lemma DirectoryCounts(m: Image)
    ensures |AfterRoot(m).dirs| == 2 && |AfterEfi(m).dirs| == |AfterBoot(m).dirs| == 3
  {
  }

  lemma Room(m: Image)
    requires Built(m)
    ensures FileClusters(m) + 4 <= m.l.clusterCount
  {
  }

  lemma GeneratedFree(v: Volume, m: Image)
    requires Generated(v, m) && m.efi != []
    ensures CountFree(v, v.clusterCount + 2) == v.clusterCount - FileClusters(m) - 4
  {
    hide DecodeLink, ClustersOf, ValidVolume, Directories, CountFree;
    RootInside(v);
    FreeCounted(v, m, v.clusterCount + 2);
  }

  /** The kernel's mount of the finished disk's EFI partition, from its boot
      sector on. */
  lemma ImageMounts(m: Image)
    requires Built(m)
    ensures 0 < |EfiBlocks(m)| && Mount(EfiBlocks(m), m.l.bs) == Expected(m)
  {
    hide Open, VolumeOf, EfiBlocks, MountVolume, Built;
    Opens(m);
    VolumeMounts(m, false);
  }

  /** The claimed clusters are counted exactly: with the free ones they are all
      the clusters of the volume. */
  lemma ClaimedCount(m: Image)
    requires Built(m) && m.efi != [] && !m.crossLink
    ensures Expected(m).Volumed?
    ensures |Expected(m).state.claimed| + Expected(m).free == m.l.clusterCount
  {
    hide AfterBoot, Built, N.Accepted, N.Ordered, FileClusters;
    Room(m);
    ClaimedSize(m);
  }

  lemma ClaimedSize(m: Image)
    requires Built(m)
    ensures |AfterBoot(m).claimed| == FileClusters(m) + 4
  {
    hide Built, N.Ordered, FileClusters, Consecutive, Clusters;
    Placed(m);
    ConsecutiveClusters(4, FileClusters(m));
    FourMore(Clusters(EfiChain(m)), FileClusters(m), m.readme);
    ClaimedParts(m, Clusters(EfiChain(m)));
  }

  lemma ClaimedParts(m: Image, file: set<nat>)
    requires file == Clusters(EfiChain(m))
    ensures AfterBoot(m).claimed == file + {2, 3, m.readme, m.readme + 1}
  {
    hide FileClusters, Consecutive, Clusters;
    assert {m.readme} + {2} + {3} + file + {m.readme + 1} == file + {2, 3, m.readme, m.readme + 1};
  }

  lemma ConsecutiveClusters(first: nat, n: nat)
    ensures |Clusters(Consecutive(first, n))| == n
    ensures forall c :: c in Clusters(Consecutive(first, n)) <==> first <= c < first + n
  {
    var chain := Consecutive(first, n);
    hide Consecutive;
    RangeSize(first, first + n);
    forall c: nat | first <= c < first + n
      ensures c in chain
    {
      assert chain[c - first] == c;
    }
    assert Clusters(chain) == Range(first, first + n);
  }

  lemma FourMore(s: set<nat>, n: nat, c: nat)
    requires |s| == n && 4 + n <= c && forall x :: x in s <==> 4 <= x < 4 + n
    ensures |s + {2, 3, c, c + 1}| == n + 4
  {
    var others := {2, 3, c, c + 1};
    assert |others| == 4 && s !! others;
  }

  lemma Placed(m: Image)
    requires Built(m)
    ensures N.FIRST_FILE_CLUSTER + FileClusters(m) <= m.readme
  {
  }

  // --------------------------------------------------------------- the files

  lemma OneBlockCluster(v: Volume, c: nat)
    requires ValidVolume(v) && InRange(v, c) && v.spc == 1
    ensures ClusterLba(v, c) == v.firstData + (c - 2) < |v.d| && ClusterData(v, c) == v.d[ClusterLba(v, c)]
  {
    ClusterPlaces(v);
    var b := v.d[ClusterLba(v, c)];
    JoinedMore(b, []);
    assert v.d[ClusterLba(v, c)..ClusterLba(v, c) + 1] == [b] + [];
  }

  /** Consecutive clusters hold consecutive blocks. */
  lemma ConsecutiveBytes(v: Volume, c: nat, n: nat)
    requires ValidVolume(v) && v.spc == 1 && 2 <= c && c + n <= v.clusterCount + 2
    ensures ChainInRange(v, Consecutive(c, n)) && v.firstData + c - 2 + n <= |v.d|
    ensures ChainBytes(v, Consecutive(c, n)) == Joined(v.d[v.firstData + c - 2..v.firstData + c - 2 + n])
  {
    hide Consecutive, ClusterData, ClusterLba;
    var chain, lo := Consecutive(c, n), v.firstData + c - 2;
    assert v.clusterCount * v.spc == v.clusterCount;
    forall k | 0 <= k < n
      ensures InRange(v, chain[k]) && ClusterData(v, chain[k]) == v.d[lo..lo + n][k]
    {
      OneBlockCluster(v, chain[k]);
    }
    assert Clustered(v, chain) == v.d[lo..lo + n];
  }

  /** A file written at a cluster is the contents of the chain from there. */
  lemma FileContents(m: Image, second: bool, k: nat, c: nat)
    requires Built(m) && 5 <= k < 14 && 2 <= c && Region(m, k).lba == m.l.firstData + c - 2
    requires c + D.Sectors(|Region(m, k).data|, m.l.bs) <= m.l.clusterCount + 2
    ensures var v, chain := VolumeOf(m, second), Consecutive(c, D.Sectors(|Region(m, k).data|, m.l.bs));
            && ValidVolume(v) && ChainInRange(v, chain)
            && Contents(v, chain, |Region(m, k).data|) == Region(m, k).data
  {
    hide Disk, EfiBlocks, Region, Built, D.Sectors, VolumeOf, ValidVolume, Written, D.Backs, ChainInRange, Consecutive,
      ChainBytes, Joined, N.Ordered, D.At, BlocksOf;
    var r, n := Region(m, k), D.Sectors(|Region(m, k).data|, m.l.bs);
    VolumeShape(m, second);
    RegionWritten(m, k);
    EfiBacked(m);
    ConsecutiveBytes(VolumeOf(m, second), c, n);
    DataRun(Disk(m), m.l.efiFirst, EfiBlocks(m), r.lba, r.data, m.l.bs);
  }

  lemma VolumeShape(m: Image, second: bool)
    requires Built(m)
    ensures ValidVolume(VolumeOf(m, second)) && VolumeOf(m, second).spc == 1 && VolumeOf(m, second).d == EfiBlocks(m)
    ensures VolumeOf(m, second).firstData == m.l.firstData - m.l.efiFirst
    ensures VolumeOf(m, second).clusterCount == m.l.clusterCount && m.l.efiFirst <= m.l.firstData
  {
    hide EfiBlocks;
    VolumeValid(m, second);
  }

  /** A file's chain is good, and its contents are given. */
  ghost predicate Holds(v: Volume, f: FileEntry, data: seq<byte>)
    requires ValidVolume(v)
  {
    && GoodChain(v, f.first, f.chain) && ChainInRange(v, f.chain) && f.size == |data| && ClustersOf(v, f.size) <= |f.chain|
    && Contents(v, f.chain, f.size) == data
  }

  lemma EfiHeld(m: Image, second: bool)
    requires Built(m) && m.efi != []
    ensures ValidVolume(VolumeOf(m, second))
    ensures Holds(VolumeOf(m, second), FileEntry(BOOTX64_EFI, 2, N.FIRST_FILE_CLUSTER, |m.efi|, EfiChain(m)), m.efi)
  {
    hide VolumeOf, ValidVolume, Built, Region, N.Ordered, Contents, LinkedChain, ClustersOf, ChainInRange, Directories,
      DecodeLink, InRange, GoodChain;
    IsGenerated(m, second);
    EfiChainGood(VolumeOf(m, second), m);
    GoodIsLinked(VolumeOf(m, second), N.FIRST_FILE_CLUSTER, EfiChain(m));
    Room(m);
    FilePlaces(m);
    FileContents(m, second, 11, N.FIRST_FILE_CLUSTER);
  }

  /** The two texts, one cluster each. */
  lemma TextHeld(m: Image, second: bool, config: bool)
    requires Built(m)
    ensures ValidVolume(VolumeOf(m, second))
    ensures var c, data := if config then m.readme + 1 else m.readme, if config then m.f.configText else m.f.readmeText;
            Holds(VolumeOf(m, second), FileEntry(if config then BOOT_CFG else README_TXT, if config then 2 else 0, c, |data|, [c]),
                  data)
  {
    hide VolumeOf, ValidVolume, N.Ordered, N.Accepted, N.Regions, Region, Contents, ClustersOf, ChainInRange, Directories,
      DecodeLink, Consecutive, RootEntries, BootEntries, EfiEntries;
    var v, c := VolumeOf(m, second), if config then m.readme + 1 else m.readme;
    IsGenerated(m, second);
    FilePlaces(m);
    assert InRange(v, c) && DecodeLink(v, c) == EndOfChain;
    assert Consecutive(c, 1) == [c];
    assert D.Sectors(N.README_TEXT_LENGTH, m.l.bs) == 1 && D.Sectors(N.CONFIG_TEXT_LENGTH, m.l.bs) == 1;
    GoodIsLinked(v, c, [c]);
    VolumeShape(m, second);
    FileContents(m, second, if config then 13 else 12, c);
  }

  /** What a healthy image's mounted files hold: the two texts and exactly the
      EFI image. */
  lemma MountedContents(m: Image, second: bool)
    requires Built(m) && m.efi != [] && !m.crossLink
    ensures ValidVolume(VolumeOf(m, second)) && MountVolume(VolumeOf(m, second)).Volumed?
    ensures var v, files := VolumeOf(m, second), MountVolume(VolumeOf(m, second)).state.files;
            && |files| == 3 && files[0].name == README_TXT && files[1].name == BOOTX64_EFI && files[2].name == BOOT_CFG
            && Holds(v, files[0], m.f.readmeText) && Holds(v, files[1], m.efi) && Holds(v, files[2], m.f.configText)
  {
    hide VolumeOf, ValidVolume, Built, Holds, MountVolume;
    VolumeMounts(m, second);
    TextLengths(m);
    EfiHeld(m, second);
    TextHeld(m, second, false);
    TextHeld(m, second, true);
  }

  lemma TextLengths(m: Image)
    requires Built(m)
    ensures |m.f.readmeText| == N.README_TEXT_LENGTH && |m.f.configText| == N.CONFIG_TEXT_LENGTH
  {
  }

  /** Reading the boot file on the mounted image, at any offset, in pieces of
      any length, after any earlier reads: the same part of the EFI image. */
  lemma BootFileReads(m: Image, second: bool, offset: nat, length: nat)
    requires Built(m) && m.efi != []
    ensures ValidVolume(VolumeOf(m, second))
    ensures ReadAt(VolumeOf(m, second), N.FIRST_FILE_CLUSTER, |m.efi|, offset, length)
            == Reading(Slice(m.efi, offset, offset + length), Done(()))
  {
    hide VolumeOf, ValidVolume, Built, GoodChain, Contents, ClustersOf, ReadAt, Slice;
    EfiHeld(m, second);
    ReadMeans(VolumeOf(m, second), N.FIRST_FILE_CLUSTER, |m.efi|, EfiChain(m), offset, length);
  }
}
