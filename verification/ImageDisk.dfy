// The generated NVMe image as a whole disk: the kernel's search of its partition
// table, and what the two partitions it finds hold.
module ImageDisk {
  import opened Bytes
  import opened Checksums
  import JournalFormat
  import opened GptDisk
  import opened BootImage
  import BootFat
  import Gpt
  import D = JournalDisk
  import N = NvmeImage
  import H = JournalHost
  import R = JournalRuns

  /** Every block of the finished disk. */
  function DiskBlocks(m: Image): (d: seq<GptDisk.Block>)
    requires Built(m)
    ensures |d| == m.l.totalLbas && IsBlocks(d, m.l.bs)
  {
    D.PartitionBlocks(Disk(m), 0, m.l.totalLbas, m.l.bs)
  }

  lemma DiskBacked(m: Image)
    requires Built(m)
    ensures D.Backs(Disk(m), 0, DiskBlocks(m), m.l.bs)
  {
    hide Disk, Built, D.At;
  }

  const EFI_LABEL: seq<byte> := [0x5A, 0x69, 0x67, 0x4F, 0x73, 0x20, 0x4E, 0x56, 0x4D, 0x65, 0x20, 0x46, 0x41, 0x54]
  const DATA_LABEL: seq<byte> := [0x5A, 0x69, 0x67, 0x4F, 0x73, 0x20, 0x44, 0x61, 0x74, 0x61]

  /** The two entries as the kernel decodes them. */
  function EfiPartition(l: N.Layout): PartitionEntry
    requires N.Ordered(l)
  {
    PartitionEntry(0, EFI_KIND, N.EFI_ID, l.efiFirst, l.efiLast, 0, EFI_LABEL)
  }

  function DataPartition(l: N.Layout): PartitionEntry
    requires N.Ordered(l)
  {
    PartitionEntry(1, DATA_KIND, N.DATA_ID, l.dataFirst, l.dataLast, 0, DATA_LABEL)
  }

  // ------------------------------------------------------------- the array

  /** A 16-bit-character name field that spells a text. */
  lemma SpellsName(kind: seq<byte>, unique: seq<byte>, first: u64, last: u64, name: seq<byte>, text: seq<byte>)
    requires |kind| == |unique| == 16 && |name| == 2 * |text| && |text| <= 35
    requires forall k :: 0 <= k < |text| ==> 0x20 <= text[k] <= 0x7E && name[2 * k] == text[k] && name[2 * k + 1] == 0
    ensures var e := N.PartitionEntry(kind, unique, first, last, name);
            Spells(e, 0, text) && Read16(e, 56 + 2 * |text|) == 0
  {
    hide Le;
    var e := N.PartitionEntry(kind, unique, first, last, name);
    forall k | 0 <= k < |text|
      ensures Read16(e, 56 + 0 + 2 * k) == text[k]
    {
      WordOfField(e, 56 + 2 * k);
      assert e[56 + 2 * k] == name[2 * k] && e[56 + 2 * k + 1] == name[2 * k + 1];
    }
    var end := 56 + 2 * |text|;
    WordOfField(e, end);
    assert e[end] == 0 && e[end + 1] == 0;
  }

  /** An entry the script writes is the entry the kernel decodes. */
  lemma WrittenParses(kind: seq<byte>, unique: seq<byte>, first: u64, last: u64, name: seq<byte>, text: seq<byte>, index: nat)
    requires |kind| == |unique| == 16 && |name| == 2 * |text| && |text| <= 35
    requires forall k :: 0 <= k < |text| ==> 0x20 <= text[k] <= 0x7E && name[2 * k] == text[k] && name[2 * k + 1] == 0
    requires !AllZero(kind) && !AllZero(unique) && first <= last
    ensures ParsePartitionEntry(N.PartitionEntry(kind, unique, first, last, name), 128, index)
            == Some(PartitionEntry(index, kind, unique, first, last, 0, text))
  {
    SpellsName(kind, unique, first, last, name, text);
    ZeroField8();
    hide Le, AllZero, Spells, ParsePartitionEntry;
    var e := N.PartitionEntry(kind, unique, first, last, name);
    EntryParses(e, index, kind, unique, first, last, 0, text);
  }

  lemma ZeroField8()
    ensures Le(0, 8) == Zeros(8)
  {
    assert Le(0, 4) == Zeros(4) by { Gpt.ZeroWord(); }
    assert Le(0, 5) == [0] + Le(0, 4) && Le(0, 6) == [0] + Le(0, 5) && Le(0, 7) == [0] + Le(0, 6);
  }

  lemma ArrayScanned(l: N.Layout, h: Gpt.GptHeader)
    requires N.Ordered(l) && h.firstUsable == l.firstUsable && h.lastUsable == l.lastUsable
    ensures ScanEntries(h, N.EntryArray(l), 128, 0, Found(0, None, None))
            == Found(2, Some(EfiPartition(l)), Some(DataPartition(l)))
  {
    hide N.PartitionEntry, ParsePartitionEntry, ScanEntries, N.Ordered, EfiPartition, DataPartition, Take;
    EfiEntryParses(l);
    DataEntryParses(l);
    EntriesTaken(l, h);
    var a := N.PartitionEntry(N.EFI_TYPE, N.EFI_ID, l.efiFirst, l.efiLast, N.EFI_NAME);
    var b := N.PartitionEntry(N.DATA_TYPE, N.DATA_ID, l.dataFirst, l.dataLast, N.DATA_NAME);
    ThreeParts(h, a, b, Zeros(Gpt.ENTRY_ARRAY_BYTES - 256), EfiPartition(l), DataPartition(l));
  }

  lemma EfiEntryParses(l: N.Layout)
    requires N.Ordered(l)
    ensures l.efiLast < 0x1_0000_0000 && l.efiFirst < 0x1_0000_0000
    ensures ParsePartitionEntry(N.PartitionEntry(N.EFI_TYPE, N.EFI_ID, l.efiFirst, l.efiLast, N.EFI_NAME), 128, 0)
            == Some(EfiPartition(l))
  {
    hide N.PartitionEntry, ParsePartitionEntry;
    InOrder(l);
    hide N.Ordered;
    assert EFI_KIND[0] == 0x28 && N.EFI_ID[0] == 0x44;
    WrittenParses(N.EFI_TYPE, N.EFI_ID, l.efiFirst, l.efiLast, N.EFI_NAME, EFI_LABEL, 0);
  }

  lemma DataEntryParses(l: N.Layout)
    requires N.Ordered(l)
    ensures l.dataLast < 0x1_0000_0000 && l.dataFirst < 0x1_0000_0000
    ensures ParsePartitionEntry(N.PartitionEntry(N.DATA_TYPE, N.DATA_ID, l.dataFirst, l.dataLast, N.DATA_NAME), 128, 1)
            == Some(DataPartition(l))
  {
    hide N.PartitionEntry, ParsePartitionEntry;
    InOrder(l);
    hide N.Ordered;
    assert DATA_KIND[0] == 0x5A && N.DATA_ID[0] == 0x88;
    WrittenParses(N.DATA_TYPE, N.DATA_ID, l.dataFirst, l.dataLast, N.DATA_NAME, DATA_LABEL, 1);
  }

  lemma EntriesTaken(l: N.Layout, h: Gpt.GptHeader)
    requires N.Ordered(l) && h.firstUsable == l.firstUsable && h.lastUsable == l.lastUsable
    ensures var none, one := Found(0, None, None), Found(1, Some(EfiPartition(l)), None);
            && Take(h, EfiPartition(l), none) == one
            && Take(h, DataPartition(l), one) == Found(2, Some(EfiPartition(l)), Some(DataPartition(l)))
  {
    InOrder(l);
    hide N.Ordered;
    assert EFI_KIND[0] == 0x28 && DATA_KIND[0] == 0x5A;
  }

  lemma ThreeParts(h: Gpt.GptHeader, a: seq<byte>, b: seq<byte>, z: seq<byte>, x: PartitionEntry, y: PartitionEntry)
    requires |a| == |b| == 128 && |z| % 128 == 0 && AllZero(z)
    requires ParsePartitionEntry(a, 128, 0) == Some(x) && ParsePartitionEntry(b, 128, 1) == Some(y)
    requires Take(h, x, Found(0, None, None)).Found? && Take(h, y, Take(h, x, Found(0, None, None))).Found?
    ensures ScanEntries(h, a + b + z, 128, 0, Found(0, None, None)) == Take(h, y, Take(h, x, Found(0, None, None)))
  {
    hide ParsePartitionEntry, ScanEntries, Take;
    assert a + b + z == a + (b + z);
    assert a[..128] == a && a[128..] == [] && b[..128] == b && b[128..] == [];
    assert [] + (b + z) == b + z && [] + z == z;
    ScanMore(h, a, b + z, 128, 0, Found(0, None, None));
    ScanMore(h, b, z, 128, 1, Take(h, x, Found(0, None, None)));
    ZeroEntries(h, z, 2, Take(h, y, Take(h, x, Found(0, None, None))));
  }

  lemma InOrder(l: N.Layout)
    requires N.Ordered(l)
    ensures l.firstUsable <= l.efiFirst <= l.efiLast < l.dataFirst && l.dataFirst + 15 <= l.dataLast == l.lastUsable
    ensures l.dataLast < l.totalLbas < 0x1_0000_0000 && 4 <= l.totalLbas && 2 + l.entrySectors <= l.totalLbas
    ensures l.backupEntryLba + l.entrySectors + 1 == l.totalLbas
    ensures D.Sectors(Gpt.ENTRY_ARRAY_BYTES, l.bs) == l.entrySectors
  {
  }

  // -------------------------------------------------------------- the disk

  /** The five writes outside the EFI partition, found on the disk. */
  lemma GptWritten(m: Image, k: nat)
    requires Built(m) && k < 5
    ensures var r := N.GptRegions(m.l)[k]; Written(Disk(m), 0, m.l.totalLbas, r.lba, r.data, m.l.bs)
  {
    hide N.Accepted, N.Disk, N.Regions, D.At, N.GptRegions;
    N.RegionsApart(m.l, m.efi, m.readme, m.crossLink, m.f);
    N.DiskReadsBack(m.l, m.efi, m.readme, m.crossLink, m.f, k);
    GptRegionIs(m, k);
  }

  lemma GptRegionIs(m: Image, k: nat)
    requires Built(m) && k < 5
    ensures N.Regions(m.l, m.efi, m.readme, m.crossLink, m.f)[k] == N.GptRegions(m.l)[k]
  {
    hide N.Table, N.BootSector, N.RootDirectory, N.EfiDirectory, N.BootDirectory, N.GptRegions;
  }

  /** The single blocks of the table. */
  lemma GptBlocks(m: Image)
    requires Built(m)
    ensures DiskBlocks(m)[0] == N.ProtectiveMbr(m.l)
    ensures DiskBlocks(m)[1] == Gpt.HeaderBlock(N.PrimaryHeader(m.l), m.l.bs)
    ensures m.l.totalLbas >= 2 && DiskBlocks(m)[m.l.totalLbas - 1] == Gpt.HeaderBlock(N.BackupHeader(m.l), m.l.bs)
  {
    hide Disk, DiskBlocks, Built, Written, D.At, N.ProtectiveMbr, Gpt.HeaderBlock, N.PrimaryHeader, N.BackupHeader,
      N.EntryArray, N.Ordered;
    BuiltOrdered(m);
    InOrder(m.l);
    DiskBacked(m);
    AtSum(0, 0, m.l.bs);
    GptWritten(m, 0);
    GptWritten(m, 1);
    GptWritten(m, 4);
    DataBlock(Disk(m), 0, DiskBlocks(m), 0, N.ProtectiveMbr(m.l), 0, m.l.bs);
    DataBlock(Disk(m), 0, DiskBlocks(m), 1, Gpt.HeaderBlock(N.PrimaryHeader(m.l), m.l.bs), 0, m.l.bs);
    DataBlock(Disk(m), 0, DiskBlocks(m), m.l.totalLbas - 1, Gpt.HeaderBlock(N.BackupHeader(m.l), m.l.bs), 0, m.l.bs);
  }

  lemma BuiltOrdered(m: Image)
    requires Built(m)
    ensures N.Ordered(m.l)
  {
  }

  lemma MbrProtective(l: N.Layout)
    requires N.Ordered(l)
    ensures Protective(N.ProtectiveMbr(l))
  {
    hide Le;
    var s := N.ProtectiveMbr(l);
    var total := Min(l.totalLbas - 1, 0xFFFF_FFFF);
    var entry := [0, 0, 2, 0, 0xEE, 0xFF, 0xFF, 0xFF] + Le(1, 4) + Le(total, 4);
    assert s[446..462] == entry;
    assert entry[8..12] == Le(1, 4) && entry[12..16] == Le(total, 4);
    FieldShift(s, 446, entry);
    Widths();
    FieldOfLe(entry, 8, 4, 1);
    FieldOfLe(entry, 12, 4, total);
    assert s[446 + 4] == entry[4];
    SignatureWord();
    FieldOfLe(s, 510, 2, 0xAA55);
    assert ProtectiveEntry(s, 0);
  }

  /** A region of the entry array read block by block. */
  lemma ArrayRead(m: Image, backup: bool)
    requires Built(m)
    ensures var lba := if backup then m.l.backupEntryLba else 2;
            && lba + D.Sectors(Gpt.ENTRY_ARRAY_BYTES, m.l.bs) <= m.l.totalLbas
            && D.ReadRun(DiskBlocks(m), lba, Gpt.ENTRY_ARRAY_BYTES, m.l.bs) == N.EntryArray(m.l)
  {
    hide Disk, DiskBlocks, Built, D.At, D.ReadRun, D.Sectors, N.EntryArray, N.Ordered, N.ProtectiveMbr, Gpt.HeaderBlock,
      N.PrimaryHeader, N.BackupHeader;
    BuiltOrdered(m);
    InOrder(m.l);
    DiskBacked(m);
    GptWritten(m, if backup then 3 else 2);
    D.SliceIsRun(Disk(m), 0, DiskBlocks(m), if backup then m.l.backupEntryLba else 2, Gpt.ENTRY_ARRAY_BYTES, m.l.bs);
  }

  /** The kernel finds both partitions on every image the script builds, from
      the blocks of the finished disk: exactly the script's two entries. */
  lemma PartitionsFound(m: Image)
    requires Built(m)
    ensures N.Ordered(m.l) && |DiskBlocks(m)| < 0x1_0000_0000_0000_0000
    ensures FindPartitions(DiskBlocks(m), m.l.bs) == Partitions(EfiPartition(m.l), DataPartition(m.l))
  {
    hide DiskBlocks, Built, Protective, N.ProtectiveMbr, Gpt.ParseHeader, Gpt.HeaderBlock, ScanEntries, N.EntryArray,
      D.ReadRun, D.Sectors, Crc32, N.Ordered;
    BuiltOrdered(m);
    InOrder(m.l);
    GptBlocks(m);
    MbrProtective(m.l);
    N.HeadersConsistent(m.l);
    Gpt.BlockFields(N.PrimaryHeader(m.l), m.l.bs);
    Gpt.BlockFields(N.BackupHeader(m.l), m.l.bs);
    ArrayRead(m, false);
    ArrayRead(m, true);
    ArrayScanned(m.l, N.PrimaryHeader(m.l));
    assert m.l.bs % 128 == 0;
  }

  /** Part of the disk's blocks, by their place in it. */
  lemma PartOfDisk(m: Image, first: nat, n: nat)
    requires Built(m) && first + n <= m.l.totalLbas
    ensures D.At(first + n, m.l.bs) <= |Disk(m)|
    ensures DiskBlocks(m)[first..first + n] == D.PartitionBlocks(Disk(m), first, n, m.l.bs)
  {
    hide Disk, Built, D.At;
    AtOrder(first + n, m.l.totalLbas, m.l.bs);
    var part := D.PartitionBlocks(Disk(m), first, n, m.l.bs);
    forall k | 0 <= k < n
      ensures DiskBlocks(m)[first..first + n][k] == part[k]
    {
      AtSum(0, first + k, m.l.bs);
      AtOrder(first + k + 1, first + n, m.l.bs);
      var o := D.At(first + k, m.l.bs);
      assert part[k] == Disk(m)[o..o + m.l.bs];
      assert 0 + (first + k) == first + k && DiskBlocks(m)[first + k] == Disk(m)[o..o + m.l.bs];
    }
  }

  /** The blocks of the partition an entry names. */
  function BlocksNamed(m: Image, e: PartitionEntry): (d: seq<GptDisk.Block>)
    requires Built(m) && e.first <= e.last < m.l.totalLbas
    ensures IsBlocks(d, m.l.bs)
  {
    DiskBlocks(m)[e.first..e.last + 1]
  }

  /** From the blocks of any image the script builds to what the kernel runs on:
      the search finds two partitions; the first mounts as it must, and the second
      is a journal on which a run may start, mounting as the empty tree. */
  lemma BootsFromDisk(m: Image)
    requires Built(m)
    ensures |DiskBlocks(m)| < 0x1_0000_0000_0000_0000 && FindPartitions(DiskBlocks(m), m.l.bs).Partitions?
    ensures var r := FindPartitions(DiskBlocks(m), m.l.bs);
            && r.efi.first <= r.efi.last < r.data.first <= r.data.last < m.l.totalLbas
            && 0 < |BlocksNamed(m, r.efi)| && BootFat.Mount(BlocksNamed(m, r.efi), m.l.bs) == Expected(m)
            && R.FreshDisk(BlocksNamed(m, r.data), m.l.bs)
            && R.Init(R.Sys(R.Definite(BlocksNamed(m, r.data)), R.Off), m.l.bs)
            && D.Recover(BlocksNamed(m, r.data), m.l.bs) == D.Mounted(D.FRESH_MEMORY)
  {
    hide FindPartitions, BootFat.Mount, Expected, R.Init, R.FreshDisk, D.Recover, R.Definite, Disk, EfiBlocks, DiskBlocks;
    PartitionsFound(m);
    ImageMounts(m);
    H.FreshImageStarts(m.l, m.efi, m.readme, m.crossLink, m.f);
    InOrder(m.l);
    NamedEfi(m);
    NamedData(m);
  }

  lemma NamedEfi(m: Image)
    requires Built(m)
    ensures N.Ordered(m.l) && m.l.efiFirst <= m.l.efiLast < m.l.totalLbas
    ensures BlocksNamed(m, EfiPartition(m.l)) == EfiBlocks(m)
  {
    BuiltOrdered(m);
    InOrder(m.l);
    hide Disk, Built, DiskBlocks, D.At;
    PartOfDisk(m, m.l.efiFirst, m.l.efiSectors);
  }

  lemma NamedData(m: Image)
    requires Built(m)
    ensures N.Ordered(m.l) && m.l.dataFirst <= m.l.dataLast < m.l.totalLbas
    ensures BlocksNamed(m, DataPartition(m.l)) == H.DataBlocks(m.l, m.efi, m.readme, m.crossLink, m.f)
  {
    BuiltOrdered(m);
    InOrder(m.l);
    hide DiskBlocks, D.At, N.Disk, N.Accepted, N.Ordered;
    PartOfDisk(m, m.l.dataFirst, m.l.dataLast + 1 - m.l.dataFirst);
  }
}
