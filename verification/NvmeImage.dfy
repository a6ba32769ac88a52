// The NVMe test image (scripts/create-nvme-test-image.py): a GPT disk with a
// FAT16 EFI partition and an empty data partition for the journal.
module NvmeImage {
  import opened Bytes
  import opened Checksums
  import opened JournalFormat
  import opened JournalDisk
  import Gpt

  // ----------------------------------------------------------------- layout

  datatype Layout = Layout(
    bs: BlockSize, totalLbas: nat, entrySectors: nat, backupEntryLba: nat, firstUsable: nat, lastUsable: nat,
    efiFirst: nat, efiLast: nat, efiSectors: nat, dataFirst: nat, dataLast: nat,
    sectorsPerFat: nat, rootSectors: nat, firstFat: nat, rootLba: nat, firstData: nat, clusterCount: nat)

  /** `layout_for`, as the arithmetic of the script. */
  function LayoutFor(bs: BlockSize): Layout {
    var totalBytes := if bs == 512 then 16 * 1024 * 1024 else 64 * 1024 * 1024;
    var efiFirst := if bs == 512 then 2048 else 256;
    var efiSectors := if bs == 512 then 16384 else 8192;
    var alignment := if bs == 512 then 2048 else 256;
    var sectorsPerFat := if bs == 512 then 120 else 8;
    var totalLbas := totalBytes / bs;
    var entrySectors := CeilDiv(128 * 128, bs);
    var backupEntryLba := totalLbas - 1 - entrySectors;
    var efiLast := efiFirst + efiSectors - 1;
    var dataFirst := CeilDiv(efiLast + 1, alignment) * alignment;
    var rootSectors := CeilDiv(512 * 32, bs);
    var metadata := 1 + 2 * sectorsPerFat + rootSectors;
    Layout(bs, totalLbas, entrySectors, backupEntryLba, 2 + entrySectors, backupEntryLba - 1,
           efiFirst, efiLast, efiSectors, dataFirst, backupEntryLba - 1,
           sectorsPerFat, rootSectors, efiFirst + 1, efiFirst + 1 + 2 * sectorsPerFat, efiFirst + metadata,
           efiSectors - metadata)
  }

  /** The areas of the disk in order, without overlap; the cluster count is a
      FAT16 one, the table covers it, and the data partition holds a journal. */
  predicate Ordered(l: Layout) {
    && 2 + l.entrySectors == l.firstUsable <= l.efiFirst
    && l.efiFirst + l.efiSectors == l.efiLast + 1 && l.efiSectors < 0x1_0000
    && l.firstFat == l.efiFirst + 1
    && l.rootLba == l.firstFat + 2 * l.sectorsPerFat && l.firstData == l.rootLba + l.rootSectors
    && l.firstData + l.clusterCount == l.efiLast + 1 <= l.dataFirst
    && l.dataFirst + 2 + 2 * RegionSectors(l.bs) <= l.dataLast + 1
    && l.dataLast == l.lastUsable && l.lastUsable + 1 == l.backupEntryLba
    && l.backupEntryLba + l.entrySectors + 1 == l.totalLbas < 0x1_0000_0000
    && 4085 <= l.clusterCount < 65525
    && 2 * (l.clusterCount + 2) <= At(l.sectorsPerFat, l.bs)
    && Sectors(Gpt.ENTRY_ARRAY_BYTES, l.bs) == l.entrySectors && 1 <= l.rootSectors && l.sectorsPerFat < 0x1_0000
  }

  /** Both layouts of the script meet all of it. */
  lemma LayoutOrdered(bs: BlockSize)
    ensures Ordered(LayoutFor(bs)) && LayoutFor(bs).bs == bs
  {
  }

  /** The two layouts, in numbers. */
  lemma LayoutIs()
    ensures LayoutFor(512) == Layout(512, 32768, 32, 32735, 34, 32734, 2048, 18431, 16384, 18432, 32734,
                                     120, 32, 2049, 2289, 2321, 16111)
    ensures LayoutFor(4096) == Layout(4096, 16384, 4, 16379, 6, 16378, 256, 8447, 8192, 8448, 16378,
                                      8, 4, 257, 273, 277, 8171)
  {
  }

  lemma SectorsOfBlocks(n: nat, bs: BlockSize)
    ensures Sectors(At(n, bs), bs) == n
  {
  }

  // ------------------------------------------------------------ FAT16 table

  /** `set_fat16_entry`. */
  function Set16(fat: seq<byte>, c: nat, v: nat): (r: seq<byte>)
    requires 2 * c + 2 <= |fat|
    ensures |r| == |fat|
  {
    Splice(fat, 2 * c, Le(v, 2))
  }

  function Get16(fat: seq<byte>, c: nat): u16
    requires 2 * c + 2 <= |fat|
  {
    Read16(fat, 2 * c)
  }

  lemma Get16OfSet16(fat: seq<byte>, c: nat, v: u16, d: nat)
    requires 2 * c + 2 <= |fat| && 2 * d + 2 <= |fat|
    ensures Get16(Set16(fat, c, v), d) == if c == d then v else Get16(fat, d)
  {
    hide Le;
    Widths();
    if c == d {
      SpliceReads(fat, 2 * c, Le(v, 2));
      FieldOfLe(Set16(fat, c, v), 2 * c, 2, v);
    } else {
      SpliceKeeps(fat, 2 * c, Le(v, 2), 2 * d, 2 * d + 2);
    }
  }

  /** Entries `first` to `first + k - 1`, each linked to the next cluster. */
  function LinkRun(fat: seq<byte>, first: nat, k: nat): (r: seq<byte>)
    requires 2 * (first + k) <= |fat|
    ensures |r| == |fat|
  {
    if k == 0 then fat else Set16(LinkRun(fat, first, k - 1), first + k - 1, first + k)
  }

  lemma {:induction false} LinkRunEntries(fat: seq<byte>, first: nat, k: nat, d: nat)
    requires 2 * (first + k) <= |fat| && 2 * d + 2 <= |fat| && first + k < 0x1_0000
    ensures Get16(LinkRun(fat, first, k), d) == if first <= d < first + k then d + 1 else Get16(fat, d)
  {
    hide Get16, Set16;
    if k > 0 {
      LinkRunEntries(fat, first, k - 1, d);
      Get16OfSet16(LinkRun(fat, first, k - 1), first + k - 1, first + k, d);
    }
  }

  const FIRST_FILE_CLUSTER: nat := 4

  /** Where the fixtures of one image go: `fileClusters` clusters of the EFI
      file from cluster 4 on, the readme and the config after them. */
  predicate Accepted(l: Layout, fileClusters: nat, readme: nat) {
    FIRST_FILE_CLUSTER + fileClusters <= readme && readme + 1 < l.clusterCount + 2
  }

  /** The reserved entries and the two directories' end marks. */
  function Reserved(n: nat): (r: seq<byte>)
    requires 8 <= n
    ensures |r| == n
  {
    Set16(Set16(Set16(Set16(Zeros(n), 0, 0xFFF8), 1, 0xFFFF), 2, 0xFFFF), 3, 0xFFFF)
  }

  function Table(l: Layout, fileClusters: nat, readme: nat): (r: seq<byte>)
    requires Ordered(l) && Accepted(l, fileClusters, readme)
    ensures |r| == At(l.sectorsPerFat, l.bs)
  {
    var last := FIRST_FILE_CLUSTER + fileClusters - 1;
    var reserved := Reserved(At(l.sectorsPerFat, l.bs));
    var linked := LinkRun(reserved, FIRST_FILE_CLUSTER, if fileClusters == 0 then 0 else fileClusters - 1);
    Set16(Set16(Set16(linked, last, 0xFFFF), readme, 0xFFFF), readme + 1, 0xFFFF)
  }

  /** What each entry of the table must be. */
  function EntryValue(c: nat, fileClusters: nat, readme: nat): u16
    requires FIRST_FILE_CLUSTER + fileClusters < 0x1_0000
  {
    if c == 0 then 0xFFF8
    else if c < FIRST_FILE_CLUSTER then 0xFFFF
    else if c + 1 < FIRST_FILE_CLUSTER + fileClusters then c + 1
    else if c + 1 == FIRST_FILE_CLUSTER + fileClusters || c == readme || c == readme + 1 then 0xFFFF
    else 0
  }

  lemma TableEntries(l: Layout, fileClusters: nat, readme: nat, c: nat)
    requires Ordered(l) && Accepted(l, fileClusters, readme) && c < l.clusterCount + 2
    ensures 2 * c + 2 <= At(l.sectorsPerFat, l.bs)
    ensures Get16(Table(l, fileClusters, readme), c) == EntryValue(c, fileClusters, readme)
  {
    hide Get16, Set16, LinkRun, At, Ordered;
    FatBounds(l, fileClusters, readme);
    EntryFits(l, c);
    var z := Zeros(At(l.sectorsPerFat, l.bs));
    var a := Set16(z, 0, 0xFFF8);
    var b := Set16(a, 1, 0xFFFF);
    var d := Set16(b, 2, 0xFFFF);
    var e := Set16(d, 3, 0xFFFF);
    var k := if fileClusters == 0 then 0 else fileClusters - 1;
    var last := FIRST_FILE_CLUSTER + fileClusters - 1;
    var f := LinkRun(e, FIRST_FILE_CLUSTER, k);
    var g := Set16(f, last, 0xFFFF);
    var h := Set16(g, readme, 0xFFFF);
    ZeroEntry(z, c);
    Get16OfSet16(z, 0, 0xFFF8, c);
    Get16OfSet16(a, 1, 0xFFFF, c);
    Get16OfSet16(b, 2, 0xFFFF, c);
    Get16OfSet16(d, 3, 0xFFFF, c);
    LinkRunEntries(e, FIRST_FILE_CLUSTER, k, c);
    Get16OfSet16(f, last, 0xFFFF, c);
    Get16OfSet16(g, readme, 0xFFFF, c);
    Get16OfSet16(h, readme + 1, 0xFFFF, c);
  }

  lemma EntryFits(l: Layout, c: nat)
    requires Ordered(l) && c < l.clusterCount + 2
    ensures 2 * c + 2 <= At(l.sectorsPerFat, l.bs) && l.clusterCount + 2 < 0xFFF8
  {
  }

  lemma ZeroEntry(z: seq<byte>, c: nat)
    requires 2 * c + 2 <= |z| && AllZero(z)
    ensures Get16(z, c) == 0
  {
    assert Le(0, 1) == [0] && Le(0, 2) == [0, 0];
    assert z[2 * c..2 * c + 2] == Le(0, 2);
    Widths();
    FieldOfLe(z, 2 * c, 2, 0);
  }

  // -------------------------------------------------- ownership of clusters

  /** A chain as a reader follows it: linked, and ended by an end mark. */
  ghost predicate IsChain(fat: seq<byte>, first: nat, chain: seq<nat>) {
    && 0 < |chain| && chain[0] == first
    && (forall k :: 0 <= k < |chain| ==> 2 * chain[k] + 2 <= |fat|)
    && (forall k :: 0 <= k < |chain| - 1 ==> Get16(fat, chain[k]) == chain[k + 1])
    && (forall k :: 0 <= k < |chain| - 1 ==> Get16(fat, chain[k]) < 0xFFF8)
    && Get16(fat, chain[|chain| - 1]) >= 0xFFF8
  }

  lemma {:induction false} ChainsAgree(fat: seq<byte>, first: nat, a: seq<nat>, b: seq<nat>, k: nat)
    requires IsChain(fat, first, a) && IsChain(fat, first, b) && k < |a| && k < |b|
    ensures a[k] == b[k]
  {
    hide Get16;
    if k > 0 {
      ChainsAgree(fat, first, a, b, k - 1);
    }
  }

  /** A first cluster has one chain at most. */
  lemma ChainUnique(fat: seq<byte>, first: nat, a: seq<nat>, b: seq<nat>)
    requires IsChain(fat, first, a) && IsChain(fat, first, b)
    ensures a == b
  {
    hide Get16;
    ChainsAgree(fat, first, a, b, Min(|a|, |b|) - 1);
    forall k | 0 <= k < |a| && k < |b|
      ensures a[k] == b[k]
    {
      ChainsAgree(fat, first, a, b, k);
    }
  }

  /** The first clusters the directory entries name: EFI, BOOT, BOOTX64.EFI,
      README.TXT and BOOT.CFG. */
  function DirectoryFirsts(readme: nat, crossLink: bool): seq<nat> {
    [2, 3, FIRST_FILE_CLUSTER, readme, if crossLink then readme else readme + 1]
  }

  /** The chains those entries reach. */
  function Chains(fileClusters: nat, readme: nat, crossLink: bool): (c: seq<seq<nat>>)
    ensures |c| == 5
  {
    [[2], [3], Consecutive(FIRST_FILE_CLUSTER, fileClusters), [readme], [if crossLink then readme else readme + 1]]
  }

  lemma ChainsRead(l: Layout, fileClusters: nat, readme: nat, crossLink: bool, i: nat)
    requires Ordered(l) && Accepted(l, fileClusters, readme) && 0 < fileClusters && i < 5
    ensures IsChain(Table(l, fileClusters, readme), DirectoryFirsts(readme, crossLink)[i],
                    Chains(fileClusters, readme, crossLink)[i])
  {
    hide Table, Get16, Ordered, At, EntryValue;
    var fat := Table(l, fileClusters, readme);
    var chain := Chains(fileClusters, readme, crossLink)[i];
    FatBounds(l, fileClusters, readme);
    EntryFits(l, readme);
    forall k | 0 <= k < |chain|
      ensures 2 * chain[k] + 2 <= |fat| && Get16(fat, chain[k]) == EntryValue(chain[k], fileClusters, readme)
    {
      TableEntries(l, fileClusters, readme, chain[k]);
    }
    ChainValues(fileClusters, readme, crossLink, i);
    forall k | 0 <= k < |chain| - 1
      ensures Get16(fat, chain[k]) == chain[k + 1] && Get16(fat, chain[k]) < 0xFFF8
    {
      assert Get16(fat, chain[k]) == EntryValue(chain[k], fileClusters, readme);
    }
  }

  /** The entry values along a chain: the next cluster, then an end mark. */
  ghost predicate ValuesAlong(chain: seq<nat>, fileClusters: nat, readme: nat)
    requires FIRST_FILE_CLUSTER + fileClusters < 0x1_0000
  {
    && 0 < |chain|
    && (forall k :: 0 <= k < |chain| - 1 ==> EntryValue(chain[k], fileClusters, readme) == chain[k + 1])
    && (forall k :: 0 <= k < |chain| - 1 ==> EntryValue(chain[k], fileClusters, readme) < 0xFFF8)
    && EntryValue(chain[|chain| - 1], fileClusters, readme) >= 0xFFF8
  }

  lemma ChainValues(fileClusters: nat, readme: nat, crossLink: bool, i: nat)
    requires FIRST_FILE_CLUSTER + fileClusters <= readme && readme + 1 < 0xFFF8 && 0 < fileClusters && i < 5
    ensures ValuesAlong(Chains(fileClusters, readme, crossLink)[i], fileClusters, readme)
    ensures Chains(fileClusters, readme, crossLink)[i][0] == DirectoryFirsts(readme, crossLink)[i]
  {
  }

  ghost predicate Disjoint(a: seq<nat>, b: seq<nat>) {
    forall i, j :: 0 <= i < |a| && 0 <= j < |b| ==> a[i] != b[j]
  }

  /** Healthy mode: no cluster is on two of the chains. */
  lemma HealthyDisjoint(l: Layout, fileClusters: nat, readme: nat, i: nat, j: nat)
    requires Accepted(l, fileClusters, readme) && i < j < 5
    ensures Disjoint(Chains(fileClusters, readme, false)[i], Chains(fileClusters, readme, false)[j])
  {
  }

  /** Whether directory entry `i` reaches cluster `c`. */
  predicate Reaches(fileClusters: nat, readme: nat, crossLink: bool, i: nat, c: nat)
    requires i < 5
  {
    if i == 2 then FIRST_FILE_CLUSTER <= c < FIRST_FILE_CLUSTER + fileClusters
    else c == DirectoryFirsts(readme, crossLink)[i]
  }

  lemma ReachesMeaning(fileClusters: nat, readme: nat, crossLink: bool, i: nat, c: nat)
    requires i < 5
    ensures Reaches(fileClusters, readme, crossLink, i, c) <==> c in Chains(fileClusters, readme, crossLink)[i]
  {
    var chain := Chains(fileClusters, readme, crossLink)[i];
    if i == 2 && FIRST_FILE_CLUSTER <= c < FIRST_FILE_CLUSTER + fileClusters {
      assert chain[c - FIRST_FILE_CLUSTER] == c;
    }
    if c in chain {
      var k :| 0 <= k < |chain| && chain[k] == c;
    }
  }

  /** How many of the first `n` chains hold a cluster. */
  function Holders(chains: seq<seq<nat>>, n: nat, c: nat): nat
    requires n <= |chains|
  {
    if n == 0 then 0 else Holders(chains, n - 1, c) + if c in chains[n - 1] then 1 else 0
  }

  /** The chains read from the table, one for each directory entry. */
  ghost predicate ReadFrom(fat: seq<byte>, readme: nat, crossLink: bool, chains: seq<seq<nat>>) {
    |chains| == 5 && forall i :: 0 <= i < 5 ==> IsChain(fat, DirectoryFirsts(readme, crossLink)[i], chains[i])
  }

  /** Ownership, cluster by cluster, for every nonempty EFI image and whatever
      chains a reader finds in the table from the directory entries' first
      clusters. Healthy: allocated clusters are on one chain and free ones on
      none. Cross-linked: the same but for the readme's cluster, reached twice,
      and the config's, allocated and reached from nowhere. */
  lemma Ownership(l: Layout, fileClusters: nat, readme: nat, crossLink: bool, chains: seq<seq<nat>>, c: nat)
    requires Ordered(l) && Accepted(l, fileClusters, readme) && 0 < fileClusters
    requires ReadFrom(Table(l, fileClusters, readme), readme, crossLink, chains)
    requires 2 <= c < l.clusterCount + 2
    ensures 2 * c + 2 <= At(l.sectorsPerFat, l.bs)
    ensures var inUse := Get16(Table(l, fileClusters, readme), c) != 0;
            Holders(chains, 5, c)
            == if crossLink && c == readme then 2
               else if crossLink && c == readme + 1 then 0
               else if inUse then 1 else 0
    ensures 2 * readme + 4 <= At(l.sectorsPerFat, l.bs) && Get16(Table(l, fileClusters, readme), readme + 1) != 0
  {
    FatBounds(l, fileClusters, readme);
    TableEntries(l, fileClusters, readme, c);
    TableEntries(l, fileClusters, readme, readme + 1);
    hide Table, Get16, Holders, IsChain, Consecutive;
    forall i | 0 <= i < 5
      ensures c in chains[i] <==> Reaches(fileClusters, readme, crossLink, i, c)
    {
      ChainsRead(l, fileClusters, readme, crossLink, i);
      ChainUnique(Table(l, fileClusters, readme), DirectoryFirsts(readme, crossLink)[i], chains[i],
                  Chains(fileClusters, readme, crossLink)[i]);
      ReachesMeaning(fileClusters, readme, crossLink, i, c);
    }
    FiveHolders(chains, c);
  }

  lemma FiveHolders(chains: seq<seq<nat>>, c: nat)
    requires |chains| == 5
    ensures Holders(chains, 5, c)
            == (if c in chains[0] then 1 else 0) + (if c in chains[1] then 1 else 0) + (if c in chains[2] then 1 else 0)
               + (if c in chains[3] then 1 else 0) + (if c in chains[4] then 1 else 0)
  {
    assert Holders(chains, 3, c) == Holders(chains, 2, c) + if c in chains[2] then 1 else 0;
    assert Holders(chains, 1, c) == Holders(chains, 0, c) + if c in chains[0] then 1 else 0;
  }

  /** With an empty EFI image the rule breaks: BOOTX64.EFI still names cluster
      4, which then is the readme's own cluster or a free one. */
  lemma EmptyImageUnowned(l: Layout, readme: nat)
    requires Ordered(l) && Accepted(l, 0, readme)
    ensures 2 * FIRST_FILE_CLUSTER + 2 <= At(l.sectorsPerFat, l.bs)
    ensures DirectoryFirsts(readme, false)[2] == FIRST_FILE_CLUSTER
    ensures FIRST_FILE_CLUSTER == readme || Get16(Table(l, 0, readme), FIRST_FILE_CLUSTER) == 0
  {
    TableEntries(l, 0, readme, FIRST_FILE_CLUSTER);
  }

  /** Clusters in [lo, hi) with a zero entry. */
  function ZeroEntries(fat: seq<byte>, lo: nat, hi: nat): nat
    requires lo <= hi && 2 * hi <= |fat|
    decreases hi
  {
    if lo == hi then 0 else ZeroEntries(fat, lo, hi - 1) + if Get16(fat, hi - 1) == 0 then 1 else 0
  }

  lemma {:induction false} ZeroCount(l: Layout, fileClusters: nat, readme: nat, hi: nat)
    requires Ordered(l) && Accepted(l, fileClusters, readme) && 0 < fileClusters
    requires 2 <= hi <= l.clusterCount + 2 && 2 * hi <= At(l.sectorsPerFat, l.bs)
    ensures ZeroEntries(Table(l, fileClusters, readme), 2, hi)
            == (if hi <= FIRST_FILE_CLUSTER + fileClusters then 0 else hi - FIRST_FILE_CLUSTER - fileClusters)
               - (if hi > readme then 1 else 0) - (if hi > readme + 1 then 1 else 0)
    decreases hi
  {
    hide Table, Get16;
    if hi > 2 {
      ZeroCount(l, fileClusters, readme, hi - 1);
      TableEntries(l, fileClusters, readme, hi - 1);
    }
  }

  /** Conservation: claimed clusters plus zero entries are all the clusters. */
  lemma ClustersConserved(l: Layout, fileClusters: nat, readme: nat)
    requires Ordered(l) && Accepted(l, fileClusters, readme) && 0 < fileClusters
    ensures 2 * (l.clusterCount + 2) <= At(l.sectorsPerFat, l.bs)
    ensures var chains := Chains(fileClusters, readme, false);
            |chains[0]| + |chains[1]| + |chains[2]| + |chains[3]| + |chains[4]|
            + ZeroEntries(Table(l, fileClusters, readme), 2, l.clusterCount + 2) == l.clusterCount
  {
    hide Table, Get16, ZeroEntries, Consecutive;
    ZeroCount(l, fileClusters, readme, l.clusterCount + 2);
  }

  // --------------------------------------------------------- blocks written

  const MARKER: seq<byte> := [0x5A, 0x49, 0x47, 0x4F, 0x53, 0x2D, 0x4E, 0x56, 0x4D, 0x45, 0x2D, 0x4C, 0x42, 0x41, 0x30, 0x21]
  const README_TEXT_LENGTH: nat := 39
  const CONFIG_TEXT_LENGTH: nat := 29

  function ProtectiveMbr(l: Layout): (s: seq<byte>)
    requires Ordered(l)
    ensures |s| == l.bs
  {
    Splice(Splice(Splice(Zeros(l.bs), 0, MARKER),
                  446, [0, 0, 2, 0, 0xEE, 0xFF, 0xFF, 0xFF] + Le(1, 4) + Le(Min(l.totalLbas - 1, 0xFFFF_FFFF), 4)),
           510, [0x55, 0xAA])
  }

  /** One 128-byte partition entry: type, identity, first and last block. */
  function PartitionEntry(kind: seq<byte>, unique: seq<byte>, first: u64, last: u64, name: seq<byte>): (s: seq<byte>)
    requires |kind| == |unique| == 16 && |name| <= 72
    ensures |s| == 128
  {
    kind + unique + Le(first, 8) + Le(last, 8) + Zeros(8) + name + Zeros(72 - |name|)
  }

  const EFI_TYPE: seq<byte> := [0x28, 0x73, 0x2A, 0xC1, 0x1F, 0xF8, 0xD2, 0x11, 0xBA, 0x4B, 0x00, 0xA0, 0xC9, 0x3E, 0xC9, 0x3B]
  const DATA_TYPE: seq<byte> := [0x5A, 0x49, 0x47, 0x4F, 0x53, 0x44, 0x41, 0x54, 0x41, 0x50, 0x41, 0x52, 0x54, 0x30, 0x30, 0x31]
  const EFI_ID: seq<byte> := [0x44, 0x33, 0x22, 0x11, 0x66, 0x55, 0x88, 0x77, 0x99, 0xAA, 0xBB, 0xCC, 0xDD, 0xEE, 0xF0, 0x01]
  const DATA_ID: seq<byte> := [0x88, 0x77, 0x66, 0x55, 0x44, 0x33, 0x22, 0x11, 0x00, 0xFF, 0xEE, 0xDD, 0xCC, 0xBB, 0xAA, 0x99]
  /** "ZigOs NVMe FAT" and "ZigOs Data" as UTF-16 code units. */
  const EFI_NAME: seq<byte> :=
    [0x5A, 0, 0x69, 0, 0x67, 0, 0x4F, 0, 0x73, 0, 0x20, 0, 0x4E, 0, 0x56, 0, 0x4D, 0, 0x65, 0, 0x20, 0, 0x46, 0, 0x41, 0, 0x54, 0]
  const DATA_NAME: seq<byte> :=
    [0x5A, 0, 0x69, 0, 0x67, 0, 0x4F, 0, 0x73, 0, 0x20, 0, 0x44, 0, 0x61, 0, 0x74, 0, 0x61, 0]

  function EntryArray(l: Layout): (s: seq<byte>)
    requires Ordered(l)
    ensures |s| == Gpt.ENTRY_ARRAY_BYTES
  {
    PartitionEntry(EFI_TYPE, EFI_ID, l.efiFirst, l.efiLast, EFI_NAME)
    + PartitionEntry(DATA_TYPE, DATA_ID, l.dataFirst, l.dataLast, DATA_NAME)
    + Zeros(Gpt.ENTRY_ARRAY_BYTES - 256)
  }

  function PrimaryHeader(l: Layout): Gpt.GptHeader
    requires Ordered(l)
  {
    Gpt.GptHeader(1, l.totalLbas - 1, l.firstUsable, l.lastUsable, 2, Crc32(EntryArray(l)))
  }

  function BackupHeader(l: Layout): Gpt.GptHeader
    requires Ordered(l)
  {
    Gpt.GptHeader(l.totalLbas - 1, 1, l.firstUsable, l.lastUsable, l.backupEntryLba, Crc32(EntryArray(l)))
  }

  function BootSector(l: Layout): (s: seq<byte>)
    requires Ordered(l)
    ensures |s| == l.bs
  {
    var geometry := Le(l.bs, 2) + [1] + Le(1, 2) + [2] + Le(512, 2) + Le(l.efiSectors, 2) + [0xF8]
                    + Le(l.sectorsPerFat, 2) + Le(63, 2) + Le(255, 2) + Le(l.efiFirst, 4);
    var identity := [0x80, 0, 0x29, 0x4F, 0x47, 0x49, 0x5A,
                     0x5A, 0x49, 0x47, 0x4F, 0x53, 0x4E, 0x56, 0x4D, 0x45, 0x20, 0x20,
                     0x46, 0x41, 0x54, 0x31, 0x36, 0x20, 0x20, 0x20];
    Splice(Splice(Splice(Splice(Zeros(l.bs), 0, [0xEB, 0x3C, 0x90, 0x5A, 0x49, 0x47, 0x4F, 0x53, 0x20, 0x20, 0x20]),
                         11, geometry), 36, identity), 510, [0x55, 0xAA])
  }

  /** `set_directory_entry`: the 32 bytes of one entry. */
  function DirectoryEntry(name: seq<byte>, attributes: byte, first: nat, size: nat): (s: seq<byte>)
    requires |name| == 11
    ensures |s| == 32
  {
    name + [attributes] + Zeros(14) + Le(first, 2) + Le(size, 4)
  }

  const EFI_DIRECTORY_NAME: seq<byte> := [0x45, 0x46, 0x49, 0x20, 0x20, 0x20, 0x20, 0x20, 0x20, 0x20, 0x20]
  const BOOT_DIRECTORY_NAME: seq<byte> := [0x42, 0x4F, 0x4F, 0x54, 0x20, 0x20, 0x20, 0x20, 0x20, 0x20, 0x20]
  const README_NAME: seq<byte> := [0x52, 0x45, 0x41, 0x44, 0x4D, 0x45, 0x20, 0x20, 0x54, 0x58, 0x54]
  const EFI_FILE_NAME: seq<byte> := [0x42, 0x4F, 0x4F, 0x54, 0x58, 0x36, 0x34, 0x20, 0x45, 0x46, 0x49]
  const CONFIG_NAME: seq<byte> := [0x42, 0x4F, 0x4F, 0x54, 0x20, 0x20, 0x20, 0x20, 0x43, 0x46, 0x47]

  function RootDirectory(l: Layout, readme: nat): (s: seq<byte>)
    requires Ordered(l)
    ensures |s| == At(l.rootSectors, l.bs)
  {
    DirectoryEntry(EFI_DIRECTORY_NAME, 0x10, DirectoryFirsts(readme, false)[0], 0)
    + DirectoryEntry(README_NAME, 0x21, DirectoryFirsts(readme, false)[3], README_TEXT_LENGTH)
    + Zeros(At(l.rootSectors, l.bs) - 64)
  }

  function EfiDirectory(l: Layout): (s: seq<byte>)
    ensures |s| == l.bs
  {
    DirectoryEntry(BOOT_DIRECTORY_NAME, 0x10, DirectoryFirsts(0, false)[1], 0) + Zeros(l.bs - 32)
  }

  function BootDirectory(l: Layout, efiSize: nat, readme: nat, crossLink: bool): (s: seq<byte>)
    ensures |s| == l.bs
  {
    DirectoryEntry(EFI_FILE_NAME, 0x20, DirectoryFirsts(readme, crossLink)[2], efiSize)
    + DirectoryEntry(CONFIG_NAME, 0x21, DirectoryFirsts(readme, crossLink)[4], CONFIG_TEXT_LENGTH)
    + Zeros(l.bs - 64)
  }

  // ------------------------------------------------------ writes to the disk

  /** One `write_lba`. */
  datatype Region = Region(lba: nat, data: seq<byte>)

  function EndLba(r: Region, bs: BlockSize): nat {
    r.lba + Sectors(|r.data|, bs)
  }

  ghost predicate Apart(r: Region, s: Region, bs: BlockSize) {
    EndLba(r, bs) <= s.lba || EndLba(s, bs) <= r.lba
  }

  ghost predicate AllApart(rs: seq<Region>, bs: BlockSize) {
    forall i, j :: 0 <= i < j < |rs| ==> Apart(rs[i], rs[j], bs)
  }

  ghost predicate Within(rs: seq<Region>, lo: nat, hi: nat, bs: BlockSize) {
    forall i :: 0 <= i < |rs| ==> lo <= rs[i].lba && EndLba(rs[i], bs) <= hi
  }

  /** Each region ends before the next one starts. */
  ghost predicate Ascending(rs: seq<Region>, bs: BlockSize) {
    forall i :: 0 <= i < |rs| - 1 ==> EndLba(rs[i], bs) <= rs[i + 1].lba
  }

  lemma {:induction false} AscendingOrder(rs: seq<Region>, i: nat, j: nat, bs: BlockSize)
    requires Ascending(rs, bs) && i < j < |rs|
    ensures EndLba(rs[i], bs) <= rs[j].lba
    decreases j
  {
    if i + 1 < j {
      AscendingOrder(rs, i, j - 1, bs);
      assert EndLba(rs[j - 1], bs) <= rs[j - 1 + 1].lba;
    } else {
      assert EndLba(rs[i], bs) <= rs[i + 1].lba;
    }
  }

  /** An ascending list of regions is apart and lies between its ends. */
  lemma AscendingApart(rs: seq<Region>, lo: nat, hi: nat, bs: BlockSize)
    requires 0 < |rs| && Ascending(rs, bs) && lo <= rs[0].lba && EndLba(rs[|rs| - 1], bs) <= hi
    ensures AllApart(rs, bs) && Within(rs, lo, hi, bs)
  {
    forall i, j | 0 <= i < j < |rs|
      ensures EndLba(rs[i], bs) <= rs[j].lba
    {
      AscendingOrder(rs, i, j, bs);
    }
    forall i | 0 <= i < |rs|
      ensures lo <= rs[i].lba && EndLba(rs[i], bs) <= hi
    {
      if 0 < i {
        AscendingOrder(rs, 0, i, bs);
      }
      if i < |rs| - 1 {
        AscendingOrder(rs, i, |rs| - 1, bs);
      }
    }
  }

  /** The disk after the first `n` writes. */
  function WriteAll(disk: seq<byte>, rs: seq<Region>, n: nat, bs: BlockSize): (d: seq<byte>)
    requires n <= |rs| && forall i :: 0 <= i < |rs| ==> At(rs[i].lba, bs) + |rs[i].data| <= |disk|
    ensures |d| == |disk|
  {
    if n == 0 then disk else Splice(WriteAll(disk, rs, n - 1, bs), At(rs[n - 1].lba, bs), rs[n - 1].data)
  }

  lemma ApartBytes(r: Region, s: Region, bs: BlockSize)
    requires Apart(r, s, bs)
    ensures At(r.lba, bs) + |r.data| <= At(s.lba, bs) || At(s.lba, bs) + |s.data| <= At(r.lba, bs)
  {
  }

  /** With all regions apart, each one reads back exactly. */
  lemma {:induction false} ReadsBack(disk: seq<byte>, rs: seq<Region>, n: nat, k: nat, bs: BlockSize)
    requires n <= |rs| && forall i :: 0 <= i < |rs| ==> At(rs[i].lba, bs) + |rs[i].data| <= |disk|
    requires AllApart(rs, bs) && k < n
    ensures WriteAll(disk, rs, n, bs)[At(rs[k].lba, bs)..At(rs[k].lba, bs) + |rs[k].data|] == rs[k].data
    decreases n
  {
    hide At, Splice, Apart;
    var before := WriteAll(disk, rs, n - 1, bs);
    if k == n - 1 {
      SpliceReads(before, At(rs[k].lba, bs), rs[k].data);
    } else {
      ReadsBack(disk, rs, n - 1, k, bs);
      ApartBytes(rs[k], rs[n - 1], bs);
      SpliceKeeps(before, At(rs[n - 1].lba, bs), rs[n - 1].data, At(rs[k].lba, bs), At(rs[k].lba, bs) + |rs[k].data|);
    }
  }

  /** Blocks apart from every region keep their contents. */
  lemma {:induction false} Untouched(disk: seq<byte>, rs: seq<Region>, n: nat, lo: nat, hi: nat, bs: BlockSize)
    requires n <= |rs| && forall i :: 0 <= i < |rs| ==> At(rs[i].lba, bs) + |rs[i].data| <= |disk|
    requires lo <= hi && At(hi, bs) <= |disk|
    requires forall i :: 0 <= i < |rs| ==> EndLba(rs[i], bs) <= lo || hi <= rs[i].lba
    ensures WriteAll(disk, rs, n, bs)[At(lo, bs)..At(hi, bs)] == disk[At(lo, bs)..At(hi, bs)]
    decreases n
  {
    if n > 0 {
      Untouched(disk, rs, n - 1, lo, hi, bs);
      hide Splice;
      SpliceKeeps(WriteAll(disk, rs, n - 1, bs), At(rs[n - 1].lba, bs), rs[n - 1].data, At(lo, bs), At(hi, bs));
    }
  }

  // -------------------------------------------------------------- the image

  /** "ZigOs block-backed FAT16 runtime mount\n" and the two config lines are
      fixed texts; only their lengths matter to the format. */
  datatype Fixtures = Fixtures(readmeText: seq<byte>, configText: seq<byte>)

  predicate FixturesOk(f: Fixtures) {
    |f.readmeText| == README_TEXT_LENGTH && |f.configText| == CONFIG_TEXT_LENGTH
  }

  /** The fourteen writes, in the script's order. */
  function Regions(l: Layout, efi: seq<byte>, readme: nat, crossLink: bool, f: Fixtures): (rs: seq<Region>)
    requires Ordered(l) && Accepted(l, Sectors(|efi|, l.bs), readme)
    ensures |rs| == 14
  {
    var fat := Table(l, Sectors(|efi|, l.bs), readme);
    GptRegions(l) + FatRegions(l, efi, fat, readme, crossLink, f)
  }

  function GptRegions(l: Layout): (rs: seq<Region>)
    requires Ordered(l)
    ensures |rs| == 5
  {
    [Region(0, ProtectiveMbr(l)), Region(1, Gpt.HeaderBlock(PrimaryHeader(l), l.bs)), Region(2, EntryArray(l)),
     Region(l.backupEntryLba, EntryArray(l)), Region(l.totalLbas - 1, Gpt.HeaderBlock(BackupHeader(l), l.bs))]
  }

  function FatRegions(l: Layout, efi: seq<byte>, fat: seq<byte>, readme: nat, crossLink: bool, f: Fixtures): (rs: seq<Region>)
    requires Ordered(l) && Accepted(l, Sectors(|efi|, l.bs), readme)
    ensures |rs| == 9
  {
    [Region(l.efiFirst, BootSector(l)), Region(l.firstFat, fat), Region(l.firstFat + l.sectorsPerFat, fat),
     Region(l.rootLba, RootDirectory(l, readme)), Region(l.firstData, EfiDirectory(l)),
     Region(l.firstData + 1, BootDirectory(l, |efi|, readme, crossLink)), Region(l.firstData + 2, efi),
     Region(l.firstData + readme - 2, f.readmeText), Region(l.firstData + readme + 1 - 2, f.configText)]
  }

  lemma OneBlock(lba: nat, data: seq<byte>, bs: BlockSize)
    requires 0 < |data| <= bs
    ensures EndLba(Region(lba, data), bs) == lba + 1
  {
  }

  /** The nine EFI partition writes lie side by side inside the partition. */
  lemma FatRegionsApart(l: Layout, efi: seq<byte>, fat: seq<byte>, readme: nat, crossLink: bool, f: Fixtures)
    requires Ordered(l) && Accepted(l, Sectors(|efi|, l.bs), readme) && FixturesOk(f)
    requires |fat| == At(l.sectorsPerFat, l.bs)
    ensures var rs := FatRegions(l, efi, fat, readme, crossLink, f);
            AllApart(rs, l.bs) && Within(rs, l.efiFirst, l.efiLast + 1, l.bs)
  {
    var bs := l.bs;
    var hi := l.efiLast + 1;
    var rs := FatRegions(l, efi, fat, readme, crossLink, f);
    hide BootSector, RootDirectory, EfiDirectory, BootDirectory, AllApart, Within, EndLba;
    SectorsOfBlocks(l.sectorsPerFat, bs);
    SectorsOfBlocks(l.rootSectors, bs);
    OneBlock(l.efiFirst, BootSector(l), bs);
    WholeBlocks(l.firstFat, fat, bs);
    WholeBlocks(l.firstFat + l.sectorsPerFat, fat, bs);
    WholeBlocks(l.rootLba, RootDirectory(l, readme), bs);
    OneBlock(l.firstData, EfiDirectory(l), bs);
    OneBlock(l.firstData + 1, BootDirectory(l, |efi|, readme, crossLink), bs);
    WholeBlocks(l.firstData + 2, efi, bs);
    OneBlock(l.firstData + readme - 2, f.readmeText, bs);
    OneBlock(l.firstData + readme + 1 - 2, f.configText, bs);
    assert Ascending(rs, bs);
    AscendingApart(rs, l.efiFirst, hi, bs);
  }

  lemma WholeBlocks(lba: nat, data: seq<byte>, bs: BlockSize)
    ensures EndLba(Region(lba, data), bs) == lba + Sectors(|data|, bs)
  {
  }

  /** All fourteen writes are disjoint and inside the disk, the file data stays
      inside the EFI partition, and no write touches the data partition. */
  lemma RegionsApart(l: Layout, efi: seq<byte>, readme: nat, crossLink: bool, f: Fixtures)
    requires Ordered(l) && Accepted(l, Sectors(|efi|, l.bs), readme) && FixturesOk(f)
    ensures var rs := Regions(l, efi, readme, crossLink, f);
            && AllApart(rs, l.bs) && Within(rs, 0, l.totalLbas, l.bs)
            && Within(rs[5..], l.efiFirst, l.efiLast + 1, l.bs)
            && (forall i :: 0 <= i < 14 ==> EndLba(rs[i], l.bs) <= l.dataFirst || l.dataLast + 1 <= rs[i].lba)
  {
    hide GptRegions, FatRegions, Table, Ordered, Accepted, EndLba, AllApart, Within;
    var fat := Table(l, Sectors(|efi|, l.bs), readme);
    FatRegionsApart(l, efi, fat, readme, crossLink, f);
    var a, b := GptRegions(l), FatRegions(l, efi, fat, readme, crossLink, f);
    var rs := Regions(l, efi, readme, crossLink, f);
    GptEnds(l);
    assert rs == a + b && rs[5..] == b;
    hide Regions;
    InsideEnds(b, l.efiFirst, l.efiLast + 1, l.bs);
    JoinApart(a, b, l.efiFirst, l.efiLast + 1, l.totalLbas, l.bs);
    forall i | 0 <= i < 14
      ensures EndLba(rs[i], l.bs) <= l.dataFirst || l.dataLast + 1 <= rs[i].lba
    {
      if i >= 5 {
        assert rs[i] == b[i - 5];
      } else {
        assert rs[i] == a[i];
      }
    }
  }

  lemma InsideEnds(rs: seq<Region>, lo: nat, hi: nat, bs: BlockSize)
    requires Within(rs, lo, hi, bs)
    ensures forall i :: 0 <= i < |rs| ==> lo <= rs[i].lba && EndLba(rs[i], bs) <= hi
  {
  }

  /** Regions outside [lo, hi) joined with regions inside it. */
  lemma JoinApart(a: seq<Region>, b: seq<Region>, lo: nat, hi: nat, total: nat, bs: BlockSize)
    requires AllApart(a, bs) && AllApart(b, bs) && Within(b, lo, hi, bs) && Within(a, 0, total, bs) && hi <= total
    requires forall i :: 0 <= i < |a| ==> EndLba(a[i], bs) <= lo || hi <= a[i].lba
    ensures AllApart(a + b, bs) && Within(a + b, 0, total, bs)
  {
    hide EndLba;
    var rs := a + b;
    forall i, j | 0 <= i < j < |rs|
      ensures Apart(rs[i], rs[j], bs)
    {
      if j < |a| {
        assert rs[i] == a[i] && rs[j] == a[j];
      } else if i < |a| {
        assert rs[i] == a[i] && rs[j] == b[j - |a|];
      } else {
        assert rs[i] == b[i - |a|] && rs[j] == b[j - |a|];
      }
    }
  }

  lemma GptEnds(l: Layout)
    requires Ordered(l)
    ensures var a := GptRegions(l);
            && a[0].lba == 0 && EndLba(a[0], l.bs) == 1 && a[1].lba == 1 && EndLba(a[1], l.bs) == 2
            && a[2].lba == 2 && EndLba(a[2], l.bs) == l.firstUsable
            && a[3].lba == l.backupEntryLba && EndLba(a[3], l.bs) == l.totalLbas - 1
            && a[4].lba == l.totalLbas - 1 && EndLba(a[4], l.bs) == l.totalLbas
    ensures AllApart(GptRegions(l), l.bs) && Within(GptRegions(l), 0, l.totalLbas, l.bs)
    ensures forall i :: 0 <= i < 5 ==> EndLba(GptRegions(l)[i], l.bs) <= l.dataFirst || l.dataLast + 1 <= GptRegions(l)[i].lba
    ensures l.efiLast + 1 <= l.dataFirst && l.efiLast + 1 <= l.totalLbas
    ensures forall i :: 0 <= i < 5 ==> EndLba(GptRegions(l)[i], l.bs) <= l.efiFirst || l.efiLast + 1 <= GptRegions(l)[i].lba
  {
    hide ProtectiveMbr, EntryArray, PrimaryHeader, BackupHeader, Gpt.HeaderBlock;
  }

  function TotalBytes(l: Layout): nat {
    At(l.totalLbas, l.bs)
  }

  /** The finished disk. */
  function Disk(l: Layout, efi: seq<byte>, readme: nat, crossLink: bool, f: Fixtures): (d: seq<byte>)
    requires Ordered(l) && Accepted(l, Sectors(|efi|, l.bs), readme) && FixturesOk(f)
    ensures |d| == TotalBytes(l)
  {
    RegionsApart(l, efi, readme, crossLink, f);
    RegionsFit(l, Regions(l, efi, readme, crossLink, f));
    WriteAll(Zeros(TotalBytes(l)), Regions(l, efi, readme, crossLink, f), 14, l.bs)
  }

  lemma DiskSteps(l: Layout, efi: seq<byte>, readme: nat, crossLink: bool, f: Fixtures)
    requires Ordered(l) && Accepted(l, Sectors(|efi|, l.bs), readme) && FixturesOk(f)
    ensures var rs := Regions(l, efi, readme, crossLink, f);
            (forall i :: 0 <= i < |rs| ==> At(rs[i].lba, l.bs) + |rs[i].data| <= TotalBytes(l))
            && Disk(l, efi, readme, crossLink, f) == WriteAll(Zeros(TotalBytes(l)), rs, 14, l.bs)
  {
    hide Regions, WriteAll, At, Ordered, Accepted;
    RegionsApart(l, efi, readme, crossLink, f);
    RegionsFit(l, Regions(l, efi, readme, crossLink, f));
  }

  lemma RegionsFit(l: Layout, rs: seq<Region>)
    requires Within(rs, 0, l.totalLbas, l.bs)
    ensures forall i :: 0 <= i < |rs| ==> At(rs[i].lba, l.bs) + |rs[i].data| <= TotalBytes(l)
  {
  }

  /** Every region of the finished disk reads back exactly as written. */
  lemma DiskReadsBack(l: Layout, efi: seq<byte>, readme: nat, crossLink: bool, f: Fixtures, k: nat)
    requires Ordered(l) && Accepted(l, Sectors(|efi|, l.bs), readme) && FixturesOk(f) && k < 14
    ensures var r := Regions(l, efi, readme, crossLink, f)[k];
            && At(r.lba, l.bs) + |r.data| <= TotalBytes(l)
            && Disk(l, efi, readme, crossLink, f)[At(r.lba, l.bs)..At(r.lba, l.bs) + |r.data|] == r.data
  {
    hide Regions, WriteAll, At, Accepted, Ordered;
    RegionsApart(l, efi, readme, crossLink, f);
    DiskSteps(l, efi, readme, crossLink, f);
    ReadsBack(Zeros(TotalBytes(l)), Regions(l, efi, readme, crossLink, f), 14, k, l.bs);
  }

  /** Any run of whole blocks inside the data partition is zero. */
  lemma DataPartitionZero(l: Layout, efi: seq<byte>, readme: nat, crossLink: bool, f: Fixtures, lo: nat, hi: nat)
    requires Ordered(l) && Accepted(l, Sectors(|efi|, l.bs), readme) && FixturesOk(f)
    requires l.dataFirst <= lo <= hi <= l.dataLast + 1 && At(lo, l.bs) <= At(hi, l.bs) <= TotalBytes(l)
    ensures AllZero(Disk(l, efi, readme, crossLink, f)[At(lo, l.bs)..At(hi, l.bs)])
  {
    hide Regions, WriteAll, Accepted, Ordered, At, Disk, EndLba, AllApart, Within;
    RegionsApart(l, efi, readme, crossLink, f);
    DiskSteps(l, efi, readme, crossLink, f);
    Untouched(Zeros(TotalBytes(l)), Regions(l, efi, readme, crossLink, f), 14, lo, hi, l.bs);
  }

  lemma DataInside(l: Layout, lo: nat, hi: nat)
    requires Ordered(l) && l.dataFirst <= lo <= hi <= l.dataLast + 1
    ensures At(lo, l.bs) <= At(hi, l.bs) <= TotalBytes(l)
  {
  }

  /** Both generated GPT headers parse on the kernel, each naming the other as
      its backup, the same usable range and the same array. */
  lemma HeadersConsistent(l: Layout)
    requires Ordered(l)
    ensures var p, b := PrimaryHeader(l), BackupHeader(l);
            && Gpt.ParseHeader(Gpt.HeaderBlock(p, l.bs), l.totalLbas) == Gpt.Header(p, 92, 128, 128)
            && Gpt.ParseHeader(Gpt.HeaderBlock(b, l.bs), l.totalLbas) == Gpt.Header(b, 92, 128, 128)
            && p.currentLba == b.backupLba && p.backupLba == b.currentLba
            && p.firstUsable == b.firstUsable && p.lastUsable == b.lastUsable && p.arrayCrc == b.arrayCrc
            && l.firstUsable <= l.efiFirst <= l.efiLast < l.dataFirst <= l.dataLast <= l.lastUsable
  {
    Gpt.GeneratedParses(PrimaryHeader(l), l.bs, l.totalLbas);
    Gpt.GeneratedParses(BackupHeader(l), l.bs, l.totalLbas);
    hide Gpt.HeaderBlock, Gpt.ParseHeader, EntryArray, Crc32;
  }

  // ------------------------------------------------- the code, step by step

  lemma FatBounds(l: Layout, fileClusters: nat, readme: nat)
    requires Ordered(l) && Accepted(l, fileClusters, readme)
    ensures 2 * (FIRST_FILE_CLUSTER + fileClusters) + 4 <= 2 * (readme + 2) <= At(l.sectorsPerFat, l.bs)
    ensures FIRST_FILE_CLUSTER <= readme
  {
  }

  lemma TableSteps(l: Layout, fileClusters: nat, readme: nat)
    requires Ordered(l) && Accepted(l, fileClusters, readme)
    ensures var size, last := At(l.sectorsPerFat, l.bs), FIRST_FILE_CLUSTER + fileClusters - 1;
            2 * (readme + 2) <= size
            && var reserved := Reserved(size);
               var linked := LinkRun(reserved, FIRST_FILE_CLUSTER, if fileClusters == 0 then 0 else fileClusters - 1);
               Table(l, fileClusters, readme)
               == Set16(Set16(Set16(linked, last, 0xFFFF), readme, 0xFFFF), readme + 1, 0xFFFF)
  {
    hide Set16, LinkRun;
  }

  /** The table loop of `build_image`. */
  method AllocateFat(l: Layout, fileClusters: nat, readme: nat) returns (fat: array<byte>)
    requires Ordered(l) && Accepted(l, fileClusters, readme)
    ensures fresh(fat) && fat[..] == Table(l, fileClusters, readme)
  {
    FatBounds(l, fileClusters, readme);
    TableSteps(l, fileClusters, readme);
    hide Set16, At, LinkRun, Ordered, Accepted, Table;
    fat := new byte[At(l.sectorsPerFat, l.bs)](i => 0);
    ghost var z := Zeros(fat.Length);
    ZeroFilled(fat[..]);
    Blit(fat, 0, Zeros(fat.Length));
    SetFat16Entry(fat, 0, 0xFFF8);
    SetFat16Entry(fat, 1, 0xFFFF);
    SetFat16Entry(fat, 2, 0xFFFF);
    SetFat16Entry(fat, 3, 0xFFFF);
    assert fat[..] == Reserved(fat.Length);
    hide Reserved;
    var last := FIRST_FILE_CLUSTER + fileClusters - 1;
    LinkFile(fat, last);
    SetFat16Entry(fat, last, 0xFFFF);
    SetFat16Entry(fat, readme, 0xFFFF);
    SetFat16Entry(fat, readme + 1, 0xFFFF);
  }

  /** Its inner loop: each cluster of the EFI file but the last. */
  method LinkFile(fat: array<byte>, last: nat)
    requires FIRST_FILE_CLUSTER - 1 <= last && 2 * last + 4 <= fat.Length
    modifies fat
    ensures fat[..] == LinkRun(old(fat[..]), FIRST_FILE_CLUSTER,
                               if last < FIRST_FILE_CLUSTER then 0 else last - FIRST_FILE_CLUSTER)
  {
    hide Set16;
    ghost var before := fat[..];
    var cluster: nat := FIRST_FILE_CLUSTER;
    while cluster < last
      invariant FIRST_FILE_CLUSTER <= cluster <= Max(last, FIRST_FILE_CLUSTER) && |fat[..]| == |before|
      invariant 2 * cluster <= |before|
      invariant fat[..] == LinkRun(before, FIRST_FILE_CLUSTER, cluster - FIRST_FILE_CLUSTER)
    {
      SetFat16Entry(fat, cluster, cluster + 1);
      cluster := cluster + 1;
    }
  }

  method SetFat16Entry(fat: array<byte>, cluster: nat, value: nat)
    requires 2 * cluster + 2 <= fat.Length
    modifies fat
    ensures fat[..] == Set16(old(fat[..]), cluster, value)
  {
    WriteLe(fat, cluster * 2, value, 2);
  }

  datatype ImageResult = ImageOk | NegativeGap | BeforeChain | NoFit

  /** `build_image`: where the fixtures go, the two refusals, and the writes in
      the script's order onto a zero-filled disk. */
  method BuildImage(bs: BlockSize, efi: seq<byte>, crossLink: bool, gap: int, firstCluster: Option<int>, f: Fixtures)
    returns (r: ImageResult, disk: array<byte>)
    requires FixturesOk(f)
    ensures Ordered(LayoutFor(bs)) && LayoutFor(bs).bs == bs
    ensures var l, fileClusters := LayoutFor(bs), Sectors(|efi|, bs);
            var readme := if firstCluster.Some? then firstCluster.value else FIRST_FILE_CLUSTER + fileClusters + gap;
            && (r == NegativeGap <==> gap < 0)
            && (r == BeforeChain <==> gap >= 0 && readme < FIRST_FILE_CLUSTER + fileClusters)
            && (r == ImageOk <==> gap >= 0 && readme >= 0 && Accepted(l, fileClusters, readme))
            && (r == ImageOk ==> fresh(disk) && disk[..] == Disk(l, efi, readme, crossLink, f))
  {
    var l := LayoutFor(bs);
    LayoutOrdered(bs);
    hide LayoutFor, Ordered, Table, Regions, At, Splice, Disk, WriteAll;
    disk := new byte[0];
    var fileClusters := Sectors(|efi|, bs);
    var lastFileCluster := FIRST_FILE_CLUSTER + fileClusters - 1;
    if gap < 0 {
      return NegativeGap, disk;
    }
    var readme := if firstCluster.Some? then firstCluster.value else lastFileCluster + 1 + gap;
    if readme <= lastFileCluster {
      return BeforeChain, disk;
    }
    if readme + 1 >= l.clusterCount + 2 {
      return NoFit, disk;
    }
    disk := WriteImage(l, efi, readme, crossLink, f);
    return ImageOk, disk;
  }

  /** The accepted case: the table, the other blocks and the writes. */
  method WriteImage(l: Layout, efi: seq<byte>, readme: nat, crossLink: bool, f: Fixtures) returns (disk: array<byte>)
    requires Ordered(l) && Accepted(l, Sectors(|efi|, l.bs), readme) && FixturesOk(f)
    ensures fresh(disk) && disk[..] == Disk(l, efi, readme, crossLink, f)
  {
    hide Ordered, Accepted, Table, Regions, At, Splice, Disk, WriteAll;
    var fat := AllocateFat(l, Sectors(|efi|, l.bs), readme);
    disk := new byte[TotalBytes(l)](i => 0);
    Blit(disk, 0, Zeros(disk.Length));
    ZeroFilled(disk[..]);
    var writes := WriteList(l, efi, fat[..], readme, crossLink, f);
    DiskSteps(l, efi, readme, crossLink, f);
    WriteRegions(disk, writes, l.bs);
  }

  /** The `write_lba` calls. */
  method WriteRegions(disk: array<byte>, writes: seq<Region>, bs: BlockSize)
    requires forall i :: 0 <= i < |writes| ==> At(writes[i].lba, bs) + |writes[i].data| <= disk.Length
    modifies disk
    ensures disk[..] == WriteAll(old(disk[..]), writes, |writes|, bs)
  {
    hide At, Splice;
    for i := 0 to |writes|
      invariant disk[..] == WriteAll(old(disk[..]), writes, i, bs)
    {
      Blit(disk, At(writes[i].lba, bs), writes[i].data);
    }
  }

  function WriteList(l: Layout, efi: seq<byte>, fat: seq<byte>, readme: nat, crossLink: bool, f: Fixtures): (rs: seq<Region>)
    requires Ordered(l) && Accepted(l, Sectors(|efi|, l.bs), readme)
    ensures |rs| == 14
    ensures fat == Table(l, Sectors(|efi|, l.bs), readme) ==> rs == Regions(l, efi, readme, crossLink, f)
  {
    GptRegions(l) + FatRegions(l, efi, fat, readme, crossLink, f)
  }

  lemma ZeroFilled(s: seq<byte>)
    ensures AllZero(s) ==> s == Zeros(|s|)
    ensures Splice(s, 0, Zeros(|s|)) == Zeros(|s|)
  {
  }

  lemma EntryReads(name: seq<byte>, attributes: byte, first: u16, size: u32, block: seq<byte>, o: nat)
    requires |name| == 11 && o + 32 <= |block|
    requires block[o..o + 32] == DirectoryEntry(name, attributes, first, size)
    ensures Read16(block, o + 26) == first && Read32(block, o + 28) == size
  {
    hide Le;
    var e := DirectoryEntry(name, attributes, first, size);
    assert e[26..28] == Le(first, 2) && e[28..32] == Le(size, 4);
    SubSlice(block, o, e, 26, 28);
    SubSlice(block, o, e, 28, 32);
    Widths();
    FieldOfLe(block, o + 26, 2, first);
    FieldOfLe(block, o + 28, 4, size);
  }
}
