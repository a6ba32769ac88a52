// The FAT12 volume builder (scripts/create-legacy-fat12.py) for any file list
// that fits, and the whole-volume round trip through the chain reader
// (scripts/verify-legacy-bios.py).
module Fat12Volume {
  import opened Bytes
  import opened Fat12

  type ShortName = n: seq<byte> | |n| == 11 witness [0, 0, 0, 0, 0, 0, 0, 0, 0, 0, 0]

  datatype File = File(name: ShortName, data: seq<byte>)

  const VOLUME_BYTES: nat := TOTAL * BPS
  const ROOT_OFFSET: nat := ROOT_START * BPS
  const END_MARK: nat := 0xFFF

  /** Clusters given to a file; an empty file still gets one. */
  function ClusterCount(data: seq<byte>): (n: nat)
    ensures 1 <= n && |data| <= BPS * n
    ensures |data| > 0 ==> n == CeilDiv(|data|, BPS)
  {
    Max(1, (|data| + BPS - 1) / BPS)
  }

  /** The next free cluster after the first `n` files. */
  function NextCluster(files: seq<File>, n: nat): (c: nat)
    requires n <= |files|
    ensures FIRST_CLUSTER + n <= c
  {
    if n == 0 then FIRST_CLUSTER else NextCluster(files, n - 1) + ClusterCount(files[n - 1].data)
  }

  /** What the fixed file list of the script satisfies: the root directory and
      the data area hold it. */
  predicate Fits(files: seq<File>) {
    |files| <= ROOT_ENTRIES && NextCluster(files, |files|) <= CLUSTER_END
  }

  lemma {:induction false} NextClusterMonotone(files: seq<File>, m: nat, n: nat)
    requires m <= n <= |files|
    ensures NextCluster(files, m) <= NextCluster(files, n)
    ensures m < n ==> NextCluster(files, m) + ClusterCount(files[m].data) <= NextCluster(files, n)
  {
    if m < n {
      NextClusterMonotone(files, m, n - 1);
    }
  }

  // ------------------------------------------------------------- the table

  /** The table after `k` of the `n` links of a chain starting at `first`. */
  function LinkChain(fat: seq<byte>, first: nat, n: nat, k: nat): (r: seq<byte>)
    requires |fat| == FAT_BYTES && k <= n && first + n <= CLUSTER_END
    ensures |r| == FAT_BYTES
  {
    if k == 0 then fat
    else
      SetEntry(LinkChain(fat, first, n, k - 1), first + k - 1, if k < n then first + k else END_MARK)
  }

  const EMPTY_TABLE: seq<byte> := [0xF0, 0xFF, 0xFF] + Zeros(FAT_BYTES - 3)

  /** The table after the chains of the first `n` files. */
  function Table(files: seq<File>, n: nat): (r: seq<byte>)
    requires n <= |files| && NextCluster(files, n) <= CLUSTER_END
    ensures |r| == FAT_BYTES
  {
    if n == 0 then EMPTY_TABLE
    else
      var count := ClusterCount(files[n - 1].data);
      LinkChain(Table(files, n - 1), NextCluster(files, n - 1), count, count)
  }

  lemma {:induction false} LinkChainEntries(fat: seq<byte>, first: nat, n: nat, k: nat, c: nat)
    requires |fat| == FAT_BYTES && k <= n && FIRST_CLUSTER <= first && first + n <= CLUSTER_END && InTable(fat, c)
    ensures Entry(LinkChain(fat, first, n, k), c)
            == if first <= c < first + k then (if c + 1 < first + n then c + 1 else END_MARK) else Entry(fat, c)
  {
    hide Entry, SetEntry;
    if k > 0 {
      LinkChainEntries(fat, first, n, k - 1, c);
      EntriesIndependent(LinkChain(fat, first, n, k - 1), first + k - 1, if k < n then first + k else END_MARK);
    }
  }

  /** Every entry of the finished table: links inside the chains, end marks at
      their ends, and nothing else but the two reserved entries. */
  lemma {:induction false} TableEntries(files: seq<File>, n: nat, c: nat)
    requires n <= |files| && NextCluster(files, n) <= CLUSTER_END && c < CLUSTER_END
    ensures InTable(Table(files, n), c)
    ensures c >= NextCluster(files, n) ==> Entry(Table(files, n), c) == 0
    ensures c == 0 ==> Entry(Table(files, n), c) == 0xFF0
    ensures c == 1 ==> Entry(Table(files, n), c) == 0xFFF
    ensures forall i :: 0 <= i < n && Owns(files, i, c) ==>
              Entry(Table(files, n), c) == if Owns(files, i, c + 1) then c + 1 else END_MARK
  {
    hide LinkChain;
    if n == 0 {
      EmptyEntries(c);
    } else {
      hide Entry;
      TableEntries(files, n - 1, c);
      var first, count := NextCluster(files, n - 1), ClusterCount(files[n - 1].data);
      LinkChainEntries(Table(files, n - 1), first, count, count, c);
      forall i | 0 <= i < n && Owns(files, i, c)
        ensures Entry(Table(files, n), c) == if Owns(files, i, c + 1) then c + 1 else END_MARK
      {
        if i < n - 1 {
          NextClusterMonotone(files, i, n - 1);
        }
      }
    }
  }

  lemma EmptyEntries(c: nat)
    requires c < CLUSTER_END
    ensures InTable(EMPTY_TABLE, c)
    ensures Entry(EMPTY_TABLE, c) == if c == 0 then 0xFF0 else if c == 1 then 0xFFF else 0
  {
    var t := EMPTY_TABLE;
    assert t[0] == 0xF0 && t[1] == 0xFF && t[2] == 0xFF;
    assert forall i :: 3 <= i < |t| ==> t[i] == 0;
  }

  /** Cluster `c` belongs to file `i`. */
  predicate Owns(files: seq<File>, i: nat, c: nat)
    requires i < |files|
  {
    NextCluster(files, i) <= c < NextCluster(files, i) + ClusterCount(files[i].data)
  }

  /** No cluster belongs to two files. */
  lemma ChainsDisjoint(files: seq<File>, i: nat, j: nat, c: nat)
    requires i < j < |files|
    ensures !(Owns(files, i, c) && Owns(files, j, c))
  {
    NextClusterMonotone(files, i, j);
  }

  /** Every cluster below the allocation frontier has an owner. */
  lemma {:induction false} FrontierOwned(files: seq<File>, n: nat, c: nat) returns (i: nat)
    requires n <= |files| && FIRST_CLUSTER <= c < NextCluster(files, n)
    ensures i < n && Owns(files, i, c)
  {
    if c < NextCluster(files, n - 1) {
      i := FrontierOwned(files, n - 1, c);
    } else {
      i := n - 1;
    }
  }

  /** Free clusters of a table in [lo, hi). */
  function FreeClusters(fat: seq<byte>, lo: nat, hi: nat): nat
    requires lo <= hi && forall c :: lo <= c < hi ==> InTable(fat, c)
    decreases hi
  {
    if lo == hi then 0
    else FreeClusters(fat, lo, hi - 1) + if Entry(fat, hi - 1) == 0 then 1 else 0
  }

  lemma {:induction false} FreeCount(files: seq<File>, hi: nat)
    requires NextCluster(files, |files|) <= CLUSTER_END && FIRST_CLUSTER <= hi <= CLUSTER_END
    requires forall c :: FIRST_CLUSTER <= c < hi ==> InTable(Table(files, |files|), c)
    ensures FreeClusters(Table(files, |files|), FIRST_CLUSTER, hi)
            == if hi <= NextCluster(files, |files|) then 0 else hi - NextCluster(files, |files|)
    decreases hi
  {
    hide Entry, Table, InTable;
    if FIRST_CLUSTER < hi {
      FreeCount(files, hi - 1);
      var c := hi - 1;
      TableEntries(files, |files|, c);
      if c < NextCluster(files, |files|) {
        var i := FrontierOwned(files, |files|, c);
        assert Owns(files, i, c);
      }
    }
  }

  function TotalClusters(files: seq<File>): nat {
    if |files| == 0 then 0 else TotalClusters(files[..|files| - 1]) + ClusterCount(files[|files| - 1].data)
  }

  lemma {:induction false} TotalIsFrontier(files: seq<File>, n: nat)
    requires n <= |files|
    ensures NextCluster(files, n) == FIRST_CLUSTER + TotalClusters(files[..n])
  {
    if n > 0 {
      TotalIsFrontier(files, n - 1);
      assert files[..n][..n - 1] == files[..n - 1];
    }
  }

  /** Conservation: allocated chain lengths plus zero entries make up the 2847
      data clusters. */
  lemma ClustersConserved(files: seq<File>)
    requires Fits(files)
    ensures forall c :: FIRST_CLUSTER <= c < CLUSTER_END ==> InTable(Table(files, |files|), c)
    ensures TotalClusters(files) + FreeClusters(Table(files, |files|), FIRST_CLUSTER, CLUSTER_END) == 2847
  {
    hide Entry, Table;
    FreeCount(files, CLUSTER_END);
    TotalIsFrontier(files, |files|);
    assert files[..|files|] == files;
  }

  // ------------------------------------------------------------ the volume

  /** A root directory entry. */
  function RootEntry(volume: seq<byte>, index: nat, name: ShortName, cluster: nat, size: nat): (r: seq<byte>)
    requires |volume| == VOLUME_BYTES && index < ROOT_ENTRIES
    ensures |r| == VOLUME_BYTES
  {
    var offset := ROOT_OFFSET + index * 32;
    Splice(Splice(Splice(volume, offset, name + [0x20]), offset + 26, Le(cluster, 2)), offset + 28, Le(size, 4))
  }

  /** A file's root entry, and its bytes from its first cluster on. */
  function PlaceFile(volume: seq<byte>, index: nat, f: File, first: nat): (r: seq<byte>)
    requires |volume| == VOLUME_BYTES && index < ROOT_ENTRIES
    requires FIRST_CLUSTER <= first && first + ClusterCount(f.data) <= CLUSTER_END
    ensures |r| == VOLUME_BYTES
  {
    Splice(RootEntry(volume, index, f.name, first, |f.data|), DataOffset(first), f.data)
  }

  function DataOffset(cluster: nat): nat
    requires FIRST_CLUSTER <= cluster
  {
    (DATA_START + cluster - 2) * BPS
  }

  function PlaceFiles(volume: seq<byte>, files: seq<File>, n: nat): (r: seq<byte>)
    requires |volume| == VOLUME_BYTES && n <= |files| <= ROOT_ENTRIES && NextCluster(files, n) <= CLUSTER_END
    ensures |r| == VOLUME_BYTES
  {
    if n == 0 then volume
    else PlaceFile(PlaceFiles(volume, files, n - 1), n - 1, files[n - 1], NextCluster(files, n - 1))
  }

  /** Bytes 0..31 of the boot sector: jump, name and geometry. */
  function Geometry(hiddenSectors: nat): (s: seq<byte>)
    ensures |s| == 32
  {
    var head := [0xEB, 0x3C, 0x90, 0x5A, 0x49, 0x47, 0x4F, 0x53, 0x20, 0x20, 0x20];
    var first := head + Le(BPS, 2) + [1] + Le(1, 2) + [FATS];
    var second := Le(ROOT_ENTRIES, 2) + Le(TOTAL, 2) + [0xF0] + Le(SPF, 2);
    first + second + Le(18, 2) + Le(2, 2) + Le(hiddenSectors, 4)
  }

  /** Bytes 36..84: drive, serial number, the two labels and the message. */
  function Identity(): (s: seq<byte>)
    ensures |s| == 49
  {
    var volumeName := [0x5A, 0x49, 0x47, 0x4F, 0x53, 0x20, 0x46, 0x41, 0x54, 0x31, 0x32];
    var kind := [0x46, 0x41, 0x54, 0x31, 0x32, 0x20, 0x20, 0x20];
    var message := [0x5A, 0x69, 0x67, 0x4F, 0x73, 0x20, 0x43, 0x61, 0x70, 0x73, 0x74, 0x6F, 0x6E, 0x65, 0x20,
                    0x31, 0x34, 0x20, 0x46, 0x41, 0x54, 0x31, 0x32];
    [0x80, 0, 0x29, 0x4F, 0x47, 0x49, 0x5A] + volumeName + kind + message
  }

  function BootSector(hiddenSectors: nat): (s: seq<byte>)
    ensures |s| == BPS && s[510..] == [0x55, 0xAA]
  {
    Geometry(hiddenSectors) + Zeros(4) + Identity() + Zeros(425) + [0x55, 0xAA]
  }

  /** `build_volume`: boot sector, both table copies, then the files. */
  function Volume(files: seq<File>, hiddenSectors: nat): (v: seq<byte>)
    requires Fits(files)
    ensures |v| == VOLUME_BYTES
  {
    var fat := Table(files, |files|);
    var blank := BootSector(hiddenSectors) + Zeros(VOLUME_BYTES - BPS);
    PlaceFiles(Splice(Splice(blank, BPS, fat), (1 + SPF) * BPS, fat), files, |files|)
  }

  // ------------------------------------------------ reading the volume back

  /** Placing a file changes its root entry and its clusters, nothing else. */
  lemma PlaceFileKeeps(volume: seq<byte>, index: nat, f: File, first: nat, lo: nat, hi: nat)
    requires |volume| == VOLUME_BYTES && index < ROOT_ENTRIES
    requires FIRST_CLUSTER <= first && first + ClusterCount(f.data) <= CLUSTER_END
    requires lo <= hi <= VOLUME_BYTES
    requires hi <= ROOT_OFFSET + index * 32 || ROOT_OFFSET + index * 32 + 32 <= lo
    requires hi <= DataOffset(first) || DataOffset(first) + |f.data| <= lo
    ensures PlaceFile(volume, index, f, first)[lo..hi] == volume[lo..hi]
  {
    hide Splice, Le;
    var offset := ROOT_OFFSET + index * 32;
    var a := Splice(volume, offset, f.name + [0x20]);
    var b := Splice(a, offset + 26, Le(first, 2));
    var c := Splice(b, offset + 28, Le(|f.data|, 4));
    SpliceKeeps(volume, offset, f.name + [0x20], lo, hi);
    SpliceKeeps(a, offset + 26, Le(first, 2), lo, hi);
    SpliceKeeps(b, offset + 28, Le(|f.data|, 4), lo, hi);
    SpliceKeeps(c, DataOffset(first), f.data, lo, hi);
  }

  /** The placed file's own root entry and bytes read back. */
  lemma PlaceFileReads(volume: seq<byte>, index: nat, f: File, first: nat)
    requires |volume| == VOLUME_BYTES && index < ROOT_ENTRIES
    requires FIRST_CLUSTER <= first && first + ClusterCount(f.data) <= CLUSTER_END
    ensures Placed(PlaceFile(volume, index, f, first), index, f, first)
  {
    hide Splice, Le;
    var offset := ROOT_OFFSET + index * 32;
    var a := Splice(volume, offset, f.name + [0x20]);
    var b := Splice(a, offset + 26, Le(first, 2));
    var c := Splice(b, offset + 28, Le(|f.data|, 4));
    SpliceReads(volume, offset, f.name + [0x20]);
    SpliceReads(a, offset + 26, Le(first, 2));
    SpliceReads(b, offset + 28, Le(|f.data|, 4));
    SpliceReads(c, DataOffset(first), f.data);
    SpliceKeeps(a, offset + 26, Le(first, 2), offset, offset + 12);
    SpliceKeeps(b, offset + 28, Le(|f.data|, 4), offset, offset + 12);
    SpliceKeeps(b, offset + 28, Le(|f.data|, 4), offset + 26, offset + 28);
    SpliceKeeps(c, DataOffset(first), f.data, offset, offset + 12);
    SpliceKeeps(c, DataOffset(first), f.data, offset + 26, offset + 28);
    SpliceKeeps(c, DataOffset(first), f.data, offset + 28, offset + 32);
  }

  /** Everything before the root directory survives the placing of files. */
  lemma {:induction false} SystemAreaKept(volume: seq<byte>, files: seq<File>, n: nat, lo: nat, hi: nat)
    requires |volume| == VOLUME_BYTES && n <= |files| <= ROOT_ENTRIES && NextCluster(files, n) <= CLUSTER_END
    requires lo <= hi <= ROOT_OFFSET
    ensures PlaceFiles(volume, files, n)[lo..hi] == volume[lo..hi]
  {
    hide PlaceFile;
    if n > 0 {
      SystemAreaKept(volume, files, n - 1, lo, hi);
      PlaceFileKeeps(PlaceFiles(volume, files, n - 1), n - 1, files[n - 1], NextCluster(files, n - 1), lo, hi);
    }
  }

  /** Root slots past the last file stay as they were. */
  lemma {:induction false} FreeSlotKept(volume: seq<byte>, files: seq<File>, n: nat, index: nat)
    requires |volume| == VOLUME_BYTES && n <= |files| <= ROOT_ENTRIES && NextCluster(files, n) <= CLUSTER_END
    requires n <= index < ROOT_ENTRIES
    ensures var o := ROOT_OFFSET + index * 32; PlaceFiles(volume, files, n)[o..o + 32] == volume[o..o + 32]
  {
    hide PlaceFile;
    if n > 0 {
      var o := ROOT_OFFSET + index * 32;
      FreeSlotKept(volume, files, n - 1, index);
      PlaceFileKeeps(PlaceFiles(volume, files, n - 1), n - 1, files[n - 1], NextCluster(files, n - 1), o, o + 32);
    }
  }

  /** File `i` as placed: its root entry fields and its bytes. */
  predicate Placed(r: seq<byte>, index: nat, f: File, first: nat)
    requires |r| == VOLUME_BYTES && index < ROOT_ENTRIES
    requires FIRST_CLUSTER <= first && first + ClusterCount(f.data) <= CLUSTER_END
  {
    var o := ROOT_OFFSET + index * 32;
    && r[o..o + 12] == f.name + [0x20]
    && r[o + 26..o + 28] == Le(first, 2)
    && r[o + 28..o + 32] == Le(|f.data|, 4)
    && r[DataOffset(first)..DataOffset(first) + |f.data|] == f.data
  }

  /** A file placed earlier survives the placing of a later one. */
  lemma PlacedSurvives(v: seq<byte>, index: nat, f: File, first: nat, i: nat, g: File, at: nat)
    requires |v| == VOLUME_BYTES && i < index < ROOT_ENTRIES
    requires FIRST_CLUSTER <= at && at + ClusterCount(g.data) <= first && first + ClusterCount(f.data) <= CLUSTER_END
    requires Placed(v, i, g, at)
    ensures Placed(PlaceFile(v, index, f, first), i, g, at)
  {
    hide PlaceFile, Le;
    var o, d := ROOT_OFFSET + i * 32, DataOffset(at);
    PlaceFileKeeps(v, index, f, first, o, o + 12);
    PlaceFileKeeps(v, index, f, first, o + 26, o + 28);
    PlaceFileKeeps(v, index, f, first, o + 28, o + 32);
    PlaceFileKeeps(v, index, f, first, d, d + |g.data|);
  }

  lemma {:induction false} PlacedFileReads(volume: seq<byte>, files: seq<File>, n: nat, i: nat)
    requires |volume| == VOLUME_BYTES && i < n <= |files| <= ROOT_ENTRIES && NextCluster(files, n) <= CLUSTER_END
    ensures NextCluster(files, i) + ClusterCount(files[i].data) <= CLUSTER_END
    ensures Placed(PlaceFiles(volume, files, n), i, files[i], NextCluster(files, i))
  {
    hide PlaceFile, Placed;
    NextClusterMonotone(files, i, n);
    var v, index, f, first := PlaceFiles(volume, files, n - 1), n - 1, files[n - 1], NextCluster(files, n - 1);
    if i == n - 1 {
      PlaceFileReads(v, index, f, first);
    } else {
      PlacedFileReads(volume, files, n - 1, i);
      NextClusterMonotone(files, i, n - 1);
      PlacedSurvives(v, index, f, first, i, files[i], NextCluster(files, i));
    }
  }

  /** Both table copies of the finished volume are the allocated table. */
  lemma TablesMirrored(files: seq<File>, hiddenSectors: nat)
    requires Fits(files)
    ensures var v := Volume(files, hiddenSectors);
            && TableOf(v) == Table(files, |files|)
            && v[(1 + SPF) * BPS..(1 + 2 * SPF) * BPS] == Table(files, |files|)
            && v[..BPS] == BootSector(hiddenSectors)
  {
    hide PlaceFiles, Table, BootSector, Splice;
    var fat := Table(files, |files|);
    var blank := BootSector(hiddenSectors) + Zeros(VOLUME_BYTES - BPS);
    var one := Splice(blank, BPS, fat);
    var two := Splice(one, (1 + SPF) * BPS, fat);
    SpliceReads(blank, BPS, fat);
    SpliceReads(one, (1 + SPF) * BPS, fat);
    SpliceKeeps(one, (1 + SPF) * BPS, fat, BPS, (1 + SPF) * BPS);
    SpliceKeeps(blank, BPS, fat, 0, BPS);
    SpliceKeeps(one, (1 + SPF) * BPS, fat, 0, BPS);
    SystemAreaKept(two, files, |files|, BPS, (1 + SPF) * BPS);
    SystemAreaKept(two, files, |files|, (1 + SPF) * BPS, (1 + 2 * SPF) * BPS);
    SystemAreaKept(two, files, |files|, 0, BPS);
    assert blank[0..BPS] == BootSector(hiddenSectors);
  }

  lemma ParametersLaid(g: seq<byte>, head: seq<byte>, a: seq<byte>, b: seq<byte>, c: seq<byte>, d: seq<byte>, e: seq<byte>,
                       rest: seq<byte>, h: seq<byte>)
    requires |head| == 11 && |a| == |b| == |c| == |d| == |e| == 2 && |rest| == 4 && |h| == 4
    requires g == (head + a + [1] + b + [2]) + (c + d + [0xF0] + e) + rest + h
    ensures |g| == 32 && g[11..13] == a && g[13] == 1 && g[14..16] == b && g[16] == 2 && g[17..19] == c && g[19..21] == d
    ensures g[21] == 0xF0 && g[22..24] == e && g[28..32] == h
  {
  }

  /** The parameter block of the finished volume, as a reader finds it: 512-byte
      sectors, one per cluster, one reserved, two tables of nine sectors, 224 root
      entries, 2880 sectors in all, and the hidden sectors before them. */
  lemma ParametersRead(files: seq<File>, hiddenSectors: u32)
    requires Fits(files)
    ensures var v := Volume(files, hiddenSectors);
            && Read16(v, 11) == 512 && v[13] == 1 && Read16(v, 14) == 1 && v[16] == 2 && Read16(v, 17) == 224
            && Read16(v, 19) == 2880 && v[21] == 0xF0 && Read16(v, 22) == 9 && Read32(v, 28) == hiddenSectors
            && Read16(v, 510) == 0xAA55
  {
    hide Le, Volume, Fits, Field, Table, Geometry;
    TablesMirrored(files, hiddenSectors);
    var v, g := Volume(files, hiddenSectors), Geometry(hiddenSectors);
    GeometryReads(hiddenSectors);
    assert v[0..32] == g by {
      assert v[..BPS][0..32] == g;
    }
    FieldShift(v, 0, g);
    assert Field(v, 0 + 11, 2) == Field(g, 11, 2) && Field(v, 0 + 14, 2) == Field(g, 14, 2);
    assert Field(v, 0 + 17, 2) == Field(g, 17, 2) && Field(v, 0 + 19, 2) == Field(g, 19, 2);
    assert Field(v, 0 + 22, 2) == Field(g, 22, 2) && Field(v, 0 + 28, 4) == Field(g, 28, 4);
    assert v[0 + 13] == g[13] && v[0 + 16] == g[16] && v[0 + 21] == g[21];
    assert v[510..512] == v[..BPS][510..512] == [0x55, 0xAA];
    SignatureWord();
    Widths();
    FieldOfLe(v, 510, 2, 0xAA55);
  }

  lemma GeometryReads(hiddenSectors: u32)
    ensures var g := Geometry(hiddenSectors);
            && Field(g, 11, 2) == 512 && g[13] == 1 && Field(g, 14, 2) == 1 && g[16] == 2 && Field(g, 17, 2) == 224
            && Field(g, 19, 2) == 2880 && g[21] == 0xF0 && Field(g, 22, 2) == 9 && Field(g, 28, 4) == hiddenSectors
  {
    hide Le;
    var g := Geometry(hiddenSectors);
    ParametersLaid(g, [0xEB, 0x3C, 0x90, 0x5A, 0x49, 0x47, 0x4F, 0x53, 0x20, 0x20, 0x20], Le(512, 2), Le(1, 2),
                   Le(224, 2), Le(2880, 2), Le(9, 2), Le(18, 2) + Le(2, 2), Le(hiddenSectors, 4));
    Widths();
    FieldOfLe(g, 11, 2, 512);
    FieldOfLe(g, 14, 2, 1);
    FieldOfLe(g, 17, 2, 224);
    FieldOfLe(g, 19, 2, 2880);
    FieldOfLe(g, 22, 2, 9);
    FieldOfLe(g, 28, 4, hiddenSectors);
  }

  /** Consecutive clusters gather to consecutive bytes. */
  lemma {:induction false} GatherConsecutive(volume: seq<byte>, first: nat, chain: seq<nat>)
    requires |volume| == VOLUME_BYTES && FIRST_CLUSTER <= first && first + |chain| <= CLUSTER_END
    requires forall k :: 0 <= k < |chain| ==> chain[k] == first + k
    ensures Gather(volume, chain) == volume[DataOffset(first)..DataOffset(first) + BPS * |chain|]
    decreases |chain|
  {
    if |chain| > 0 {
      var k := |chain| - 1;
      GatherConsecutive(volume, first, chain[..k]);
      assert ClusterBytes(volume, chain[k]) == volume[DataOffset(first) + BPS * k..DataOffset(first) + BPS * (k + 1)];
    }
  }

  function ChainOf(files: seq<File>, i: nat): (c: seq<nat>)
    requires i < |files|
    ensures |c| == ClusterCount(files[i].data)
    ensures forall k :: 0 <= k < |c| ==> c[k] == NextCluster(files, i) + k
  {
    Consecutive(NextCluster(files, i), ClusterCount(files[i].data))
  }

  /** The allocated chain of file `i`, read from the finished table. */
  lemma ChainLinked(files: seq<File>, i: nat, k: nat)
    requires Fits(files) && i < |files| && k < ClusterCount(files[i].data)
    ensures NextCluster(files, i) + ClusterCount(files[i].data) <= CLUSTER_END
    ensures InTable(Table(files, |files|), ChainOf(files, i)[k])
    ensures Entry(Table(files, |files|), ChainOf(files, i)[k])
            == if k + 1 < ClusterCount(files[i].data) then ChainOf(files, i)[k + 1] else END_MARK
  {
    hide Entry, Table, InTable;
    NextClusterMonotone(files, i, |files|);
    TableEntries(files, |files|, ChainOf(files, i)[k]);
    assert Owns(files, i, ChainOf(files, i)[k]);
  }

  /** The whole-volume round trip: for every file list that fits, each root
      entry names its file and reading its cluster and size back through the
      chain reader returns exactly the file's bytes, and for a nonempty file
      exactly the chain that was allocated. */
  lemma VolumeRoundTrip(files: seq<File>, hiddenSectors: nat, i: nat)
    requires Fits(files) && i < |files|
    ensures var v, o, f := Volume(files, hiddenSectors), ROOT_OFFSET + i * 32, files[i];
            && v[o..o + 11] == f.name && v[o + 11] == 0x20
            && Read16(v, o + 26) == NextCluster(files, i) && Read32(v, o + 28) == |f.data|
            && ReadChain(v, Read16(v, o + 26), Read32(v, o + 28))
               == Chain(f.data, if |f.data| == 0 then [] else ChainOf(files, i))
  {
    hide Entry, Table, InTable, PlaceFiles, ReadFrom, Gather, Le, BootSector, TableOf;
    var v, o, f := Volume(files, hiddenSectors), ROOT_OFFSET + i * 32, files[i];
    var fat := Table(files, |files|);
    var blank := BootSector(hiddenSectors) + Zeros(VOLUME_BYTES - BPS);
    var base := Splice(Splice(blank, BPS, fat), (1 + SPF) * BPS, fat);
    PlacedFileReads(base, files, |files|, i);
    var first, chain := NextCluster(files, i), ChainOf(files, i);
    RootFields(v, o, f.name, first, |f.data|);
    if |f.data| > 0 {
      TablesMirrored(files, hiddenSectors);
      ReadPlacedChain(v, files, i);
    } else {
      EmptyFile(v, first);
    }
  }

  /** Reading an allocated chain of a volume that holds the file's bytes. */
  lemma ReadPlacedChain(v: seq<byte>, files: seq<File>, i: nat)
    requires Fits(files) && i < |files| && |v| == VOLUME_BYTES && 0 < |files[i].data|
    requires NextCluster(files, i) + ClusterCount(files[i].data) <= CLUSTER_END
    requires TableOf(v) == Table(files, |files|)
    requires var d := DataOffset(NextCluster(files, i)); v[d..d + |files[i].data|] == files[i].data
    ensures ReadChain(v, NextCluster(files, i), |files[i].data|) == Chain(files[i].data, ChainOf(files, i))
  {
    hide Entry, Table, InTable, ReadChain, Gather, TableOf, Fits, NextCluster;
    var first, chain, size := NextCluster(files, i), ChainOf(files, i), |files[i].data|;
    forall k | 0 <= k < |chain|
      ensures InTable(TableOf(v), chain[k])
      ensures Entry(TableOf(v), chain[k]) == if k + 1 < |chain| then chain[k + 1] else END_MARK
    {
      ChainLinked(files, i, k);
    }
    ChainLinked(files, i, |chain| - 1);
    ValidChainAccepted(v, size, chain);
    GatherConsecutive(v, first, chain);
    var d := DataOffset(first);
    assert chain[0] == first && Gather(v, chain)[..size] == v[d..d + size];
  }

  lemma EmptyFile(v: seq<byte>, first: nat)
    ensures ReadChain(v, first, 0) == Chain([], [])
  {
  }

  lemma RootFields(v: seq<byte>, o: nat, name: ShortName, first: nat, size: nat)
    requires o + 32 <= |v| && first < 0x1_0000 && size < 0x1_0000_0000
    requires v[o..o + 12] == name + [0x20] && v[o + 26..o + 28] == Le(first, 2) && v[o + 28..o + 32] == Le(size, 4)
    ensures v[o..o + 11] == name && v[o + 11] == 0x20 && Read16(v, o + 26) == first && Read32(v, o + 28) == size
  {
    Widths();
    FieldOfLe(v, o + 26, 2, first);
    FieldOfLe(v, o + 28, 4, size);
    assert v[o..o + 11] == v[o..o + 12][..11] && v[o + 11] == v[o..o + 12][11];
  }

  lemma BlankSlot(hiddenSectors: nat, o: nat)
    requires BPS <= o && o + 32 <= VOLUME_BYTES
    ensures |BootSector(hiddenSectors)| == BPS
    ensures AllZero((BootSector(hiddenSectors) + Zeros(VOLUME_BYTES - BPS))[o..o + 32])
  {
    hide BootSector;
  }

  /** The slot after the last file is unused, as are all clusters past the
      allocation frontier. */
  lemma FreeSpace(files: seq<File>, hiddenSectors: nat, index: nat, c: nat)
    requires Fits(files) && |files| <= index < ROOT_ENTRIES && NextCluster(files, |files|) <= c < CLUSTER_END
    ensures AllZero(Volume(files, hiddenSectors)[ROOT_OFFSET + index * 32..ROOT_OFFSET + index * 32 + 32])
    ensures InTable(TableOf(Volume(files, hiddenSectors)), c) && Entry(TableOf(Volume(files, hiddenSectors)), c) == 0
  {
    hide Table, PlaceFiles, BootSector, Splice, Entry, InTable, TableOf, Fits;
    var fat := Table(files, |files|);
    var blank := BootSector(hiddenSectors) + Zeros(VOLUME_BYTES - BPS);
    var base := Splice(Splice(blank, BPS, fat), (1 + SPF) * BPS, fat);
    FreeSlotKept(base, files, |files|, index);
    var o := ROOT_OFFSET + index * 32;
    SpliceKeeps(blank, BPS, fat, o, o + 32);
    SpliceKeeps(Splice(blank, BPS, fat), (1 + SPF) * BPS, fat, o, o + 32);
    BlankSlot(hiddenSectors, o);
    TablesMirrored(files, hiddenSectors);
    TableEntries(files, |files|, c);
  }

  // ------------------------------------------------- the code, step by step

  /** The allocation loop of `build_volume`: the table is filled in place,
      chain after chain. */
  method AllocateTable(files: seq<File>) returns (fat: array<byte>, chains: seq<seq<nat>>)
    requires Fits(files)
    ensures fresh(fat) && fat[..] == Table(files, |files|)
    ensures |chains| == |files| && forall i :: 0 <= i < |files| ==> chains[i] == ChainOf(files, i)
  {
    hide SetEntry, InTable;
    fat := new byte[FAT_BYTES](i => 0);
    Blit(fat, 0, Zeros(FAT_BYTES));
    Blit(fat, 0, [0xF0, 0xFF, 0xFF]);
    assert fat[..] == EMPTY_TABLE;
    var nextCluster: nat := FIRST_CLUSTER;
    chains := [];
    for n := 0 to |files|
      invariant nextCluster == NextCluster(files, n) && nextCluster <= CLUSTER_END
      invariant |chains| == n && forall i :: 0 <= i < n ==> chains[i] == ChainOf(files, i)
      invariant fresh(fat) && fat.Length == FAT_BYTES && fat[..] == Table(files, n)
    {
      NextClusterMonotone(files, n, |files|);
      var count := ClusterCount(files[n].data);
      var chain := Consecutive(nextCluster, count);
      assert chain == ChainOf(files, n);
      chains := chains + [chain];
      LinkFile(fat, chain, nextCluster);
      nextCluster := nextCluster + count;
    }
  }

  /** Its inner loop: one file's clusters, the last one marked. */
  method LinkFile(fat: array<byte>, chain: seq<nat>, first: nat)
    requires fat.Length == FAT_BYTES && first + |chain| <= CLUSTER_END
    requires forall k :: 0 <= k < |chain| ==> chain[k] == first + k
    modifies fat
    ensures fat[..] == LinkChain(old(fat[..]), first, |chain|, |chain|)
  {
    hide SetEntry, InTable;
    for index := 0 to |chain|
      invariant fat[..] == LinkChain(old(fat[..]), first, |chain|, index)
    {
      TableWide(fat[..], chain[index]);
      SetFat12Entry(fat, chain[index], if index + 1 < |chain| then chain[index + 1] else 0x0FFF);
    }
  }

  lemma TableWide(fat: seq<byte>, c: nat)
    requires |fat| == FAT_BYTES && c < CLUSTER_END
    ensures InTable(fat, c)
  {
  }

  /** `root_entry`. */
  method WriteRootEntry(volume: array<byte>, index: nat, name: ShortName, cluster: nat, size: nat)
    requires volume.Length == VOLUME_BYTES && index < ROOT_ENTRIES
    modifies volume
    ensures volume[..] == RootEntry(old(volume[..]), index, name, cluster, size)
  {
    var offset := ROOT_OFFSET + index * 32;
    ghost var before := volume[..];
    Blit(volume, offset, name);
    Blit(volume, offset + 11, [0x20]);
    SpliceTwice(before, offset, name, [0x20]);
    Blit(volume, offset + 26, Le(cluster, 2));
    Blit(volume, offset + 28, Le(size, 4));
  }

  /** The chunk loop of `build_volume`: a file's clusters are consecutive, so
      its chunks land as one run. */
  method WriteChunks(volume: array<byte>, data: seq<byte>, chain: seq<nat>, first: nat)
    requires volume.Length == VOLUME_BYTES && FIRST_CLUSTER <= first
    requires |chain| == ClusterCount(data) && first + |chain| <= CLUSTER_END
    requires forall k :: 0 <= k < |chain| ==> chain[k] == first + k
    modifies volume
    ensures volume[..] == Splice(old(volume[..]), DataOffset(first), data)
  {
    ghost var before := volume[..];
    assert Splice(before, DataOffset(first), []) == before;
    for index := 0 to |chain|
      invariant volume.Length == VOLUME_BYTES
      invariant volume[..] == Splice(before, DataOffset(first), data[..Min(index * BPS, |data|)])
    {
      var chunk := Slice(data, index * BPS, (index + 1) * BPS);
      var offset := (DATA_START + chain[index] - 2) * BPS;
      ghost var done := data[..Min(index * BPS, |data|)];
      assert done + chunk == data[..Min((index + 1) * BPS, |data|)];
      if |chunk| > 0 {
        SpliceTwice(before, DataOffset(first), done, chunk);
      }
      ghost var now := volume[..];
      Blit(volume, offset, chunk);
      assert |chunk| == 0 ==> volume[..] == now && done + chunk == done;
    }
    assert data[..|data|] == data;
  }

  /** Both copies of the table. */
  method WriteTables(volume: array<byte>, fat: seq<byte>)
    requires volume.Length == VOLUME_BYTES && |fat| == FAT_BYTES
    modifies volume
    ensures volume[..] == Splice(Splice(old(volume[..]), BPS, fat), (1 + SPF) * BPS, fat)
  {
    hide Splice;
    ghost var blank := volume[..];
    for copy := 0 to FATS
      invariant volume[..] == if copy == 0 then blank
                              else if copy == 1 then Splice(blank, BPS, fat)
                              else Splice(Splice(blank, BPS, fat), (1 + SPF) * BPS, fat)
    {
      assert (FAT_START + copy * SPF) * BPS == if copy == 0 then BPS else (1 + SPF) * BPS;
      Blit(volume, (FAT_START + copy * SPF) * BPS, fat);
    }
  }

  /** `build_volume`. */
  method BuildVolume(files: seq<File>, hiddenSectors: nat) returns (volume: array<byte>)
    requires Fits(files)
    ensures fresh(volume) && volume[..] == Volume(files, hiddenSectors)
  {
    hide Splice, RootEntry, Table, BootSector, Le;
    var fat, chains := AllocateTable(files);
    volume := new byte[VOLUME_BYTES](i => 0);
    Blit(volume, 0, Zeros(VOLUME_BYTES));
    Blit(volume, 0, BootSector(hiddenSectors));
    ghost var blank := BootSector(hiddenSectors) + Zeros(VOLUME_BYTES - BPS);
    Blank(hiddenSectors);
    assert volume[..] == blank;
    WriteTables(volume, fat[..]);
    ghost var base := volume[..];
    for index := 0 to |files|
      invariant fresh(volume) && volume.Length == VOLUME_BYTES
      invariant NextCluster(files, index) <= CLUSTER_END && volume[..] == PlaceFiles(base, files, index)
    {
      NextClusterMonotone(files, index, |files|);
      var data, chain := files[index].data, chains[index];
      WriteRootEntry(volume, index, files[index].name, chain[0], |data|);
      WriteChunks(volume, data, chain, chain[0]);
    }
  }

  lemma Blank(hiddenSectors: nat)
    ensures Splice(Zeros(VOLUME_BYTES), 0, BootSector(hiddenSectors))
            == BootSector(hiddenSectors) + Zeros(VOLUME_BYTES - BPS)
  {
    hide BootSector;
  }
}
