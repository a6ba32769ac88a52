// The kernel's boot volume backend (src/fat.zig, src/runtime_boot_fat.zig): the
// boot sector, the FAT16 table, the directories, and the mount that walks every
// directory and file chain and refuses loops, cross-links and stray links.
module BootFat {
  import opened Bytes

  const MAX_FILES: nat := 32
  const MAX_DIRECTORIES: nat := 24
  const MAX_DEPTH: nat := 8
  const MAX_NAME: nat := 12

  type SectorSize = n: nat | n == 512 || n == 1024 || n == 2048 || n == 4096 witness 512

  // ------------------------------------------------------- the boot sector

  type Block = seq<byte>

  /** A FAT16 volume on the blocks of its partition. */
  datatype Volume = Volume(bs: SectorSize, spc: nat, firstFat: nat, rootLba: nat, rootSectors: nat, firstData: nat,
                           clusterCount: nat, d: seq<Block>)

  ghost predicate BlocksOf(d: seq<Block>, bs: SectorSize) {
    forall l :: 0 <= l < |d| ==> |d[l]| == bs
  }

  ghost predicate ValidVolume(v: Volume) {
    && BlocksOf(v.d, v.bs)
    && 0 < v.spc && 4085 <= v.clusterCount < 65525
    && v.firstFat < v.firstData && v.rootLba + v.rootSectors == v.firstData
    && v.firstData + v.clusterCount * v.spc <= |v.d|
  }

  datatype OpenResult = InvalidVolume | UnsupportedFat | Opened(volume: Volume)

  /** A power of two that fits a byte. */
  predicate IsPowerOfTwo(n: byte) {
    n == 1 || n == 2 || n == 4 || n == 8 || n == 16 || n == 32 || n == 64 || n == 128
  }

  predicate ValidSectorBytes(n: nat) {
    n == 512 || n == 1024 || n == 2048 || n == 4096
  }

  /** `parseBootSector` on the partition's first block, and the checks `mount`
      makes of its result against the device. */
  function Open(d: seq<Block>, bs: SectorSize): (r: OpenResult)
    requires BlocksOf(d, bs) && 0 < |d|
    ensures r.Opened? ==> ValidVolume(r.volume) && r.volume.d == d && r.volume.bs == bs
  {
    var s := d[0];
    var sectorBytes, spc, reserved, fats := Read16(s, 11), s[13], Read16(s, 14), s[16];
    var total := if Read16(s, 19) != 0 then Read16(s, 19) else Read32(s, 32);
    var perFat := if Read16(s, 22) != 0 then Read16(s, 22) else Read32(s, 36);
    if Read16(s, 510) != 0xAA55 || !ValidSectorBytes(sectorBytes) || !IsPowerOfTwo(spc) then InvalidVolume
    else if reserved == 0 || fats == 0 || total == 0 || perFat == 0 then InvalidVolume
    else
      var rootSectors := CeilDiv(Read16(s, 17) * 32, sectorBytes);
      var metadata := reserved + fats * perFat + rootSectors;
      if metadata >= total then InvalidVolume
      else
        var clusters := (total - metadata) / spc;
        if clusters >= 65525 && (Read16(s, 17) != 0 || Read32(s, 44) < 2) then InvalidVolume
        else if clusters < 4085 || clusters >= 65525 then UnsupportedFat
        else if sectorBytes != bs || total > |d| then InvalidVolume
        else
          ClustersFit(total - metadata, spc);
          Positive(fats, perFat);
          Opened(Volume(bs, spc, reserved, reserved + fats * perFat, rootSectors, metadata, clusters, d))
  }

  /** A two-byte and a four-byte value of the boot sector, byte by byte. */
  function Two(s: seq<byte>, o: nat): nat
    requires o + 2 <= |s|
  {
    s[o] as nat + 0x100 * (s[o + 1] as nat)
  }

  function Four(s: seq<byte>, o: nat): nat
    requires o + 4 <= |s|
  {
    s[o] as nat + 0x100 * (s[o + 1] as nat) + 0x1_0000 * (s[o + 2] as nat) + 0x100_0000 * (s[o + 3] as nat)
  }

  /** The volume that a boot sector describes: regions one behind the other, the
      root directory and the clusters rounded to whole blocks, inside the
      partition. */
  ghost predicate Describes(s: seq<byte>, v: Volume)
    requires 512 <= |s|
  {
    var total := if Two(s, 19) != 0 then Two(s, 19) else Four(s, 32);
    var perFat := if Two(s, 22) != 0 then Two(s, 22) else Four(s, 36);
    && s[510] == 0x55 && s[511] == 0xAA && Two(s, 11) == v.bs
    && v.spc == s[13] as nat && v.spc in {1, 2, 4, 8, 16, 32, 64, 128}
    && 0 < v.firstFat == Two(s, 14) && 0 < s[16] && 0 < perFat
    && v.rootLba == v.firstFat + s[16] as nat * perFat
    && 32 * Two(s, 17) <= v.rootSectors * v.bs < 32 * Two(s, 17) + v.bs
    && v.firstData == v.rootLba + v.rootSectors < total <= |v.d|
    && v.clusterCount * v.spc <= total - v.firstData < (v.clusterCount + 1) * v.spc
    && 4085 <= v.clusterCount < 65525
  }

  /** Exactly which partitions open, and as which volume. */
  lemma OpenExactly(d: seq<Block>, bs: SectorSize, v: Volume)
    requires BlocksOf(d, bs) && 0 < |d|
    ensures Open(d, bs) == Opened(v) <==> v.bs == bs && v.d == d && Describes(d[0], v)
  {
    if Open(d, bs).Opened? {
      OpenedDescribes(d, bs);
    }
    if v.bs == bs && v.d == d && Describes(d[0], v) {
      DescribedOpens(d, bs, v);
      if Open(d, bs).Opened? {
        OneDescribed(d[0], v, Open(d, bs).volume);
      }
    }
  }

  lemma OpenedDescribes(d: seq<Block>, bs: SectorSize)
    requires BlocksOf(d, bs) && 0 < |d| && Open(d, bs).Opened?
    ensures Describes(d[0], Open(d, bs).volume)
  {
    var s, v := d[0], Open(d, bs).volume;
    OpenFields(s);
    hide Field, Read16, Read32, Two, Four, CeilDiv;
    var total := if Two(s, 19) != 0 then Two(s, 19) else Four(s, 32);
    Rounded(Two(s, 17) * 32, bs, v.rootSectors);
    Floored(total - v.firstData, s[13], v.clusterCount);
  }

  lemma DescribedOpens(d: seq<Block>, bs: SectorSize, v: Volume)
    requires BlocksOf(d, bs) && 0 < |d| && v.bs == bs && v.d == d && Describes(d[0], v)
    ensures Open(d, bs).Opened?
  {
    var s := d[0];
    OpenFields(s);
    hide Field, Read16, Read32, Two, Four, CeilDiv;
    var total := if Two(s, 19) != 0 then Two(s, 19) else Four(s, 32);
    Rounded(Two(s, 17) * 32, bs, v.rootSectors);
    Floored(total - v.firstData, s[13], v.clusterCount);
  }

  /** A boot sector describes one volume of a partition. */
  lemma OneDescribed(s: seq<byte>, v: Volume, w: Volume)
    requires 512 <= |s| && Describes(s, v) && Describes(s, w) && v.d == w.d
    ensures v == w
  {
    hide Two, Four, CeilDiv;
    var total := if Two(s, 19) != 0 then Two(s, 19) else Four(s, 32);
    Rounded(32 * Two(s, 17), v.bs, v.rootSectors);
    Rounded(32 * Two(s, 17), v.bs, w.rootSectors);
    Floored(total - v.firstData, s[13], v.clusterCount);
    Floored(total - v.firstData, s[13], w.clusterCount);
  }

  lemma OpenFields(s: seq<byte>)
    requires 512 <= |s|
    ensures Read16(s, 11) == Two(s, 11) && Read16(s, 14) == Two(s, 14) && Read16(s, 17) == Two(s, 17)
    ensures Read16(s, 19) == Two(s, 19) && Read16(s, 22) == Two(s, 22) && Read32(s, 32) == Four(s, 32)
    ensures Read32(s, 36) == Four(s, 36) && Read16(s, 510) == Two(s, 510)
    ensures Read16(s, 510) == 0xAA55 <==> s[510] == 0x55 && s[511] == 0xAA
  {
    hide UnLe, Field;
    WordOfField(s, 11); WordOfField(s, 14); WordOfField(s, 17); WordOfField(s, 19); WordOfField(s, 22);
    WordOfField(s, 510); DoubleWordOfField(s, 32); DoubleWordOfField(s, 36);
  }

  lemma Rounded(n: nat, d: nat, q: nat)
    requires 0 < d
    ensures q == CeilDiv(n, d) <==> n <= q * d < n + d
  {
    var c := CeilDiv(n, d);
    var r := (n + d - 1) % d;
    assert n + d - 1 == d * c + r;
    assert d * c == c * d;
    if q < c {
      ScaledOrder(q + 1, c, d);
    } else if c < q {
      ScaledOrder(c + 1, q, d);
    }
  }

  lemma Floored(n: nat, d: nat, q: nat)
    requires 0 < d
    ensures q == n / d <==> q * d <= n < (q + 1) * d
  {
    var c, r := n / d, n % d;
    assert n == d * c + r;
    assert d * c == c * d;
    if q < c {
      ScaledOrder(q + 1, c, d);
    } else if c < q {
      ScaledOrder(c + 1, q, d);
    }
  }

  lemma ClustersFit(n: nat, spc: nat)
    requires 0 < spc
    ensures n / spc * spc <= n
  {
  }

  lemma Positive(a: nat, b: nat)
    requires 0 < a && 0 < b
    ensures 0 < a * b
  {
  }

  predicate InRange(v: Volume, c: nat) {
    2 <= c < v.clusterCount + 2
  }

  /** `clusterFirstLba`. */
  function ClusterLba(v: Volume, c: nat): (lba: nat)
    requires ValidVolume(v) && InRange(v, c)
    ensures lba + v.spc <= |v.d|
  {
    ScaledOrder(c - 2 + 1, v.clusterCount, v.spc);
    v.firstData + (c - 2) * v.spc
  }

  // ------------------------------------------------------------- the table

  function Quotient(n: nat, d: nat): nat
    requires 0 < d
  {
    n / d
  }

  function Remainder(n: nat, d: nat): (r: nat)
    requires 0 < d
    ensures r < d
  {
    n % d
  }

  datatype Link = NextCluster(cluster: nat) | EndOfChain | FreeCluster | BadCluster | StrayLink

  /** The table entry of a cluster, found in its block as `fatEntryLocation`
      does. */
  function TableEntry(v: Volume, c: nat): u16
    requires ValidVolume(v) && InRange(v, c)
  {
    EntryInside(v, c);
    Read16(v.d[v.firstFat + Quotient(2 * c, v.bs)], Remainder(2 * c, v.bs))
  }

  lemma EntryInside(v: Volume, c: nat)
    requires ValidVolume(v) && InRange(v, c)
    ensures v.firstFat + Quotient(2 * c, v.bs) < |v.d|
    ensures |v.d[v.firstFat + Quotient(2 * c, v.bs)]| == v.bs
    ensures Remainder(2 * c, v.bs) + 2 <= v.bs
  {
    DataInside(v);
    hide Quotient, Remainder;
    EvenInBlock(c, v.bs);
  }

  lemma DataInside(v: Volume)
    requires ValidVolume(v)
    ensures v.firstData + v.clusterCount <= |v.d|
  {
    hide BlocksOf;
    ScaledOrder(1, v.spc, v.clusterCount);
    assert v.spc * v.clusterCount == v.clusterCount * v.spc;
  }

  lemma EvenInBlock(c: nat, bs: SectorSize)
    ensures Quotient(2 * c, bs) <= c / 256 && Remainder(2 * c, bs) + 2 <= bs
  {
    var q, r := Quotient(2 * c, bs), Remainder(2 * c, bs);
    Division(2 * c, bs);
    ScaledOrder(512, bs, q);
    assert 256 * q <= c;
    assert bs / 2 * 2 == bs;
    EvenRemainder(c, q, r, bs / 2);
  }

  lemma Division(n: nat, d: nat)
    requires 0 < d
    ensures n == d * Quotient(n, d) + Remainder(n, d)
    ensures Quotient(n, d) == n / d && Remainder(n, d) == n % d
  {
  }

  lemma EvenRemainder(c: nat, q: nat, r: nat, half: nat)
    requires 2 * c == (2 * half) * q + r && r < 2 * half
    ensures r + 2 <= 2 * half
  {
    assert (2 * half) * q == 2 * (half * q);
  }

  /** `decodeClusterLink` for FAT16, with the range check of the cluster. */
  function DecodeLink(v: Volume, c: nat): Link
    requires ValidVolume(v)
  {
    if !InRange(v, c) then StrayLink
    else
      var value := TableEntry(v, c);
      if value == 0 then FreeCluster
      else if value == 0xFFF7 then BadCluster
      else if value >= 0xFFF8 then EndOfChain
      else if !InRange(v, value) then StrayLink
      else NextCluster(value)
  }

  /** The two raw bytes of a cluster's table entry, 2 * c bytes into the table. */
  ghost function Word(v: Volume, c: nat): (w: nat)
    requires ValidVolume(v) && InRange(v, c)
    ensures w < 0x1_0000
  {
    EntryInside(v, c);
    Division(2 * c, v.bs);
    var block, o := v.d[v.firstFat + 2 * c / v.bs], 2 * c % v.bs;
    block[o] as nat + 256 * (block[o + 1] as nat)
  }

  /** What each value of the raw entry means. */
  lemma LinkExact(v: Volume, c: nat)
    requires ValidVolume(v) && InRange(v, c)
    ensures DecodeLink(v, c) == FreeCluster <==> Word(v, c) == 0
    ensures DecodeLink(v, c) == BadCluster <==> Word(v, c) == 0xFFF7
    ensures DecodeLink(v, c) == EndOfChain <==> 0xFFF8 <= Word(v, c)
    ensures forall n: nat :: DecodeLink(v, c) == NextCluster(n) <==> Word(v, c) == n && 2 <= n < v.clusterCount + 2
    ensures DecodeLink(v, c) == StrayLink <==> Word(v, c) == 1 || v.clusterCount + 2 <= Word(v, c) <= 0xFFF6
  {
    hide Word, DecodeLink, BlocksOf;
    LinkOfWord(v, c);
  }

  lemma LinkOfWord(v: Volume, c: nat)
    requires ValidVolume(v) && InRange(v, c)
    ensures var w := Word(v, c);
            DecodeLink(v, c) == if w == 0 then FreeCluster else if w == 0xFFF7 then BadCluster
                                else if w >= 0xFFF8 then EndOfChain
                                else if 2 <= w < v.clusterCount + 2 then NextCluster(w) else StrayLink
  {
    EntryInside(v, c);
    EntryIsWord(v, c);
    hide Word, TableEntry, Quotient, Remainder, BlocksOf;
  }

  lemma EntryIsWord(v: Volume, c: nat)
    requires ValidVolume(v) && InRange(v, c)
    ensures TableEntry(v, c) == Word(v, c)
  {
    hide Quotient, Remainder, ValidVolume;
    EntryInside(v, c);
    Division(2 * c, v.bs);
    WordOfField(v.d[v.firstFat + 2 * c / v.bs], 2 * c % v.bs);
  }

  datatype FatError = ChainLoop | CrossLinkedCluster | OutOfRangeCluster | CorruptFilesystem | NamespaceLimit

  datatype Walk = WalkFailed(error: FatError) | Walked(claimed: set<nat>, chain: seq<nat>)

  /** The loop of `validateFileChainLocked` from its local state on: `visited`
      is this chain's bitmap, `claimed` the volume's. */
  function WalkFile(v: Volume, cluster: nat, count: nat, required: nat, visited: set<nat>, claimed: set<nat>): Walk
    requires ValidVolume(v)
    decreases v.clusterCount - count
  {
    if count >= v.clusterCount then WalkFailed(ChainLoop)
    else if !InRange(v, cluster) then WalkFailed(OutOfRangeCluster)
    else if cluster in visited then WalkFailed(ChainLoop)
    else if cluster in claimed then WalkFailed(CrossLinkedCluster)
    else
      match DecodeLink(v, cluster)
      case NextCluster(next) =>
        (match WalkFile(v, next, count + 1, required, visited + {cluster}, claimed + {cluster})
         case WalkFailed(e) => WalkFailed(e)
         case Walked(after, rest) => Walked(after, [cluster] + rest))
      case EndOfChain =>
        if count + 1 < required then WalkFailed(CorruptFilesystem) else Walked(claimed + {cluster}, [cluster])
      case StrayLink => WalkFailed(OutOfRangeCluster)
      case _ => WalkFailed(CorruptFilesystem)
  }

  function ClusterBytes(v: Volume): (n: nat)
    requires ValidVolume(v)
    ensures 0 < n
  {
    Positive(v.bs, v.spc);
    v.bs * v.spc
  }

  /** How many clusters a file of `size` bytes needs. */
  function ClustersOf(v: Volume, size: nat): nat
    requires ValidVolume(v)
  {
    CeilDiv(size, ClusterBytes(v))
  }

  /** `validateFileChainLocked`. */
  function ValidateFile(v: Volume, first: nat, size: nat, claimed: set<nat>): Walk
    requires ValidVolume(v)
  {
    if size == 0 && first == 0 then Walked(claimed, [])
    else if first < 2 then WalkFailed(OutOfRangeCluster)
    else WalkFile(v, first, 0, ClustersOf(v, size), {}, claimed)
  }

  /** A chain as the table's raw words give it: in-range clusters, each word the
      next cluster, the last one an end mark. */
  ghost predicate GoodChain(v: Volume, first: nat, chain: seq<nat>)
    requires ValidVolume(v)
  {
    && 0 < |chain| && chain[0] == first
    && (forall k :: 0 <= k < |chain| ==> InRange(v, chain[k]))
    && (forall k :: 0 <= k < |chain| - 1 ==> Word(v, chain[k]) == chain[k + 1])
    && 0xFFF8 <= Word(v, chain[|chain| - 1])
  }

  /** The same chain by decoded links. */
  ghost predicate LinkedChain(v: Volume, first: nat, chain: seq<nat>)
    requires ValidVolume(v)
  {
    && 0 < |chain| && chain[0] == first
    && (forall k :: 0 <= k < |chain| ==> InRange(v, chain[k]))
    && (forall k :: 0 <= k < |chain| - 1 ==> DecodeLink(v, chain[k]) == NextCluster(chain[k + 1]))
    && DecodeLink(v, chain[|chain| - 1]) == EndOfChain
  }

  lemma GoodIsLinked(v: Volume, first: nat, chain: seq<nat>)
    requires ValidVolume(v)
    ensures GoodChain(v, first, chain) <==> LinkedChain(v, first, chain)
  {
    hide DecodeLink, Word, ValidVolume;
    if GoodChain(v, first, chain) {
      forall k | 0 <= k < |chain| - 1
        ensures DecodeLink(v, chain[k]) == NextCluster(chain[k + 1])
      {
        assert Word(v, chain[k]) == chain[k + 1] && InRange(v, chain[k + 1]);
        LinkExact(v, chain[k]);
      }
      LinkExact(v, chain[|chain| - 1]);
    }
    if LinkedChain(v, first, chain) {
      forall k | 0 <= k < |chain| - 1
        ensures Word(v, chain[k]) == chain[k + 1]
      {
        assert DecodeLink(v, chain[k]) == NextCluster(chain[k + 1]);
        LinkExact(v, chain[k]);
      }
      LinkExact(v, chain[|chain| - 1]);
    }
  }

  function Clusters(chain: seq<nat>): set<nat> {
    set c | c in chain
  }

  ghost predicate Avoids(chain: seq<nat>, s: set<nat>) {
    forall k :: 0 <= k < |chain| ==> chain[k] !in s
  }

  lemma {:induction false} Acyclic(v: Volume, first: nat, chain: seq<nat>, i: nat, j: nat)
    requires ValidVolume(v) && LinkedChain(v, first, chain) && i < j < |chain|
    ensures chain[i] != chain[j]
    decreases |chain| - j
  {
    hide DecodeLink;
    assert DecodeLink(v, chain[i]) == NextCluster(chain[i + 1]);
    if j < |chain| - 1 {
      assert DecodeLink(v, chain[j]) == NextCluster(chain[j + 1]);
      Acyclic(v, first, chain, i + 1, j + 1);
    }
  }

  /** A good chain repeats no cluster and so is never longer than the volume. */
  lemma LinkedChainFits(v: Volume, first: nat, chain: seq<nat>)
    requires ValidVolume(v) && LinkedChain(v, first, chain)
    ensures NoRepeats(chain) && |chain| <= v.clusterCount
  {
    hide DecodeLink;
    forall i, j | 0 <= i < j < |chain|
      ensures chain[i] != chain[j]
    {
      Acyclic(v, first, chain, i, j);
    }
    RangeSize(2, v.clusterCount + 2);
    Pigeonhole(chain, Range(2, v.clusterCount + 2));
  }

  lemma {:induction false} WalkSound(v: Volume, cluster: nat, count: nat, required: nat, visited: set<nat>, claimed: set<nat>)
    requires ValidVolume(v) && WalkFile(v, cluster, count, required, visited, claimed).Walked?
    ensures var r := WalkFile(v, cluster, count, required, visited, claimed);
            && LinkedChain(v, cluster, r.chain) && required <= count + |r.chain|
            && Avoids(r.chain, claimed) && r.claimed == claimed + Clusters(r.chain)
    decreases v.clusterCount - count
  {
    hide InRange;
    var r := WalkFile(v, cluster, count, required, visited, claimed);
    match DecodeLink(v, cluster)
    case NextCluster(next) =>
      WalkSound(v, next, count + 1, required, visited + {cluster}, claimed + {cluster});
      var rest := WalkFile(v, next, count + 1, required, visited + {cluster}, claimed + {cluster}).chain;
      hide DecodeLink, WalkFile;
      ChainCons(v, cluster, next, rest);
      forall k | 0 <= k < |r.chain|
        ensures r.chain[k] !in claimed
      {
        if k > 0 {
          assert rest[k - 1] !in claimed + {cluster};
        }
      }
      ConsClusters(cluster, rest);
    case EndOfChain =>
      ConsClusters(cluster, []);
      assert Clusters([]) == {};
      assert r.chain == [cluster] + [];
    case _ =>
  }

  lemma ChainCons(v: Volume, cluster: nat, next: nat, rest: seq<nat>)
    requires ValidVolume(v) && LinkedChain(v, next, rest) && InRange(v, cluster)
    requires DecodeLink(v, cluster) == NextCluster(next)
    ensures LinkedChain(v, cluster, [cluster] + rest)
  {
    hide DecodeLink, InRange;
    var chain := [cluster] + rest;
    forall k | 0 <= k < |chain| - 1
      ensures DecodeLink(v, chain[k]) == NextCluster(chain[k + 1])
    {
      if k > 0 {
        assert DecodeLink(v, rest[k - 1]) == NextCluster(rest[k - 1 + 1]);
      }
    }
  }

  lemma ConsClusters(c: nat, rest: seq<nat>)
    ensures Clusters([c] + rest) == {c} + Clusters(rest)
  {
    assert forall x :: x in [c] + rest <==> x == c || x in rest;
  }

  lemma {:induction false} WalkComplete(v: Volume, chain: seq<nat>, count: nat, required: nat, visited: set<nat>,
                                        claimed: set<nat>)
    requires ValidVolume(v) && 0 < |chain| && LinkedChain(v, chain[0], chain) && NoRepeats(chain)
    requires Avoids(chain, visited) && Avoids(chain, claimed)
    requires count + |chain| <= v.clusterCount && required <= count + |chain|
    ensures WalkFile(v, chain[0], count, required, visited, claimed) == Walked(claimed + Clusters(chain), chain)
    decreases |chain|
  {
    hide InRange, DecodeLink, ValidVolume, Clusters;
    var c, rest := chain[0], chain[1..];
    assert chain == [c] + rest && c !in visited && c !in claimed;
    ConsClusters(c, rest);
    if |rest| > 0 {
      assert DecodeLink(v, chain[0]) == NextCluster(chain[0 + 1]);
      hide LinkedChain;
      TailGood(v, chain);
      forall k | 0 <= k < |rest|
        ensures rest[k] !in visited + {c} && rest[k] !in claimed + {c}
      {
        assert rest[k] == chain[k + 1] && chain[0] != chain[k + 1];
      }
      WalkComplete(v, rest, count + 1, required, visited + {c}, claimed + {c});
      assert claimed + {c} + Clusters(rest) == claimed + ({c} + Clusters(rest));
    } else {
      NoClusters();
      assert claimed + ({c} + {}) == claimed + {c};
    }
  }

  lemma NoClusters()
    ensures Clusters([]) == {}
  {
  }

  lemma TailGood(v: Volume, chain: seq<nat>)
    requires ValidVolume(v) && 1 < |chain| && LinkedChain(v, chain[0], chain) && NoRepeats(chain)
    ensures LinkedChain(v, chain[1..][0], chain[1..]) && NoRepeats(chain[1..])
  {
    hide DecodeLink, InRange;
    var rest := chain[1..];
    forall k | 0 <= k < |rest| - 1
      ensures DecodeLink(v, rest[k]) == NextCluster(rest[k + 1])
    {
      assert DecodeLink(v, chain[k + 1]) == NextCluster(chain[k + 1 + 1]);
    }
  }

  lemma WalkLinked(v: Volume, first: nat, required: nat, claimed: set<nat>, after: set<nat>, chain: seq<nat>)
    requires ValidVolume(v)
    ensures WalkFile(v, first, 0, required, {}, claimed) == Walked(after, chain) <==>
              && LinkedChain(v, first, chain) && required <= |chain|
              && Avoids(chain, claimed) && after == claimed + Clusters(chain)
  {
    hide WalkFile, DecodeLink, InRange, Clusters;
    if WalkFile(v, first, 0, required, {}, claimed) == Walked(after, chain) {
      WalkSound(v, first, 0, required, {}, claimed);
    }
    if LinkedChain(v, first, chain) && required <= |chain| && Avoids(chain, claimed) && after == claimed + Clusters(chain) {
      LinkedChainFits(v, first, chain);
      WalkComplete(v, chain, 0, required, {}, claimed);
    }
  }

  /** Exactly which files the mount accepts over clusters already claimed: those
      with a terminated chain of enough in-range clusters, none of them claimed.
      It returns that chain and claims it; the bound on the loop never matters. */
  lemma WalkExact(v: Volume, first: nat, required: nat, claimed: set<nat>, after: set<nat>, chain: seq<nat>)
    requires ValidVolume(v)
    ensures WalkFile(v, first, 0, required, {}, claimed) == Walked(after, chain) <==>
              && GoodChain(v, first, chain) && required <= |chain|
              && Avoids(chain, claimed) && after == claimed + Clusters(chain)
  {
    hide WalkFile, DecodeLink, InRange, Clusters, GoodChain, LinkedChain;
    GoodIsLinked(v, first, chain);
    WalkLinked(v, first, required, claimed, after, chain);
  }

  // ---------------------------------------------- what stops the walk

  /** Clusters already passed, each word naming the next. */
  ghost predicate Passed(v: Volume, chain: seq<nat>, visited: set<nat>, claimed: set<nat>)
    requires ValidVolume(v)
  {
    && NoRepeats(chain) && Avoids(chain, visited) && Avoids(chain, claimed)
    && (forall k :: 0 <= k < |chain| ==> InRange(v, chain[k]))
    && (forall k :: 0 <= k < |chain| - 1 ==> Word(v, chain[k]) == chain[k + 1])
  }

  /** The walk from `first` passes `chain` and is stopped behind it: by a cluster
      out of range, passed before or claimed by another file, or by a table word
      that is neither a cluster nor an end mark, or ends the chain too early. */
  ghost predicate Stops(v: Volume, first: nat, chain: seq<nat>, count: nat, required: nat, visited: set<nat>,
                        claimed: set<nat>, e: FatError)
    requires ValidVolume(v)
  {
    && Passed(v, chain, visited, claimed) && (chain != [] ==> chain[0] == first)
    && if chain == [] then StoppedAt(v, first, visited, claimed, e)
       else
         var last := Word(v, chain[|chain| - 1]);
         if 2 <= last < v.clusterCount + 2 then StoppedAt(v, last, visited + Clusters(chain), claimed, e)
         else if last == 0 || last == 0xFFF7 then e == CorruptFilesystem
         else if last >= 0xFFF8 then e == CorruptFilesystem && count + |chain| < required
         else e == OutOfRangeCluster
  }

  ghost predicate StoppedAt(v: Volume, c: nat, visited: set<nat>, claimed: set<nat>, e: FatError) {
    if !(2 <= c < v.clusterCount + 2) then e == OutOfRangeCluster
    else if c in visited then e == ChainLoop
    else c in claimed && e == CrossLinkedCluster
  }

  ghost predicate AllIn(v: Volume, s: set<nat>) {
    forall c :: c in s ==> InRange(v, c)
  }

  /** Once as many clusters are passed as the volume has, every one is. */
  lemma NoneLeft(v: Volume, visited: set<nat>, c: nat)
    requires AllIn(v, visited) && |visited| >= v.clusterCount && InRange(v, c)
    ensures c in visited
  {
    RangeSize(2, v.clusterCount + 2);
    if c !in visited {
      SubsetSize(visited + {c}, Range(2, v.clusterCount + 2));
    }
  }

  lemma {:induction false} FailureStops(v: Volume, cluster: nat, count: nat, required: nat, visited: set<nat>,
                                        claimed: set<nat>)
    returns (chain: seq<nat>)
    requires ValidVolume(v) && AllIn(v, visited) && |visited| == count
    requires count > 0 ==> InRange(v, cluster)
    requires WalkFile(v, cluster, count, required, visited, claimed + visited).WalkFailed?
    ensures Stops(v, cluster, chain, count, required, visited, claimed,
                  WalkFile(v, cluster, count, required, visited, claimed + visited).error)
    decreases v.clusterCount - count
  {
    hide DecodeLink, ValidVolume, Word, WalkFile, Stops, Clusters, AllIn;
    VolumeNotEmpty(v);
    WalkStep(v, cluster, count, required, visited, claimed + visited);
    OneMoreIn(v, visited, cluster);
    var e := WalkFile(v, cluster, count, required, visited, claimed + visited).error;
    if count >= v.clusterCount {
      NoneLeft(v, visited, cluster);
      chain := [];
      StopsHere(v, cluster, count, required, visited, claimed, e);
    } else if !InRange(v, cluster) || cluster in visited || cluster in claimed {
      chain := [];
      StopsHere(v, cluster, count, required, visited, claimed, e);
    } else {
      LinkOfWord(v, cluster);
      assert claimed + visited + {cluster} == claimed + (visited + {cluster});
      match DecodeLink(v, cluster)
      case NextCluster(next) =>
        var rest := FailureStops(v, next, count + 1, required, visited + {cluster}, claimed);
        chain := [cluster] + rest;
        StopsCons(v, cluster, next, rest, count, required, visited, claimed, e);
      case _ =>
        chain := [cluster];
        StopsThere(v, cluster, count, required, visited, claimed, e);
    }
  }

  lemma OneMoreIn(v: Volume, visited: set<nat>, c: nat)
    requires AllIn(v, visited)
    ensures InRange(v, c) && c !in visited ==> AllIn(v, visited + {c}) && |visited + {c}| == |visited| + 1
  {
  }

  lemma StopsHere(v: Volume, c: nat, count: nat, required: nat, visited: set<nat>, claimed: set<nat>, e: FatError)
    requires ValidVolume(v)
    ensures Stops(v, c, [], count, required, visited, claimed, e) <==> StoppedAt(v, c, visited, claimed, e)
  {
  }

  lemma StopsThere(v: Volume, c: nat, count: nat, required: nat, visited: set<nat>, claimed: set<nat>, e: FatError)
    requires ValidVolume(v) && InRange(v, c) && c !in visited && c !in claimed && !InRange(v, Word(v, c))
    ensures Stops(v, c, [c], count, required, visited, claimed, e)
            <==> var last := Word(v, c);
                 if last == 0 || last == 0xFFF7 then e == CorruptFilesystem
                 else if last >= 0xFFF8 then e == CorruptFilesystem && count + 1 < required
                 else e == OutOfRangeCluster
  {
    hide Word;
    OnePassed(v, c, visited, claimed);
  }

  lemma OnePassed(v: Volume, c: nat, visited: set<nat>, claimed: set<nat>)
    requires ValidVolume(v) && InRange(v, c) && c !in visited && c !in claimed
    ensures Passed(v, [c], visited, claimed)
  {
  }

  lemma VolumeNotEmpty(v: Volume)
    requires ValidVolume(v)
    ensures 0 < v.clusterCount < 0xFFF5
  {
  }

  /** One round of the walk. */
  lemma WalkStep(v: Volume, cluster: nat, count: nat, required: nat, visited: set<nat>, claimed: set<nat>)
    requires ValidVolume(v)
    ensures WalkFile(v, cluster, count, required, visited, claimed)
            == if count >= v.clusterCount then WalkFailed(ChainLoop)
               else if !InRange(v, cluster) then WalkFailed(OutOfRangeCluster)
               else if cluster in visited then WalkFailed(ChainLoop)
               else if cluster in claimed then WalkFailed(CrossLinkedCluster)
               else match DecodeLink(v, cluster)
                 case NextCluster(next) =>
                   (match WalkFile(v, next, count + 1, required, visited + {cluster}, claimed + {cluster})
                    case WalkFailed(e) => WalkFailed(e)
                    case Walked(after, rest) => Walked(after, [cluster] + rest))
                 case EndOfChain =>
                   if count + 1 < required then WalkFailed(CorruptFilesystem) else Walked(claimed + {cluster}, [cluster])
                 case StrayLink => WalkFailed(OutOfRangeCluster)
                 case _ => WalkFailed(CorruptFilesystem)
  {
    hide DecodeLink, InRange, ValidVolume;
  }

  lemma StopsCons(v: Volume, cluster: nat, next: nat, rest: seq<nat>, count: nat, required: nat, visited: set<nat>,
                  claimed: set<nat>, e: FatError)
    requires ValidVolume(v) && InRange(v, cluster) && cluster !in visited && cluster !in claimed
    requires Word(v, cluster) == next && InRange(v, next)
    ensures Stops(v, next, rest, count + 1, required, visited + {cluster}, claimed, e)
            <==> Stops(v, cluster, [cluster] + rest, count, required, visited, claimed, e)
  {
    hide Word, ValidVolume, Passed, Clusters;
    ConsClusters(cluster, rest);
    NoClusters();
    assert visited + ({cluster} + Clusters(rest)) == visited + {cluster} + Clusters(rest);
    assert visited + ({cluster} + {}) == visited + {cluster};
    if Passed(v, [cluster] + rest, visited, claimed) {
      PassedTail(v, cluster, rest, visited, claimed);
    }
    if Passed(v, rest, visited + {cluster}, claimed) && (rest != [] ==> rest[0] == next) {
      PassedCons(v, cluster, rest, visited, claimed);
    }
  }

  lemma PassedCons(v: Volume, cluster: nat, rest: seq<nat>, visited: set<nat>, claimed: set<nat>)
    requires ValidVolume(v) && InRange(v, cluster) && cluster !in visited && cluster !in claimed
    requires Passed(v, rest, visited + {cluster}, claimed) && (rest != [] ==> rest[0] == Word(v, cluster))
    ensures Passed(v, [cluster] + rest, visited, claimed)
  {
    hide Word, ValidVolume, InRange;
    var chain := [cluster] + rest;
    assert forall k :: 0 < k < |chain| ==> chain[k] == rest[k - 1];
    forall k | 0 <= k < |chain| - 1
      ensures Word(v, chain[k]) == chain[k + 1]
    {
      if k > 0 {
        assert Word(v, rest[k - 1]) == rest[k - 1 + 1];
      }
    }
  }

  lemma PassedTail(v: Volume, cluster: nat, rest: seq<nat>, visited: set<nat>, claimed: set<nat>)
    requires ValidVolume(v) && Passed(v, [cluster] + rest, visited, claimed)
    ensures Passed(v, rest, visited + {cluster}, claimed) && InRange(v, cluster)
    ensures rest != [] ==> rest[0] == Word(v, cluster)
  {
    hide Word, ValidVolume, InRange;
    var chain := [cluster] + rest;
    assert chain[0] == cluster && forall k :: 0 <= k < |rest| ==> rest[k] == chain[k + 1];
    forall k | 0 <= k < |rest| - 1
      ensures Word(v, rest[k]) == rest[k + 1]
    {
      assert Word(v, chain[k + 1]) == chain[k + 1 + 1];
    }
    if rest != [] {
      assert Word(v, chain[0]) == chain[0 + 1];
    }
  }

  lemma {:induction false} StopsFails(v: Volume, cluster: nat, chain: seq<nat>, count: nat, required: nat,
                                      visited: set<nat>, claimed: set<nat>, e: FatError)
    requires ValidVolume(v) && AllIn(v, visited) && |visited| == count && (count > 0 ==> InRange(v, cluster))
    requires Stops(v, cluster, chain, count, required, visited, claimed, e)
    ensures WalkFile(v, cluster, count, required, visited, claimed + visited) == WalkFailed(e)
    decreases |chain|
  {
    hide DecodeLink, ValidVolume, Word, WalkFile, Stops, Clusters;
    VolumeNotEmpty(v);
    WalkStep(v, cluster, count, required, visited, claimed + visited);
    StopsHead(v, cluster, chain, count, required, visited, claimed, e);
    if count >= v.clusterCount {
      NoneLeft(v, visited, cluster);
      StopsHere(v, cluster, count, required, visited, claimed, e);
    } else if chain == [] {
      StopsHere(v, cluster, count, required, visited, claimed, e);
    } else {
      LinkOfWord(v, cluster);
      assert claimed + visited + {cluster} == claimed + (visited + {cluster});
      if DecodeLink(v, cluster).NextCluster? {
        var next := DecodeLink(v, cluster).cluster;
        StopsCons(v, cluster, next, chain[1..], count, required, visited, claimed, e);
        StopsFails(v, next, chain[1..], count + 1, required, visited + {cluster}, claimed, e);
      } else {
        StopsThere(v, cluster, count, required, visited, claimed, e);
      }
    }
  }

  /** What the first cluster of such a chain is. */
  lemma StopsHead(v: Volume, cluster: nat, chain: seq<nat>, count: nat, required: nat, visited: set<nat>,
                  claimed: set<nat>, e: FatError)
    requires ValidVolume(v) && AllIn(v, visited) && Stops(v, cluster, chain, count, required, visited, claimed, e)
    ensures chain != [] ==>
              chain == [cluster] + chain[1..] && InRange(v, cluster) && cluster !in visited && cluster !in claimed
    ensures |visited| >= v.clusterCount ==> chain == []
    ensures chain != [] && !InRange(v, Word(v, cluster)) ==> chain == [cluster]
  {
    hide Word, ValidVolume, Clusters;
    if |visited| >= v.clusterCount {
      NothingPassed(v, chain, visited, claimed);
    }
    if chain != [] {
      assert chain == [cluster] + chain[1..];
      PassedTail(v, cluster, chain[1..], visited, claimed);
      assert |chain| > 1 ==> InRange(v, chain[1]);
    }
  }

  lemma NothingPassed(v: Volume, chain: seq<nat>, visited: set<nat>, claimed: set<nat>)
    requires ValidVolume(v) && AllIn(v, visited) && |visited| >= v.clusterCount && Passed(v, chain, visited, claimed)
    ensures chain == []
  {
    hide Word, ValidVolume;
    if chain != [] {
      NoneLeft(v, visited, chain[0]);
    }
  }

  /** Exactly when and how a file is refused: with that error, if and only if the
      raw words lead from its first cluster to what the error names. */
  lemma WalkFailsExactly(v: Volume, first: nat, required: nat, claimed: set<nat>, e: FatError)
    requires ValidVolume(v)
    ensures WalkFile(v, first, 0, required, {}, claimed) == WalkFailed(e)
            <==> exists chain :: Stops(v, first, chain, 0, required, {}, claimed, e)
  {
    hide WalkFile, Stops;
    assert claimed + {} == claimed;
    if WalkFile(v, first, 0, required, {}, claimed) == WalkFailed(e) {
      var chain := FailureStops(v, first, 0, required, {}, claimed);
    }
    if chain :| Stops(v, first, chain, 0, required, {}, claimed, e) {
      StopsFails(v, first, chain, 0, required, {}, claimed, e);
    }
  }

  /** The loop as the code runs it, with its two bitmaps as sets. */
  method ValidateFileChain(v: Volume, first: nat, size: nat, claimed: set<nat>) returns (r: Walk)
    requires ValidVolume(v)
    ensures r == ValidateFile(v, first, size, claimed)
  {
    hide DecodeLink, InRange;
    if size == 0 && first == 0 {
      return Walked(claimed, []);
    }
    if first < 2 {
      return WalkFailed(OutOfRangeCluster);
    }
    var required := ClustersOf(v, size);
    var visited: set<nat>, owned: set<nat> := {}, claimed;
    var cluster: nat, count: nat := first, 0;
    var chain: seq<nat> := [];
    while count < v.clusterCount
      invariant count <= v.clusterCount
      invariant WalkFile(v, first, 0, required, {}, claimed)
                == Prepend(chain, WalkFile(v, cluster, count, required, visited, owned))
      decreases v.clusterCount - count
    {
      if !InRange(v, cluster) {
        return WalkFailed(OutOfRangeCluster);
      }
      if cluster in visited {
        return WalkFailed(ChainLoop);
      }
      if cluster in owned {
        return WalkFailed(CrossLinkedCluster);
      }
      ghost var was := WalkFile(v, cluster, count, required, visited, owned);
      visited, owned, count := visited + {cluster}, owned + {cluster}, count + 1;
      PrependStep(chain, cluster, if DecodeLink(v, cluster).NextCluster? then
                    WalkFile(v, DecodeLink(v, cluster).cluster, count, required, visited, owned) else was);
      chain := chain + [cluster];
      match DecodeLink(v, cluster) {
        case NextCluster(next) =>
          cluster := next;
        case EndOfChain =>
          if count < required {
            return WalkFailed(CorruptFilesystem);
          }
          return Walked(owned, chain);
        case StrayLink =>
          return WalkFailed(OutOfRangeCluster);
        case _ =>
          return WalkFailed(CorruptFilesystem);
      }
    }
    return WalkFailed(ChainLoop);
  }

  function Prepend(chain: seq<nat>, w: Walk): Walk {
    match w
    case WalkFailed(e) => WalkFailed(e)
    case Walked(claimed, rest) => Walked(claimed, chain + rest)
  }

  lemma PrependStep(chain: seq<nat>, c: nat, w: Walk)
    ensures Prepend(chain, Prepend([c], w)) == Prepend(chain + [c], w)
  {
    if w.Walked? {
      assert chain + ([c] + w.chain) == chain + [c] + w.chain;
    }
  }

  // -------------------------------------------------------- directories

  datatype DirEntry = DirEntry(name: seq<byte>, isDirectory: bool, first: nat, size: nat)

  datatype DirectorySector = DirectorySector(entries: seq<DirEntry>, ended: bool)

  const SPACE: byte := 0x20
  const FULL_STOP: byte := 0x2E

  /** The end of a space-padded field. */
  function Trimmed(s: seq<byte>): (n: nat)
    ensures n <= |s|
  {
    if |s| == 0 then 0 else if s[|s| - 1] == SPACE then Trimmed(s[..|s| - 1]) else |s|
  }

  function Terminated(s: seq<byte>): (r: seq<byte>)
    ensures |r| <= |s|
  {
    if |s| == 0 || s[0] == 0 then [] else [s[0]] + Terminated(s[1..])
  }

  /** `decodeShortName` and `nameSlice`. */
  function ShortName(raw: seq<byte>): seq<byte>
    requires |raw| == 11
  {
    var base, ext := raw[..Trimmed(raw[..8])], raw[8..8 + Trimmed(raw[8..])];
    var stem := if base != [] && base[0] == 0x05 then [0xE5] + base[1..] else base;
    Terminated(stem + if ext == [] then [] else [FULL_STOP] + ext)
  }

  /** `parseDirectorySector` from raw entry `k` on. */
  function ParseEntries(sector: seq<byte>, k: nat): DirectorySector
    requires 32 * k <= |sector| && |sector| % 32 == 0
    decreases |sector| - 32 * k
  {
    var o := 32 * k;
    if o == |sector| then DirectorySector([], false)
    else if sector[o] == 0 then DirectorySector([], true)
    else
      var rest := ParseEntries(sector, k + 1);
      var attributes := sector[o + 11];
      if sector[o] == 0xE5 || attributes == 0x0F || (attributes / 8) % 2 == 1 then rest
      else
        DirectorySector([DirEntry(ShortName(sector[o..o + 11]), (attributes / 16) % 2 == 1,
                                  Read16(sector, o + 20) * 0x1_0000 + Read16(sector, o + 26),
                                  Read32(sector, o + 28))] + rest.entries, rest.ended)
  }

  lemma {:induction false} TrimmedAt(s: seq<byte>, n: nat)
    requires n <= |s| && (forall k :: n <= k < |s| ==> s[k] == SPACE) && (0 < n ==> s[n - 1] != SPACE)
    ensures Trimmed(s) == n
    decreases |s|
  {
    if n < |s| {
      TrimmedAt(s[..|s| - 1], n);
    }
  }

  lemma {:induction false} TerminatedWhole(s: seq<byte>)
    requires forall k :: 0 <= k < |s| ==> s[k] != 0
    ensures Terminated(s) == s
  {
    if s != [] {
      TerminatedWhole(s[1..]);
    }
  }

  /** The printed form of a short name: its two fields without their trailing
      spaces, a full stop between them, and 0xE5 for a leading 0x05. */
  lemma ShortNameOf(raw: seq<byte>, b: nat, e: nat)
    requires |raw| == 11 && b <= 8 && e <= 3 && 0 !in raw
    requires (b > 0 ==> raw[b - 1] != 0x20) && forall k :: b <= k < 8 ==> raw[k] == 0x20
    requires (e > 0 ==> raw[7 + e] != 0x20) && forall k :: 8 + e <= k < 11 ==> raw[k] == 0x20
    ensures ShortName(raw) == (if b > 0 && raw[0] == 0x05 then [0xE5] + raw[1..b] else raw[..b])
                              + if e == 0 then [] else [0x2E] + raw[8..8 + e]
  {
    TrimmedAt(raw[..8], b);
    TrimmedAt(raw[8..], e);
    var base, ext := raw[..b], raw[8..8 + e];
    var stem := if base != [] && base[0] == 0x05 then [0xE5] + base[1..] else base;
    TerminatedWhole(stem + if ext == [] then [] else [FULL_STOP] + ext);
  }

  /** The directory entries that stand for nothing: deleted, part of a long name,
      or a volume label. */
  predicate Ignored(e: seq<byte>) {
    |e| == 32 && e[0] != 0 && (e[0] == 0xE5 || e[11] == 0x0F || e[11] / 8 % 2 == 1)
  }

  lemma {:induction false} ParseSame(s: seq<byte>, k: nat, t: seq<byte>, j: nat)
    requires 32 * k <= |s| && |s| % 32 == 0 && 32 * j <= |t| && |t| % 32 == 0 && s[32 * k..] == t[32 * j..]
    ensures ParseEntries(s, k) == ParseEntries(t, j)
    decreases |s| - 32 * k
  {
    hide ShortName, Field, Read16, Read32;
    var o, q := 32 * k, 32 * j;
    assert |s| - o == |t| - q;
    if o < |s| {
      assert s[o..o + 32] == s[o..][..32] && t[q..q + 32] == t[q..][..32];
      assert s[32 * (k + 1)..] == s[o..][32..] && t[32 * (j + 1)..] == t[q..][32..];
      SameEntry(s, o, t, q);
      ParseSame(s, k + 1, t, j + 1);
    }
  }

  lemma SameEntry(s: seq<byte>, o: nat, t: seq<byte>, q: nat)
    requires o + 32 <= |s| && q + 32 <= |t| && s[o..o + 32] == t[q..q + 32]
    ensures s[o] == t[q] && s[o + 11] == t[q + 11] && s[o..o + 11] == t[q..q + 11]
    ensures Read16(s, o + 20) == Read16(t, q + 20) && Read16(s, o + 26) == Read16(t, q + 26)
    ensures Read32(s, o + 28) == Read32(t, q + 28)
  {
    hide UnLe;
    var e := s[o..o + 32];
    FieldShift(s, o, e);
    FieldShift(t, q, e);
    SubSlice(s, o, e, 0, 11);
    SubSlice(t, q, e, 0, 11);
    assert s[o + 0] == e[0] && t[q + 0] == e[0] && s[o + 11] == e[11] && t[q + 11] == e[11];
    assert Field(s, o + 20, 2) == Field(e, 20, 2) && Field(s, o + 26, 2) == Field(e, 26, 2);
    assert Field(s, o + 28, 4) == Field(e, 28, 4);
  }

  /** The decoded form of an entry, byte by byte. */
  function Decoded(e: seq<byte>): DirEntry
    requires |e| == 32
  {
    DirEntry(ShortName(e[..11]), e[11] / 16 % 2 == 1,
             e[26] as nat + 0x100 * (e[27] as nat) + 0x1_0000 * (e[20] as nat) + 0x100_0000 * (e[21] as nat),
             e[28] as nat + 0x100 * (e[29] as nat) + 0x1_0000 * (e[30] as nat) + 0x100_0000 * (e[31] as nat))
  }

  /** A sector read from the front: an end mark ends it, ignored entries vanish,
      every other entry is decoded. */
  lemma ParseCons(e: seq<byte>, rest: seq<byte>)
    requires |e| == 32 && |rest| % 32 == 0
    ensures var r := ParseEntries(rest, 0);
            ParseEntries(e + rest, 0)
            == if e[0] == 0 then DirectorySector([], true)
               else if Ignored(e) then r
               else DirectorySector([Decoded(e)] + r.entries, r.ended)
  {
    hide ShortName, ParseEntries, Field, Read16, Read32;
    var s := e + rest;
    assert s[0..32] == e && s[32 * 1..] == rest[32 * 0..];
    ParseSame(s, 1, rest, 0);
    ParseFirst(s);
    SameEntry(s, 0, e, 0);
    assert e[0..11] == e[..11];
    DecodedFields(e);
  }

  lemma ParseFirst(s: seq<byte>)
    requires 32 <= |s| && |s| % 32 == 0
    ensures var r := ParseEntries(s, 1);
            ParseEntries(s, 0)
            == if s[0] == 0 then DirectorySector([], true)
               else if s[0] == 0xE5 || s[11] == 0x0F || s[11] / 8 % 2 == 1 then r
               else DirectorySector([DirEntry(ShortName(s[0..11]), s[11] / 16 % 2 == 1,
                                              Read16(s, 20) * 0x1_0000 + Read16(s, 26), Read32(s, 28))] + r.entries, r.ended)
  {
    hide ShortName, Field, Read16, Read32;
  }

  lemma DecodedFields(e: seq<byte>)
    requires |e| == 32
    ensures Decoded(e) == DirEntry(ShortName(e[..11]), e[11] / 16 % 2 == 1,
                                   Read16(e, 20) * 0x1_0000 + Read16(e, 26), Read32(e, 28))
  {
    hide ShortName;
    WordOfField(e, 20);
    WordOfField(e, 26);
    DoubleWordOfField(e, 28);
    hide Field;
  }

  // ------------------------------------------------------------ the scan

  datatype Directory = Directory(first: nat, depth: nat)

  datatype FileEntry = FileEntry(name: seq<byte>, parent: nat, first: nat, size: nat, chain: seq<nat>)

  /** What the mount has staged: directories in queue order, files, the claimed
      clusters, and every chain it has claimed. */
  datatype State = State(dirs: seq<Directory>, files: seq<FileEntry>, claimed: set<nat>, chains: seq<seq<nat>>)

  datatype Scan = ScanFailed(error: FatError) | Scanned(state: State, ended: bool)

  predicate IsDots(name: seq<byte>) {
    name == [FULL_STOP] || name == [FULL_STOP, FULL_STOP]
  }

  /** `scanDirectorySectorLocked` on the entries from `k` on. */
  function AddEntries(v: Volume, sector: DirectorySector, k: nat, parent: nat, st: State): (r: Scan)
    requires ValidVolume(v) && k <= |sector.entries| && parent < |st.dirs|
    ensures r.Scanned? ==> |st.dirs| <= |r.state.dirs| && r.ended == sector.ended
    decreases |sector.entries| - k
  {
    if k == |sector.entries| then Scanned(st, sector.ended)
    else
      var e := sector.entries[k];
      if IsDots(e.name) then AddEntries(v, sector, k + 1, parent, st)
      else if |e.name| == 0 || |e.name| > MAX_NAME then ScanFailed(CorruptFilesystem)
      else if e.isDirectory then
        if e.first < 2 || |st.dirs| >= MAX_DIRECTORIES then ScanFailed(NamespaceLimit)
        else AddEntries(v, sector, k + 1, parent, st.(dirs := st.dirs + [Directory(e.first, st.dirs[parent].depth + 1)]))
      else if |st.files| >= MAX_FILES then ScanFailed(NamespaceLimit)
      else
        match ValidateFile(v, e.first, e.size, st.claimed)
        case WalkFailed(error) => ScanFailed(error)
        case Walked(claimed, chain) =>
          AddEntries(v, sector, k + 1, parent,
                     State(st.dirs, st.files + [FileEntry(e.name, parent, e.first, e.size, chain)], claimed,
                           if chain == [] then st.chains else st.chains + [chain]))
  }

  /** A file the mount can take over clusters already claimed: an empty one, or
      one with a chain of its own that holds its size. */
  ghost predicate FileFits(v: Volume, first: nat, size: nat, claimed: set<nat>)
    requires ValidVolume(v)
  {
    || (size == 0 && first == 0)
    || exists chain :: GoodChain(v, first, chain) && Avoids(chain, claimed) && size <= |chain| * ClusterBytes(v)
  }

  lemma FitsExactly(v: Volume, first: nat, size: nat, claimed: set<nat>)
    requires ValidVolume(v)
    ensures ValidateFile(v, first, size, claimed).Walked? <==> FileFits(v, first, size, claimed)
  {
    hide WalkFile, ClusterBytes, ValidVolume, Avoids, Word;
    if !(size == 0 && first == 0) {
      var required := ClustersOf(v, size);
      var w := WalkFile(v, first, 0, required, {}, claimed);
      if first >= 2 && w.Walked? {
        WalkExact(v, first, required, claimed, w.claimed, w.chain);
        Covers(size, ClusterBytes(v), |w.chain|);
      }
      if chain :| GoodChain(v, first, chain) && Avoids(chain, claimed) && size <= |chain| * ClusterBytes(v) {
        Covers(size, ClusterBytes(v), |chain|);
        WalkExact(v, first, required, claimed, claimed + Clusters(chain), chain);
        assert InRange(v, chain[0]);
      }
    }
  }

  lemma Covers(n: nat, d: nat, q: nat)
    requires 0 < d
    ensures CeilDiv(n, d) <= q <==> n <= q * d
  {
    var c := CeilDiv(n, d);
    Rounded(n, d, c);
    if c <= q {
      ScaledOrder(c, q, d);
    } else {
      ScaledOrder(q + 1, c, d);
    }
  }

  /** What one directory entry does, of the kind the scan takes or not: names of
      1 to 12 bytes, at most 24 directories with the root and 32 files. */
  lemma OneEntry(v: Volume, x: DirEntry, ended: bool, parent: nat, st: State)
    requires ValidVolume(v) && parent < |st.dirs| && x.name != [0x2E] && x.name != [0x2E, 0x2E]
    ensures var r := AddEntries(v, DirectorySector([x], ended), 0, parent, st);
            && (r.Scanned? <==>
                  && 1 <= |x.name| <= 12
                  && if x.isDirectory then 2 <= x.first && |st.dirs| < 24
                     else |st.files| < 32 && FileFits(v, x.first, x.size, st.claimed))
            && (r.Scanned? && x.isDirectory ==>
                  r.state == st.(dirs := st.dirs + [Directory(x.first, st.dirs[parent].depth + 1)]))
            && (r.Scanned? && !x.isDirectory ==>
                  && |r.state.files| == |st.files| + 1 && r.state.files[..|st.files|] == st.files && r.state.dirs == st.dirs
                  && var f := r.state.files[|st.files|];
                     f.name == x.name && f.parent == parent && f.first == x.first && f.size == x.size
                     && r.state.claimed == st.claimed + Clusters(f.chain))
            && (r == ScanFailed(NamespaceLimit) ==> x.isDirectory || |st.files| >= 32)
  {
    hide ValidVolume, ValidateFile, FileFits;
    FitsExactly(v, x.first, x.size, st.claimed);
    FileClaims(v, x.first, x.size, st.claimed);
    var s := DirectorySector([x], ended);
    assert s.entries[0] == x;
  }

  lemma FileClaims(v: Volume, first: nat, size: nat, claimed: set<nat>)
    requires ValidVolume(v)
    ensures match ValidateFile(v, first, size, claimed)
            case Walked(after, chain) => after == claimed + Clusters(chain)
            case WalkFailed(e) => e != NamespaceLimit
  {
    hide WalkFile, ClustersOf, ValidVolume, GoodChain;
    assert Clusters([]) == {};
    var required := ClustersOf(v, size);
    var w := WalkFile(v, first, 0, required, {}, claimed);
    if w.Walked? {
      WalkExact(v, first, required, claimed, w.claimed, w.chain);
    } else {
      OtherFailures(v, first, 0, required, {}, claimed);
    }
  }

  lemma {:induction false} OtherFailures(v: Volume, cluster: nat, count: nat, required: nat, visited: set<nat>, claimed: set<nat>)
    requires ValidVolume(v)
    ensures WalkFile(v, cluster, count, required, visited, claimed) != WalkFailed(NamespaceLimit)
    decreases v.clusterCount - count
  {
    hide ValidVolume, DecodeLink, InRange;
    if count < v.clusterCount && DecodeLink(v, cluster).NextCluster? {
      OtherFailures(v, DecodeLink(v, cluster).cluster, count + 1, required, visited + {cluster}, claimed + {cluster});
    }
  }

  /** Directories more than 8 levels below the root are refused, others scanned. */
  lemma DepthLimit(v: Volume, index: nat, st: State)
    requires ValidVolume(v) && index < |st.dirs|
    ensures st.dirs[index].depth > 8 ==> ScanDirectory(v, index, st) == ScanFailed(NamespaceLimit)
    ensures st.dirs[index].depth <= 8 ==>
              ScanDirectory(v, index, st) == if st.dirs[index].first == 0 then ScanBlocks(v, v.rootLba, v.rootSectors, index, st)
                                             else ScanChain(v, st.dirs[index].first, [], false, index, st)
  {
    hide ValidVolume, ScanBlocks, ScanChain;
  }

  /** An entry that changes nothing: an ignored one, or one named "." or "..". */
  predicate Noise(e: seq<byte>) {
    |e| == 32 && e[0] != 0 && (Ignored(e) || ShortName(e[..11]) == [0x2E] || ShortName(e[..11]) == [0x2E, 0x2E])
  }

  lemma {:induction false} AddSame(v: Volume, s: DirectorySector, k: nat, t: DirectorySector, j: nat, parent: nat, st: State)
    requires ValidVolume(v) && parent < |st.dirs| && k <= |s.entries| && j <= |t.entries|
    requires s.ended == t.ended && s.entries[k..] == t.entries[j..]
    ensures AddEntries(v, s, k, parent, st) == AddEntries(v, t, j, parent, st)
    decreases |s.entries| - k
  {
    hide ValidVolume, ValidateFile, IsDots;
    assert |s.entries| - k == |t.entries| - j;
    if k < |s.entries| {
      var e := s.entries[k];
      assert e == s.entries[k..][0] == t.entries[j..][0] == t.entries[j];
      assert s.entries[k + 1..] == s.entries[k..][1..] && t.entries[j + 1..] == t.entries[j..][1..];
      if IsDots(e.name) {
        AddSame(v, s, k + 1, t, j + 1, parent, st);
      } else if e.isDirectory {
        AddSame(v, s, k + 1, t, j + 1, parent,
                st.(dirs := st.dirs + [Directory(e.first, st.dirs[parent].depth + 1)]));
      } else {
        var w := ValidateFile(v, e.first, e.size, st.claimed);
        if w.Walked? {
          AddSame(v, s, k + 1, t, j + 1, parent,
                  State(st.dirs, st.files + [FileEntry(e.name, parent, e.first, e.size, w.chain)], w.claimed,
                        if w.chain == [] then st.chains else st.chains + [w.chain]));
        }
      }
    }
  }

  /** What the entries of a sector do, one entry off the front. */
  lemma AddCons(v: Volume, x: DirEntry, a: DirectorySector, b: DirectorySector, parent: nat)
    requires ValidVolume(v)
    requires forall st: State :: parent < |st.dirs| ==> AddEntries(v, a, 0, parent, st) == AddEntries(v, b, 0, parent, st)
    ensures forall st: State :: parent < |st.dirs| ==>
              AddEntries(v, DirectorySector([x] + a.entries, a.ended), 0, parent, st)
              == AddEntries(v, DirectorySector([x] + b.entries, b.ended), 0, parent, st)
  {
    var s, t := DirectorySector([x] + a.entries, a.ended), DirectorySector([x] + b.entries, b.ended);
    assert s.entries[1..] == a.entries[0..] && t.entries[1..] == b.entries[0..];
    forall st: State | parent < |st.dirs|
      ensures AddEntries(v, s, 0, parent, st) == AddEntries(v, t, 0, parent, st)
    {
      forall q: State | parent < |q.dirs|
        ensures AddEntries(v, s, 1, parent, q) == AddEntries(v, t, 1, parent, q)
      {
        AddSame(v, s, 1, a, 0, parent, q);
        AddSame(v, t, 1, b, 0, parent, q);
      }
      hide ValidVolume, ValidateFile, IsDots;
    }
  }

  /** Inserting such an entry anywhere in a directory sector changes nothing of
      what the mount does with the sector. */
  lemma {:induction false} NoiseChangesNothing(v: Volume, a: seq<byte>, e: seq<byte>, b: seq<byte>, parent: nat)
    requires ValidVolume(v) && |a| % 32 == 0 && |b| % 32 == 0 && Noise(e)
    ensures forall st: State :: parent < |st.dirs| ==>
              AddEntries(v, ParseEntries(a + e + b, 0), 0, parent, st)
              == AddEntries(v, ParseEntries(a + b, 0), 0, parent, st)
    decreases |a|
  {
    hide ParseEntries, Ignored, ShortName, AddEntries, ValidVolume;
    if a == [] {
      assert a + e + b == e + b && a + b == b;
      ParseCons(e, b);
      forall st: State | parent < |st.dirs|
        ensures AddEntries(v, ParseEntries(e + b, 0), 0, parent, st) == AddEntries(v, ParseEntries(b, 0), 0, parent, st)
      {
        if !Ignored(e) {
          DotSkipped(v, Decoded(e), ParseEntries(b, 0), parent, st);
        }
      }
    } else {
      var h, rest := a[..32], a[32..];
      assert a + e + b == h + (rest + e + b) && a + b == h + (rest + b);
      ParseCons(h, rest + e + b);
      ParseCons(h, rest + b);
      NoiseChangesNothing(v, rest, e, b, parent);
      if h[0] != 0 && !Ignored(h) {
        AddCons(v, Decoded(h), ParseEntries(rest + e + b, 0), ParseEntries(rest + b, 0), parent);
      }
    }
  }

  lemma DotSkipped(v: Volume, x: DirEntry, r: DirectorySector, parent: nat, st: State)
    requires ValidVolume(v) && parent < |st.dirs| && (x.name == [0x2E] || x.name == [0x2E, 0x2E])
    ensures AddEntries(v, DirectorySector([x] + r.entries, r.ended), 0, parent, st) == AddEntries(v, r, 0, parent, st)
  {
    var s := DirectorySector([x] + r.entries, r.ended);
    assert s.entries[1..] == r.entries[0..];
    AddSame(v, s, 1, r, 0, parent, st);
    hide ValidVolume, ValidateFile;
  }

  /** `n` directory blocks from `lba` on, as far as the end mark. */
  function ScanBlocks(v: Volume, lba: nat, n: nat, parent: nat, st: State): (r: Scan)
    requires ValidVolume(v) && lba + n <= |v.d| && parent < |st.dirs|
    ensures r.Scanned? ==> |st.dirs| <= |r.state.dirs|
    decreases n
  {
    if n == 0 then Scanned(st, false)
    else
      match AddEntries(v, ParseEntries(v.d[lba], 0), 0, parent, st)
      case ScanFailed(e) => ScanFailed(e)
      case Scanned(next, ended) =>
        if ended then Scanned(next, true) else ScanBlocks(v, lba + 1, n - 1, parent, next)
  }

  /** A directory's cluster chain from the loop's local state on; `part` lists
      the clusters of the chain so far, its visited bitmap. */
  function ScanChain(v: Volume, cluster: nat, part: seq<nat>, ended: bool, index: nat, st: State): Scan
    requires ValidVolume(v) && index < |st.dirs|
    decreases v.clusterCount - |part|
  {
    if |part| >= v.clusterCount then ScanFailed(ChainLoop)
    else if !InRange(v, cluster) then ScanFailed(OutOfRangeCluster)
    else if cluster in part then ScanFailed(ChainLoop)
    else if cluster in st.claimed then ScanFailed(CrossLinkedCluster)
    else
      var claimed := st.(claimed := st.claimed + {cluster});
      match if ended then Scanned(claimed, true) else ScanBlocks(v, ClusterLba(v, cluster), v.spc, index, claimed)
      case ScanFailed(e) => ScanFailed(e)
      case Scanned(next, ended') =>
        match DecodeLink(v, cluster)
        case NextCluster(n) => ScanChain(v, n, part + [cluster], ended', index, next)
        case EndOfChain => Scanned(next.(chains := next.chains + [part + [cluster]]), ended')
        case StrayLink => ScanFailed(OutOfRangeCluster)
        case _ => ScanFailed(CorruptFilesystem)
  }

  /** How a directory's chain goes on behind a cluster whose blocks were scanned,
      by the raw table word. */
  lemma ChainStep(v: Volume, cluster: nat, part: seq<nat>, ended: bool, index: nat, st: State, next: State, over: bool)
    requires ValidVolume(v) && index < |st.dirs| && |part| < v.clusterCount && InRange(v, cluster)
    requires cluster !in part && cluster !in st.claimed && index < |next.dirs|
    requires var claimed := st.(claimed := st.claimed + {cluster});
             if ended then next == claimed && over
             else ScanBlocks(v, ClusterLba(v, cluster), v.spc, index, claimed) == Scanned(next, over)
    ensures var r, w := ScanChain(v, cluster, part, ended, index, st), Word(v, cluster);
            && (2 <= w < v.clusterCount + 2 ==> r == ScanChain(v, w, part + [cluster], over, index, next))
            && (0xFFF8 <= w ==> r == Scanned(next.(chains := next.chains + [part + [cluster]]), over))
            && (w == 1 || v.clusterCount + 2 <= w <= 0xFFF6 ==> r == ScanFailed(OutOfRangeCluster))
            && (w == 0 || w == 0xFFF7 ==> r == ScanFailed(CorruptFilesystem))
  {
    hide ValidVolume, ScanBlocks, ClusterLba, DecodeLink, Word;
    LinkExact(v, cluster);
    var w := Word(v, cluster);
    assert 2 <= w < v.clusterCount + 2 ==> DecodeLink(v, cluster) == NextCluster(w);
  }

  /** `scanDirectoryLocked`. */
  function ScanDirectory(v: Volume, index: nat, st: State): Scan
    requires ValidVolume(v) && index < |st.dirs|
  {
    var dir := st.dirs[index];
    if dir.depth > MAX_DEPTH then ScanFailed(NamespaceLimit)
    else if dir.first == 0 then ScanBlocks(v, v.rootLba, v.rootSectors, index, st)
    else ScanChain(v, dir.first, [], false, index, st)
  }

  /** The queue loop of `mount`. */
  function ScanAll(v: Volume, index: nat, st: State): Scan
    requires ValidVolume(v)
    decreases MAX_DIRECTORIES - index
  {
    if index >= |st.dirs| || index >= MAX_DIRECTORIES then Scanned(st, true)
    else
      match ScanDirectory(v, index, st)
      case ScanFailed(e) => ScanFailed(e)
      case Scanned(next, _) => ScanAll(v, index + 1, next)
  }

  /** `countFreeClustersLocked` over the clusters below `hi`; a stray link
      anywhere fails it. */
  function CountFree(v: Volume, hi: nat): (free: int)
    requires ValidVolume(v) && 2 <= hi
    ensures -1 <= free
    decreases hi
  {
    if hi == 2 then 0
    else
      var below := CountFree(v, hi - 1);
      match DecodeLink(v, hi - 1)
      case StrayLink => -1
      case FreeCluster => if below < 0 then -1 else below + 1
      case _ => below
  }

  datatype MountResult = NoVolume | NotFat16 | Refused(error: FatError) | Volumed(state: State, free: nat)

  const ROOT_STATE: State := State([Directory(0, 0)], [], {}, [])

  /** `mount` on a volume, from the root directory to the free count. */
  function MountVolume(v: Volume): MountResult
    requires ValidVolume(v)
  {
    match ScanAll(v, 0, ROOT_STATE)
    case ScanFailed(e) => Refused(e)
    case Scanned(st, _) =>
      var free := CountFree(v, v.clusterCount + 2);
      if free < 0 then Refused(OutOfRangeCluster) else Volumed(st, free)
  }

  /** `mount` on the blocks of a partition. */
  function Mount(d: seq<Block>, bs: SectorSize): MountResult
    requires BlocksOf(d, bs) && 0 < |d|
  {
    match Open(d, bs)
    case InvalidVolume => NoVolume
    case UnsupportedFat => NotFat16
    case Opened(v) => MountVolume(v)
  }

  // --------------------------------------------------- what a mount means

  /** Every chain is terminated and in range, no cluster is on two of them or on
      the chain being scanned, and exactly theirs are claimed; every file has
      its own chain, long enough for its size. */
  ghost predicate Sound(v: Volume, st: State, part: seq<nat>)
    requires ValidVolume(v)
  {
    && (forall i :: 0 <= i < |st.chains| ==> st.chains[i] != [] && LinkedChain(v, st.chains[i][0], st.chains[i]))
    && (forall i, j :: 0 <= i < j < |st.chains| ==> Clusters(st.chains[i]) !! Clusters(st.chains[j]))
    && (forall i :: 0 <= i < |st.chains| ==> Clusters(st.chains[i]) !! Clusters(part))
    && (forall c :: c in st.claimed <==> c in part || exists i :: 0 <= i < |st.chains| && c in st.chains[i])
    && (forall k :: 0 <= k < |st.files| ==> FileSound(v, st, st.files[k]))
  }

  ghost predicate FileSound(v: Volume, st: State, f: FileEntry)
    requires ValidVolume(v)
  {
    if f.chain == [] then f.size == 0 && f.first == 0
    else f.chain in st.chains && f.chain[0] == f.first && ClustersOf(v, f.size) <= |f.chain|
  }

  lemma AvoidsMember(chain: seq<nat>, s: set<nat>, c: nat)
    requires Avoids(chain, s) && c in s
    ensures c !in chain
  {
  }

  /** Claiming one more chain. */
  lemma ClaimSound(v: Volume, st: State, part: seq<nat>, chain: seq<nat>, f: FileEntry)
    requires ValidVolume(v) && Sound(v, st, part) && chain != [] && LinkedChain(v, chain[0], chain)
    requires Avoids(chain, st.claimed) && f.chain == chain
    requires f.first == chain[0] && ClustersOf(v, f.size) <= |chain|
    ensures Sound(v, State(st.dirs, st.files + [f], st.claimed + Clusters(chain), st.chains + [chain]), part)
  {
    hide LinkedChain, ClustersOf;
    var next := State(st.dirs, st.files + [f], st.claimed + Clusters(chain), st.chains + [chain]);
    forall i | 0 <= i < |st.chains|
      ensures Clusters(st.chains[i]) !! Clusters(chain)
    {
      forall c | c in st.chains[i]
        ensures c !in chain
      {
        AvoidsMember(chain, st.claimed, c);
      }
    }
    assert Clusters(chain) !! Clusters(part) by {
      forall c | c in part
        ensures c !in chain
      {
        AvoidsMember(chain, st.claimed, c);
      }
    }
    forall c
      ensures c in next.claimed <==> c in part || exists i :: 0 <= i < |next.chains| && c in next.chains[i]
    {
      if c in chain {
        assert next.chains[|st.chains|] == chain;
      }
      if exists i :: 0 <= i < |st.chains| && c in st.chains[i] {
        var i :| 0 <= i < |st.chains| && c in st.chains[i];
        assert next.chains[i] == st.chains[i];
      }
      if exists i :: 0 <= i < |next.chains| && c in next.chains[i] {
        var i :| 0 <= i < |next.chains| && c in next.chains[i];
        assert i < |st.chains| ==> next.chains[i] == st.chains[i];
      }
    }
    forall k | 0 <= k < |next.files|
      ensures FileSound(v, next, next.files[k])
    {
      if k < |st.files| {
        assert FileSound(v, st, st.files[k]);
      } else {
        assert next.chains[|st.chains|] == chain;
      }
    }
  }

  lemma {:induction false} AddSound(v: Volume, sector: DirectorySector, k: nat, parent: nat, st: State, part: seq<nat>)
    requires ValidVolume(v) && k <= |sector.entries| && parent < |st.dirs| && Sound(v, st, part)
    requires AddEntries(v, sector, k, parent, st).Scanned?
    ensures Sound(v, AddEntries(v, sector, k, parent, st).state, part)
    decreases |sector.entries| - k
  {
    hide ValidVolume, ValidateFile, IsDots, Sound;
    if k < |sector.entries| {
      var e := sector.entries[k];
      if IsDots(e.name) {
        AddSound(v, sector, k + 1, parent, st, part);
      } else if e.isDirectory {
        var next := st.(dirs := st.dirs + [Directory(e.first, st.dirs[parent].depth + 1)]);
        SameClaims(v, st, next, part);
        AddSound(v, sector, k + 1, parent, next, part);
      } else {
        var w := ValidateFile(v, e.first, e.size, st.claimed);
        var f := FileEntry(e.name, parent, e.first, e.size, w.chain);
        FileAdded(v, st, part, f, w);
        AddSound(v, sector, k + 1, parent,
                 State(st.dirs, st.files + [f], w.claimed, if w.chain == [] then st.chains else st.chains + [w.chain]), part);
      }
    }
  }

  lemma FileAdded(v: Volume, st: State, part: seq<nat>, f: FileEntry, w: Walk)
    requires ValidVolume(v) && Sound(v, st, part) && w.Walked? && f.chain == w.chain
    requires w == ValidateFile(v, f.first, f.size, st.claimed)
    ensures Sound(v, State(st.dirs, st.files + [f], w.claimed,
                           if w.chain == [] then st.chains else st.chains + [w.chain]), part)
  {
    if f.size == 0 && f.first == 0 {
      hide LinkedChain, ClustersOf;
      var next := State(st.dirs, st.files + [f], w.claimed, st.chains);
      forall k | 0 <= k < |next.files|
        ensures FileSound(v, next, next.files[k])
      {
        if k < |st.files| {
          assert FileSound(v, st, st.files[k]);
        }
      }
    } else {
      hide Sound, WalkFile, ClustersOf;
      WalkLinked(v, f.first, ClustersOf(v, f.size), st.claimed, w.claimed, w.chain);
      ClaimSound(v, st, part, w.chain, f);
    }
  }

  lemma SameClaims(v: Volume, st: State, next: State, part: seq<nat>)
    requires ValidVolume(v) && Sound(v, st, part)
    requires next.chains == st.chains && next.claimed == st.claimed && next.files == st.files
    ensures Sound(v, next, part)
  {
    hide LinkedChain, ClustersOf, Clusters;
    forall k | 0 <= k < |next.files|
      ensures FileSound(v, next, next.files[k])
    {
      assert FileSound(v, st, st.files[k]);
    }
  }

  lemma {:induction false} BlocksSound(v: Volume, lba: nat, n: nat, parent: nat, st: State, part: seq<nat>)
    requires ValidVolume(v) && lba + n <= |v.d| && parent < |st.dirs| && Sound(v, st, part)
    requires ScanBlocks(v, lba, n, parent, st).Scanned?
    ensures Sound(v, ScanBlocks(v, lba, n, parent, st).state, part)
    decreases n
  {
    hide Sound, AddEntries, ParseEntries;
    if n > 0 {
      var sector := ParseEntries(v.d[lba], 0);
      AddSound(v, sector, 0, parent, st, part);
      var r := AddEntries(v, sector, 0, parent, st);
      if !r.ended {
        BlocksSound(v, lba + 1, n - 1, parent, r.state, part);
      }
    }
  }

  /** The links of a directory chain as far as it has been followed. */
  ghost predicate Following(v: Volume, first: nat, part: seq<nat>, cluster: nat)
    requires ValidVolume(v)
  {
    && (if part == [] then first == cluster else part[0] == first && DecodeLink(v, part[|part| - 1]) == NextCluster(cluster))
    && (forall k :: 0 <= k < |part| ==> InRange(v, part[k]))
    && (forall k :: 0 <= k < |part| - 1 ==> DecodeLink(v, part[k]) == NextCluster(part[k + 1]))
  }

  lemma FollowOn(v: Volume, first: nat, part: seq<nat>, cluster: nat)
    requires ValidVolume(v) && Following(v, first, part, cluster) && InRange(v, cluster)
    ensures DecodeLink(v, cluster) == EndOfChain ==> LinkedChain(v, first, part + [cluster])
    ensures DecodeLink(v, cluster).NextCluster? ==>
              Following(v, first, part + [cluster], DecodeLink(v, cluster).cluster)
  {
    hide DecodeLink, InRange;
    var more := part + [cluster];
    forall k | 0 <= k < |more| - 1
      ensures DecodeLink(v, more[k]) == NextCluster(more[k + 1])
    {
      if k < |part| - 1 {
        assert DecodeLink(v, part[k]) == NextCluster(part[k + 1]);
      }
    }
  }

  /** Claiming one cluster of the directory being scanned. */
  lemma PartGrows(v: Volume, st: State, part: seq<nat>, cluster: nat)
    requires ValidVolume(v) && Sound(v, st, part) && cluster !in st.claimed
    ensures Sound(v, st.(claimed := st.claimed + {cluster}), part + [cluster])
  {
    hide LinkedChain, ClustersOf;
    var next, more := st.(claimed := st.claimed + {cluster}), part + [cluster];
    forall i | 0 <= i < |st.chains|
      ensures Clusters(st.chains[i]) !! Clusters(more)
    {
      forall c | c in st.chains[i]
        ensures c !in more
      {
        assert c in Clusters(st.chains[i]);
        assert c in st.claimed;
      }
    }
    assert forall c :: c in more <==> c in part || c == cluster;
    forall k | 0 <= k < |next.files|
      ensures FileSound(v, next, next.files[k])
    {
      assert FileSound(v, st, st.files[k]);
    }
  }

  /** The scanned directory's chain joins the claimed ones. */
  lemma PartCloses(v: Volume, st: State, part: seq<nat>)
    requires ValidVolume(v) && Sound(v, st, part) && part != [] && LinkedChain(v, part[0], part)
    ensures Sound(v, st.(chains := st.chains + [part]), [])
  {
    hide LinkedChain, ClustersOf;
    var next := st.(chains := st.chains + [part]);
    forall c
      ensures c in next.claimed <==> c in [] || exists i :: 0 <= i < |next.chains| && c in next.chains[i]
    {
      if c in part {
        assert next.chains[|st.chains|] == part;
      }
      if exists i :: 0 <= i < |st.chains| && c in st.chains[i] {
        var i :| 0 <= i < |st.chains| && c in st.chains[i];
        assert next.chains[i] == st.chains[i];
      }
      if exists i :: 0 <= i < |next.chains| && c in next.chains[i] {
        var i :| 0 <= i < |next.chains| && c in next.chains[i];
        assert i < |st.chains| ==> next.chains[i] == st.chains[i];
      }
    }
    forall k | 0 <= k < |next.files|
      ensures FileSound(v, next, next.files[k])
    {
      assert FileSound(v, st, st.files[k]);
    }
    assert Clusters([]) == {};
  }

  lemma {:induction false} ChainSound(v: Volume, first: nat, cluster: nat, part: seq<nat>, ended: bool, index: nat,
                                      st: State)
    requires ValidVolume(v) && index < |st.dirs| && Sound(v, st, part) && Following(v, first, part, cluster)
    requires ScanChain(v, cluster, part, ended, index, st).Scanned?
    ensures Sound(v, ScanChain(v, cluster, part, ended, index, st).state, [])
    decreases v.clusterCount - |part|
  {
    hide ValidVolume, Sound, ScanBlocks, DecodeLink, InRange, Following, LinkedChain;
    var claimed := st.(claimed := st.claimed + {cluster});
    var r := if ended then Scanned(claimed, true) else ScanBlocks(v, ClusterLba(v, cluster), v.spc, index, claimed);
    PartGrows(v, st, part, cluster);
    if !ended {
      BlocksSound(v, ClusterLba(v, cluster), v.spc, index, claimed, part + [cluster]);
    }
    FollowOn(v, first, part, cluster);
    match DecodeLink(v, cluster)
    case NextCluster(n) =>
      ChainSound(v, first, n, part + [cluster], r.ended, index, r.state);
    case EndOfChain =>
      HeadOf(v, first, part + [cluster]);
      PartCloses(v, r.state, part + [cluster]);
    case _ =>
  }

  lemma HeadOf(v: Volume, first: nat, chain: seq<nat>)
    requires ValidVolume(v) && LinkedChain(v, first, chain)
    ensures LinkedChain(v, chain[0], chain)
  {
  }

  lemma DirectorySound(v: Volume, index: nat, st: State)
    requires ValidVolume(v) && index < |st.dirs| && Sound(v, st, []) && ScanDirectory(v, index, st).Scanned?
    ensures Sound(v, ScanDirectory(v, index, st).state, [])
  {
    hide Sound, ScanBlocks, ScanChain;
    var dir := st.dirs[index];
    if dir.first == 0 {
      BlocksSound(v, v.rootLba, v.rootSectors, index, st, []);
    } else {
      StartsFollowing(v, dir.first);
      ChainSound(v, dir.first, dir.first, [], false, index, st);
    }
  }

  lemma {:induction false} AllSound(v: Volume, index: nat, st: State)
    requires ValidVolume(v) && Sound(v, st, []) && ScanAll(v, index, st).Scanned?
    ensures Sound(v, ScanAll(v, index, st).state, [])
    decreases MAX_DIRECTORIES - index
  {
    hide Sound, ScanDirectory, ValidVolume;
    if index < |st.dirs| && index < MAX_DIRECTORIES {
      DirectorySound(v, index, st);
      AllSound(v, index + 1, ScanDirectory(v, index, st).state);
    }
  }

  lemma StartsFollowing(v: Volume, first: nat)
    requires ValidVolume(v)
    ensures Following(v, first, [], first)
  {
  }

  /** Free clusters, as a set. */
  function FreeSet(v: Volume, hi: nat): (s: set<nat>)
    requires ValidVolume(v) && 2 <= hi
    ensures forall c :: c in s ==> c < hi && DecodeLink(v, c) == FreeCluster && InRange(v, c)
    decreases hi
  {
    if hi == 2 then {}
    else FreeSet(v, hi - 1) + if DecodeLink(v, hi - 1) == FreeCluster then {hi - 1} else {}
  }

  lemma {:induction false} FreeSetSize(v: Volume, hi: nat)
    requires ValidVolume(v) && 2 <= hi && 0 <= CountFree(v, hi)
    ensures |FreeSet(v, hi)| == CountFree(v, hi)
    decreases hi
  {
    hide DecodeLink;
    if hi > 2 {
      FreeSetSize(v, hi - 1);
    }
  }

  lemma {:induction false} SubsetSize(a: set<nat>, b: set<nat>)
    requires a <= b
    ensures |a| <= |b|
  {
    if a != {} {
      var x :| x in a;
      SubsetSize(a - {x}, b - {x});
    }
  }

  /** The free clusters of the raw table. */
  ghost function FreeWords(v: Volume): set<nat>
    requires ValidVolume(v)
  {
    set c: nat | 2 <= c < v.clusterCount + 2 && Word(v, c) == 0
  }

  /** Soundness of the mount over every volume: when it succeeds, every claimed
      chain is terminated and in range by the table's raw words, no cluster is on
      two of them, every file has one long enough for its size or, empty, none,
      and the free clusters, counted exactly, fit beside the claimed ones, which
      is the backend's own later check. */
  lemma MountSound(v: Volume)
    requires ValidVolume(v) && MountVolume(v).Volumed?
    ensures var st := MountVolume(v).state;
            && (forall i :: 0 <= i < |st.chains| ==> st.chains[i] != [] && GoodChain(v, st.chains[i][0], st.chains[i]))
            && (forall i, j :: 0 <= i < j < |st.chains| ==> Clusters(st.chains[i]) !! Clusters(st.chains[j]))
            && (forall c :: c in st.claimed <==> exists i :: 0 <= i < |st.chains| && c in st.chains[i])
            && (forall k :: 0 <= k < |st.files| ==> FileSound(v, st, st.files[k]))
    ensures MountVolume(v).free == |FreeWords(v)|
    ensures |MountVolume(v).state.claimed| + MountVolume(v).free <= v.clusterCount
  {
    hide ScanAll, CountFree, Sound, ValidVolume, GoodChain, LinkedChain, ClustersOf, Clusters, FreeWords;
    EmptySound(v);
    AllSound(v, 0, ROOT_STATE);
    var st := MountVolume(v).state;
    ClaimedAndFree(v, st);
    FreeSetSize(v, v.clusterCount + 2);
    FreeSetIsFreeWords(v);
    SoundParts(v, st);
    forall i | 0 <= i < |st.chains|
      ensures st.chains[i] != [] && GoodChain(v, st.chains[i][0], st.chains[i])
    {
      GoodIsLinked(v, st.chains[i][0], st.chains[i]);
    }
  }

  lemma {:induction false} StrayStops(v: Volume, hi: nat)
    requires ValidVolume(v) && 2 <= hi
    ensures CountFree(v, hi) < 0 <==> exists c :: 2 <= c < hi && DecodeLink(v, c) == StrayLink
    decreases hi
  {
    hide DecodeLink, ValidVolume;
    if hi > 2 {
      StrayStops(v, hi - 1);
    }
  }

  /** The word of a cluster names no cluster of the volume and marks nothing. */
  ghost predicate StrayWord(v: Volume, c: nat)
    requires ValidVolume(v)
  {
    2 <= c < v.clusterCount + 2 && (Word(v, c) == 1 || v.clusterCount + 2 <= Word(v, c) <= 0xFFF6)
  }

  /** Once all directories are scanned, the mount fails exactly on a stray word
      anywhere in the table, also in clusters no file has. */
  lemma StrayRefused(v: Volume)
    requires ValidVolume(v) && ScanAll(v, 0, ROOT_STATE).Scanned?
    ensures MountVolume(v) == Refused(OutOfRangeCluster) <==> exists c :: StrayWord(v, c)
    ensures MountVolume(v).Volumed? <==> !exists c :: StrayWord(v, c)
  {
    hide ScanAll, CountFree, DecodeLink, Word, ValidVolume;
    StrayStops(v, v.clusterCount + 2);
    forall c: nat | 2 <= c < v.clusterCount + 2
      ensures DecodeLink(v, c) == StrayLink <==> StrayWord(v, c)
    {
      LinkExact(v, c);
    }
  }

  lemma SoundParts(v: Volume, st: State)
    requires ValidVolume(v) && Sound(v, st, [])
    ensures forall i :: 0 <= i < |st.chains| ==> st.chains[i] != [] && LinkedChain(v, st.chains[i][0], st.chains[i])
    ensures forall i, j :: 0 <= i < j < |st.chains| ==> Clusters(st.chains[i]) !! Clusters(st.chains[j])
    ensures forall c :: c in st.claimed <==> exists i :: 0 <= i < |st.chains| && c in st.chains[i]
    ensures forall k :: 0 <= k < |st.files| ==> FileSound(v, st, st.files[k])
  {
    hide LinkedChain, ClustersOf, Clusters, FileSound, ValidVolume;
  }

  lemma {:induction false} FreeSetExactly(v: Volume, hi: nat)
    requires ValidVolume(v) && 2 <= hi <= v.clusterCount + 2
    ensures forall c: nat :: c in FreeSet(v, hi) <==> 2 <= c < hi && DecodeLink(v, c) == FreeCluster
    decreases hi
  {
    hide DecodeLink, ValidVolume;
    if hi > 2 {
      FreeSetExactly(v, hi - 1);
    }
  }

  lemma FreeSetIsFreeWords(v: Volume)
    requires ValidVolume(v)
    ensures FreeSet(v, v.clusterCount + 2) == FreeWords(v)
  {
    hide DecodeLink, ValidVolume, Word, FreeSet;
    FreeSetExactly(v, v.clusterCount + 2);
    forall c: nat | 2 <= c < v.clusterCount + 2
      ensures DecodeLink(v, c) == FreeCluster <==> Word(v, c) == 0
    {
      LinkExact(v, c);
    }
  }

  lemma ClaimedAndFree(v: Volume, st: State)
    requires ValidVolume(v) && Sound(v, st, []) && 0 <= CountFree(v, v.clusterCount + 2)
    ensures |st.claimed| + CountFree(v, v.clusterCount + 2) <= v.clusterCount
  {
    hide ValidVolume, Sound, CountFree, FreeSet, DecodeLink;
    var free, all := FreeSet(v, v.clusterCount + 2), Range(2, v.clusterCount + 2);
    FreeSetSize(v, v.clusterCount + 2);
    RangeSize(2, v.clusterCount + 2);
    forall c | c in st.claimed
      ensures c !in free && c in all
    {
      ClaimedInUse(v, st, c);
    }
    assert free !! st.claimed && free + st.claimed <= all;
    SubsetSize(free + st.claimed, all);
  }

  lemma EmptySound(v: Volume)
    requires ValidVolume(v)
    ensures Sound(v, ROOT_STATE, [])
  {
  }

  lemma ClaimedInUse(v: Volume, st: State, c: nat)
    requires ValidVolume(v) && Sound(v, st, []) && c in st.claimed
    ensures InRange(v, c) && (DecodeLink(v, c).NextCluster? || DecodeLink(v, c) == EndOfChain)
  {
    hide DecodeLink, ClustersOf, Clusters, FileSound;
    assert c !in [];
    var i :| 0 <= i < |st.chains| && c in st.chains[i];
    var chain := st.chains[i];
    assert LinkedChain(v, chain[0], chain);
    var k :| 0 <= k < |chain| && chain[k] == c;
    if k < |chain| - 1 {
      assert DecodeLink(v, chain[k]) == NextCluster(chain[k + 1]);
    }
  }
}
