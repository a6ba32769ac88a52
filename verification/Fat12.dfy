// The FAT12 table: packed 12-bit entries (scripts/create-legacy-fat12.py) and
// the chain reader that checks them (scripts/verify-legacy-bios.py).
module Fat12 {
  import opened Bytes

  const BPS: nat := 512
  const TOTAL: nat := 2880
  const SPF: nat := 9
  const FATS: nat := 2
  const FAT_START: nat := 1
  const ROOT_START: nat := 19
  const DATA_START: nat := 33
  const ROOT_ENTRIES: nat := 224
  const FAT_BYTES: nat := SPF * BPS
  const FIRST_CLUSTER: nat := 2
  /** One past the last cluster whose data lies inside the volume. */
  const CLUSTER_END: nat := TOTAL - DATA_START + FIRST_CLUSTER

  // ---------------------------------------------------------------- entries

  predicate InTable(fat: seq<byte>, cluster: nat) {
    cluster + cluster / 2 + 1 < |fat|
  }

  /** `fat_entry`. */
  function Entry(fat: seq<byte>, cluster: nat): (v: nat)
    requires InTable(fat, cluster)
    ensures v < 0x1000
  {
    var offset := cluster + cluster / 2;
    var pair := fat[offset] as int + 256 * (fat[offset + 1] as int);
    if cluster % 2 == 1 then pair / 16 else pair % 4096
  }

  /** The table after `set_fat12_entry`: an odd entry owns the high nibble of
      its first byte, an even one the low nibble of its second. */
  function SetEntry(fat: seq<byte>, cluster: nat, value: nat): (r: seq<byte>)
    requires InTable(fat, cluster)
    ensures |r| == |fat|
  {
    var offset := cluster + cluster / 2;
    var v := value % 4096;
    if cluster % 2 == 1 then
      fat[offset := fat[offset] % 16 + v % 16 * 16][offset + 1 := v / 16]
    else
      fat[offset := v % 256][offset + 1 := fat[offset + 1] / 16 * 16 + v / 256]
  }

  /** The packing itself: two entries share three bytes, the even one in the low
      twelve bits of their little-endian value. */
  lemma PackedPair(fat: seq<byte>, pair: nat)
    requires 3 * pair + 3 <= |fat|
    ensures InTable(fat, 2 * pair) && InTable(fat, 2 * pair + 1)
    ensures Entry(fat, 2 * pair) + 0x1000 * Entry(fat, 2 * pair + 1)
            == fat[3 * pair] as nat + 0x100 * (fat[3 * pair + 1] as nat) + 0x1_0000 * (fat[3 * pair + 2] as nat)
  {
    assert 2 * pair + 2 * pair / 2 == 3 * pair && 2 * pair + 1 + (2 * pair + 1) / 2 == 3 * pair + 1;
    PairParts(fat[3 * pair], fat[3 * pair + 1]);
    PairParts(fat[3 * pair + 1], fat[3 * pair + 2]);
  }

  /** The packed entries are an independent map: the entry written reads back
      modulo 4096 and every other entry, also the two that share a byte with
      it, is unchanged. */
  lemma EntriesIndependent(fat: seq<byte>, cluster: nat, value: nat)
    requires InTable(fat, cluster)
    ensures Entry(SetEntry(fat, cluster, value), cluster) == value % 4096
    ensures forall other: nat :: other != cluster && InTable(fat, other) ==>
              Entry(SetEntry(fat, cluster, value), other) == Entry(fat, other)
  {
    OwnEntry(fat, cluster, value);
    hide Entry, SetEntry, InTable;
    var r := SetEntry(fat, cluster, value);
    forall other: nat | other != cluster && InTable(fat, other)
      ensures Entry(r, other) == Entry(fat, other)
    {
      OtherEntry(fat, cluster, value, other);
    }
  }

  lemma OwnEntry(fat: seq<byte>, cluster: nat, value: nat)
    requires InTable(fat, cluster)
    ensures Entry(SetEntry(fat, cluster, value), cluster) == value % 4096
  {
    var offset := cluster + cluster / 2;
    Nibbles(value % 4096, fat[offset] as int, fat[offset + 1] as int);
  }

  /** Twelve bits put beside a nibble, and taken back. */
  lemma Nibbles(v: nat, low: byte, high: byte)
    requires v < 4096
    ensures (low % 16 + v % 16 * 16 + 256 * (v / 16)) / 16 == v
    ensures (v % 256 + 256 * (high / 16 * 16 + v / 256)) % 4096 == v
    ensures low % 16 + v % 16 * 16 < 256 && v / 16 < 256 && high / 16 * 16 + v / 256 < 256
  {
    assert v == v % 16 + 16 * (v / 16) && v == v % 256 + 256 * (v / 256);
    assert v % 256 + 256 * (high / 16 * 16 + v / 256) == v + 4096 * (high / 16);
  }

  /** An entry is seen through one byte and the nibble next to it. */
  lemma SameEntry(a: seq<byte>, b: seq<byte>, c: nat)
    requires InTable(a, c) && |b| == |a|
    ensures var o := c + c / 2;
            (if c % 2 == 1 then a[o] / 16 == b[o] / 16 && a[o + 1] == b[o + 1]
             else a[o] == b[o] && a[o + 1] % 16 == b[o + 1] % 16)
            ==> Entry(a, c) == Entry(b, c)
  {
    var o := c + c / 2;
    if c % 2 == 1 {
      PairParts(a[o], a[o + 1]);
      PairParts(b[o], b[o + 1]);
    } else {
      PairParts(a[o], a[o + 1]);
      PairParts(b[o], b[o + 1]);
    }
  }

  lemma PairParts(low: byte, high: byte)
    ensures (low as int + 256 * (high as int)) / 16 == low / 16 + 16 * high
    ensures (low as int + 256 * (high as int)) % 4096 == low + 256 * (high % 16)
  {
  }

  lemma OtherEntry(fat: seq<byte>, cluster: nat, value: nat, other: nat)
    requires InTable(fat, cluster) && InTable(fat, other) && other != cluster
    ensures Entry(SetEntry(fat, cluster, value), other) == Entry(fat, other)
  {
    hide Entry;
    var r := SetEntry(fat, cluster, value);
    var c, o := cluster + cluster / 2, other + other / 2;
    SameEntry(fat, r, other);
    if other == cluster + 1 {
      if cluster % 2 == 0 {
        assert o == c + 1 && r[o + 1] == fat[o + 1] && r[o] / 16 == fat[o] / 16;
      } else {
        assert o == c + 2;
      }
    } else if cluster == other + 1 {
      if other % 2 == 0 {
        assert c == o + 1 && r[o] == fat[o] && r[c] % 16 == fat[c] % 16;
      } else {
        assert c == o + 2;
      }
    } else {
      assert r[o] == fat[o] && r[o + 1] == fat[o + 1];
    }
  }

  /** `set_fat12_entry`, on the byte array it updates. */
  method SetFat12Entry(fat: array<byte>, cluster: nat, value: nat)
    requires InTable(fat[..], cluster)
    modifies fat
    ensures fat[..] == SetEntry(old(fat[..]), cluster, value)
  {
    var offset := cluster + cluster / 2;
    var v := value % 0x1000;
    if cluster % 2 == 1 {
      fat[offset] := fat[offset] % 16 + v % 16 * 16;
      fat[offset + 1] := v / 16;
    } else {
      fat[offset] := v % 256;
      fat[offset + 1] := fat[offset + 1] / 16 * 16 + v / 256;
    }
  }

  // ------------------------------------------------------------ chain reader

  datatype ChainResult =
    | Chain(data: seq<byte>, clusters: seq<nat>)
    | BadCluster(cluster: nat)
    | OutOfTable(cluster: nat)
    | Unterminated(cluster: nat)
    | EndedEarly(cluster: nat)
    | ChainLoop

  function TableOf(volume: seq<byte>): seq<byte> {
    Slice(volume, BPS, (1 + SPF) * BPS)
  }

  /** A cluster's bytes; a cluster past the volume's end has fewer, or none. */
  function ClusterBytes(volume: seq<byte>, cluster: nat): (s: seq<byte>)
    requires FIRST_CLUSTER <= cluster
    ensures |s| <= BPS
  {
    var offset := (DATA_START + cluster - 2) * BPS;
    Slice(volume, offset, offset + BPS)
  }

  /** The loop of `read_chain` from its local state on. */
  function ReadFrom(volume: seq<byte>, size: nat, cluster: nat, limit: nat, result: seq<byte>, chain: seq<nat>): ChainResult
    decreases limit
  {
    if |result| < size && limit != 0 then
      if cluster < 2 || cluster >= 0xFF0 then BadCluster(cluster)
      else if !InTable(TableOf(volume), cluster) then OutOfTable(cluster)
      else
        var result' := result + ClusterBytes(volume, cluster);
        var next := Entry(TableOf(volume), cluster);
        if |result'| >= size then
          if next < 0xFF8 then Unterminated(cluster) else Chain(result'[..size], chain + [cluster])
        else if next >= 0xFF8 then EndedEarly(cluster)
        else ReadFrom(volume, size, next, limit - 1, result', chain + [cluster])
    else if limit == 0 then ChainLoop
    else Chain(result[..Min(size, |result|)], chain)
  }

  function ReadChain(volume: seq<byte>, first: nat, size: nat): ChainResult {
    ReadFrom(volume, size, first, TOTAL, [], [])
  }

  /** `read_chain`, with its cluster list, byte buffer and fuel counter. */
  method ReadChainLoop(volume: seq<byte>, first: nat, size: nat) returns (r: ChainResult)
    ensures r == ReadChain(volume, first, size)
  {
    hide Entry, ClusterBytes, TableOf, InTable;
    var fat := TableOf(volume);
    var result: seq<byte>, chain: seq<nat> := [], [];
    var cluster: nat, limit: nat := first, TOTAL;
    while |result| < size && limit != 0
      invariant |result| < size || size == 0
      invariant limit <= TOTAL && (limit == 0 ==> size != 0)
      invariant ReadFrom(volume, size, cluster, limit, result, chain) == ReadChain(volume, first, size)
      decreases limit
    {
      if cluster < 2 || cluster >= 0xFF0 {
        return BadCluster(cluster);
      }
      chain := chain + [cluster];
      result := result + ClusterBytes(volume, cluster);
      if !InTable(fat, cluster) {
        // The index past the table raises.
        return OutOfTable(cluster);
      }
      var next := Entry(fat, cluster);
      if |result| >= size {
        if next < 0xFF8 {
          return Unterminated(cluster);
        }
        return Chain(result[..size], chain);
      }
      if next >= 0xFF8 {
        return EndedEarly(cluster);
      }
      cluster := next;
      limit := limit - 1;
    }
    if limit == 0 {
      return ChainLoop;
    }
    return Chain(result[..Min(size, |result|)], chain);
  }

  // ------------------------------------------------- what acceptance means

  function Gather(volume: seq<byte>, chain: seq<nat>): seq<byte>
    requires forall k :: 0 <= k < |chain| ==> FIRST_CLUSTER <= chain[k]
  {
    if |chain| == 0 then [] else Gather(volume, chain[..|chain| - 1]) + ClusterBytes(volume, chain[|chain| - 1])
  }

  /** A readable link: inside the table and below the reserved values. */
  predicate Readable(volume: seq<byte>, cluster: nat) {
    2 <= cluster < 0xFF0 && InTable(TableOf(volume), cluster)
  }

  ghost predicate Linked(volume: seq<byte>, chain: seq<nat>) {
    && (forall k :: 0 <= k < |chain| ==> Readable(volume, chain[k]))
    && (forall k :: 0 <= k < |chain| - 1 ==> Entry(TableOf(volume), chain[k]) == chain[k + 1])
  }

  /** A terminated chain from `first` whose clusters hold `size` bytes, the
      last of them being needed. */
  ghost predicate FileChain(volume: seq<byte>, first: nat, size: nat, chain: seq<nat>) {
    && 0 < |chain| && chain[0] == first
    && Linked(volume, chain)
    && Entry(TableOf(volume), chain[|chain| - 1]) >= 0xFF8
    && |Gather(volume, chain[..|chain| - 1])| < size <= |Gather(volume, chain)|
  }

  /** A terminated chain repeats no cluster: after a repeat the walk would
      follow the same links again and never reach the terminator. */
  lemma {:induction false} TerminatedIsAcyclic(volume: seq<byte>, chain: seq<nat>, i: nat, j: nat)
    requires 0 < |chain| && Linked(volume, chain) && Entry(TableOf(volume), chain[|chain| - 1]) >= 0xFF8
    requires i < j < |chain|
    ensures chain[i] != chain[j]
    decreases |chain| - j
  {
    hide Entry, TableOf;
    assert Entry(TableOf(volume), chain[i]) == chain[i + 1] < 0xFF0 by { assert Readable(volume, chain[i + 1]); }
    if j < |chain| - 1 {
      assert Entry(TableOf(volume), chain[j]) == chain[j + 1];
      TerminatedIsAcyclic(volume, chain, i + 1, j + 1);
    }
  }

  lemma ChainDistinct(volume: seq<byte>, chain: seq<nat>)
    requires 0 < |chain| && Linked(volume, chain) && Entry(TableOf(volume), chain[|chain| - 1]) >= 0xFF8
    ensures NoRepeats(chain)
  {
    forall i, j | 0 <= i < j < |chain|
      ensures chain[i] != chain[j]
    {
      TerminatedIsAcyclic(volume, chain, i, j);
    }
  }

  /** One round of an accepted read. */
  lemma ReadFromStep(volume: seq<byte>, size: nat, cluster: nat, limit: nat, result: seq<byte>, chain: seq<nat>)
    requires |result| < size && ReadFrom(volume, size, cluster, limit, result, chain).Chain?
    ensures 0 < limit && Readable(volume, cluster)
    ensures var longer := result + ClusterBytes(volume, cluster);
            var next := Entry(TableOf(volume), cluster);
            && (|longer| >= size <==> next >= 0xFF8)
            && ReadFrom(volume, size, cluster, limit, result, chain)
               == if |longer| >= size then Chain(longer[..size], chain + [cluster])
                  else ReadFrom(volume, size, next, limit - 1, longer, chain + [cluster])
  {
    hide Entry, ClusterBytes, TableOf, InTable;
    assert |result + ClusterBytes(volume, cluster)| >= size || limit != 0;
  }

  /** An accepted reading continues `chain` at `cluster` to an end mark, over no
      more clusters than hold the size. */
  ghost predicate Continues(volume: seq<byte>, size: nat, cluster: nat, limit: nat, chain: seq<nat>, r: ChainResult) {
    && r.Chain? && |chain| < |r.clusters| <= |chain| + limit
    && chain <= r.clusters && r.clusters[|chain|] == cluster
    && Linked(volume, r.clusters)
    && Entry(TableOf(volume), r.clusters[|r.clusters| - 1]) >= 0xFF8
    && |Gather(volume, r.clusters[..|r.clusters| - 1])| < size <= |Gather(volume, r.clusters)|
    && r.data == Gather(volume, r.clusters)[..size]
  }

  lemma {:induction false} ReadFromSound(volume: seq<byte>, size: nat, cluster: nat, limit: nat, chain: seq<nat>)
    requires Linked(volume, chain) && |Gather(volume, chain)| < size
    requires |chain| > 0 ==> Entry(TableOf(volume), chain[|chain| - 1]) == cluster
    requires ReadFrom(volume, size, cluster, limit, Gather(volume, chain), chain).Chain?
    ensures Continues(volume, size, cluster, limit, chain, ReadFrom(volume, size, cluster, limit, Gather(volume, chain), chain))
    decreases limit
  {
    hide Entry, ClusterBytes, TableOf, InTable, ReadFrom, Linked, Gather, Continues;
    var longer := chain + [cluster];
    LinkedBounds(volume, chain);
    ReadFromStep(volume, size, cluster, limit, Gather(volume, chain), chain);
    LinkedAppend(volume, chain, cluster);
    LinkedBounds(volume, longer);
    GatherAppend(volume, chain, cluster);
    if |Gather(volume, longer)| < size {
      var next := Entry(TableOf(volume), cluster);
      assert longer[|longer| - 1] == cluster;
      ReadFromSound(volume, size, next, limit - 1, longer);
      ContinuesLonger(volume, size, cluster, next, limit, chain,
                      ReadFrom(volume, size, next, limit - 1, Gather(volume, longer), longer));
    } else {
      ContinuesLast(volume, size, cluster, limit, chain);
    }
  }

  lemma LinkedBounds(volume: seq<byte>, chain: seq<nat>)
    requires Linked(volume, chain)
    ensures forall k :: 0 <= k < |chain| ==> FIRST_CLUSTER <= chain[k]
  {
    hide Entry, TableOf, InTable;
  }

  lemma GatherAppend(volume: seq<byte>, chain: seq<nat>, cluster: nat)
    requires FIRST_CLUSTER <= cluster && Linked(volume, chain) && Linked(volume, chain + [cluster])
    ensures Gather(volume, chain + [cluster]) == Gather(volume, chain) + ClusterBytes(volume, cluster)
  {
    hide Entry, ClusterBytes, TableOf, InTable;
    assert (chain + [cluster])[..|chain|] == chain;
  }

  lemma ContinuesLonger(volume: seq<byte>, size: nat, cluster: nat, next: nat, limit: nat, chain: seq<nat>, r: ChainResult)
    requires 0 < limit && Continues(volume, size, next, limit - 1, chain + [cluster], r)
    ensures Continues(volume, size, cluster, limit, chain, r)
  {
    hide Entry, TableOf, Linked, Gather;
    assert r.clusters[|chain|] == (chain + [cluster])[|chain|];
  }

  lemma ContinuesLast(volume: seq<byte>, size: nat, cluster: nat, limit: nat, chain: seq<nat>)
    requires 0 < limit && Linked(volume, chain) && Linked(volume, chain + [cluster])
    requires Entry(TableOf(volume), cluster) >= 0xFF8
    requires |Gather(volume, chain)| < size <= |Gather(volume, chain + [cluster])|
    ensures Continues(volume, size, cluster, limit, chain,
                      Chain(Gather(volume, chain + [cluster])[..size], chain + [cluster]))
  {
    hide Entry, TableOf, InTable, ClusterBytes, Gather;
    assert (chain + [cluster])[..|chain|] == chain;
  }

  lemma LinkedAppend(volume: seq<byte>, chain: seq<nat>, cluster: nat)
    requires Linked(volume, chain) && (|chain| > 0 ==> Entry(TableOf(volume), chain[|chain| - 1]) == cluster)
    requires Readable(volume, cluster)
    ensures Linked(volume, chain + [cluster])
  {
    hide Entry, TableOf, InTable;
  }

  lemma {:induction false} GatherGrows(volume: seq<byte>, chain: seq<nat>, k: nat)
    requires k <= |chain| && forall i :: 0 <= i < |chain| ==> FIRST_CLUSTER <= chain[i]
    ensures |Gather(volume, chain[..k])| <= |Gather(volume, chain)|
    decreases |chain|
  {
    if k < |chain| {
      var shorter := chain[..|chain| - 1];
      assert shorter[..k] == chain[..k];
      GatherGrows(volume, shorter, k);
    } else {
      assert chain[..k] == chain;
    }
  }

  lemma {:induction false} ReadFromComplete(volume: seq<byte>, first: nat, size: nat, chain: seq<nat>, k: nat, limit: nat)
    requires FileChain(volume, first, size, chain) && k < |chain| <= k + limit
    ensures ReadFrom(volume, size, chain[k], limit, Gather(volume, chain[..k]), chain[..k])
            == Chain(Gather(volume, chain)[..size], chain)
    decreases limit
  {
    hide Entry, ClusterBytes, TableOf, InTable;
    assert chain[..|chain| - 1][..k] == chain[..k];
    GatherGrows(volume, chain[..|chain| - 1], k);
    assert chain[..k + 1] == chain[..k] + [chain[k]];
    assert chain[..k + 1][..k] == chain[..k];
    assert Readable(volume, chain[k]);
    if k + 1 < |chain| {
      assert chain[..|chain| - 1][..k + 1] == chain[..k + 1];
      GatherGrows(volume, chain[..|chain| - 1], k + 1);
      assert Readable(volume, chain[k + 1]);
      ReadFromComplete(volume, first, size, chain, k + 1, limit - 1);
    } else {
      assert chain[..k + 1] == chain;
    }
  }

  /** Exactly what `read_chain` accepts, over every volume, first cluster and
      nonzero size: the file chains of at most 2880 clusters; and it returns
      that chain and the first `size` bytes of its clusters. */
  lemma ReadChainExact(volume: seq<byte>, first: nat, size: nat, data: seq<byte>, chain: seq<nat>)
    requires 0 < size
    ensures ReadChain(volume, first, size) == Chain(data, chain) <==>
              FileChain(volume, first, size, chain) && |chain| <= TOTAL && data == Gather(volume, chain)[..size]
  {
    hide Entry, ClusterBytes, TableOf, InTable, ReadFrom;
    if ReadChain(volume, first, size) == Chain(data, chain) {
      ReadFromSound(volume, size, first, TOTAL, []);
    }
    if FileChain(volume, first, size, chain) && |chain| <= TOTAL {
      ReadFromComplete(volume, first, size, chain, 0, TOTAL);
      assert chain[..0] == [];
    }
  }

  /** Acceptance implies acyclicity, on every volume and without a visited
      set: no cluster twice, terminated, and exactly `size` bytes. */
  lemma AcceptedIsAcyclic(volume: seq<byte>, first: nat, size: nat)
    requires ReadChain(volume, first, size).Chain?
    ensures var r := ReadChain(volume, first, size);
            && |r.data| == size && NoRepeats(r.clusters)
            && (size > 0 ==> FileChain(volume, first, size, r.clusters))
            && (size == 0 ==> r.clusters == [])
  {
    if size > 0 {
      var r := ReadChain(volume, first, size);
      ReadChainExact(volume, first, size, r.data, r.clusters);
      ChainDistinct(volume, r.clusters);
    }
  }

  // ---------------------------------------------------- fuel never matters

  ghost predicate InVolume(chain: seq<nat>) {
    forall k :: 0 <= k < |chain| ==> FIRST_CLUSTER <= chain[k] < CLUSTER_END
  }

  lemma {:induction false} GatherSize(volume: seq<byte>, chain: seq<nat>)
    requires |volume| == TOTAL * BPS && InVolume(chain)
    ensures |Gather(volume, chain)| == BPS * |chain|
    decreases |chain|
  {
    if |chain| > 0 {
      GatherSize(volume, chain[..|chain| - 1]);
    }
  }

  /** Completeness: on a full-size volume every properly terminated chain of
      in-volume clusters with ceil(size / 512) links is accepted with exactly
      its bytes; by pigeonhole over the 2847 data clusters the fuel of 2880
      never rejects a valid file. */
  lemma ValidChainAccepted(volume: seq<byte>, size: nat, chain: seq<nat>)
    requires |volume| == TOTAL * BPS && 0 < size
    requires InVolume(chain) && |chain| == CeilDiv(size, BPS)
    requires forall k :: 0 <= k < |chain| - 1 ==> Entry(TableOf(volume), chain[k]) == chain[k + 1]
    requires Entry(TableOf(volume), chain[|chain| - 1]) >= 0xFF8
    ensures size <= |Gather(volume, chain)|
    ensures ReadChain(volume, chain[0], size) == Chain(Gather(volume, chain)[..size], chain)
    ensures |chain| <= CLUSTER_END - FIRST_CLUSTER
  {
    hide Entry, ReadFrom, Gather, Range;
    GatherSize(volume, chain);
    GatherSize(volume, chain[..|chain| - 1]);
    assert Linked(volume, chain);
    ChainDistinct(volume, chain);
    RangeSize(FIRST_CLUSTER, CLUSTER_END);
    Pigeonhole(chain, Range(FIRST_CLUSTER, CLUSTER_END));
    ReadChainExact(volume, chain[0], size, Gather(volume, chain)[..size], chain);
  }
}
