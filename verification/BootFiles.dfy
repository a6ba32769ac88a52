// Reads through a mounted boot file (src/runtime_boot_fat.zig, `readFile`): the
// cursor a file keeps, and what a read returns with and without it.
module BootFiles {
  import opened Bytes
  import opened BootFat

  /** Strings side by side. */
  function Joined(ss: seq<seq<byte>>): seq<byte> {
    if ss == [] then [] else ss[0] + Joined(ss[1..])
  }

  /** The size of `k` strings of `w` bytes. */
  function Span(k: nat, w: nat): nat {
    k * w
  }

  lemma NextSpan(k: nat, w: nat)
    ensures Span(0, w) == 0 && Span(k + 1, w) == Span(k, w) + w
  {
    assert (k + 1) * w == k * w + w;
  }

  lemma SpanOrder(a: nat, b: nat, w: nat)
    requires a <= b
    ensures Span(a, w) <= Span(b, w)
  {
    ScaledOrder(a, b, w);
  }

  lemma {:induction false} JoinedSize(ss: seq<seq<byte>>, w: nat)
    requires forall i :: 0 <= i < |ss| ==> |ss[i]| == w
    ensures |Joined(ss)| == Span(|ss|, w)
  {
    hide Span;
    NextSpan(if ss == [] then 0 else |ss| - 1, w);
    if ss != [] {
      JoinedSize(ss[1..], w);
    }
  }

  /** A piece of one of them, found in the whole. */
  lemma {:induction false} JoinedAt(ss: seq<seq<byte>>, w: nat, k: nat, lo: nat, hi: nat)
    requires forall i :: 0 <= i < |ss| ==> |ss[i]| == w
    requires k < |ss| && lo <= hi <= w
    ensures |Joined(ss)| == Span(|ss|, w) && Span(k, w) + w <= Span(|ss|, w)
    ensures Joined(ss)[Span(k, w) + lo..Span(k, w) + hi] == ss[k][lo..hi]
  {
    hide Joined, Span;
    JoinedHead(ss);
    JoinedSize(ss, w);
    SpanOrder(k + 1, |ss|, w);
    NextSpan(k, w);
    if k > 0 {
      JoinedAt(ss[1..], w, k - 1, lo, hi);
      NextSpan(k - 1, w);
      PastHead(ss[0], Joined(ss[1..]), Span(k - 1, w) + lo, Span(k - 1, w) + hi);
    } else {
      InHead(ss[0], Joined(ss[1..]), lo, hi);
    }
  }

  lemma JoinedHead(ss: seq<seq<byte>>)
    requires ss != []
    ensures Joined(ss) == ss[0] + Joined(ss[1..])
  {
  }

  lemma InHead(a: seq<byte>, b: seq<byte>, lo: nat, hi: nat)
    requires lo <= hi <= |a|
    ensures (a + b)[lo..hi] == a[lo..hi]
  {
  }

  lemma PastHead(a: seq<byte>, b: seq<byte>, lo: nat, hi: nat)
    requires lo <= hi <= |b|
    ensures (a + b)[|a| + lo..|a| + hi] == b[lo..hi]
  {
  }

  /** The bytes of a cluster. */
  function ClusterData(v: Volume, c: nat): (s: seq<byte>)
    requires ValidVolume(v) && InRange(v, c)
    ensures |s| == ClusterBytes(v)
  {
    var blocks := v.d[ClusterLba(v, c)..ClusterLba(v, c) + v.spc];
    JoinedSize(blocks, v.bs);
    assert Span(v.spc, v.bs) == ClusterBytes(v);
    Joined(blocks)
  }

  // ------------------------------------------------ what a read should give

  datatype Outcome<T> = Done(value: T) | Failed(error: FatError)

  /** `readClusterLinkLocked`, where only a next cluster will do. */
  function Follow(v: Volume, c: nat): Outcome<nat>
    requires ValidVolume(v)
  {
    match DecodeLink(v, c)
    case NextCluster(n) => Done(n)
    case StrayLink => Failed(OutOfRangeCluster)
    case _ => Failed(CorruptFilesystem)
  }

  /** How a read goes on from a cluster, by its raw table word: to the next
      cluster, or not at all, since a read never needs the end mark. */
  lemma FollowExactly(v: Volume, c: nat)
    requires ValidVolume(v) && InRange(v, c)
    ensures forall n: nat :: Follow(v, c) == Done(n) <==> Word(v, c) == n && 2 <= n < v.clusterCount + 2
    ensures Follow(v, c) == Failed(OutOfRangeCluster) <==> StrayWord(v, c)
    ensures Follow(v, c) == Failed(CorruptFilesystem) <==> Word(v, c) == 0 || 0xFFF7 <= Word(v, c)
  {
    hide ValidVolume, Word, DecodeLink;
    LinkExact(v, c);
    forall n: nat
      ensures Follow(v, c) == Done(n) <==> DecodeLink(v, c) == NextCluster(n)
    {
    }
  }

  /** The cluster `steps` links on. */
  function Seek(v: Volume, c: nat, steps: nat): Outcome<nat>
    requires ValidVolume(v)
  {
    if steps == 0 then Done(c)
    else
      match Seek(v, c, steps - 1)
      case Failed(e) => Failed(e)
      case Done(at) => Follow(v, at)
  }

  /** What a read has copied, and how it ended. */
  datatype Reading = Reading(data: seq<byte>, end: Outcome<()>)

  /** At most `count` bytes of one cluster. */
  function Chunk(v: Volume, c: nat, within: nat, count: nat): (s: seq<byte>)
    requires ValidVolume(v) && InRange(v, c) && within < ClusterBytes(v)
    ensures |s| == Min(count, ClusterBytes(v) - within)
  {
    ClusterData(v, c)[within..Min(within + count, ClusterBytes(v))]
  }

  /** `count` bytes from offset `within` of a cluster on. */
  function ReadFrom(v: Volume, c: nat, within: nat, count: nat): (r: Reading)
    requires ValidVolume(v) && within < ClusterBytes(v)
    ensures |r.data| <= count && (r.end.Done? ==> |r.data| == count)
    decreases count
  {
    if count == 0 then Reading([], Done(()))
    else if !InRange(v, c) then Reading([], Failed(CorruptFilesystem))
    else
      var chunk := Chunk(v, c, within, count);
      if |chunk| == count then Reading(chunk, Done(()))
      else
        match Follow(v, c)
        case Failed(e) => Reading(chunk, Failed(e))
        case Done(next) =>
          var rest := ReadFrom(v, next, 0, count - |chunk|);
          Reading(chunk + rest.data, rest.end)
  }

  /** The place in the chain of the cluster an offset lies in. */
  function OrdinalOf(v: Volume, offset: nat): nat
    requires ValidVolume(v)
  {
    Quotient(offset, ClusterBytes(v))
  }

  function WithinOf(v: Volume, offset: nat): (n: nat)
    requires ValidVolume(v)
    ensures n < ClusterBytes(v)
  {
    Remainder(offset, ClusterBytes(v))
  }

  /** A read of up to `length` bytes at `offset` of the file whose chain starts
      at `first`, following the table from there. */
  function ReadAt(v: Volume, first: nat, size: nat, offset: nat, length: nat): (r: Reading)
    requires ValidVolume(v)
    ensures |r.data| <= length
  {
    if offset >= size || length == 0 then Reading([], Done(()))
    else
      match Seek(v, first, OrdinalOf(v, offset))
      case Failed(e) => Reading([], Failed(e))
      case Done(c) => ReadFrom(v, c, WithinOf(v, offset), Min(length, size - offset))
  }

  // ------------------------------------------------------------- the cursor

  datatype ReadResult = ReadOk(count: nat) | ReadFailed(error: FatError)

  /** An open file: where its chain starts, its size, and the last cluster a
      read has used with its place in the chain. */
  class FileContext {
    const first: nat
    const size: nat
    var cursorValid: bool
    var cursorCluster: nat
    var cursorOrdinal: nat

    constructor (first: nat, size: nat)
      ensures this.first == first && this.size == size && !cursorValid
    {
      this.first, this.size := first, size;
      cursorValid, cursorCluster, cursorOrdinal := false, 0, 0;
    }

    /** The cursor is where that many links from the first cluster lead. */
    ghost predicate CursorHolds(v: Volume)
      requires ValidVolume(v)
      reads this
    {
      cursorValid ==> Seek(v, first, cursorOrdinal) == Done(cursorCluster)
    }

    /** `readFile`, on any table: the cursor changes nothing in what a read
        returns, copies or fails with. */
    method ReadFile(v: Volume, offset: nat, output: array<byte>) returns (r: ReadResult)
      requires ValidVolume(v) && CursorHolds(v)
      modifies this, output
      ensures CursorHolds(v)
      ensures var want := ReadAt(v, first, size, offset, output.Length);
              && output[..] == Splice(old(output[..]), 0, want.data)
              && r == match want.end
                      case Done(_) => ReadOk(|want.data|)
                      case Failed(e) => ReadFailed(e)
    {
      hide DecodeLink, InRange, ValidVolume, ClusterData, OrdinalOf, WithinOf, ReadFrom, ClusterBytes, Splice;
      NothingSpliced(output[..]);
      if offset >= size || output.Length == 0 {
        return ReadOk(0);
      }
      var count := Min(output.Length, size - offset);
      var target := OrdinalOf(v, offset);
      var cluster: nat, ordinal: nat := first, 0;
      if cursorValid && target >= cursorOrdinal {
        cluster, ordinal := cursorCluster, cursorOrdinal;
      }
      assert Seek(v, first, 0) == Done(first);
      while ordinal < target
        invariant ordinal <= target && Seek(v, first, ordinal) == Done(cluster)
      {
        match DecodeLink(v, cluster) {
          case NextCluster(next) =>
            cluster := next;
          case StrayLink =>
            SeekFails(v, first, ordinal + 1, target);
            return ReadFailed(OutOfRangeCluster);
          case _ =>
            SeekFails(v, first, ordinal + 1, target);
            return ReadFailed(CorruptFilesystem);
        }
        ordinal := ordinal + 1;
      }
      r := CopyClusters(v, cluster, ordinal, WithinOf(v, offset), count, output);
    }

    /** The copying loop, from the cluster the offset lies in. */
    method CopyClusters(v: Volume, start: nat, at: nat, within: nat, count: nat, output: array<byte>)
      returns (r: ReadResult)
      requires ValidVolume(v) && CursorHolds(v) && within < ClusterBytes(v) && 0 < count <= output.Length
      requires Seek(v, first, at) == Done(start)
      modifies this, output
      ensures CursorHolds(v)
      ensures var want := ReadFrom(v, start, within, count);
              && output[..] == Splice(old(output[..]), 0, want.data)
              && r == match want.end
                      case Done(_) => ReadOk(count)
                      case Failed(e) => ReadFailed(e)
    {
      hide ValidVolume, InRange, DecodeLink, Seek, ClusterBytes, Splice, ReadFrom, Chunk, After, ClusterData;
      AfterNothing(ReadFrom(v, start, within, count));
      ghost var was := output[..];
      ghost var want := ReadFrom(v, start, within, count);
      var cluster: nat, ordinal: nat, copied: nat, offset: nat := start, at, 0, within;
      ghost var done: seq<byte> := [];
      NothingSpliced(was);
      while copied < count
        invariant copied == |done| < count && offset < ClusterBytes(v)
        invariant CursorHolds(v) && Seek(v, first, ordinal) == Done(cluster)
        invariant output[..] == Splice(was, 0, done)
        invariant want == After(done, ReadFrom(v, cluster, offset, count - copied))
        decreases count - copied
      {
        ReadOn(done, v, cluster, offset, count - copied);
        if !InRange(v, cluster) {
          return ReadFailed(CorruptFilesystem);
        }
        ghost var chunk := Chunk(v, cluster, offset, count - copied);
        copied := CopyCluster(v, cluster, offset, count, copied, output);
        done := Extend(was, 0, done, chunk);
        cursorValid, cursorCluster, cursorOrdinal := true, cluster, ordinal;
        offset := 0;
        if copied == count {
          break;
        }
        match DecodeLink(v, cluster) {
          case NextCluster(next) =>
            SeekOn(v, first, ordinal);
            cluster := next;
          case StrayLink =>
            return ReadFailed(OutOfRangeCluster);
          case _ =>
            return ReadFailed(CorruptFilesystem);
        }
        ordinal := ordinal + 1;
      }
      return ReadOk(copied);
    }

    /** Its inner loop, over the sectors of one cluster. */
    method CopyCluster(v: Volume, cluster: nat, within: nat, count: nat, start: nat, output: array<byte>)
      returns (copied: nat)
      requires ValidVolume(v) && InRange(v, cluster) && within < ClusterBytes(v) && start < count <= output.Length
      modifies output
      ensures var chunk := Chunk(v, cluster, within, count - start);
              copied == start + |chunk| && output[..] == Splice(old(output[..]), start, chunk)
    {
      hide ValidVolume, InRange, Splice, ClusterLba, ClusterData, ClusterBytes, PlaceOf, Quotient, Remainder, Chunk;
      ghost var was := output[..];
      ghost var data := ClusterData(v, cluster);
      SectorsOf(v, within);
      var sector: nat, offset: nat := Quotient(within, v.bs), Remainder(within, v.bs);
      var lba := ClusterLba(v, cluster);
      copied := start;
      ghost var place := within;
      EmptyPiece(was, start, data, within);
      while sector < v.spc && copied < count
        invariant sector <= v.spc && offset < v.bs && start <= copied <= count
        invariant place == within + (copied - start) <= |data|
        invariant copied < count ==> place == PlaceOf(v, sector, offset)
        invariant sector == v.spc ==> offset == 0
        invariant output[..] == Splice(was, start, data[within..place])
      {
        var amount := Min(count - copied, v.bs - offset);
        SectorCopied(v, cluster, sector, offset, amount, was, start, within, place);
        Blit(output, copied, v.d[lba + sector][offset..offset + amount]);
        copied, place := copied + amount, place + amount;
        offset, sector := 0, sector + 1;
      }
      LastSector(v);
      ChunkIs(v, cluster, within, count - start);
    }
  }

  /** The place in a cluster of a sector's byte. */
  function PlaceOf(v: Volume, sector: nat, offset: nat): nat {
    Span(sector, v.bs) + offset
  }

  function After(done: seq<byte>, r: Reading): Reading {
    Reading(done + r.data, r.end)
  }

  lemma AfterTwice(a: seq<byte>, b: seq<byte>, r: Reading)
    ensures After(a, After(b, r)) == After(a + b, r)
  {
    assert a + (b + r.data) == a + b + r.data;
  }

  lemma SeekOn(v: Volume, c: nat, steps: nat)
    requires ValidVolume(v) && Seek(v, c, steps).Done?
    ensures Seek(v, c, steps + 1) == Follow(v, Seek(v, c, steps).value)
  {
  }

  lemma EmptyPiece(s: seq<byte>, offset: nat, data: seq<byte>, k: nat)
    requires offset <= |s| && k <= |data|
    ensures Splice(s, offset, data[k..k]) == s
  {
  }

  lemma LongerPiece(s: seq<byte>, offset: nat, data: seq<byte>, lo: nat, mid: nat, hi: nat)
    requires lo <= mid <= hi <= |data| && offset + hi - lo <= |s|
    ensures Splice(Splice(s, offset, data[lo..mid]), offset + mid - lo, data[mid..hi]) == Splice(s, offset, data[lo..hi])
  {
    hide Splice;
    SliceTwo(data, lo, mid, hi);
    SpliceTwice(s, offset, data[lo..mid], data[mid..hi]);
  }

  lemma SectorsOf(v: Volume, within: nat)
    requires ValidVolume(v) && within < ClusterBytes(v)
    ensures Quotient(within, v.bs) < v.spc && within == PlaceOf(v, Quotient(within, v.bs), Remainder(within, v.bs))
  {
    Inside(within, v.bs, v.spc);
  }

  lemma NextSector(v: Volume, sector: nat, offset: nat)
    requires offset < v.bs
    ensures PlaceOf(v, sector + 1, 0) == PlaceOf(v, sector, offset) + (v.bs - offset)
  {
    NextSpan(sector, v.bs);
  }

  lemma ChunkIs(v: Volume, c: nat, within: nat, count: nat)
    requires ValidVolume(v) && InRange(v, c) && within < ClusterBytes(v)
    ensures var n := Min(count, ClusterBytes(v) - within); Chunk(v, c, within, count) == ClusterData(v, c)[within..within + n]
  {
    hide ClusterData, ClusterBytes;
  }

  lemma LastSector(v: Volume)
    requires ValidVolume(v)
    ensures PlaceOf(v, v.spc, 0) == ClusterBytes(v)
  {
  }

  lemma BlocksOfCluster(v: Volume, c: nat) returns (blocks: seq<Block>)
    requires ValidVolume(v) && InRange(v, c)
    ensures |blocks| == v.spc && ClusterLba(v, c) + v.spc <= |v.d|
    ensures forall i :: 0 <= i < v.spc ==> |blocks[i]| == v.bs && blocks[i] == v.d[ClusterLba(v, c) + i]
    ensures ClusterData(v, c) == Joined(blocks) && Span(v.spc, v.bs) == ClusterBytes(v)
  {
    hide ClusterLba, Joined;
    blocks := v.d[ClusterLba(v, c)..ClusterLba(v, c) + v.spc];
  }

  /** A piece of a block, found in its cluster's bytes. */
  lemma BlockInCluster(v: Volume, c: nat, sector: nat, lo: nat, hi: nat)
    requires ValidVolume(v) && InRange(v, c) && sector < v.spc && lo <= hi <= v.bs
    ensures ClusterLba(v, c) + sector < |v.d| && |v.d[ClusterLba(v, c) + sector]| == v.bs
    ensures var place := PlaceOf(v, sector, lo);
            && place + (hi - lo) <= ClusterBytes(v)
            && ClusterData(v, c)[place..place + (hi - lo)] == v.d[ClusterLba(v, c) + sector][lo..hi]
  {
    hide ClusterLba, Joined, ClusterData, ClusterBytes, Span, ValidVolume, InRange;
    var blocks := BlocksOfCluster(v, c);
    JoinedAt(blocks, v.bs, sector, lo, hi);
  }

  /** One more sector copied behind the part of the cluster copied so far. */
  lemma SectorCopied(v: Volume, c: nat, sector: nat, offset: nat, amount: nat, was: seq<byte>, start: nat, within: nat,
                     place: nat)
    requires ValidVolume(v) && InRange(v, c) && sector < v.spc && offset < v.bs && amount <= v.bs - offset
    requires within <= place == PlaceOf(v, sector, offset) && start + (place - within) + amount <= |was|
    ensures ClusterLba(v, c) + sector < |v.d| && |v.d[ClusterLba(v, c) + sector]| == v.bs
    ensures place + amount <= ClusterBytes(v) && PlaceOf(v, sector + 1, 0) == place + (v.bs - offset)
    ensures var data, piece := ClusterData(v, c), v.d[ClusterLba(v, c) + sector][offset..offset + amount];
            Splice(Splice(was, start, data[within..place]), start + (place - within), piece)
            == Splice(was, start, data[within..place + amount])
  {
    hide ValidVolume, InRange, Splice, ClusterLba, ClusterData, ClusterBytes, PlaceOf;
    BlockInCluster(v, c, sector, offset, offset + amount);
    NextSector(v, sector, offset);
    LongerPiece(was, start, ClusterData(v, c), within, place, place + amount);
  }

  // ---------------------------------------------------- what a file contains

  ghost predicate ChainInRange(v: Volume, chain: seq<nat>) {
    forall k :: 0 <= k < |chain| ==> InRange(v, chain[k])
  }

  /** The bytes of each cluster of a chain. */
  function Clustered(v: Volume, chain: seq<nat>): (ss: seq<seq<byte>>)
    requires ValidVolume(v) && ChainInRange(v, chain)
    ensures |ss| == |chain|
    ensures forall k :: 0 <= k < |chain| ==> ss[k] == ClusterData(v, chain[k]) && |ss[k]| == ClusterBytes(v)
  {
    if chain == [] then [] else [ClusterData(v, chain[0])] + Clustered(v, chain[1..])
  }

  function ChainBytes(v: Volume, chain: seq<nat>): seq<byte>
    requires ValidVolume(v) && ChainInRange(v, chain)
  {
    Joined(Clustered(v, chain))
  }

  /** A file's contents: its clusters in chain order, cut to its size. */
  function Contents(v: Volume, chain: seq<nat>, size: nat): (s: seq<byte>)
    requires ValidVolume(v) && ChainInRange(v, chain)
  {
    Slice(ChainBytes(v, chain), 0, size)
  }

  lemma {:induction false} SeekMeans(v: Volume, first: nat, chain: seq<nat>, k: nat)
    requires ValidVolume(v) && LinkedChain(v, first, chain) && k < |chain|
    ensures Seek(v, first, k) == Done(chain[k])
  {
    hide DecodeLink, InRange, ValidVolume;
    if k > 0 {
      SeekMeans(v, first, chain, k - 1);
      assert DecodeLink(v, chain[k - 1]) == NextCluster(chain[k - 1 + 1]);
    }
  }

  lemma NothingRead(v: Volume, c: nat, within: nat)
    requires ValidVolume(v) && within < ClusterBytes(v)
    ensures ReadFrom(v, c, within, 0) == Reading([], Done(()))
  {
  }

  /** One cluster of a read. */
  lemma ReadFromStep(v: Volume, c: nat, within: nat, count: nat)
    requires ValidVolume(v) && within < ClusterBytes(v) && 0 < count
    ensures !InRange(v, c) ==> ReadFrom(v, c, within, count) == Reading([], Failed(CorruptFilesystem))
    ensures InRange(v, c) ==>
              var chunk := Chunk(v, c, within, count);
              && (|chunk| == count ==> ReadFrom(v, c, within, count) == Reading(chunk, Done(())))
              && (|chunk| < count ==>
                    ReadFrom(v, c, within, count)
                    == match Follow(v, c)
                       case Done(n) => After(chunk, ReadFrom(v, n, 0, count - |chunk|))
                       case Failed(e) => Reading(chunk, Failed(e)))
  {
    hide DecodeLink, ValidVolume, InRange, ClusterBytes, ClusterData;
  }

  /** One cluster of a read, behind what has been read before it. */
  lemma ReadOn(done: seq<byte>, v: Volume, c: nat, within: nat, count: nat)
    requires ValidVolume(v) && within < ClusterBytes(v) && 0 < count
    ensures !InRange(v, c) ==> After(done, ReadFrom(v, c, within, count)) == Reading(done, Failed(CorruptFilesystem))
    ensures InRange(v, c) ==>
              var chunk, r := Chunk(v, c, within, count), After(done, ReadFrom(v, c, within, count));
              && (|chunk| == count ==> r == Reading(done + chunk, Done(())))
              && (|chunk| < count ==>
                    r == match Follow(v, c)
                         case Done(n) => After(done + chunk, ReadFrom(v, n, 0, count - |chunk|))
                         case Failed(e) => Reading(done + chunk, Failed(e)))
  {
    hide DecodeLink, ValidVolume, InRange, ClusterBytes, Chunk, ReadFrom, Follow;
    ReadFromStep(v, c, within, count);
    if InRange(v, c) && |Chunk(v, c, within, count)| < count && Follow(v, c).Done? {
      AfterTwice(done, Chunk(v, c, within, count),
                 ReadFrom(v, Follow(v, c).value, 0, count - |Chunk(v, c, within, count)|));
    } else {
      assert done + [] == done;
    }
  }

  lemma AfterNothing(r: Reading)
    ensures After([], r) == r
  {
  }

  lemma LinkAt(v: Volume, first: nat, chain: seq<nat>, k: nat)
    requires ValidVolume(v) && LinkedChain(v, first, chain) && k < |chain|
    ensures ChainInRange(v, chain)
    ensures InRange(v, chain[k])
    ensures k + 1 < |chain| ==> DecodeLink(v, chain[k]) == NextCluster(chain[k + 1])
  {
    hide DecodeLink, InRange, ValidVolume;
  }

  /** Where a chain's cluster starts in the file. */
  function StartOf(v: Volume, k: nat): nat
    requires ValidVolume(v)
  {
    Span(k, ClusterBytes(v))
  }

  lemma ClusterInFile(v: Volume, chain: seq<nat>, k: nat, lo: nat, hi: nat)
    requires ValidVolume(v) && ChainInRange(v, chain)
    requires k < |chain| && lo <= hi <= ClusterBytes(v)
    ensures var all, o := ChainBytes(v, chain), StartOf(v, k);
            && |all| == StartOf(v, |chain|) && StartOf(v, k + 1) == o + ClusterBytes(v) <= |all|
            && all[o + lo..o + hi] == ClusterData(v, chain[k])[lo..hi]
  {
    hide ClusterBytes, ClusterData, Joined, Clustered, ValidVolume, Span;
    JoinedAt(Clustered(v, chain), ClusterBytes(v), k, lo, hi);
    NextSpan(k, ClusterBytes(v));
  }

  lemma NotLast(v: Volume, k: nat, n: nat)
    requires ValidVolume(v) && StartOf(v, k + 1) < StartOf(v, n)
    ensures k + 1 < n
  {
    hide ClusterBytes, Span;
    if n <= k + 1 {
      SpanOrder(n, k + 1, ClusterBytes(v));
    }
  }

  lemma {:induction false} ReadFromMeans(v: Volume, first: nat, chain: seq<nat>, k: nat, within: nat, count: nat)
    requires ValidVolume(v) && LinkedChain(v, first, chain) && k < |chain| && within < ClusterBytes(v)
    requires StartOf(v, k) + within + count <= StartOf(v, |chain|)
    ensures var all, o := ChainBytes(v, chain), StartOf(v, k) + within;
            o + count <= |all| && ReadFrom(v, chain[k], within, count) == Reading(all[o..o + count], Done(()))
    decreases |chain| - k
  {
    hide DecodeLink, ValidVolume, ChainInRange, ClusterBytes, ChainBytes, ReadFrom, StartOf;
    var n := Min(count, ClusterBytes(v) - within);
    LinkAt(v, first, chain, k);
    ClusterInFile(v, chain, k, 0, 0);
    if n < count {
      NotLast(v, k, |chain|);
      ReadFromMeans(v, first, chain, k + 1, 0, count - n);
    }
    hide LinkedChain;
    ReadFromPiece(v, chain, k, within, count);
  }

  lemma ReadFromPiece(v: Volume, chain: seq<nat>, k: nat, within: nat, count: nat)
    requires ValidVolume(v) && ChainInRange(v, chain) && k < |chain| && within < ClusterBytes(v)
    requires InRange(v, chain[k]) && StartOf(v, k) + within + count <= |ChainBytes(v, chain)|
    requires var n := Min(count, ClusterBytes(v) - within);
             n < count ==>
               (&& DecodeLink(v, chain[k]).NextCluster? && StartOf(v, k + 1) + (count - n) <= |ChainBytes(v, chain)|
                && ReadFrom(v, DecodeLink(v, chain[k]).cluster, 0, count - n)
                   == Reading(ChainBytes(v, chain)[StartOf(v, k + 1)..StartOf(v, k + 1) + (count - n)], Done(())))
    ensures var all, o := ChainBytes(v, chain), StartOf(v, k) + within;
            ReadFrom(v, chain[k], within, count) == Reading(all[o..o + count], Done(()))
  {
    hide DecodeLink, ValidVolume, ChainInRange, ClusterBytes, Chunk, ChainBytes, ReadFrom, StartOf;
    ChunkInFile(v, chain, k, within, count);
    ReadFromTwo(v, chain[k], within, count, ChainBytes(v, chain), StartOf(v, k) + within);
  }

  lemma ChunkInFile(v: Volume, chain: seq<nat>, k: nat, within: nat, count: nat)
    requires ValidVolume(v) && ChainInRange(v, chain)
    requires k < |chain| && within < ClusterBytes(v)
    ensures var all, o := ChainBytes(v, chain), StartOf(v, k) + within;
            && |all| == StartOf(v, |chain|) && StartOf(v, k + 1) == StartOf(v, k) + ClusterBytes(v) <= |all|
            && var n := Min(count, ClusterBytes(v) - within); all[o..o + n] == Chunk(v, chain[k], within, count)
  {
    hide ClusterBytes, ClusterData, ChainBytes, ValidVolume, StartOf;
    ClusterInFile(v, chain, k, within, within + Min(count, ClusterBytes(v) - within));
  }

  lemma ReadFromTwo(v: Volume, c: nat, within: nat, count: nat, all: seq<byte>, o: nat)
    requires ValidVolume(v) && InRange(v, c) && within < ClusterBytes(v) && o + count <= |all|
    requires var n := Min(count, ClusterBytes(v) - within);
             && Chunk(v, c, within, count) == all[o..o + n]
             && (n < count ==> DecodeLink(v, c).NextCluster?
                               && ReadFrom(v, DecodeLink(v, c).cluster, 0, count - n)
                                  == Reading(all[o + n..o + count], Done(())))
    ensures ReadFrom(v, c, within, count) == Reading(all[o..o + count], Done(()))
  {
    hide DecodeLink, ValidVolume, InRange, ClusterBytes, Chunk, ReadFrom;
    if count == 0 {
      NothingRead(v, c, within);
      return;
    }
    ReadFromStep(v, c, within, count);
    SliceTwo(all, o, o + Min(count, ClusterBytes(v) - within), o + count);
  }

  lemma SliceTwo(s: seq<byte>, a: nat, b: nat, c: nat)
    requires a <= b <= c <= |s|
    ensures s[a..b] + s[b..c] == s[a..c]
  {
  }

  /** Every read of a file the mount accepts: the requested part of its
      contents, cut at its size, whatever was read before. */
  lemma ReadMeans(v: Volume, first: nat, size: nat, chain: seq<nat>, offset: nat, length: nat)
    requires ValidVolume(v) && GoodChain(v, first, chain) && ClustersOf(v, size) <= |chain|
    ensures ChainInRange(v, chain) && |Contents(v, chain, size)| == size
    ensures ReadAt(v, first, size, offset, length)
            == Reading(Slice(Contents(v, chain, size), offset, offset + length), Done(()))
  {
    hide DecodeLink, ValidVolume, InRange, ClusterBytes, ChainBytes, Seek, ReadFrom, StartOf, ClustersOf, Slice, GoodChain;
    GoodIsLinked(v, first, chain);
    LinkAt(v, first, chain, 0);
    ClusterInFile(v, chain, 0, 0, 0);
    Holding(v, size, |chain|);
    if offset < size && length != 0 {
      hide ReadAt;
      ReadInside(v, first, size, chain, offset, length);
      CutPiece(ChainBytes(v, chain), size, offset, length);
    } else {
      CutNothing(Contents(v, chain, size), offset, length);
    }
  }

  lemma ReadInside(v: Volume, first: nat, size: nat, chain: seq<nat>, offset: nat, length: nat)
    requires ValidVolume(v) && LinkedChain(v, first, chain) && size <= StartOf(v, |chain|)
    requires offset < size && length != 0
    ensures ChainInRange(v, chain) && size <= |ChainBytes(v, chain)|
    ensures var n := Min(length, size - offset);
            ReadAt(v, first, size, offset, length) == Reading(ChainBytes(v, chain)[offset..offset + n], Done(()))
  {
    hide DecodeLink, ValidVolume, InRange, ClusterBytes, ChainBytes, Seek, ReadFrom, StartOf, OrdinalOf, WithinOf;
    LinkAt(v, first, chain, 0);
    ClusterInFile(v, chain, 0, 0, 0);
    hide LinkedChain, ChainInRange;
    PlaceInFile(v, offset, |chain|);
    SeekMeans(v, first, chain, OrdinalOf(v, offset));
    ReadFromMeans(v, first, chain, OrdinalOf(v, offset), WithinOf(v, offset), Min(length, size - offset));
  }

  lemma CutNothing(s: seq<byte>, offset: nat, length: nat)
    requires |s| <= offset || length == 0
    ensures Slice(s, offset, offset + length) == []
  {
  }

  lemma CutPiece(all: seq<byte>, size: nat, offset: nat, length: nat)
    requires offset < size <= |all|
    ensures Slice(Slice(all, 0, size), offset, offset + length) == all[offset..offset + Min(length, size - offset)]
  {
    SliceOfSlice(all, 0, size, offset, offset + Min(length, size - offset));
  }

  /** Enough clusters hold the file. */
  lemma Holding(v: Volume, size: nat, n: nat)
    requires ValidVolume(v) && ClustersOf(v, size) <= n
    ensures size <= StartOf(v, n)
  {
    hide ClusterBytes;
    CeilHolds(size, ClusterBytes(v), n);
  }

  lemma CeilHolds(size: nat, w: nat, n: nat)
    requires 0 < w && CeilDiv(size, w) <= n
    ensures size <= n * w
  {
    Division(size + w - 1, w);
    ScaledOrder(CeilDiv(size, w), n, w);
  }

  lemma PlaceInFile(v: Volume, offset: nat, n: nat)
    requires ValidVolume(v) && offset < StartOf(v, n)
    ensures OrdinalOf(v, offset) < n && offset == StartOf(v, OrdinalOf(v, offset)) + WithinOf(v, offset)
  {
    hide ClusterBytes;
    Inside(offset, ClusterBytes(v), n);
  }

  lemma Inside(offset: nat, w: nat, n: nat)
    requires 0 < w && offset < n * w
    ensures offset / w < n && offset == offset / w * w + offset % w
  {
    Division(offset, w);
    if n <= offset / w {
      ScaledOrder(n, offset / w, w);
    }
  }

  lemma NothingSpliced(s: seq<byte>)
    ensures Splice(s, 0, []) == s
  {
  }

  lemma {:induction false} SeekFails(v: Volume, c: nat, lo: nat, hi: nat)
    requires ValidVolume(v) && lo <= hi && Seek(v, c, lo).Failed?
    ensures Seek(v, c, hi) == Seek(v, c, lo)
    decreases hi
  {
    if lo < hi {
      SeekFails(v, c, lo, hi - 1);
    }
  }
}
