// An execution in which a generation the mount has rejected comes back: it
// exists from every fresh partition, for both block sizes and for a damaged
// byte anywhere in the first block of the newest payload.
module JournalRejected {
  import opened Bytes
  import opened Checksums
  import opened JournalFormat
  import opened JournalRecords
  import opened JournalDisk
  import opened JournalRuns
  import opened JournalCorruption
  import opened JournalDurability
  import opened JournalRestore
  import opened SparseFiles
  import opened JournalLists
  import opened JournalLimits
  import opened JournalStore
  import opened JournalReach
  import FileSync
  import Paths

  /** One sparse file "a" of one allocated block that ends in the given byte. */
  function SampleData(last: byte): (data: seq<byte>)
    ensures |data| == 5 + FILE_BLOCK
  {
    [1] + Le(4096, 4) + Zeros(FILE_BLOCK - 1) + [last]
  }

  function Sample(last: byte): seq<Record> {
    [Record(FileSync.KIND_SPARSE, [0x61], 0, Times(0, 0, 0, 0), Owner(0, 0), SampleData(last))]
  }

  const SAMPLE_SIZE: nat := 4 + RECORD_HEADER_SIZE + 1 + 5 + FILE_BLOCK

  lemma SampleBytes(last: byte)
    ensures var p := PayloadBytes(Sample(last));
            |p| == SAMPLE_SIZE && p[SAMPLE_SIZE - 1] == last
    ensures forall other: byte ::
              PayloadBytes(Sample(last))[..SAMPLE_SIZE - 1] == PayloadBytes(Sample(other))[..SAMPLE_SIZE - 1]
  {
    hide Le, RecordHeader;
    OneRecord(Sample(last)[0]);
    forall other: byte
      ensures PayloadBytes(Sample(last))[..SAMPLE_SIZE - 1] == PayloadBytes(Sample(other))[..SAMPLE_SIZE - 1]
    {
      OneRecord(Sample(other)[0]);
      assert RecordHeader(Sample(last)[0]) == RecordHeader(Sample(other)[0]) by { SameHeader(last, other); }
    }
  }

  lemma SameHeader(a: byte, b: byte)
    ensures RecordHeader(Sample(a)[0]) == RecordHeader(Sample(b)[0])
  {
  }

  lemma OneRecord(r: Record)
    ensures PayloadBytes([r]) == Le(1, 4) + (RecordHeader(r) + r.path + r.data)
  {
    hide Le, RecordHeader;
    assert [r][1..] == [];
    assert Serialize([r]) == RecordBytes(r) + [];
  }

  lemma SampleIsSparse(last: byte)
    ensures SparseImage(SampleData(last))
  {
    hide Le;
    Widths();
    var data := SampleData(last);
    assert data[1..5] == Le(4096, 4);
    FieldOfLe(data, 1, 4, 4096);
    assert PopCount(0) == 0 && PopCount(1) == 1;
  }

  lemma SamplePath()
    ensures Paths.ValidRelativePath([0x61])
  {
    var p: seq<byte> := [0x61];
    assert Paths.ComponentEnd(p, 1) == 1;
    assert Paths.ComponentEnd(p, 0) == 1;
    assert p[0..1] == [0x61];
  }

  lemma SampleIsWriter(last: byte)
    ensures WriterList(Sample(last))
  {
    hide SparseImage, Paths.ValidRelativePath, PayloadBytes, SampleData;
    SampleBytes(last);
    SampleIsSparse(last);
    SamplePath();
    assert Restorable(Sample(last)[0]);
  }

  lemma SampleCommits(last: byte)
    ensures var p := PayloadBytes(Sample(last)); Committable(p, 1)
    ensures var p := PayloadBytes(Sample(last)); forall s: Snapshot :: s.payload == p && s.count == 1 && s.version == VERSION ==> Written(s)
  {
    hide PayloadBytes, WriterList;
    SampleBytes(last);
    SampleIsWriter(last);
    CountOf(Sample(last));
    forall s: Snapshot | s.payload == PayloadBytes(Sample(last)) && s.count == 1 && s.version == VERSION
      ensures Written(s)
    {
      assert Lists(s, Sample(last));
    }
  }

  lemma EmptyCommits()
    ensures PayloadBytes([]) == Le(0, 4) && Committable(PayloadBytes([]), 0)
  {
    Widths();
    var p := PayloadBytes([]);
    assert p == Le(0, 4) && p[0..4] == Le(0, 4);
    FieldOfLe(p, 0, 4, 0);
  }

  /** The first block of a payload that fills it, on the disk and in memory. */
  lemma FirstBlock(d: seq<Block>, slot: nat, s: Snapshot, bs: BlockSize)
    requires IsDisk(d, bs) && slot < 2 && Holds(d, slot, s, bs) && bs <= |s.payload|
    ensures PayloadStart(bs, slot) < |d| && d[PayloadStart(bs, slot)] == s.payload[..bs]
    ensures 0 < |Blocks(s.payload, bs)| && Blocks(s.payload, bs)[0] == s.payload[..bs]
  {
    hide ReadHeader, Crc32, Read32, ReadRun, Blocks;
    RegionFits(d, slot, |s.payload|, bs);
    ReadRunStep(d, PayloadStart(bs, slot), |s.payload|, bs);
    BlocksStep(s.payload, bs);
    var b := d[PayloadStart(bs, slot)];
    assert s.payload[..bs] == b[..bs] == b;
    assert s.payload[..bs] + Zeros(0) == s.payload[..bs];
  }

  /** `d` with one byte of block `l` flipped. */
  lemma Damage(d: seq<Block>, l: nat, i: nat, bs: BlockSize) returns (e: seq<Block>)
    requires IsDisk(d, bs) && l < |d| && i < bs
    ensures IsDisk(e, bs) && OneByteChanged(d, e, l, i)
    ensures e[l := d[l]] == d
  {
    var b := d[l];
    var flipped: byte := if b[i] == 0 then 1 else 0;
    var damaged: Block := b[..i] + [flipped] + b[i + 1..];
    e := d[l := damaged];
    assert DifferOnlyAt(d[l], e[l], i);
  }

  /** Two commits on a fresh partition; one byte of the newest payload is
      damaged; the mount falls back; the next commit shares the damaged block's
      contents; that block is written and the power fails. Every step is one
      the machine takes, and the disk it ends on mounts as the generation that
      had been rejected. */
  lemma RejectedComesBack(d: seq<Block>, i: nat, bs: BlockSize) returns (run: seq<Sys>, e: seq<Block>, steps: seq<Sys>)
    requires FreshDisk(d, bs) && i < bs
    ensures IsRun(run, bs) && run[0] == Sys(Definite(d), Off) && Last(run).phase.Ready?
    ensures IsDisk(Last(run).media.now, bs) && OneByteChanged(Last(run).media.now, e, PayloadStart(bs, 1), i)
    ensures |steps| == 5 && steps[0] == Sys(Definite(e), Off)
    ensures forall k :: 0 <= k < 4 ==> Next(steps[k], steps[k + 1], bs)
    ensures steps[1].phase.Ready? && steps[2].phase.Writing? && steps[4].phase.Off?
    ensures Written(steps[2].phase.next)
    ensures IsDisk(steps[4].media.now, bs) && Recover(steps[4].media.now, bs).Mounted?
    ensures var back := Recover(steps[4].media.now, bs).memory;
            && back == Last(run).phase.mem
            && back.snap !in {steps[1].phase.mem.snap, steps[2].phase.next}
  {
    hide Next, IsRun, Recover, Holds, PayloadBytes, Blocks, WriterList, Written, Protected, Lands, ReadRun,
         Committable, Cached, CrashImage, MediaOk;
    EmptyCommits();
    SampleCommits(0);
    SampleCommits(1);
    SampleBytes(0);
    SampleBytes(1);
    SampleIsWriter(1);
    var p, q := PayloadBytes(Sample(0)), PayloadBytes(Sample(1));
    run := TwoGenerations(d, PayloadBytes([]), 0, p, 1, bs);
    RunNonEmpty(run, bs);
    var h := Last(run).media.now;
    var old_, new_ := Snapshot(1, VERSION, 0, PayloadBytes([])), Snapshot(2, VERSION, 1, p);
    var l := PayloadStart(bs, 1);
    FirstBlock(h, 1, new_, bs);
    e := Damage(h, l, i, bs);
    FirstByteProtected(new_, i, bs);
    SharedBlock(h[l], p, q, bs);
    RejectedGenerationReturns(h, e, 1, new_, old_, l, i, Sample(1), bs);
    var mem, next := Memory(0, old_), NextSnapshot(Memory(0, old_), q, 1);
    steps := Attempt(e, mem, q, 1, h, bs);
  }

  lemma RunNonEmpty(run: seq<Sys>, bs: BlockSize)
    requires IsRun(run, bs)
    ensures 0 < |run|
  {
  }

  lemma FirstByteProtected(s: Snapshot, i: nat, bs: BlockSize)
    requires i < bs <= |s.payload|
    ensures Protected(1, s, PayloadStart(bs, 1), i, bs)
  {
  }

  /** Payloads with a common prefix share their first block. */
  lemma SharedBlock(b: Block, p: seq<byte>, q: seq<byte>, bs: BlockSize)
    requires |p| == |q| == SAMPLE_SIZE && p[..SAMPLE_SIZE - 1] == q[..SAMPLE_SIZE - 1] && b == p[..bs]
    ensures 0 < |Blocks(q, bs)| && Blocks(q, bs)[0] == b && Lands(b, 1, q, PayloadStart(bs, 1), bs)
  {
    hide Blocks;
    BlocksStep(q, bs);
    assert p[..bs] == p[..SAMPLE_SIZE - 1][..bs] && q[..bs] == q[..SAMPLE_SIZE - 1][..bs];
    assert q[..bs] + Zeros(0) == q[..bs];
  }

  /** Mount, begin a commit, write its first block, lose power with that block
      landed. */
  lemma Attempt(e: seq<Block>, mem: Memory, payload: seq<byte>, count: nat, image: seq<Block>, bs: BlockSize)
    returns (steps: seq<Sys>)
    requires IsDisk(e, bs) && Recover(e, bs) == Mounted(mem) && mem.active < 2 && Committable(payload, count)
    requires 0 < |Blocks(payload, bs)| && PayloadStart(bs, Other(mem.active)) < |e|
    requires image == e[PayloadStart(bs, Other(mem.active)) := Blocks(payload, bs)[0]]
    ensures |steps| == 5 && steps[0] == Sys(Definite(e), Off)
    ensures forall k :: 0 <= k < 4 ==> Next(steps[k], steps[k + 1], bs)
    ensures steps[1].phase == Ready(mem) && steps[2].phase == Writing(mem, NextSnapshot(mem, payload, count), 0)
    ensures steps[4] == Sys(Definite(image), Off)
  {
    hide Recover, Blocks, Committable, PayloadStart, Next, CrashImage, IsDisk, MediaOk, Definite, Cached, Read32;
    var m, next, l := Definite(e), NextSnapshot(mem, payload, count), PayloadStart(bs, Other(mem.active));
    var b := Blocks(payload, bs)[0];
    DefiniteOk(e, bs);
    DefiniteNow(e);
    var n := WriteLands(e, l, b, bs);
    var s0, s1, s2 := Sys(m, Off), Sys(m, Ready(mem)), Sys(m, Writing(mem, next, 0));
    var s3, s4 := Sys(n, Writing(mem, next, 1)), Sys(Definite(image), Off);
    MountNext(m, mem, bs);
    MountIsNext(s0, s1, bs);
    BeginNext(m, mem, payload, count, bs);
    SectorNext(m, n, mem, next, 0, true, bs);
    CrashNext(s3, image, bs);
    steps := [s0, s1, s2, s3, s4];
    FourSteps(s0, s1, s2, s3, s4, bs);
  }

  /** One block written, and the crash after which it has landed. */
  lemma WriteLands(e: seq<Block>, l: nat, b: Block, bs: BlockSize) returns (n: Media)
    requires IsDisk(e, bs) && l < |e| && |b| == bs
    ensures |Definite(e).now| == |Definite(e).may| == |e|
    ensures n == Cached(Definite(e), l, b, true) && MediaOk(n, bs) && CrashImage(n, e[l := b])
  {
    n := Cached(Definite(e), l, b, true);
    DefiniteOk(e, bs);
    CachedOk(Definite(e), l, b, true, bs);
  }

  lemma FourSteps(s0: Sys, s1: Sys, s2: Sys, s3: Sys, s4: Sys, bs: BlockSize)
    requires Next(s0, s1, bs) && Next(s1, s2, bs) && Next(s2, s3, bs) && Next(s3, s4, bs)
    ensures var steps := [s0, s1, s2, s3, s4]; forall k :: 0 <= k < 4 ==> Next(steps[k], steps[k + 1], bs)
  {
    hide Next;
    var steps := [s0, s1, s2, s3, s4];
    forall k | 0 <= k < 4
      ensures Next(steps[k], steps[k + 1], bs)
    {
      if k == 0 { } else if k == 1 { } else if k == 2 { } else { }
    }
  }

  lemma CrashNext(s: Sys, image: seq<Block>, bs: BlockSize)
    requires MediaOk(s.media, bs) && CrashImage(s.media, image)
    ensures Next(s, Sys(Definite(image), Off), bs)
  {
    hide CrashImage;
    DefiniteNow(image);
    assert CrashStep(s, Sys(Definite(image), Off), bs);
  }

  lemma MountIsNext(s: Sys, t: Sys, bs: BlockSize)
    requires MediaOk(s.media, bs) && MountStep(s, t, bs)
    ensures Next(s, t, bs)
  {
    hide MountStep;
  }
}
