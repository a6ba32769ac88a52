// What `restore` demands of a payload before and besides the file tree's own
// answers (src/runtime_persist.zig): its three passes over the records, and the
// record lists they accept, which are the ones the kernel's writers produce.
module JournalRestore {
  import opened Bytes
  import opened JournalFormat
  import opened JournalRecords
  import opened FileSync
  import opened Paths
  import opened SparseFiles

  const KIND_DIRECTORY: byte := 1
  const KIND_SYMLINK: byte := 3
  const KIND_HARD_LINK: byte := 4

  /** The length of "/persist/". */
  const PREFIX_LENGTH: nat := 9
  const MAX_PATH: nat := 255

  datatype Pass = Namespace | Links | Metadata

  datatype RestoreResult = Restored | RestoreCorrupt | RestoreNoSpace

  /** `recordHeaderSize`. */
  function HeaderSizeOf(version: nat): nat {
    if version == 1 then 8 else if version == 2 then 40 else RECORD_HEADER_SIZE
  }

  // --------------------------------------------------------- one record

  predicate LinkData(data: seq<byte>) {
    0 < |data| <= MAX_PATH && ValidRelativePath(data)
  }

  /** `absolutePath` has room for the prefix. */
  predicate Absolute(path: seq<byte>) {
    PREFIX_LENGTH + |path| <= MAX_PATH
  }

  predicate KindData(kind: byte, data: seq<byte>) {
    if kind == KIND_DIRECTORY then data == []
    else if kind == KIND_FILE then |data| <= MAX_FILE
    else if kind == KIND_SPARSE then SparseImage(data)
    else 0 < |data| <= MAX_PATH
  }

  /** What a pass checks of a record it has cut out of the payload. */
  function CheckRecord(pass: Pass, kind: byte, path: seq<byte>, data: seq<byte>): RestoreResult {
    match pass
    case Namespace =>
      if kind == KIND_HARD_LINK then if LinkData(data) then Restored else RestoreCorrupt
      else if !Absolute(path) then RestoreNoSpace
      else if KindData(kind, data) then Restored else RestoreCorrupt
    case Links =>
      if kind != KIND_HARD_LINK then Restored
      else if !LinkData(data) then RestoreCorrupt
      else if !Absolute(data) || !Absolute(path) then RestoreNoSpace else Restored
    case Metadata =>
      if Absolute(path) then Restored else RestoreNoSpace
  }

  /** One pass from record `index` at `offset`; `hs` is the record header size
      of the payload's version. */
  function PassFrom(p: seq<byte>, offset: nat, index: nat, count: nat, hs: nat, pass: Pass): RestoreResult
    requires offset <= |p| && index <= count && 8 <= hs
    decreases count - index
  {
    if index == count then if offset != |p| then RestoreCorrupt else Restored
    else if offset + hs > |p| then RestoreCorrupt
    else if !(1 <= p[offset] <= 5) then RestoreCorrupt
    else
      var body, pathLength, dataLength := offset + hs, p[offset + 1] as nat, Read32(p, offset + 4);
      if pathLength == 0 || body + pathLength > |p| then RestoreCorrupt
      else if !ValidRelativePath(p[body..body + pathLength]) then RestoreCorrupt
      else if body + pathLength + dataLength > |p| then RestoreCorrupt
      else
        var end := body + pathLength + dataLength;
        match CheckRecord(pass, p[offset], p[body..body + pathLength], p[body + pathLength..end])
        case Restored => PassFrom(p, end, index + 1, count, hs, pass)
        case e => e
  }

  /** `restore`, as far as the payload decides it. */
  function RestoreOf(p: seq<byte>, version: nat, recordCount: nat): RestoreResult {
    if |p| < 4 || Read32(p, 0) != recordCount then RestoreCorrupt
    else
      var hs := HeaderSizeOf(version);
      match PassFrom(p, 4, 0, recordCount, hs, Namespace)
      case Restored =>
        (match PassFrom(p, 4, 0, recordCount, hs, Links)
         case Restored => PassFrom(p, 4, 0, recordCount, hs, Metadata)
         case e => e)
      case e => e
  }

  // ------------------------------------------------------ record lists

  predicate Restorable(r: Record) {
    && 1 <= r.kind <= 5 && ValidRelativePath(r.path) && Absolute(r.path)
    && (if r.kind == KIND_HARD_LINK then LinkData(r.data) && Absolute(r.data) else KindData(r.kind, r.data))
  }

  ghost predicate AllRestorable(rs: seq<Record>) {
    forall i :: 0 <= i < |rs| ==> Restorable(rs[i])
  }

  /** The lists the kernel's writers commit. */
  ghost predicate WriterList(rs: seq<Record>) {
    AllRestorable(rs) && |PayloadBytes(rs)| <= MAX_PAYLOAD
  }

  /** One step of a pass over version-3 records. */
  lemma PassStep(p: seq<byte>, offset: nat, index: nat, count: nat, pass: Pass)
    requires offset <= |p| && index < count
    ensures PassFrom(p, offset, index, count, RECORD_HEADER_SIZE, pass) == Restored <==>
              && ScanOk(p, offset)
              && var r := RecordAt(p, offset);
                 && CheckRecord(pass, r.kind, r.path, r.data) == Restored
                 && PassFrom(p, RecordEnd(p, offset), index + 1, count, RECORD_HEADER_SIZE, pass) == Restored
  {
    hide ValidRelativePath, CheckRecord;
    if ScanOk(p, offset) {
      var r := RecordAt(p, offset);
      match CheckRecord(pass, r.kind, r.path, r.data)
      case Restored =>
      case _ =>
    }
  }

  /** A pass that succeeds has read a list of records it accepts, up to the end
      of the payload. */
  lemma {:induction false} PassReads(p: seq<byte>, offset: nat, index: nat, count: nat, pass: Pass)
    returns (rs: seq<Record>)
    requires offset <= |p| && index <= count
    requires PassFrom(p, offset, index, count, RECORD_HEADER_SIZE, pass) == Restored
    ensures p[offset..] == Serialize(rs) && |rs| == count - index
    ensures forall i :: 0 <= i < |rs| ==> 1 <= rs[i].kind <= 5 && ValidRelativePath(rs[i].path)
    decreases count - index
  {
    hide PassFrom, RecordAt, RecordEnd, RecordBytes, ScanOk, ValidRelativePath, CheckRecord;
    if index == count {
      PassEnd(p, offset, count, pass);
      rs := [];
    } else {
      PassStep(p, offset, index, count, pass);
      ScanBounds(p, offset);
      ScanKinds(p, offset);
      BytesOfRecordAt(p, offset);
      var r, end := RecordAt(p, offset), RecordEnd(p, offset);
      var more := PassReads(p, end, index + 1, count, pass);
      rs := [r] + more;
      Rejoined(p, offset, r, more);
    }
  }

  lemma PassEnd(p: seq<byte>, offset: nat, count: nat, pass: Pass)
    requires offset <= |p|
    ensures PassFrom(p, offset, count, count, RECORD_HEADER_SIZE, pass) == Restored <==> offset == |p|
  {
  }

  lemma Rejoined(p: seq<byte>, offset: nat, r: Record, more: seq<Record>)
    requires var end := offset + |RecordBytes(r)|;
             end <= |p| && p[offset..end] == RecordBytes(r) && p[end..] == Serialize(more)
    ensures p[offset..] == Serialize([r] + more)
  {
    hide RecordBytes;
    var rs := [r] + more;
    assert rs[1..] == more && rs[0] == r;
    assert p[offset..] == p[offset..offset + |RecordBytes(r)|] + p[offset + |RecordBytes(r)|..];
  }

  lemma ScanKinds(p: seq<byte>, offset: nat)
    requires ScanOk(p, offset)
    ensures 1 <= RecordAt(p, offset).kind <= 5 && ValidRelativePath(RecordAt(p, offset).path)
  {
  }

  // --------------------------------------- records of every version

  /** A record as any version stores it: a header that begins with kind, path
      length and, at byte 4, data length, then the path and the data. */
  datatype Item = Item(head: seq<byte>, kind: byte, path: seq<byte>, data: seq<byte>)

  predicate WellLaid(x: Item, hs: nat) {
    && |x.head| == hs && 8 <= hs && |x.path| < 256 && |x.data| < 0x1_0000_0000
    && x.head[0] == x.kind && x.head[1] == |x.path| && x.head[4..8] == Le(|x.data|, 4)
  }

  function ItemBytes(x: Item): seq<byte> {
    x.head + x.path + x.data
  }

  function ItemsBytes(xs: seq<Item>): seq<byte> {
    if xs == [] then [] else ItemBytes(xs[0]) + ItemsBytes(xs[1..])
  }

  ghost predicate KernelItems(xs: seq<Item>, hs: nat) {
    forall i :: 0 <= i < |xs| ==> WellLaid(xs[i], hs) && 1 <= xs[i].kind <= 5 && ValidRelativePath(xs[i].path)
  }

  ghost predicate AllPass(xs: seq<Item>, pass: Pass) {
    forall i :: 0 <= i < |xs| ==> CheckRecord(pass, xs[i].kind, xs[i].path, xs[i].data) == Restored
  }

  /** A pass over laid-out records succeeds exactly when it accepts each. */
  lemma {:induction false} PassOfItems(p: seq<byte>, offset: nat, index: nat, xs: seq<Item>, hs: nat, pass: Pass)
    requires offset <= |p| && 8 <= hs && p[offset..] == ItemsBytes(xs) && KernelItems(xs, hs)
    ensures PassFrom(p, offset, index, index + |xs|, hs, pass) == Restored <==> AllPass(xs, pass)
    decreases |xs|
  {
    hide PassFrom, CheckRecord, ItemBytes, WellLaid, ValidRelativePath;
    PassRound(p, offset, index, index + |xs|, hs, pass);
    if xs != [] {
      var x, rest := xs[0], xs[1..];
      assert p[offset..] == ItemBytes(x) + ItemsBytes(rest);
      ItemAt(p, offset, x, ItemsBytes(rest), hs);
      assert x.path != [] && 8 <= hs && 1 <= x.kind <= 5 by { PathNotEmpty(x.path); }
      var end := offset + |ItemBytes(x)|;
      PassOfItems(p, end, index + 1, rest, hs, pass);
      assert AllPass(xs, pass) <==> CheckRecord(pass, x.kind, x.path, x.data) == Restored && AllPass(rest, pass) by {
        assert forall i :: 1 <= i < |xs| ==> xs[i] == rest[i - 1];
        assert forall i :: 0 <= i < |rest| ==> rest[i] == xs[i + 1];
      }
    }
  }

  lemma PathNotEmpty(path: seq<byte>)
    ensures ValidRelativePath(path) ==> path != []
  {
    hide ComponentsOk;
  }

  /** What a pass cuts out of a laid-out record. */
  lemma ItemAt(p: seq<byte>, offset: nat, x: Item, more: seq<byte>, hs: nat)
    requires offset <= |p| && p[offset..] == ItemBytes(x) + more && WellLaid(x, hs)
    ensures var body, end := offset + hs, offset + |ItemBytes(x)|;
            && end <= |p| && end == body + |x.path| + |x.data| && p[end..] == more
            && p[offset] == x.kind && p[offset + 1] == |x.path| && Read32(p, offset + 4) == |x.data|
            && p[body..body + |x.path|] == x.path && p[body + |x.path|..end] == x.data
  {
    hide Le, UnLe;
    var q, body, end := p[offset..], hs, |ItemBytes(x)|;
    assert q[0] == x.head[0] && q[1] == x.head[1] && q[4..8] == x.head[4..8];
    assert q[body..body + |x.path|] == x.path && q[body + |x.path|..end] == x.data && q[end..] == more;
    SliceOfSlice(p, offset, |p|, 4, 8);
    SliceOfSlice(p, offset, |p|, body, body + |x.path|);
    SliceOfSlice(p, offset, |p|, body + |x.path|, end);
    SliceOfSlice(p, offset, |p|, end, |q|);
    Widths();
    FieldOfLe(p, offset + 4, 4, |x.data|);
  }

  /** A record is one whose path and data a restore takes, kind by kind: a
      directory with no data, a file's contents, a sparse file, a link's target. */
  ghost predicate Takes(kind: byte, path: seq<byte>, data: seq<byte>) {
    && (exists cs :: AllComponents(cs) && path == Joined(cs)) && |path| <= 246
    && match kind
       case 1 => data == []
       case 2 => |data| <= 32768
       case 3 => 1 <= |data| <= 255
       case 4 => (exists cs :: AllComponents(cs) && data == Joined(cs)) && |data| <= 246
       case 5 => 5 <= |data| && Read32(data, 1) <= 32768 && |data| == 5 + 4096 * LowBits(data[0], 8)
       case _ => false
  }

  lemma TakesMeaning(x: Item)
    requires 1 <= x.kind <= 5 && ValidRelativePath(x.path)
    ensures Takes(x.kind, x.path, x.data) <==>
              && CheckRecord(Namespace, x.kind, x.path, x.data) == Restored
              && CheckRecord(Links, x.kind, x.path, x.data) == Restored
              && CheckRecord(Metadata, x.kind, x.path, x.data) == Restored
  {
    hide ValidRelativePath, LowBits;
    PathExactly(x.path);
    PathExactly(x.data);
    SparseExactly(x.data);
    hide SparseImage;
  }

  lemma SparseExactly(data: seq<byte>)
    ensures SparseImage(data) <==> 5 <= |data| && Read32(data, 1) <= 32768 && |data| == 5 + 4096 * LowBits(data[0], 8)
  {
    hide LowBits, PopCount, Field;
    if 5 <= |data| {
      assert Pow2(4) == 16 && Pow2(8) == 256;
      PopCountIsLowBits(data[0], 8);
      LowBitsBound(data[0], 8);
    }
  }

  /** Exactly which laid-out payloads restore, for each version's header size:
      those all of whose records are as `Takes` says. */
  lemma RestoreEveryVersion(version: nat, xs: seq<Item>)
    requires 1 <= version <= 3 && |xs| < 0x1_0000_0000
    requires KernelItems(xs, if version == 1 then 8 else if version == 2 then 40 else 48)
    ensures RestoreOf(Le(|xs|, 4) + ItemsBytes(xs), version, |xs|) == Restored
            <==> forall i :: 0 <= i < |xs| ==> Takes(xs[i].kind, xs[i].path, xs[i].data)
  {
    hide PassFrom, CheckRecord, ItemsBytes, Le, KernelItems, AllPass, Takes, RestoreOf;
    var p, hs := Le(|xs|, 4) + ItemsBytes(xs), HeaderSizeOf(version);
    Widths();
    assert p[0..4] == Le(|xs|, 4) && p[4..] == ItemsBytes(xs);
    FieldOfLe(p, 0, 4, |xs|);
    PassOfItems(p, 4, 0, xs, hs, Namespace);
    PassOfItems(p, 4, 0, xs, hs, Links);
    PassOfItems(p, 4, 0, xs, hs, Metadata);
    ThreePasses(p, version, |xs|);
    TakesAll(xs, hs);
  }

  lemma TakesAll(xs: seq<Item>, hs: nat)
    requires KernelItems(xs, hs)
    ensures AllPass(xs, Namespace) && AllPass(xs, Links) && AllPass(xs, Metadata)
            <==> forall i :: 0 <= i < |xs| ==> Takes(xs[i].kind, xs[i].path, xs[i].data)
  {
    hide CheckRecord, Takes, WellLaid, ValidRelativePath;
    forall i | 0 <= i < |xs|
      ensures Takes(xs[i].kind, xs[i].path, xs[i].data)
              <==> && CheckRecord(Namespace, xs[i].kind, xs[i].path, xs[i].data) == Restored
                   && CheckRecord(Links, xs[i].kind, xs[i].path, xs[i].data) == Restored
                   && CheckRecord(Metadata, xs[i].kind, xs[i].path, xs[i].data) == Restored
    {
      TakesMeaning(xs[i]);
    }
  }

  ghost predicate NoneSays(xs: seq<Item>, pass: Pass, verdict: RestoreResult) {
    forall i :: 0 <= i < |xs| ==> CheckRecord(pass, xs[i].kind, xs[i].path, xs[i].data) != verdict
  }

  /** A pass over laid-out records fails with nothing its records do not fail
      with. */
  lemma {:induction false} PassVerdict(p: seq<byte>, offset: nat, index: nat, xs: seq<Item>, hs: nat, pass: Pass,
                                       verdict: RestoreResult)
    requires offset <= |p| && 8 <= hs && p[offset..] == ItemsBytes(xs) && KernelItems(xs, hs) && !verdict.Restored?
    requires NoneSays(xs, pass, verdict)
    ensures PassFrom(p, offset, index, index + |xs|, hs, pass) != verdict
    decreases |xs|
  {
    hide PassFrom, CheckRecord, ItemBytes, WellLaid, ValidRelativePath;
    PassRound(p, offset, index, index + |xs|, hs, pass);
    if xs != [] {
      var x, rest := xs[0], xs[1..];
      assert p[offset..] == ItemBytes(x) + ItemsBytes(rest);
      ItemAt(p, offset, x, ItemsBytes(rest), hs);
      assert x.path != [] && 8 <= hs && 1 <= x.kind <= 5 by { PathNotEmpty(x.path); }
      assert CheckRecord(pass, x.kind, x.path, x.data) != verdict;
      assert forall i :: 0 <= i < |rest| ==> rest[i] == xs[i + 1];
      PassVerdict(p, offset + |ItemBytes(x)|, index + 1, rest, hs, pass, verdict);
    }
  }

  ghost predicate ShortPaths(xs: seq<Item>) {
    forall i :: 0 <= i < |xs| ==> |xs[i].path| <= 246 && (xs[i].kind == 4 ==> |xs[i].data| <= 246)
  }

  ghost predicate AllOfKind(xs: seq<Item>) {
    forall i :: 0 <= i < |xs| ==> OfKind(xs[i].kind, xs[i].data)
  }

  lemma NoneSaysIt(xs: seq<Item>, hs: nat, pass: Pass)
    requires KernelItems(xs, hs)
    ensures ShortPaths(xs) ==> NoneSays(xs, pass, RestoreNoSpace)
    ensures AllOfKind(xs) ==> NoneSays(xs, pass, RestoreCorrupt)
  {
    hide CheckRecord, WellLaid, ValidRelativePath, OfKind;
    forall i | 0 <= i < |xs|
      ensures |xs[i].path| <= 246 && (xs[i].kind == 4 ==> |xs[i].data| <= 246) ==>
                CheckRecord(pass, xs[i].kind, xs[i].path, xs[i].data) != RestoreNoSpace
      ensures OfKind(xs[i].kind, xs[i].data) ==> CheckRecord(pass, xs[i].kind, xs[i].path, xs[i].data) != RestoreCorrupt
    {
      VerdictOf(xs[i], pass);
    }
  }

  /** How a restore of laid-out records fails: for want of room only when some
      path exceeds the 246 bytes the mount's prefix leaves, and as corrupt only
      when some record's data is not of its kind. */
  lemma RestoreErrors(version: nat, xs: seq<Item>)
    requires 1 <= version <= 3 && |xs| < 0x1_0000_0000
    requires KernelItems(xs, if version == 1 then 8 else if version == 2 then 40 else 48)
    ensures ShortPaths(xs) ==> RestoreOf(Le(|xs|, 4) + ItemsBytes(xs), version, |xs|) != RestoreNoSpace
    ensures AllOfKind(xs) ==> RestoreOf(Le(|xs|, 4) + ItemsBytes(xs), version, |xs|) != RestoreCorrupt
  {
    hide PassFrom, ItemsBytes, Le, KernelItems, NoneSays, ShortPaths, AllOfKind;
    var p, hs := Le(|xs|, 4) + ItemsBytes(xs), HeaderSizeOf(version);
    Widths();
    assert p[0..4] == Le(|xs|, 4) && p[4..] == ItemsBytes(xs);
    FieldOfLe(p, 0, 4, |xs|);
    NoneSaysIt(xs, hs, Namespace);
    NoneSaysIt(xs, hs, Links);
    NoneSaysIt(xs, hs, Metadata);
    if ShortPaths(xs) {
      PassVerdict(p, 4, 0, xs, hs, Namespace, RestoreNoSpace);
      PassVerdict(p, 4, 0, xs, hs, Links, RestoreNoSpace);
      PassVerdict(p, 4, 0, xs, hs, Metadata, RestoreNoSpace);
    }
    if AllOfKind(xs) {
      PassVerdict(p, 4, 0, xs, hs, Namespace, RestoreCorrupt);
      PassVerdict(p, 4, 0, xs, hs, Links, RestoreCorrupt);
      PassVerdict(p, 4, 0, xs, hs, Metadata, RestoreCorrupt);
    }
  }

  /** Data of a kind, but for the room a hard link's target leaves. */
  ghost predicate OfKind(kind: byte, data: seq<byte>) {
    match kind
    case 1 => data == []
    case 2 => |data| <= 32768
    case 3 => 1 <= |data| <= 255
    case 4 => (exists cs :: AllComponents(cs) && data == Joined(cs)) && |data| <= 255
    case 5 => 5 <= |data| && Read32(data, 1) <= 32768 && |data| == 5 + 4096 * LowBits(data[0], 8)
    case _ => false
  }

  lemma VerdictOf(x: Item, pass: Pass)
    requires 1 <= x.kind <= 5
    ensures |x.path| <= 246 && (x.kind == 4 ==> |x.data| <= 246) ==> CheckRecord(pass, x.kind, x.path, x.data) != RestoreNoSpace
    ensures OfKind(x.kind, x.data) ==> CheckRecord(pass, x.kind, x.path, x.data) != RestoreCorrupt
  {
    hide ValidRelativePath, LowBits;
    PathExactly(x.data);
    SparseExactly(x.data);
    PathNotEmpty(x.data);
    hide SparseImage;
  }

  lemma ThreePasses(p: seq<byte>, version: nat, count: nat)
    requires 4 <= |p| && Read32(p, 0) == count
    ensures RestoreOf(p, version, count) == Restored <==>
              && PassFrom(p, 4, 0, count, HeaderSizeOf(version), Namespace) == Restored
              && PassFrom(p, 4, 0, count, HeaderSizeOf(version), Links) == Restored
              && PassFrom(p, 4, 0, count, HeaderSizeOf(version), Metadata) == Restored
  {
    hide PassFrom;
  }

  // ------------------------------------------------- version-3 lists

  /** A record as it is laid out. */
  function ItemOf(r: Record): Item {
    Item(RecordHeader(r), r.kind, r.path, r.data)
  }

  function ItemsOf(rs: seq<Record>): (xs: seq<Item>)
    ensures |xs| == |rs| && forall i :: 0 <= i < |rs| ==> xs[i] == ItemOf(rs[i])
  {
    if rs == [] then [] else [ItemOf(rs[0])] + ItemsOf(rs[1..])
  }

  lemma {:induction false} ItemsAreSerialized(rs: seq<Record>)
    ensures ItemsBytes(ItemsOf(rs)) == Serialize(rs)
  {
    hide RecordHeader;
    if rs != [] {
      ItemsAreSerialized(rs[1..]);
    }
  }

  lemma RecordIsLaid(r: Record)
    ensures WellLaid(ItemOf(r), 48)
  {
    hide Le;
    FieldsOfHeader(r);
    LaidOut([r.kind, |r.path|], Le(r.mode, 2), Le(|r.data|, 4), Le(r.times.created, 8), Le(r.times.modified, 8),
            Le(r.times.changed, 8), Le(r.times.accessed, 8), Le(r.owner.uid, 4), Le(r.owner.gid, 4));
    var s := RecordHeader(r);
    assert s[0] == s[..2][0] && s[1] == s[..2][1];
  }

  /** Exactly which version-3 payloads restore: the serializations of record
      lists all of whose records are restorable. */
  lemma RestoreExactly(rs: seq<Record>)
    requires KernelRecords(rs) && |rs| < 0x1_0000_0000
    ensures RestoreOf(PayloadBytes(rs), VERSION, |rs|) == Restored <==> AllRestorable(rs)
  {
    hide Serialize, Le, Restorable, ValidRelativePath, ItemsBytes, RestoreOf, WellLaid, Takes;
    var xs := ItemsOf(rs);
    ItemsAreSerialized(rs);
    forall i | 0 <= i < |rs|
      ensures WellLaid(xs[i], 48) && (Takes(xs[i].kind, xs[i].path, xs[i].data) <==> Restorable(rs[i]))
    {
      RecordIsLaid(rs[i]);
      RestorableMeaning(rs[i]);
    }
    RestoreEveryVersion(3, xs);
  }

  /** Restorable, over names and literal sizes. */
  lemma RestorableMeaning(r: Record)
    ensures Restorable(r) <==> Takes(r.kind, r.path, r.data)
  {
    hide ValidRelativePath, LowBits;
    PathExactly(r.path);
    PathExactly(r.data);
    SparseExactly(r.data);
    hide SparseImage;
  }

  lemma CountOf(rs: seq<Record>)
    requires |rs| < 0x1_0000_0000
    ensures var p := PayloadBytes(rs);
            && Read32(p, 0) == |rs| && p[4..] == Serialize(rs) && |p| == 4 + |Serialize(rs)|
  {
    hide Serialize;
    Widths();
    var p := PayloadBytes(rs);
    assert p[0..4] == Le(|rs|, 4);
    FieldOfLe(p, 0, 4, |rs|);
  }

  /** A payload that restores is such a serialization; there are no others. */
  lemma RestoredIsList(p: seq<byte>, count: nat) returns (rs: seq<Record>)
    requires RestoreOf(p, VERSION, count) == Restored
    ensures p == PayloadBytes(rs) && |rs| == count && AllRestorable(rs)
  {
    hide Serialize, Le, UnLe, PassFrom, CheckRecord, Restorable, ValidRelativePath;
    ThreePasses(p, VERSION, count);
    rs := PassReads(p, 4, 0, count, Namespace);
    FieldBytes(p, 0, 4);
    assert p == p[0..4] + p[4..];
    RestoreExactly(rs);
  }

  /** A one-file sync of a writer's list is a writer's list again. */
  lemma SyncKeepsWriter(rs: seq<Record>, target: Name, live: Inode, includeMetadata: bool)
    requires WriterList(rs) && |rs| < 0x1_0000_0000 && SparseImage(live.data)
    requires FileSyncOf(PayloadBytes(rs), |rs|, target, live, includeMetadata).Payload?
    ensures WriterList(FileSyncOf(PayloadBytes(rs), |rs|, target, live, includeMetadata).records)
  {
    hide Serialize, RecordBytes, Restorable, Le, FileSyncOf;
    var next := FileSyncOf(PayloadBytes(rs), |rs|, target, live, includeMetadata).records;
    var was := FileSyncRecords(rs, target, live, includeMetadata);
    hide PayloadBytes;
    forall i | 0 <= i < |next|
      ensures Restorable(next[i])
    {
      if i == |next| - 1 {
        MergedRestorable(was, live, includeMetadata);
      } else {
        assert next[i] == Without(rs, target)[i];
        WithoutIsPart(rs, target, i);
      }
    }
  }

  lemma MergedRestorable(r: Record, live: Inode, includeMetadata: bool)
    requires Restorable(r) && SparseImage(live.data)
    ensures Restorable(Merged(r, live, includeMetadata))
  {
    hide ValidRelativePath, SparseImage;
  }

  lemma {:induction false} WithoutIsPart(rs: seq<Record>, target: Name, i: nat)
    requires i < |Without(rs, target)|
    ensures Without(rs, target)[i] in rs
  {
    if rs[0].path == target {
      WithoutIsPart(rs[1..], target, i);
    } else if i > 0 {
      WithoutIsPart(rs[1..], target, i - 1);
    }
  }

  /** The list a successful construction yields, over a list it started from. */
  lemma FileSyncRecords(rs: seq<Record>, target: Name, live: Inode, includeMetadata: bool) returns (was: Record)
    requires FileSyncOf(PayloadBytes(rs), |rs|, target, live, includeMetadata).Payload?
    ensures was in rs && was.path == target && was.kind in {KIND_FILE, KIND_SPARSE}
    ensures FileSyncOf(PayloadBytes(rs), |rs|, target, live, includeMetadata).records
            == Without(rs, target) + [Merged(was, live, includeMetadata)]
    ensures |PayloadBytes(Without(rs, target) + [Merged(was, live, includeMetadata)])| <= MAX_PAYLOAD
  {
    hide ScanFrom, RecordBytes, Serialize, Le, UnLe;
    var p := PayloadBytes(rs);
    var found := ScanMeaning(p, 4, 0, |rs|, target, [], NotYet);
    assert p[4..] == Serialize(rs);
    SerializeInjective(rs, found);
    var scan := ScanFrom(p, 4, 0, |rs|, target, [], NotYet);
    was := scan.target;
    assert [] + Without(rs, target) == Without(rs, target);
    assert AsSeq(NotYet) + Named(rs, target) == Named(rs, target);
    assert was == Named(rs, target)[0];
    NamedIsPart(rs, target, 0);
    NamedHolds(rs, target);
    ScanKind(p, 4, 0, |rs|, target, [], NotYet);
    var listed := FileSyncMeaning(p, |rs|, target, live, includeMetadata);
  }

  lemma {:induction false} NamedIsPart(rs: seq<Record>, target: Name, i: nat)
    requires i < |Named(rs, target)|
    ensures Named(rs, target)[i] in rs
  {
    if rs[0].path != target {
      NamedIsPart(rs[1..], target, i);
    } else if i > 0 {
      NamedIsPart(rs[1..], target, i - 1);
    }
  }

  // ------------------------------------------------- the code, step by step

  /** One record of a pass. */
  lemma PassRound(p: seq<byte>, offset: nat, index: nat, count: nat, hs: nat, pass: Pass)
    requires offset <= |p| && index <= count && 8 <= hs
    ensures PassFrom(p, offset, index, count, hs, pass)
            == if index == count then if offset != |p| then RestoreCorrupt else Restored
               else if offset + hs > |p| then RestoreCorrupt
               else if !(1 <= p[offset] <= 5) then RestoreCorrupt
               else
                 var body, pathLength, dataLength := offset + hs, p[offset + 1] as nat, Read32(p, offset + 4);
                 if pathLength == 0 || body + pathLength > |p| then RestoreCorrupt
                 else if !ValidRelativePath(p[body..body + pathLength]) then RestoreCorrupt
                 else if body + pathLength + dataLength > |p| then RestoreCorrupt
                 else
                   var end := body + pathLength + dataLength;
                   match CheckRecord(pass, p[offset], p[body..body + pathLength], p[body + pathLength..end])
                   case Restored => PassFrom(p, end, index + 1, count, hs, pass)
                   case e => e
  {
    hide ValidRelativePath, CheckRecord, Read32;
  }

  /** `restorePass` and `restoreMetadataPass`, with every operation on the file
      tree succeeding. */
  method RestorePass(payload: array<byte>, length: nat, count: nat, hs: nat, pass: Pass) returns (r: RestoreResult)
    requires 4 <= length <= payload.Length && 8 <= hs
    ensures r == PassFrom(payload[..length], 4, 0, count, hs, pass)
  {
    hide ValidRelativePath, CheckRecord, Read32, PassFrom;
    var p := payload[..length];
    var offset: nat := 4;
    for index := 0 to count
      invariant offset <= length
      invariant PassFrom(p, 4, 0, count, hs, pass) == PassFrom(p, offset, index, count, hs, pass)
    {
      PassRound(p, offset, index, count, hs, pass);
      if offset + hs > length {
        return RestoreCorrupt;
      }
      var kind, pathLength, dataLength := p[offset], p[offset + 1] as nat, Read32(p, offset + 4);
      if !(1 <= kind <= 5) {
        return RestoreCorrupt;
      }
      var body := offset + hs;
      if pathLength == 0 || body + pathLength > length {
        return RestoreCorrupt;
      }
      var path := p[body..body + pathLength];
      if !ValidRelativePath(path) {
        return RestoreCorrupt;
      }
      var end := body + pathLength + dataLength;
      if end > length {
        return RestoreCorrupt;
      }
      var verdict := CheckRecord(pass, kind, path, p[body + pathLength..end]);
      if verdict != Restored {
        return verdict;
      }
      offset := end;
    }
    PassRound(p, offset, count, count, hs, pass);
    return if offset != length then RestoreCorrupt else Restored;
  }

  /** `restore`: the count word and the three passes in their order. */
  method RestorePayload(payload: array<byte>, length: nat, version: nat, recordCount: nat) returns (r: RestoreResult)
    requires length <= payload.Length
    ensures r == RestoreOf(payload[..length], version, recordCount)
  {
    hide PassFrom, UnLe;
    if length < 4 {
      return RestoreCorrupt;
    }
    var count := Read32(payload[..length], 0);
    if count != recordCount {
      return RestoreCorrupt;
    }
    r := RestorePass(payload, length, count, HeaderSizeOf(version), Namespace);
    if r == Restored {
      r := RestorePass(payload, length, count, HeaderSizeOf(version), Links);
    }
    if r == Restored {
      r := RestorePass(payload, length, count, HeaderSizeOf(version), Metadata);
    }
  }
}
