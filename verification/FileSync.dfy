// One-file durability (`fsync` and `fdatasync`, syncFileRecord in
// src/runtime_persist.zig): the next payload is the committed one with the
// target's record replaced and every other committed record copied.
module FileSync {
  import opened Bytes
  import opened JournalFormat
  import opened JournalRecords
  import opened Paths

  const KIND_FILE: byte := 2
  const KIND_SPARSE: byte := 5

  /** What the live inode contributes to its record. */
  datatype Inode = Inode(mode: u16, times: Times, owner: Owner, data: Contents)

  /** The record persisted for the target: `fsync` takes everything from the
      live inode, `fdatasync` only the contents and the modification tick. */
  function Merged(committed: Record, live: Inode, includeMetadata: bool): Record {
    Record(KIND_SPARSE, committed.path,
           if includeMetadata then live.mode else committed.mode,
           if includeMetadata then live.times else committed.times.(modified := live.times.modified),
           if includeMetadata then live.owner else committed.owner,
           live.data)
  }

  datatype SyncError = Corrupt | Unsupported | NoRoom | InvalidRecord

  datatype Scan = ScanFailed(error: SyncError) | Scanned(kept: seq<Record>, target: Record)

  datatype Found = NotYet | Once(record: Record)

  /** The record scan of `syncFileRecord` from record `index` at `offset`. */
  function ScanFrom(p: seq<byte>, offset: nat, index: nat, count: nat, target: Name, kept: seq<Record>, found: Found): Scan
    requires offset <= |p| && index <= count
    decreases count - index
  {
    if index == count then
      if offset != |p| then ScanFailed(Corrupt)
      else match found case NotYet => ScanFailed(Unsupported) case Once(r) => Scanned(kept, r)
    else if offset + RECORD_HEADER_SIZE > |p| then ScanFailed(Corrupt)
    else if !(1 <= p[offset] <= 5) then ScanFailed(Corrupt)
    else if PathLength(p, offset) == 0 || offset + RECORD_HEADER_SIZE + PathLength(p, offset) > |p| then ScanFailed(Corrupt)
    else if !ValidRelativePath(p[offset + RECORD_HEADER_SIZE..offset + RECORD_HEADER_SIZE + PathLength(p, offset)])
            || RecordEnd(p, offset) > |p| then ScanFailed(Corrupt)
    else
      var r := RecordAt(p, offset);
      if r.path == target then
        if found.Once? || (r.kind != KIND_FILE && r.kind != KIND_SPARSE) then ScanFailed(Unsupported)
        else ScanFrom(p, RecordEnd(p, offset), index + 1, count, target, kept, Once(r))
      else if 4 + |Serialize(kept)| + (RecordEnd(p, offset) - offset) > MAX_PAYLOAD then ScanFailed(NoRoom)
      else ScanFrom(p, RecordEnd(p, offset), index + 1, count, target, kept + [r], found)
  }

  datatype Built = BuildFailed(error: SyncError) | Payload(records: seq<Record>)

  /** The whole payload construction. */
  function FileSyncOf(p: seq<byte>, count: nat, target: Name, live: Inode, includeMetadata: bool): Built
    requires 4 <= |p|
  {
    if Read32(p, 0) != count then BuildFailed(Corrupt)
    else match ScanFrom(p, 4, 0, count, target, [], NotYet)
      case ScanFailed(e) => BuildFailed(e)
      case Scanned(kept, committed) =>
        var r := Merged(committed, live, includeMetadata);
        if |r.path| == 0 || |r.data| > MAX_RECORD_DATA then BuildFailed(InvalidRecord)
        else if 4 + |Serialize(kept)| + |RecordBytes(r)| > MAX_PAYLOAD then BuildFailed(NoRoom)
        else Payload(kept + [r])
  }

  // ------------------------------------------------------- what it means

  /** The records under other names, in order. */
  function Without(rs: seq<Record>, path: Name): seq<Record> {
    if |rs| == 0 then []
    else if rs[0].path == path then Without(rs[1..], path)
    else [rs[0]] + Without(rs[1..], path)
  }

  /** The records under one name, in order. */
  function Named(rs: seq<Record>, path: Name): seq<Record> {
    if |rs| == 0 then []
    else if rs[0].path == path then [rs[0]] + Named(rs[1..], path)
    else Named(rs[1..], path)
  }

  lemma {:induction false} NamedConcat(a: seq<Record>, b: seq<Record>, path: Name)
    ensures Named(a + b, path) == Named(a, path) + Named(b, path)
  {
    if |a| == 0 {
      assert a + b == b;
    } else {
      assert (a + b)[0] == a[0] && (a + b)[1..] == a[1..] + b;
      NamedConcat(a[1..], b, path);
    }
  }

  lemma {:induction false} NamedWithout(rs: seq<Record>, gone: Name, path: Name)
    ensures Named(Without(rs, gone), path) == if gone == path then [] else Named(rs, path)
  {
    if |rs| > 0 {
      NamedWithout(rs[1..], gone, path);
      if rs[0].path != gone {
        assert Without(rs, gone)[1..] == Without(rs[1..], gone);
      }
    }
  }

  function AsSeq(f: Found): seq<Record> {
    match f case NotYet => [] case Once(r) => [r]
  }

  /** A record accepted by the kernel's scan. */
  predicate ScanOk(p: seq<byte>, offset: nat) {
    && offset + RECORD_HEADER_SIZE <= |p| && 1 <= p[offset] <= 5 && PathLength(p, offset) != 0
    && RecordEnd(p, offset) <= |p|
    && ValidRelativePath(p[offset + RECORD_HEADER_SIZE..offset + RECORD_HEADER_SIZE + PathLength(p, offset)])
  }

  lemma ScanStep(p: seq<byte>, offset: nat, index: nat, count: nat, target: Name, kept: seq<Record>, found: Found)
    requires offset <= |p| && index < count && ScanFrom(p, offset, index, count, target, kept, found).Scanned?
    ensures ScanOk(p, offset)
    ensures var r, end := RecordAt(p, offset), RecordEnd(p, offset);
            ScanFrom(p, offset, index, count, target, kept, found)
            == if r.path == target then ScanFrom(p, end, index + 1, count, target, kept, Once(r))
               else ScanFrom(p, end, index + 1, count, target, kept + [r], found)
    ensures RecordAt(p, offset).path == target ==>
              found.NotYet? && RecordAt(p, offset).kind in {KIND_FILE, KIND_SPARSE}
  {
  }

  /** A successful scan read the payload as a list of records, kept exactly the
      ones under other names and found exactly one under the target's. */
  lemma {:induction false} ScanMeaning(p: seq<byte>, offset: nat, index: nat, count: nat, target: Name,
                                       kept: seq<Record>, found: Found)
    returns (rs: seq<Record>)
    requires offset <= |p| && index <= count && ScanFrom(p, offset, index, count, target, kept, found).Scanned?
    ensures p[offset..] == Serialize(rs) && |rs| == count - index
    ensures ScanFrom(p, offset, index, count, target, kept, found).kept == kept + Without(rs, target)
    ensures AsSeq(found) + Named(rs, target) == [ScanFrom(p, offset, index, count, target, kept, found).target]
    decreases count - index
  {
    hide RecordAt, RecordEnd, RecordBytes, ScanOk, ValidRelativePath;
    if index == count {
      rs := [];
      assert kept + Without(rs, target) == kept;
    } else {
      ScanStep(p, offset, index, count, target, kept, found);
      ScanBounds(p, offset);
      BytesOfRecordAt(p, offset);
      var r, end := RecordAt(p, offset), RecordEnd(p, offset);
      hide ScanFrom;
      var more;
      if r.path == target {
        more := ScanMeaning(p, end, index + 1, count, target, kept, Once(r));
      } else {
        more := ScanMeaning(p, end, index + 1, count, target, kept + [r], found);
        assert kept + [r] + Without(more, target) == kept + ([r] + Without(more, target));
      }
      rs := [r] + more;
      assert rs[1..] == more && rs[0] == r;
      SplitTail(p, offset, end);
    }
  }

  lemma SplitTail(p: seq<byte>, a: nat, b: nat)
    requires a <= b <= |p|
    ensures p[a..] == p[a..b] + p[b..]
  {
  }

  lemma ScanBounds(p: seq<byte>, offset: nat)
    requires ScanOk(p, offset)
    ensures offset + RECORD_HEADER_SIZE <= |p| && RecordEnd(p, offset) <= |p|
  {
  }

  /** What a sync leaves of the target's record: the live contents and
      modification tick always, the rest of the metadata only after `fsync`. */
  predicate SyncedRecord(was: Record, is_: Record, live: Inode, includeMetadata: bool) {
    && is_.data == live.data && is_.times.modified == live.times.modified
    && (if includeMetadata then is_.mode == live.mode && is_.owner == live.owner && is_.times == live.times
        else is_.mode == was.mode && is_.owner == was.owner && is_.times == was.times.(modified := live.times.modified))
  }

  /** Selective durability of one call. The committed payload is a record list
      with exactly one record under the target's name; the next payload lists
      the same records under every other name, unchanged and in order, and for
      the target one record carrying the new contents and modification tick.
      After `fdatasync` its mode, owner and the other three ticks are the
      committed ones; after `fsync` all of them are the live ones. */
  lemma FileSyncMeaning(p: seq<byte>, count: nat, target: Name, live: Inode, includeMetadata: bool)
    returns (rs: seq<Record>)
    requires 4 <= |p| && FileSyncOf(p, count, target, live, includeMetadata).Payload?
    ensures var next := FileSyncOf(p, count, target, live, includeMetadata).records;
            && p == PayloadBytes(rs) && |rs| == count && |next| == count
            && |PayloadBytes(next)| <= MAX_PAYLOAD
            && (forall q: Name :: q != target ==> Named(next, q) == Named(rs, q))
            && |Named(rs, target)| == 1 && |Named(next, target)| == 1
            && var was, is_ := Named(rs, target)[0], Named(next, target)[0];
               SyncedRecord(was, is_, live, includeMetadata) && is_.kind == KIND_SPARSE
  {
    hide ScanFrom, RecordBytes, Serialize, Le, UnLe;
    var next := FileSyncOf(p, count, target, live, includeMetadata).records;
    rs := ScanMeaning(p, 4, 0, count, target, [], NotYet);
    var kept := ScanFrom(p, 4, 0, count, target, [], NotYet).kept;
    var committed := ScanFrom(p, 4, 0, count, target, [], NotYet).target;
    assert [] + Without(rs, target) == Without(rs, target);
    assert AsSeq(NotYet) + Named(rs, target) == Named(rs, target);
    FieldBytes(p, 0, 4);
    assert p == p[0..4] + p[4..];
    Replaced(rs, committed, Merged(committed, live, includeMetadata), target);
    SerializedSize(kept, Merged(committed, live, includeMetadata));
  }

  /** Replacing the one record under a name, on record lists. */
  lemma Replaced(rs: seq<Record>, committed: Record, r: Record, target: Name)
    requires Named(rs, target) == [committed] && r.path == committed.path
    ensures committed.path == target
    ensures var next := Without(rs, target) + [r];
            && |next| == |rs| && Named(next, target) == [r]
            && (forall q: Name :: q != target ==> Named(next, q) == Named(rs, q))
  {
    NamedHolds(rs, target);
    assert committed == Named(rs, target)[0];
    forall q: Name
      ensures Named(Without(rs, target) + [r], q) == if q == target then [r] else Named(rs, q)
    {
      NamedConcat(Without(rs, target), [r], q);
      NamedWithout(rs, target, q);
      NamedOne(r, q);
      assert [] + [r] == [r] && Named(rs, q) + [] == Named(rs, q);
    }
    WithoutLength(rs, target);
  }

  lemma NamedOne(r: Record, q: Name)
    ensures Named([r], q) == if r.path == q then [r] else []
  {
    assert [r][1..] == [];
  }

  lemma {:induction false} NamedHolds(rs: seq<Record>, path: Name)
    ensures forall i :: 0 <= i < |Named(rs, path)| ==> Named(rs, path)[i].path == path
  {
    if |rs| > 0 {
      NamedHolds(rs[1..], path);
    }
  }

  lemma {:induction false} WithoutLength(rs: seq<Record>, path: Name)
    ensures |Without(rs, path)| + |Named(rs, path)| == |rs|
  {
    if |rs| > 0 {
      WithoutLength(rs[1..], path);
    }
  }

  lemma SerializedSize(kept: seq<Record>, r: Record)
    ensures |Serialize(kept + [r])| == |Serialize(kept)| + |RecordBytes(r)|
  {
    SerializeConcat(kept, [r]);
    assert [r][1..] == [];
    assert Serialize([r]) == RecordBytes(r) + [];
  }

  /** The room test inside the scan never fires: what is kept is a part of
      what was read. */
  lemma {:induction false} ScanNeverFull(p: seq<byte>, offset: nat, index: nat, count: nat, target: Name,
                                         kept: seq<Record>, found: Found)
    requires 4 <= offset <= |p| <= MAX_PAYLOAD && index <= count && 4 + |Serialize(kept)| <= offset
    ensures ScanFrom(p, offset, index, count, target, kept, found) != ScanFailed(NoRoom)
    decreases count - index
  {
    hide RecordAt, RecordEnd, ValidRelativePath;
    if index < count && offset + RECORD_HEADER_SIZE <= |p| && RecordEnd(p, offset) <= |p| {
      var r, end := RecordAt(p, offset), RecordEnd(p, offset);
      BytesOfRecordAt(p, offset);
      assert |RecordBytes(r)| == end - offset;
      SerializedSize(kept, r);
      ScanNeverFull(p, end, index + 1, count, target, kept, Once(r));
      ScanNeverFull(p, end, index + 1, count, target, kept + [r], found);
    }
  }

  /** The records a kernel writer produces: a known kind and a path restore
      accepts. */
  ghost predicate KernelRecords(rs: seq<Record>) {
    forall i :: 0 <= i < |rs| ==> 1 <= rs[i].kind <= 5 && ValidRelativePath(rs[i].path)
  }

  lemma ScanTake(p: seq<byte>, offset: nat, index: nat, count: nat, target: Name, kept: seq<Record>, found: Found)
    requires offset <= |p| && index < count && ScanOk(p, offset)
    requires var r := RecordAt(p, offset);
             if r.path == target then found.NotYet? && r.kind in {KIND_FILE, KIND_SPARSE}
             else 4 + |Serialize(kept)| + (RecordEnd(p, offset) - offset) <= MAX_PAYLOAD
    ensures var r, end := RecordAt(p, offset), RecordEnd(p, offset);
            ScanFrom(p, offset, index, count, target, kept, found)
            == if r.path == target then ScanFrom(p, end, index + 1, count, target, kept, Once(r))
               else ScanFrom(p, end, index + 1, count, target, kept + [r], found)
  {
  }

  lemma ScanOkOfBytes(p: seq<byte>, offset: nat, r: Record)
    requires offset + |RecordBytes(r)| <= |p| && p[offset..offset + |RecordBytes(r)|] == RecordBytes(r)
    requires 1 <= r.kind <= 5 && ValidRelativePath(r.path)
    ensures ScanOk(p, offset) && RecordAt(p, offset) == r && RecordEnd(p, offset) == offset + |RecordBytes(r)|
  {
    RecordAtOfBytes(p, offset, r);
  }

  /** The scan accepts every serialized list of kernel records that has exactly
      one record, of a file, under the target's name. */
  lemma {:induction false} ScanOfSerialized(p: seq<byte>, offset: nat, index: nat, target: Name, kept: seq<Record>,
                                            found: Found, rest: seq<Record>)
    requires KernelRecords(rest) && offset <= |p| <= MAX_PAYLOAD && p[offset..] == Serialize(rest)
    requires 4 + |Serialize(kept)| <= offset
    requires |AsSeq(found) + Named(rest, target)| == 1
    requires (AsSeq(found) + Named(rest, target))[0].kind in {KIND_FILE, KIND_SPARSE}
    ensures ScanFrom(p, offset, index, index + |rest|, target, kept, found)
            == Scanned(kept + Without(rest, target), (AsSeq(found) + Named(rest, target))[0])
    decreases |rest|
  {
    hide RecordAt, RecordEnd, RecordBytes, ValidRelativePath, ScanOk, ScanFrom, Serialize, Named, Without;
    ListStep(rest, target);
    if |rest| == 0 {
      SerializeStep(rest);
      ScanDone(p, offset, index, target, kept, found);
      assert kept + [] == kept && AsSeq(found) + [] == AsSeq(found);
    } else {
      var r, more := rest[0], rest[1..];
      HeadOfSerialized(p, offset, rest);
      ScanOkOfBytes(p, offset, r);
      var end := offset + |RecordBytes(r)|;
      SerializedSize(kept, r);
      ScanTake(p, offset, index, index + |rest|, target, kept, found);
      if r.path == target {
        assert AsSeq(Once(r)) + Named(more, target) == AsSeq(found) + Named(rest, target);
        ScanOfSerialized(p, end, index + 1, target, kept, Once(r), more);
      } else {
        assert kept + [r] + Without(more, target) == kept + ([r] + Without(more, target));
        ScanOfSerialized(p, end, index + 1, target, kept + [r], found, more);
      }
    }
  }

  lemma ListStep(rs: seq<Record>, path: Name)
    ensures |rs| == 0 ==> Named(rs, path) == [] && Without(rs, path) == []
    ensures |rs| > 0 ==>
              && Named(rs, path) == (if rs[0].path == path then [rs[0]] else []) + Named(rs[1..], path)
              && Without(rs, path) == (if rs[0].path == path then [] else [rs[0]]) + Without(rs[1..], path)
  {
  }

  lemma HeadOfSerialized(p: seq<byte>, offset: nat, rest: seq<Record>)
    requires offset <= |p| && 0 < |rest| && p[offset..] == Serialize(rest)
    ensures var end := offset + |RecordBytes(rest[0])|;
            && end <= |p| && p[offset..end] == RecordBytes(rest[0]) && p[end..] == Serialize(rest[1..])
  {
    hide RecordBytes;
    var bytes, end := RecordBytes(rest[0]), offset + |RecordBytes(rest[0])|;
    assert p[offset..] == bytes + Serialize(rest[1..]);
    assert p[offset..end] == p[offset..][..|bytes|];
    assert p[end..] == p[offset..][|bytes|..];
  }

  lemma SerializeStep(rs: seq<Record>)
    ensures Serialize(rs) == if |rs| == 0 then [] else RecordBytes(rs[0]) + Serialize(rs[1..])
  {
  }

  lemma NonEmptyPath(p: Name)
    ensures ValidRelativePath(p) ==> |p| != 0
  {
  }

  lemma ScanDone(p: seq<byte>, offset: nat, index: nat, target: Name, kept: seq<Record>, found: Found)
    requires offset == |p| && found.Once?
    ensures ScanFrom(p, offset, index, index, target, kept, found) == Scanned(kept, found.record)
  {
  }

  lemma ScanUnsupported(p: seq<byte>, offset: nat, index: nat, count: nat, target: Name, kept: seq<Record>, found: Found)
    requires offset <= |p| && index <= count
    ensures index < count && ScanOk(p, offset) && RecordAt(p, offset).path == target
            && (found.Once? || RecordAt(p, offset).kind !in {KIND_FILE, KIND_SPARSE})
            ==> ScanFrom(p, offset, index, count, target, kept, found) == ScanFailed(Unsupported)
    ensures index == count && offset == |p| && found.NotYet? ==>
              ScanFrom(p, offset, index, count, target, kept, found) == ScanFailed(Unsupported)
  {
  }

  /** Exactly one of the records found so far and to come is the target's, and
      it is a file's. */
  predicate OneFile(found: Found, rest: seq<Record>, target: Name) {
    |AsSeq(found) + Named(rest, target)| == 1 && (AsSeq(found) + Named(rest, target))[0].kind in {KIND_FILE, KIND_SPARSE}
  }

  /** The scan refuses every other list as not supported. */
  lemma {:induction false} ScanRefuses(p: seq<byte>, offset: nat, index: nat, target: Name, kept: seq<Record>,
                                       found: Found, rest: seq<Record>)
    requires KernelRecords(rest) && offset <= |p| <= MAX_PAYLOAD && p[offset..] == Serialize(rest)
    requires 4 + |Serialize(kept)| <= offset && !OneFile(found, rest, target)
    requires found.Once? ==> found.record.kind in {KIND_FILE, KIND_SPARSE}
    ensures ScanFrom(p, offset, index, index + |rest|, target, kept, found) == ScanFailed(Unsupported)
    decreases |rest|
  {
    hide RecordAt, RecordEnd, RecordBytes, ValidRelativePath, ScanOk, ScanFrom, Serialize, Named, Without;
    ListStep(rest, target);
    ScanUnsupported(p, offset, index, index + |rest|, target, kept, found);
    if |rest| == 0 {
      SerializeStep(rest);
    } else {
      var r, more := rest[0], rest[1..];
      HeadOfSerialized(p, offset, rest);
      ScanOkOfBytes(p, offset, r);
      var end := offset + |RecordBytes(r)|;
      SerializedSize(kept, r);
      if r.path == target {
        if found.NotYet? && r.kind in {KIND_FILE, KIND_SPARSE} {
          ScanTake(p, offset, index, index + |rest|, target, kept, found);
          assert AsSeq(Once(r)) + Named(more, target) == AsSeq(found) + Named(rest, target);
          ScanRefuses(p, end, index + 1, target, kept, Once(r), more);
        }
      } else {
        ScanTake(p, offset, index, index + |rest|, target, kept, found);
        ScanRefuses(p, end, index + 1, target, kept + [r], found, more);
      }
    }
  }

  /** How a sync of a file fails over a committed list of kernel records. */
  lemma FileSyncErrors(rs: seq<Record>, target: Name, live: Inode, includeMetadata: bool)
    requires KernelRecords(rs) && |PayloadBytes(rs)| <= MAX_PAYLOAD && |rs| < 0x1_0000_0000
    requires FileSyncOf(PayloadBytes(rs), |rs|, target, live, includeMetadata).BuildFailed?
    ensures FileSyncOf(PayloadBytes(rs), |rs|, target, live, includeMetadata).error
            == if !(|Named(rs, target)| == 1 && Named(rs, target)[0].kind in {KIND_FILE, KIND_SPARSE}) then Unsupported
               else if |live.data| > 32773 then InvalidRecord else NoRoom
  {
    hide ScanFrom, RecordBytes, Serialize, Le, UnLe, ValidRelativePath;
    var p := PayloadBytes(rs);
    Widths();
    assert p[0..4] == Le(|rs|, 4) && p[4..] == Serialize(rs);
    FieldOfLe(p, 0, 4, |rs|);
    assert AsSeq(NotYet) + Named(rs, target) == Named(rs, target);
    SerializeStep([]);
    if OneFile(NotYet, rs, target) {
      ScanOfSerialized(p, 4, 0, target, [], NotYet, rs);
      NamedHolds(rs, target);
      NamedIn(rs, target);
      NonEmptyPath(target);
    } else {
      ScanRefuses(p, 4, 0, target, [], NotYet, rs);
    }
  }

  /** When `fsync` and `fdatasync` build a payload at all: over every committed
      list of kernel records, exactly when one record, of a file, is under the
      target's name and the result stays within a slot. */
  lemma FileSyncSucceeds(rs: seq<Record>, target: Name, live: Inode, includeMetadata: bool)
    requires KernelRecords(rs) && |PayloadBytes(rs)| <= MAX_PAYLOAD && |rs| < 0x1_0000_0000
    ensures var built := FileSyncOf(PayloadBytes(rs), |rs|, target, live, includeMetadata);
            built.Payload? <==>
              && |Named(rs, target)| == 1 && Named(rs, target)[0].kind in {KIND_FILE, KIND_SPARSE}
              && |live.data| <= MAX_RECORD_DATA
              && 4 + |Serialize(Without(rs, target))| + RECORD_HEADER_SIZE + |target| + |live.data| <= MAX_PAYLOAD
  {
    hide ScanFrom, RecordBytes, Serialize, Le, UnLe, ValidRelativePath;
    var p := PayloadBytes(rs);
    Widths();
    assert p[0..4] == Le(|rs|, 4) && p[4..] == Serialize(rs);
    FieldOfLe(p, 0, 4, |rs|);
    assert AsSeq(NotYet) + Named(rs, target) == Named(rs, target);
    assert [] + Without(rs, target) == Without(rs, target);
    NamedHolds(rs, target);
    var built := FileSyncOf(p, |rs|, target, live, includeMetadata);
    if |Named(rs, target)| == 1 && Named(rs, target)[0].kind in {KIND_FILE, KIND_SPARSE} {
      SerializeStep([]);
      ScanOfSerialized(p, 4, 0, target, [], NotYet, rs);
      NamedIn(rs, target);
      NonEmptyPath(target);
    } else if built.Payload? {
      var qs := ScanMeaning(p, 4, 0, |rs|, target, [], NotYet);
      SerializeInjective(rs, qs);
      ScanKind(p, 4, 0, |rs|, target, [], NotYet);
    }
  }

  lemma {:induction false} NamedIn(rs: seq<Record>, path: Name)
    ensures forall i :: 0 <= i < |Named(rs, path)| ==> Named(rs, path)[i] in rs
  {
    if |rs| > 0 {
      NamedIn(rs[1..], path);
    }
  }

  lemma {:induction false} ScanKind(p: seq<byte>, offset: nat, index: nat, count: nat, target: Name,
                                    kept: seq<Record>, found: Found)
    requires offset <= |p| && index <= count && ScanFrom(p, offset, index, count, target, kept, found).Scanned?
    requires found.Once? ==> found.record.kind in {KIND_FILE, KIND_SPARSE}
    ensures ScanFrom(p, offset, index, count, target, kept, found).target.kind in {KIND_FILE, KIND_SPARSE}
    decreases count - index
  {
    hide RecordAt, RecordEnd, ScanOk;
    if index < count {
      ScanStep(p, offset, index, count, target, kept, found);
      ScanBounds(p, offset);
      var r, end := RecordAt(p, offset), RecordEnd(p, offset);
      if r.path == target {
        ScanKind(p, end, index + 1, count, target, kept, Once(r));
      } else {
        ScanKind(p, end, index + 1, count, target, kept + [r], found);
      }
    }
  }

  /** Serialization is injective on lists of one length. */
  lemma {:induction false} SerializeInjective(a: seq<Record>, b: seq<Record>)
    requires |a| == |b| && Serialize(a) == Serialize(b)
    ensures a == b
  {
    hide RecordAt, RecordEnd, RecordBytes;
    if |a| > 0 {
      var p := Serialize(a);
      assert p[0..|RecordBytes(a[0])|] == RecordBytes(a[0]) && p[0..|RecordBytes(b[0])|] == RecordBytes(b[0]);
      RecordAtOfBytes(p, 0, a[0]);
      RecordAtOfBytes(p, 0, b[0]);
      assert Serialize(a[1..]) == p[|RecordBytes(a[0])|..] == Serialize(b[1..]);
      SerializeInjective(a[1..], b[1..]);
      assert a == [a[0]] + a[1..] && b == [b[0]] + b[1..];
    }
  }

  // ------------------------------------------------- the code, step by step

  datatype BuildResult = Failure(error: SyncError) | Snapshotted(length: nat, count: nat)

  datatype Copied = CopyFailed(error: SyncError) | CopyDone(committed: Record, output: nat, count: nat)

  lemma SpliceTail(dst: seq<byte>, offset: nat, src: seq<byte>)
    requires 4 <= offset && offset + |src| <= |dst|
    ensures Splice(dst, offset, src)[4..offset + |src|] == dst[4..offset] + src
  {
  }

  /** The record loop of `syncFileRecord`: checks every committed record,
      remembers the target's and copies the bytes of every other one. */
  method CopyOthers(committed: seq<byte>, target: Name, next: array<byte>) returns (r: Copied, ghost kept: seq<Record>)
    requires 4 <= |committed| && next.Length == MAX_PAYLOAD
    modifies next
    ensures match ScanFrom(committed, 4, 0, Read32(committed, 0), target, [], NotYet)
            case ScanFailed(e) => r == CopyFailed(e)
            case Scanned(k, t) =>
              && kept == k && r == CopyDone(t, 4 + |Serialize(k)|, |k|)
              && r.output <= MAX_PAYLOAD && next[4..r.output] == Serialize(k)
  {
    hide RecordAt, RecordEnd, RecordBytes, ValidRelativePath, UnLe, Serialize, Splice;
    SerializeStep([]);
    var count := Read32(committed, 0);
    var input: nat, output: nat, index: nat, copied: nat := 4, 4, 0, 0;
    kept := [];
    var found := NotYet;
    while index < count
      invariant index <= count && input <= |committed| && 4 <= output <= MAX_PAYLOAD && copied == |kept|
      invariant output == 4 + |Serialize(kept)| && next[4..output] == Serialize(kept)
      invariant ScanFrom(committed, 4, 0, count, target, [], NotYet)
             == ScanFrom(committed, input, index, count, target, kept, found)
    {
      var start := input;
      if input + RECORD_HEADER_SIZE > |committed| {
        return CopyFailed(Corrupt), kept;
      }
      if !(1 <= committed[input] <= 5) {
        return CopyFailed(Corrupt), kept;
      }
      var pathLength := PathLength(committed, input);
      input := input + RECORD_HEADER_SIZE;
      if pathLength == 0 || input + pathLength > |committed| {
        return CopyFailed(Corrupt), kept;
      }
      var path := committed[input..input + pathLength];
      var end := RecordEnd(committed, start);
      if !ValidRelativePath(path) || end > |committed| {
        return CopyFailed(Corrupt), kept;
      }
      input := end;
      var record := RecordAt(committed, start);
      BytesOfRecordAt(committed, start);
      if record.path == target {
        if found.Once? || (record.kind != KIND_FILE && record.kind != KIND_SPARSE) {
          return CopyFailed(Unsupported), kept;
        }
        found := Once(record);
      } else {
        var recordLength := input - start;
        if output + recordLength > MAX_PAYLOAD {
          return CopyFailed(NoRoom), kept;
        }
        SpliceTail(next[..], output, committed[start..input]);
        Blit(next, output, committed[start..input]);
        SerializedOne(kept, record);
        output, copied := output + recordLength, copied + 1;
        kept := kept + [record];
      }
      index := index + 1;
    }
    if input != |committed| {
      return CopyFailed(Corrupt), kept;
    }
    match found {
      case NotYet => return CopyFailed(Unsupported), kept;
      case Once(t) => return CopyDone(t, output, copied), kept;
    }
  }

  /** The body of `syncFileRecord` up to the commit: scans the committed
      payload, copies every other record into the transactional buffer and
      appends the target's merged record. */
  method BuildFileSync(payload: array<byte>, length: nat, recordCount: nat, target: Name, live: Inode,
                       includeMetadata: bool, next: array<byte>)
    returns (r: BuildResult)
    requires payload != next && 4 <= length <= payload.Length && next.Length == MAX_PAYLOAD
    modifies next
    ensures match FileSyncOf(payload[..length], recordCount, target, live, includeMetadata)
            case BuildFailed(e) => r == Failure(e)
            case Payload(rs) =>
              && r == Snapshotted(|PayloadBytes(rs)|, |rs|) && |PayloadBytes(rs)| <= MAX_PAYLOAD
              && next[..|PayloadBytes(rs)|] == PayloadBytes(rs)
  {
    hide ScanFrom, RecordBytes, UnLe, Merged, Splice, Le;
    Blit(next, 0, Zeros(MAX_PAYLOAD));
    var committed := payload[..length];
    if Read32(committed, 0) != recordCount {
      return Failure(Corrupt);
    }
    var copied, kept := CopyOthers(committed, target, next);
    if copied.CopyFailed? {
      return Failure(copied.error);
    }
    var output := copied.output;
    var merged := Merged(copied.committed, live, includeMetadata);
    ghost var before := next[..];
    var appended := AppendRecord(next, output, merged);
    if appended.BadRecord? {
      return Failure(InvalidRecord);
    }
    if appended.BufferFull? {
      return Failure(NoRoom);
    }
    SerializedOne(kept, merged);
    var total := copied.count + 1;
    WriteLe(next, 0, total, 4);
    Counted(before, output, RecordBytes(merged), Le(total, 4));
    assert next[..appended.offset] == Le(total, 4) + (Serialize(kept) + RecordBytes(merged));
    return Snapshotted(appended.offset, total);
  }

  /** A record appended at `at` and the count written in front. */
  lemma Counted(buffer: seq<byte>, at: nat, record: seq<byte>, count: seq<byte>)
    requires |count| == 4 <= at && at + |record| <= |buffer|
    ensures Splice(Splice(buffer, at, record), 0, count)[..at + |record|] == count + (buffer[4..at] + record)
  {
  }

  lemma SerializedOne(kept: seq<Record>, r: Record)
    ensures Serialize(kept + [r]) == Serialize(kept) + RecordBytes(r)
  {
    SerializeConcat(kept, [r]);
    assert [r][1..] == [];
    assert Serialize([r]) == RecordBytes(r) + [];
  }
}
