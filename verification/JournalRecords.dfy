// The record payload of a journal slot: the kernel's v3 serializer and the
// host's parse_records, which undo each other in both directions.
module JournalRecords {
  import opened Bytes
  import opened Checksums
  import opened JournalFormat

  const RECORD_HEADER_SIZE: nat := 48
  const MAX_RECORD_DATA: nat := 32768 + 5

  type Name = p: seq<byte> | |p| < 256
  type Contents = d: seq<byte> | |d| < 0x1_0000_0000

  datatype Times = Times(created: u64, modified: u64, changed: u64, accessed: u64)

  datatype Owner = Owner(uid: u32, gid: u32)

  datatype Record = Record(kind: byte, path: Name, mode: u16, times: Times, owner: Owner, data: Contents)

  predicate Ascii(path: seq<byte>) {
    forall i :: 0 <= i < |path| ==> path[i] < 128
  }

  function Paths(rs: seq<Record>): set<seq<byte>> {
    set i | 0 <= i < |rs| :: rs[i].path
  }

  /** What `parse_records` demands of a record list beyond its encoding. */
  ghost predicate Distinct(rs: seq<Record>) {
    forall i, j :: 0 <= i < j < |rs| ==> rs[i].path != rs[j].path
  }

  ghost predicate Hostable(rs: seq<Record>) {
    (forall i :: 0 <= i < |rs| ==> Ascii(rs[i].path)) && Distinct(rs)
  }

  // ---------------------------------------------------------------- encoding

  function RecordHeader(r: Record): (s: seq<byte>)
    ensures |s| == RECORD_HEADER_SIZE
  {
    [r.kind, |r.path|] + Le(r.mode, 2) + Le(|r.data|, 4)
    + Le(r.times.created, 8) + Le(r.times.modified, 8) + Le(r.times.changed, 8) + Le(r.times.accessed, 8)
    + Le(r.owner.uid, 4) + Le(r.owner.gid, 4)
  }

  function RecordBytes(r: Record): (s: seq<byte>)
    ensures |s| == RECORD_HEADER_SIZE + |r.path| + |r.data|
  {
    RecordHeader(r) + r.path + r.data
  }

  function Serialize(rs: seq<Record>): seq<byte>
  {
    if |rs| == 0 then [] else RecordBytes(rs[0]) + Serialize(rs[1..])
  }

  /** The payload of a slot: the record count and the records. */
  function PayloadBytes(rs: seq<Record>): (s: seq<byte>)
    ensures 4 <= |s|
  {
    Le(|rs|, 4) + Serialize(rs)
  }

  lemma {:induction false} SerializeConcat(a: seq<Record>, b: seq<Record>)
    ensures Serialize(a + b) == Serialize(a) + Serialize(b)
  {
    if |a| == 0 {
      assert a + b == b;
    } else {
      assert (a + b)[1..] == a[1..] + b && (a + b)[0] == a[0];
      SerializeConcat(a[1..], b);
    }
  }

  // ---------------------------------------------------------------- parsing

  datatype RecordsError = PayloadTruncated | PayloadCrc | CountMissing | CountMismatch
    | HeaderTruncated(index: nat) | BodyTruncated(index: nat) | NotAscii(index: nat)
    | Duplicate(path: seq<byte>) | TrailingBytes

  datatype ParsedRecords = Failed(error: RecordsError) | Parsed(records: seq<Record>)

  function PathLength(p: seq<byte>, offset: nat): nat
    requires offset + RECORD_HEADER_SIZE <= |p|
  {
    p[offset + 1]
  }

  function RecordEnd(p: seq<byte>, offset: nat): (e: nat)
    requires offset + RECORD_HEADER_SIZE <= |p|
    ensures offset + RECORD_HEADER_SIZE + PathLength(p, offset) <= e
  {
    offset + RECORD_HEADER_SIZE + PathLength(p, offset) + Read32(p, offset + 4)
  }

  function RecordAt(p: seq<byte>, offset: nat): Record
    requires offset + RECORD_HEADER_SIZE <= |p| && RecordEnd(p, offset) <= |p|
  {
    var body := offset + RECORD_HEADER_SIZE;
    Record(p[offset], p[body..body + PathLength(p, offset)], Read16(p, offset + 2),
           Times(Read64(p, offset + 8), Read64(p, offset + 16), Read64(p, offset + 24), Read64(p, offset + 32)),
           Owner(Read32(p, offset + 40), Read32(p, offset + 44)),
           p[body + PathLength(p, offset)..RecordEnd(p, offset)])
  }

  /** The record loop from record `index` of `count` at `offset`, with the
      records already accepted. */
  function ParseFrom(p: seq<byte>, offset: nat, index: nat, count: nat, seen: seq<Record>): ParsedRecords
    requires offset <= |p| && index <= count
    decreases count - index
  {
    if index == count then
      if offset != |p| then Failed(TrailingBytes) else Parsed(seen)
    else if offset + RECORD_HEADER_SIZE > |p| then Failed(HeaderTruncated(index))
    else if RecordEnd(p, offset) > |p| then Failed(BodyTruncated(index))
    else
      var r := RecordAt(p, offset);
      if !Ascii(r.path) then Failed(NotAscii(index))
      else if r.path in Paths(seen) then Failed(Duplicate(r.path))
      else ParseFrom(p, RecordEnd(p, offset), index + 1, count, seen + [r])
  }

  /** `parse_records` on the payload bytes it read. */
  function ParsePayload(p: seq<byte>, crc: nat, count: nat): ParsedRecords {
    if Crc32(p) != crc then Failed(PayloadCrc)
    else if |p| < 4 then Failed(CountMissing)
    else if Read32(p, 0) != count then Failed(CountMismatch)
    else ParseFrom(p, 4, 0, count, [])
  }

  // --------------------------------------------------- one record both ways

  lemma LaidOut(k: seq<byte>, m: seq<byte>, d: seq<byte>, a: seq<byte>, b: seq<byte>, c: seq<byte>, e: seq<byte>,
                u: seq<byte>, g: seq<byte>)
    requires |k| == |m| == 2 && |d| == |u| == |g| == 4 && |a| == |b| == |c| == |e| == 8
    ensures var s := k + m + d + a + b + c + e + u + g;
            && |s| == 48 && s[..2] == k && s[2..4] == m && s[4..8] == d && s[8..16] == a && s[16..24] == b
            && s[24..32] == c && s[32..40] == e && s[40..44] == u && s[44..48] == g
  {
  }

  lemma FieldsOfHeader(r: Record)
    ensures var s := RecordHeader(r);
            && s[0] == r.kind && s[1] == |r.path| && Read16(s, 2) == r.mode && Read32(s, 4) == |r.data|
            && Read64(s, 8) == r.times.created && Read64(s, 16) == r.times.modified
            && Read64(s, 24) == r.times.changed && Read64(s, 32) == r.times.accessed
            && Read32(s, 40) == r.owner.uid && Read32(s, 44) == r.owner.gid
  {
    Widths();
    LaidOut([r.kind, |r.path|], Le(r.mode, 2), Le(|r.data|, 4), Le(r.times.created, 8), Le(r.times.modified, 8),
            Le(r.times.changed, 8), Le(r.times.accessed, 8), Le(r.owner.uid, 4), Le(r.owner.gid, 4));
    var s := RecordHeader(r);
    assert s[0] == s[..2][0] && s[1] == s[..2][1];
    FieldOfLe(s, 2, 2, r.mode); FieldOfLe(s, 4, 4, |r.data|);
    FieldOfLe(s, 8, 8, r.times.created); FieldOfLe(s, 16, 8, r.times.modified);
    FieldOfLe(s, 24, 8, r.times.changed); FieldOfLe(s, 32, 8, r.times.accessed);
    FieldOfLe(s, 40, 4, r.owner.uid); FieldOfLe(s, 44, 4, r.owner.gid);
  }

  /** A serialized record found at `offset` parses to that record. */
  lemma RecordAtOfBytes(p: seq<byte>, offset: nat, r: Record)
    requires offset + |RecordBytes(r)| <= |p|
    requires p[offset..offset + |RecordBytes(r)|] == RecordBytes(r)
    ensures RecordEnd(p, offset) == offset + |RecordBytes(r)|
    ensures RecordAt(p, offset) == r
  {
    hide Le, UnLe;
    var s := RecordHeader(r);
    var whole := RecordBytes(r);
    assert whole[..RECORD_HEADER_SIZE] == s;
    SubSlice(p, offset, whole, 0, RECORD_HEADER_SIZE);
    FieldsOfHeader(r);
    FieldShift(p, offset, s);
    assert p[offset + 0] == s[0] && p[offset + 1] == s[1];
    assert Field(s, 2, 2) == Field(p, offset + 2, 2) && Field(s, 4, 4) == Field(p, offset + 4, 4);
    assert Field(s, 8, 8) == Field(p, offset + 8, 8) && Field(s, 16, 8) == Field(p, offset + 16, 8);
    assert Field(s, 24, 8) == Field(p, offset + 24, 8) && Field(s, 32, 8) == Field(p, offset + 32, 8);
    assert Field(s, 40, 4) == Field(p, offset + 40, 4) && Field(s, 44, 4) == Field(p, offset + 44, 4);
    SubSlice(p, offset, whole, RECORD_HEADER_SIZE, RECORD_HEADER_SIZE + |r.path|);
    SubSlice(p, offset, whole, RECORD_HEADER_SIZE + |r.path|, |whole|);
    assert whole[RECORD_HEADER_SIZE..RECORD_HEADER_SIZE + |r.path|] == r.path;
    assert whole[RECORD_HEADER_SIZE + |r.path|..|whole|] == r.data;
  }

  /** Any parsed record serializes to exactly the bytes it was parsed from. */
  lemma BytesOfRecordAt(p: seq<byte>, offset: nat)
    requires offset + RECORD_HEADER_SIZE <= |p| && RecordEnd(p, offset) <= |p|
    ensures RecordBytes(RecordAt(p, offset)) == p[offset..RecordEnd(p, offset)]
  {
    hide RecordHeader, Le, UnLe, Field;
    HeaderOfRecordAt(p, offset);
    var r := RecordAt(p, offset);
    var body, end := offset + RECORD_HEADER_SIZE, RecordEnd(p, offset);
    SplitTwice(p, offset, body, body + |r.path|, end);
  }

  lemma SplitTwice(p: seq<byte>, a: nat, b: nat, c: nat, d: nat)
    requires a <= b <= c <= d <= |p|
    ensures p[a..d] == p[a..b] + p[b..c] + p[c..d]
  {
  }

  lemma HeaderOfRecordAt(p: seq<byte>, offset: nat)
    requires offset + RECORD_HEADER_SIZE <= |p| && RecordEnd(p, offset) <= |p|
    ensures RecordHeader(RecordAt(p, offset)) == p[offset..offset + RECORD_HEADER_SIZE]
  {
    hide Le, UnLe;
    FieldBytes(p, offset + 2, 2); FieldBytes(p, offset + 4, 4);
    FieldBytes(p, offset + 8, 8); FieldBytes(p, offset + 16, 8); FieldBytes(p, offset + 24, 8);
    FieldBytes(p, offset + 32, 8); FieldBytes(p, offset + 40, 4); FieldBytes(p, offset + 44, 4);
    var r := RecordAt(p, offset);
    assert |r.data| == Field(p, offset + 4, 4);
    assert [r.kind, |r.path|] == p[offset..offset + 2];
    SlicesJoin(p, offset);
  }

  lemma SlicesJoin(p: seq<byte>, o: nat)
    requires o + 48 <= |p|
    ensures p[o..o + 2] + p[o + 2..o + 4] + p[o + 4..o + 8] + p[o + 8..o + 16] + p[o + 16..o + 24]
            + p[o + 24..o + 32] + p[o + 32..o + 40] + p[o + 40..o + 44] + p[o + 44..o + 48] == p[o..o + 48]
  {
    Glue(p, o, o + 2, o + 4); Glue(p, o, o + 4, o + 8); Glue(p, o, o + 8, o + 16); Glue(p, o, o + 16, o + 24);
    Glue(p, o, o + 24, o + 32); Glue(p, o, o + 32, o + 40); Glue(p, o, o + 40, o + 44); Glue(p, o, o + 44, o + 48);
  }

  lemma Glue(p: seq<byte>, a: nat, b: nat, c: nat)
    requires a <= b <= c <= |p|
    ensures p[a..b] + p[b..c] == p[a..c]
  {
  }

  // ------------------------------------------------------------ round trips

  lemma DistinctPrefix(seen: seq<Record>, r: Record, rest: seq<Record>)
    requires Distinct(seen + [r] + rest)
    ensures r.path !in Paths(seen)
  {
    var all := seen + [r] + rest;
    forall i | 0 <= i < |seen|
      ensures seen[i].path != r.path
    {
      assert all[i] == seen[i] && all[|seen|] == r;
    }
  }

  lemma HostableAppend(seen: seq<Record>, r: Record)
    requires Hostable(seen) && Ascii(r.path) && r.path !in Paths(seen)
    ensures Hostable(seen + [r])
  {
    forall i, j | 0 <= i < j < |seen + [r]|
      ensures (seen + [r])[i].path != (seen + [r])[j].path
    {
      if j == |seen| {
        assert seen[i].path in Paths(seen);
      }
    }
  }

  lemma ParseStep(p: seq<byte>, offset: nat, index: nat, count: nat, seen: seq<Record>)
    requires index < count && offset + RECORD_HEADER_SIZE <= |p| && RecordEnd(p, offset) <= |p|
    requires Ascii(RecordAt(p, offset).path) && RecordAt(p, offset).path !in Paths(seen)
    ensures ParseFrom(p, offset, index, count, seen)
            == ParseFrom(p, RecordEnd(p, offset), index + 1, count, seen + [RecordAt(p, offset)])
  {
  }

  lemma {:induction false} ParseOfSerialized(p: seq<byte>, offset: nat, index: nat, seen: seq<Record>, rest: seq<Record>)
    requires (forall i :: 0 <= i < |rest| ==> Ascii(rest[i].path)) && Distinct(seen + rest)
    requires offset <= |p| && p[offset..] == Serialize(rest)
    ensures ParseFrom(p, offset, index, index + |rest|, seen) == Parsed(seen + rest)
    decreases |rest|
  {
    hide RecordAt, RecordEnd, RecordBytes, Ascii, Paths;
    if |rest| == 0 {
      assert seen + rest == seen;
    } else {
      var r, more := rest[0], rest[1..];
      var bytes := RecordBytes(r);
      var end := offset + |bytes|;
      assert p[offset..] == bytes + Serialize(more);
      assert p[offset..end] == p[offset..][..|bytes|] == bytes;
      RecordAtOfBytes(p, offset, r);
      assert p[end..] == p[offset..][|bytes|..] == Serialize(more);
      assert seen + [r] + more == seen + rest;
      DistinctPrefix(seen, r, more);
      ParseStep(p, offset, index, index + |rest|, seen);
      ParseOfSerialized(p, end, index + 1, seen + [r], more);
    }
  }

  lemma {:induction false} SerializedOfParse(p: seq<byte>, offset: nat, index: nat, count: nat, seen: seq<Record>)
    returns (rest: seq<Record>)
    requires offset <= |p| && index <= count
    requires Hostable(seen) && ParseFrom(p, offset, index, count, seen).Parsed?
    ensures ParseFrom(p, offset, index, count, seen) == Parsed(seen + rest)
    ensures Hostable(seen + rest) && |rest| == count - index
    ensures p[offset..] == Serialize(rest)
    decreases count - index
  {
    hide RecordAt, RecordEnd, RecordBytes, Ascii, Paths;
    if index == count {
      rest := [];
      assert seen + rest == seen;
    } else {
      BytesOfRecordAt(p, offset);
      var r, end := RecordAt(p, offset), RecordEnd(p, offset);
      HostableAppend(seen, r);
      ParseStep(p, offset, index, count, seen);
      var more := SerializedOfParse(p, end, index + 1, count, seen + [r]);
      rest := [r] + more;
      assert seen + rest == seen + [r] + more;
      assert p[offset..] == p[offset..end] + p[end..];
      assert rest[1..] == more;
    }
  }

  /** Encode, then parse: for every list of distinct ASCII paths the host
      parser returns exactly the records that were serialized. */
  lemma ParseOfPayload(rs: seq<Record>)
    requires Hostable(rs) && |rs| < 0x1_0000_0000
    ensures var p := PayloadBytes(rs); ParsePayload(p, Crc32(p), |rs|) == Parsed(rs)
  {
    hide Le, UnLe, Serialize, Crc32;
    var p := PayloadBytes(rs);
    Widths();
    assert p[0..4] == Le(|rs|, 4) && p[4..] == Serialize(rs);
    FieldOfLe(p, 0, 4, |rs|);
    assert [] + rs == rs;
    ParseOfSerialized(p, 4, 0, [], rs);
  }

  /** The first record a host refuses, and why. */
  ghost predicate FirstBad(rs: seq<Record>, i: nat)
    requires i < |rs|
  {
    Hostable(rs[..i]) && !Hostable(rs[..i + 1])
  }

  lemma ParseRefuses(p: seq<byte>, offset: nat, index: nat, count: nat, seen: seq<Record>, r: Record)
    requires offset + |RecordBytes(r)| <= |p| && p[offset..offset + |RecordBytes(r)|] == RecordBytes(r) && index < count
    ensures !Ascii(r.path) ==> ParseFrom(p, offset, index, count, seen) == Failed(NotAscii(index))
    ensures Ascii(r.path) && r.path in Paths(seen) ==> ParseFrom(p, offset, index, count, seen) == Failed(Duplicate(r.path))
  {
    hide RecordBytes, RecordAt, Ascii, Paths;
    RecordAtOfBytes(p, offset, r);
  }

  lemma {:induction false} RefusalOfSerialized(p: seq<byte>, offset: nat, seen: seq<Record>, rest: seq<Record>, i: nat)
    requires offset <= |p| && p[offset..] == Serialize(rest)
    requires |seen| <= i < |seen| + |rest| && FirstBad(seen + rest, i)
    ensures var r := (seen + rest)[i];
            ParseFrom(p, offset, |seen|, |seen| + |rest|, seen)
            == Failed(if Ascii(r.path) then Duplicate(r.path) else NotAscii(i))
    decreases |rest|
  {
    hide RecordBytes, RecordAt, RecordEnd, Ascii, Paths, ParseFrom, Hostable;
    var r, more := rest[0], rest[1..];
    var end := offset + |RecordBytes(r)|;
    assert p[offset..] == RecordBytes(r) + Serialize(more);
    assert p[offset..end] == p[offset..][..|RecordBytes(r)|] && p[end..] == p[offset..][|RecordBytes(r)|..];
    assert (seen + rest)[..|seen|] == seen && (seen + rest)[..|seen| + 1] == seen + [r];
    assert seen + rest == seen + [r] + more;
    if i == |seen| {
      ParseRefuses(p, offset, |seen|, |seen| + |rest|, seen, r);
      BadAppend(seen, r);
    } else {
      HostableBefore(seen + rest, i, |seen| + 1);
      HostableParts(seen, r);
      RecordAtOfBytes(p, offset, r);
      ParseStep(p, offset, |seen|, |seen| + |rest|, seen);
      RefusalOfSerialized(p, end, seen + [r], more, i);
    }
  }

  lemma BadAppend(seen: seq<Record>, r: Record)
    requires Hostable(seen) && !Hostable(seen + [r])
    ensures Ascii(r.path) ==> r.path in Paths(seen)
  {
    hide Ascii, Paths, Hostable;
    if Ascii(r.path) && r.path !in Paths(seen) {
      HostableAppend(seen, r);
    }
  }

  lemma HostableParts(seen: seq<Record>, r: Record)
    requires Hostable(seen + [r])
    ensures Ascii(r.path) && r.path !in Paths(seen)
  {
    hide Ascii;
    var s := seen + [r];
    assert s[|seen|] == r && forall k :: 0 <= k < |seen| ==> s[k] == seen[k];
  }

  lemma HostableBefore(rs: seq<Record>, i: nat, k: nat)
    requires k <= i <= |rs| && Hostable(rs[..i])
    ensures Hostable(rs[..k])
  {
    hide Ascii;
    assert forall j :: 0 <= j < k ==> rs[..k][j] == rs[..i][j];
  }

  /** How the host refuses a serialized list: it names the first record whose
      path is not ASCII or was there before. */
  lemma ParseOfUnhostable(rs: seq<Record>, i: nat)
    requires i < |rs| < 0x1_0000_0000 && FirstBad(rs, i)
    ensures var p := PayloadBytes(rs);
            ParsePayload(p, Crc32(p), |rs|) == Failed(if Ascii(rs[i].path) then Duplicate(rs[i].path) else NotAscii(i))
  {
    hide Le, UnLe, Serialize, Crc32, ParseFrom, Hostable;
    var p := PayloadBytes(rs);
    Widths();
    assert p[0..4] == Le(|rs|, 4) && p[4..] == Serialize(rs);
    FieldOfLe(p, 0, 4, |rs|);
    assert [] + rs == rs;
    RefusalOfSerialized(p, 4, [], rs, i);
  }

  /** Parse, then encode: every accepted payload is, byte for byte, the
      serialization of the records it yields; the format has no slack. */
  lemma PayloadOfParse(p: seq<byte>, crc: nat, count: nat)
    requires ParsePayload(p, crc, count).Parsed?
    ensures var rs := ParsePayload(p, crc, count).records;
            Hostable(rs) && |rs| == count && PayloadBytes(rs) == p && crc == Crc32(p)
  {
    var rs := SerializedOfParse(p, 4, 0, count, []);
    assert [] + rs == rs;
    FieldBytes(p, 0, 4);
    assert p == p[0..4] + p[4..];
  }

  /** A payload changed in one byte no longer has the CRC its header records. */
  lemma PayloadCorruptionDetected(p: seq<byte>, bad: seq<byte>, crc: nat, count: nat, i: nat)
    requires ParsePayload(p, crc, count).Parsed?
    requires DifferOnlyAt(p, bad, i)
    ensures ParsePayload(bad, crc, count) == Failed(PayloadCrc)
  {
    CrcDetectsOneByte(p, bad, i);
  }

  // ------------------------------------------------- the code, step by step

  /** `parse_records` on an image file: the offset walks the payload and the
      accepted paths are kept to refuse a second record of the same name. */
  method ParseRecords(image: seq<byte>, payloadStart: nat, h: Header) returns (r: ParsedRecords)
    ensures var payload := Slice(image, payloadStart, payloadStart + h.payloadLength);
            r == if |payload| != h.payloadLength then Failed(PayloadTruncated)
                 else ParsePayload(payload, h.payloadCrc, h.recordCount)
  {
    var payload := Slice(image, payloadStart, payloadStart + h.payloadLength);
    if |payload| != h.payloadLength {
      return Failed(PayloadTruncated);
    }
    var register := ComputeCrcUpdate(CRC_START, payload);
    if CrcFinish(register) != h.payloadCrc {
      return Failed(PayloadCrc);
    }
    if |payload| < 4 {
      return Failed(CountMissing);
    }
    var count := Read32(payload, 0);
    if count != h.recordCount {
      return Failed(CountMismatch);
    }
    hide RecordAt, RecordEnd, Ascii, Paths;
    var records: seq<Record> := [];
    PathsOfNone();
    var names: set<seq<byte>> := {};
    var offset: nat, index: nat := 4, 0;
    while index < count
      invariant index <= count && offset <= |payload|
      invariant names == Paths(records)
      invariant ParseFrom(payload, 4, 0, count, []) == ParseFrom(payload, offset, index, count, records)
    {
      if offset + RECORD_HEADER_SIZE > |payload| {
        return Failed(HeaderTruncated(index));
      }
      var end := RecordEnd(payload, offset);
      if end > |payload| {
        return Failed(BodyTruncated(index));
      }
      var record := RecordAt(payload, offset);
      if !Ascii(record.path) {
        return Failed(NotAscii(index));
      }
      if record.path in names {
        return Failed(Duplicate(record.path));
      }
      PathsAppend(records, record);
      records := records + [record];
      names := names + {record.path};
      offset, index := end, index + 1;
    }
    if offset != |payload| {
      return Failed(TrailingBytes);
    }
    return Parsed(records);
  }

  lemma PathsOfNone()
    ensures Paths([]) == {}
  {
  }

  lemma PathsAppend(rs: seq<Record>, r: Record)
    ensures Paths(rs + [r]) == Paths(rs) + {r.path}
  {
    assert forall i :: 0 <= i < |rs| ==> (rs + [r])[i] == rs[i];
    assert (rs + [r])[|rs|] == r;
  }

  datatype AppendResult = Appended(offset: nat) | BadRecord | BufferFull

  /** `appendRecord`: writes one v3 record into the payload buffer. */
  method AppendRecord(payload: array<byte>, initialOffset: nat, r: Record) returns (result: AppendResult)
    modifies payload
    ensures result == if |r.path| == 0 || |r.path| > 255 || |r.data| > MAX_RECORD_DATA then BadRecord
                      else if initialOffset > payload.Length
                              || RECORD_HEADER_SIZE + |r.path| + |r.data| > payload.Length - initialOffset then BufferFull
                      else Appended(initialOffset + |RecordBytes(r)|)
    ensures result.Appended? ==> payload[..] == Splice(old(payload[..]), initialOffset, RecordBytes(r))
    ensures !result.Appended? ==> payload[..] == old(payload[..])
  {
    if |r.path| == 0 || |r.path| > 255 || |r.data| > MAX_RECORD_DATA {
      return BadRecord;
    }
    var required := RECORD_HEADER_SIZE + |r.path| + |r.data|;
    if initialOffset > payload.Length || required > payload.Length - initialOffset {
      return BufferFull;
    }
    hide Splice, RecordHeader;
    ghost var before := payload[..];
    WriteRecordHeader(payload, initialOffset, r);
    var offset := initialOffset + RECORD_HEADER_SIZE;
    Blit(payload, offset, r.path);
    ghost var done := Extend(before, initialOffset, RecordHeader(r), r.path);
    offset := offset + |r.path|;
    Blit(payload, offset, r.data);
    done := Extend(before, initialOffset, done, r.data);
    return Appended(offset + |r.data|);
  }

  /** Its field writes, side by side from `initialOffset` on. */
  method WriteRecordHeader(payload: array<byte>, initialOffset: nat, r: Record)
    requires initialOffset + RECORD_HEADER_SIZE <= payload.Length
    modifies payload
    ensures payload[..] == Splice(old(payload[..]), initialOffset, RecordHeader(r))
  {
    hide Splice, Le;
    ghost var before := payload[..];
    Blit(payload, initialOffset, [r.kind, |r.path|]);
    WriteLe(payload, initialOffset + 2, r.mode, 2);
    ghost var done := Extend(before, initialOffset, [r.kind, |r.path|], Le(r.mode, 2));
    WriteLe(payload, initialOffset + 4, |r.data|, 4);
    done := Extend(before, initialOffset, done, Le(|r.data|, 4));
    WriteLe(payload, initialOffset + 8, r.times.created, 8);
    done := Extend(before, initialOffset, done, Le(r.times.created, 8));
    WriteLe(payload, initialOffset + 16, r.times.modified, 8);
    done := Extend(before, initialOffset, done, Le(r.times.modified, 8));
    WriteLe(payload, initialOffset + 24, r.times.changed, 8);
    done := Extend(before, initialOffset, done, Le(r.times.changed, 8));
    WriteLe(payload, initialOffset + 32, r.times.accessed, 8);
    done := Extend(before, initialOffset, done, Le(r.times.accessed, 8));
    WriteLe(payload, initialOffset + 40, r.owner.uid, 4);
    done := Extend(before, initialOffset, done, Le(r.owner.uid, 4));
    WriteLe(payload, initialOffset + 44, r.owner.gid, 4);
    done := Extend(before, initialOffset, done, Le(r.owner.gid, 4));
  }
}
