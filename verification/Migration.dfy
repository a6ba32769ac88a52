// Payloads of the two older versions: what a mount makes of their records, the
// metadata it has to supply, and that the next global sync keeps the result.
module Migration {
  import opened Bytes
  import opened JournalFormat
  import opened JournalRecords
  import opened FileSync
  import opened Paths
  import opened JournalRestore
  import opened FileTree
  import opened TreeRebuild
  import opened TreeWalk

  /** `readRecordTimestamps`: version 1 stored none. */
  function TimesOf(head: seq<byte>, version: nat, tick: u64): Times
    requires |head| == HeaderSizeOf(version)
  {
    if version == 1 then AllAt(tick)
    else Times(Read64(head, 8), Read64(head, 16), Read64(head, 24), Read64(head, 32))
  }

  /** `readRecordOwnership`: only version 3 stores one. */
  function OwnerOf(head: seq<byte>, version: nat): Owner
    requires |head| == HeaderSizeOf(version)
  {
    if version == 1 || version == 2 then Owner(0, 0) else Owner(Read32(head, 40), Read32(head, 44))
  }

  /** A laid-out record as the passes of a restore read it. */
  function ReadItem(x: Item, version: nat, tick: u64): Record
    requires WellLaid(x, HeaderSizeOf(version))
  {
    Record(x.kind, x.path, Read16(x.head, 2), TimesOf(x.head, version, tick), OwnerOf(x.head, version), x.data)
  }

  /** A record as the serializer of a version stored it: the later versions have
      more fields behind the earlier ones'. */
  function StoredAs(r: Record, version: nat): Item {
    Item(RecordHeader(r)[..HeaderSizeOf(version)], r.kind, r.path, r.data)
  }

  /** What is left of a record's metadata when a version is read back. */
  function Synthesized(r: Record, version: nat, tick: u64): Record {
    match version
    case 1 => r.(times := Times(tick, tick, tick, tick), owner := Owner(0, 0))
    case 2 => r.(owner := Owner(0, 0))
    case _ => r
  }

  lemma StoredIsLaid(r: Record, version: nat)
    requires 1 <= version <= 3
    ensures WellLaid(StoredAs(r, version), HeaderSizeOf(version))
  {
    hide RecordHeader, Le;
    RecordIsLaid(r);
    var h := RecordHeader(r);
    assert h[..HeaderSizeOf(version)][4..8] == h[4..8];
  }

  /** Reading back what a version stored gives the record with the metadata that
      version does not store supplied. */
  lemma ReadsBack(r: Record, version: nat, tick: u64)
    requires 1 <= version <= 3
    ensures WellLaid(StoredAs(r, version), HeaderSizeOf(version))
    ensures ReadItem(StoredAs(r, version), version, tick) == Synthesized(r, version, tick)
  {
    hide RecordHeader, Le, Field;
    StoredIsLaid(r, version);
    var h, x := RecordHeader(r), StoredAs(r, version);
    FieldsOfHeader(r);
    HeaderValues(r);
    PrefixFields(h, x.head);
  }

  lemma PrefixFields(h: seq<byte>, p: seq<byte>)
    requires |p| <= |h| && p == h[..|p|]
    ensures forall o: nat, w: nat {:trigger Field(p, o, w)} :: o + w <= |p| ==> Field(p, o, w) == Field(h, o, w)
  {
    forall o: nat, w: nat | o + w <= |p|
      ensures Field(p, o, w) == Field(h, o, w)
    {
      assert p[o..o + w] == h[o..o + w];
    }
  }

  lemma HeaderValues(r: Record)
    ensures var h := RecordHeader(r);
            && Field(h, 2, 2) == r.mode && Field(h, 8, 8) == r.times.created && Field(h, 16, 8) == r.times.modified
            && Field(h, 24, 8) == r.times.changed && Field(h, 32, 8) == r.times.accessed
            && Field(h, 40, 4) == r.owner.uid && Field(h, 44, 4) == r.owner.gid
  {
    hide RecordHeader, Le;
    FieldsOfHeader(r);
  }

  function StoredList(rs: seq<Record>, version: nat): (xs: seq<Item>)
    ensures |xs| == |rs| && forall i :: 0 <= i < |rs| ==> xs[i] == StoredAs(rs[i], version)
  {
    if rs == [] then [] else [StoredAs(rs[0], version)] + StoredList(rs[1..], version)
  }

  function SynthesizedList(rs: seq<Record>, version: nat, tick: u64): (qs: seq<Record>)
    ensures |qs| == |rs| && forall i :: 0 <= i < |rs| ==> qs[i] == Synthesized(rs[i], version, tick)
  {
    if rs == [] then [] else [Synthesized(rs[0], version, tick)] + SynthesizedList(rs[1..], version, tick)
  }

  /** The payload a serializer of that version wrote. */
  function PayloadAs(rs: seq<Record>, version: nat): seq<byte> {
    Le(|rs|, 4) + ItemsBytes(StoredList(rs, version))
  }

  /** An older payload of a list of the kernel's restores; its passes read the
      records of the list with the metadata supplied; all tree operations succeed
      and leave the tree of those records. */
  lemma OlderRestores(rs: seq<Record>, version: nat, tick: u64)
    requires 1 <= version <= 3 && Rebuildable(rs) && |rs| < 0x1_0000_0000
    ensures RestoreOf(PayloadAs(rs, version), version, |rs|) == Restored
    ensures forall i :: 0 <= i < |rs| ==>
              && WellLaid(StoredList(rs, version)[i], HeaderSizeOf(version))
              && ReadItem(StoredList(rs, version)[i], version, tick) == SynthesizedList(rs, version, tick)[i]
    ensures Rebuildable(SynthesizedList(rs, version, tick))
    ensures var o := RebuildOf(SynthesizedList(rs, version, tick), tick);
            o.Done? && Rebuilt(o.tree, SynthesizedList(rs, version, tick))
  {
    hide RestoreOf, ItemsBytes, Le, WellLaid, Rebuilt, RebuildOf, Takes, ReadItem, Synthesized, StoredAs, ValidRelativePath, Fit,
      HasParent, HasTarget;
    var xs := StoredList(rs, version);
    forall i | 0 <= i < |rs|
      ensures WellLaid(xs[i], HeaderSizeOf(version)) && 1 <= xs[i].kind <= 5 && ValidRelativePath(xs[i].path)
      ensures ReadItem(xs[i], version, tick) == Synthesized(rs[i], version, tick)
      ensures Takes(xs[i].kind, xs[i].path, xs[i].data)
    {
      ReadsBack(rs[i], version, tick);
      StoredParts(rs[i], version);
      FitTaken(rs[i]);
    }
    RestoreEveryVersion(version, xs);
    SynthesizedRebuildable(rs, version, tick);
    RebuildMeaning(SynthesizedList(rs, version, tick), tick);
  }

  lemma StoredParts(r: Record, version: nat)
    ensures var x := StoredAs(r, version); x.kind == r.kind && x.path == r.path && x.data == r.data
  {
  }

  lemma FitTaken(r: Record)
    requires Fit(r)
    ensures Takes(r.kind, r.path, r.data) && 1 <= r.kind <= 5 && ValidRelativePath(r.path)
  {
    RestorableMeaning(r);
    hide ValidRelativePath, Takes, NamesFit;
  }

  /** Only metadata is supplied. */
  lemma SynthesizedKeeps(r: Record, version: nat, tick: u64)
    ensures var q := Synthesized(r, version, tick);
            && q.kind == r.kind && q.path == r.path && q.data == r.data && q.mode == r.mode
            && Key(q) == Key(r) && (Fit(q) <==> Fit(r)) && (IsLink(q) <==> IsLink(r))
  {
    hide NamesFit, ValidRelativePath;
  }

  lemma SynthesizedRebuildable(rs: seq<Record>, version: nat, tick: u64)
    requires Rebuildable(rs)
    ensures Rebuildable(SynthesizedList(rs, version, tick))
  {
    hide Fit, Key, Synthesized, IsLink;
    var qs := SynthesizedList(rs, version, tick);
    forall i | 0 <= i < |rs|
      ensures Key(qs[i]) == Key(rs[i]) && qs[i].kind == rs[i].kind && qs[i].data == rs[i].data
      ensures (Fit(qs[i]) <==> Fit(rs[i])) && (IsLink(qs[i]) <==> IsLink(rs[i]))
    {
      SynthesizedKeeps(rs[i], version, tick);
    }
    forall i | 0 <= i < |qs|
      ensures HasParent(qs, i) && (IsLink(qs[i]) ==> HasTarget(qs, i))
    {
      assert HasParent(rs, i);
      if IsLink(rs[i]) {
        var j :| 0 <= j < |rs| && NamesFile(rs[i], rs[j]) by { assert HasTarget(rs, i); }
        assert NamesFile(qs[i], qs[j]);
      }
    }
  }

  /** Migration: after a mount of an older payload, the next global sync commits
      the tree with the supplied metadata, and every restore of what it commits
      gives that tree again. */
  lemma MigratedReturns(rs: seq<Record>, version: nat, tick: u64, v: View, later: u64)
    requires 1 <= version <= 3 && Rebuildable(rs) && |rs| < 0x1_0000_0000
    requires ValidView(v) && RebuildOf(SynthesizedList(rs, version, tick), tick) == Done(v.tree) && WalkOf(v).Walking?
    ensures RestoreOf(PayloadAs(rs, version), version, |rs|) == Restored
    ensures var o := RebuildOf(WalkOf(v).records, later); o.Done? && SameTree(v.tree, o.tree)
  {
    hide RestoreOf, ValidView, Rebuildable, RebuildOf, SameTree, WalkOf, Rebuilt, PayloadAs, WriterList;
    OlderRestores(rs, version, tick);
    SyncThenRestore(v, later);
  }
}
