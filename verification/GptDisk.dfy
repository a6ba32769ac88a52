// How the kernel finds its two partitions on a disk (src/kernel.zig, the NVMe
// start; src/partition.zig; src/gpt.zig): protective MBR, primary header, entry
// array, backup header, and the cross-checks between them.
module GptDisk {
  import opened Bytes
  import opened Checksums
  import opened JournalFormat
  import D = JournalDisk
  import Gpt

  type Block = seq<byte>

  // ------------------------------------------------------ partition entries

  const EFI_KIND: seq<byte> := [0x28, 0x73, 0x2A, 0xC1, 0x1F, 0xF8, 0xD2, 0x11, 0xBA, 0x4B, 0x00, 0xA0, 0xC9, 0x3E, 0xC9, 0x3B]
  const DATA_KIND: seq<byte> := [0x5A, 0x49, 0x47, 0x4F, 0x53, 0x44, 0x41, 0x54, 0x41, 0x50, 0x41, 0x52, 0x54, 0x30, 0x30, 0x31]

  datatype PartitionEntry = PartitionEntry(index: nat, kind: seq<byte>, unique: seq<byte>, first: u64, last: u64,
                                           attributes: u64, name: seq<byte>)

  predicate Unused(e: PartitionEntry) {
    AllZero(e.kind)
  }

  /** The printable form of the name's code units from byte `i` on. */
  function NameFrom(bytes: seq<byte>, i: nat, limit: nat): seq<byte>
    requires 56 + limit <= |bytes|
    decreases limit - i
  {
    if i + 1 >= limit then []
    else
      var unit := Read16(bytes, 56 + i);
      if unit == 0 then []
      else [if 0x20 <= unit <= 0x7E then unit as byte else 0x3F] + NameFrom(bytes, i + 2, limit)
  }

  /** `parsePartitionEntry`. */
  function ParsePartitionEntry(bytes: seq<byte>, size: nat, index: nat): Option<PartitionEntry> {
    if size < 128 || size > |bytes| then None
    else
      var e := PartitionEntry(index, bytes[0..16], bytes[16..32], Read64(bytes, 32), Read64(bytes, 40),
                              Read64(bytes, 48), []);
      if Unused(e) then Some(e)
      else if AllZero(e.unique) || e.last < e.first then None
      else Some(e.(name := NameFrom(bytes, 0, Min(size - 56, 72))))
  }

  /** `validatePartitionBounds`. */
  predicate InBounds(h: Gpt.GptHeader, e: PartitionEntry) {
    !Unused(e) && h.firstUsable <= e.first <= e.last <= h.lastUsable
  }

  // ---------------------------------------------------------- the entry array

  /** What the scan of the array has found so far. */
  datatype Found = Malformed | Found(populated: nat, efi: Option<PartitionEntry>, data: Option<PartitionEntry>)

  function Take(h: Gpt.GptHeader, e: PartitionEntry, f: Found): Found
    requires f.Found?
  {
    if Unused(e) then f
    else if !InBounds(h, e) then Malformed
    else Found(f.populated + 1, if f.efi.None? && e.kind == EFI_KIND then Some(e) else f.efi,
               if f.data.None? && e.kind == DATA_KIND then Some(e) else f.data)
  }

  /** The scan of the rest of an array, from entry `index` on. */
  function ScanEntries(h: Gpt.GptHeader, rest: seq<byte>, size: nat, index: nat, f: Found): Found
    requires 0 < size
    decreases |rest|
  {
    if f.Malformed? || |rest| < size then f
    else
      match ParsePartitionEntry(rest[..size], size, index)
      case None => Malformed
      case Some(e) => ScanEntries(h, rest[size..], size, index + 1, Take(h, e, f))
  }

  // --------------------------------------------------------------- the disk

  datatype Partitions = NotFound | Partitions(efi: PartitionEntry, data: PartitionEntry)

  /** `parseMbr` and the search for the protective entry. */
  predicate Protective(sector: seq<byte>) {
    && 512 <= |sector| && Read16(sector, 510) == 0xAA55
    && exists i :: 0 <= i < 4 && ProtectiveEntry(sector, i)
  }

  predicate ProtectiveEntry(sector: seq<byte>, i: nat)
    requires 512 <= |sector| && i < 4
  {
    && sector[446 + 16 * i + 4] == 0xEE
    && Read32(sector, 446 + 16 * i + 8) == 1 && Read32(sector, 446 + 16 * i + 12) != 0
  }

  /** A protective entry, byte by byte: type 0xEE, from block 1 on, not empty. */
  predicate ProtectiveBytes(s: seq<byte>, i: nat)
    requires 512 <= |s| && i < 4
  {
    && s[450 + 16 * i] == 0xEE && s[454 + 16 * i..458 + 16 * i] == [1, 0, 0, 0]
    && s[458 + 16 * i..462 + 16 * i] != [0, 0, 0, 0]
  }

  lemma ProtectiveExactly(s: seq<byte>)
    ensures Protective(s) <==>
              512 <= |s| && s[510] == 0x55 && s[511] == 0xAA && exists i :: 0 <= i < 4 && ProtectiveBytes(s, i)
  {
    hide Field;
    if 512 <= |s| {
      WordOfField(s, 510);
      forall i | 0 <= i < 4
        ensures ProtectiveEntry(s, i) <==> ProtectiveBytes(s, i)
      {
        DoubleWordOfField(s, 454 + 16 * i);
        DoubleWordOfField(s, 458 + 16 * i);
      }
    }
  }

  /** The loop over the four entries. */
  method FindProtective(sector: seq<byte>) returns (ok: bool)
    ensures ok <==> Protective(sector)
  {
    if |sector| < 512 || Read16(sector, 510) != 0xAA55 {
      return false;
    }
    for i := 0 to 4
      invariant forall j :: 0 <= j < i ==> !ProtectiveEntry(sector, j)
    {
      if sector[450 + 16 * i] == 0xEE && Read32(sector, 454 + 16 * i) == 1 && Read32(sector, 458 + 16 * i) != 0 {
        assert ProtectiveEntry(sector, i);
        return true;
      }
    }
    return false;
  }

  /** Whether the two headers describe the same table. */
  predicate CrossChecks(a: Gpt.Parsed, b: Gpt.Parsed)
    requires a.Header? && b.Header?
  {
    && b.fields.currentLba == a.fields.backupLba && b.fields.backupLba == a.fields.currentLba
    && b.fields.firstUsable == a.fields.firstUsable && b.fields.lastUsable == a.fields.lastUsable
    && b.entryCount == a.entryCount && b.entrySize == a.entrySize && b.fields.arrayCrc == a.fields.arrayCrc
  }

  ghost predicate IsBlocks(d: seq<Block>, bs: BlockSize) {
    forall l :: 0 <= l < |d| ==> |d[l]| == bs
  }

  /** The entry array a header names, if it lies on the disk. */
  function ArrayAt(d: seq<Block>, p: Gpt.Parsed, bs: BlockSize): Option<seq<byte>>
    requires IsBlocks(d, bs) && p.Header?
  {
    var n := p.entryCount * p.entrySize;
    if p.fields.entryLba + D.Sectors(n, bs) <= |d| then Some(D.ReadRun(d, p.fields.entryLba, n, bs)) else None
  }

  /** The partitions a disk offers the kernel. */
  function FindPartitions(d: seq<Block>, bs: BlockSize): Partitions
    requires IsBlocks(d, bs) && |d| < 0x1_0000_0000_0000_0000
  {
    if |d| < 2 || !Protective(d[0]) then NotFound
    else
      var p := Gpt.ParseHeader(d[1], |d|);
      if p.NotAHeader? || bs % p.entrySize != 0 then NotFound
      else
        var array_ := ArrayAt(d, p, bs);
        if array_.None? || Crc32(array_.value) != p.fields.arrayCrc then NotFound
        else
          var f := ScanEntries(p.fields, array_.value, p.entrySize, 0, Found(0, None, None));
          var b := Gpt.ParseHeader(d[p.fields.backupLba], |d|);
          if f.Malformed? || b.NotAHeader? || !CrossChecks(p, b) || d[p.fields.backupLba][56..72] != d[1][56..72] then NotFound
          else
            var copy := ArrayAt(d, b, bs);
            if copy.None? || Crc32(copy.value) != b.fields.arrayCrc then NotFound
            else if f.efi.None? || f.data.None? then NotFound
            else if f.data.value.last - f.data.value.first + 1 < 16 || f.data.value.first <= f.efi.value.last then NotFound
            else Partitions(f.efi.value, f.data.value)
  }

  // ------------------------------------------------------ entries as written

  /** The name field holds `text` from byte `i` on. */
  ghost predicate Spells(bytes: seq<byte>, i: nat, text: seq<byte>)
    requires 56 + i + 2 * |text| + 2 <= |bytes|
  {
    forall k :: 0 <= k < |text| ==> 0x20 <= text[k] <= 0x7E && Read16(bytes, 56 + i + 2 * k) == text[k]
  }

  lemma {:induction false} NameReads(bytes: seq<byte>, i: nat, limit: nat, text: seq<byte>)
    requires 56 + limit <= |bytes| && i + 2 * |text| + 2 <= limit && Spells(bytes, i, text)
    requires Read16(bytes, 56 + i + 2 * |text|) == 0
    ensures NameFrom(bytes, i, limit) == text
    decreases |text|
  {
    hide Field;
    if text != [] {
      assert Read16(bytes, 56 + i + 2 * 0) == text[0];
      forall k | 0 <= k < |text[1..]|
        ensures 0x20 <= text[1..][k] <= 0x7E && Read16(bytes, 56 + (i + 2) + 2 * k) == text[1..][k]
      {
        assert Read16(bytes, 56 + i + 2 * (k + 1)) == text[k + 1];
      }
      NameReads(bytes, i + 2, limit, text[1..]);
    }
  }

  /** A 128-byte entry, field by field, gives the entry back: an unused one
      always, a used one when it has an identity and its blocks are in order. */
  lemma EntryParses(e: seq<byte>, index: nat, kind: seq<byte>, unique: seq<byte>, first: u64, last: u64, attributes: u64,
                    text: seq<byte>)
    requires |e| == 128 && |kind| == |unique| == 16 && 2 * |text| + 2 <= 72
    requires e[..16] == kind && e[16..32] == unique
    requires e[32..40] == Le(first, 8) && e[40..48] == Le(last, 8) && e[48..56] == Le(attributes, 8)
    requires Spells(e, 0, text) && Read16(e, 56 + 2 * |text|) == 0
    ensures ParsePartitionEntry(e, 128, index)
            == if AllZero(kind) then Some(PartitionEntry(index, kind, unique, first, last, attributes, []))
               else if AllZero(unique) || last < first then None
               else Some(PartitionEntry(index, kind, unique, first, last, attributes, text))
  {
    hide Le, AllZero, Spells, NameFrom;
    Widths();
    FieldOfLe(e, 32, 8, first);
    FieldOfLe(e, 40, 8, last);
    FieldOfLe(e, 48, 8, attributes);
    hide Field;
    NameReads(e, 0, 72, text);
    assert e[0..16] == e[..16];
  }

  function Concat(es: seq<seq<byte>>): seq<byte> {
    if es == [] then [] else es[0] + Concat(es[1..])
  }

  /** An entry in use. */
  predicate Used(e: seq<byte>)
    requires 16 <= |e|
  {
    !AllZero(e[0..16])
  }

  /** An entry the scan lets pass: unused, or with an identity and inside the
      usable range. */
  predicate Fine(h: Gpt.GptHeader, e: seq<byte>)
    requires 128 <= |e|
  {
    Used(e) ==> !AllZero(e[16..32]) && h.firstUsable <= Read64(e, 32) <= Read64(e, 40) <= h.lastUsable
  }

  /** The first entry in use of a kind, if there is one. */
  ghost predicate FirstOf(es: seq<seq<byte>>, kind: seq<byte>, size: nat, index: nat, r: Option<PartitionEntry>)
    requires 128 <= size && forall i :: 0 <= i < |es| ==> |es[i]| == size
  {
    match r
    case None => forall i :: 0 <= i < |es| ==> !(Used(es[i]) && es[i][0..16] == kind)
    case Some(e) =>
      exists i :: && 0 <= i < |es| && Used(es[i]) && es[i][0..16] == kind
                  && ParsePartitionEntry(es[i], size, index + i) == Some(e)
                  && forall j :: 0 <= j < i ==> !(Used(es[j]) && es[j][0..16] == kind)
  }

  /** What a scan of an array means: it fails exactly when some entry is not
      fine, and otherwise finds the first entry of either kind. */
  lemma {:induction false} ScanMeaning(h: Gpt.GptHeader, es: seq<seq<byte>>, size: nat, index: nat, f: Found)
    requires 128 <= size && (forall i :: 0 <= i < |es| ==> |es[i]| == size) && f.Found?
    ensures var r := ScanEntries(h, Concat(es), size, index, f);
            && (r.Found? <==> forall i :: 0 <= i < |es| ==> Fine(h, es[i]))
            && (r.Found? ==> (if f.efi.Some? then r.efi == f.efi else FirstOf(es, EFI_KIND, size, index, r.efi)))
            && (r.Found? ==> (if f.data.Some? then r.data == f.data else FirstOf(es, DATA_KIND, size, index, r.data)))
    decreases |es|
  {
    hide ParsePartitionEntry, Take, Used, Fine, Field, FirstOf;
    if es == [] {
      NoneFirst(es, EFI_KIND, size, index);
      NoneFirst(es, DATA_KIND, size, index);
    } else {
      var e, rest := es[0], es[1..];
      assert Concat(es)[..size] == e && Concat(es)[size..] == Concat(rest);
      TakeMeaning(h, e, size, index, f);
      var parsed := ParsePartitionEntry(e, size, index);
      if parsed.Some? {
        var g := Take(h, parsed.value, f);
        if g.Found? {
          ScanMeaning(h, rest, size, index + 1, g);
          var r := ScanEntries(h, Concat(es), size, index, f);
          if r.Found? {
            FirstMore(es, EFI_KIND, size, index, r.efi);
            FirstMore(es, DATA_KIND, size, index, r.data);
          }
          assert forall i :: 1 <= i < |es| ==> es[i] == rest[i - 1];
        } else {
          ScanStopped(h, Concat(rest), size, index + 1);
        }
      }
    }
  }

  lemma NoneFirst(es: seq<seq<byte>>, kind: seq<byte>, size: nat, index: nat)
    requires 128 <= size && es == []
    ensures FirstOf(es, kind, size, index, None)
  {
  }

  lemma FirstMore(es: seq<seq<byte>>, kind: seq<byte>, size: nat, index: nat, r: Option<PartitionEntry>)
    requires 128 <= size && es != [] && forall i :: 0 <= i < |es| ==> |es[i]| == size
    ensures Used(es[0]) && es[0][0..16] == kind && ParsePartitionEntry(es[0], size, index) == r && r.Some? ==>
              FirstOf(es, kind, size, index, r)
    ensures !(Used(es[0]) && es[0][0..16] == kind) && FirstOf(es[1..], kind, size, index + 1, r) ==>
              FirstOf(es, kind, size, index, r)
  {
    hide ParsePartitionEntry, Used;
    var rest := es[1..];
    assert forall i :: 1 <= i < |es| ==> es[i] == rest[i - 1];
    if !(Used(es[0]) && es[0][0..16] == kind) && FirstOf(rest, kind, size, index + 1, r) && r.Some? {
      var i :| && 0 <= i < |rest| && Used(rest[i]) && rest[i][0..16] == kind
               && ParsePartitionEntry(rest[i], size, index + 1 + i) == r
               && forall j :: 0 <= j < i ==> !(Used(rest[j]) && rest[j][0..16] == kind);
      assert es[i + 1] == rest[i] && index + (i + 1) == index + 1 + i;
    }
  }

  /** What one entry does to a scan. */
  lemma TakeMeaning(h: Gpt.GptHeader, e: seq<byte>, size: nat, index: nat, f: Found)
    requires 128 <= size == |e| && f.Found?
    ensures var parsed := ParsePartitionEntry(e, size, index);
            && (parsed.Some? && Take(h, parsed.value, f).Found? <==> Fine(h, e))
            && (parsed.Some? && Take(h, parsed.value, f).Found? ==>
                  var g := Take(h, parsed.value, f);
                  && g.efi == (if f.efi.None? && Used(e) && e[0..16] == EFI_KIND then parsed else f.efi)
                  && g.data == (if f.data.None? && Used(e) && e[0..16] == DATA_KIND then parsed else f.data))
  {
    hide NameFrom, Field, AllZero;
  }

  /** The entries of an array. */
  function Chunks(x: seq<byte>, size: nat): (es: seq<seq<byte>>)
    requires 0 < size
    ensures forall i :: 0 <= i < |es| ==> |es[i]| == size
  {
    if |x| < size then [] else [x[..size]] + Chunks(x[size..], size)
  }

  lemma {:induction false} ConcatOfChunks(x: seq<byte>, size: nat)
    requires 0 < size && Whole(|x|, size)
    ensures Concat(Chunks(x, size)) == x
    decreases |x|
  {
    WholeStep(|x|, size);
    hide Whole;
    if |x| >= size {
      ConcatOfChunks(x[size..], size);
      assert Chunks(x, size)[1..] == Chunks(x[size..], size);
      assert x == x[..size] + x[size..];
    }
  }

  /** What the search asks of the two headers, their arrays and the entries. */
  ghost predicate Offers(d: seq<Block>, bs: BlockSize, p: Gpt.Parsed, b: Gpt.Parsed, e: PartitionEntry, g: PartitionEntry)
    requires IsBlocks(d, bs) && p.Header? && b.Header?
  {
    && bs % Max(1, p.entrySize) == 0 && ArrayAt(d, p, bs).Some? && ArrayAt(d, b, bs).Some?
    && b.fields.currentLba == p.fields.backupLba && b.fields.backupLba == p.fields.currentLba
    && b.fields.firstUsable == p.fields.firstUsable && b.fields.lastUsable == p.fields.lastUsable
    && b.entryCount == p.entryCount && b.entrySize == p.entrySize
    && Crc32(ArrayAt(d, p, bs).value) == p.fields.arrayCrc == b.fields.arrayCrc == Crc32(ArrayAt(d, b, bs).value)
    && 128 <= p.entrySize
    && e.last < g.first && g.first + 15 <= g.last
    && var es := Chunks(ArrayAt(d, p, bs).value, p.entrySize);
       && (forall i :: 0 <= i < |es| ==> Fine(p.fields, es[i]))
       && FirstOf(es, [0x28, 0x73, 0x2A, 0xC1, 0x1F, 0xF8, 0xD2, 0x11, 0xBA, 0x4B, 0x00, 0xA0, 0xC9, 0x3E, 0xC9, 0x3B],
                  p.entrySize, 0, Some(e))
       && FirstOf(es, [0x5A, 0x49, 0x47, 0x4F, 0x53, 0x44, 0x41, 0x54, 0x41, 0x50, 0x41, 0x52, 0x54, 0x30, 0x30, 0x31],
                  p.entrySize, 0, Some(g))
  }

  /** Exactly which disks offer the kernel which two partitions. */
  lemma FindExactly(d: seq<Block>, bs: BlockSize, e: PartitionEntry, g: PartitionEntry)
    requires IsBlocks(d, bs) && |d| < 0x1_0000_0000_0000_0000
    ensures FindPartitions(d, bs) == Partitions(e, g) <==>
              && 2 <= |d| && Protective(d[0]) && Gpt.ParseHeader(d[1], |d|).Header?
              && var p := Gpt.ParseHeader(d[1], |d|);
                 && p.fields.backupLba < |d| && Gpt.ParseHeader(d[p.fields.backupLba], |d|).Header?
                 && d[p.fields.backupLba][56..72] == d[1][56..72]
                 && Offers(d, bs, p, Gpt.ParseHeader(d[p.fields.backupLba], |d|), e, g)
  {
    hide Protective, Gpt.ParseHeader, ScanEntries, Crc32, ArrayAt, FirstOf, Fine, Chunks, D.Sectors;
    if 2 <= |d| && Protective(d[0]) && Gpt.ParseHeader(d[1], |d|).Header? {
      var p := Gpt.ParseHeader(d[1], |d|);
      HeaderFacts(d[1], |d|);
      if ArrayAt(d, p, bs).Some? {
        ArrayScan(d, p, bs);
      }
    }
  }

  /** What the scan of a header's array finds. */
  lemma ArrayScan(d: seq<Block>, p: Gpt.Parsed, bs: BlockSize)
    requires IsBlocks(d, bs) && p.Header? && 128 <= p.entrySize && ArrayAt(d, p, bs).Some?
    ensures var es := Chunks(ArrayAt(d, p, bs).value, p.entrySize);
            var f := ScanEntries(p.fields, ArrayAt(d, p, bs).value, p.entrySize, 0, Found(0, None, None));
            && (f.Found? <==> forall i :: 0 <= i < |es| ==> Fine(p.fields, es[i]))
            && (f.Found? ==> forall e: PartitionEntry ::
                  && (f.efi == Some(e) <==> FirstOf(es, EFI_KIND, p.entrySize, 0, Some(e)))
                  && (f.data == Some(e) <==> FirstOf(es, DATA_KIND, p.entrySize, 0, Some(e))))
  {
    hide ScanEntries, FirstOf, Fine, Chunks, D.Sectors, D.ReadRun;
    var x := ArrayAt(d, p, bs).value;
    CountIsWhole(p.entryCount, p.entrySize);
    ConcatOfChunks(x, p.entrySize);
    var es := Chunks(x, p.entrySize);
    ScanMeaning(p.fields, es, p.entrySize, 0, Found(0, None, None));
    var f := ScanEntries(p.fields, x, p.entrySize, 0, Found(0, None, None));
    if f.Found? {
      forall e: PartitionEntry
        ensures f.efi == Some(e) <==> FirstOf(es, EFI_KIND, p.entrySize, 0, Some(e))
        ensures f.data == Some(e) <==> FirstOf(es, DATA_KIND, p.entrySize, 0, Some(e))
      {
        if FirstOf(es, EFI_KIND, p.entrySize, 0, Some(e)) {
          OneFirst(es, EFI_KIND, p.entrySize, 0, f.efi, Some(e));
        }
        if FirstOf(es, DATA_KIND, p.entrySize, 0, Some(e)) {
          OneFirst(es, DATA_KIND, p.entrySize, 0, f.data, Some(e));
        }
      }
    }
  }

  lemma OneFirst(es: seq<seq<byte>>, kind: seq<byte>, size: nat, index: nat, a: Option<PartitionEntry>, b: Option<PartitionEntry>)
    requires 128 <= size && forall i :: 0 <= i < |es| ==> |es[i]| == size
    requires FirstOf(es, kind, size, index, a) && FirstOf(es, kind, size, index, b)
    ensures a == b
  {
    hide ParsePartitionEntry, Used;
    if a.Some? && b.Some? {
      var i :| && 0 <= i < |es| && Used(es[i]) && es[i][0..16] == kind
               && ParsePartitionEntry(es[i], size, index + i) == a
               && forall j :: 0 <= j < i ==> !(Used(es[j]) && es[j][0..16] == kind);
      var k :| && 0 <= k < |es| && Used(es[k]) && es[k][0..16] == kind
               && ParsePartitionEntry(es[k], size, index + k) == b
               && forall j :: 0 <= j < k ==> !(Used(es[j]) && es[j][0..16] == kind);
      assert i == k;
    }
  }

  /** Unused entries change nothing. */
  lemma {:induction false} ZeroEntries(h: Gpt.GptHeader, rest: seq<byte>, index: nat, f: Found)
    requires AllZero(rest) && |rest| % 128 == 0 && f.Found?
    ensures ScanEntries(h, rest, 128, index, f) == f
    decreases |rest|
  {
    if |rest| >= 128 {
      var e := rest[..128];
      assert AllZero(e) && AllZero(e[0..16]) && AllZero(rest[128..]);
      ZeroEntries(h, rest[128..], index + 1, f);
    }
  }

  // ------------------------------------------------- the code, step by step

  /** A multiple of the entry size. */
  ghost predicate Whole(n: nat, size: nat)
    requires 0 < size
  {
    n % size == 0
  }

  lemma WholeStep(n: nat, size: nat)
    requires 0 < size && Whole(n, size)
    ensures n < size ==> n == 0
    ensures size <= n ==> Whole(n - size, size)
  {
    if size <= n {
      assert n == size * (n / size);
      assert n - size == size * (n / size - 1);
      MultipleIsWhole(size, n / size - 1);
    }
  }

  lemma MultipleIsWhole(size: nat, k: nat)
    requires 0 < size
    ensures Whole(size * k, size)
  {
    QuotientIs(size * k, size, k, 0);
  }

  lemma WholeRest(n: nat, k: nat, size: nat)
    requires 0 < size && k <= n && Whole(n, size) && Whole(k, size)
    ensures Whole(n - k, size)
  {
    var x, y := n / size, k / size;
    assert n == size * x && k == size * y;
    if x < y {
      ScaledOrder(x + 1, y, size);
    }
    assert size * (x - y) == size * x - size * y;
    MultipleIsWhole(size, x - y);
  }

  lemma ScanMore(h: Gpt.GptHeader, bytes: seq<byte>, rest: seq<byte>, size: nat, index: nat, f: Found)
    requires 0 < size <= |bytes|
    ensures ScanEntries(h, bytes + rest, size, index, f)
            == if f.Malformed? then f
               else match ParsePartitionEntry(bytes[..size], size, index)
                 case None => Malformed
                 case Some(e) => ScanEntries(h, bytes[size..] + rest, size, index + 1, Take(h, e, f))
  {
    hide ParsePartitionEntry, Take;
    assert (bytes + rest)[..size] == bytes[..size] && (bytes + rest)[size..] == bytes[size..] + rest;
  }

  lemma ScanStopped(h: Gpt.GptHeader, rest: seq<byte>, size: nat, index: nat)
    requires 0 < size
    ensures ScanEntries(h, rest, size, index, Malformed) == Malformed
  {
  }

  /** The entries of one block of the array. */
  method ScanBlock(h: Gpt.GptHeader, bytes: seq<byte>, size: nat, start: nat, found: Found, ghost rest: seq<byte>)
    returns (f: Found, index: nat)
    requires 0 < size && Whole(|bytes|, size) && found.Found?
    ensures ScanEntries(h, bytes + rest, size, start, found) == ScanEntries(h, rest, size, index, f)
  {
    hide ParsePartitionEntry, Take, ScanEntries, Whole;
    f, index := found, start;
    var offset: nat := 0;
    assert bytes[0..] == bytes;
    while offset + size <= |bytes|
      invariant offset <= |bytes| && Whole(|bytes| - offset, size) && f.Found?
      invariant ScanEntries(h, bytes + rest, size, start, found) == ScanEntries(h, bytes[offset..] + rest, size, index, f)
    {
      ScanMore(h, bytes[offset..], rest, size, index, f);
      WholeStep(|bytes| - offset, size);
      assert bytes[offset..][..size] == bytes[offset..offset + size];
      assert bytes[offset..][size..] == bytes[offset + size..];
      var e := ParsePartitionEntry(bytes[offset..offset + size], size, index);
      if e.None? {
        ScanStopped(h, rest, size, index);
        return Malformed, index;
      }
      f := Take(h, e.value, f);
      index, offset := index + 1, offset + size;
      if f.Malformed? {
        ScanStopped(h, bytes[offset..] + rest, size, index);
        ScanStopped(h, rest, size, index);
        return;
      }
    }
    WholeStep(|bytes| - offset, size);
    assert bytes[offset..] + rest == rest;
  }

  /** The sector loop over an entry array that lies on the disk: its checksum
      and what the scan finds. */
  method ReadArray(d: seq<Block>, p: Gpt.Parsed, bs: BlockSize) returns (f: Found, crc: u32)
    requires IsBlocks(d, bs) && p.Header? && 0 < p.entrySize && bs % p.entrySize == 0 && ArrayAt(d, p, bs).Some?
    ensures f.Found? ==> crc == Crc32(ArrayAt(d, p, bs).value)
    ensures f == ScanEntries(p.fields, ArrayAt(d, p, bs).value, p.entrySize, 0, Found(0, None, None))
  {
    hide ScanEntries, Crc32, CrcUpdate, CrcFinish, Whole, D.Sectors, D.ReadRun;
    var size, total := p.entrySize, p.entryCount * p.entrySize;
    ghost var whole := ArrayAt(d, p, bs).value;
    ghost var consumed: seq<byte> := [];
    var state: Register := CRC_START;
    CrcOf([]);
    var remaining: nat, lba: nat, index: nat := total, p.fields.entryLba, 0;
    f := Found(0, None, None);
    CountIsWhole(p.entryCount, size);
    BlockIsWhole(bs, size);
    while remaining != 0
      invariant lba + D.Sectors(remaining, bs) <= |d| && Whole(remaining, size) && f.Found?
      invariant consumed + D.ReadRun(d, lba, remaining, bs) == whole
      invariant state == CrcUpdate(CRC_START, consumed)
      invariant ScanEntries(p.fields, whole, size, 0, Found(0, None, None))
                == ScanEntries(p.fields, D.ReadRun(d, lba, remaining, bs), size, index, f)
    {
      D.ReadRunStep(d, lba, remaining, bs);
      var k := Min(remaining, bs);
      var bytes := d[lba][..k];
      ghost var rest := D.ReadRun(d, lba + 1, remaining - k, bs);
      CrcUpdateConcat(CRC_START, consumed, bytes);
      state := ComputeCrcUpdate(state, bytes);
      PartIsWhole(remaining, bs, size);
      f, index := ScanBlock(p.fields, bytes, size, index, f, rest);
      if f.Malformed? {
        ScanStopped(p.fields, rest, size, index);
        return f, 0;
      }
      assert consumed + (bytes + rest) == consumed + bytes + rest;
      consumed := consumed + bytes;
      remaining, lba := remaining - k, lba + 1;
    }
    D.EmptyRun(d, lba, bs);
    assert consumed == whole;
    CrcOf(whole);
    crc := CrcFinish(state);
    ScanDone(p.fields, size, index, f);
  }

  lemma CountIsWhole(count: nat, size: nat)
    requires 0 < size
    ensures Whole(count * size, size)
  {
    assert count * size == size * count;
    MultipleIsWhole(size, count);
  }

  lemma BlockIsWhole(bs: BlockSize, size: nat)
    requires 0 < size && bs % size == 0
    ensures Whole(bs, size)
  {
  }

  lemma PartIsWhole(remaining: nat, bs: BlockSize, size: nat)
    requires 0 < size && Whole(remaining, size) && Whole(bs, size)
    ensures Whole(Min(remaining, bs), size) && Whole(remaining - Min(remaining, bs), size)
  {
    MultipleIsWhole(size, 0);
    hide Whole;
    WholeRest(remaining, Min(remaining, bs), size);
  }

  lemma ScanDone(h: Gpt.GptHeader, size: nat, index: nat, f: Found)
    requires 0 < size
    ensures ScanEntries(h, [], size, index, f) == f
  {
  }

  /** The kernel's search, in its order. */
  method Find(d: seq<Block>, bs: BlockSize) returns (r: Partitions)
    requires IsBlocks(d, bs) && |d| < 0x1_0000_0000_0000_0000
    ensures r == FindPartitions(d, bs)
  {
    hide Protective, Gpt.ParseHeader, ScanEntries, Crc32, ArrayAt;
    if |d| < 2 {
      return NotFound;
    }
    var protective := FindProtective(d[0]);
    if !protective {
      return NotFound;
    }
    var p := Gpt.ParseHeader(d[1], |d|);
    if p.NotAHeader? {
      return NotFound;
    }
    HeaderFacts(d[1], |d|);
    if bs % p.entrySize != 0 || ArrayAt(d, p, bs).None? {
      return NotFound;
    }
    var f, crc := ReadArray(d, p, bs);
    if f.Malformed? || crc != p.fields.arrayCrc {
      return NotFound;
    }
    var b := Gpt.ParseHeader(d[p.fields.backupLba], |d|);
    if b.NotAHeader? || !CrossChecks(p, b) || d[p.fields.backupLba][56..72] != d[1][56..72] || ArrayAt(d, b, bs).None? {
      return NotFound;
    }
    crc := ArrayChecksum(d, b, bs);
    if crc != b.fields.arrayCrc || f.efi.None? || f.data.None? {
      return NotFound;
    }
    var efi, data := f.efi.value, f.data.value;
    if data.last - data.first + 1 < 16 || data.first <= efi.last {
      return NotFound;
    }
    return Partitions(efi, data);
  }

  lemma HeaderFacts(sector: seq<byte>, n: u64)
    requires Gpt.ParseHeader(sector, n).Header?
    ensures var p := Gpt.ParseHeader(sector, n); 128 <= p.entrySize && p.fields.backupLba < n && 92 <= |sector|
  {
    hide Crc32;
  }

  /** The backup array is only summed. */
  method ArrayChecksum(d: seq<Block>, p: Gpt.Parsed, bs: BlockSize) returns (crc: u32)
    requires IsBlocks(d, bs) && p.Header? && ArrayAt(d, p, bs).Some?
    ensures crc == Crc32(ArrayAt(d, p, bs).value)
  {
    hide Crc32, CrcUpdate, CrcFinish, D.Sectors, D.ReadRun;
    ghost var whole := ArrayAt(d, p, bs).value;
    ghost var consumed: seq<byte> := [];
    var state: Register := CRC_START;
    CrcOf([]);
    var remaining: nat, lba: nat := p.entryCount * p.entrySize, p.fields.entryLba;
    while remaining != 0
      invariant lba + D.Sectors(remaining, bs) <= |d|
      invariant consumed + D.ReadRun(d, lba, remaining, bs) == whole
      invariant state == CrcUpdate(CRC_START, consumed)
    {
      D.ReadRunStep(d, lba, remaining, bs);
      var k := Min(remaining, bs);
      var bytes := d[lba][..k];
      CrcUpdateConcat(CRC_START, consumed, bytes);
      state := ComputeCrcUpdate(state, bytes);
      ghost var rest := D.ReadRun(d, lba + 1, remaining - k, bs);
      assert consumed + (bytes + rest) == consumed + bytes + rest;
      consumed := consumed + bytes;
      remaining, lba := remaining - k, lba + 1;
    }
    D.EmptyRun(d, lba, bs);
    assert consumed == whole;
    CrcOf(whole);
    crc := CrcFinish(state);
  }
}
