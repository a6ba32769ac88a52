// The file tree after one-file syncs, crashes and mounts: a sync of a file
// changes that file alone, and what a mount recovers can always be rebuilt.
module TreeSync {
  import opened Bytes
  import opened Paths
  import opened JournalFormat
  import opened JournalRecords
  import opened FileSync
  import opened SparseFiles
  import opened JournalRestore
  import opened FileTree
  import opened TreeRebuild

  /** The list with record `m` replaced and moved to the end. */
  function Moved(rs: seq<Record>, m: nat, r: Record): (next: seq<Record>)
    requires m < |rs|
    ensures |next| == |rs|
    ensures forall i :: 0 <= i < |rs| ==> next[i] == if i < m then rs[i] else if i < |rs| - 1 then rs[i + 1] else r
  {
    rs[..m] + rs[m + 1..] + [r]
  }

  /** Where record `i` is in that list. */
  function Place(rs: seq<Record>, m: nat, i: nat): (p: nat)
    requires m < |rs| && i < |rs|
    ensures p < |rs|
  {
    if i < m then i else if i == m then |rs| - 1 else i - 1
  }

  /** Which record is at `p` there. */
  function Origin(rs: seq<Record>, m: nat, p: nat): (i: nat)
    requires m < |rs| && p < |rs|
    ensures i < |rs| && Place(rs, m, i) == p
  {
    if p < m then p else if p < |rs| - 1 then p + 1 else m
  }

  predicate Replaces(r: Record, was: Record) {
    r.path == was.path && r.kind == KIND_SPARSE && was.kind in {KIND_FILE, KIND_SPARSE} && Fit(r)
  }

  lemma SameKeys(rs: seq<Record>, m: nat, r: Record, p: nat)
    requires m < |rs| && p < |rs| && Replaces(r, rs[m])
    ensures var next, i := Moved(rs, m, r), Origin(rs, m, p);
            && Key(next[p]) == Key(rs[i]) && (IsLink(next[p]) <==> IsLink(rs[i]))
            && next[p] == if p < |rs| - 1 then rs[i] else r
  {
    hide Fit;
  }

  lemma MovedRebuildable(rs: seq<Record>, m: nat, r: Record)
    requires Rebuildable(rs) && m < |rs| && Replaces(r, rs[m])
    ensures Rebuildable(Moved(rs, m, r))
  {
    hide Fit, Key, Moved, ParentOf, NamesFile;
    var next := Moved(rs, m, r);
    forall p | 0 <= p < |next|
      ensures Fit(next[p]) && HasParent(next, p) && (IsLink(next[p]) ==> HasTarget(next, p))
    {
      var i := Origin(rs, m, p);
      SameKeys(rs, m, r, p);
      assert Fit(rs[i]);
      MovedParent(rs, m, r, p);
      if IsLink(next[p]) {
        MovedTarget(rs, m, r, p);
      }
    }
    forall p, q | 0 <= p < q < |next|
      ensures Key(next[p]) != Key(next[q])
    {
      var i, j := Origin(rs, m, p), Origin(rs, m, q);
      SameKeys(rs, m, r, p);
      SameKeys(rs, m, r, q);
      assert i < j || j < i;
    }
  }

  lemma MovedParent(rs: seq<Record>, m: nat, r: Record, p: nat)
    requires m < |rs| && p < |rs| && Replaces(r, rs[m]) && HasParent(rs, Origin(rs, m, p))
    ensures HasParent(Moved(rs, m, r), p)
  {
    hide Fit, Key, ParentOf;
    var next, i := Moved(rs, m, r), Origin(rs, m, p);
    SameKeys(rs, m, r, p);
    if ParentOf(Key(rs[i])) != [] {
      var j :| 0 <= j < i && rs[j].kind == KIND_DIRECTORY && Key(rs[j]) == ParentOf(Key(rs[i]));
      SameKeys(rs, m, r, Place(rs, m, j));
      assert next[Place(rs, m, j)] == rs[j];
    }
  }

  lemma MovedTarget(rs: seq<Record>, m: nat, r: Record, p: nat)
    requires m < |rs| && p < |rs| && Replaces(r, rs[m]) && IsLink(Moved(rs, m, r)[p]) && HasTarget(rs, Origin(rs, m, p))
    ensures HasTarget(Moved(rs, m, r), p)
  {
    hide Fit, Key, Fold;
    var next, i := Moved(rs, m, r), Origin(rs, m, p);
    SameKeys(rs, m, r, p);
    var j :| 0 <= j < |rs| && NamesFile(rs[i], rs[j]);
    SameKeys(rs, m, r, Place(rs, m, j));
    assert NamesFile(next[p], next[Place(rs, m, j)]);
  }

  // ------------------------------------------------- the tree of that list

  /** The file a record of contents describes, with its metadata. */
  function FileOf(r: Record): Node
    requires SparseImage(r.data)
  {
    File(Meta(r.mode, r.times, r.owner), Decoded(r.data))
  }

  lemma ReplacedIsSparse(r: Record, was: Record)
    requires Replaces(r, was)
    ensures SparseImage(r.data) && !IsLink(r) && !IsLink(was)
  {
    hide NamesFit, ValidRelativePath, SparseImage;
  }

  /** The tree with the file of record `m` replaced. */
  function Replaced(t: Tree, rs: seq<Record>, m: nat, r: Record): (u: Tree)
    requires m < |rs| && Key(rs[m]) in t.entries && Replaces(r, rs[m])
    ensures u.entries == t.entries && |u.nodes| == |t.nodes|
  {
    ReplacedIsSparse(r, rs[m]);
    SetNode(t, t.entries[Key(rs[m])].node, FileOf(r))
  }

  lemma ReplacedNodes(t: Tree, rs: seq<Record>, m: nat, r: Record, q: Record)
    requires m < |rs| && Key(rs[m]) in t.entries && Replaces(r, rs[m]) && SparseImage(r.data)
    ensures var u := Replaced(t, rs, m, r);
            && Number(u, q) == Number(t, q)
            && (Key(q) in t.entries ==>
                  NodeFor(u, q) == if Number(t, q) == Number(t, rs[m]) then FileOf(r) else NodeFor(t, q))
  {
    hide Fit, Decoded, Key, SparseImage;
  }

  lemma MovedKeyed(t: Tree, rs: seq<Record>, m: nat, r: Record)
    requires Rebuildable(rs) && Rebuilt(t, rs) && m < |rs| && Replaces(r, rs[m])
    ensures Key(rs[m]) in t.entries
    ensures var next := Moved(rs, m, r); Keyed(Replaced(t, rs, m, r), next, Upto(next, |next|, |next|))
  {
    hide Fit, Shaped, Linked, Apart, Key, NameOf, Stamped, Moved, Replaced, HasParent, HasTarget;
    var next := Moved(rs, m, r);
    AllThere(t, rs);
    var u := Replaced(t, rs, m, r);
    var done := Upto(next, |next|, |next|);
    MovedRebuildable(rs, m, r);
    forall p | 0 <= p < |next|
      ensures Fit(next[p]) && Holds(u, next[p])
    {
      var i := Origin(rs, m, p);
      SameKeys(rs, m, r, p);
      assert i in Upto(rs, |rs|, |rs|);
      assert Holds(t, rs[i]);
    }
    forall k | k in u.entries
      ensures exists p :: p in done && Key(next[p]) == k
    {
      var i :| i in Upto(rs, |rs|, |rs|) && Key(rs[i]) == k;
      var p := Place(rs, m, i);
      SameKeys(rs, m, r, p);
      assert Origin(rs, m, p) == i;
      assert p in done;
    }
  }

  /** A name of the list names the node it named before. */
  lemma MovedNumber(t: Tree, rs: seq<Record>, m: nat, r: Record, p: nat)
    requires Rebuildable(rs) && Rebuilt(t, rs) && m < |rs| && Replaces(r, rs[m]) && p < |rs|
    ensures Key(rs[m]) in t.entries && SparseImage(r.data)
    ensures var u, next, i := Replaced(t, rs, m, r), Moved(rs, m, r), Origin(rs, m, p);
            && Number(u, next[p]) == Number(t, rs[i])
            && NodeFor(u, next[p]) == if Number(t, rs[i]) == Number(t, rs[m]) then FileOf(r) else NodeFor(t, rs[i])
  {
    hide Fit, Key, Moved, Replaced, Stamped, BuiltFor, SparseImage, Rebuildable;
    AllThere(t, rs);
    ReplacedIsSparse(r, rs[m]);
    SameKeys(rs, m, r, p);
    ReplacedNodes(t, rs, m, r, Moved(rs, m, r)[p]);
    SameKeyNumber(t, rs[Origin(rs, m, p)], Moved(rs, m, r)[p]);
  }

  lemma SameKeyNumber(t: Tree, a: Record, b: Record)
    requires Key(a) == Key(b)
    ensures Number(t, a) == Number(t, b) && NodeFor(t, a) == NodeFor(t, b)
  {
    hide Key;
  }

  lemma MovedShaped(t: Tree, rs: seq<Record>, m: nat, r: Record, p: nat)
    requires Rebuildable(rs) && Rebuilt(t, rs) && m < |rs| && Replaces(r, rs[m]) && p < |rs|
    ensures Key(rs[m]) in t.entries
    ensures var u, next := Replaced(t, rs, m, r), Moved(rs, m, r); !IsLink(next[p]) ==> Shaped(u, next[p])
  {
    hide Fit, Key, Moved, Replaced, Stamped, Keyed, Linked, Rebuildable, SparseImage, Number, NodeFor, Plain, Decoded;
    var i, done := Origin(rs, m, p), Upto(rs, |rs|, |rs|);
    var next := Moved(rs, m, r);
    MovedNumber(t, rs, m, r, p);
    SameKeys(rs, m, r, p);
    AllThere(t, rs);
    ReplacedIsSparse(r, rs[m]);
    assert i in done && m in done;
    if !IsLink(next[p]) && p < |rs| - 1 {
      assert Shaped(t, rs[i]);
      assert i != m;
      assert Number(t, rs[i]) != Number(t, rs[m]);
    }
  }

  lemma MovedApart(t: Tree, rs: seq<Record>, m: nat, r: Record)
    requires Rebuildable(rs) && Rebuilt(t, rs) && m < |rs| && Replaces(r, rs[m])
    ensures Key(rs[m]) in t.entries
    ensures var u, next := Replaced(t, rs, m, r), Moved(rs, m, r); Apart(u, next, Upto(next, |next|, |next|))
  {
    hide Fit, Key, Moved, Replaced, Stamped, Keyed, Linked, Shaped, Rebuildable, Number, NodeFor, IsLink;
    AllThere(t, rs);
    var u, next, done := Replaced(t, rs, m, r), Moved(rs, m, r), Upto(rs, |rs|, |rs|);
    forall p, q | 0 <= p < |next| && 0 <= q < |next| && p != q && !IsLink(next[p]) && !IsLink(next[q])
      ensures Number(u, next[p]) != Number(u, next[q])
    {
      var i, j := Origin(rs, m, p), Origin(rs, m, q);
      MovedNumber(t, rs, m, r, p);
      MovedNumber(t, rs, m, r, q);
      SameKeys(rs, m, r, p);
      SameKeys(rs, m, r, q);
      assert i in done && j in done && i != j;
    }
  }

  lemma MovedLinked(t: Tree, rs: seq<Record>, m: nat, r: Record, p: nat)
    requires Rebuildable(rs) && Rebuilt(t, rs) && m < |rs| && Replaces(r, rs[m]) && p < |rs|
    ensures Key(rs[m]) in t.entries
    ensures var u, next := Replaced(t, rs, m, r), Moved(rs, m, r);
            IsLink(next[p]) ==> Linked(u, next, Upto(next, |next|, |next|), p)
  {
    hide Fit, Moved, Replaced, Stamped, Keyed, Apart, Shaped, Rebuildable, Number, NodeFor, Fold;
    MovedNumber(t, rs, m, r, p);
    var u, next, i, done := Replaced(t, rs, m, r), Moved(rs, m, r), Origin(rs, m, p), Upto(rs, |rs|, |rs|);
    SameKeys(rs, m, r, p);
    if IsLink(next[p]) {
      assert i in done;
      assert Linked(t, rs, done, i);
      var j :| j in done && NamesFile(rs[i], rs[j]) && Number(t, rs[j]) == Number(t, rs[i]);
      var q := Place(rs, m, j);
      SameKeys(rs, m, r, q);
      MovedNumber(t, rs, m, r, q);
      assert Origin(rs, m, q) == j;
      assert NamesFile(next[p], next[q]);
      assert q in Upto(next, |next|, |next|);
    }
  }

  lemma MovedStamped(t: Tree, rs: seq<Record>, m: nat, r: Record, p: nat)
    requires Rebuildable(rs) && Rebuilt(t, rs) && m < |rs| && Replaces(r, rs[m]) && p < |rs|
    ensures Key(rs[m]) in t.entries
    ensures var u, next := Replaced(t, rs, m, r), Moved(rs, m, r);
            Last(u, next, |next|, p) ==>
              NodeFor(u, next[p]).meta.times == next[p].times && NodeFor(u, next[p]).meta.owner == next[p].owner
  {
    hide Fit, Key, Moved, Replaced, Stamped, BuiltFor, Rebuildable, Number, NodeFor, SparseImage, Decoded;
    MovedNumber(t, rs, m, r, p);
    var u, next, i := Replaced(t, rs, m, r), Moved(rs, m, r), Origin(rs, m, p);
    SameKeys(rs, m, r, p);
    if Last(u, next, |next|, p) && p < |rs| - 1 {
      MovedNumber(t, rs, m, r, |rs| - 1);
      SameKeys(rs, m, r, |rs| - 1);
      assert Number(t, rs[i]) != Number(t, rs[m]);
      forall j | i < j < |rs|
        ensures Number(t, rs[j]) != Number(t, rs[i])
      {
        var q := Place(rs, m, j);
        MovedNumber(t, rs, m, r, q);
        assert Origin(rs, m, q) == j;
        assert p < q ==> Number(u, next[q]) != Number(u, next[p]);
      }
      StampOf(t, rs, i);
    }
  }

  /** Replacing a file's record replaces that file in the tree. */
  lemma MovedRebuilt(t: Tree, rs: seq<Record>, m: nat, r: Record)
    requires Rebuildable(rs) && Rebuilt(t, rs) && m < |rs| && Replaces(r, rs[m])
    ensures Key(rs[m]) in t.entries && Rebuilt(Replaced(t, rs, m, r), Moved(rs, m, r))
  {
    hide Fit, Key, Moved, Replaced, Keyed, Shaped, Apart, Linked, Rebuildable, Number, NodeFor, IsLink, Last;
    var next := Moved(rs, m, r);
    AllThere(t, rs);
    MovedKeyed(t, rs, m, r);
    MovedApart(t, rs, m, r);
    forall p | 0 <= p < |next|
      ensures var u := Replaced(t, rs, m, r);
              && (!IsLink(next[p]) ==> Shaped(u, next[p]))
              && (IsLink(next[p]) ==> Linked(u, next, Upto(next, |next|, |next|), p))
              && (Last(u, next, |next|, p) ==>
                    NodeFor(u, next[p]).meta.times == next[p].times && NodeFor(u, next[p]).meta.owner == next[p].owner)
    {
      MovedShaped(t, rs, m, r, p);
      MovedLinked(t, rs, m, r, p);
      MovedStamped(t, rs, m, r, p);
    }
  }

  // ------------------------------------------------- one-file syncs

  lemma {:induction false} WithoutOne(rs: seq<Record>, target: Name, m: nat)
    requires m < |rs| && rs[m].path == target
    requires forall i :: 0 <= i < |rs| && i != m ==> rs[i].path != target
    ensures Without(rs, target) == rs[..m] + rs[m + 1..]
  {
    if m > 0 {
      WithoutOne(rs[1..], target, m - 1);
      assert rs[..m] == [rs[0]] + rs[1..][..m - 1] && rs[1..][m..] == rs[m + 1..];
    } else {
      WithoutNone(rs[1..], target);
    }
  }

  lemma {:induction false} WithoutNone(rs: seq<Record>, target: Name)
    requires forall i :: 0 <= i < |rs| ==> rs[i].path != target
    ensures Without(rs, target) == rs
  {
    if rs != [] {
      WithoutNone(rs[1..], target);
    }
  }

  /** The list a one-file sync commits. */
  lemma SyncMoves(rs: seq<Record>, target: Name, live: Inode, includeMetadata: bool) returns (m: nat)
    requires Rebuildable(rs) && SparseImage(live.data) && live.mode <= 0xFFF
    requires FileSyncOf(PayloadBytes(rs), |rs|, target, live, includeMetadata).Payload?
    ensures m < |rs| && rs[m].path == target && Replaces(Merged(rs[m], live, includeMetadata), rs[m])
    ensures FileSyncOf(PayloadBytes(rs), |rs|, target, live, includeMetadata).records
            == Moved(rs, m, Merged(rs[m], live, includeMetadata))
  {
    hide FileSyncOf, PayloadBytes, Fit, Without, HasParent, HasTarget, SparseImage, Merged;
    var was := FileSyncRecords(rs, target, live, includeMetadata);
    m :| 0 <= m < |rs| && rs[m] == was;
    forall i | 0 <= i < |rs| && i != m
      ensures rs[i].path != target
    {
      assert Key(rs[i]) != Key(rs[m]) by { if i < m { } else { } }
    }
    WithoutOne(rs, target, m);
    MergedFits(was, live, includeMetadata);
  }

  lemma MergedFits(was: Record, live: Inode, includeMetadata: bool)
    requires Fit(was) && was.kind in {KIND_FILE, KIND_SPARSE} && SparseImage(live.data) && live.mode <= 0xFFF
    ensures Replaces(Merged(was, live, includeMetadata), was)
  {
    hide NamesFit, ValidRelativePath, SparseImage;
  }

  /** What a one-file sync means for the next boot's tree: the tree rebuilt from
      the list it commits is the one rebuilt from the list before it with the
      target's file, under all its names, holding the live contents and
      modification tick, and after `fsync` all of the live metadata. */
  lemma FileSyncRebuilds(rs: seq<Record>, target: Name, live: Inode, includeMetadata: bool, tick: u64) returns (m: nat)
    requires Rebuildable(rs) && SparseImage(live.data) && live.mode <= 0xFFF
    requires FileSyncOf(PayloadBytes(rs), |rs|, target, live, includeMetadata).Payload?
    ensures Rebuildable(FileSyncOf(PayloadBytes(rs), |rs|, target, live, includeMetadata).records)
    ensures m < |rs| && rs[m].path == target && RebuildOf(rs, tick).Done?
    ensures var was, after := RebuildOf(rs, tick).tree,
                              RebuildOf(FileSyncOf(PayloadBytes(rs), |rs|, target, live, includeMetadata).records, tick);
            && after.Done? && Fold(target) in was.entries
            && var meta := if includeMetadata then Meta(live.mode, live.times, live.owner)
                           else Meta(rs[m].mode, rs[m].times.(modified := live.times.modified), rs[m].owner);
               SameTree(SetNode(was, was.entries[Fold(target)].node, File(meta, Decoded(live.data))), after.tree)
  {
    hide FileSyncOf, PayloadBytes, Rebuildable, Rebuilt, SameTree, RebuildOf, Fit, SparseImage, Decoded, Fold;
    m := SyncMoves(rs, target, live, includeMetadata);
    var r := Merged(rs[m], live, includeMetadata);
    MovedRebuildable(rs, m, r);
    RebuildMeaning(rs, tick);
    RebuildMeaning(Moved(rs, m, r), tick);
    var was := RebuildOf(rs, tick).tree;
    MovedRebuilt(was, rs, m, r);
    OneTree(Replaced(was, rs, m, r), RebuildOf(Moved(rs, m, r), tick).tree, Moved(rs, m, r));
  }
}
