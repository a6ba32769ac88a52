// `serialize` in src/runtime_persist.zig: the walk over the file tree that a
// global sync commits. The list it makes rebuilds the tree it walked.
module TreeWalk {
  import opened Bytes
  import opened Paths
  import opened JournalFormat
  import opened JournalRecords
  import opened FileSync
  import opened SparseFiles
  import opened JournalRestore
  import opened FileTree
  import opened TreeRebuild

  const MAX_LISTED: nat := 64
  const MAX_QUEUE: nat := 128

  /** A node within the limits the file system keeps. */
  predicate Kept(n: Node) {
    match n
    case Directory(meta) => meta.mode <= 0xFFF
    case File(meta, f) =>
      && meta.mode <= 0xFFF && f.size <= 32768 && |f.slots| == BLOCKS_PER_NODE
      && forall k :: 0 <= k < BLOCKS_PER_NODE && f.slots[k].Some? ==> |f.slots[k].value| == FILE_BLOCK
    case Symlink(meta, target) =>
      meta.mode == 0x1FF && 0 < |target| <= 255 && NamesFit(target) && 0 !in target
  }

  predicate AllKept(t: Tree) {
    forall n :: 0 <= n < |t.nodes| ==> Kept(t.nodes[n])
  }

  type Live = t: Tree | AllKept(t) witness EMPTY

  /** The tree with what a walk asks of it: the names of each directory in the
      order of its listing, and the path of each file's first entry. */
  datatype View = View(tree: Live, listing: map<seq<byte>, seq<seq<byte>>>, first: map<nat, seq<byte>>)

  datatype WalkError = WalkNoSpace | WalkInvalid

  datatype Walk = Walking(queue: seq<seq<byte>>, records: seq<Record>) | WalkFailed(error: WalkError)

  /** `sparseFileInfoNode`: one bit for each slot that has a block. */
  function BitmapOf(slots: seq<Slot>): (b: nat)
    ensures b < Pow2(|slots|)
  {
    if slots == [] then 0 else (if slots[0].Some? then 1 else 0) + 2 * BitmapOf(slots[1..])
  }

  function StoredFile(f: SparseFile): seq<byte>
    requires f.size <= 32768 && |f.slots| == BLOCKS_PER_NODE
  {
    assert Pow2(4) == 16 && Pow2(8) == 256;
    SparseData(BitmapOf(f.slots), f.size, BlocksOf(f))
  }

  lemma StoredSize(n: Node)
    requires n.File? && Kept(n)
    ensures SparseImage(StoredFile(n.contents))
  {
    assert Pow2(4) == 16 && Pow2(8) == 256;
    SparseDataRestores(BitmapOf(n.contents.slots), n.contents.size, BlocksOf(n.contents));
  }

  /** The record of an entry. */
  function RecordFor(v: View, path: Name, e: Entry): Option<Record>
    requires e.node < |v.tree.nodes|
  {
    var n := v.tree.nodes[e.node];
    match n
    case Directory(meta) => Some(Record(KIND_DIRECTORY, path, meta.mode, meta.times, meta.owner, []))
    case Symlink(meta, target) => Some(Record(KIND_SYMLINK, path, meta.mode, meta.times, meta.owner, target))
    case File(meta, contents) =>
      if e.node !in v.first then None
      else if Fold(v.first[e.node]) == Fold(path) then
        StoredSize(n);
        Some(Record(KIND_SPARSE, path, meta.mode, meta.times, meta.owner, StoredFile(contents)))
      else if |v.first[e.node]| > MAX_PATH then None
      else Some(Record(KIND_HARD_LINK, path, meta.mode, meta.times, meta.owner, v.first[e.node]))
  }

  /** What the loops of a directory do with one name. */
  function AddName(v: View, parent: seq<byte>, name: seq<byte>, w: Walk): (r: Walk)
    requires w.Walking?
    ensures r.Walking? ==> |w.queue| <= |r.queue| && r.queue[..|w.queue|] == w.queue
  {
    var child := ChildOf(parent, name);
    if !Absolute(child) then WalkFailed(WalkNoSpace)
    else if Fold(child) !in v.tree.entries then WalkFailed(WalkInvalid)
    else
      var e := v.tree.entries[Fold(child)];
      match RecordFor(v, child, e)
      case None => WalkFailed(WalkInvalid)
      case Some(r) =>
        if |PayloadBytes(w.records)| + |RecordBytes(r)| > MAX_PAYLOAD then WalkFailed(WalkNoSpace)
        else if !v.tree.nodes[e.node].Directory? then Walking(w.queue, w.records + [r])
        else if |w.queue| >= MAX_QUEUE then WalkFailed(WalkNoSpace)
        else Walking(w.queue + [child], w.records + [r])
  }

  predicate NamesDirectory(v: View, parent: seq<byte>, name: seq<byte>) {
    DirectoryAt(v.tree, Fold(ChildOf(parent, name)))
  }

  /** One of the two loops over the first `k` listed names: over the
      directories or over the others. */
  function AddNames(v: View, parent: seq<byte>, names: seq<seq<byte>>, k: nat, directories: bool, w: Walk): (r: Walk)
    requires k <= |names| && (w.Walking? ==> |w.queue| <= MAX_QUEUE)
    ensures r.Walking? ==> w.Walking? && |w.queue| <= |r.queue| <= MAX_QUEUE && r.queue[..|w.queue|] == w.queue
  {
    if k == 0 then w
    else
      var before := AddNames(v, parent, names, k - 1, directories, w);
      if before.WalkFailed? || NamesDirectory(v, parent, names[k - 1]) != directories then before
      else AddName(v, parent, names[k - 1], before)
  }

  function AddDirectory(v: View, parent: seq<byte>, w: Walk): (r: Walk)
    requires w.Walking? ==> |w.queue| <= MAX_QUEUE
    ensures r.Walking? ==> w.Walking? && |w.queue| <= |r.queue| <= MAX_QUEUE && r.queue[..|w.queue|] == w.queue
  {
    if Fold(parent) !in v.listing || |v.listing[Fold(parent)]| > MAX_LISTED then WalkFailed(WalkInvalid)
    else
      var names := v.listing[Fold(parent)];
      AddNames(v, parent, names, |names|, false, AddNames(v, parent, names, |names|, true, w))
  }

  /** The queue loop from `head` on. */
  function WalkFrom(v: View, head: nat, w: Walk): Walk
    requires w.Walking? ==> head <= |w.queue| <= MAX_QUEUE
    decreases MAX_QUEUE - head
  {
    if w.WalkFailed? || head == |w.queue| then w
    else WalkFrom(v, head + 1, AddDirectory(v, w.queue[head], w))
  }

  /** `serialize`. */
  function WalkOf(v: View): Walk {
    WalkFrom(v, 0, Walking([[]], []))
  }

  // ------------------------------------------------- what the file system keeps

  /** A path with every name as its entry spells it. */
  predicate Spells(t: Tree, path: seq<byte>)
    decreases |path|
  {
    || path == []
    || (Fold(path) in t.entries && t.entries[Fold(path)].name == NameOf(path) && Spells(t, ParentOf(path)))
  }

  predicate NamedAs(k: seq<byte>, name: seq<byte>) {
    k == ChildOf(ParentOf(k), Fold(name)) && Component(name) && |name| <= 31
  }

  ghost predicate ValidTree(t: Tree) {
    && Closed(t)
    && (forall k :: k in t.entries ==> NamedAs(k, t.entries[k].name))
    && (forall j, k :: j in t.entries && k in t.entries && j != k && t.entries[j].node == t.entries[k].node ==>
          t.nodes[t.entries[k].node].File?)
  }

  /** The names of a directory, each once. */
  ghost predicate ListingOf(t: Tree, k: seq<byte>, names: seq<seq<byte>>) {
    && (forall i :: 0 <= i < |names| ==> Listed(t, k, names[i]))
    && (forall i, j :: 0 <= i < j < |names| ==> names[i] != names[j])
    && (forall c :: c in t.entries && ParentOf(c) == k ==> t.entries[c].name in names)
  }

  predicate Listed(t: Tree, k: seq<byte>, name: seq<byte>) {
    ChildOf(k, Fold(name)) in t.entries && t.entries[ChildOf(k, Fold(name))].name == name
  }

  predicate NamesNode(t: Tree, n: nat, path: seq<byte>) {
    Fold(path) in t.entries && t.entries[Fold(path)].node == n && Spells(t, path)
  }

  ghost predicate ValidView(v: View) {
    && ValidTree(v.tree)
    && (forall k :: k == [] || DirectoryAt(v.tree, k) ==> k in v.listing && ListingOf(v.tree, k, v.listing[k]))
    && (forall k :: k in v.tree.entries && v.tree.nodes[v.tree.entries[k].node].File? ==>
          var n := v.tree.entries[k].node; n in v.first && NamesNode(v.tree, n, v.first[n]))
  }

  // ------------------------------------------------- what the walk keeps

  ghost predicate Has(rs: seq<Record>, k: seq<byte>) {
    exists i :: 0 <= i < |rs| && Key(rs[i]) == k
  }

  ghost predicate HasDirectory(rs: seq<Record>, k: seq<byte>) {
    exists i :: 0 <= i < |rs| && Key(rs[i]) == k && rs[i].kind == KIND_DIRECTORY
  }

  /** One of the first `n` of the queue. */
  ghost predicate InQueue(queue: seq<seq<byte>>, n: nat, k: seq<byte>)
    requires n <= |queue|
  {
    exists j :: 0 <= j < n && Fold(queue[j]) == k
  }

  predicate Taken(v: View, r: Record) {
    && Spells(v.tree, r.path) && Key(r) in v.tree.entries
    && RecordFor(v, r.path, v.tree.entries[Key(r)]) == Some(r) && Absolute(r.path)
  }

  ghost predicate DistinctKeys(rs: seq<Record>) {
    forall i, j :: 0 <= i < j < |rs| ==> Key(rs[i]) != Key(rs[j])
  }

  /** The records are of different entries, each behind its directory's. */
  ghost predicate Recorded(v: View, rs: seq<Record>) {
    && (forall i :: 0 <= i < |rs| ==> Taken(v, rs[i]) && HasParent(rs, i))
    && DistinctKeys(rs) && |PayloadBytes(rs)| <= MAX_PAYLOAD
  }

  /** The queue holds the root and the directories recorded. */
  ghost predicate Queued(v: View, queue: seq<seq<byte>>, rs: seq<Record>) {
    && |queue| > 0 && queue[0] == []
    && (forall j :: 0 <= j < |queue| ==> Spells(v.tree, queue[j]))
    && (forall j :: 0 < j < |queue| ==> HasDirectory(rs, Fold(queue[j])))
    && (forall i, j :: 0 <= i < j < |queue| ==> Fold(queue[i]) != Fold(queue[j]))
    && (forall i :: 0 <= i < |rs| && rs[i].kind == KIND_DIRECTORY ==> InQueue(queue, |queue|, Key(rs[i])))
  }

  /** Recorded are the entries of the first `head` directories of the queue and
      those in `more`. */
  ghost predicate Covered(v: View, queue: seq<seq<byte>>, rs: seq<Record>, head: nat, more: set<seq<byte>>)
    requires head <= |queue|
  {
    forall k :: k in v.tree.entries ==> (Has(rs, k) <==> k in more || InQueue(queue, head, ParentOf(k)))
  }

  ghost predicate Sweeping(v: View, w: Walk, head: nat, more: set<seq<byte>>) {
    && w.Walking? && head <= |w.queue|
    && Recorded(v, w.records) && Queued(v, w.queue, w.records) && Covered(v, w.queue, w.records, head, more)
  }

  lemma ChildKey(parent: seq<byte>, name: seq<byte>)
    requires SLASH !in name
    ensures ParentOf(Fold(ChildOf(parent, name))) == Fold(parent)
    ensures ParentOf(ChildOf(parent, name)) == parent && NameOf(ChildOf(parent, name)) == name
    ensures Fold(ChildOf(parent, name)) == ChildOf(Fold(parent), Fold(name))
  {
    ChildParts(parent, name);
    FoldParts(ChildOf(parent, name));
    FoldChild(parent, name);
  }

  /** A child of the directory being walked is not recorded yet. */
  lemma NotRecorded(v: View, queue: seq<seq<byte>>, rs: seq<Record>, head: nat, more: set<seq<byte>>, c: seq<byte>)
    requires head < |queue| && Queued(v, queue, rs) && Covered(v, queue, rs, head, more)
    requires c in v.tree.entries && ParentOf(c) == Fold(queue[head]) && c !in more
    ensures !Has(rs, c)
  {
    hide HasDirectory, Spells, Fold, ParentOf, Key;
  }

  lemma HasMore(rs: seq<Record>, r: Record, k: seq<byte>)
    ensures Has(rs + [r], k) <==> Has(rs, k) || Key(r) == k
    ensures HasDirectory(rs, k) ==> HasDirectory(rs + [r], k)
    ensures HasDirectory(rs + [r], k) ==> HasDirectory(rs, k) || (Key(r) == k && r.kind == KIND_DIRECTORY)
  {
    hide Key;
    var more := rs + [r];
    assert more[|rs|] == r && forall i :: 0 <= i < |rs| ==> more[i] == rs[i];
  }

  lemma RecordedMore(v: View, rs: seq<Record>, r: Record)
    requires Recorded(v, rs) && Taken(v, r) && !Has(rs, Key(r)) && |PayloadBytes(rs)| + |RecordBytes(r)| <= MAX_PAYLOAD
    requires ParentOf(Key(r)) == [] || HasDirectory(rs, ParentOf(Key(r)))
    ensures Recorded(v, rs + [r])
  {
    hide Taken, Key, ParentOf, RecordBytes, Serialize;
    var more := rs + [r];
    assert forall i :: 0 <= i < |rs| ==> more[i] == rs[i];
    SerializedSize(rs, r);
    forall i | 0 <= i < |more|
      ensures HasParent(more, i) && Taken(v, more[i])
    {
      if i < |rs| {
        assert HasParent(rs, i);
      }
    }
  }

  lemma QueuedMore(v: View, queue: seq<seq<byte>>, rs: seq<Record>, r: Record)
    requires Queued(v, queue, rs) && !Has(rs, Key(r)) && Key(r) != [] && Spells(v.tree, r.path)
    ensures r.kind != KIND_DIRECTORY ==> Queued(v, queue, rs + [r])
    ensures r.kind == KIND_DIRECTORY ==> Queued(v, queue + [r.path], rs + [r])
  {
    hide Spells, HasDirectory;
    var more, longer := rs + [r], queue + [r.path];
    assert forall i :: 0 <= i < |rs| ==> more[i] == rs[i];
    assert forall j :: 0 <= j < |queue| ==> longer[j] == queue[j];
    assert Fold([]) == [];
    forall j | 0 < j < |queue|
      ensures HasDirectory(more, Fold(queue[j])) && Fold(queue[j]) != Key(r)
    {
      HasMore(rs, r, Fold(queue[j]));
      DirectoryIsThere(rs, Fold(queue[j]));
    }
    if r.kind == KIND_DIRECTORY {
      NewDirectory(rs, r);
      assert longer[|queue|] == r.path;
      forall i | 0 <= i < |more| && more[i].kind == KIND_DIRECTORY
        ensures InQueue(longer, |longer|, Key(more[i]))
      {
        if i < |rs| {
          var j :| 0 <= j < |queue| && Fold(queue[j]) == Key(rs[i]) by { assert InQueue(queue, |queue|, Key(rs[i])); }
          assert longer[j] == queue[j];
        }
      }
    }
  }

  lemma NewDirectory(rs: seq<Record>, r: Record)
    requires r.kind == KIND_DIRECTORY
    ensures HasDirectory(rs + [r], Key(r))
  {
    hide Key;
    assert (rs + [r])[|rs|] == r;
  }

  lemma DirectoryIsThere(rs: seq<Record>, k: seq<byte>)
    ensures HasDirectory(rs, k) ==> Has(rs, k)
  {
    hide Key;
  }

  lemma CoveredMore(v: View, queue: seq<seq<byte>>, longer: seq<seq<byte>>, rs: seq<Record>, r: Record, head: nat,
                    more: set<seq<byte>>)
    requires head <= |queue| <= |longer| && longer[..|queue|] == queue && Covered(v, queue, rs, head, more)
    ensures Covered(v, longer, rs + [r], head, more + {Key(r)})
  {
    hide Has, Key, ParentOf, Fold;
    assert forall j :: 0 <= j < head ==> longer[j] == longer[..|queue|][j] == queue[j];
    forall k | k in v.tree.entries
      ensures Has(rs + [r], k) <==> k in more + {Key(r)} || InQueue(longer, head, ParentOf(k))
    {
      HasMore(rs, r, k);
    }
  }

  /** One listed name of the directory being walked. */
  lemma AddKeeps(v: View, w: Walk, head: nat, more: set<seq<byte>>, name: seq<byte>)
    requires ValidView(v) && Sweeping(v, w, head, more) && head < |w.queue|
    requires Listed(v.tree, Fold(w.queue[head]), name)
    requires Fold(ChildOf(w.queue[head], name)) !in more
    requires AddName(v, w.queue[head], name, w).Walking?
    ensures Sweeping(v, AddName(v, w.queue[head], name, w), head, more + {Fold(ChildOf(w.queue[head], name))})
    ensures AddName(v, w.queue[head], name, w).queue[..|w.queue|] == w.queue
  {
    hide Recorded, Queued, Covered, ListingOf, Fold, NameOf, ParentOf, ChildOf, RecordBytes, RecordFor, Serialize;
    var parent := w.queue[head];
    var child := ChildOf(parent, name);
    ListedChild(v.tree, parent, name);
    var e := v.tree.entries[Fold(child)];
    assert Under(v.tree, Fold(child));
    QueuedSpells(v, w.queue, w.records, head);
    var r := RecordFor(v, child, e).value;
    RecordIs(v, child, e);
    NotRecorded(v, w.queue, w.records, head, more, Key(r));
    RecordedMore(v, w.records, r);
    QueuedMore(v, w.queue, w.records, r);
    var longer := if v.tree.nodes[e.node].Directory? then w.queue + [child] else w.queue;
    CoveredMore(v, w.queue, longer, w.records, r, head, more);
  }

  /** The child a listed name names. */
  lemma ListedChild(t: Tree, parent: seq<byte>, name: seq<byte>)
    requires ValidTree(t) && Listed(t, Fold(parent), name)
    ensures var child := ChildOf(parent, name);
            && ParentOf(Fold(child)) == Fold(parent) && ParentOf(child) == parent && NameOf(child) == name
            && Fold(child) in t.entries && t.entries[Fold(child)].name == name
            && (Spells(t, parent) ==> Spells(t, child))
  {
    hide Closed, Fold, NameOf, ParentOf;
    FoldChild(parent, name);
    assert NamedAs(ChildOf(Fold(parent), Fold(name)), name);
    ChildKey(parent, name);
  }

  lemma QueuedSpells(v: View, queue: seq<seq<byte>>, rs: seq<Record>, head: nat)
    requires Queued(v, queue, rs) && head < |queue|
    ensures Spells(v.tree, queue[head])
    ensures Fold(queue[head]) == [] || HasDirectory(rs, Fold(queue[head]))
  {
    hide Spells, HasDirectory;
    assert Fold([]) == [];
  }

  lemma RecordIs(v: View, path: Name, e: Entry)
    requires e.node < |v.tree.nodes| && RecordFor(v, path, e).Some?
    ensures var r := RecordFor(v, path, e).value;
            r.path == path && (r.kind == KIND_DIRECTORY <==> v.tree.nodes[e.node].Directory?)
  {
    hide StoredFile, Fold;
  }

  // ------------------------------------------------- a whole directory

  /** The children among the first `k` names that a loop takes. */
  ghost function Children(v: View, parent: seq<byte>, names: seq<seq<byte>>, k: nat, directories: bool): set<seq<byte>>
    requires k <= |names|
  {
    if k == 0 then {}
    else if NamesDirectory(v, parent, names[k - 1]) != directories then Children(v, parent, names, k - 1, directories)
    else Children(v, parent, names, k - 1, directories) + {Fold(ChildOf(parent, names[k - 1]))}
  }

  lemma {:induction false} ChildIn(v: View, parent: seq<byte>, names: seq<seq<byte>>, k: nat, directories: bool, c: seq<byte>)
    requires k <= |names|
    ensures c in Children(v, parent, names, k, directories) <==>
              exists i :: 0 <= i < k && NamesDirectory(v, parent, names[i]) == directories && Fold(ChildOf(parent, names[i])) == c
  {
    hide NamesDirectory, Fold, ChildOf;
    if k > 0 {
      ChildIn(v, parent, names, k - 1, directories, c);
    }
  }

  /** `more` are children that the other loop takes. */
  ghost predicate TakenBefore(v: View, parent: seq<byte>, names: seq<seq<byte>>, directories: bool, more: set<seq<byte>>) {
    forall c :: c in more ==>
      exists i :: 0 <= i < |names| && c == Fold(ChildOf(parent, names[i])) && NamesDirectory(v, parent, names[i]) != directories
  }

  /** The next name a loop takes is a new child. */
  lemma NextIsNew(v: View, parent: seq<byte>, names: seq<seq<byte>>, k: nat, directories: bool, more: set<seq<byte>>)
    requires ValidView(v) && ListingOf(v.tree, Fold(parent), names) && k < |names|
    requires TakenBefore(v, parent, names, directories, more) && NamesDirectory(v, parent, names[k]) == directories
    ensures Fold(ChildOf(parent, names[k])) !in more + Children(v, parent, names, k, directories)
    ensures Listed(v.tree, Fold(parent), names[k])
  {
    hide ValidView, ListingOf, Listed, Fold, ChildOf, NamesDirectory;
    ChildIn(v, parent, names, k, directories, Fold(ChildOf(parent, names[k])));
    DistinctChildren(v, parent, names);
  }

  lemma {:induction false} LoopKeeps(v: View, w: Walk, head: nat, names: seq<seq<byte>>, k: nat, directories: bool,
                                     more: set<seq<byte>>)
    requires ValidView(v) && Sweeping(v, w, head, more) && head < |w.queue| <= MAX_QUEUE && k <= |names|
    requires ListingOf(v.tree, Fold(w.queue[head]), names)
    requires TakenBefore(v, w.queue[head], names, directories, more)
    requires AddNames(v, w.queue[head], names, k, directories, w).Walking?
    ensures var u := AddNames(v, w.queue[head], names, k, directories, w);
            && Sweeping(v, u, head, more + Children(v, w.queue[head], names, k, directories))
            && u.queue[..|w.queue|] == w.queue
  {
    hide ValidView, ListingOf, Listed, TakenBefore, Sweeping, AddName, Fold, ChildOf, NamesDirectory;
    var parent := w.queue[head];
    if k > 0 {
      LoopKeeps(v, w, head, names, k - 1, directories, more);
      var u, name := AddNames(v, parent, names, k - 1, directories, w), names[k - 1];
      var so := more + Children(v, parent, names, k - 1, directories);
      if NamesDirectory(v, parent, name) == directories {
        NextIsNew(v, parent, names, k - 1, directories, more);
        assert u.queue[head] == u.queue[..|w.queue|][head];
        AddKeeps(v, u, head, so, name);
        assert so + {Fold(ChildOf(parent, name))} == more + Children(v, parent, names, k, directories);
        Prefixes(AddName(v, parent, name, u).queue, u.queue, w.queue);
      }
    } else {
      assert more + {} == more;
    }
  }

  lemma Prefixes(a: seq<seq<byte>>, b: seq<seq<byte>>, c: seq<seq<byte>>)
    requires |c| <= |b| <= |a| && a[..|b|] == b && b[..|c|] == c
    ensures a[..|c|] == c
  {
    assert a[..|c|] == a[..|b|][..|c|];
  }

  lemma DistinctChildren(v: View, parent: seq<byte>, names: seq<seq<byte>>)
    requires ValidView(v) && ListingOf(v.tree, Fold(parent), names)
    ensures forall i, j :: 0 <= i < j < |names| ==> Fold(ChildOf(parent, names[i])) != Fold(ChildOf(parent, names[j]))
    ensures forall i :: 0 <= i < |names| ==> Listed(v.tree, Fold(parent), names[i])
  {
    hide Fold, ChildOf, Closed;
    forall i, j | 0 <= i < j < |names|
      ensures Fold(ChildOf(parent, names[i])) != Fold(ChildOf(parent, names[j]))
    {
      assert Listed(v.tree, Fold(parent), names[i]) && Listed(v.tree, Fold(parent), names[j]);
      FoldChild(parent, names[i]);
      FoldChild(parent, names[j]);
    }
  }

  /** Both loops over the children of a directory. */
  lemma DirectoryKeeps(v: View, w: Walk, head: nat)
    requires ValidView(v) && Sweeping(v, w, head, {}) && head < |w.queue| <= MAX_QUEUE
    requires AddDirectory(v, w.queue[head], w).Walking?
    ensures Sweeping(v, AddDirectory(v, w.queue[head], w), head + 1, {})
  {
    hide Sweeping, AddNames, ListingOf, Fold, ValidTree, Children, TakenBefore, DirectoryAt;
    var parent := w.queue[head];
    var names := v.listing[Fold(parent)];
    QueuedLists(v, w, head);
    TakenNothing(v, parent, names);
    LoopKeeps(v, w, head, names, |names|, true, {});
    var u := AddNames(v, parent, names, |names|, true, w);
    var first := {} + Children(v, parent, names, |names|, true);
    assert u.queue[head] == u.queue[..|w.queue|][head];
    OtherLoop(v, parent, names);
    LoopKeeps(v, u, head, names, |names|, false, first);
    var x := AddNames(v, parent, names, |names|, false, u);
    assert x.queue[head] == x.queue[..|u.queue|][head];
    AllChildren(v, parent, names);
    NextHead(v, x, head, first + Children(v, parent, names, |names|, false));
  }

  lemma TakenNothing(v: View, parent: seq<byte>, names: seq<seq<byte>>)
    ensures TakenBefore(v, parent, names, true, {})
  {
  }

  lemma OtherLoop(v: View, parent: seq<byte>, names: seq<seq<byte>>)
    ensures TakenBefore(v, parent, names, false, {} + Children(v, parent, names, |names|, true))
  {
    hide Fold, ChildOf, NamesDirectory;
    forall c
      ensures c in Children(v, parent, names, |names|, true) <==>
                exists i :: 0 <= i < |names| && NamesDirectory(v, parent, names[i]) && Fold(ChildOf(parent, names[i])) == c
    {
      ChildIn(v, parent, names, |names|, true, c);
    }
  }

  /** A queued directory has its listing. */
  lemma QueuedLists(v: View, w: Walk, head: nat)
    requires ValidView(v) && Sweeping(v, w, head, {}) && head < |w.queue|
    ensures var k := Fold(w.queue[head]); k in v.listing && ListingOf(v.tree, k, v.listing[k])
  {
    hide ListingOf, Fold, ValidTree, Covered, RecordFor;
    var k := Fold(w.queue[head]);
    QueuedSpells(v, w.queue, w.records, head);
    if k != [] {
      var i :| 0 <= i < |w.records| && Key(w.records[i]) == k && w.records[i].kind == KIND_DIRECTORY;
      assert Taken(v, w.records[i]);
      RecordIs(v, w.records[i].path, v.tree.entries[k]);
    }
  }

  /** The two loops together take every child. */
  lemma AllChildren(v: View, parent: seq<byte>, names: seq<seq<byte>>)
    requires ValidView(v) && ListingOf(v.tree, Fold(parent), names)
    ensures var both := Children(v, parent, names, |names|, true) + Children(v, parent, names, |names|, false);
            forall c :: c in v.tree.entries ==> (c in both <==> ParentOf(c) == Fold(parent))
  {
    hide Fold, ChildOf, NameOf, ParentOf, Closed;
    forall c | c in v.tree.entries
      ensures c in Children(v, parent, names, |names|, true) + Children(v, parent, names, |names|, false)
              <==> ParentOf(c) == Fold(parent)
    {
      ChildIn(v, parent, names, |names|, true, c);
      ChildIn(v, parent, names, |names|, false, c);
      ChildListed(v, parent, names, c);
    }
  }

  lemma ChildListed(v: View, parent: seq<byte>, names: seq<seq<byte>>, c: seq<byte>)
    requires ValidView(v) && ListingOf(v.tree, Fold(parent), names) && c in v.tree.entries
    ensures ParentOf(c) == Fold(parent) <==> exists i :: 0 <= i < |names| && Fold(ChildOf(parent, names[i])) == c
  {
    hide Fold, ChildOf, NameOf, ParentOf;
    if ParentOf(c) == Fold(parent) {
      var name := v.tree.entries[c].name;
      assert NamedAs(c, name) && Under(v.tree, c);
      FoldChild(parent, name);
    }
    if i :| 0 <= i < |names| && Fold(ChildOf(parent, names[i])) == c {
      assert Listed(v.tree, Fold(parent), names[i]);
      ListedChild(v.tree, parent, names[i]);
    }
  }

  lemma NextHead(v: View, x: Walk, head: nat, more: set<seq<byte>>)
    requires Sweeping(v, x, head, more) && head < |x.queue|
    requires forall c :: c in v.tree.entries ==> (c in more <==> ParentOf(c) == Fold(x.queue[head]))
    ensures Sweeping(v, x, head + 1, {})
  {
    hide Recorded, Queued, Fold, ParentOf, Has;
    forall k | k in v.tree.entries
      ensures Has(x.records, k) <==> InQueue(x.queue, head + 1, ParentOf(k))
    {
      assert InQueue(x.queue, head + 1, ParentOf(k)) <==> InQueue(x.queue, head, ParentOf(k)) || Fold(x.queue[head]) == ParentOf(k);
    }
  }

  // ------------------------------------------------- the whole walk

  lemma WalkStarts(v: View)
    ensures Sweeping(v, Walking([[]], []), 0, {})
  {
  }

  lemma {:induction false} WalkKeeps(v: View, head: nat, w: Walk)
    requires ValidView(v) && Sweeping(v, w, head, {}) && |w.queue| <= MAX_QUEUE
    requires WalkFrom(v, head, w).Walking?
    ensures var u := WalkFrom(v, head, w); Sweeping(v, u, |u.queue|, {})
    decreases MAX_QUEUE - head
  {
    hide ValidView, AddDirectory, Recorded, Queued, Covered;
    if head < |w.queue| {
      DirectoryKeeps(v, w, head);
      WalkKeeps(v, head + 1, AddDirectory(v, w.queue[head], w));
    }
  }

  /** A finished walk has recorded every entry. */
  lemma {:induction false} Complete(v: View, w: Walk, k: seq<byte>)
    requires ValidView(v) && w.Walking? && Sweeping(v, w, |w.queue|, {}) && k in v.tree.entries
    ensures Has(w.records, k)
    decreases |k|
  {
    hide ListingOf, Fold, RecordFor, HasParent, Spells;
    var parent := ParentOf(k);
    assert Under(v.tree, k);
    if parent == [] {
      assert Fold([]) == [];
      assert Fold(w.queue[0]) == parent;
    } else {
      Complete(v, w, parent);
      var i :| 0 <= i < |w.records| && Key(w.records[i]) == parent;
      assert Taken(v, w.records[i]);
      RecordIs(v, w.records[i].path, v.tree.entries[parent]);
      assert InQueue(w.queue, |w.queue|, parent);
    }
    assert InQueue(w.queue, |w.queue|, parent);
  }

  // ------------------------------------------------- what the list is

  lemma {:induction false} BitmapBit(slots: seq<Slot>, k: nat)
    requires k < |slots|
    ensures Bit(BitmapOf(slots), k) == 1 <==> slots[k].Some?
  {
    if k > 0 {
      BitmapBit(slots[1..], k - 1);
    }
  }

  /** What a restore decodes is the file that was stored. */
  lemma StoredReturns(n: Node)
    requires n.File? && Kept(n)
    ensures SparseImage(StoredFile(n.contents)) && Decoded(StoredFile(n.contents)) == n.contents
  {
    hide SparseImage, SparseData, Decoded, Bit, BitmapOf;
    var f := n.contents;
    assert Pow2(4) == 16 && Pow2(8) == 256;
    var b: byte := BitmapOf(f.slots);
    DecodedOfEncoded(b, f.size, BlocksOf(f));
    var g := Decoded(StoredFile(f));
    forall k | 0 <= k < BLOCKS_PER_NODE
      ensures g.slots[k] == f.slots[k]
    {
      BitmapBit(f.slots, k);
      BitIsQuotient(b, k);
    }
    assert g.slots == f.slots;
  }

  lemma {:induction false} SpelledIsValid(v: View, path: seq<byte>)
    requires ValidTree(v.tree) && Spells(v.tree, path) && path != []
    ensures ValidRelativePath(path) && NamesFit(path)
    decreases |path|
  {
    hide Fold, ValidRelativePath, NamesFit, Component, Closed;
    var parent, name := ParentOf(path), NameOf(path);
    assert NamedAs(Fold(path), v.tree.entries[Fold(path)].name);
    ChildPath(parent, name);
    FirstNotSlash(v.tree, path);
    assert ChildOf(parent, name) == path by { hide *; Reassembled(path); }
    if parent == [] {
      NamesFitChild([], name) by { assert NamesFit([]) by { NothingFits(); } }
    } else {
      SpelledIsValid(v, parent);
      NamesFitChild(parent, name);
    }
  }

  lemma NothingFits()
    ensures NamesFit([])
  {
  }

  /** A path is its directory's child. */
  lemma Reassembled(p: seq<byte>)
    requires p != [] && (ParentOf(p) == [] ==> p[0] != SLASH)
    ensures ChildOf(ParentOf(p), NameOf(p)) == p
  {
  }

  lemma FirstNotSlash(t: Tree, path: seq<byte>)
    requires ValidTree(t) && Fold(path) in t.entries && path != []
    ensures ParentOf(path) == [] ==> path[0] != SLASH
  {
    hide Closed;
    var k := Fold(path);
    assert NamedAs(k, t.entries[k].name);
    FoldParts(path);
    assert ParentOf(k) == [] ==> k == Fold(t.entries[k].name);
    assert Component(t.entries[k].name);
  }

  lemma TakenFits(v: View, w: Walk, r: Record)
    requires ValidView(v) && w.Walking? && Sweeping(v, w, |w.queue|, {}) && Taken(v, r)
    ensures Fit(r)
  {
    hide Fold, ValidRelativePath, NamesFit, ValidView, Sweeping, RecordFor, Fit, LinkData, Spells, Kept, NamesNode;
    var e := v.tree.entries[Key(r)];
    KeyUnder(v, Key(r));
    SpelledIsValid(v, r.path);
    RecordData(v, r.path, e);
    if r.kind == KIND_HARD_LINK {
      LinkFits(v, w, e.node);
      LinkedFits(r);
    } else {
      NodeFits(r, v.tree.nodes[e.node]);
    }
  }

  lemma LinkedFits(r: Record)
    requires ValidRelativePath(r.path) && NamesFit(r.path) && Absolute(r.path) && r.kind == KIND_HARD_LINK
    requires LinkData(r.data) && Absolute(r.data) && NamesFit(r.data) && 0 !in r.data
    ensures Fit(r)
  {
    hide ValidRelativePath, NamesFit, LinkData;
  }

  lemma NodeFits(r: Record, n: Node)
    requires ValidRelativePath(r.path) && NamesFit(r.path) && Absolute(r.path) && Kept(n) && r.mode == n.meta.mode
    requires match r.kind
             case 1 => n.Directory? && r.data == []
             case 3 => n.Symlink? && r.data == n.target
             case 5 => n.File? && SparseImage(r.data)
             case _ => false
    ensures Fit(r)
  {
    hide ValidRelativePath, NamesFit, SparseImage;
  }

  lemma KeyUnder(v: View, k: seq<byte>)
    requires ValidView(v) && k in v.tree.entries
    ensures k != [] && ValidTree(v.tree)
    ensures var n := v.tree.entries[k].node;
            v.tree.nodes[n].File? ==> n in v.first && NamesNode(v.tree, n, v.first[n])
  {
    hide ListingOf, Fold, Spells;
    assert Under(v.tree, k);
  }

  /** The data of a record, kind by kind. */
  lemma RecordData(v: View, path: Name, e: Entry)
    requires e.node < |v.tree.nodes| && RecordFor(v, path, e).Some?
    ensures var r, n := RecordFor(v, path, e).value, v.tree.nodes[e.node];
            && Kept(n)
            && match r.kind
               case 1 => n.Directory? && r.data == []
               case 3 => n.Symlink? && r.data == n.target
               case 4 => n.File? && e.node in v.first && r.data == v.first[e.node] && Fold(v.first[e.node]) != Fold(path)
               case 5 => n.File? && e.node in v.first && Fold(v.first[e.node]) == Fold(path)
                         && r.data == StoredFile(n.contents) && SparseImage(r.data)
               case _ => false
    ensures var r, n := RecordFor(v, path, e).value, v.tree.nodes[e.node];
            r.mode == n.meta.mode && r.times == n.meta.times && r.owner == n.meta.owner && r.path == path
  {
    hide StoredFile, Fold, SparseImage;
    if v.tree.nodes[e.node].File? {
      StoredSize(v.tree.nodes[e.node]);
    }
  }

  lemma LinkFits(v: View, w: Walk, n: nat)
    requires ValidView(v) && w.Walking? && Sweeping(v, w, |w.queue|, {})
    requires n in v.first && NamesNode(v.tree, n, v.first[n])
    ensures Absolute(v.first[n]) && NamesFit(v.first[n]) && 0 !in v.first[n] && LinkData(v.first[n])
  {
    hide Sweeping, Fold, ValidRelativePath, NamesFit, ValidView;
    var p := v.first[n];
    FirstIsShort(v, w, n);
    KeyUnder(v, Fold(p));
    SpelledIsValid(v, p);
    ValidHasNoZero(p);
  }

  lemma ValidHasNoZero(p: seq<byte>)
    requires ValidRelativePath(p)
    ensures 0 !in p
  {
    hide ComponentsOk;
  }

  /** A file's first path is recorded too, so it is as short as all recorded
      paths are. */
  lemma FirstIsShort(v: View, w: Walk, n: nat)
    requires ValidView(v) && w.Walking? && Sweeping(v, w, |w.queue|, {})
    requires n in v.first && NamesNode(v.tree, n, v.first[n])
    ensures Absolute(v.first[n])
  {
    hide ValidView, Queued, Covered, Spells, RecordFor, HasParent;
    Complete(v, w, Fold(v.first[n]));
    var i :| 0 <= i < |w.records| && Key(w.records[i]) == Fold(v.first[n]);
    assert Taken(v, w.records[i]);
    assert |w.records[i].path| == |Key(w.records[i])|;
  }

  /** The walked list names directories first, and files behind its links. */
  lemma WalkRebuildable(v: View, w: Walk)
    requires ValidView(v) && w.Walking? && Sweeping(v, w, |w.queue|, {})
    ensures Rebuildable(w.records)
  {
    hide Queued, Covered, Fit, ValidView, Taken, HasParent;
    var rs := w.records;
    forall i | 0 <= i < |rs|
      ensures Fit(rs[i]) && HasParent(rs, i) && (IsLink(rs[i]) ==> HasTarget(rs, i))
    {
      assert Taken(v, rs[i]);
      TakenFits(v, w, rs[i]);
      if IsLink(rs[i]) {
        LinkHasTarget(v, w, i);
      }
    }
  }

  lemma LinkHasTarget(v: View, w: Walk, i: nat)
    requires ValidView(v) && w.Walking? && Sweeping(v, w, |w.queue|, {})
    requires i < |w.records| && Taken(v, w.records[i]) && IsLink(w.records[i])
    ensures exists j :: 0 <= j < |w.records| && NamesFile(w.records[i], w.records[j])
                        && EntryNode(v, Key(w.records[i])) == EntryNode(v, Key(w.records[j]))
  {
    hide Sweeping, ValidView, RecordFor, Fold, Spells, Kept, StoredFile, SparseImage, ValidTree;
    var r := w.records[i];
    var e := v.tree.entries[Key(r)];
    RecordData(v, r.path, e);
    KeyUnder(v, Key(r));
    var p := v.first[e.node];
    var j := FirstRecorded(v, w, e.node);
  }

  /** The record of a file's first entry holds its contents. */
  lemma FirstRecorded(v: View, w: Walk, n: nat) returns (j: nat)
    requires ValidView(v) && w.Walking? && Sweeping(v, w, |w.queue|, {})
    requires n < |v.tree.nodes| && v.tree.nodes[n].File? && n in v.first && NamesNode(v.tree, n, v.first[n])
    ensures j < |w.records| && Key(w.records[j]) == Fold(v.first[n])
    ensures w.records[j].kind == KIND_SPARSE && EntryNode(v, Key(w.records[j])) == n
  {
    hide Sweeping, ValidView, RecordFor, Fold, Spells, Kept, StoredFile, SparseImage;
    var k := Fold(v.first[n]);
    Complete(v, w, k);
    j :| 0 <= j < |w.records| && Key(w.records[j]) == k;
    SweptTaken(v, w, j);
    RecordData(v, w.records[j].path, v.tree.entries[k]);
  }

  function EntryNode(v: View, k: seq<byte>): nat {
    if k in v.tree.entries then v.tree.entries[k].node else 0
  }

  lemma SweptTaken(v: View, w: Walk, j: nat)
    requires w.Walking? && Sweeping(v, w, |w.queue|, {}) && j < |w.records|
    ensures Taken(v, w.records[j])
  {
    hide Taken, Queued, Covered, HasParent;
  }

  lemma TakenShaped(v: View, r: Record)
    requires Taken(v, r) && Fit(r) && !IsLink(r)
    ensures Shaped(v.tree, r)
  {
    hide Fold, Spells, SparseImage, StoredFile, RecordFor, Fit, Decoded, Plain;
    var e := v.tree.entries[Key(r)];
    RecordData(v, r.path, e);
    if r.kind == KIND_SPARSE {
      StoredReturns(v.tree.nodes[e.node]);
    }
  }

  lemma TakenHolds(v: View, r: Record)
    requires Taken(v, r)
    ensures Key(r) != [] ==> Holds(v.tree, r)
    ensures Number(v.tree, r) == EntryNode(v, Key(r))
    ensures NodeFor(v.tree, r).meta.times == r.times && NodeFor(v.tree, r).meta.owner == r.owner
  {
    hide Fold, RecordFor, Absolute;
    RecordData(v, r.path, v.tree.entries[Key(r)]);
  }

  /** Two records that are no links are of different nodes. */
  lemma TakenApart(v: View, r: Record, q: Record)
    requires ValidView(v) && Taken(v, r) && Taken(v, q) && !IsLink(r) && !IsLink(q) && Key(r) != Key(q)
    ensures Number(v.tree, r) != Number(v.tree, q)
  {
    hide Fold, RecordFor, Spells, StoredFile, SparseImage, ListingOf, Closed, Kept;
    RecordData(v, r.path, v.tree.entries[Key(r)]);
    RecordData(v, q.path, v.tree.entries[Key(q)]);
  }

  /** The walked tree is the one its list describes. */
  lemma WalkDescribes(v: View, w: Walk)
    requires ValidView(v) && w.Walking? && Sweeping(v, w, |w.queue|, {}) && Rebuildable(w.records)
    ensures Rebuilt(v.tree, w.records)
  {
    hide ValidView, Sweeping, Fit, Described, Taken, Key, Holds, Shaped, HasParent, Number, NodeFor, NamesFile;
    var rs := w.records;
    var done := Upto(rs, |rs|, |rs|);
    forall i | 0 <= i < |rs|
      ensures Fit(rs[i]) && Holds(v.tree, rs[i]) && (!IsLink(rs[i]) ==> Shaped(v.tree, rs[i]))
      ensures NodeFor(v.tree, rs[i]).meta.times == rs[i].times && NodeFor(v.tree, rs[i]).meta.owner == rs[i].owner
    {
      SweptTaken(v, w, i);
      TakenHolds(v, rs[i]);
      PathSet(rs[i]);
      if !IsLink(rs[i]) {
        TakenShaped(v, rs[i]);
      }
    }
    forall k | k in v.tree.entries
      ensures exists i :: i in done && Key(rs[i]) == k
    {
      Complete(v, w, k);
      var i :| 0 <= i < |rs| && Key(rs[i]) == k;
      assert i in done;
    }
    DescribedApart(v, w);
    DescribedLinks(v, w);
  }

  lemma DescribedApart(v: View, w: Walk)
    requires ValidView(v) && w.Walking? && Sweeping(v, w, |w.queue|, {}) && Rebuildable(w.records)
    ensures Apart(v.tree, w.records, Upto(w.records, |w.records|, |w.records|))
  {
    hide ValidView, Sweeping, Fit, Taken, Key, HasParent, Number, HasTarget, IsLink;
    var rs := w.records;
    forall i, j | 0 <= i < |rs| && 0 <= j < |rs| && i != j && !IsLink(rs[i]) && !IsLink(rs[j])
      ensures Number(v.tree, rs[i]) != Number(v.tree, rs[j])
    {
      SweptTaken(v, w, i);
      SweptTaken(v, w, j);
      assert Key(rs[i]) != Key(rs[j]) by { if i < j { } else { } }
      TakenApart(v, rs[i], rs[j]);
    }
  }

  lemma DescribedLinks(v: View, w: Walk)
    requires ValidView(v) && w.Walking? && Sweeping(v, w, |w.queue|, {})
    ensures var rs := w.records;
            forall i :: 0 <= i < |rs| && IsLink(rs[i]) ==> Linked(v.tree, rs, Upto(rs, |rs|, |rs|), i)
  {
    hide ValidView, Sweeping, Taken, Number, IsLink, NamesFile, EntryNode, Key;
    var rs := w.records;
    var done := Upto(rs, |rs|, |rs|);
    forall i | 0 <= i < |rs| && IsLink(rs[i])
      ensures Linked(v.tree, rs, done, i)
    {
      SweptTaken(v, w, i);
      LinkHasTarget(v, w, i);
      var j :| 0 <= j < |rs| && NamesFile(rs[i], rs[j]) && EntryNode(v, Key(rs[i])) == EntryNode(v, Key(rs[j]));
      SweptTaken(v, w, j);
      TakenHolds(v, rs[i]);
      TakenHolds(v, rs[j]);
      assert Reached(rs, j, |rs|, |rs|);
      assert j in done;
    }
  }

  /** A sync followed by a restore gives back the tree: the walked list is one
      the kernel's restore accepts, every operation of that restore succeeds, and
      the tree it makes has the same names for the same nodes. */
  lemma SyncThenRestore(v: View, tick: u64)
    requires ValidView(v) && WalkOf(v).Walking?
    ensures var rs := WalkOf(v).records;
            && WriterList(rs) && Rebuildable(rs) && Rebuilt(v.tree, rs)
            && RebuildOf(rs, tick).Done? && SameTree(v.tree, RebuildOf(rs, tick).tree)
  {
    hide ValidView, Sweeping, Rebuildable, Rebuilt, SameTree, WalkFrom, RebuildOf;
    WalkStarts(v);
    var w := WalkOf(v);
    WalkKeeps(v, 0, Walking([[]], []));
    WalkRebuildable(v, w);
    WalkDescribes(v, w);
    RebuildMeaning(w.records, tick);
    OneTree(v.tree, RebuildOf(w.records, tick).tree, w.records);
    WalkFitsSlot(v, w);
  }

  lemma WalkFitsSlot(v: View, w: Walk)
    requires w.Walking? && Sweeping(v, w, |w.queue|, {}) && Rebuildable(w.records)
    ensures WriterList(w.records)
  {
    hide Taken, Restorable, HasParent, HasTarget, Queued, Covered, Key;
    assert forall i :: 0 <= i < |w.records| ==> Fit(w.records[i]);
  }

  // ------------------------------------------------- which trees fit

  ghost predicate AllTaken(v: View, rs: seq<Record>) {
    forall i :: 0 <= i < |rs| ==> Taken(v, rs[i])
  }

  ghost function Directories(t: Tree): set<seq<byte>> {
    set k | k in t.entries && t.nodes[t.entries[k].node].Directory?
  }

  /** The limits of a slot and of the walk: paths of at most 255 bytes with the
      mount's nine, 64 names in a directory, 128 directories with the root, and
      65536 bytes for the records of all entries. */
  ghost predicate Small(v: View) {
    && (forall k :: k in v.tree.entries ==> |k| <= 246)
    && (forall k :: k in v.listing && (k == [] || DirectoryAt(v.tree, k)) ==> |v.listing[k]| <= 64)
    && |Directories(v.tree)| <= 127
    && (forall rs :: AllTaken(v, rs) && DistinctKeys(rs) ==> 4 + |Serialize(rs)| <= 65536)
  }

  lemma {:induction false} DistinctInside(ks: seq<seq<byte>>, s: set<seq<byte>>)
    requires forall i :: 0 <= i < |ks| ==> ks[i] in s
    requires forall i, j :: 0 <= i < j < |ks| ==> ks[i] != ks[j]
    ensures |ks| <= |s|
  {
    if ks != [] {
      DistinctInside(ks[1..], s - {ks[0]});
    }
  }

  /** The directories in the queue, and one more that is not. */
  lemma QueueFits(v: View, w: Walk, head: nat, more: set<seq<byte>>, c: seq<byte>)
    requires Sweeping(v, w, head, more) && c in Directories(v.tree) && !Has(w.records, c)
    ensures |w.queue| <= |Directories(v.tree)|
  {
    hide Spells, RecordFor, HasParent, Covered;
    var q := w.queue;
    var ks := seq(|q|, j requires 0 <= j < |q| => if j == 0 then c else Fold(q[j]));
    forall j | 0 < j < |q|
      ensures ks[j] in Directories(v.tree) && ks[j] != c
    {
      var i :| 0 <= i < |w.records| && Key(w.records[i]) == Fold(q[j]) && w.records[i].kind == KIND_DIRECTORY by {
        assert HasDirectory(w.records, Fold(q[j]));
      }
      assert Taken(v, w.records[i]);
      RecordIs(v, w.records[i].path, v.tree.entries[ks[j]]);
    }
    DistinctInside(ks, Directories(v.tree));
  }

  /** The entry of a short path has a record. */
  lemma HasRecord(v: View, path: Name)
    requires ValidView(v) && Fold(path) in v.tree.entries && forall k :: k in v.tree.entries ==> |k| <= 246
    ensures RecordFor(v, path, v.tree.entries[Fold(path)]).Some?
  {
    hide ListingOf, ValidTree, Spells, StoredFile, BitmapOf;
    var e := v.tree.entries[Fold(path)];
    if v.tree.nodes[e.node].File? {
      assert NamesNode(v.tree, e.node, v.first[e.node]);
      assert |Fold(v.first[e.node])| == |v.first[e.node]|;
    }
  }

  lemma AddSucceeds(v: View, w: Walk, head: nat, more: set<seq<byte>>, name: seq<byte>)
    requires ValidView(v) && Small(v) && Sweeping(v, w, head, more) && head < |w.queue|
    requires Listed(v.tree, Fold(w.queue[head]), name) && Fold(ChildOf(w.queue[head], name)) !in more
    ensures AddName(v, w.queue[head], name, w).Walking?
  {
    hide Recorded, Queued, Covered, ListingOf, Fold, ChildOf, Has, HasDirectory, RecordBytes, RecordFor, Serialize, ParentOf;
    var parent := w.queue[head];
    var child := ChildOf(parent, name);
    ListedChild(v.tree, parent, name);
    var c := Fold(child);
    assert |child| == |c| <= 246;
    HasRecord(v, child);
    var e := v.tree.entries[c];
    RecordIs(v, child, e);
    var r := RecordFor(v, child, e).value;
    QueuedSpells(v, w.queue, w.records, head);
    NotRecorded(v, w.queue, w.records, head, more, c);
    OneMoreTaken(v, w.records, r);
    SerializedSize(w.records, r);
    if v.tree.nodes[e.node].Directory? {
      QueueFits(v, w, head, more, c);
    }
  }

  lemma OneMoreTaken(v: View, rs: seq<Record>, r: Record)
    requires Recorded(v, rs) && Taken(v, r) && !Has(rs, Key(r))
    ensures AllTaken(v, rs + [r]) && DistinctKeys(rs + [r])
  {
    hide Taken, Key, HasParent;
    var more := rs + [r];
    assert forall i :: 0 <= i < |rs| ==> more[i] == rs[i];
  }

  lemma {:induction false} LoopSucceeds(v: View, w: Walk, head: nat, names: seq<seq<byte>>, k: nat, directories: bool,
                                        more: set<seq<byte>>)
    requires ValidView(v) && Small(v) && w.Walking? && Sweeping(v, w, head, more)
    requires head < |w.queue| <= MAX_QUEUE && k <= |names|
    requires ListingOf(v.tree, Fold(w.queue[head]), names) && TakenBefore(v, w.queue[head], names, directories, more)
    ensures AddNames(v, w.queue[head], names, k, directories, w).Walking?
  {
    hide ValidView, Small, ListingOf, Listed, TakenBefore, Sweeping, AddName, Fold, ChildOf, NamesDirectory, Children;
    var parent := w.queue[head];
    if k > 0 {
      LoopSucceeds(v, w, head, names, k - 1, directories, more);
      if NamesDirectory(v, parent, names[k - 1]) == directories {
        LoopKeeps(v, w, head, names, k - 1, directories, more);
        var u := AddNames(v, parent, names, k - 1, directories, w);
        NextIsNew(v, parent, names, k - 1, directories, more);
        assert u.queue[head] == u.queue[..|w.queue|][head];
        AddSucceeds(v, u, head, more + Children(v, parent, names, k - 1, directories), names[k - 1]);
      }
    }
  }

  lemma DirectorySucceeds(v: View, w: Walk, head: nat)
    requires ValidView(v) && Small(v) && w.Walking? && Sweeping(v, w, head, {}) && head < |w.queue| <= MAX_QUEUE
    ensures AddDirectory(v, w.queue[head], w).Walking?
  {
    hide ValidView, Small, Sweeping, AddNames, ListingOf, Fold, Children, TakenBefore;
    var parent := w.queue[head];
    QueuedLists(v, w, head);
    ShortListing(v, w, head);
    var names := v.listing[Fold(parent)];
    TakenNothing(v, parent, names);
    LoopSucceeds(v, w, head, names, |names|, true, {});
    LoopKeeps(v, w, head, names, |names|, true, {});
    var u := AddNames(v, parent, names, |names|, true, w);
    assert u.queue[head] == u.queue[..|w.queue|][head];
    OtherLoop(v, parent, names);
    LoopSucceeds(v, u, head, names, |names|, false, {} + Children(v, parent, names, |names|, true));
  }

  /** The queue holds directories. */
  lemma QueuedDirectory(v: View, w: Walk, head: nat)
    requires Sweeping(v, w, head, {}) && head < |w.queue|
    ensures Fold(w.queue[head]) == [] || DirectoryAt(v.tree, Fold(w.queue[head]))
  {
    hide Fold, Covered, RecordFor;
    var k := Fold(w.queue[head]);
    QueuedSpells(v, w.queue, w.records, head);
    if k != [] {
      var i :| 0 <= i < |w.records| && Key(w.records[i]) == k && w.records[i].kind == KIND_DIRECTORY;
      assert Taken(v, w.records[i]);
      RecordIs(v, w.records[i].path, v.tree.entries[k]);
    }
  }

  lemma ShortListing(v: View, w: Walk, head: nat)
    requires ValidView(v) && Small(v) && w.Walking? && Sweeping(v, w, head, {}) && head < |w.queue|
    ensures Fold(w.queue[head]) in v.listing && |v.listing[Fold(w.queue[head])]| <= MAX_LISTED
  {
    hide ValidView, Sweeping, Fold, ListingOf;
    QueuedDirectory(v, w, head);
    QueuedLists(v, w, head);
  }

  lemma {:induction false} WalkSucceeds(v: View, head: nat, w: Walk)
    requires ValidView(v) && Small(v) && Sweeping(v, w, head, {}) && |w.queue| <= MAX_QUEUE
    ensures WalkFrom(v, head, w).Walking?
    decreases MAX_QUEUE - head
  {
    hide ValidView, Small, AddDirectory, Recorded, Queued, Covered;
    if head < |w.queue| {
      DirectorySucceeds(v, w, head);
      DirectoryKeeps(v, w, head);
      WalkSucceeds(v, head + 1, AddDirectory(v, w.queue[head], w));
    }
  }

  lemma {:induction false} WalkListings(v: View, head: nat, w: Walk)
    requires w.Walking? && head <= |w.queue| <= MAX_QUEUE && WalkFrom(v, head, w).Walking?
    ensures var u := WalkFrom(v, head, w);
            && |w.queue| <= |u.queue| <= MAX_QUEUE && u.queue[..|w.queue|] == w.queue
            && forall j :: head <= j < |u.queue| ==>
                 Fold(u.queue[j]) in v.listing && |v.listing[Fold(u.queue[j])]| <= 64
    decreases MAX_QUEUE - head
  {
    hide Fold, AddNames;
    if head < |w.queue| {
      var x := AddDirectory(v, w.queue[head], w);
      WalkListings(v, head + 1, x);
      var u := WalkFrom(v, head, w);
      Prefixes(u.queue, x.queue, w.queue);
      assert u.queue[head] == u.queue[..|w.queue|][head];
    }
  }

  lemma {:induction false} InsideSequence(s: set<seq<byte>>, ks: seq<seq<byte>>)
    requires forall k :: k in s ==> k in ks
    ensures |s| <= |ks|
  {
    if ks != [] {
      InsideSequence(s - {ks[0]}, ks[1..]);
    }
  }

  lemma DirectoryQueued(v: View, w: Walk, k: seq<byte>)
    requires ValidView(v) && w.Walking? && Sweeping(v, w, |w.queue|, {}) && DirectoryAt(v.tree, k)
    ensures k != [] && InQueue(w.queue, |w.queue|, k)
  {
    hide ValidView, Spells, RecordFor, HasParent, Covered, Fold, InQueue;
    KeyUnder(v, k);
    Complete(v, w, k);
    var i :| 0 <= i < |w.records| && Key(w.records[i]) == k;
    assert Taken(v, w.records[i]);
    RecordIs(v, w.records[i].path, v.tree.entries[k]);
  }

  lemma FewDirectories(v: View, w: Walk)
    requires ValidView(v) && w.Walking? && Sweeping(v, w, |w.queue|, {}) && |w.queue| <= MAX_QUEUE
    ensures |Directories(v.tree)| <= 127
    ensures forall k :: DirectoryAt(v.tree, k) ==> InQueue(w.queue, |w.queue|, k)
  {
    hide ValidView, Sweeping, Fold, DirectoryAt, Directories;
    var q := w.queue;
    RootFirst(v, w);
    var ks := seq(|q| - 1, j requires 0 <= j < |q| - 1 => Fold(q[j + 1]));
    forall k | DirectoryAt(v.tree, k)
      ensures k in ks && InQueue(q, |q|, k)
    {
      DirectoryQueued(v, w, k);
      var j :| 0 <= j < |q| && Fold(q[j]) == k;
      assert |Fold(q[0])| == 0;
      assert ks[j - 1] == k;
    }
    InsideSequence(Directories(v.tree), ks);
  }

  lemma RootFirst(v: View, w: Walk)
    requires w.Walking? && Sweeping(v, w, |w.queue|, {})
    ensures |w.queue| > 0 && w.queue[0] == []
    ensures forall k :: k in Directories(v.tree) ==> DirectoryAt(v.tree, k)
  {
    hide Spells, HasDirectory, InQueue, Fold, Recorded, Covered;
  }

  lemma {:induction false} OneSpelling(t: Tree, p: seq<byte>, q: seq<byte>)
    requires Spells(t, p) && Spells(t, q) && Fold(p) == Fold(q)
    ensures p == q
    decreases |p|
  {
    hide Fold, ParentOf, NameOf;
    assert |p| == |q| by { assert |Fold(p)| == |p| && |Fold(q)| == |q|; }
    if p != [] {
      FoldParts(p);
      FoldParts(q);
      ShorterParent(p);
      OneSpelling(t, ParentOf(p), ParentOf(q));
      SamePath(p, q);
    }
  }

  lemma ShorterParent(p: seq<byte>)
    requires p != []
    ensures |ParentOf(p)| < |p|
  {
  }

  /** Directory and name determine the path, up to a slash in front. */
  lemma SamePath(p: seq<byte>, q: seq<byte>)
    requires |p| == |q| && ParentOf(p) == ParentOf(q) && NameOf(p) == NameOf(q)
    ensures p == q
  {
    var m, n := NameStart(p), NameStart(q);
    assert m == n;
    assert p == p[..n] + p[n..] && q == q[..n] + q[n..];
    if n > 0 {
      assert p[..n] == p[..n - 1] + [SLASH] && q[..n] == q[..n - 1] + [SLASH];
    }
  }

  lemma {:induction false} PartSize(rs: seq<Record>, all: seq<Record>)
    requires DistinctKeys(rs) && forall r :: r in rs ==> r in all
    ensures |Serialize(rs)| <= |Serialize(all)|
  {
    hide Key, RecordBytes;
    if rs != [] {
      var r, rest := rs[0], rs[1..];
      var j :| 0 <= j < |all| && all[j] == r by { assert r in rs && r in all; }
      var others := all[..j] + all[j + 1..];
      forall q | q in rest
        ensures q in others
      {
        assert q in rs;
        assert q in all && q != r;
      }
      PartSize(rest, others);
      assert all == all[..j] + ([r] + all[j + 1..]);
      SerializeConcat(all[..j], [r] + all[j + 1..]);
      SerializeConcat(all[..j], all[j + 1..]);
      assert ([r] + all[j + 1..])[1..] == all[j + 1..];
    }
  }

  lemma FinishedIsSmall(v: View, w: Walk)
    requires ValidView(v) && w.Walking? && Sweeping(v, w, |w.queue|, {}) && |w.queue| <= MAX_QUEUE
    requires forall j :: 0 <= j < |w.queue| ==>
               Fold(w.queue[j]) in v.listing && |v.listing[Fold(w.queue[j])]| <= 64
    ensures Small(v)
  {
    hide ValidView, Queued, Covered, Spells, RecordFor, HasParent, Fold, Serialize, DirectoryAt;
    FewDirectories(v, w);
    forall k | k in v.tree.entries
      ensures |k| <= 246
    {
      Complete(v, w, k);
      var i :| 0 <= i < |w.records| && Key(w.records[i]) == k;
      assert Taken(v, w.records[i]) && |Key(w.records[i])| == |w.records[i].path|;
    }
    forall k | k in v.listing && (k == [] || DirectoryAt(v.tree, k))
      ensures |v.listing[k]| <= 64
    {
      RootQueued(v, w);
      assert InQueue(w.queue, |w.queue|, k);
    }
    forall rs | AllTaken(v, rs) && DistinctKeys(rs)
      ensures 4 + |Serialize(rs)| <= 65536
    {
      TakenInside(v, w, rs);
      PartSize(rs, w.records);
    }
  }

  lemma RootQueued(v: View, w: Walk)
    requires w.Walking? && Queued(v, w.queue, w.records)
    ensures InQueue(w.queue, |w.queue|, [])
  {
    hide Spells, HasDirectory;
    assert Fold([]) == [];
  }

  lemma TakenInside(v: View, w: Walk, rs: seq<Record>)
    requires ValidView(v) && w.Walking? && Sweeping(v, w, |w.queue|, {}) && AllTaken(v, rs)
    ensures forall r :: r in rs ==> r in w.records
  {
    hide ValidView, Sweeping, Spells, RecordFor;
    forall r | r in rs
      ensures r in w.records
    {
      assert Taken(v, r);
      Complete(v, w, Key(r));
      var i :| 0 <= i < |w.records| && Key(w.records[i]) == Key(r);
      SweptTaken(v, w, i);
      OneSpelling(v.tree, r.path, w.records[i].path);
    }
  }

  /** Exactly which trees a walk can serialize. */
  lemma WalkExactly(v: View)
    requires ValidView(v)
    ensures WalkOf(v).Walking? <==> Small(v)
  {
    hide ValidView, Small, WalkFrom, Recorded, Queued, Covered;
    var w := Walking([[]], []);
    WalkStarts(v);
    if Small(v) {
      WalkSucceeds(v, 0, w);
    }
    if WalkOf(v).Walking? {
      WalkKeeps(v, 0, w);
      WalkListings(v, 0, w);
      FinishedIsSmall(v, WalkOf(v));
    }
  }

  // ------------------------------------------------- the code, step by step

  datatype Serialization = SerializeFailed(error: WalkError) | Serialized(length: nat, count: nat)

  /** The buffer holds the records so far behind its count word. */
  ghost predicate Filling(output: seq<byte>, used: nat, rs: seq<Record>) {
    && used == 4 + |Serialize(rs)| <= |output| == MAX_PAYLOAD
    && output[4..used] == Serialize(rs)
  }

  lemma FillMore(before: seq<byte>, used: nat, rs: seq<Record>, r: Record)
    requires Filling(before, used, rs) && used + |RecordBytes(r)| <= |before|
    ensures Filling(Splice(before, used, RecordBytes(r)), used + |RecordBytes(r)|, rs + [r])
  {
    hide RecordBytes, Serialize;
    SerializedSize(rs, r);
    SerializeConcat(rs, [r]);
    assert [r][1..] == [];
    assert Serialize([r]) == RecordBytes(r) + Serialize([]) by { OneSerialized(r); }
    var after := Splice(before, used, RecordBytes(r));
    assert after[4..used + |RecordBytes(r)|] == before[4..used] + RecordBytes(r);
    assert Serialize([]) == [] by { OneSerialized(r); }
  }

  lemma OneSerialized(r: Record)
    ensures Serialize([r]) == RecordBytes(r) + Serialize([]) && Serialize([]) == []
  {
    hide RecordBytes;
    assert [r][1..] == [];
  }

  /** The body of both loops. */
  method AppendName(v: View, parent: seq<byte>, name: seq<byte>, output: array<byte>, used: nat, queue: seq<seq<byte>>,
                    ghost rs: seq<Record>)
    returns (failed: Option<WalkError>, length: nat, children: seq<seq<byte>>, ghost more: seq<Record>)
    requires name != [] && Filling(output[..], used, rs)
    modifies output
    ensures (if failed.Some? then WalkFailed(failed.value) else Walking(children, more))
            == AddName(v, parent, name, Walking(queue, rs))
    ensures failed.None? ==> Filling(output[..], length, more) && |more| == |rs| + 1
  {
    hide RecordBytes, Serialize, Splice, RecordFor, Filling;
    length, children, more := used, queue, rs;
    var child := ChildOf(parent, name);
    if !Absolute(child) {
      return Some(WalkNoSpace), length, children, more;
    }
    if Fold(child) !in v.tree.entries {
      return Some(WalkInvalid), length, children, more;
    }
    var e := v.tree.entries[Fold(child)];
    var r := RecordFor(v, child, e);
    if r.None? {
      return Some(WalkInvalid), length, children, more;
    }
    RecordLimits(v, child, e);
    FillingSize(output[..], used, rs);
    var appended := AppendRecord(output, used, r.value);
    if !appended.Appended? {
      return Some(WalkNoSpace), length, children, more;
    }
    FillMore(old(output[..]), used, rs, r.value);
    length, more := appended.offset, rs + [r.value];
    if v.tree.nodes[e.node].Directory? {
      if |queue| >= MAX_QUEUE {
        return Some(WalkNoSpace), length, children, more;
      }
      children := queue + [child];
    }
    failed := None;
  }

  lemma FillingSize(output: seq<byte>, used: nat, rs: seq<Record>)
    requires Filling(output, used, rs)
    ensures |PayloadBytes(rs)| == used <= |output| == MAX_PAYLOAD
  {
    hide Serialize;
  }

  lemma RecordLimits(v: View, path: Name, e: Entry)
    requires e.node < |v.tree.nodes| && RecordFor(v, path, e).Some?
    ensures var r := RecordFor(v, path, e).value;
            r.path == path && |r.data| <= MAX_RECORD_DATA && |RecordBytes(r)| == RECORD_HEADER_SIZE + |path| + |r.data|
  {
    hide StoredFile, Fold, Kept, RecordFor, NamesFit, RecordHeader;
    RecordData(v, path, e);
    KeptTarget(v.tree.nodes[e.node]);
    LinkLength(v, path, e);
  }

  lemma KeptTarget(n: Node)
    requires Kept(n)
    ensures n.Symlink? ==> |n.target| <= MAX_PATH
  {
  }

  lemma LinkLength(v: View, path: Name, e: Entry)
    requires e.node < |v.tree.nodes| && RecordFor(v, path, e).Some?
    ensures RecordFor(v, path, e).value.kind == KIND_HARD_LINK ==> |RecordFor(v, path, e).value.data| <= MAX_PATH
  {
    hide StoredFile, Fold;
  }

  /** One loop over a listing. */
  method AppendNames(v: View, parent: seq<byte>, names: seq<seq<byte>>, directories: bool, output: array<byte>, used: nat,
                     queue: seq<seq<byte>>, ghost rs: seq<Record>, count: nat)
    returns (failed: Option<WalkError>, length: nat, children: seq<seq<byte>>, ghost more: seq<Record>, records: nat)
    requires forall i :: 0 <= i < |names| ==> names[i] != []
    requires Filling(output[..], used, rs) && |queue| <= MAX_QUEUE && count == |rs|
    modifies output
    ensures (if failed.Some? then WalkFailed(failed.value) else Walking(children, more))
            == AddNames(v, parent, names, |names|, directories, Walking(queue, rs))
    ensures failed.None? ==> Filling(output[..], length, more) && records == |more| && |children| <= MAX_QUEUE
  {
    hide AddName, Filling, NamesDirectory;
    failed, length, children, more, records := None, used, queue, rs, count;
    for k := 0 to |names|
      invariant AddNames(v, parent, names, k, directories, Walking(queue, rs)) == Walking(children, more)
      invariant failed.None? && Filling(output[..], length, more) && records == |more|
    {
      if NamesDirectory(v, parent, names[k]) == directories {
        failed, length, children, more := AppendName(v, parent, names[k], output, length, children, more);
        if failed.Some? {
          NamesStop(v, parent, names, k + 1, directories, Walking(queue, rs));
          return;
        }
        records := records + 1;
      }
    }
  }

  lemma {:induction false} NamesStop(v: View, parent: seq<byte>, names: seq<seq<byte>>, k: nat, directories: bool, w: Walk)
    requires k <= |names| && (w.Walking? ==> |w.queue| <= MAX_QUEUE)
    requires AddNames(v, parent, names, k, directories, w).WalkFailed?
    ensures AddNames(v, parent, names, |names|, directories, w) == AddNames(v, parent, names, k, directories, w)
    decreases |names| - k
  {
    hide AddName, NamesDirectory;
    if k < |names| {
      assert AddNames(v, parent, names, k + 1, directories, w) == AddNames(v, parent, names, k, directories, w);
      NamesStop(v, parent, names, k + 1, directories, w);
    }
  }

  lemma ListedNames(v: View, parent: seq<byte>, names: seq<seq<byte>>)
    requires ValidView(v) && ListingOf(v.tree, Fold(parent), names)
    ensures forall i :: 0 <= i < |names| ==> names[i] != []
  {
    hide Fold, ChildOf, Closed;
    forall i | 0 <= i < |names|
      ensures names[i] != []
    {
      assert Listed(v.tree, Fold(parent), names[i]);
      assert NamedAs(ChildOf(Fold(parent), Fold(names[i])), names[i]);
    }
  }

  lemma {:induction false} WalkStops(v: View, head: nat, w: Walk)
    requires w.Walking? && head < |w.queue| <= MAX_QUEUE && AddDirectory(v, w.queue[head], w).WalkFailed?
    ensures WalkFrom(v, head, w) == AddDirectory(v, w.queue[head], w)
  {
    hide AddDirectory;
  }

  /** One directory of the queue. */
  method AppendDirectory(v: View, output: array<byte>, used: nat, queue: seq<seq<byte>>, head: nat, ghost rs: seq<Record>,
                         count: nat)
    returns (failed: Option<WalkError>, length: nat, children: seq<seq<byte>>, ghost more: seq<Record>, records: nat)
    requires ValidView(v) && head < |queue| <= MAX_QUEUE && Sweeping(v, Walking(queue, rs), head, {})
    requires Filling(output[..], used, rs) && count == |rs|
    modifies output
    ensures (if failed.Some? then WalkFailed(failed.value) else Walking(children, more))
            == AddDirectory(v, queue[head], Walking(queue, rs))
    ensures failed.None? ==> Filling(output[..], length, more) && records == |more| && |children| <= MAX_QUEUE
  {
    hide AddNames, Filling, ValidView, Sweeping, ListingOf, Fold;
    var parent := queue[head];
    failed, length, children, more, records := None, used, queue, rs, count;
    QueuedLists(v, Walking(queue, rs), head);
    var names := v.listing[Fold(parent)];
    if |names| > MAX_LISTED {
      return Some(WalkInvalid), length, children, more, records;
    }
    ListedNames(v, parent, names);
    failed, length, children, more, records := AppendNames(v, parent, names, true, output, used, queue, rs, count);
    if failed.Some? {
      NoNames(v, parent, names, WalkFailed(failed.value));
      NamesStop(v, parent, names, 0, false, WalkFailed(failed.value));
      return;
    }
    failed, length, children, more, records :=
      AppendNames(v, parent, names, false, output, length, children, more, records);
  }

  lemma NoNames(v: View, parent: seq<byte>, names: seq<seq<byte>>, w: Walk)
    requires w.Walking? ==> |w.queue| <= MAX_QUEUE
    ensures AddNames(v, parent, names, 0, false, w) == w
  {
  }

  /** `serialize`. */
  method SerializeTree(v: View, output: array<byte>) returns (s: Serialization)
    requires ValidView(v) && output.Length == MAX_PAYLOAD
    modifies output
    ensures match WalkOf(v)
            case WalkFailed(e) => s == SerializeFailed(e)
            case Walking(_, rs) =>
              s == Serialized(|PayloadBytes(rs)|, |rs|) && |PayloadBytes(rs)| <= MAX_PAYLOAD
              && output[..|PayloadBytes(rs)|] == PayloadBytes(rs)
  {
    hide ValidView, Sweeping, AddDirectory, Filling, Le;
    WriteLe(output, 0, 0, 4);
    var used, count, head: nat, queue: seq<seq<byte>> := 4, 0, 0, [[]];
    ghost var rs: seq<Record> := [];
    WalkStarts(v);
    StartsFilling(output[..]);
    while head < |queue|
      invariant head <= |queue| <= MAX_QUEUE && Sweeping(v, Walking(queue, rs), head, {})
      invariant Filling(output[..], used, rs) && count == |rs|
      invariant WalkOf(v) == WalkFrom(v, head, Walking(queue, rs))
      decreases MAX_QUEUE - head
    {
      var failed: Option<WalkError>;
      ghost var w := Walking(queue, rs);
      failed, used, queue, rs, count := AppendDirectory(v, output, used, queue, head, rs, count);
      if failed.Some? {
        WalkStops(v, head, w);
        return SerializeFailed(failed.value);
      }
      DirectoryKeeps(v, w, head);
      head := head + 1;
    }
    FillingSize(output[..], used, rs);
    FewRecords(rs);
    ghost var before := output[..];
    WriteLe(output, 0, count, 4);
    Counted(before, used, rs);
    return Serialized(used, count);
  }

  lemma StartsFilling(output: seq<byte>)
    requires |output| == MAX_PAYLOAD
    ensures Filling(output, 4, [])
  {
    assert output[4..4] == [];
  }

  lemma {:induction false} RecordsTakeRoom(rs: seq<Record>)
    ensures RECORD_HEADER_SIZE * |rs| <= |Serialize(rs)|
  {
    hide RecordHeader;
    if rs != [] {
      RecordsTakeRoom(rs[1..]);
    }
  }

  lemma FewRecords(rs: seq<Record>)
    ensures |PayloadBytes(rs)| <= MAX_PAYLOAD ==> |rs| < 0x1_0000_0000
  {
    hide RecordBytes, Serialize, Le;
    RecordsTakeRoom(rs);
  }

  lemma Counted(before: seq<byte>, used: nat, rs: seq<Record>)
    requires Filling(before, used, rs)
    ensures Splice(before, 0, Le(|rs|, 4))[..used] == PayloadBytes(rs)
  {
    hide Serialize, Le;
  }
}
