// What a restore makes of a record list: for every list in which directories
// come before what they hold and links name files of the list, all operations
// succeed, and the tree is the one the list describes.
module TreeRebuild {
  import opened Bytes
  import opened Paths
  import opened JournalRecords
  import opened FileSync
  import opened SparseFiles
  import opened JournalRestore
  import opened FileTree

  predicate IsLink(r: Record) {
    r.kind == KIND_HARD_LINK
  }

  function Key(r: Record): seq<byte> {
    Fold(r.path)
  }

  /** A record every operation of a restore can carry out. */
  predicate Fit(r: Record) {
    && Restorable(r) && NamesFit(r.path)
    && (r.kind in {KIND_SYMLINK, KIND_HARD_LINK} ==> NamesFit(r.data) && 0 !in r.data)
    && (r.kind !in {KIND_SYMLINK, KIND_HARD_LINK} ==> r.mode <= 0xFFF)
  }

  ghost predicate HasParent(rs: seq<Record>, i: nat)
    requires i < |rs|
  {
    ParentOf(Key(rs[i])) == [] || exists j :: 0 <= j < i && rs[j].kind == KIND_DIRECTORY && Key(rs[j]) == ParentOf(Key(rs[i]))
  }

  predicate NamesFile(r: Record, target: Record) {
    target.kind in {KIND_FILE, KIND_SPARSE} && Key(target) == Fold(r.data)
  }

  ghost predicate HasTarget(rs: seq<Record>, i: nat)
    requires i < |rs|
  {
    exists j :: 0 <= j < |rs| && NamesFile(rs[i], rs[j])
  }

  /** A list that names each path once, directories before what they hold, and
      whose links name files. */
  ghost predicate Rebuildable(rs: seq<Record>) {
    && (forall i :: 0 <= i < |rs| ==> Fit(rs[i]) && HasParent(rs, i) && (IsLink(rs[i]) ==> HasTarget(rs, i)))
    && (forall i, j :: 0 <= i < j < |rs| ==> Key(rs[i]) != Key(rs[j]))
  }

  // ------------------------------------------------- the tree of a list

  const NO_META: Meta := Meta(0, Times(0, 0, 0, 0), Owner(0, 0))

  /** A node without its ticks and owner. */
  function Bare(n: Node): Node {
    WithMeta(n, NO_META.(mode := n.meta.mode))
  }

  /** The node a record other than a link describes, so far. */
  function Described(r: Record): Node
    requires Fit(r)
  {
    var meta := NO_META.(mode := r.mode);
    if r.kind == KIND_DIRECTORY then Directory(meta)
    else if r.kind == KIND_SYMLINK then Symlink(NO_META.(mode := 0x1FF), r.data)
    else if r.kind == KIND_SPARSE then File(meta, Decoded(r.data))
    else File(meta, Plain(r.data))
  }

  /** `t` holds exactly the names of the records in `done`. */
  ghost predicate Keyed(t: Tree, rs: seq<Record>, done: set<nat>) {
    && (forall i :: i in done ==> i < |rs| && Fit(rs[i]) && Holds(t, rs[i]))
    && (forall k :: k in t.entries ==> exists i :: i in done && Key(rs[i]) == k)
  }

  predicate Holds(t: Tree, r: Record) {
    Key(r) in t.entries && t.entries[Key(r)].name == NameOf(r.path)
  }

  /** Each name's node is what its record describes, a node of its own; links
      share the node of their file. */
  ghost predicate BuiltFor(t: Tree, rs: seq<Record>, done: set<nat>) {
    && Keyed(t, rs, done)
    && (forall i :: i in done && !IsLink(rs[i]) ==> Shaped(t, rs[i]))
    && Apart(t, rs, done)
    && (forall i :: i in done && IsLink(rs[i]) ==> Linked(t, rs, done, i))
  }

  predicate Shaped(t: Tree, r: Record) {
    Fit(r) && Bare(NodeFor(t, r)) == Described(r)
  }

  ghost predicate Apart(t: Tree, rs: seq<Record>, done: set<nat>)
    requires forall i :: i in done ==> i < |rs|
  {
    forall i, j :: i in done && j in done && i != j && !IsLink(rs[i]) && !IsLink(rs[j]) ==>
      Number(t, rs[i]) != Number(t, rs[j])
  }

  ghost predicate Linked(t: Tree, rs: seq<Record>, done: set<nat>, i: nat)
    requires i < |rs| && forall j :: j in done ==> j < |rs|
  {
    exists j :: j in done && NamesFile(rs[i], rs[j]) && Number(t, rs[j]) == Number(t, rs[i])
  }

  function Number(t: Tree, r: Record): nat {
    if Key(r) in t.entries then t.entries[Key(r)].node else 0
  }

  function NodeFor(t: Tree, r: Record): Node {
    if Key(r) in t.entries then t.nodes[t.entries[Key(r)].node] else Directory(NO_META)
  }

  /** Each node carries ticks and owner of the last record, of the first `k`,
      that names it. */
  ghost predicate Stamped(t: Tree, rs: seq<Record>, k: nat) {
    forall j :: 0 <= j < k <= |rs| && Last(t, rs, k, j) ==>
      NodeFor(t, rs[j]).meta.times == rs[j].times && NodeFor(t, rs[j]).meta.owner == rs[j].owner
  }

  ghost predicate Last(t: Tree, rs: seq<Record>, k: nat, j: nat)
    requires j < k <= |rs|
  {
    forall m :: j < m < k ==> Number(t, rs[m]) != Number(t, rs[j])
  }

  /** The records behind `names` steps of the first pass and `links` of the
      second. */
  predicate Reached(rs: seq<Record>, i: nat, names: nat, links: nat)
    requires i < |rs|
  {
    i < if IsLink(rs[i]) then links else names
  }

  function Upto(rs: seq<Record>, names: nat, links: nat): set<nat> {
    set i: nat | i < |rs| && Reached(rs, i, names, links)
  }

  ghost predicate Rebuilt(t: Tree, rs: seq<Record>) {
    BuiltFor(t, rs, Upto(rs, |rs|, |rs|)) && Stamped(t, rs, |rs|)
  }

  /** Two trees with the same names for the same nodes, up to numbering. */
  ghost predicate SameTree(a: Tree, b: Tree) {
    && a.entries.Keys == b.entries.Keys
    && (forall k :: k in a.entries ==>
          && a.entries[k].name == b.entries[k].name
          && a.nodes[a.entries[k].node] == b.nodes[b.entries[k].node])
    && (forall j, k :: j in a.entries && k in a.entries ==>
          (a.entries[j].node == a.entries[k].node <==> b.entries[j].node == b.entries[k].node))
  }

  // ------------------------------------------------- finding what is there

  predicate DirectoryAt(t: Tree, k: seq<byte>) {
    k in t.entries && t.nodes[t.entries[k].node].Directory?
  }

  predicate Under(t: Tree, k: seq<byte>) {
    k != [] && (ParentOf(k) == [] || DirectoryAt(t, ParentOf(k)))
  }

  ghost predicate Closed(t: Tree) {
    forall k :: k in t.entries ==> Under(t, k)
  }

  lemma {:induction false} ResolveUnder(t: Tree, k: seq<byte>)
    requires Closed(t) && Under(t, k)
    ensures Resolve(t, k) == if k in t.entries then At(t.entries[k].node) else Missing(NotFound)
    ensures Followed(t, Resolve(t, ParentOf(k)))
            == if ParentOf(k) == [] then Root else At(t.entries[ParentOf(k)].node)
    decreases |k|
  {
    if ParentOf(k) != [] {
      ResolveUnder(t, ParentOf(k));
    }
  }

  // ------------------------------------------------- one operation

  /** One more name, for node `n`; nothing else but ticks has changed. */
  predicate Grown(t: Tree, u: Tree, path: seq<byte>, n: nat) {
    && u.entries == t.entries[Fold(path) := Entry(NameOf(path), n)]
    && |t.nodes| <= |u.nodes|
    && forall m :: 0 <= m < |t.nodes| ==> Bare(u.nodes[m]) == Bare(t.nodes[m])
  }

  lemma Created(t: Tree, path: seq<byte>, node: Node, tick: u64)
    requires Closed(t) && Under(t, Fold(path)) && Fold(path) !in t.entries && node.meta.mode <= 0xFFF
    ensures var o := Create(t, path, node, tick);
            o.Done? && Grown(t, o.tree, path, |t.nodes|) && |o.tree.nodes| == |t.nodes| + 1
            && Bare(o.tree.nodes[|t.nodes|]) == Bare(node)
  {
    ResolveUnder(t, Fold(path));
    FoldParts(path);
  }

  /** The first pass creates the node a record describes. */
  lemma NameStep(t: Tree, r: Record, tick: u64)
    requires Closed(t) && Under(t, Key(r)) && Key(r) !in t.entries && Fit(r) && !IsLink(r)
    ensures var o := Step(Namespace, t, r, tick);
            o.Done? && Grown(t, o.tree, r.path, |t.nodes|) && |o.tree.nodes| == |t.nodes| + 1
            && Bare(o.tree.nodes[|t.nodes|]) == Described(r)
  {
    hide NamesFit, ValidRelativePath, SparseImage, Resolve, Create, Decoded, Plain, Fold;
    ResolveUnder(t, Key(r));
    if r.kind == KIND_DIRECTORY {
      Created(t, r.path, Directory(Fresh(r.mode, tick)), tick);
    } else if r.kind == KIND_SYMLINK {
      Created(t, r.path, Symlink(Fresh(SYMLINK_MODE, tick), r.data), tick);
    } else {
      Created(t, r.path, File(Fresh(r.mode, tick), NO_CONTENTS), tick);
    }
  }

  lemma LinkOnly(t: Tree, r: Record, tick: u64)
    requires Fit(r) && IsLink(r)
    ensures Step(Links, t, r, tick) == Link(t, r.data, r.path, tick) && NamesFit(r.path) && NamesFit(r.data)
  {
    hide ValidRelativePath, NamesFit, Link;
  }

  /** The second gives a file one more name. */
  lemma LinkStep(t: Tree, r: Record, tick: u64)
    requires Closed(t) && Under(t, Key(r)) && Key(r) !in t.entries && Fit(r) && IsLink(r)
    requires Fold(r.data) in t.entries && t.nodes[t.entries[Fold(r.data)].node].File?
    ensures var o := Step(Links, t, r, tick);
            o.Done? && Grown(t, o.tree, r.path, t.entries[Fold(r.data)].node) && |o.tree.nodes| == |t.nodes|
  {
    hide NamesFit, Fit, Step, Resolve, Fold, NameOf, ParentOf, Closed;
    LinkOnly(t, r, tick);
    NotRoot(t, r.data);
    ResolveUnder(t, Key(r));
    ResolveUnder(t, Fold(r.data));
    FoldParts(r.path);
    hide InTable;
  }

  lemma NotRoot(t: Tree, path: seq<byte>)
    requires Closed(t) && Fold(path) in t.entries
    ensures Under(t, Fold(path))
  {
  }

  /** Where a path leads in a closed tree: to its entry, or nowhere. */
  lemma ResolveExactly(t: Tree, k: seq<byte>)
    requires Closed(t)
    ensures k in t.entries ==> k != [] && Resolve(t, k) == At(t.entries[k].node)
    ensures k !in t.entries ==> k == [] || Resolve(t, k).Missing?
    ensures k !in t.entries && Under(t, k) ==> Resolve(t, k) == Missing(NotFound)
    ensures k != [] ==> (!NoDirectory(t, Followed(t, Resolve(t, ParentOf(k)))) && !Followed(t, Resolve(t, ParentOf(k))).Missing?
                         <==> Under(t, k))
  {
    if k in t.entries {
      assert Under(t, k);
      ResolveUnder(t, k);
    }
    if k != [] && Under(t, k) {
      ResolveUnder(t, k);
    }
    if k != [] && ParentOf(k) in t.entries {
      assert Under(t, ParentOf(k));
      ResolveUnder(t, ParentOf(k));
    }
  }

  lemma CreateExactly(t: Tree, path: seq<byte>, node: Node, tick: u64)
    requires Closed(t) && path != []
    ensures Create(t, path, node, tick).Done?
            <==> Under(t, Fold(path)) && Fold(path) !in t.entries && node.meta.mode <= 0xFFF
  {
    hide Resolve, Fold, Closed, Under, ParentOf, NameOf, Touch, Enter;
    FoldParts(path);
    assert |Fold(path)| == |path|;
    ResolveExactly(t, Fold(path));
    FollowedIs(t, Resolve(t, Fold(ParentOf(path))));
  }

  /** Exactly when the operations of a restore succeed on a closed tree, for a
      record they can carry out: a name is new and its directory is there, or the
      name is there already and of a kind that is kept or overwritten; a link's
      target is a file; the name whose metadata is restored is there. */
  lemma StepExactly(t: Tree, r: Record, tick: u64)
    requires Closed(t) && Fit(r)
    ensures var k := Key(r);
            var isNew := k !in t.entries && Under(t, k);
            && (r.kind == 1 ==> (Step(Namespace, t, r, tick).Done?
                                 <==> isNew || (k in t.entries && !t.nodes[t.entries[k].node].Symlink?)))
            && (r.kind == 3 ==> (Step(Namespace, t, r, tick).Done? <==> isNew))
            && (r.kind in {2, 5} ==> (Step(Namespace, t, r, tick).Done?
                                      <==> isNew || (k in t.entries && t.nodes[t.entries[k].node].File?)))
            && (r.kind == 4 ==> (Step(Links, t, r, tick).Done?
                                 <==> isNew && Fold(r.data) in t.entries && t.nodes[t.entries[Fold(r.data)].node].File?))
            && (Step(Metadata, t, r, tick).Done? <==> k in t.entries)
  {
    hide NamesFit, Resolve, Decoded, Plain, Fold, Closed, Under, NoDirectory, Followed, ParentOf, NameOf, CheckRecord,
      Restorable, Create;
    PathSet(r);
    FitChecks(r);
    ResolveExactly(t, Key(r));
    FollowedIs(t, Resolve(t, Key(r)));
    NotEmptyKey(r);
    CreateExactly(t, r.path, Directory(Fresh(r.mode, tick)), tick);
    CreateExactly(t, r.path, Symlink(Fresh(SYMLINK_MODE, tick), r.data), tick);
    CreateExactly(t, r.path, File(Fresh(r.mode, tick), NO_CONTENTS), tick);
    if IsLink(r) {
      LinkExactly(t, r, tick);
    }
  }

  lemma NotEmptyKey(r: Record)
    requires Key(r) != []
    ensures r.path != []
  {
  }

  /** A fit record passes every check of its own. */
  lemma FitChecks(r: Record)
    requires Fit(r)
    ensures forall pass :: CheckRecord(pass, r.kind, r.path, r.data) == Restored
    ensures 1 <= r.kind <= 5 && NamesFit(r.path)
    ensures r.kind == 3 ==> r.data != [] && |r.data| <= 255 && 0 !in r.data && NamesFit(r.data)
    ensures r.kind in {1, 2, 5} ==> r.mode <= 0xFFF
    ensures r.kind == 4 ==> NamesFit(r.data) && r.data != []
    ensures r.kind == 5 ==> SparseImage(r.data)
  {
    hide NamesFit, ValidRelativePath, SparseImage;
    PathNotEmpty(r.data);
    forall pass
      ensures CheckRecord(pass, r.kind, r.path, r.data) == Restored
    {
      match pass case Namespace => case Links => case Metadata =>
    }
  }

  lemma LinkExactly(t: Tree, r: Record, tick: u64)
    requires Closed(t) && Fit(r) && IsLink(r)
    ensures Step(Links, t, r, tick).Done?
            <==> && Key(r) !in t.entries && Under(t, Key(r))
                 && Fold(r.data) in t.entries && t.nodes[t.entries[Fold(r.data)].node].File?
  {
    hide NamesFit, Resolve, Fold, Closed, Under, ParentOf, NameOf, Step, Fit, Touch, Enter, SetNode;
    LinkOnly(t, r, tick);
    PathSet(r);
    LinkTarget(r);
    FoldParts(r.path);
    ResolveExactly(t, Key(r));
    ResolveExactly(t, Fold(r.data));
    FollowedIs(t, Resolve(t, Fold(ParentOf(r.path))));
  }

  lemma LinkTarget(r: Record)
    requires Fit(r)
    ensures r.kind == 4 ==> Fold(r.data) != []
  {
    hide ValidRelativePath, NamesFit, SparseImage;
  }

  lemma FollowedIs(t: Tree, place: Place)
    requires place.At? ==> place.node < |t.nodes|
    ensures Followed(t, place) == if place.At? && t.nodes[place.node].Symlink? then Missing(BehindSymlink) else place
    ensures NoDirectory(t, place) <==> place.At? && !t.nodes[place.node].Directory?
  {
  }

  // ------------------------------------------------- what else they change

  /** A node with its modification and change ticks moved. */
  function TickedAt(n: Node, tick: u64): Node {
    WithMeta(n, Meta(n.meta.mode, Times(n.meta.times.created, tick, tick, n.meta.times.accessed), n.meta.owner))
  }

  /** Creating a name changes its directory's two ticks and nothing else. */
  lemma CreateEffects(t: Tree, path: seq<byte>, node: Node, tick: u64)
    requires Closed(t) && Under(t, Fold(path)) && Fold(path) !in t.entries && node.meta.mode <= 0xFFF
    ensures var o := Create(t, path, node, tick);
            && o.Done? && o.tree.entries == t.entries[Fold(path) := Entry(NameOf(path), |t.nodes|)]
            && var k := ParentOf(Fold(path));
               o.tree.nodes == if k == [] then t.nodes + [node]
                               else t.nodes[t.entries[k].node := TickedAt(t.nodes[t.entries[k].node], tick)] + [node]
  {
    hide Resolve, Fold, NameOf, ParentOf, Closed;
    assert |Fold(path)| == |path|;
    FoldParts(path);
    ResolveUnder(t, Fold(path));
    hide InTable;
  }

  /** A second name for a file moves its change tick and its directory's two. */
  lemma LinkEffects(t: Tree, r: Record, tick: u64)
    requires Closed(t) && Under(t, Key(r)) && Key(r) !in t.entries && Fit(r) && IsLink(r)
    requires Fold(r.data) in t.entries && t.nodes[t.entries[Fold(r.data)].node].File?
    ensures var o, n, k := Step(Links, t, r, tick), t.entries[Fold(r.data)].node, ParentOf(Key(r));
            && o.Done? && o.tree.entries == t.entries[Key(r) := Entry(NameOf(r.path), n)]
            && var f := t.nodes[n];
               var nodes := t.nodes[n := WithMeta(f, Meta(f.meta.mode, f.meta.times.(changed := tick), f.meta.owner))];
               o.tree.nodes == if k == [] then nodes
                               else nodes[t.entries[k].node := TickedAt(t.nodes[t.entries[k].node], tick)]
  {
    hide NamesFit, Fit, Step, Resolve, Fold, NameOf, ParentOf, Closed;
    LinkOnly(t, r, tick);
    NotRoot(t, r.data);
    ResolveUnder(t, Key(r));
    ResolveUnder(t, Fold(r.data));
    FoldParts(r.path);
    hide InTable;
  }

  /** Storing over a file replaces its mode and contents and moves two ticks. */
  lemma OverwriteEffects(t: Tree, path: seq<byte>, mode: u16, contents: SparseFile, tick: u64)
    requires Closed(t) && NamesFit(path) && mode <= 0xFFF
    requires Fold(path) in t.entries && t.nodes[t.entries[Fold(path)].node].File?
    ensures var n := t.entries[Fold(path)].node;
            var f := t.nodes[n];
            StoreFile(t, path, mode, contents, tick)
            == Done(SetNode(t, n, File(Meta(mode, Times(f.meta.times.created, tick, tick, f.meta.times.accessed), f.meta.owner),
                                       contents)))
  {
    hide NamesFit, Resolve, Fold, Closed;
    NotRoot(t, path);
    ResolveUnder(t, Fold(path));
  }

  /** Names below a file, and names in no directory, are refused as such. */
  lemma RefusedBelow(t: Tree, path: seq<byte>, node: Node, tick: u64)
    requires Closed(t) && ParentOf(Fold(path)) != []
    ensures var k := ParentOf(Fold(path));
            && (k in t.entries && t.nodes[t.entries[k].node].File? ==> Create(t, path, node, tick) == Refused(NotDirectory))
            && (k !in t.entries && Under(t, k) ==> Create(t, path, node, tick) == Refused(NotFound))
            && (k in t.entries && t.nodes[t.entries[k].node].File? ==> Resolve(t, Fold(path)) == Missing(NotDirectory))
  {
    hide Closed;
    FoldParts(path);
    ResolveExactly(t, ParentOf(Fold(path)));
  }

  lemma GrownKeyed(t: Tree, u: Tree, rs: seq<Record>, done: set<nat>, i: nat, n: nat)
    requires Rebuildable(rs) && Keyed(t, rs, done) && i < |rs| && i !in done && Grown(t, u, rs[i].path, n)
    ensures Keyed(u, rs, done + {i}) && Number(u, rs[i]) == n < |u.nodes| && NodeFor(u, rs[i]) == u.nodes[n]
    ensures forall j :: j in done ==>
              Number(u, rs[j]) == Number(t, rs[j]) < |t.nodes| && Bare(NodeFor(u, rs[j])) == Bare(NodeFor(t, rs[j]))
  {
    hide Fit, Bare, Fold, NameOf;
    forall j | j in done
      ensures Key(rs[j]) != Key(rs[i])
    {
      if j < i { } else { }
    }
  }

  /** A grown tree has built one more record. */
  lemma GrownBuilds(t: Tree, u: Tree, rs: seq<Record>, done: set<nat>, i: nat, n: nat)
    requires Rebuildable(rs) && BuiltFor(t, rs, done) && i < |rs| && i !in done
    requires Grown(t, u, rs[i].path, n)
    requires !IsLink(rs[i]) ==> n == |t.nodes| < |u.nodes| && Fit(rs[i]) && Bare(u.nodes[n]) == Described(rs[i])
    requires IsLink(rs[i]) ==> exists j :: j in done && j < |rs| && NamesFile(rs[i], rs[j]) && Number(t, rs[j]) == n
    ensures BuiltFor(u, rs, done + {i})
  {
    hide Fit, Described, Bare, NamesFile, Keyed, Number, NodeFor, Grown, IsLink, Apart, Rebuildable;
    GrownKeyed(t, u, rs, done, i, n);
    var more := done + {i};
    KeyedIn(t, rs, done);
    KeyedIn(u, rs, more);
    GrownApart(t, u, rs, done, i, n);
    forall j | j in more && IsLink(rs[j])
      ensures Linked(u, rs, more, j)
    {
      if j in done {
        assert Linked(t, rs, done, j);
      }
    }
  }

  lemma GrownApart(t: Tree, u: Tree, rs: seq<Record>, done: set<nat>, i: nat, n: nat)
    requires i < |rs| && forall j :: j in done ==> j < |rs|
    requires Apart(t, rs, done) && Number(u, rs[i]) == n && (!IsLink(rs[i]) ==> n == |t.nodes|)
    requires forall j :: j in done ==> Number(u, rs[j]) == Number(t, rs[j]) < |t.nodes|
    ensures Apart(u, rs, done + {i})
  {
    hide Number, IsLink;
  }

  lemma KeyedIn(t: Tree, rs: seq<Record>, done: set<nat>)
    requires Keyed(t, rs, done)
    ensures forall i :: i in done ==> i < |rs| && Fit(rs[i])
  {
    hide Fit;
  }

  // ------------------------------------------------- the three passes

  /** The directory of a record is there once the records before it are. */
  lemma BuiltUnder(t: Tree, rs: seq<Record>, names: nat, links: nat, i: nat)
    requires Rebuildable(rs) && BuiltFor(t, rs, Upto(rs, names, links)) && i < |rs| && i <= names
    ensures Under(t, Key(rs[i]))
  {
    hide Fit, Described, Decoded, Plain, Fold, NamesFile, Linked, Apart;
    var r := rs[i];
    assert Fit(r) && HasParent(rs, i);
    PathSet(r);
    if ParentOf(Key(r)) != [] {
      var j :| 0 <= j < i && rs[j].kind == KIND_DIRECTORY && Key(rs[j]) == ParentOf(Key(r));
      assert j in Upto(rs, names, links);
      assert Shaped(t, rs[j]) && Holds(t, rs[j]);
      assert Described(rs[j]).Directory? by { DescribedKind(rs[j]); }
    }
  }

  lemma PathSet(r: Record)
    requires Fit(r)
    ensures Key(r) != []
  {
    PathNotEmpty(r.path);
    hide ValidRelativePath, KindData, LinkData, NamesFit;
  }

  lemma DescribedKind(r: Record)
    requires Fit(r)
    ensures Described(r).Directory? <==> r.kind == KIND_DIRECTORY
    ensures Described(r).File? <==> r.kind in {KIND_FILE, KIND_SPARSE, KIND_HARD_LINK}
  {
    hide KindData, LinkData, ValidRelativePath, NamesFit, Decoded, Plain;
  }

  lemma BuiltClosed(t: Tree, rs: seq<Record>, names: nat, links: nat)
    requires Rebuildable(rs) && BuiltFor(t, rs, Upto(rs, names, links)) && links <= names
    ensures Closed(t)
  {
    hide Fit, Described, Shaped, Under, Rebuildable, Fold, Linked, Apart;
    var done := Upto(rs, names, links);
    forall k | k in t.entries
      ensures Under(t, k)
    {
      var i :| i in done && Key(rs[i]) == k;
      BuiltUnder(t, rs, names, links, i);
    }
  }

  lemma NotYetThere(t: Tree, rs: seq<Record>, done: set<nat>, i: nat)
    requires Rebuildable(rs) && Keyed(t, rs, done) && i < |rs| && i !in done
    ensures Key(rs[i]) !in t.entries
  {
    hide Fit, Key, HasTarget, HasParent;
    forall j | j in done
      ensures Key(rs[j]) != Key(rs[i])
    {
      assert j < i || i < j;
    }
  }

  /** One more record in the set of those reached. */
  lemma UptoNext(rs: seq<Record>, names: nat, links: nat)
    ensures names < |rs| ==>
              var more := if IsLink(rs[names]) then {} else {names};
              Upto(rs, names + 1, links) == Upto(rs, names, links) + more
    ensures links < |rs| ==>
              var more := if IsLink(rs[links]) then {links} else {};
              Upto(rs, names, links + 1) == Upto(rs, names, links) + more
  {
    hide IsLink;
  }

  lemma {:induction false} NamesPass(rs: seq<Record>, k: nat, tick: u64)
    requires Rebuildable(rs) && k <= |rs|
    ensures var o := Applied(Namespace, EMPTY, rs, k, tick);
            o.Done? && BuiltFor(o.tree, rs, Upto(rs, k, 0))
  {
    hide Rebuildable, Step, BuiltFor, Grown, Under, Closed, Described, Fit;
    if k == 0 {
      NothingBuilt(rs);
    } else {
      NamesPass(rs, k - 1, tick);
      NamesStep(Applied(Namespace, EMPTY, rs, k - 1, tick).tree, rs, k - 1, tick);
    }
  }

  lemma NothingBuilt(rs: seq<Record>)
    ensures BuiltFor(EMPTY, rs, Upto(rs, 0, 0))
  {
    hide Fit, Described;
    assert Upto(rs, 0, 0) == {};
  }

  lemma NamesStep(t: Tree, rs: seq<Record>, k: nat, tick: u64)
    requires Rebuildable(rs) && k < |rs| && BuiltFor(t, rs, Upto(rs, k, 0))
    ensures var o := Step(Namespace, t, rs[k], tick);
            o.Done? && BuiltFor(o.tree, rs, Upto(rs, k + 1, 0))
  {
    hide Keyed, Grown, Under, Closed, Described, Shaped, Apart, Linked, Fit, Step, HasParent, HasTarget;
    var r := rs[k];
    assert Fit(r);
    UptoNext(rs, k, 0);
    if IsLink(r) {
      SkippedLink(t, r, tick);
      assert Upto(rs, k, 0) + {} == Upto(rs, k, 0);
    } else {
      BuiltUnder(t, rs, k, 0, k);
      BuiltClosed(t, rs, k, 0);
      NotYetThere(t, rs, Upto(rs, k, 0), k);
      NameStep(t, r, tick);
      GrownBuilds(t, Step(Namespace, t, r, tick).tree, rs, Upto(rs, k, 0), k, |t.nodes|);
    }
  }

  lemma SkippedLink(t: Tree, r: Record, tick: u64)
    requires Fit(r)
    ensures IsLink(r) ==> Step(Namespace, t, r, tick) == Done(t)
    ensures !IsLink(r) ==> Step(Links, t, r, tick) == Done(t)
  {
    hide ValidRelativePath, NamesFit, SparseImage, Link, StoreFile, MakeSymlink, EnsureDirectory;
  }

  lemma {:induction false} LinksPass(t: Tree, rs: seq<Record>, k: nat, tick: u64)
    requires Rebuildable(rs) && k <= |rs| && BuiltFor(t, rs, Upto(rs, |rs|, 0))
    ensures var o := Applied(Links, t, rs, k, tick);
            o.Done? && BuiltFor(o.tree, rs, Upto(rs, |rs|, k))
  {
    hide Rebuildable, Step, BuiltFor;
    if k > 0 {
      LinksPass(t, rs, k - 1, tick);
      LinksStep(Applied(Links, t, rs, k - 1, tick).tree, rs, k - 1, tick);
    }
  }

  lemma LinksStep(t: Tree, rs: seq<Record>, k: nat, tick: u64)
    requires Rebuildable(rs) && k < |rs| && BuiltFor(t, rs, Upto(rs, |rs|, k))
    ensures var o := Step(Links, t, rs[k], tick);
            o.Done? && BuiltFor(o.tree, rs, Upto(rs, |rs|, k + 1))
  {
    hide Grown, Under, Closed, Described, Apart, Linked, Fit, Step, HasParent, Keyed, Shaped;
    var r, done := rs[k], Upto(rs, |rs|, k);
    assert Fit(r);
    UptoNext(rs, |rs|, k);
    if IsLink(r) {
      BuiltUnder(t, rs, |rs|, k, k);
      BuiltClosed(t, rs, |rs|, k);
      NotYetThere(t, rs, done, k);
      assert HasTarget(rs, k);
      var j :| 0 <= j < |rs| && NamesFile(r, rs[j]);
      assert j in done;
      FileThere(t, rs, done, j);
      LinkStep(t, r, tick);
      GrownBuilds(t, Step(Links, t, r, tick).tree, rs, done, k, Number(t, rs[j]));
    } else {
      SkippedLink(t, r, tick);
      assert done + {} == done;
    }
  }

  lemma FileThere(t: Tree, rs: seq<Record>, done: set<nat>, j: nat)
    requires BuiltFor(t, rs, done) && j in done && rs[j].kind in {KIND_FILE, KIND_SPARSE}
    ensures Key(rs[j]) in t.entries && NodeFor(t, rs[j]).File? && t.entries[Key(rs[j])].node == Number(t, rs[j])
  {
    hide Fit, Described, Apart, Linked;
    DescribedKind(rs[j]);
    assert Holds(t, rs[j]) && Shaped(t, rs[j]);
  }

  // ------------------------------------------------- ticks and owners

  lemma StampStep(t: Tree, r: Record, tick: u64)
    requires Closed(t) && Key(r) in t.entries && Fit(r)
    ensures var o := Step(Metadata, t, r, tick);
            && o.Done? && o.tree.entries == t.entries && |o.tree.nodes| == |t.nodes|
            && NodeFor(o.tree, r).meta.times == r.times && NodeFor(o.tree, r).meta.owner == r.owner
            && forall m :: 0 <= m < |t.nodes| ==>
                 Bare(o.tree.nodes[m]) == Bare(t.nodes[m]) && (m != Number(t, r) ==> o.tree.nodes[m] == t.nodes[m])
  {
    hide NamesFit, ValidRelativePath, Resolve, Fold;
    ResolveUnder(t, Key(r));
  }

  lemma SameBuilt(t: Tree, u: Tree, rs: seq<Record>, done: set<nat>)
    requires BuiltFor(t, rs, done) && u.entries == t.entries && |u.nodes| == |t.nodes|
    requires forall m :: 0 <= m < |t.nodes| ==> Bare(u.nodes[m]) == Bare(t.nodes[m])
    ensures BuiltFor(u, rs, done)
  {
    hide Fit, Described, Bare, NamesFile, IsLink, Key, Number, NodeFor, Apart, Holds, NameOf;
    forall r: Record
      ensures Number(u, r) == Number(t, r) && Bare(NodeFor(u, r)) == Bare(NodeFor(t, r)) && (Holds(u, r) <==> Holds(t, r))
    {
      SameFor(t, u, r);
    }
    SameApart(t, u, rs, done);
    forall i | i in done && IsLink(rs[i])
      ensures Linked(u, rs, done, i)
    {
      assert Linked(t, rs, done, i);
    }
  }

  lemma SameFor(t: Tree, u: Tree, r: Record)
    requires u.entries == t.entries && |u.nodes| == |t.nodes|
    requires forall m :: 0 <= m < |t.nodes| ==> Bare(u.nodes[m]) == Bare(t.nodes[m])
    ensures Number(u, r) == Number(t, r) && Bare(NodeFor(u, r)) == Bare(NodeFor(t, r)) && (Holds(u, r) <==> Holds(t, r))
  {
    hide Bare, Key, NameOf;
  }

  lemma SameApart(t: Tree, u: Tree, rs: seq<Record>, done: set<nat>)
    requires (forall i :: i in done ==> i < |rs|) && Apart(t, rs, done)
    requires forall r: Record :: Number(u, r) == Number(t, r)
    ensures Apart(u, rs, done)
  {
    hide Number, IsLink;
  }

  lemma NextStamped(t: Tree, u: Tree, rs: seq<Record>, k: nat)
    requires k < |rs| && Stamped(t, rs, k) && u.entries == t.entries && |u.nodes| == |t.nodes|
    requires forall j :: 0 <= j < |rs| ==> Key(rs[j]) in t.entries
    requires NodeFor(u, rs[k]).meta.times == rs[k].times && NodeFor(u, rs[k]).meta.owner == rs[k].owner
    requires forall m :: 0 <= m < |t.nodes| && m != Number(t, rs[k]) ==> u.nodes[m] == t.nodes[m]
    ensures Stamped(u, rs, k + 1)
  {
    hide Key;
    forall j | 0 <= j < k + 1 && Last(u, rs, k + 1, j)
      ensures NodeFor(u, rs[j]).meta.times == rs[j].times && NodeFor(u, rs[j]).meta.owner == rs[j].owner
    {
      if j < k {
        assert Number(u, rs[k]) != Number(u, rs[j]);
        assert Last(t, rs, k, j);
      }
    }
  }

  lemma {:induction false} StampPass(t: Tree, rs: seq<Record>, k: nat, tick: u64)
    requires Rebuildable(rs) && k <= |rs| && BuiltFor(t, rs, Upto(rs, |rs|, |rs|))
    ensures var o := Applied(Metadata, t, rs, k, tick);
            o.Done? && BuiltFor(o.tree, rs, Upto(rs, |rs|, |rs|)) && Stamped(o.tree, rs, k)
  {
    hide Rebuildable, Step, BuiltFor, Number, NodeFor, Fit, Key, Stamped, Closed, Bare;
    if k == 0 {
      NothingStamped(t, rs);
    } else {
      StampPass(t, rs, k - 1, tick);
      var u, done := Applied(Metadata, t, rs, k - 1, tick).tree, Upto(rs, |rs|, |rs|);
      AllThere(u, rs);
      BuiltClosed(u, rs, |rs|, |rs|);
      StampStep(u, rs[k - 1], tick);
      var v := Step(Metadata, u, rs[k - 1], tick).tree;
      SameBuilt(u, v, rs, done);
      NextStamped(u, v, rs, k - 1);
    }
  }

  lemma NothingStamped(t: Tree, rs: seq<Record>)
    ensures Stamped(t, rs, 0)
  {
  }

  lemma AllThere(t: Tree, rs: seq<Record>)
    requires BuiltFor(t, rs, Upto(rs, |rs|, |rs|))
    ensures forall j :: 0 <= j < |rs| ==> Fit(rs[j]) && Key(rs[j]) in t.entries
  {
    hide Fit, Described, Apart, Linked, Shaped, Key;
    forall j | 0 <= j < |rs|
      ensures Fit(rs[j]) && Key(rs[j]) in t.entries
    {
      assert j in Upto(rs, |rs|, |rs|);
      assert Holds(t, rs[j]);
    }
  }

  /** Every operation of the restore of such a list succeeds, and it leaves the
      tree the list describes. */
  lemma RebuildMeaning(rs: seq<Record>, tick: u64)
    requires Rebuildable(rs)
    ensures RebuildOf(rs, tick).Done? && Rebuilt(RebuildOf(rs, tick).tree, rs)
  {
    hide Rebuildable, Applied, BuiltFor, Stamped, Step;
    NamesPass(rs, |rs|, tick);
    var t := Applied(Namespace, EMPTY, rs, |rs|, tick).tree;
    LinksPass(t, rs, |rs|, tick);
    StampPass(Applied(Links, t, rs, |rs|, tick).tree, rs, |rs|, tick);
  }

  // ------------------------------------------------- one tree for a list

  /** The record that describes the node record `i` names, in any tree. */
  lemma SourceOf(a: Tree, b: Tree, rs: seq<Record>, i: nat) returns (s: nat)
    requires Rebuildable(rs) && BuiltFor(a, rs, Upto(rs, |rs|, |rs|)) && BuiltFor(b, rs, Upto(rs, |rs|, |rs|)) && i < |rs|
    ensures s < |rs| && !IsLink(rs[s])
    ensures Number(a, rs[s]) == Number(a, rs[i]) && Number(b, rs[s]) == Number(b, rs[i])
  {
    hide Fit, Described, Apart, Keyed, Shaped, Key, Number, HasTarget, HasParent;
    var done := Upto(rs, |rs|, |rs|);
    assert i in done;
    s := i;
    if IsLink(rs[i]) {
      KeyedIn(a, rs, done);
      KeyedIn(b, rs, done);
      assert Linked(a, rs, done, i) && Linked(b, rs, done, i);
      s :| s in done && NamesFile(rs[i], rs[s]) && Number(a, rs[s]) == Number(a, rs[i]);
      var j :| j in done && NamesFile(rs[i], rs[j]) && Number(b, rs[j]) == Number(b, rs[i]);
      assert j == s by { assert j < s || s < j || j == s; }
    }
  }

  lemma SameNumbers(a: Tree, b: Tree, rs: seq<Record>, i: nat, j: nat)
    requires Rebuildable(rs) && BuiltFor(a, rs, Upto(rs, |rs|, |rs|)) && BuiltFor(b, rs, Upto(rs, |rs|, |rs|))
    requires i < |rs| && j < |rs|
    ensures Number(a, rs[i]) == Number(a, rs[j]) <==> Number(b, rs[i]) == Number(b, rs[j])
  {
    hide Fit, Described, Keyed, Linked, Shaped, Key, Number, Rebuildable;
    var done := Upto(rs, |rs|, |rs|);
    KeyedIn(a, rs, done);
    KeyedIn(b, rs, done);
    var s := SourceOf(a, b, rs, i);
    var v := SourceOf(a, b, rs, j);
    assert s in done && v in done;
  }

  lemma {:induction false} LastOf(t: Tree, rs: seq<Record>, i: nat, k: nat) returns (l: nat)
    requires i < k <= |rs|
    ensures i <= l < k && Number(t, rs[l]) == Number(t, rs[i]) && Last(t, rs, k, l)
  {
    hide Number;
    if Number(t, rs[k - 1]) == Number(t, rs[i]) {
      l := k - 1;
    } else {
      l := LastOf(t, rs, i, k - 1);
    }
  }

  lemma SameNodes(a: Tree, b: Tree, rs: seq<Record>, i: nat)
    requires Rebuildable(rs) && Rebuilt(a, rs) && Rebuilt(b, rs) && i < |rs|
    ensures NodeFor(a, rs[i]) == NodeFor(b, rs[i])
  {
    hide Fit, Described, Keyed, Linked, Apart, Key, Rebuildable, Stamped;
    var done := Upto(rs, |rs|, |rs|);
    AllThere(a, rs);
    AllThere(b, rs);
    var s := SourceOf(a, b, rs, i);
    assert s in done && Shaped(a, rs[s]) && Shaped(b, rs[s]);
    var l := LastOf(a, rs, i, |rs|);
    forall m | l < m < |rs|
      ensures Number(b, rs[m]) != Number(b, rs[l])
    {
      SameNumbers(a, b, rs, m, l);
    }
    SameNumbers(a, b, rs, i, l);
    StampOf(a, rs, l);
    StampOf(b, rs, l);
  }

  lemma StampOf(t: Tree, rs: seq<Record>, l: nat)
    requires l < |rs| && Stamped(t, rs, |rs|) && Last(t, rs, |rs|, l)
    ensures NodeFor(t, rs[l]).meta.times == rs[l].times && NodeFor(t, rs[l]).meta.owner == rs[l].owner
  {
  }

  /** A list determines the tree, up to the numbers of the nodes. */
  lemma OneTree(a: Tree, b: Tree, rs: seq<Record>)
    requires Rebuildable(rs) && Rebuilt(a, rs) && Rebuilt(b, rs)
    ensures SameTree(a, b)
  {
    hide Fit, Linked, Apart, Key, Rebuildable, Stamped, Shaped, NameOf;
    var done := Upto(rs, |rs|, |rs|);
    AllThere(a, rs);
    AllThere(b, rs);
    forall k | k in a.entries || k in b.entries
      ensures k in a.entries && k in b.entries && exists i :: 0 <= i < |rs| && Key(rs[i]) == k
    {
      var i :| i in done && Key(rs[i]) == k;
      assert Holds(a, rs[i]) && Holds(b, rs[i]);
    }
    forall k | k in a.entries
      ensures a.entries[k].name == b.entries[k].name && a.nodes[a.entries[k].node] == b.nodes[b.entries[k].node]
    {
      var i :| 0 <= i < |rs| && Key(rs[i]) == k;
      assert i in done && Holds(a, rs[i]) && Holds(b, rs[i]);
      SameNodes(a, b, rs, i);
    }
    forall j, k | j in a.entries && k in a.entries
      ensures a.entries[j].node == a.entries[k].node <==> b.entries[j].node == b.entries[k].node
    {
      var m :| 0 <= m < |rs| && Key(rs[m]) == j;
      var n :| 0 <= n < |rs| && Key(rs[n]) == k;
      SameNumbers(a, b, rs, m, n);
    }
  }
}
