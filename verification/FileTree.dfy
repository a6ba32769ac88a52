// The file tree below /persist as the persistence code uses it: the operations
// of src/runtime_vfs.zig that a restore calls, and the restore of a record
// list with them (src/runtime_persist.zig).
module FileTree {
  import opened Bytes
  import opened Paths
  import opened JournalRecords
  import opened FileSync
  import opened SparseFiles
  import opened JournalRestore

  const MAX_MODE: nat := 0xFFF
  const SYMLINK_MODE: u16 := 0x1FF

  datatype Meta = Meta(mode: u16, times: Times, owner: Owner)

  datatype Node =
    | Directory(meta: Meta)
    | File(meta: Meta, contents: SparseFile)
    | Symlink(meta: Meta, target: seq<byte>)

  /** A directory entry: the name as it was given, and the node it names. */
  datatype Entry = Entry(name: seq<byte>, node: nat)

  /** Entries under their paths from the root, in lower case: a directory is
      entered once, a file may be entered under several names. */
  datatype RawTree = RawTree(entries: map<seq<byte>, Entry>, nodes: seq<Node>)

  predicate InTable(t: RawTree) {
    forall k :: k in t.entries ==> t.entries[k].node < |t.nodes|
  }

  type Tree = t: RawTree | InTable(t) witness RawTree(map[], [])

  const EMPTY: Tree := RawTree(map[], [])

  datatype VfsError = NameTooLong | PathTooLong | InvalidPath | NotFound | NotDirectory | IsDirectory | AlreadyExists
    | UnsupportedOperation | BehindSymlink | AssertionFails

  datatype Outcome = Done(tree: Tree) | Refused(error: VfsError) | Rejected(answer: RestoreResult)

  // ------------------------------------------------------- finding nodes

  datatype Place = Root | At(node: nat) | Missing(error: VfsError)

  /** `resolveInternalAs` without following the last component; a symbolic link
      on the way or at the end of a followed path is not modelled further. */
  function Resolve(t: Tree, key: seq<byte>): (r: Place)
    ensures r.At? ==> r.node < |t.nodes|
    decreases |key|
  {
    if key == [] then Root
    else
      match Followed(t, Resolve(t, ParentOf(key)))
      case Missing(e) => Missing(e)
      case place =>
        if NoDirectory(t, place) then Missing(NotDirectory)
        else if key in t.entries then At(t.entries[key].node) else Missing(NotFound)
  }

  function Followed(t: Tree, place: Place): (r: Place)
    requires place.At? ==> place.node < |t.nodes|
    ensures r == place || r == Missing(BehindSymlink)
  {
    if place.At? && t.nodes[place.node].Symlink? then Missing(BehindSymlink) else place
  }

  predicate NoDirectory(t: Tree, place: Place)
    requires place.At? ==> place.node < |t.nodes|
  {
    place.At? && !t.nodes[place.node].Directory?
  }

  function Lookup(t: Tree, path: seq<byte>): (r: Place)
    ensures r.At? ==> r.node < |t.nodes|
  {
    Followed(t, Resolve(t, Fold(path)))
  }

  // ------------------------------------------------------- changing it

  function AllAt(tick: u64): Times {
    Times(tick, tick, tick, tick)
  }

  function Fresh(mode: u16, tick: u64): Meta {
    Meta(mode, AllAt(tick), Owner(0, 0))
  }

  function WithMeta(n: Node, meta: Meta): Node {
    match n
    case Directory(_) => Directory(meta)
    case File(_, contents) => File(meta, contents)
    case Symlink(_, target) => Symlink(meta, target)
  }

  function SetNode(t: Tree, n: nat, node: Node): Tree
    requires n < |t.nodes|
  {
    RawTree(t.entries, t.nodes[n := node])
  }

  function Touched(times: Times, tick: u64): Times {
    times.(modified := tick, changed := tick)
  }

  /** `touchDirectoryMutation`. */
  function Touch(t: Tree, place: Place, tick: u64): Tree
    requires place.At? ==> place.node < |t.nodes|
  {
    if !place.At? then t
    else
      var n := t.nodes[place.node];
      SetNode(t, place.node, WithMeta(n, n.meta.(times := Touched(n.meta.times, tick))))
  }

  function Enter(t: Tree, path: seq<byte>, node: nat): Tree
    requires node < |t.nodes|
  {
    RawTree(t.entries[Fold(path) := Entry(NameOf(path), node)], t.nodes)
  }

  /** `parentAndNameAs` and `createNode`. */
  function Create(t: Tree, path: seq<byte>, node: Node, tick: u64): (o: Outcome)
    ensures o.Done? ==> |o.tree.nodes| == |t.nodes| + 1 && o.tree.nodes[|t.nodes|] == node
  {
    match Lookup(t, ParentOf(path))
    case Missing(e) => Refused(e)
    case place =>
      if NoDirectory(t, place) then Refused(NotDirectory)
      else if node.meta.mode > MAX_MODE then Refused(InvalidPath)
      else if Fold(path) in t.entries then Refused(AlreadyExists)
      else Done(Touch(Enter(RawTree(t.entries, t.nodes + [node]), path, |t.nodes|), place, tick))
  }

  function EnsureDirectory(t: Tree, path: seq<byte>, mode: u16, tick: u64): Outcome {
    if !NamesFit(path) then Refused(NameTooLong)
    else
      match Lookup(t, path)
      case Missing(e) => if e == NotFound then Create(t, path, Directory(Fresh(mode, tick)), tick) else Refused(e)
      case _ => Done(t)
  }

  function Filled(n: Node, mode: u16, contents: SparseFile, tick: u64): Node
    requires n.File?
  {
    File(n.meta.(mode := mode, times := Touched(n.meta.times, tick)), contents)
  }

  const NO_CONTENTS: SparseFile := SparseFile(0, [None, None, None, None, None, None, None, None])

  /** `putFile` and `restoreSparseFile`. */
  function StoreFile(t: Tree, path: seq<byte>, mode: u16, contents: SparseFile, tick: u64): Outcome {
    if mode > MAX_MODE then Refused(InvalidPath)
    else if !NamesFit(path) then Refused(NameTooLong)
    else
      match Lookup(t, path)
      case Root => Refused(IsDirectory)
      case At(n) =>
        if !t.nodes[n].File? then Refused(IsDirectory)
        else Done(SetNode(t, n, Filled(t.nodes[n], mode, contents, tick)))
      case Missing(e) =>
        if e != NotFound then Refused(e)
        else
          var created := Create(t, path, File(Fresh(mode, tick), NO_CONTENTS), tick);
          if !created.Done? then created
          else
            Done(SetNode(created.tree, |t.nodes|, Filled(created.tree.nodes[|t.nodes|], mode, contents, tick)))
  }

  function MakeSymlink(t: Tree, target: seq<byte>, path: seq<byte>, tick: u64): Outcome {
    if target == [] then Refused(InvalidPath)
    else if |target| > MAX_PATH then Refused(PathTooLong)
    else if 0 in target then Refused(InvalidPath)
    else if !NamesFit(target) || !NamesFit(path) then Refused(NameTooLong)
    else Create(t, path, Symlink(Fresh(SYMLINK_MODE, tick), target), tick)
  }

  /** `link`: one more name for a file. That the new name's directory is one is
      an assertion of the source. */
  function Link(t: Tree, old_: seq<byte>, new_: seq<byte>, tick: u64): Outcome {
    if !NamesFit(old_) || !NamesFit(new_) then Refused(NameTooLong)
    else
      match Resolve(t, Fold(old_))
      case Missing(e) => Refused(e)
      case Root => Refused(IsDirectory)
      case At(n) =>
        if t.nodes[n].Directory? then Refused(IsDirectory)
        else if t.nodes[n].Symlink? then Refused(UnsupportedOperation)
        else
          match Lookup(t, ParentOf(new_))
          case Missing(e) => Refused(e)
          case place =>
            if NoDirectory(t, place) then Refused(AssertionFails)
            else if Fold(new_) in t.entries then Refused(AlreadyExists)
            else
              var f := t.nodes[n];
              var changed := f.meta.(times := f.meta.times.(changed := tick));
              Done(Touch(SetNode(Enter(t, new_, n), n, WithMeta(f, changed)), place, tick))
  }

  /** `restoreTimestamps` and `restoreOwnership`. */
  function Stamp(t: Tree, path: seq<byte>, times: Times, owner: Owner): Outcome {
    if !NamesFit(path) then Refused(NameTooLong)
    else
      match Resolve(t, Fold(path))
      case Missing(e) => Refused(e)
      case Root => Refused(UnsupportedOperation)
      case At(n) =>
        var f := t.nodes[n];
        Done(SetNode(t, n, WithMeta(f, f.meta.(times := times, owner := owner))))
  }

  // ------------------------------------------------- restoring a list

  /** The contents `putFile` writes: blocks as far as the bytes reach, the last
      one filled up with zeros. */
  function Plain(data: seq<byte>): (f: SparseFile)
    ensures |f.slots| == BLOCKS_PER_NODE
  {
    SparseFile(|data|, seq(BLOCKS_PER_NODE, k requires 0 <= k < BLOCKS_PER_NODE =>
      if k * FILE_BLOCK < |data| then Some(Padded(data[k * FILE_BLOCK..Min(|data|, (k + 1) * FILE_BLOCK)])) else None))
  }

  function Padded(s: seq<byte>): seq<byte> {
    if |s| < FILE_BLOCK then s + Zeros(FILE_BLOCK - |s|) else s
  }

  /** Every byte of the data in its place, zeros behind them, and no block
      further on. */
  lemma PlainReads(data: seq<byte>, i: nat)
    requires |data| <= 32768 && i < 32768
    ensures var f, k := Plain(data), i / 4096;
            && f.size == |data| && (f.slots[k].Some? <==> 4096 * k < |data|)
            && (f.slots[k].Some? ==> |f.slots[k].value| == 4096
                                     && f.slots[k].value[i % 4096] == if i < |data| then data[i] else 0)
  {
    var k, r := i / 4096, i % 4096;
    assert i == 4096 * k + r;
  }

  function FileContents(kind: byte, data: seq<byte>): SparseFile
    requires kind == KIND_SPARSE ==> SparseImage(data)
  {
    if kind == KIND_SPARSE then Decoded(data) else Plain(data)
  }

  /** What a pass does with one record. */
  function Step(pass: Pass, t: Tree, r: Record, tick: u64): Outcome {
    match CheckRecord(pass, r.kind, r.path, r.data)
    case Restored =>
      (match pass
       case Namespace =>
         if r.kind == KIND_HARD_LINK then Done(t)
         else if r.kind == KIND_DIRECTORY then EnsureDirectory(t, r.path, r.mode, tick)
         else if r.kind == KIND_SYMLINK then MakeSymlink(t, r.data, r.path, tick)
         else StoreFile(t, r.path, r.mode, FileContents(r.kind, r.data), tick)
       case Links =>
         if r.kind == KIND_HARD_LINK then Link(t, r.data, r.path, tick) else Done(t)
       case Metadata =>
         Stamp(t, r.path, r.times, r.owner))
    case answer => Rejected(answer)
  }

  /** A pass over the first `k` records. */
  function Applied(pass: Pass, t: Tree, rs: seq<Record>, k: nat, tick: u64): Outcome
    requires k <= |rs|
  {
    if k == 0 then Done(t)
    else
      match Applied(pass, t, rs, k - 1, tick)
      case Done(u) => Step(pass, u, rs[k - 1], tick)
      case failed => failed
  }

  /** The three passes of a restore, on the records of its payload. */
  function RebuildOf(rs: seq<Record>, tick: u64): Outcome {
    match Applied(Namespace, EMPTY, rs, |rs|, tick)
    case Done(t) =>
      (match Applied(Links, t, rs, |rs|, tick)
       case Done(u) => Applied(Metadata, u, rs, |rs|, tick)
       case failed => failed)
    case failed => failed
  }

  method RunPass(pass: Pass, t: Tree, rs: seq<Record>, tick: u64) returns (r: Outcome)
    ensures r == Applied(pass, t, rs, |rs|, tick)
  {
    hide Step;
    var tree := t;
    for k := 0 to |rs|
      invariant Applied(pass, t, rs, k, tick) == Done(tree)
    {
      var next := Step(pass, tree, rs[k], tick);
      if !next.Done? {
        AppliedStops(pass, t, rs, k + 1, tick);
        return next;
      }
      tree := next.tree;
    }
    return Done(tree);
  }

  lemma {:induction false} AppliedStops(pass: Pass, t: Tree, rs: seq<Record>, k: nat, tick: u64)
    requires k <= |rs| && !Applied(pass, t, rs, k, tick).Done?
    ensures Applied(pass, t, rs, |rs|, tick) == Applied(pass, t, rs, k, tick)
    decreases |rs| - k
  {
    hide Step;
    if k < |rs| {
      assert Applied(pass, t, rs, k + 1, tick) == Applied(pass, t, rs, k, tick);
      AppliedStops(pass, t, rs, k + 1, tick);
    }
  }

  /** `restore`: names first, then the further names of files, then ticks and
      owners. */
  method Rebuild(rs: seq<Record>, tick: u64) returns (r: Outcome)
    ensures r == RebuildOf(rs, tick)
  {
    hide Applied;
    r := RunPass(Namespace, EMPTY, rs, tick);
    if r.Done? {
      r := RunPass(Links, r.tree, rs, tick);
    }
    if r.Done? {
      r := RunPass(Metadata, r.tree, rs, tick);
    }
  }
}
