# ZigOs on-disk and in-image formats: a Dafny model and its proofs

ZigOs keeps its persistent files in an A/B journal: two header blocks and two
64 KiB payload regions in a data partition. A commit writes the payload of the
passive slot, flushes, writes that slot's 48-byte header with force-unit-access
and flushes again; a mount takes the newest generation whose header and payload
check. Around it stand the formats its tools write and independently read back:
a FAT12 volume, a GPT disk with a FAT16 partition, and three kinds of ELF image.

The project models the code of these pieces, byte by byte, in the form the code
has (objects and in-place buffers as classes, arrays and loops; arithmetic and
decoders as functions), and proves what they are for.

## What is proved

- **Crash safety over whole runs** (`JournalRuns`). Commits, I/O failures,
  power losses and mounts are the steps of a machine over a block device with a
  volatile cache, in which any subset of the unflushed writes may land. Every
  step keeps an invariant and is a step of a one-cell register with at most one
  update in flight. Hence, at every state of every run, a power loss is followed
  by a mount that yields the committed snapshot or the one in flight, complete;
  an acknowledged commit survives; generation n lives in slot (n - 1) mod 2. No
  assumption about CRC collisions is used.
- **What is synced comes back, as a tree** (`FileTree`, `TreeRebuild`, `TreeWalk`,
  `TreeSync`, `TreeJournal`). A global sync walks the file tree into a record list;
  the next mount makes a tree of the records with `ensureDirectory`,
  `restoreSparseFile`, `symlink`, `link` and the metadata pass. For every tree the
  file system can hold, the walk succeeds exactly when the documented limits admit
  it, every operation of the restore of its list succeeds, and the tree that
  results is the one that was walked: the same names, contents, holes, links,
  modes, ticks and owners. A one-file sync changes that one file of it, under all
  its names. At every state of every run of such commits, with any failures, a
  power loss leaves a disk whose tree can be rebuilt without any operation
  failing, and a tree whose sync was acknowledged comes back unless a newer one
  does. Payloads of the two older versions restore to the same tree with the
  documented metadata supplied, and the next global sync keeps it (`Migration`).
- **Progress** (`JournalReach`). When nothing fails, every payload can be
  committed over every state a run reaches, and from the second commit on the
  disk is the healthy pair of generations the corruption results start from.
- **The kernel's store refines the machine** (`JournalStore`, `JournalSession`).
  `mount`, `check`, `sync`, `syncFile` and `commitSnapshot` are methods of a class
  over a device any of whose operations may fail. A commit's ghost result lists
  the states it went through: they are consecutive steps of the machine. A whole
  boot, a mount and any list of sync calls after it, continues the run that led
  to its disk, and every call that reported durable success has its acknowledging
  step in that run. An I/O error is reported exactly when a device operation
  failed, so on a boot without failures the mount and every call are answered as
  a function of the disk and the requests says.
- **The mount returns** (`Paths`, `SparseFiles`, `JournalRestore`,
  `JournalLists`). The three passes of `restore` accept exactly the lists of
  records whose paths are slash-joined names and whose data is of their kind, in
  each of the three payload versions; everything the writers commit is such a
  list, and so after a crash at any point of any run of such commits the payload
  the mount chooses restores. A sparse file's stored data decodes to its size, its
  blocks in their slots and its holes, and nothing else decodes to them.
- **The exact limit of that safety** (`JournalLimits`, `JournalRejected`). On a
  disk that mounts and whose passive header, if valid, was put there by a commit
  of a writer's list, every commit the kernel can begin is crash safe before its
  header write if and only if the passive header does not outrank the mounted
  generation; the witness of the other direction commits the very list that
  header declares. Such a disk is what a fallback leaves behind when the newest
  *payload* was damaged (and not when its header was): a later commit that writes
  the damaged block's old contents and loses power brings the rejected generation
  back, neither the committed state nor the one in flight. `RejectedComesBack`
  builds that run, from every fresh partition, for either block size and every
  byte of the payload's first block. docs/PERSISTENCE-COMPATIBILITY.md line 164
  promises the active generation there; the model follows the code. The
  kernel's own `check` passes on such a disk.
- **Selective durability** (`FileSync`, `JournalDurability`). One-file syncs
  replace exactly the target's record; `fdatasync` keeps its committed mode,
  owner and three of its ticks. Over runs: an unsynced file's record never
  becomes durable through another file's sync, and of a synced one a mount finds
  what the sync promised or what later syncs of that file made of it.
- **Codecs** (`JournalFormat`, `JournalRecords`, `Elf64`, `Gpt`). Encoders and
  parsers undo each other in both directions; two independent header readers
  agree on every block; any one changed byte is detected by CRC-32 and FNV-1a,
  whatever the length. Published check values fix both checksums: the CRC-32 of any
  string with its own checksum behind it is 0x2144DF1C.
- **One-byte corruption of a healthy journal** (`JournalCorruption`): what
  mounts afterwards, for every byte of the disk, with both counters.
- **The host sees what the kernel mounts** (`JournalHost`), in an image file,
  after a crash anywhere in a run that began on the generated image.
- **FAT12** (`Fat12`, `Fat12Volume`): packed entries are an independent map; the
  chain reader's acceptance is characterised exactly, implies acyclicity without
  a visited set, and is complete by pigeonhole; every fitting file list
  round-trips through the whole volume.
- **GPT and FAT16 image** (`Gpt`, `NvmeImage`): the fourteen writes are disjoint
  and read back; cluster ownership in both modes, over whatever chains a reader
  finds in the table; conservation. One changed byte of a GPT header is refused
  by the kernel, except that the header-size field decides how many bytes its
  checksum covers: for every placeable header there is an entry array for which
  the size 93 in place of 92 is accepted. Exactly when it is, is stated for every
  byte; a caller who also asks for a header size of 92 is never fooled.
- **The kernel finds its partitions** (`GptDisk`, `ImageDisk`). The search over
  protective MBR, headers and entry arrays finds on every generated disk exactly
  the two partitions the script laid out, and the boot volume and the journal
  start from the blocks it names.
- **The boot volume** (`BootFat`, `BootFiles`, `BootImage`). A partition opens
  exactly as the volume its boot sector describes. Over the raw words of the
  table, a file's chain is accepted exactly when it is terminated, in range, long
  enough and free of clusters claimed before, and otherwise refused with exactly
  the error those words show; deleted, long-name, label and dot entries change
  nothing; every mounted volume has pairwise disjoint chains; a file's cursor
  changes nothing in what its reads return. From the
  blocks of the finished image, boot sector on, the mount finds three files with
  exactly their bytes when the image is healthy, refuses the cross-linked image
  as such, and refuses an image with an empty EFI file.
- **ELF images** (`Elf64`, `RuntimeElf`, `UserElf`, `LegacyElf`): the forward
  scan of the SDK verifier accepts exactly the layouts it should; generators and
  verifiers agree in both directions; the embedded seals break on one byte.

CRC-32 is the checksum of section 8 of RFC 1952; GPT headers and entry arrays
follow sections 5.3.2 and 5.3.3 of the UEFI Specification. Integers are
unbounded in Dafny: bytes, 16-, 32- and 64-bit fields are subset types, and
every wrap or truncation is written out.

`JournalStore` members whose contracts speak of the state before the call are
stated with `old`; the lemmas they rest on are about the same specification
functions.

## Model

| member | source | states |
|---|---|---|
| JournalRuns.StepRefines | src/runtime_persist.zig:465-520 | every step of the commit protocol, every failure and every power loss keeps the invariant and is a step of a durable cell with at most one update in flight |
| JournalRuns.CrashSafe | docs/PERSISTENCE-COMPATIBILITY.md:106-119 | from any invariant state, any crash image mounts, as the committed snapshot or the one in flight |
| JournalRuns.RunCrashSafe | docs/PERSISTENCE-COMPATIBILITY.md:158-166 | the same at every state of every run of commits, I/O failures, crashes and mounts |
| JournalRuns.NoRollback | docs/PERSISTENCE-COMPATIBILITY.md:106-119 | along a run the durable generation never decreases and one generation never names two snapshots |
| JournalRuns.AcknowledgedSurvives | src/runtime_persist.zig:507-520 | from the step that reports success on, every crash of every later state mounts that snapshot or a newer generation |
| JournalRuns.RunParity | src/runtime_persist.zig:465-520 | from a fresh partition generation n is only ever the active one in slot (n - 1) mod 2 |
| JournalRuns.FreshInit | docs/PERSISTENCE-COMPATIBILITY.md:135-137 | a partition whose two header blocks are zero is a start of a run |
| JournalRuns.WriteSectorKeeps | src/runtime_persist.zig:474-486 | writing one payload block, or failing at it, keeps the invariant: the active slot and both headers are untouched |
| JournalRuns.FlushPayloadKeeps | src/runtime_persist.zig:487-491 | after the first flush the passive region reads as exactly the new payload |
| JournalRuns.WriteHeaderKeeps | src/runtime_persist.zig:494-506 | the header write moves the disk to the next snapshot; a failed one leaves it at either of the two |
| JournalRuns.FlushHeaderKeeps | src/runtime_persist.zig:507-520 | the last flush makes the new snapshot the committed one; failing there leaves it durable already |
| JournalRuns.WrapKeeps | src/runtime_persist.zig:492-493 | refusing to wrap the generation counter leaves the committed state mounted |
| JournalDisk.RecoverExactly | src/runtime_persist.zig:204-242 | a mount recovers a given state if and only if both headers are absent and it is the empty tree, or its slot's header and payload agree and the other slot has no agreeing pair that is newer, or equally new in slot 0 |
| JournalDisk.SettledRecovers | src/runtime_persist.zig:204-242 | a disk whose active slot holds the snapshot and whose other header is older mounts as it, whatever the passive payload contains |
| JournalDisk.CheckExactly | src/runtime_persist.zig:535-551 | the check passes if and only if the active slot has a header of the mounted generation and version whose payload matches, or, at generation 0, both headers are absent |
| JournalDisk.PublishSettles | src/runtime_persist.zig:465-520 | over a passive region that already holds the next payload, the header block alone publishes it |
| JournalDisk.SettledFrame | docs/PERSISTENCE-COMPATIBILITY.md:119 | being settled survives any change confined to the passive payload region |
| JournalDisk.ReadRunOfBlocks | src/runtime_persist.zig:470-486 | a payload cut into zero-filled blocks reads back as that payload |
| JournalDisk.SettledPasses | src/runtime_persist.zig:535-551 | a settled disk passes the kernel's check, except when generation 0 is mounted from a header that holds it |
| JournalReach.CommitCompletes | docs/PERSISTENCE-COMPATIBILITY.md:106-119 | when no operation fails every committable payload can be committed over every state between commits, and from the second commit on the disk holds the new and the previous generation intact |
| JournalReach.TwoGenerations | scripts/test-x86_64-persistence.py:466-505 | from a fresh partition two commits put generations 1 and 2 into slots 0 and 1, both intact, and the next mount yields the second |
| JournalStore.Device.Write | src/runtime_persist.zig:35-57 | a write that succeeds is cached, or durable with force-unit-access; one that fails may have landed, been cached or vanished; outside the device nothing happens |
| JournalStore.Device.Flush | src/runtime_persist.zig:35-57 | a successful flush makes what reads return the only possible content after a power loss |
| JournalStore.Store.constructor | src/runtime_persist.zig:200-202 | an initialized store is unmounted, undamaged and holds the empty tree of generation 0 in slot 1 |
| JournalStore.Store.LoadHeader | src/runtime_persist.zig:833-868 | reading a header block classifies it and counts exactly the invalid ones |
| JournalStore.Store.ValidatePayload | src/runtime_persist.zig:877-894 | the block-by-block checksum is the CRC-32 of exactly the declared payload bytes; an I/O failure is reported exactly when a device operation failed |
| JournalStore.Store.LoadPayload | src/runtime_persist.zig:896-913 | the buffer's prefix becomes exactly the declared payload |
| JournalStore.Store.SelectCandidate | src/runtime_persist.zig:211-237 | the newest valid candidate, slot 0 on a tie, with the two counters of the selection |
| JournalStore.Store.Mount | src/runtime_persist.zig:204-242 | on success the memory is what recovery finds on the disk, its payload passed the three passes of restore, and the call is the machine's mount step; corruption and lack of room are reported only when recovery finds nothing or restore says so; an I/O failure is reported exactly when a device operation failed, and without one the answer is a function of the disk; both counters |
| JournalStore.Store.Check | src/runtime_persist.zig:535-551 | the verdict is exactly whether the active slot still carries the mounted generation and version with a matching payload |
| JournalStore.Store.RecordIoDamage | src/runtime_persist.zig:522-533 | only the first failure counts: it fixes the damage reason for good and its remount is counted, with the dirty pages discarded, or its failure is |
| JournalStore.Store.WritePayload | src/runtime_persist.zig:474-486 | the payload loop is a run segment ending with all blocks written, or damaged at the failing block with reason payload_write; it fails exactly when a device operation did |
| JournalStore.Store.PublishHeader | src/runtime_persist.zig:494-512 | header write and second flush are a run segment ending committed, or damaged with the reason of the failing operation |
| JournalStore.Store.CommitSnapshot | src/runtime_persist.zig:465-520 | the call is a segment of the machine's runs; success moves the memory to the next generation in the other slot, failure keeps it and damages the store with the failing operation's reason, wrap-around is refused undamaged; an I/O failure is reported exactly when one device operation failed |
| JournalStore.CommitCrashSafe | docs/PERSISTENCE-COMPATIBILITY.md:158-166 | wherever in a commit call the power fails, the next mount yields the snapshot before the call or the one being committed |
| JournalSession.Boot | src/runtime_persist.zig:204-274 | a mount and any list of sync calls after it continue the run that led to the disk: every state is a machine state, the store ends in step with the last one, and every call that reported durable success has its acknowledging step; when no device operation fails the mount succeeds exactly if the disk's answer is a mount, and every call is answered as a function of the disk and the requests |
| JournalSession.AcknowledgedCallSurvives | docs/PERSISTENCE-COMPATIBILITY.md:158-166 | after a call that reported durable success every later power loss mounts that call's commit or a newer one |
| JournalSession.PowerCut | docs/PERSISTENCE-COMPATIBILITY.md:158-166 | a power loss at any state of a boot leaves the run the next boot continues from |
| Paths.PathExactly | src/runtime_persist.zig:944-951 | a path is valid if and only if it is a nonempty list of names joined by slashes, no name empty, "." or "..", none with a slash or a zero byte |
| Paths.ChildPath | src/runtime_persist.zig:702-711 | a name, alone or behind a valid path and a slash, is a valid path |
| Paths.NamesFitExactly | src/runtime_vfs.zig:155-167 | the scan of the path bounds admits exactly the paths all of whose names have at most 31 bytes |
| Paths.SameButForCase | src/runtime_vfs.zig:2239-2245 | two paths have the same lookup key exactly when they differ at most in the case of letters |
| JournalRestore.RestoreEveryVersion | src/runtime_persist.zig:713-816 | for the record headers of each of the three versions: a payload of laid-out records restores if and only if every record has a valid path of at most 246 bytes and data of its kind: none for a directory, a file's bytes, a sparse image, a target for a link |
| JournalRestore.RestoreErrors | src/runtime_persist.zig:713-816 | a restore is refused for room only over a path too long behind the mount's prefix, and as corrupt only over data that is not of its kind |
| JournalRestore.RestoreExactly | src/runtime_persist.zig:713-816 | of the serialized kernel record lists, restore accepts exactly those all of whose records are restorable |
| JournalRestore.RestoredIsList | src/runtime_persist.zig:713-816 | every version-3 payload restore accepts is such a serialization |
| JournalRestore.RestorePayload | src/runtime_persist.zig:713-816 | the count word and the three passes in their order, each refusal included |
| SparseFiles.SparseDataRestores | src/runtime_persist.zig:433-445 | the sparse data the writers store for a file is what restore accepts for it |
| SparseFiles.AssembleSparse | src/runtime_persist.zig:433-445 | the loop over an inode's blocks leaves bitmap, size and the allocated blocks in the scratch buffer |
| SparseFiles.DecodedOfEncoded | src/runtime_vfs.zig:1807-1846 | what a restore decodes from the stored data of a file: its size, each allocated block in its slot, and holes elsewhere |
| SparseFiles.EncodedOfDecoded | src/runtime_vfs.zig:1807-1846 | every accepted sparse data is the stored data of the file it decodes to |
| SparseFiles.RestoreSparseFile | src/runtime_vfs.zig:1807-1846 | the loop over the slots decodes exactly that file |
| JournalRestore.SyncKeepsWriter | src/runtime_persist.zig:359-463 | a one-file sync of a writer's list gives a writer's list |
| JournalLists.CrashRestores | docs/PERSISTENCE-COMPATIBILITY.md:158-166 | after a power loss anywhere in a run of commits of writers' lists from a fresh partition the payload the mount chooses passes restore, and is the durable or the in-flight one |
| JournalLists.CrashIsClean | docs/PERSISTENCE-COMPATIBILITY.md:106-119 | and both header blocks are empty or as a commit of such a list left them |
| JournalLists.OursAfterOneByte | docs/PERSISTENCE-COMPATIBILITY.md:140-141 | one changed byte leaves no valid header that no commit wrote |
| TreeRebuild.RebuildMeaning | docs/PERSISTENCE-COMPATIBILITY.md:93 | for every list that names each path once, directories before what they hold and links to files of the list, all operations of the three restore passes succeed and leave exactly the names, nodes, shared inodes and metadata the list describes |
| TreeRebuild.OneTree | docs/PERSISTENCE-COMPATIBILITY.md:93 | such a list determines the tree up to the numbers of its nodes |
| TreeRebuild.StepExactly | src/runtime_persist.zig:713-816 | on any closed tree an operation of the restore succeeds if and only if the name is new and its directory there, or the name is there and of a kind that is kept or overwritten; a link's target must be a file |
| TreeRebuild.CreateEffects | src/runtime_vfs.zig:2363-2414 | creating a name adds its entry and node, moves its directory's two ticks, and changes nothing else |
| TreeRebuild.LinkEffects | src/runtime_vfs.zig:740-760 | a further name for a file moves the file's change tick and its directory's two |
| TreeRebuild.OverwriteEffects | src/runtime_vfs.zig:1807-1846 | storing over a file replaces mode and contents, moves two ticks and keeps the rest |
| FileTree.PlainReads | src/runtime_vfs.zig:2787-2820 | a file written whole holds every byte in its place, zeros behind them, and no block further on |
| FileTree.Rebuild | src/runtime_persist.zig:713-816 | the three passes over the records with the tree operations each calls, and every refusal of theirs |
| TreeWalk.SyncThenRestore | docs/PERSISTENCE-COMPATIBILITY.md:185-190 | for every tree the file system can hold: the list a sync walks from it is accepted by restore, every tree operation of the restore succeeds, and the tree it makes is the tree that was walked |
| TreeWalk.WalkExactly | src/runtime_persist.zig:639-700 | a tree can be serialized if and only if its paths fit 255 bytes with the mount's prefix, its directories hold at most 64 names, there are at most 127 directories below the root, and the records of its entries fit a slot |
| TreeWalk.SerializeTree | src/runtime_persist.zig:639-700 | the queue loop with its two passes over each listing leaves the walked list in the buffer, or the walk's error |
| TreeSync.FileSyncRebuilds | src/runtime_persist.zig:359-463 | the tree rebuilt from the list a one-file sync commits is the one rebuilt before it with that file's contents, and after fsync its metadata, replaced under all its names |
| TreeJournal.FsyncedFileReturns | src/runtime_persist.zig:359-463 | after fsync of a live file the rebuilt tree holds that very file, and is otherwise the tree before |
| TreeJournal.EveryMountRebuilds | docs/PERSISTENCE-COMPATIBILITY.md:158-166 | at every state of every run of walked-tree and one-file commits, any crash image mounts as nothing yet or as a list all of whose restore operations succeed |
| TreeJournal.SyncedTreeReturns | docs/PERSISTENCE-COMPATIBILITY.md:158-166 | after an acknowledged global sync every later power loss mounts a newer generation or rebuilds the very tree that was synced |
| Migration.OlderRestores | docs/PERSISTENCE-COMPATIBILITY.md:96-103 | a payload of version 1, 2 or 3 of a kernel's list restores, its passes read the list with the metadata that version does not store supplied, and every tree operation succeeds and leaves that list's tree |
| Migration.ReadsBack | src/runtime_persist.zig:967-996 | reading a record of each version gives what was stored, with the mount tick for version 1's ticks and user and group 0 before version 3 |
| Migration.MigratedReturns | docs/PERSISTENCE-COMPATIBILITY.md:96-103 | what the next global sync commits after such a mount rebuilds the same tree |
| JournalStore.Store.Sync | src/runtime_persist.zig:244-266 | each outcome exactly: a damaged store, a plan that does not cover every writable mount, an unmounted store and a tree that cannot be serialized write nothing; otherwise exactly one commit of the walked tree is made, whose steps end where device, memory and damage flag stand |
| JournalStore.Store.SyncFile | src/runtime_persist.zig:268-274 | each outcome exactly: a damaged store is read-only, an unmounted one not configured, a refused construction returns its own error, a mount of an older version or of nothing is unsupported, all without I/O; otherwise exactly one commit of the payload the one-file construction builds, ended as success, damage or exhausted generations |
| MountPlan.PlanWritableMounts | src/runtime_persist.zig:611-628 | a plan is made exactly when every writable mount has a backend, and it counts each of them once |
| MountPlan.OneMount | src/runtime_persist.zig:611-628 | what a single mount of each kind means for the plan |
| JournalLimits.SafeToCommitExactly | docs/PERSISTENCE-COMPATIBILITY.md:119 | on every disk that mounts and whose passive header, if valid, a commit of a writer's list put there, every commit of such a list is crash safe before its header write if and only if the passive header does not outrank the mounted generation |
| JournalLimits.NotOutrankedIsSafe | docs/PERSISTENCE-COMPATIBILITY.md:119 | without an outranking header every commit is safe, whoever wrote the passive header |
| JournalLimits.SettledIsSafe | docs/PERSISTENCE-COMPATIBILITY.md:119 | the disks runs start from are safe to commit on |
| JournalLimits.SettledAfterOneByte | docs/PERSISTENCE-COMPATIBILITY.md:140-141 | after one changed byte the mounted disk is settled again, except when the byte lies in the newest generation's payload |
| JournalLimits.RejectedGenerationReturns | docs/PERSISTENCE-COMPATIBILITY.md:164 | the promise fails there: committing another writer's list that puts the damaged block's old contents back, cut off when that block has landed, brings the rejected generation back, without any checksum collision |
| JournalRejected.RejectedComesBack | docs/PERSISTENCE-COMPATIBILITY.md:164 | a run that does it, from every fresh partition, for either block size and every byte of the payload's first block: two commits, one changed byte, mount, a commit's first write, power loss; the next mount finds neither the generation mounted before nor the one in flight |
| JournalLimits.CheckMissesIt | src/runtime_persist.zig:535-551 | the kernel's check passes on that disk although not every commit on it is safe |
| JournalCorruption.SlotAfter | scripts/test-x86_64-persistence.py:607-646 | under one changed byte a slot is no candidate when the byte is one its validity rests on and unchanged otherwise; its header turns invalid exactly when the byte is in it |
| JournalCorruption.OneByteRecovery | scripts/test-x86_64-persistence.py:607-646 | after any one changed byte of a healthy pair the newest generation mounts, or the older one when the byte is protected for the newest; both counters are determined |
| JournalCorruption.OneByteSingleSlot | docs/PERSISTENCE-COMPATIBILITY.md:142 | with one generation only, damage to what it rests on is reported as corruption and never mistaken for a fresh partition, and any other changed byte, the empty header block's included, leaves it mounted; both counters are determined |
| JournalFormat.HeaderFields | docs/PERSISTENCE-COMPATIBILITY.md:36-56 | the bytes of an encoded header: magic, fields and commit marker at the documented offsets |
| JournalFormat.ValidExactly | src/runtime_persist.zig:833-868 | a slot's reader returns a header if and only if the block begins with that header's encoding and it is of that slot, of version 1, 2 or 3, with a payload length of 4 to 65536 |
| JournalFormat.EncodedHeaderReads | src/runtime_persist.zig:833-868 | the reader returns every header the encoder writes |
| JournalFormat.ReadHeaderIsEncoded | src/runtime_persist.zig:915-930 | a valid block's first 48 bytes are exactly what the encoder writes for the header it yields |
| JournalFormat.ReadersAgree | scripts/test-x86_64-persistence.py:285-314 | kernel and host readers call the same blocks absent and the host accepts exactly the valid version-3 headers |
| JournalFormat.HostNamesFirst | scripts/test-x86_64-persistence.py:285-314 | which fault the host reports of a block with several: the first in its order of checks |
| JournalFormat.HeaderCorruptionDetected | scripts/test-x86_64-persistence.py:620-636 | one changed byte anywhere in the 48 makes a valid header invalid for both readers, never absent and never another valid one |
| JournalFormat.EncodeHeader | src/runtime_persist.zig:915-930 | the field writes into the cleared sector and the checksum written last produce the header block |
| JournalFormat.ParseHeader | scripts/test-x86_64-persistence.py:285-314 | the parser's result on an image file, truncated reads included, with the checksum field zeroed in place |
| JournalFormat.CorruptBlockByte | scripts/test-x86_64-persistence.py:249-277 | exactly one byte of the image changes, by exclusive or with the mask; a byte outside the block, a truncated block or a zero mask is refused and changes nothing |
| JournalRecords.ParseOfPayload | scripts/test-x86_64-persistence.py:317-363 | the host parser returns exactly the records that were serialized, for every list of distinct ASCII paths |
| JournalRecords.ParseOfUnhostable | scripts/test-x86_64-persistence.py:317-363 | a serialized list with a path that is not ASCII or not new is refused with the first such record's error |
| JournalRecords.PayloadOfParse | scripts/test-x86_64-persistence.py:317-363 | every accepted payload is byte for byte the serialization of what it yields: no slack, no trailing bytes |
| JournalRecords.PayloadCorruptionDetected | scripts/test-x86_64-persistence.py:638-646 | one changed payload byte makes the parser reject with a checksum error |
| JournalRecords.RecordAtOfBytes | src/runtime_persist.zig:999-1027 | the bytes of a record, wherever they lie, parse to that record and end where they end |
| JournalRecords.BytesOfRecordAt | scripts/test-x86_64-persistence.py:336-360 | a parsed record serializes to exactly the bytes it was parsed from |
| JournalRecords.ParseRecords | scripts/test-x86_64-persistence.py:317-363 | the loop over an image file yields the parse of the slot's payload, or the first error in the code's order |
| JournalRecords.AppendRecord | src/runtime_persist.zig:999-1027 | the record's bytes are written in place or the buffer is untouched, with the code's two refusals |
| JournalHost.SlotPayloadLbaMeaning | scripts/test-x86_64-persistence.py:280-282 | the host's payload address is the kernel's slot geometry moved to the partition |
| JournalDisk.SliceIsRun | scripts/test-x86_64-persistence.py:318-323 | a byte range of the image file is the block-wise read of the partition |
| JournalHost.HostReadsMounted | scripts/test-x86_64-persistence.py:466-505 | in any image of a disk that mounts a version-3 list the host's two parsers return the mounted generation and exactly the mounted records |
| JournalHost.HostReadsAbsent | scripts/test-x86_64-persistence.py:285-292 | the host calls a slot empty exactly when the kernel does |
| JournalHost.HostReadsEveryCrash | scripts/test-x86_64-persistence.py:466-606 | after a power loss anywhere in a run from a fresh partition the host finds either the durable or the in-flight list, exactly, in slot (n - 1) mod 2, or, before anything is durable, two empty slots |
| JournalHost.FreshImageStarts | scripts/create-nvme-test-image.py:281-301 | the data partition of every generated image mounts as the empty tree and starts a run |
| JournalHost.JournalAbsent | scripts/create-nvme-test-image.py:281-301 | the host finds both journal slots of every generated image empty |
| FileSync.FileSyncMeaning | src/runtime_persist.zig:359-463 | the next payload keeps every other name's records in order and gives the target one record with the live contents; fdatasync keeps mode, owner and three ticks, fsync takes them all from the live inode |
| FileSync.FileSyncSucceeds | src/runtime_persist.zig:377-463 | on a payload of kernel records the construction succeeds if and only if the target is one committed file record, its data is within bounds and the result fits |
| FileSync.FileSyncErrors | src/runtime_persist.zig:377-463 | over a payload of kernel records a failing construction reports an unsupported target, oversized data or a full slot, exactly in those cases |
| FileSync.ScanNeverFull | src/runtime_persist.zig:413-416 | the room check while copying never fires: what is kept is part of what was read |
| FileSync.ScanOfSerialized | src/runtime_persist.zig:390-421 | the scan accepts every serialized list of kernel records with one file record under the target's name |
| FileSync.CopyOthers | src/runtime_persist.zig:380-421 | the scan loop leaves the other records side by side in the buffer, or the first error in the code's order |
| FileSync.BuildFileSync | src/runtime_persist.zig:377-457 | the buffer's prefix becomes the whole next payload with its count, or the code's error |
| JournalDurability.UnsyncedNeverDurable | scripts/test-x86_64-persistence.py:486-519 | through any run of syncs of other files, failures and crashes, every mount recovers the file's record that was durable at the start |
| JournalDurability.SyncedStaysDurable | scripts/test-x86_64-persistence.py:550-565 | once a sync is acknowledged, every crash after any later syncs recovers for the target the record it promised, or what a chain of later begun syncs of the target makes of that record |
| JournalDurability.SyncedStaysPut | scripts/test-x86_64-persistence.py:550-565 | and exactly the promised record while only other files are synced: the new data and modification tick and, after fdatasync, its committed mode, owner and other ticks |
| JournalDurability.RecoveredRecords | scripts/test-x86_64-persistence.py:317-363 | the payload a mount recovers parses on the host to the committed records |
| Checksums.CrcDetectsOneByte | src/gpt.zig:165-188 | two strings of one length that differ in one byte never share a CRC-32 |
| CheckValues.Residue | src/gpt.zig:165-188 | the CRC-32 of any string followed by its own checksum is 0x2144DF1C, and that of the empty string is 0 |
| CheckValues.FnvValues | scripts/create-x86-64-user-elf.py:24-29 | the published FNV-1a values of "" and "a" at both widths |
| Checksums.CrcSurjective | src/gpt.zig:169-188 | every CRC-32 value is the checksum of some string of any given length of at least four |
| Checksums.ZeroByteUnseen | src/gpt.zig:169-188 | for any two strings there is a final word that makes the second one, with that word and a zero byte behind it, match the checksum of the first with that word |
| Checksums.CrcUpdateConcat | src/gpt.zig:169-180 | updating with two pieces in turn is updating with their concatenation |
| Checksums.ComputeCrcUpdate | src/gpt.zig:169-180 | the nested bit loop computes the register update |
| Checksums.FnvDetectsOneByte | scripts/create-legacy-fat12.py:65-69 | two strings of one length that differ in one byte never share a 32- or 64-bit FNV-1a hash |
| Checksums.ComputeFnv1a | scripts/create-x86-64-user-elf.py:24-29 | the loop with its masked product computes FNV-1a |
| Fat12.PackedPair | scripts/verify-legacy-bios.py:54-57 | two entries are the low and high twelve bits of the little-endian value of their three bytes |
| Fat12.EntriesIndependent | scripts/create-legacy-fat12.py:72-80 | a packed entry reads back modulo 4096 after it is set and no other entry changes, also not the two that share a byte |
| Fat12.SetFat12Entry | scripts/create-legacy-fat12.py:72-80 | the in-place nibble updates produce that table |
| Fat12.ReadChainLoop | scripts/verify-legacy-bios.py:60-83 | the loop with its buffer, list and fuel returns the recursive reading, each failure included |
| Fat12.ReadChainExact | scripts/verify-legacy-bios.py:60-83 | a nonempty read succeeds with given data and chain if and only if the chain is linked from the first cluster, ends at an end mark within the fuel, holds exactly the size, and the data is its bytes |
| Fat12.AcceptedIsAcyclic | scripts/verify-legacy-bios.py:65-83 | an accepted chain repeats no cluster, although no visited set is kept |
| Fat12.ValidChainAccepted | scripts/verify-legacy-bios.py:65-83 | every terminated chain of in-volume clusters of the right length is accepted with its bytes: the fuel never rejects a valid file |
| Fat12Volume.VolumeRoundTrip | scripts/create-legacy-fat12.py:1086-1134 | each root entry names its file and the chain reader returns exactly the file's bytes and, for a nonempty file, its allocated chain |
| Fat12Volume.TableEntries | scripts/create-legacy-fat12.py:1111-1121 | every entry of the table: reserved ones, links, end marks, and zero past the frontier |
| Fat12Volume.ChainsDisjoint | scripts/create-legacy-fat12.py:1115-1121 | no cluster belongs to two files |
| Fat12Volume.ClustersConserved | scripts/create-legacy-fat12.py:1111-1121 | total chain length plus free clusters is 2847 |
| Fat12Volume.TablesMirrored | scripts/verify-legacy-bios.py:166-169 | both table copies of the finished volume are the allocated table and the boot sector survives |
| Fat12Volume.ParametersRead | scripts/verify-legacy-bios.py:150-166 | every geometry field of the finished volume's boot sector reads back at the verifier's offset |
| Fat12Volume.FreeSpace | scripts/verify-legacy-bios.py:188-193 | the root slots after the last file are zero and so are the entries past the frontier |
| Fat12Volume.AllocateTable | scripts/create-legacy-fat12.py:1111-1121 | the allocation loop fills the table and lists the chains |
| Fat12Volume.WriteRootEntry | scripts/create-legacy-fat12.py:1078-1083 | the field writes change exactly one root entry |
| Fat12Volume.WriteChunks | scripts/create-legacy-fat12.py:1129-1132 | the chunk loop writes the file's bytes as one run at its first cluster |
| Fat12Volume.BuildVolume | scripts/create-legacy-fat12.py:1086-1134 | the whole in-place construction yields the specified volume |
| LegacyElf.AcceptsExactly | scripts/verify-legacy-bios.py:86-105 | a generated legacy image is accepted if and only if its memory size covers the segment and fits one page |
| LegacyElf.HeadersAre | scripts/create-legacy-fat12.py:83-91 | the header fields of the generated images, byte by byte |
| LegacyElf.BuildElf | scripts/create-legacy-fat12.py:83-91 | the in-place packing yields that image |
| NvmeImage.LayoutOrdered | scripts/create-nvme-test-image.py:88-155 | for both block sizes the areas are in order without overlap, the cluster count is a FAT16 one and the table covers it |
| NvmeImage.LayoutIs | scripts/create-nvme-test-image.py:88-155 | both layouts in numbers |
| NvmeImage.TableEntries | scripts/create-nvme-test-image.py:257-266 | every entry of the FAT16 table |
| NvmeImage.ChainsRead | scripts/create-nvme-test-image.py:257-279 | each directory entry's chain is linked and terminated in the table |
| NvmeImage.ChainUnique | scripts/create-nvme-test-image.py:257-266 | a first cluster has one terminated chain at most |
| NvmeImage.HealthyDisjoint | scripts/create-nvme-test-image.py:268-279 | in healthy mode no cluster is on two chains |
| NvmeImage.Ownership | scripts/create-nvme-test-image.py:268-279 | over any five chains read from the table, healthy: allocated clusters are on one and free ones on none; cross-linked: one cluster is on two and one allocated cluster on none |
| NvmeImage.EmptyImageUnowned | scripts/create-nvme-test-image.py:239-279 | with an empty EFI image that rule breaks: its directory entry names a free cluster or the readme's |
| NvmeImage.ClustersConserved | scripts/create-nvme-test-image.py:239-279 | claimed clusters plus zero entries are the cluster count |
| NvmeImage.RegionsApart | scripts/create-nvme-test-image.py:281-301 | the fourteen writes are pairwise disjoint and on the disk, the FAT ones inside the EFI partition, none in the data partition |
| NvmeImage.DiskReadsBack | scripts/create-nvme-test-image.py:281-301 | every region of the finished disk reads back as written |
| NvmeImage.DataPartitionZero | scripts/create-nvme-test-image.py:281-301 | every run of blocks of the data partition is zero |
| NvmeImage.HeadersConsistent | scripts/create-nvme-test-image.py:193-212 | both GPT headers parse on the kernel, name each other and agree on range and array |
| NvmeImage.AllocateFat | scripts/create-nvme-test-image.py:257-266 | the allocation loop and its neighbours fill exactly the specified table |
| NvmeImage.BuildImage | scripts/create-nvme-test-image.py:158-301 | the three refusals exactly, and otherwise the specified disk |
| BootFat.OpenExactly | src/fat.zig:32-117 | a partition opens as a given volume if and only if its boot sector's bytes describe that volume |
| BootFat.LinkExact | src/fat.zig:243-272 | what each value of a table word means: free, bad, end of chain from 0xFFF8 on, the next cluster in range, or stray |
| BootFat.WalkExact | src/runtime_boot_fat.zig:400-423 | over clusters already claimed, a file is accepted with a given chain if and only if the table's raw words link that chain from its first cluster, in range, to an end mark, long enough and free of claimed clusters; exactly its clusters are claimed |
| BootFat.WalkFailsExactly | src/runtime_boot_fat.zig:400-423 | a file is refused with a given error if and only if the raw words lead from its first cluster to what that error names |
| BootFat.OneEntry | src/runtime_boot_fat.zig:323-366 | a directory entry is taken if and only if its name has 1 to 12 bytes, a directory starts at a cluster and is within 24, a file is within 32 and has a chain of its own that holds its size; and what it adds |
| BootFat.DepthLimit | src/runtime_boot_fat.zig:272-321 | directories more than eight levels down are refused |
| BootFat.ParseCons | src/fat.zig:182-221 | a directory sector read entry by entry from its raw bytes: an end mark ends it, deleted, long-name and label entries vanish, every other entry is decoded |
| BootFat.NoiseChangesNothing | src/runtime_boot_fat.zig:323-366 | inserting a deleted, long-name, label or dot entry anywhere in a directory sector changes nothing of the mount |
| BootFat.ShortNameOf | src/fat.zig:287-308 | the printed form of a short name |
| BootFat.ValidateFileChain | src/runtime_boot_fat.zig:400-423 | the loop with its two bitmaps and its bound decides that, with the code's error at each exit |
| BootFat.ChainStep | src/runtime_boot_fat.zig:272-321 | how a directory's chain goes on, ends or fails, by the raw table word of a cluster scanned |
| BootFat.StrayRefused | src/runtime_boot_fat.zig:244-270 | once all directories are scanned the mount fails exactly on a word anywhere in the table that names no cluster and marks nothing |
| BootFat.MountSound | src/runtime_boot_fat.zig:131-182 | on every volume the mount accepts, all chains, read from the raw words, are terminated, in range and pairwise disjoint, exactly their clusters are claimed, every file has a chain long enough, and the free count is the number of zero words |
| BootFiles.FileContext.ReadFile | src/runtime_boot_fat.zig:425-472 | on any table, intact or not, a read with the cursor copies, returns and fails exactly as one that follows the chain from its start, and the cursor stays where its ordinal says |
| BootFiles.FollowExactly | src/runtime_boot_fat.zig:425-472 | how a read goes on behind a cluster, by its raw table word |
| BootFiles.ReadMeans | src/runtime_boot_fat.zig:425-472 | on an accepted file every read returns the requested part of the file's contents, cut at its size |
| BootImage.Opens | src/fat.zig:32-117 | the boot sector of every generated image opens as the volume the script lays out |
| BootImage.LinkOf | src/fat.zig:243-272 | what the kernel decodes from either table copy on the finished disk, for every cluster |
| BootImage.DirectoriesRead | scripts/create-nvme-test-image.py:268-279 | the kernel decodes from the finished disk's directory blocks the script's five entries, names, kinds, first clusters and sizes, and nothing else |
| BootImage.VolumeMounts | src/runtime_boot_fat.zig:131-182 | for every image the script can build and either table copy, the mount's exact result: three files on their chains, or CrossLinkedCluster for a cross-linked image, or a refusal when the EFI file is empty |
| BootImage.ImageMounts | src/runtime_boot_fat.zig:131-182 | the same from the blocks of the finished disk's EFI partition, boot sector on |
| BootImage.ClaimedCount | src/runtime_boot_fat.zig:244-270 | on the healthy image claimed and free clusters are all the clusters |
| BootImage.MountedContents | scripts/create-nvme-test-image.py:268-301 | the mounted files hold the two texts and exactly the EFI image |
| BootImage.BootFileReads | src/runtime_boot_fat.zig:425-472 | any read of BOOTX64.EFI on the image returns that part of the EFI image |
| Gpt.ParseExactly | src/gpt.zig:73-124 | a sector parses as given header values if and only if its bytes hold them, with signature, revision, identity and checksum, and they are placeable |
| Gpt.GeneratedParses | src/gpt.zig:73-124 | the kernel parses a generated header, returning its fields, if and only if they are placeable on the device |
| Gpt.HeaderChangeDetected | scripts/create-nvme-test-image.py:62-85 | one changed byte among the 92 breaks the zeroed-field checksum |
| Gpt.KernelRefusesChange | src/gpt.zig:73-124 | the kernel refuses every header with one changed byte other than the two low bytes of the header size |
| Gpt.KernelOnChange | src/gpt.zig:73-124 | for each of the 92 bytes: the changed header is accepted if and only if the byte is in the header size, the new size lies in the sector, the checksum over it matches and the header is placeable |
| Gpt.AcceptedChangeShows | src/gpt.zig:73-124 | an accepted change returns a header size other than 92 |
| Gpt.FlippedSizeAccepted | src/gpt.zig:73-124 | the failing family: for every placeable header there is an entry array for which the size 93 in place of 92 is accepted |
| Gpt.ArrayChangeDetected | scripts/create-nvme-test-image.py:178-193 | one changed byte of the entry array no longer matches the header |
| Gpt.MakeGptHeader | scripts/create-nvme-test-image.py:62-85 | the field writes and the checksum written last yield the header block |
| GptDisk.EntryParses | src/gpt.zig:126-156 | a 128-byte entry gives back its fields and its name; without identity or with its blocks out of order it is refused |
| GptDisk.ScanMeaning | src/kernel.zig:13553-13600 | a scan of an entry array fails exactly when a used entry lacks an identity or leaves the usable range, and otherwise finds the first entry of either kind |
| GptDisk.ProtectiveExactly | src/partition.zig:15-45 | a sector is a protective MBR if and only if it has the signature and an entry of type 0xEE from block 1 on that is not empty, byte by byte |
| GptDisk.FindExactly | src/kernel.zig:13524-13712 | a disk offers two given partitions if and only if both headers parse and agree, both arrays match their checksum, every used entry is fine, and these are the first of their kinds, in order, the second of at least 16 blocks |
| GptDisk.Find | src/kernel.zig:13524-13712 | the search with its sector loops decides that, with the checksums and the cross-checks of both copies |
| ImageDisk.PartitionsFound | src/kernel.zig:13524-13712 | on every generated disk the search finds exactly the script's two partitions, by place, identity and name |
| ImageDisk.BootsFromDisk | src/kernel.zig:13524-13712 | and from the blocks it names the boot volume mounts with its exact result and the journal starts |
| Elf64.SdkExact | scripts/verify-zigos-sdk-elf.py:30-93 | over the raw bytes of a file: accepted if and only if the header words, the section table if there is one, and every segment are well formed, sorted and page-disjoint, with one writable one at most and the entry in an executable one |
| Elf64.SdkLayout | scripts/verify-zigos-sdk-elf.py:39-93 | the same over decoded headers: the forward scan decides the global layout |
| Elf64.SdkSound | scripts/verify-zigos-sdk-elf.py:39-93 | in an accepted file every mapped page lies in the image window and belongs to one segment, so none is writable and executable |
| Elf64.VerifySdk | scripts/verify-zigos-sdk-elf.py:25-93 | the scan with its three running variables decides that acceptance |
| Elf64.ReadElfHeaderOfBytes | scripts/verify-zigos-sdk-elf.py:35-36 | unpacking undoes packing for the ELF header |
| Elf64.BytesOfProgramHeader | scripts/verify-zigos-sdk-elf.py:51-52 | packing undoes unpacking for a program header |
| RuntimeElf.BuildAccepted | scripts/verify-runtime-user-elf.py:22-39 | every generated runtime image passes the runtime verifier, with the length of its code in the header |
| RuntimeElf.AcceptedIsBuilt | scripts/verify-runtime-user-elf.py:22-39 | an accepted image is the generated image of its own code and data if and only if nothing follows its code in the page |
| RuntimeElf.AcceptsExactly | scripts/verify-runtime-user-elf.py:22-39 | an image of the right size is accepted if and only if its code has 1 to 4096 bytes and its first page is that of the image generated for its own code and data |
| RuntimeElf.AcceptedWindow | scripts/verify-runtime-user-elf.py:22-39 | the addresses and sizes every accepted image is linked for |
| RuntimeElf.RuntimeImpliesSdk | scripts/verify-zigos-sdk-elf.py:25-93 | every image the runtime verifier accepts passes the SDK verifier |
| RuntimeElf.Build | scripts/create-runtime-user-elf.py:26-72 | the two refusals, and otherwise the specified image |
| UserElf.BuildAccepted | scripts/verify-x86-64-user-elf.py:36-81 | every generated service image passes the structural checks, both embedded seals and the SDK verifier, and yields its code back |
| UserElf.AcceptsExactly | scripts/verify-x86-64-user-elf.py:36-81 | an image of the right size is accepted if and only if it agrees with the image generated for its own code in identity, headers, message, payload, marker and code hash, and its last seal is over its own data |
| UserElf.SealedLayout | scripts/create-x86-64-user-elf.py:32-100 | where code, message, payload, marker and the two seals lie in a generated image |
| UserElf.AcceptedWindow | scripts/verify-x86-64-user-elf.py:36-60 | the addresses and sizes every accepted image is linked for |
| UserElf.SealBreaks | scripts/verify-x86-64-user-elf.py:78-81 | one changed byte in the code or the sealed data, the seals included, breaks a seal check |
| UserElf.FillData | scripts/create-x86-64-user-elf.py:40-45 | the data page with its two seals written in their order |
| UserElf.BuildElf | scripts/create-x86-64-user-elf.py:32-100 | the refusal, and otherwise the specified image |

## Left out

- The file tree (src/runtime_vfs.zig) beyond what a sync reads and a restore does: permissions (the kernel acts as user 0), open files, page cache, directory events, unlink and rename, pseudo files, mounts inside /persist, and the fixed sizes of the node, entry and block pools, which the model takes to have room. The root directory's own metadata is not stored by the code, and so not restored.
- FileTree.Rebuild: does not follow a symbolic link on the way to a path; lists of the kernel's writers contain no such path. It starts from the records; JournalRestore and Migration say how the payload gives them.
- TreeWalk.SyncThenRestore: takes the listing of each directory and the first entry of each file as part of the tree it walks, in whatever order the kernel keeps them.
- Migration.OlderRestores: is about payloads of lists the kernel could have written; that every accepted payload is one is proved for version 3 only (JournalRestore.RestoredIsList).
- Writeback requests and their service: a one-entry queue that ends in `syncFileData`.
- Report counters other than `recoveries`, `corrupt_headers`, the damage state and the three of the read-only remount.
- Geometry validation of the device: the model's disks are large enough and have one of the two block sizes. The check of the sector index against the region size in payload validation cannot fail for a length the header reader admits.
- The sector scratch buffer shared by reads and writes: blocks are values.
- JournalStore.Store.Mount: decides the payload's part of restore; the tree operations behind it are FileTree.Rebuild, and TreeJournal.EveryMountRebuilds says they succeed for everything the kernel commits.
- JournalLists.CrashRestores: is about that same part of restore.
- JournalSession.Boot: a failure-free boot in which nothing was committed before mounts the empty tree; requests carry the tree as the walk sees it.
- JournalStore.Store.RecordIoDamage: does not count `io_failures`, which block reads and writes share.
- JournalStore.Store.SyncFile: does not look up the inode; its path, metadata and data are the parameters `target` and `live`.
- JournalRuns.RunCrashSafe: begins at a settled disk; JournalLimits says exactly which other disks break the conclusion.
- Gpt.KernelRefusesChange: excludes bytes 12 and 13 of the header, where the property is false of the code; Gpt.KernelOnChange says exactly when and Gpt.FlippedSizeAccepted gives the inputs. It is for sectors below 64 KiB.
- BootFat.MountSound: publishing the names in the file tree, mount and quarantine bookkeeping, and block reads that fail are not part of this model; labels and serial number of the boot sector are not decoded. Products of boot-sector fields are unbounded, where the code's 32-bit sums would trap.
- GptDisk.Find: reads are taken to succeed; the boot stops when one does not. The count of used entries, which is only reported, and the size of the disk as the controller states it are not followed further.
- JournalHost.HostReadsEveryCrash: is about the slot a mount would choose; the other slot may be half written and the host may reject it.
- Fat12.ReadChainExact: for a size of zero the code returns empty data and an empty chain without looking at the first cluster; VolumeRoundTrip states that case. A chain may name clusters past the volume's end, which contribute no bytes; the code accepts that, and so does the statement.
- NvmeImage: of the protective MBR, boot sector, type and name constants the model reads what the kernel reads. The two text fixtures are parameters of their fixed lengths; the metadata file is left out.
- UserElf, LegacyElf: the machine-code emitters and the pinned sizes, SHA-256 and FNV constants, instruction counts and embedded file names of particular programs.
- The MBR of the legacy disk image.
- Emulator control, sockets, serial logs, argument parsing, file-system calls and SHA-256.
