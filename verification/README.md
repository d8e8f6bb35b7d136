# Kaviraj OS: a verified model of the stateful kernel core

A Dafny model of the parts of the kernel that keep state, with proofs about whole runs of them:

- **FAT16** (`Bytes`, `FatTable`, `FatVolume`, `FatReplace`, `FatData`, `FatStore`, `FatImage`, `FatFormat`, `FatNames`,
  `BlockDevice`, `Fat16`). `class Fat16` works on 512-byte sector buffers over a block device without transfer errors, statement by
  statement as `src/fat16.c`. Its methods are proved against a *volume*: the allocation table, the root directory
  slots and the data clusters that the sectors stand for. On volumes, a name *denotes* the contents of its file
  (`Lookup`), and a completed write is a map update on names. `FatFormat` says where on the disk each byte of that is.
- **RAM VFS** (`VfsModel`, `VfsRuns`, `VfsPaths`, `VfsLaws`, `Vfs`, `VfsCwd`) and **boot** (`Populate`, `Boot`): a node pool in an array,
  changed in place by `class Vfs`, proved against operations on values; run invariants, path resolution and path printing are
  proved there, and `VfsLaws` says what each operation does without the functions that compute it. `Populate` and
  `Boot` connect both file systems, `Persistence` follows the editor's lines to the disk, through a reboot and back.
- **virtio-net and virtio-blk rings** (`VirtioRings`, `VirtioRx`, `VirtioNet`, `VirtioTx`): driver and device as two
  parties that take single steps on shared rings with 16-bit indices, in any interleaving (VIRTIO 1.1, sections 2.6.2,
  2.6.6 and 2.6.8).
- **Page allocator** (`Pmm`): the bitmap, the counter and the hint, as a class and as runs of allocations and releases.
- **Scheduler** (`SchedModel`, `SchedMachine`, `Sched`): the switch with its probing loop; fairness; and a machine in
  which a timer interrupt may come between any two statements of `sched_init` and `sched_create_task`, with the stacks
  in byte memory. The methods of `class Scheduler` are proved to be runs of that machine.
- **kedit** (`KeditModel`, `KeditLaws`, `Kedit`): the 100 x 128 cell buffer changed in place, proved against a list of lines, and
  the list of lines against one text with a cursor; `KeditLaws` says what each key does by its bytes.

`dafny verify dfyconfig.toml` checks everything.

## Reading guide

A method `M` of a class ends in a state that is a function of, or in a relation to, the old one; the lemmas about
that function or relation are the results. Ghost parameters such as `v` name the volume before the call, ghost results
such as `t`, `u`, `ch` name what the call chose (directory slot found, slot rewritten, clusters taken).

## Where the code does less than its comments or its user expects

The model follows the code. Each point is a lemma, in most cases an equivalence:

- `fat16_write_file` returns the length although the file was not stored as asked for in four cases, and a write does what it is
  for and harms nothing else exactly when none of them holds (`FatStore.SafeExactlyWhen`):
  - The 8.3 name starts with byte 0xE5: the file is stored as a deleted slot.
  - A live entry of the name is not a plain file. A directory is overwritten or ends up beside a file of the same name; a
    volume label, or an entry marked read-only, hidden or system, becomes a plain file (`FatStore.LabelOverwritten`).
  - A deleted slot precedes the file's slot in its directory sector: the second search takes the deleted slot, and the
    file is listed twice (`FatStore.GapListsTwice`, `FatStore.RewrittenExactlyTarget`).
  - The table has fewer free entries *with a cluster behind them*, counting the old chain, than the data needs.
    `fat16_allocate_cluster` never looks at the number of clusters, a table is rounded up to whole sectors, and the failing
    sector writes go unnoticed: the first clusters hold the beginning of the data, nothing holds the rest
    (`FatReplace.UnbackedLost`, an example is `FatStore.UnbackedExample`). Other files stay as they are and can be read
    (`FatStore.FiledKeepsOthers`).
- Reading a file ends exactly when its size is below `max_len`, `max_len` is 0, or the links from its first cluster lead to an
  end; on a table whose links lead back, reading a larger file never ends (`FatData.ReadEndsExactlyWhen`).
- The shown form of an 8.3 name leads back to it exactly when blanks only end its two fields, its base has no dot and
  no letter is lower case (`FatNames.NameRoundTrip`). `vfs_write_file("a b", ..)` stores a file that is shown as `AB`
  (`FatNames.BlankInsideIsLost`), and one called `/docs/a.txt` is touched at boot under the directory `DOCS`, which the
  tree does not have. After a boot the root has an entry of a name exactly when some plain slot is shown so and the name, taken as
  a file name, leads to a file; that may be another file than the slot's own (`Boot.ShownExactlyWhen`).
- Names that differ in case only, or behind the eighth byte of the base or the third of the extension, are different files in
  the RAM tree and one file on the disk (`FatNames.SharedExactlyWhen`, `FatNames.CaseIgnored`).
- `vfs_find` cuts path segments at 31 bytes into several names; it follows the written segments exactly when all
  have at most 31 bytes (`VfsPaths.PiecesAreSegments`).
- `vfs_mkdir` compares the whole name but stores 31 bytes, so the same long name can be made twice
  (`VfsPaths.LongNamesClash`); sibling names stay unique exactly when no sibling has the cut name (`VfsPaths.MkdirUnique`).
- `vfs_touch` on a path such as `/x` fails, because its directory part is empty; any other path finds its directory
  exactly when the part before the last slash leads to one (`VfsPaths.TouchFindsDirectory`).
- `fat16_write_file` with result -2 has already released the old chain and leaves the claimed clusters unreachable;
  other files survive and can still be read even then (`FatStore.AbortKeepsOthers`, `FatStore.AbortKeepsReadable`).
- `virtio_net_send` copies a packet of more than 2048 bytes into the transmit buffers that follow. A packet of the
  last q/2 sends stays whole exactly when the new send agrees with it on every byte where they overlap
  (`VirtioTx.OldIntactExactlyWhen`); packets of up to 2048 bytes never overlap (`VirtioTx.SendKeepsIntact`), and a longer one
  destroys the header in the next buffer unless its byte 2048 is 0 (`VirtioTx.LongPacketBreaks`).
- kedit: typing into a line of 127 characters pushes the terminating NUL into the next row, or behind the last row
  into the line count; the line still fits its row exactly when it was shorter (`KeditModel.NoRoomOverflows`,
  `Kedit.Editor.TypeChar`). Saving and loading returns the same lines exactly when they total at most 1023 bytes with
  their newlines (`KeditModel.SaveLoadRoundTrip`); loading drops a last line without newline (`KeditModel.Loaded`).

## Model

| member | source | states |
|---|---|---|
| `FatNames.ToFatName` | src/fat16.c:83-101 | of the 11 bytes the first eight are the bytes before the first dot and the last three those behind it, codes 97 to 122 less 32, filled up with blanks; that is the 8.3 form the other rows speak of |
| `FatNames.SharedExactlyWhen` | src/fat16.c:83-101 | two names share an 8.3 form exactly when both parts, cut to eight and three bytes and filled up with blanks, differ in case only |
| `FatNames.CaseIgnored` | src/fat16.c:83-101 | names that differ in case only have the same 8.3 form |
| `FatNames.RenderedInBytes` | src/fat16.c:317-331 | the shown form is the base up to its blanks and, unless the extension is blank, a dot and the extension up to its blanks |
| `FatNames.BlanksDropped` | src/fat16.c:317-331 | the copy loops keep all bytes but blanks, in order, also when blanks stand between others |
| `FatNames.NameRoundTrip` | src/fat16.c:83-101 | converting the shown form of an 11-byte name gives the same 11 bytes back exactly when blanks only end the two fields, the base has no dot and no letter is lower case |
| `FatNames.StoredNameRestorable` | src/fat16.c:83-101 | the 8.3 form of a file name is restored exactly when no blank stands inside its fields |
| `FatNames.BlankInsideIsLost` | src/fat16.c:317-331 | the file called `a b` is not found again under its shown name |
| `FatNames.ShownForm` | src/fat16.c:317-331 | a valid name is shown as a string without NUL, slash or lower case, neither empty nor dots, that leads back to it |
| `FatNames.RenderingInjective` | src/fat16.c:317-331 | two valid names shown alike are the same name |
| `FatNames.Render` | src/fat16.c:317-331 | the loops that drop the padding and put the dot produce the shown name |
| `FatNames.StrncmpDecidesEquality` | src/fat16.c:130 | the driver's name comparison says equal exactly for equal 11-byte names without NUL |
| `FatImage.SectorNumbersFit` | src/fat16.c:12-36 | all sector numbers computed from a parsed boot sector stay below 2^32 |
| `FatImage.ClustersApart` | src/fat16.c:12-36 | different clusters never share a sector |
| `FatImage.TableWriteMirrors` | src/fat16.c:170-184 | writing one table sector to every copy keeps all copies of the table identical |
| `FatImage.TableWriteSetsEntry` | src/fat16.c:170-184 | patching one 16-bit entry in its sector changes that entry of the table and no other |
| `FatImage.TableWriteKeepsRest` | src/fat16.c:170-184 | writing table sectors changes neither the directory nor the data region |
| `FatImage.DirWrite` | src/fat16.c:290-298 | patching 32 bytes of a directory sector changes one slot and nothing else of the volume |
| `FatImage.DataWrite` | src/fat16.c:258-266 | writing a data sector changes that sector of that cluster and nothing else of the volume |
| `FatImage.TailWrite` | src/fat16.c:258-266 | writing a sector behind the last whole cluster changes nothing of the volume |
| `FatFormat.RegionsOfBoot` | src/fat16.c:29-32 | region starts computed from the boot sector are exactly those its bytes give, the root directory rounded up to the least number of sectors |
| `FatFormat.TableInBytes` | src/fat16.c:103-110 | table entry k is the little-endian pair at 2(k mod 256) of sector k/256 of the first table |
| `FatFormat.DirectoryInBytes` | src/fat16.c:120-131 | directory slot j is the 32 bytes at 32(j mod 16) of sector j/16 of the root directory |
| `FatFormat.ClustersInBytes` | src/fat16.c:150-164 | cluster number c + 2 begins c times byte 13 of the boot sector behind the start of the data; the last cluster is whole and no other fits |
| `FatFormat.AttributeBits` | include/fat16.h:45-51 | of the attribute byte, 0x10 makes a directory, 0x01, 0x02, 0x04 and 0x08 hide an entry from reading and loading, 0x20 and above mean nothing |
| `FatFormat.EntryInBytes` | include/fat16.h:30-43 | an entry is free when its first byte is 0 or 0xE5; name, first cluster and size are bytes 0-10, 26-27 and 28-31, low byte first |
| `FatFormat.StoredEntryInBytes` | src/fat16.c:290-299 | a stored entry has the name, attribute 0x20, 0 in bytes 20-21, cluster and size low byte first; the times stay |
| `FatFormat.FileInBytes` | src/fat16.c:112-168 | a plain entry of a well-formed volume is a file of the size in the entry; its clusters are those linked from the first one up to a value of at least 0xFFF8, and byte r of sector i of its k-th cluster is where the disk has that cluster |
| `FatTable.TrailOfChain` | src/fat16.c:237-244 | on a chain the release walk frees exactly the chain |
| `FatTable.ReleaseNew` | src/fat16.c:237-244 | zeroing an entry seen for the first time extends the released trail by it |
| `FatTable.ReleaseAgain` | src/fat16.c:237-244 | on a cyclic table the walk stops at the first entry it has zeroed before |
| `FatTable.FreeAfterRelease` | src/fat16.c:237-244 | releasing a chain frees as many entries as it has, exactly those |
| `FatTable.LinkOneMore` | src/fat16.c:246-256 | claiming the lowest free entry and linking it behind the last one extends what is claimed by one, lowest first |
| `FatTable.LowOnesFirst` | src/fat16.c:186-205 | because the search starts at the bottom, the i-th entry taken lies below any limit exactly if more than i free entries do |
| `FatTable.FreeAfterLink` | src/fat16.c:246-256 | n claimed entries are exactly n entries fewer among the free ones |
| `FatReplace.StaysWellFormed` | src/fat16.c:207-302 | a file stored in clusters that exist leaves a well-formed volume: unique names, disjoint acyclic chains long enough for their sizes, unused slots last; deleted slots and free table entries without a cluster are allowed |
| `FatReplace.StaysWellFormedExactlyWhen` | src/fat16.c:186-273 | the volume stays well formed exactly when free entries with a cluster plus the old chain suffice |
| `FatReplace.UnbackedLost` | src/fat16.c:258-266 | otherwise the first clusters of the new chain hold the beginning of the data and every later entry has no cluster |
| `FatReplace.LookupStored` | src/fat16.c:207-302 | with a cluster for every part, the stored name denotes exactly the stored bytes |
| `FatReplace.LookupOther` | src/fat16.c:207-302 | every other name denotes what it denoted before, also when released clusters are used again and when entries without a cluster were taken |
| `FatReplace.NeedCovers` | src/fat16.c:246-273 | the number of clusters taken is enough for the data |
| `FatData.NeedUnique` | src/fat16.c:246-273 | filling clusters until the data end takes max(1, ceil(len / cluster size)) clusters, no more and no less |
| `FatData.StoreStep` | src/fat16.c:246-273 | one round of the store loop keeps: entries so far linked, lowest first, every existing cluster holds its part of the data, everything else untouched |
| `FatData.StoredAll` | src/fat16.c:246-273 | when the loop ends with all data sent, exactly the needed number of entries was taken |
| `FatData.PartsMakeChain` | src/fat16.c:246-273 | the parts in the clusters of a chain, in chain order, are the data |
| `FatData.GatherFull` | src/fat16.c:150-164 | leaving the sector loop early, once the prefix asked for is complete, keeps the read loop's invariant, so it goes on to the end of the chain without copying |
| `FatData.OwnedChain` | src/fat16.c:150-164 | the clusters of a plain slot form a path inside the volume that starts where the read loop starts, behind which it ends, and that holds the whole contents |
| `FatData.ReadEndsExactlyWhen` | src/fat16.c:147-167 | on any table, also a cyclic one, the cluster loop ends exactly if the size is below max_len, max_len is 0, or the maximal trail from the first cluster ends in no link |
| `FatStore.BufferAfterScan` | src/fat16.c:216-237 | after the search the reused sector buffer shows, at the kept place, the file's own slot or one of another name |
| `FatStore.RewrittenExactlyTarget` | src/fat16.c:282-299 | the second search by "matches or free" takes the slot found first exactly when no free slot precedes that one in its sector |
| `FatStore.RewrittenIsTarget` | src/fat16.c:282-299 | then it is the one slot of the name, or the first free one |
| `FatStore.GapListsTwice` | src/fat16.c:282-299 | otherwise a deleted slot before the file's is rewritten, and the volume lists the name twice |
| `FatStore.FreeCount` | src/fat16.c:237-273 | free entries plus entries of the file are the same before and after a write, and so are those with a cluster |
| `FatStore.TableFrame` | src/fat16.c:170-302 | only entries that were free or in the old chain change |
| `FatStore.CompletedWrite` | src/fat16.c:207-302 | under the four conditions a write is a map update on names that touches only free or own directory slots, table entries and clusters, with the exact cluster count |
| `FatStore.LabelOverwritten` | src/fat16.c:222-230 | a live volume label or marked entry of the file's name is taken for the file and becomes a plain file |
| `FatStore.SafeExactlyWhen` | src/fat16.c:207-302 | a write that returned the length is that map update and keeps every directory, label and marked entry exactly when the name does not start with 0xE5, every live entry of it is a plain file, no free slot precedes the slot found in its sector, and free entries with a cluster plus the old chain suffice |
| `FatStore.UnbackedExample` | src/fat16.c:186-205 | a volume without clusters whose table has a free entry: the call returns 1, and the name does not denote the byte |
| `FatStore.FiledKeepsOthers` | src/fat16.c:207-302 | even if data of its own is lost, a write leaves every other name denoting what it did and readable |
| `FatStore.AbortKeepsOthers` | src/fat16.c:246-256 | a write that runs out of clusters leaves what every other name denotes unchanged |
| `FatStore.AbortKeepsReadable` | src/fat16.c:246-256 | after such a write every other name meets what fat16_read_file needs |
| `FatStore.AbortedOutcome` | src/fat16.c:246-256 | the call gives up only when free entries plus the old chain are fewer than needed |
| `FatStore.CompletedOutcome` | src/fat16.c:246-302 | the call goes through only when free entries plus the old chain suffice, and then each existing cluster holds its part |
| `FatStore.RunRemembers` | src/fat16.c:207-302 | after any sequence of calls, each with enough clusters or failing with -1, every name denotes what was last written under it, and the volume is well formed. The first volume has to be well formed, with no directory and no gap in the way of a name written to, and no name may start with 0xE5; each step's outcome is derived from the slots and entries it chose |
| `Fat16Driver.Fat16.Init` | src/fat16.c:12-36 | the first sector of the table is the number in bytes 14-15, the root directory follows byte 16 times bytes 22-23 sectors later and takes the fewest sectors that hold 32 bytes for each of the entries in bytes 17-18, the data follow; on a fitting device with equal table copies the driver is ready |
| `Fat16Driver.Fat16.ReadyInBytes` | src/fat16.c:6-10 | a ready driver works on the regions that the bytes of the boot sector give, and on the volume the rows of `FatFormat` describe |
| `Fat16Driver.Fat16.GetNextCluster` | src/fat16.c:103-110 | returns the table entry of the cluster |
| `Fat16Driver.Fat16.SetFatEntry` | src/fat16.c:170-184 | sets one table entry in all copies and changes nothing else of the volume |
| `Fat16Driver.Fat16.AllocateCluster` | src/fat16.c:186-205 | claims the lowest free entry with an end mark; reports 0 exactly when none is free, then without a change |
| `Fat16Driver.Fat16.ReleaseChain` | src/fat16.c:237-244 | ends on every table whose links stay inside, also a cyclic one, having zeroed exactly the maximal trail from the first cluster |
| `Fat16Driver.Fat16.SearchTarget` | src/fat16.c:215-234 | finds the slot of the file or else the first free one, or reports that there is neither |
| `Fat16Driver.Fat16.StoreData` | src/fat16.c:246-273 | on any table, takes exactly the needed entries, lowest first, and sends each its part, or stops with no free entry left; parts for missing clusters are lost |
| `Fat16Driver.Fat16.UpdateEntry` | src/fat16.c:275-299 | rewrites the first matching or free slot of the target's sector with name, first cluster and size |
| `Fat16Driver.Fat16.WriteFile` | src/fat16.c:207-302 | -1 without a usable slot and no change; -2 exactly when free entries plus old chain do not suffice; otherwise the length, with the slot, the table and every existing cluster written as the data ask |
| `Fat16Driver.Fat16.FindFile` | src/fat16.c:120-140 | finds the plain file of that name or reports that there is none |
| `Fat16Driver.Fat16.ReadChain` | src/fat16.c:147-167 | copies min(bytes of the path, size, max_len - 1) bytes along any path of clusters behind which the loop ends, also one that meets a cluster again |
| `Fat16Driver.Fat16.ReadFile` | src/fat16.c:112-168 | -1 for an unknown name with the buffer unchanged; otherwise the buffer holds min(size, max_len - 1) bytes of the contents and a NUL, the rest unchanged, with max_len 0 nothing but the NUL of a file that is not empty. Only this one file has to be readable: also after a write that failed with -2 |
| `VfsRuns.AddNodePool` | src/vfs.c:14-39 | adding a node keeps every parent and child link of the pool consistent, also when the parent has no room for it |
| `VfsRuns.RemovePool` | src/vfs.c:299-319 | taking any child out of a child list keeps the links of the pool consistent |
| `VfsRuns.ApplyKeeps` | src/vfs.c:195-319 | every operation keeps the tree: consistent links, at most 16 children and 128 nodes, files without children, current directory attached to the root |
| `VfsRuns.RemoveKeeps` | src/vfs.c:299-319 | removing a child, also a non-empty directory, keeps the invariant and an attached current directory |
| `VfsRuns.RunKeepsInvariant` | src/vfs.c:195-319 | the invariant holds after any sequence of mkdir, touch, chdir and remove |
| `VfsPaths.PiecesAreSegments` | src/vfs.c:148-193 | the names looked up are the slash-separated segments exactly when every segment has at most 31 bytes |
| `VfsPaths.TrailingSlash` | src/vfs.c:148-193 | a trailing slash changes nothing |
| `VfsPaths.DoubledSlash` | src/vfs.c:148-193 | a doubled slash counts as one |
| `VfsPaths.CwdRoundTrip` | src/vfs.c:115-193 | resolving the printed path from anywhere leads to the current directory, for unique siblings, legal names and depth at most 16 |
| `VfsCwd.ApplyKeepsLegal` | src/vfs.c:195-319 | every operation keeps the names on the way up from the current directory such that path lookup can enter them |
| `VfsCwd.RunCwdRoundTrip` | src/vfs.c:115-193 | in every run from vfs_init with mkdir names of at most 31 bytes, at depth at most 16, resolving the printed path from anywhere leads to the current directory |
| `VfsPaths.DescentUnique` | src/vfs.c:14-39 | a node is reached from the root in one way only |
| `VfsPaths.AttachedIffReached` | src/vfs.c:14-39 | following parent links reaches the root exactly when following child links from the root reaches the node |
| `VfsPaths.MkdirUnique` | src/vfs.c:218-233 | mkdir keeps sibling names unique exactly when no sibling has the name cut at 31 bytes |
| `VfsPaths.LongNamesClash` | src/vfs.c:218-233 | a name of 32 bytes or more can be made twice, with two equal siblings as result |
| `VfsPaths.TouchFindsDirectory` | src/vfs.c:235-262 | touching `a/name` finds its directory exactly when `a` is not empty and leads to a directory; `/x` fails without a change |
| `VfsLaws.ChildFound` | src/vfs.c:176-188 | a name of at most 31 bytes leads to the first child that has it, and nowhere exactly when none has |
| `VfsLaws.PathComposes` | src/vfs.c:148-193 | `p/q` leads where `q` leads from where `p` leads |
| `VfsLaws.DotsFollowed` | src/vfs.c:170-176 | `p/.` leads where `p` leads and `p/..` to the parent of that; the root stays |
| `VfsLaws.MadeIsFound` | src/vfs.c:218-233 | a directory made under a name of at most 31 bytes is found by it, empty, below the current one |
| `VfsLaws.ThereAndBack` | src/vfs.c:195-216 | entering a child and then `..` restores the state |
| `VfsLaws.RemoveKeepsOthers` | src/vfs.c:299-319 | with different sibling names exactly the children of other names stay |
| `VfsLaws.RemovedIsGone` | src/vfs.c:299-319 | with different sibling names a removed name leads nowhere and every other child is found as before |
| `VfsLaws.TouchSucceedsExactlyWhen` | src/vfs.c:235-292 | a touch returns 0 exactly when its directory is found and has the file, or has fewer than 16 children while fewer than 128 nodes are used |
| `VfsLaws.TouchedIsFound` | src/vfs.c:235-292 | after a touch with result 0 the same path, if its name needs no cut, leads to the file and the file has the text |
| `VfsLaws.FindGrown` | src/vfs.c:148-193 | a path that leads somewhere leads there when the tree has grown |
| `VfsLaws.RunKeepsText` | src/vfs.c:235-319 | in any run the text of a node is the one last touched into it, whatever is made, entered, touched or removed meanwhile |
| `VfsLaws.RunShowsLastText` | src/vfs.c:235-292 | in any run the absolute path of a touched file leads, until something is removed, to the text last touched into it, of it 1023 bytes |
| `VfsPaths.RunKeepsUnique` | src/vfs.c:195-319 | sibling names stay unique in every run with mkdir names of at most 31 bytes |
| `VfsStore.InitialOk` | src/vfs.c:41-105 | the built-in tree satisfies the invariant and has unique siblings, for any built-in texts |
| `VfsStore.Vfs.Init` | src/vfs.c:41-105 | builds the built-in tree in the pool and starts in the root |
| `VfsStore.Vfs.AllocNode` | src/vfs.c:14-39 | fails exactly when the pool is full; otherwise adds the node and, with room, links it |
| `VfsStore.Vfs.FindNode` | src/vfs.c:148-193 | the index loop returns the node that folding ".", ".." and first matching child over the path gives, or none |
| `VfsStore.Vfs.ChangeDir` | src/vfs.c:195-216 | with result 0 the directory the path leads to is current, -1 exactly if it leads nowhere, -2 exactly if to a file; no path and `~` mean `/home` or else the root |
| `VfsStore.Vfs.MakeDir` | src/vfs.c:218-233 | with result 0 the current directory has a new, empty last child with the name cut to 31 bytes and nothing else changed; -1 for an empty name, -2 with 16 children, -3 for a name a child has, -4 with 128 nodes, and then nothing changes |
| `VfsStore.Vfs.TouchFile` | src/vfs.c:235-292 | result -1 exactly when the path is empty or its part before the last slash, of it 255 bytes, leads to no directory; else the first child with the part behind the slash, cut to 31 bytes, gets the first 1023 bytes of the text (none: it stays), or a new last child is made with them, -2 with 16 children, -4 with 128 nodes; nothing else changes |
| `VfsStore.Vfs.RemoveChild` | src/vfs.c:299-319 | result -1 exactly when the name is empty or no child has it, without a change; else the first child of the name leaves the list, whose order stays, and nothing else changes |
| `VfsStore.Vfs.GetCwd` | src/vfs.c:115-146 | the buffer holds the path of the current directory as far as it fits, then NUL; at the root a buffer of one byte stays as it is |
| `Populating.PopulateVfs` | src/fat16.c:305-337 | from any tree and any readable volume (every well-formed one is, `FatData.WellFormedIsReadable`), the loops make exactly the touches the directory asks for, in its order: per plain slot before the first unused one whose shown name can be read, that name with the first 1023 bytes up to a NUL |
| `Boot.LoadingAppends` | src/fat16.c:305-337 | on the built-in tree these touches append one root file per shown name, in the order of first occurrence, with its first 1023 bytes up to a NUL, and pass over the rest |
| `Boot.InitialIsBase` | src/vfs.c:41-105 | the built-in tree leaves room for 12 files and has no root name that a rendered 8.3 name can equal |
| `Boot.BootShows` | src/vfs.c:352-359 | after boot a root file is shown under a valid name exactly when the volume has that file; it is the only one and holds its first 1023 bytes up to a NUL |
| `Boot.ShownExactlyWhen` | src/fat16.c:317-335 | the root has an entry of a name exactly when some plain slot is shown under it and the name is proper and leads to a file |
| `Boot.StoredSurvivesBoot` | src/vfs.c:294-297 | after a write and the next boot the root has an entry of the shown name exactly when that is proper and leads to a file; under a valid name its path leads to the first 1023 bytes that were stored, up to a NUL |
| `Boot.InitAndLoad` | src/vfs.c:352-359 | vfs_init and vfs_load together leave the built-in tree with the files of the volume |
| `Boot.WriteThrough` | src/vfs.c:294-297 | vfs_write_file writes the disk file and then the RAM file as `VfsStore.Vfs.TouchFile` says, whose result it returns |
| `VirtioRings.WrapKeepsSlot` | src/virtio_net.c:192-214 | taking a counter modulo 2^16 first does not change its slot in a power-of-two ring |
| `VirtioRings.WindowPush` | src/virtio_net.c:203-211 | publishing the entry behind the index appends it to the window of the other party |
| `VirtioRings.WindowPop` | src/virtio_net.c:192-201 | advancing the lower index removes exactly the first entry of the window |
| `VirtioRings.WindowWrite` | src/virtio_net.c:203-211 | a write behind the published entries changes none of them, also across wrap-around |
| `VirtioRx.InitOk` | src/virtio_net.c:144-158 | after the initial fill the ring invariant holds |
| `VirtioRx.StepKeeps` | src/virtio_net.c:192-214 | every single step of driver or device keeps the ring invariant; the device may write several used entries before it advances the index over any number of them |
| `VirtioRx.ElemUnseen` | src/virtio_net.c:192-201 | a used entry written and not yet published changes nothing the driver sees |
| `VirtioRx.RunOk` | src/virtio_net.c:192-214 | in every interleaving the buffers available, in the device and used partition all buffer ids |
| `VirtioRx.BetweenRounds` | src/virtio_net.c:192-214 | between iterations the available index is the queue size ahead of the polled index, modulo 2^16 |
| `VirtioRx.NothingLost` | src/virtio_net.c:192-214 | every buffer offered is taken in order and every buffer returned is polled in order: no entry is overwritten, lost or duplicated |
| `VirtioNet.NetRx.constructor` | src/virtio_net.c:144-158 | the fill loop offers every buffer once |
| `VirtioNet.NetRx.Poll` | src/virtio_net.c:190-214 | with the device stepping between any two memory accesses, publishing used entries one by one or several at once, polling keeps the invariant, ends, and has then offered every returned buffer again, in order |
| `VirtioTx.DescriptorsDisjoint` | src/virtio_net.c:219-254 | among any q/2 consecutive sends no two share a descriptor or a ring slot |
| `VirtioTx.PairApart` | src/virtio_net.c:219-254 | a send uses an even descriptor and the one after it |
| `VirtioTx.CountersAgree` | src/virtio_net.c:219-254 | the 16-bit counters give these positions also after wrapping around |
| `VirtioTx.DescriptorsReused` | src/virtio_net.c:219-254 | the bound is sharp: the send q/2 places later uses the same two descriptors |
| `VirtioTx.NewIntact` | src/virtio_net.c:219-254 | after a send its own packet is complete in descriptors and buffers, whatever its length |
| `VirtioTx.DeviceReads` | include/virtio.h:9-14 | in the 16 bytes of its descriptors a device finds, for a complete packet, the address of ten zero bytes with length 10 and flag 1 (next) alone, then the address and length of the packet without flags |
| `VirtioTx.OldIntactExactlyWhen` | src/virtio_net.c:219-254 | an earlier packet of the last q/2 stays complete exactly when the new send agrees with its header and bytes wherever they overlap |
| `VirtioTx.LongPacketBreaks` | src/virtio_net.c:219-254 | a packet longer than 2048 bytes whose byte 2048 is not 0 destroys the header of the send whose buffer comes next |
| `VirtioTx.SendKeepsIntact` | src/virtio_net.c:219-254 | with packets of at most 2048 bytes the last q/2 are always complete |
| `VirtioTx.FittingInMemory` | src/virtio_net.c:219-254 | a packet of at most 2048 bytes always ends inside the transmit buffers |
| `VirtioTx.NetTx.Send` | src/virtio_net.c:219-254 | counters, descriptors, ring and buffer memory become those the lemmas above speak about, for any packet that ends inside the transmit buffers |
| `VirtioTx.NetTx.AckSent` | src/virtio_net.c:182-187 | the acknowledge loop ends, across wrap-around, with the driver's index at the device's |
| `VirtioTx.SetupQueue` | src/virtio_net.c:70-95 | the available ring follows the 16q bytes of descriptors at once, the used ring starts at the first page boundary behind the available ring's 6 + 2q bytes; all lie in 32768 bytes |
| `VirtioTx.LayOutBlkQueue` | src/virtio.c:108-118 | the available ring starts at byte 256, the used ring at byte 4096 of two pages; the regions do not overlap |
| `VirtioTx.AllocateBlkQueue` | src/virtio.c:104-118 | without earlier releases the second page is the one reserved by the second allocation, unless memory ends there |
| `Pmm.SetPage` | src/pmm.c:17-19 | setting a bit adds its page to the used ones and changes no other |
| `Pmm.ClearPage` | src/pmm.c:21-23 | clearing a bit removes its page and changes no other |
| `Pmm.RoomLeft` | src/pmm.c:53-73 | the counter is zero exactly when every page is in use, so the search never ends without a page |
| `Pmm.RunStaysBalanced` | src/pmm.c:29-101 | in every run after pmm_init pages in use are kernel pages plus pages held, disjoint, and the counter is the number of others |
| `Pmm.AllocationsExclusive` | src/pmm.c:53-101 | no allocation returns a kernel page or a page still held; one fails only when all are handed out |
| `Pmm.AllocationsAdjacent` | src/pmm.c:53-73 | without releases the n-th allocation returns the n-th page behind the kernel, until memory ends |
| `Pmm.KernelPages` | src/pmm.c:32-38 | the kernel's pages cover it and exceed it by less than a page |
| `Pmm.PageAllocator.Init` | src/pmm.c:29-51 | exactly the kernel's pages are in use, and counter and hint agree |
| `Pmm.PageAllocator.AllocPage` | src/pmm.c:53-73 | fails exactly when all pages are in use; otherwise returns the lowest free page, aligned and zeroed, and no other page changes |
| `Pmm.PageAllocator.FreePage` | src/pmm.c:75-101 | clears the page's bit; refuses addresses out of range, unaligned or not in use without a change |
| `SchedModel.SwitchKeeps` | src/sched.c:73-98 | a switch keeps exactly one running slot, the current one, starts or stops nothing, and dispatches the live slot nearest behind the current one |
| `SchedModel.RankSteps` | src/sched.c:73-98 | with every switch a live slot moves up by one; the first is dispatched and becomes last |
| `SchedModel.RoundRobin` | src/sched.c:73-98 | with k live slots any k consecutive switches dispatch each of them exactly once |
| `SchedModel.CloserToDispatch` | src/sched.c:84-92 | a switch dispatches a given live slot or shortens the search to it |
| `SchedMachine.BootKeeps` | src/sched.c:25-36 | every statement of sched_init keeps the invariant |
| `SchedMachine.CreateKeeps` | src/sched.c:38-71 | every statement of sched_create_task keeps the invariant |
| `SchedMachine.FrameGrows` | src/sched.c:57-67 | clearing the frame and storing entry and state put the first context together |
| `SchedMachine.FirstFrameInBytes` | include/sched.h:6-12 | the first context has the entry point at byte 248 and at byte 256 a processor state that selects EL1h in AArch64 state with no interrupt masked, and is zero elsewhere |
| `SchedMachine.TickKeeps` | src/exceptions_c.c:55-67 | a timer interrupt at any point keeps the invariant and resumes at a frame on the dispatched stack with the due contents |
| `SchedMachine.WorkKeeps` | src/sched.c:25-98 | stores of running code outside other stacks disturb no suspended context |
| `SchedMachine.RunKeeps` | src/sched.c:25-98 | the invariant holds in every interleaving of statements, interrupts, other stores and other page calls |
| `SchedMachine.ContextFidelity` | src/exceptions_c.c:55-67 | the frame an interrupt returns to is the one saved at the last preemption, or the fully initialised first one |
| `SchedMachine.HalfBuiltNeverRuns` | src/sched.c:38-71 | a slot under construction is free until its last statement, so no interrupt dispatches it |
| `SchedMachine.OneRunning` | src/sched.c:25-98 | once sched_init is over exactly one slot is running, and it is the current one |
| `SchedMachine.PageOwnership` | src/sched.c:52-66 | every slot but 0 has its own page outside the kernel, with its 272-byte context inside |
| `SchedMachine.CreationPages` | src/sched.c:38-71 | a creation that goes through takes one fresh page, a failing one none; it fails only with all slots taken or no page free |
| `SchedMachine.OnePagePerTask` | src/sched.c:52-58 | as many pages are stacks as there are slots in use besides 0 |
| `SchedMachine.BoundedWaiting` | src/sched.c:73-98 | a live slot is dispatched within 16 timer ticks, also when others are created meanwhile |
| `Scheduling.Scheduler.Switch` | src/sched.c:73-98 | the probing loop finds the nearest ready slot behind the current one within 16 probes and makes it current |
| `Scheduling.Scheduler.Init` | src/sched.c:25-36 | the method is a run of single statements of the machine and leaves exactly slot 0, running |
| `Scheduling.Scheduler.CreateTask` | src/sched.c:38-71 | the method is a run of single statements of the machine; the lowest free slot becomes ready on a fresh page that holds its first context at the end, or nothing changes |
| `Scheduling.FrameBuilt` | src/sched.c:57-64 | the three stores leave a page of zeros with the first context at its end |
| `KeditModel.PressKeeps` | src/kedit.c:112-186 | every key keeps cursor, line and scroll bounds |
| `KeditModel.NoRoomOverflows` | src/kedit.c:167-178 | typing keeps every line in its row exactly when the line has fewer than 127 characters |
| `KeditModel.KeyEditsText` | src/kedit.c:122-178 | typing before column 127 on a line shorter than 127, return below 100 lines and backspace behind column 0 insert or delete exactly one byte at the cursor of the joined text; anything else changes no text |
| `KeditModel.BackspaceUndoes` | src/kedit.c:138-147 | on a line shorter than 127, backspace takes back a typed character |
| `KeditLaws.PressKeys` | src/kedit.c:112-186 | the value-level key press does what `Kedit.Editor.HandleKey` states of the bytes |
| `KeditLaws.NearestScreen` | src/kedit.c:180-185 | no other screen of 20 rows that shows the cursor is nearer to the one before |
| `KeditLaws.SidewaysUndone` | src/kedit.c:126-130 | left takes back right and right takes back left, if the first one moved |
| `KeditLaws.UpDownUndone` | src/kedit.c:126-136 | up and down take each other back, but for a column the row between does not have |
| `KeditModel.ScanSplits` | src/kedit.c:87-103 | the load loop takes a text apart at its newlines |
| `KeditModel.SplitUnique` | src/kedit.c:87-103 | no other lines give the same text |
| `KeditModel.SaveLoadRoundTrip` | src/kedit.c:60-103 | saving and loading gives the same lines exactly when they total at most 1023 bytes with newlines |
| `KeditLaws.SavedWhileRoom` | src/kedit.c:60-77 | a line is left out of the saved text exactly when it would take the text past 1023 bytes |
| `KeditLaws.LoadedFrom` | src/kedit.c:87-103 | the lines ended by a newline are loaded, at most 100, each up to its first NUL or 127 bytes; what follows the last newline only if there is none |
| `KeditModel.EditSaveReload` | src/kedit.c:60-186 | the same holds after any sequence of keys that meets no full line, from any sound editor state |
| `Kedit.Editor.Erase` | src/kedit.c:138-147 | shifting the row left in place deletes the character before the cursor |
| `Kedit.TypedRow` | src/kedit.c:167-178 | after the shift the row holds the line with the character exactly when the line was shorter than 127; otherwise the row has lost its end |
| `Kedit.Editor.TypeChar` | src/kedit.c:167-178 | shifting the row right in place inserts the character; on a full line the row loses its end and the next row or the line count is overwritten |
| `Kedit.Editor.BreakLine` | src/kedit.c:148-166 | shifting the rows down and cutting at the cursor splits the line |
| `Kedit.Editor.HandleKey` | src/kedit.c:112-186 | what the bytes of a key do: ESC [ A to D move up, down, right and left, 8 and 127 delete the byte before the cursor, 13 and 10 break the line below 100 lines, 32 to 126 insert that byte before column 127; then the screen scrolls only if it must, and no further than to show the row; only a character on a line of 127 is excepted |
| `Kedit.Editor.Save` | src/kedit.c:60-77 | the text handed on is the lines in order, one newline each, but for those that would take it past 1023 bytes |
| `Kedit.Editor.Load` | src/kedit.c:87-103 | the load loop fills the rows with the terminated lines of the text, at most 100, each cut to its row |
| `Persistence.EmptyIsBootable` | src/fat16.c:305-337 | any volume with an unused directory is well formed and boots, whatever its table and its number of clusters |
| `Persistence.StaysBootable` | src/fat16.c:207-302 | storing a file under a valid name, with room in the root and on the disk, leaves a volume that boots |
| `Persistence.EditsSurviveBoot` | src/kedit.c:60-103 | lines of at most 1023 bytes saved by the editor are, after the next boot, the lines it loads from the file of the shown name |

## Left out

- UART output, screen drawing, shell, TUI, `ktop` and process table: input, output and shallow tables.
- `src/script.c`: a bounded table with line matching; it would only add easy members.
- MMIO registers, interrupt controller, memory barriers, boot and vector assembly: hardware. Steps of driver and device are
  sequentially consistent. Saving and restoring registers is a 272-byte frame of any contents.
- Transfers of `virtio_blk_read_sector` and `virtio_blk_write_sector`: the block device is an array of sectors whose
  reads and writes succeed; writing a sector that does not exist has no effect, and none is read.
- `src/string.c`: its routines appear as what they compute at each use. `kstrncpy` writes one byte more than asked for when the
  source is shorter; the callers shown leave room for it.
- FAT long names, subdirectories, time stamps, FAT12, FAT32 and other sector sizes: the driver does not handle them.
- Contents of a file whose own write ended with -2: the source releases the old chain first, so nothing is claimed.
- Sizes in C types: a file written has fewer than 2^31 bytes, and a read asks for at most 2^31, as the source's `int` results need.
- `Fat16Driver.Fat16.ReadFile`: the buffer has a byte even when `max_len` is 0, because the source stores a NUL there.
- `Boot.LoadingAppends`: is about at most 12 shown names, the room of the built-in root, none of which starts with a lower-case
  letter; a name such as `./X`, whose directory part does resolve, is left to `Populating.PopulateVfs`, as are more files.
- `Fat16Driver.Fat16.WriteFile`: on a directory with deleted slots, does not model a name that starts with 0xE5 or that a directory
  has; there the buffer that is reused in the search may show another slot, whose clusters need not form a chain.
- `VirtioNet.NetRx.Poll`: ends because the device has finitely many moves left; a device that never stops keeps the source polling.
- `VirtioTx.NetTx.Send`: does not model packets that run past the end of all transmit buffers.
- Wording of the built-in files of `vfs_init`: a parameter of the model.
- `VfsStore.Vfs.TouchFile`: does not model storage of characters behind the first NUL of a node's data buffer; texts are up to their NUL.
- The array of 16 child pointers of a node is a sequence field, and pointers to pool nodes are pool indices.
- `Pmm.PageAllocator.AllocPage`: is one step for the timer; the source does not mask interrupts in it, and no second caller runs it meanwhile.
- `SchedMachine.WorkKeeps`: does not model stack overflow; running code stores nothing outside its own stack that belongs to another one.
- `SchedMachine.CreateKeeps`: one creation is in progress at a time, as in the source, where only the boot code creates.
- `Kedit.Editor.Save`: the file name and the call of `vfs_write_file` are not repeated there; `Boot.WriteThrough` models that call.
- `KeditModel.Loaded`: loading from a node of the RAM file system is loading its text; a missing file is the empty text.
