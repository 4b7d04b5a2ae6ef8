# A verified model of the kernel's FAT volume, scheduler, heap, paths and descriptors

This project models the parts of a small operating system whose correctness rests on invariants over mutable
state, and proves those invariants with Dafny 4.11. `dafny verify dfyconfig.toml` checks everything.

**The FAT volume** (`FatVolume` and the modules around it). `fat.c` keeps the file allocation table in RAM and
writes it through to the disk; files and directories are chains of clusters scattered over the disk. The class
`FatVolume.Volume` holds the table as an array and the disk as one string of bytes; its loops are the loops of
`fat.c`, and each method is proved against a function or relation on the value `Volumes.Vol` (table and clusters).
On top of it stands a catalog of nodes (`Catalogs.Catalog`): `Catalogs.ChainsOk` says that the entries in use, but
for the reserved entry 1, are exactly the clusters of the nodes' chains and that no cluster is in two of them;
`FileTree.TreeOk` that every node but the root is named by exactly one directory slot; `FileTree.CountsOk` that
the size in a directory's entry is the number of slots in use; `Images.FilesOk` that a file's bytes cover its size and
are zero behind its end. `VolumeOrder.Inv` is all of that; a volume in order determines its catalog
(`VolumeOrder.CatalogUnique`). `VolumeOrder.InOrder` says that some catalog fits, and creating, deleting and renaming each say
for exactly which paths the volume is in order afterwards: where it is not, no catalog whatever fits. What these operations
answer, and which names there are afterwards, is told in terms of the names in the directories alone (`FileAnswers`), and so for
every step of a run (`RunAnswers`).

**The host-side writer** (`LoaderWriter`), which extends a file on demand and updates every copy of the FAT.

**The scheduler** (`ProcessTable`, `ProcessManager`, `TerminalInput`): the doubly linked process list, switching,
exiting, blocking on input and waiting for a child, as a class over linked nodes that refines a step relation
over values; safety and bounded dispatch are proved over all runs of that relation.

**The kernel heap** (`HeapBlocks`, `KernelHeap`): first fit over block headers in raw memory, growth by pages.

**Path simplification** (`PathMeaning`, `SimplifyPath`) and **descriptor reference counts** (`DescriptorTables`,
`OpenFiles`).

## Conventions

- A C `char` is `CText.Byte`, a `char` below 256; a C string is a sequence without NUL. 512-byte sectors are assumed.
- The table has fewer than 0xFFF7 entries, all links lie inside it, and entries 0 and 1 are in use, as `mkfs.fat`
  leaves them. The root directory is cluster 0 and cluster c starts at sector `root_dir_start` + c *
  `sectors_per_cluster`, as the code has it.
- Ghost parameters such as `v`, `g`, `ch` carry the value of the volume, the catalog and the chain of a head.
- Disk errors and a failing `kmalloc` inside the file system are left out; whether a page can be had is a parameter.

## Where the code departs from what it seems meant to do

The code is modelled as it is. What follows from each point is proved or is a stated precondition.

- `fat_create` compares a 16-bit field with -1 (`fat.c:554-556`), so a full table is not noticed there and the code goes on
  with an index outside the table (`FileOps.FullTable`): creating needs a free entry. If the parent is full and the
  node itself takes the last entry, everything is undone (`FileOps.CreateOutcome`).
- The last component of a path is looked up without a check that it is looked up in a directory
  (`fat.c:455-461`), so the bytes of a regular file can be taken for slots: `TreeWalk.ResolveThroughFile` is an example.
  `TreeWalk.ResolveIsParentLookup` says exactly when a path resolves to the look-up of its base name in what its
  parent path resolves to. Creating and deleting require that what they go on with is not found inside a file
  (`TreeWalk.OffFiles`); a path below a file that resolves to nothing is refused like any other.
- Creating and deleting count in the entry the parent path was found by. Behind "." or ".." that is a dot slot of another
  directory (`FileEffects.DotPaths`), and the count then ends up right if and only if the parent is the root
  (`FileEffects.NotedIsOk`; `DotSlots.DotMiscounts` gives the inputs for which it does not). Renaming a path that ends in a
  dot component renames the dot slot; deleting one, if the size in that slot happens to be 2, frees the chain of a directory
  that is still named, and `DotSlots.DotSlotReachesTwo` shows how it comes to be 2 while everything is in order.
- Behind a slash the base name is empty and the path itself is taken for the parent (`fat.c:490-524`). Creating refuses
  that. Deleting looks for an empty slot in what the path leads to, a file or a directory, frees the chain that slot
  points to, and counts one less in the entry of the path: behind the path of a file nothing was written to, it frees the
  root directory (`FileRemoval.SlashFreesRoot`). `DeleteSteps.Harmless` is exactly when the volume is in order all the
  same. Renaming looks for the directory's own name inside it, and if it is there, the directory comes to name itself
  (`FileRenaming.SlashRenamesInside`).
- `FileOps.Create`, `FileRemoval.Delete` and `FileRenaming.Rename` take every path from the root without empty components, with
  or without a slash behind it and with or without dot components. Creating and deleting require a base name of at most
  eleven characters: `fat_create` and `fat_delete` copy it with `strcpy` into the twelve bytes of `dir_name` before any check
  (`fat.c:531-535`, `fat.c:621-623`), and write past them if it is longer.
- Names have at most ten characters. With eleven, the kernel's `strncmp` compares one character more
  (`lib/src/string/strncmp.c:5-10`) and `strcmp` reads on (`lib/src/string/strcmp.c:5-7`), both into the attribute byte: a
  directory would not be found under its own name by any look-up. Only where `fat_create` and `fat_delete` pass
  a pointer into the entry itself (`fat.c:608`, `fat.c:655`) would both sides read on alike. The model gives `strncmp` its ISO C
  meaning and `strcmp` the attribute byte (`Directory.Matches`), so the limit is part of the invariant, and `FileRenaming.Rename`
  says that a new name of eleven characters breaks it.
- `fat_truncate` assigns the new size before it computes how many zeros to write (`fat.c:969-976`), so it writes none. Grown
  regions are zero all the same, because clusters are zeroed when they are linked (`ChainGrowth.GrowthReadsZero`,
  `FileContents.NothingWritten`).
- The number of missing clusters is an unsigned difference: a chain longer than needed makes growth fail after taking every
  free cluster (`FileContents.GrowthSucceeds` gives the exact condition).
- The loader's `fat_write` stores a file's first cluster in its entry only if the size grows: after an empty write to a file
  without a cluster, the cluster taken is in no entry (`LoaderWriter.FirstClusterLost`).
- `kmalloc_pages` stores through a null pointer if there is no block before the last free one, and it does not store the next
  field of the new sentinel: `HeapBlocks.PagesWellFormed` says that some list of blocks tiles the heap afterwards if and
  only if there is such a block and that memory reads NULL.
- `simplify_path` puts an empty component in front of an absolute path because `end` wraps around at index 0, so it is
  not idempotent there; `PathMeaning.AbsoluteIdempotent` says exactly when it is.
- `_open` with `O_EXCL` on a file that is open already counts it and then fails (`OpenFiles.ExclusiveOpenLeaks`), and a process
  exits without closing its files: reference counts can be too high, never too low. `OpenFiles.FailedExact` and
  `DescriptorTables.ExitExact` say exactly when exact counts stay exact; opening and closing keep them (`OpenFiles.DoneExact`,
  `DescriptorTables.CloseExact`).
- Between the first enabled interrupt and the first switch there is no current process, and a newline then would start its
  wake-up from a null pointer: `TerminalInput.Terminal.KeyPress` requires a current process.

## Model

| member | source | states |
|---|---|---|
| `DirEntries.DecodeEncode` | os/kernel/src/filesystem/fat/fat.h:36-49 | the 32-byte record of an entry decodes to the entry it was made from |
| `DirEntries.EncodeDecode` | os/kernel/src/filesystem/fat/fat.h:36-49 | every 32-byte record is the image of exactly the entry it decodes to |
| `DirEntries.FieldBytes` | os/kernel/src/filesystem/fat/fat.h:36-49 | which bytes of the record hold which field: name 0-10, attribute 11, first cluster 26-27 and size 28-31, low byte first |
| `DirEntries.SlotsSplice` | os/kernel/src/filesystem/fat/fat.c:260-264 | copying an entry over one slot of a directory's bytes changes that slot and no other |
| `Directory.FindIsLookup` | os/kernel/src/filesystem/fat/fat.c:210-240 | the slot scan finds a name exactly if the directory as a map has it, and finds the entry the map gives |
| `Directory.PutSlot` | os/kernel/src/filesystem/fat/fat.c:308-344 | overwriting a slot removes its name from the map and adds the new one, and names stay unique |
| `Directory.PutEmpty` | os/kernel/src/filesystem/fat/fat.c:242-272 | filling an empty slot with a new name is insertion into the map |
| `Directory.AppendEmpty` | os/kernel/src/filesystem/fat/fat.c:278-305 | a zeroed cluster behind the directory adds no name and changes no entry |
| `FatTable.ChainDistinct` | os/kernel/src/filesystem/fat/fat.c:196-208 | a chain that ends in an end mark never visits a cluster twice |
| `FatTable.ChainUnique` | os/kernel/src/filesystem/fat/fat.c:196-208 | the table and the head determine the chain |
| `FatTable.ChainExtend` | os/kernel/src/filesystem/fat/fat.c:132-154 | linking a free entry behind the last gives the chain with that entry appended, all links still in range |
| `FatTable.InUseShrinks` | os/kernel/src/filesystem/fat/fat.c:161-182 | freeing an entry in use leaves one fewer in use: the measure by which freeing ends even on a cyclic table |
| `FatTable.FreeFromChain` | os/kernel/src/filesystem/fat/fat.c:161-182 | freeing from the head of a well-formed chain frees exactly its clusters |
| `Volumes.ContentPut` | os/kernel/src/filesystem/fat/fat.c:913-919 | bytes copied into the i-th cluster of a chain land at offset i * bytes-per-cluster of its content, and nowhere else |
| `Volumes.GrownContent` | os/kernel/src/filesystem/fat/fat.c:118-159 | a chain extended by one cluster reads as before, followed by one cluster of zeros |
| `Volumes.PatchedUnique` | os/kernel/src/filesystem/fat/fat.c:888-934 | the content after a write and everything outside the chain determine the volume |
| `DiskLayout.WriteClusterOn` | os/kernel/src/filesystem/fat/fat.c:191-194 | writing a cluster changes that cluster on the disk, no other, and no FAT entry |
| `DiskLayout.WriteSectorOn` | os/kernel/src/filesystem/fat/fat.c:135-154 | writing back the sector slice of a changed entry makes disk and RAM agree again and touches no cluster and no boot sector |
| `FatVolume.Volume.Load` | os/kernel/src/filesystem/fat/fat.c:66-82 | the loop over FAT sectors leaves in RAM the first FAT copy of the disk |
| `FatVolume.Volume.StoreEntry` | os/kernel/src/filesystem/fat/fat.c:134-152 | a changed entry is changed in RAM and in the first FAT copy, and nothing else is |
| `FatVolume.Volume.FindFree` | os/kernel/src/filesystem/fat/fat.c:102-115 | the first free entry, or -1 if there is none |
| `FatVolume.Volume.UpdateChain` | os/kernel/src/filesystem/fat/fat.c:118-159 | the walk to the end links the free entry there and zeroes its cluster; the corruption check never fires |
| `FatVolume.Volume.FreeChain` | os/kernel/src/filesystem/fat/fat.c:161-182 | terminates on every table with links in range and frees what following the links frees, in RAM and on disk |
| `FatVolume.Volume.GetIth` | os/kernel/src/filesystem/fat/fat.c:196-208 | restarting from the head gives the i-th cluster of the chain, or -1 behind its end |
| `FatVolume.Volume.ClusterAmount` | os/kernel/src/filesystem/fat/fat.c:398-413 | the length of the chain |
| `FatVolume.Volume.Locate` | os/kernel/src/filesystem/fat/fat.c:218-238 | the scan over clusters and slots finds the first matching slot of the directory read as one sequence, and where it lies |
| `FatVolume.Volume.FindDirEntry` | os/kernel/src/filesystem/fat/fat.c:210-240 | finds the first slot with the name, exactly if there is one |
| `FatVolume.Volume.AddDirEntry` | os/kernel/src/filesystem/fat/fat.c:242-306 | the entry goes into the first empty slot, else into the first slot of a new last cluster, else nothing changes and no entry is free |
| `FatVolume.Volume.UpdateDirEntry` | os/kernel/src/filesystem/fat/fat.c:308-344 | overwrites exactly the first slot `strcmp` finds, or changes nothing |
| `FatVolume.Volume.RemoveDirEntry` | os/kernel/src/filesystem/fat/fat.c:346-381 | frees the chain of the entry found, then zeroes its slot; nothing else changes |
| `FatVolume.Volume.Read` | os/kernel/src/filesystem/fat/fat.c:775-842 | returns exactly the part of the file's bytes that the range covers, and its length |
| `FatVolume.Volume.AllocateSpace` | os/kernel/src/filesystem/fat/fat.c:383-396 | as many steps of growth as asked for, or as there are free clusters |
| `FatVolume.Volume.WriteBytes` | os/kernel/src/filesystem/fat/fat.c:888-931 | the buffer stands at the offset of the chain's bytes, and no byte of any other cluster has changed |
| `FatVolume.Volume.Write` | os/kernel/src/filesystem/fat/fat.c:846-934 | a write inside the file patches it; one behind its end first extends it or fails with -1 |
| `FatVolume.Volume.Truncate` | os/kernel/src/filesystem/fat/fat.c:936-992 | the growing branch: chain, size and directory entry, with the mutual recursion with the writer shown to end |
| `ChainGrowth.FindCluster` | os/kernel/src/filesystem/fat/fat.c:218-238 | searching a directory from its i-th cluster on is searching that cluster, then the rest |
| `ChainGrowth.GrowthAdds` | os/kernel/src/filesystem/fat/fat.c:383-396 | growth keeps the old chain as a prefix, adds only clusters that were free, touches nothing else, and succeeds exactly if enough are free |
| `ChainGrowth.GrowthReadsZero` | os/kernel/src/filesystem/fat/fat.c:120-157 | a grown chain reads as the old bytes followed by zeros |
| `FileContents.GrowthKeeps` | os/kernel/src/filesystem/fat/fat.c:383-396 | a chain apart from the one that grows stays a chain with the same bytes |
| `FileContents.GrowthSucceeds` | os/kernel/src/filesystem/fat/fat.c:961-967 | growth for a size succeeds exactly if the chain is at most size / bytes-per-cluster + 1 long and enough clusters are free, and then the chain has exactly that length |
| `FileContents.NothingWritten` | os/kernel/src/filesystem/fat/fat.c:969-976 | the explicit zero write of growth, whose length is 0, changes nothing |
| `Catalogs.GrownChains` | os/kernel/src/filesystem/fat/fat.c:118-159 | extending one node's chain keeps the exact accounting of clusters |
| `Catalogs.StartedChains` | os/kernel/src/filesystem/fat/fat.c:554-558 | so does starting a new node on a free cluster |
| `Catalogs.FreedChains` | os/kernel/src/filesystem/fat/fat.c:161-182 | so does freeing the chain of a node that is taken away |
| `Catalogs.ChainsApart` | os/kernel/src/filesystem/fat/fat.c:118-182 | chains of different nodes share no cluster |
| `Catalogs.PatchedBytes` | os/kernel/src/filesystem/fat/fat.c:888-931 | writing to the chain of one node changes the bytes of no other node |
| `FileTree.InsertKeeps` | os/kernel/src/filesystem/fat/fat.c:559-595 | naming a new node in an empty slot keeps nodes and naming slots in one-to-one correspondence |
| `FileTree.RemoveKeeps` | os/kernel/src/filesystem/fat/fat.c:652 | so does emptying the slot of a leaf |
| `FileTree.RenameKeeps` | os/kernel/src/filesystem/fat/fat.c:694-707 | so does a new name for a slot, if no other slot of the directory has it |
| `Images.RemoveImage` | os/kernel/src/filesystem/fat/fat.c:638-655 | after removing a node everything is in order but the count of its parent, which is one too high |
| `Images.InsertImage` | os/kernel/src/filesystem/fat/fat.c:553-595 | after adding one, everything but the count of its parent, which is one too low |
| `PathNames.SplitJoin` | os/kernel/src/filesystem/fat/fat.c:490-524 | parent and base name of the path of some components are the path of all but the last, and the last |
| `PathNames.SplitRejoins` | os/kernel/src/filesystem/fat/fat.c:490-524 | parent, slash and base name rejoin to the path |
| `TreeWalk.ResolveIsParentLookup` | os/kernel/src/filesystem/fat/fat.c:415-473 | when the parent path resolves to a directory, resolving the path is looking its base name up there if and only if every component on the way leads into a directory, or the name is not found anyway |
| `TreeWalk.PathCodes` | os/kernel/src/filesystem/fat/fat.c:432-461 | a path that does not resolve answers -EINVAL exactly if the loop comes to a component of more than eleven characters, and else -ENOENT |
| `TreeWalk.Spellings` | os/kernel/src/filesystem/fat/fat.c:421-454 | a tilde before the first slash or a slash at the end makes no difference; "/", "~/" and "./" are the root; what begins otherwise is refused, and with which code |
| `TreeWalk.OffFilesDescends` | os/kernel/src/filesystem/fat/fat.c:455-468 | what a path resolves to was reached through directories only, exactly if its parent path resolves to a directory |
| `TreeWalk.ResolveThroughFile` | os/kernel/src/filesystem/fat/fat.c:455-461 | an example: /f/x resolves inside the file f and /f/x/y does not, though x would hold y |
| `TreeWalk.DescendNode` | os/kernel/src/filesystem/fat/fat.c:415-473 | a path, with dot components or without, descends to a directory of the tree, and the entry found is kept where its last component says: in the one slot that names the directory, or in a dot slot of the directory before |
| `FileOps.FindSlashed` | os/kernel/src/filesystem/fat/fat.c:415-473 | on a path from the root, with or without a slash behind it, the scan terminates and finds what walking the components finds, with the same error codes |
| `FileOps.FindSpelled` | os/kernel/src/filesystem/fat/fat.c:415-473 | the same for every path without empty components: with or without a tilde in front and a slash at the end, the three spellings of the root, and paths that do not start at the root, which are refused |
| `FileOps.CheckFileName` | os/kernel/src/filesystem/fat/fat.c:475-488 | accepts exactly the names of letters, digits, dash, underscore and dot other than the empty name and the dots |
| `FileOps.MakeDots` | os/kernel/src/filesystem/fat/fat.c:574-595 | the two dot insertions into a fresh cluster always find room and never change the table |
| `FileOps.AddEntry` | os/kernel/src/filesystem/fat/fat.c:242-306 | in terms of nodes: one directory's bytes get the entry, perhaps behind a new cluster of zeros, and the accounting is kept |
| `FileOps.Recount` | os/kernel/src/filesystem/fat/fat.c:598-608 | the update of the parent's entry changes the size where that entry is kept and nothing else, and does nothing for the root |
| `FileOps.FullTable` | os/kernel/src/filesystem/fat/fat.c:554-556 | with no entry free, the 16-bit image of -1 the code goes on with is the index of no entry |
| `VolumeOrder.CatalogUnique` | os/kernel/src/filesystem/fat/fat.c:118-381 | table and clusters of a volume whose chains and names are in order determine which nodes there are, how they hang together and which cluster belongs to which |
| `VolumeOrder.NoCatalogFits` | os/kernel/src/filesystem/fat/fat.c:118-381 | so a volume whose one such catalog has a wrong count or a wrong file has no other that has it right |
| `VolumeOrder.Survives` | os/kernel/src/filesystem/fat/fat.c:161-381 | where the directories nearer to the root still name what they did, every catalog that fits a changed volume has the same nodes in the same slots |
| `VolumeOrder.CutIsFatal` | os/kernel/src/filesystem/fat/fat.c:161-182 | freeing a cluster of a node that is still named there leaves a volume no catalog fits |
| `VolumeOrder.BadDirIsFatal` | os/kernel/src/filesystem/fat/fat.c:308-344 | so does overwriting a slot of a directory such that its names or dot slots are no directory's |
| `VolumeOrder.SelfNamingIsFatal` | os/kernel/src/filesystem/fat/fat.c:694-707 | so does a slot of a directory that names the directory itself |
| `FileOps.Create` | os/kernel/src/filesystem/fat/fat.c:526-611 | for paths from the root, dots and a slash at the end included: refuses with the code of the first failing check and no change, undoes everything if the parent is full and no cluster is left, else adds exactly one node and one name, one cluster to the parent only if it was full, and one to the size in the entry the parent was found by; a catalog fits the volume afterwards if and only if nothing was created, the parent is the root, or its path does not end in a dot |
| `FileAnswers.CreateAnswers` | os/kernel/src/filesystem/fat/fat.c:526-611 | in a directory a path leads into, a legal new name is refused with -EEXIST exactly if the directory has it, with -EIO exactly if it has not and there is no room, and else the creation succeeds: the directory has exactly one name more, and it leads to a node that is new |
| `FileAnswers.CreateFails` | os/kernel/src/filesystem/fat/fat.c:537-548 | without a legal name at the end the answer is -EINVAL; where the parent path leads into no directory it is -EINVAL or -ENOENT, and for which paths which |
| `FileRemoval.Delete` | os/kernel/src/filesystem/fat/fat.c:613-658 | for the same paths: refuses without change, else removes what the base name finds in the parent and counts one less; for a path that ends in a name that is exactly the node, its name and its chain. A catalog fits the volume afterwards if and only if it refused, or, without a slash behind it, neither the path nor, unless it leads to the root, the parent path ends in a dot, or, behind a slash, the stores did no harm |
| `FileAnswers.DeleteAnswers` | os/kernel/src/filesystem/fat/fat.c:613-658 | -ENOENT exactly for a name that is not there; a file is deleted as a file and a directory as a directory exactly if it has no names but the dots, else the code says why; afterwards the directory has exactly that name less |
| `FileRemoval.DotDeleted` | os/kernel/src/filesystem/fat/fat.c:638-655 | deleting a path that ends in a dot leaves a volume no catalog fits: the directory freed is still named |
| `DeleteSteps.SlashOutcome` | os/kernel/src/filesystem/fat/fat.c:638-655 | behind a slash, a catalog fits afterwards if and only if the empty slot found, if any, points to a free entry, and the entry counted in is a dot slot, or that of a non-empty file whose last byte is zero or lies in that slot |
| `DeleteSteps.FreeingIsFatal` | os/kernel/src/filesystem/fat/fat.c:161-182 | freeing from any entry in use, while all directories go on naming what they did, leaves a volume no catalog fits |
| `DeleteSteps.OneLessIsOk` | os/kernel/src/filesystem/fat/fat.c:651-655 | one less in the size of an entry keeps everything in order if and only if it is a dot slot's, or that of a file that is still zero from there on |
| `DeleteSteps.EmptiedImage` | os/kernel/src/filesystem/fat/fat.c:366-370 | zeroing a slot that is empty, in a directory or in the bytes of a file, keeps everything in order |
| `FileRemoval.SlashFreesRoot` | os/kernel/src/filesystem/fat/fat.c:613-658 | an input: behind a slash, deleting a file of one cluster never written to is not refused and frees exactly the chain of the root directory |
| `FileRenaming.Rename` | os/kernel/src/filesystem/fat/fat.c:670-708 | for the same paths: refuses without change, else the slot that has the old name in the directory taken for the parent gets the entry with the new one, and nothing else differs; a catalog fits the volume afterwards if and only if it refused, or there is no slash behind the path, it does not end in a dot, and the name is shorter than eleven characters |
| `FileAnswers.RenameAnswers` | os/kernel/src/filesystem/fat/fat.c:670-708 | for files and directories alike: -ENOENT exactly if the name is not there, -EINVAL if the new one is none, -EEXIST if it is in use, and else success: the new name instead of the old, for the same entry, and nothing else differs |
| `FileRenaming.EntryRenamed` | os/kernel/src/filesystem/fat/fat.c:694-707 | whichever slot the old name is found in, with an unused legal name in it a catalog fits if and only if that slot names a node, the path leads there without a slash, and the name is not of full length |
| `FileRenaming.RenamedBadly` | os/kernel/src/filesystem/fat/fat.c:694-707 | a dot slot renamed, or a name of eleven characters, leaves a volume no catalog fits |
| `FileRenaming.SlashRenamesInside` | os/kernel/src/filesystem/fat/fat.c:670-708 | an input: behind a slash, renaming a directory that holds an entry of its own name is not refused, and nothing is in order afterwards |
| `FileRemoval.CountedInGone` | os/kernel/src/filesystem/fat/fat.c:638-655 | deleting a directory by a path through itself, as in d/../d, notes the count in the directory already freed, and nothing that is left depends on it |
| `FileEffects.EmptyDirIsLeaf` | os/kernel/src/filesystem/fat/fat.c:631-638 | the size in a directory's entry is 2 exactly if only the two dot entries remain |
| `FileEffects.DotPaths` | os/kernel/src/filesystem/fat/fat.c:415-473 | behind the path of a directory other than the root, the last components "." and ".." lead to the directory and to its parent, and the entry found is kept in its own first or second slot; behind the root's they lead nowhere |
| `FileEffects.NotedIsOk` | os/kernel/src/filesystem/fat/fat.c:598-608 | with the count of a directory off by one, changing the size in the entry it was found by puts everything in order if and only if the directory is the root or was found by its own name |
| `FileEffects.GainedNoted` | os/kernel/src/filesystem/fat/fat.c:559-608 | counting a new name, wherever it is noted, changes that one size and commutes with adding the node |
| `FileEffects.LostNoted` | os/kernel/src/filesystem/fat/fat.c:640-655 | so does counting a removed one off, even in a slot of the directory removed |
| `FileWrites.GrowthBytes` | os/kernel/src/filesystem/fat/fat.c:383-396 | growth keeps the accounting and adds zeros to the bytes of one node only |
| `FileWrites.WriteFile` | os/kernel/src/filesystem/fat/fat.c:846-934 | succeeds exactly if the write ends inside the file or the chain and the free clusters suffice; then the data is the old data overlaid with the buffer, the size updated and the chain exactly as long as the size asks for; else only room was added; every other file has its bytes, and the invariant is kept |
| `FileWrites.ReadFile` | os/kernel/src/filesystem/fat/fat.c:775-842 | delivers the range asked for out of the file's data |
| `FileWrites.OverlayAt` | os/kernel/src/filesystem/fat/fat.c:846-934 | byte by byte, data after a write is the buffer, else what was there, else zero in a gap |
| `FileWrites.ReadBack` | os/kernel/src/filesystem/fat/fat.c:775-934 | what was written is read back, and a stretch apart from it reads as before |
| `FileRuns.Run` | os/kernel/src/filesystem/fat/fat.c:526-934 | over every run of create, mkdir, delete, rmdir, rename and write, by paths from the root: each operation that refuses, and each that goes on and keeps the invariant, does what it says, the others are not carried out, and the whole invariant holds after each |
| `RunAnswers.MadeInRun` | os/kernel/src/filesystem/fat/fat.c:526-611 | in every step of a run, a creation that finds the name unused, and room, is carried out and adds exactly that name |
| `RunAnswers.RemovedInRun` | os/kernel/src/filesystem/fat/fat.c:613-658 | a deletion that finds a file as a file, or a directory without names as a directory, is carried out and takes away exactly that name and its node |
| `RunAnswers.MovedInRun` | os/kernel/src/filesystem/fat/fat.c:670-708 | a renaming that finds the name, and the new one unused, is carried out: the new name leads to the same node |
| `RunAnswers.StoredInRun` | os/kernel/src/filesystem/fat/fat.c:846-934 | a write to a regular file that is inside it, or for which there are clusters, is carried out: the data are overlaid |
| `FileRuns.FormattedInOrder` | os/kernel/src/filesystem/fat/fat.c:38-99 | a formatted volume, with the reserved entries in use and an empty root directory, satisfies the invariant |
| `FileRuns.Session` | os/kernel/src/filesystem/fat/fat.c:38-934 | a formatted disk mounted, any operations run, and the disk mounted again: every state on the way is in order, and the second mount finds exactly what the run left |
| `RunAnswers.FirstIsMade` | os/kernel/src/filesystem/fat/fat.c:526-611 | on a formatted volume, whatever legal name of at most ten characters is created first is created, and is the only name in the root |
| `RunAnswers.FirstSession` | os/kernel/src/filesystem/fat/fat.c:38-611 | a formatted disk mounted, a name made in its root and the disk mounted again: there it is, alone |
| `Mounting.FatInit` | os/kernel/src/filesystem/fat/fat.c:38-99 | mounts exactly a disk that ends its first sector in 55 AA; the table is the words of the first FAT copy, behind the reserved sectors, and the clusters, the root directory first, begin behind the last copy |
| `Mounting.MountedLayout` | os/kernel/src/filesystem/fat/fat.c:51-63 | by the bytes of the image: where the numbers parsed put table and clusters, entry by entry and cluster by cluster, and the copies of the FAT fit in between |
| `Mounting.Remount` | os/kernel/src/filesystem/fat/fat.c:38-99 | mounting again after any operations gives the same geometry, table and clusters |
| `RoundTrips.CreateThenDelete` | os/kernel/src/filesystem/fat/fat.c:526-658 | the two calls, one after the other on the same path: whatever the first made, the second is not refused and takes away again; the free entries, names, counts and bytes are those there were before, except that a parent that was full keeps its new cluster |
| `RoundTrips.DeleteRestoresFree` | os/kernel/src/filesystem/fat/fat.c:526-658 | creating and deleting again leaves the same entries free, but for those the parent's chain got |
| `RoundTrips.DeleteRestoresContent` | os/kernel/src/filesystem/fat/fat.c:526-658 | and every directory maps the same names to the same entries, every other node has the same bytes, the counted size included |
| `RoundTrips.MadeIsFound` | os/kernel/src/filesystem/fat/fat.c:526-658 | once a node is made, its path leads to it, and deleting it is not refused |
| `DotSlots.DotMiscounts` | os/kernel/src/filesystem/fat/fat.c:526-608 | an input for every directory but the root: creating a new name through its path with "." or ".." behind it is not refused, and the count goes wrong unless the creation is undone |
| `DotSlots.DotSlotReachesTwo` | os/kernel/src/filesystem/fat/fat.c:526-658 | a run: after mkdir /d and creating /d/../x and /d/../y everything is in order, but deleting /d/.. is not refused and leaves nothing in order |
| `LoaderWriter.WordSetOn` | fs_loader/fat_loader.c:1005-1027 | the read-modify-write of a FAT sector sets one entry of one copy and changes no other copy, cluster or boot sector |
| `LoaderWriter.LinkEverywhere` | fs_loader/fat_loader.c:1117-1165 | links a cluster behind the last in RAM and in every copy |
| `LoaderWriter.FirstCluster` | fs_loader/fat_loader.c:992-1028 | a file without a cluster gets the first free one, marked as an end in RAM and in every copy |
| `LoaderWriter.CopyOut` | fs_loader/fat_loader.c:1074-1178 | writes a prefix of the buffer over the chain, extended as needed by free clusters in order |
| `LoaderWriter.Write` | fs_loader/fat_loader.c:975-1195 | -1 exactly for a directory or without a first cluster, else the length of the prefix written, which is all there is room for; if it ended behind the old size, the entry of the name, and no other slot, has the new size and the first cluster, and reading by it gives the prefix; every copy is left equal to RAM where that changed |
| `LoaderWriter.LoadedEntry` | fs_loader/fat_loader.c:1180-1190 | after a write behind the old size the directory has, under the same name in the same slot, the new size and the first cluster, every other slot is as it was, and the file read through that entry has the prefix at the offset |
| `LoaderWriter.LoaderAnswers` | fs_loader/fat_loader.c:975-1195 | -1 exactly for a directory or when no first cluster is free, and then nothing is changed; else the whole buffer, or what chain and free clusters have room for |
| `LoaderWriter.FirstClusterLost` | fs_loader/fat_loader.c:988-1028 | a file without a cluster, written within its size: a cluster is taken and no entry says so |
| `LoaderWriter.LoadedWhole` | fs_loader/fat_loader.c:1111-1122 | the whole buffer is written exactly if the chain and the free clusters together have room |
| `LoaderWriter.LoadedKeeps` | fs_loader/fat_loader.c:1074-1178 | every other chain keeps its clusters and bytes |
| `LoaderWriter.LoadedReads` | fs_loader/fat_loader.c:1074-1178 | the file reads as before but for exactly the prefix written |
| `LoaderWriter.CopiesAgree` | fs_loader/fat_loader.c:1128-1165 | an entry changed in RAM has the same value in every copy, and every copy is otherwise as it was |
| `ProcessManager.Manager.AddToList` | os/kernel/src/process/manager/process_manager.c:23-41 | appends the node, and the list is well linked both ways |
| `ProcessManager.Manager.RemoveFromList` | os/kernel/src/process/manager/process_manager.c:69-90 | takes one node out of a well linked list, order and links kept |
| `ProcessManager.Manager.WakeUpWaitingProcesses` | os/kernel/src/process/manager/process_manager.c:321-343 | the loop visits every process exactly once and wakes exactly those waiting for the pid |
| `ProcessManager.Manager.WakeUpTerminalProcesses` | os/kernel/src/process/manager/process_manager.c:300-319 | the loop visits every process exactly once and wakes exactly the blocked ones of the terminal |
| `ProcessManager.Manager.SwitchProcess` | os/kernel/src/process/manager/process_manager.c:346-379 | terminates and makes the nearest ready process the running one |
| `ProcessManager.Manager.CreateProcess` | os/kernel/src/process/manager/process_manager.c:93-187 | the child is ready at the end of the list and the current process waits for its pid, or nothing but a pid is used up |
| `ProcessManager.Manager.ExitProc` | os/kernel/src/process/manager/process_manager.c:253-280 | wakes the waiters, hands over to the next in the list and removes the process |
| `ProcessTable.StepKeeps` | os/kernel/src/process/manager/process_manager.c:93-379 | every step keeps: pids ascend along the list, only the current process is running, a waiting one waits for a live younger one, no one is blocked while input is ready |
| `ProcessTable.BootIsSpawned` | os/kernel/src/kernel.c:61-62 | the state after creating the idle process and the first program is in order |
| `ProcessTable.NobodyBlockedOnReadyInput` | os/kernel/src/terminal/terminal_manager.c:76-94 | in every state of every run, nobody is blocked while a line is ready |
| `ProcessTable.PollTakes` | os/kernel/src/terminal/terminal_manager.c:76-94 | in every run, a poll takes a line if and only if a newline has come since the last poll |
| `ProcessTable.ReaderBlocks` | os/kernel/src/terminal/terminal_manager.c:76-94 | a reader that finds no line stays blocked, and no switch goes to it, until a newline comes |
| `ProcessTable.ReaderIsServed` | os/kernel/src/drivers/keyboard/keyboard.c:188-192 | a reader blocked when a newline comes is ready then and current within the bound below, and every poll from then on takes the line, unless an earlier one has |
| `ProcessTable.ParentWaits` | os/kernel/src/process/manager/process_manager.c:93-280 | who creates a process waits, and no switch goes to it, until the child exits, and then it is ready |
| `ProcessTable.WaitEnd` | os/kernel/src/process/manager/process_manager.c:176-184 | following who waits for whom ends at a live process that waits for nobody |
| `ProcessTable.ExitWakesWaiters` | os/kernel/src/process/manager/process_manager.c:253-280 | an exit wakes exactly the processes waiting for it, and nobody waits for it afterwards |
| `ProcessTable.IdleIsReady` | terminal/dummy/dummy.asm:4-5 | the idle process is always fit to be switched to, so the scan for a ready process ends |
| `ProcessTable.SwitchFindsSomeone` | os/kernel/src/process/manager/process_manager.c:362-374 | from every state in order there is a state to switch to |
| `ProcessTable.SwitchIsDetermined` | os/kernel/src/process/manager/process_manager.c:362-374 | the state after a switch is determined by the state before |
| `ProcessTable.DispatchedInTime` | os/kernel/src/process/manager/process_manager.c:253-379 | a ready process d steps ahead becomes current within d dispatches, plus one for every process created meanwhile |
| `TerminalInput.Terminal.KeyPress` | os/kernel/src/drivers/keyboard/keyboard.c:159-195 | edits the line, and on newline, and on no other key, makes it ready and wakes the readers |
| `TerminalInput.Terminal.ReadTurn` | os/kernel/src/terminal/terminal_manager.c:76-94 | takes a ready line, cut to the size asked for, and empties the buffer, or blocks the reader |
| `TerminalInput.TypeAndRead` | os/kernel/src/drivers/keyboard/keyboard.c:159-195 | keys, a newline and a read: the line is taken, and the reader gets what was typed, as far as it has room |
| `TerminalInput.TypeThenErase` | os/kernel/src/drivers/keyboard/keyboard.c:163-186 | as many backspaces as characters typed restore the line there was before |
| `HeapBlocks.LiveDisjoint` | os/kernel/src/memory/heap/heap.c:38-102 | payloads handed out are 4-byte aligned, inside the heap and disjoint, each at least as large as asked |
| `HeapBlocks.PagesTiles` | os/kernel/src/memory/heap/heap.c:166-210 | after `kmalloc_pages` the list tiles the heap if and only if the unstored next field of the sentinel reads NULL |
| `HeapBlocks.PagesAccounted` | os/kernel/src/memory/heap/heap.c:166-210 | the block handed out is exactly the page-aligned pages, and every payload handed out before is kept |
| `HeapBlocks.PagesOnFreshHeap` | os/kernel/src/memory/heap/heap.c:194-199 | with a single free block the list left behind is no well-formed list from the heap's start |
| `HeapBlocks.PagesWellFormed` | os/kernel/src/memory/heap/heap.c:166-210 | after `kmalloc_pages` some list of blocks tiles the heap if and only if there was a block before the last free one and the unstored field reads NULL |
| `KernelHeap.Heap.HeapInit` | os/kernel/src/memory/heap/heap.c:18-36 | one free block that fills the first page, closed by the sentinel, exactly if that page can be had |
| `KernelHeap.Heap.Kmalloc` | os/kernel/src/memory/heap/heap.c:38-102 | terminates; the block handed out is the first that fits, with too little to spare for another block; if none fits the heap grows page by page until one does, and no further; NULL, for a size in range, only if no block fits and the next page is refused or the heap has reached its end; all blocks still tile the heap with prev inverse to next |
| `KernelHeap.Heap.KmallocPages` | os/kernel/src/memory/heap/heap.c:166-210 | NULL exactly if no page is asked for, or one of the pages lies behind the end of the heap or is refused, and then nothing is changed; else hands out exactly the whole pages where the heap ended, in place of a free last block if there is one; the heap is left in order exactly under the condition above, and then all earlier payloads are kept |
| `SimplifyPath.Simplify` | os/kernel/src/process/syscalls/handlers/dir/dir.c:282-465 | the buffer, whose length was computed beforehand, is filled exactly with the simplified path and a NUL |
| `SimplifyPath.CutPath` | os/kernel/src/process/syscalls/handlers/dir/dir.c:293-335 | cuts the path into its non-empty segments, with an empty one first if the path is empty or absolute |
| `PathMeaning.SimplifyKeepsLocation` | os/kernel/src/process/syscalls/handlers/dir/dir.c:282-465 | from every working directory the simplified path leads where the path did |
| `PathMeaning.SimplifiedRelative` | os/kernel/src/process/syscalls/handlers/dir/dir.c:357-382 | a relative path becomes a dot, or some ".." followed by names only |
| `PathMeaning.SimplifiedAbsolute` | os/kernel/src/process/syscalls/handlers/dir/dir.c:350-356 | an absolute path becomes the names it leads through, behind two slashes, or one if it climbed over the root or leads to it |
| `PathMeaning.RelativeIdempotent` | os/kernel/src/process/syscalls/handlers/dir/dir.c:282-465 | simplifying a relative path twice is simplifying it once |
| `PathMeaning.AbsoluteIdempotent` | os/kernel/src/process/syscalls/handlers/dir/dir.c:293-297 | for an absolute path that holds if and only if it never climbs over the root or leads to it |
| `PathMeaning.AbsoluteNotIdempotent` | os/kernel/src/process/syscalls/handlers/dir/dir.c:293-297 | an input for which it fails |
| `OpenFiles.Descriptors.GetOpenedFd` | os/kernel/src/filesystem/vfs/file.c:16-29 | the first slot in use for the path, or -1 |
| `OpenFiles.Descriptors.AllocateGlobalFd` | os/kernel/src/filesystem/vfs/file.c:31-47 | the first slot not in use gets the path and a count of 1, and is still not in use |
| `OpenFiles.Descriptors.Open` | os/kernel/src/process/syscalls/handlers/file/file.c:9-114 | which answer has which cause; a successful open points the first free descriptor at the one slot of the path and counts it, and the first read or write begins at the end of the file with `O_APPEND` and else at its start; a failed one uses no descriptor; the invariant is kept either way, and exact counts stay exact unless a file open already is opened exclusively |
| `OpenFiles.RefusalAnswers` | os/kernel/src/process/syscalls/handlers/file/file.c:30-86 | in terms of what is open as what and what the file system has: when each code is the answer, and when the open succeeds |
| `OpenFiles.Descriptors.Close` | os/kernel/src/process/syscalls/handlers/file/file.c:117-144 | one live descriptor fewer, and the slot is cleared only if none is left; counts are exact afterwards exactly if they were before |
| `OpenFiles.ExclusiveOpenLeaks` | os/kernel/src/process/syscalls/handlers/file/file.c:71-85 | an input: a failed exclusive open of an open file leaves a count that no close takes back |
| `OpenFiles.FailedExact` | os/kernel/src/process/syscalls/handlers/file/file.c:71-85 | a failed open keeps exact counts exact if and only if it is not an exclusive open of a file, not a device, that is open already |
| `OpenFiles.DoneExact` | os/kernel/src/process/syscalls/handlers/file/file.c:30-111 | a successful open leaves exactly those counts exact that were |
| `DescriptorTables.OpenExact` | os/kernel/src/process/syscalls/handlers/file/file.c:30-111 | one more live descriptor and one more count leave every slot exact or not as it was |
| `DescriptorTables.CloseExact` | os/kernel/src/process/syscalls/handlers/file/file.c:133-142 | so do one fewer of each, and clearing the slot at zero |
| `DescriptorTables.ExitExact` | os/kernel/src/process/manager/process_manager.c:253-280 | the exit of a process keeps exact counts exact if and only if it has no counted file open |
| `OpenFiles.Descriptors.Enter` | os/kernel/src/process/manager/process_manager.c:56-67 | a new process has the three descriptors of its terminal and no other, and no count changes |
| `OpenFiles.Descriptors.AllocateDeviceFd` | os/kernel/src/filesystem/vfs/file.c:49-64 | a device takes the first slot not in use, and no count of a file changes |
| `DescriptorTables.CloseKeeps` | os/kernel/src/process/syscalls/handlers/file/file.c:133-142 | closing keeps: counts at least the live descriptors, no live one on a cleared slot, no path open twice |
| `DescriptorTables.OpenKeeps` | os/kernel/src/process/syscalls/handlers/file/file.c:31-79 | so does opening |
| `DescriptorTables.ExitKeeps` | os/kernel/src/process/manager/process_manager.c:253-280 | so does a process that exits without closing |

## Left out

- The shrinking branch of `fat_truncate` (`fat.c:945-960`), which frees from the head of the chain and does not write the table back.
- `fat_get_dir_entry`, the loader's `fat_create` and its copies of the chain and directory code, which differ from the kernel's in nothing that matters here.
- Second and further FAT copies in the kernel, which writes the first one only.
- The stretch of the loader's writer that extends the chain on the way to an offset behind its end (`fat_loader.c:1033-1072`): offsets lie inside the chain.
- LoaderWriter.Write: says nothing of the tree of directories, only of chains, because the loader's `fat_create` miscounts the parent.
- FileRuns.Apply: an operation that would create in a full table, or go on inside the bytes of a regular file, is skipped: what the code does there with an index or a cluster that is none is not modelled. So is one after which the invariant does not hold, and every deletion behind a slash that is not refused, even where it would do no harm.
- FileRuns.Run: writes behind a slash, where `fat_get_file_data` would take the file itself for the directory it updates the entry in.
- FileOps.Create: a new name of eleven characters, for the reason given above, and a parent found inside a regular file.
- FileRemoval.Delete: behind a slash, the empty slot found must point into the table; the bytes of a file can point the code behind it. Like creating, it requires a base name of at most eleven characters, and it and FileRenaming.Rename behind a slash require that what the path leads to is not found inside a file.
- FatVolume.Volume.Write: requires that offset + size stays below 2^32, and so does FatVolume.Volume.Read; the code does not check it.
- `kfree` and `free_block`: merging leaves the `prev` of the following block pointing at the absorbed header. Payloads once handed out stay handed out in the model of the heap.
- The physical page bitmap and the page tables; getting a page is an oracle that may refuse.
- ELF loading, registers and stacks of a process, jumping to it, and freeing its node; pids do not wrap around.
- The exit of the last process in the list; the idle process never exits.
- Paths with empty components, for which `fat_find_dir_entry` finds an empty slot, and creating, deleting and renaming by paths with a tilde before the first slash, which only looking up takes.
- Switching between terminals, and the key tables with their modifier flags: a key is what it means plain and the character shown.
- TerminalInput.Terminal.EditLine: requires room in the line buffer, which the code does not check.
- `join_path`, truncation of paths at 255 characters, and running out of memory in `simplify_path`; the capacity arithmetic of its two arrays, which grow as sequences here, and `strcpy` has its ISO C meaning.
- Local descriptors from 128 up: `fd_table` has 128 entries (`process_manager.h:8`, `process_manager.h:50`), while `_open` and `_close` go up to 256 and would read behind it.
- Closing the terminal's device descriptors, which processes share without counting them; tables without a free descriptor; truncation on open.
- Disk, interrupt controller, timer and screen drivers, time stamps and volume attributes, and the shell.
