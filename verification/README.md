# vibe-os: the filesystem, the heaps, paging, the kernel lock and the editor in Dafny

A model of the parts of vibe-os that carry its state, with proofs about every run
of them. `dafny verify dfyconfig.toml` checks the whole project.

The code is mostly imperative C and Python, so most operations appear twice: as a
function on values (`CreateIn`, `TakeAt`, `Insert`) and as a method of a class that
updates its fields in loops and is proved equal to that function. The theorems are
about the functions, and so hold of the methods.

## The ext2 filesystem

`Ext2State` holds the state: superblock, both bitmaps, the cached inode table and the
disk, a sequence of 1024-byte blocks. `Ext2Disk` is the byte format of superblock,
inodes and bitmaps. Two invariants carry everything.

* Ownership (`Ext2Ownership`). Every pointer an inode slot holds, direct or through
  a table, names a block in the data area, marked used, held by no other slot. The
  slots of freed inodes count too, because `ext2_unlink` releases only the twelve
  direct pointers and `ext2_create` does not clear the other three: a stale table
  stays owned. Both free counters equal the number of clear bits.
* The tree (`Ext2Tree`). Directory records tile their blocks, names are distinct,
  every entry names a live inode, no inode has two entries, `.` and `..` are right,
  and files have no holes. An inode may have no entry: a refused unlink leaves one.

`Ext2Runs` runs arbitrary sequences of create, mkdir, write, truncate, unlink and
remount and shows that all of this survives, and that the contents of a file are
what a replay of its own writes gives. `Ext2Room` says exactly when create and mkdir
succeed, `Ext2Ledger` what every operation does to the bitmaps, the counters and the
records, `Ext2Places` where its entries lie and of what type they are. `Ext2Tight` shows that over every
run the marked blocks are exactly the metadata and the blocks some inode holds: the
kernel loses none. `Ext2Format` shows that a formatted disk
satisfies every invariant, so the preconditions used throughout are met by every
disk the kernel makes. `Ext2Kernel` is the imperative code.

The host tools work on the same image without the kernel's code. `Ext2HostDir` shows
that the two directory insertions write the same bytes, `Ext2HostPut` that `ext2_put.py`
succeeds exactly when it has what it needs and then leaves a good filesystem,
`Ext2HostFail` and `Ext2HostCut` what it leaves when it gives up, `Ext2HostWitness` runs
that get to where this does harm, and `Ext2Interop` that the kernel reads back what the
host installed, over runs that use both in any order. `Ext2Fsck` is
`ext2_fsck.py`: its reachability walk, its findings and its repair. `Ext2Repair` says
when a repaired image is again a filesystem the kernel can work on, `Ext2Clean` on
which images the check finds nothing and which kernel operations end that, and
`Ext2HostTight` when the host tool loses blocks.

## The heaps

`BlockLists`, and `HeapBlocks` and `KernelBlocks` on top of it, describe a heap as a
sequence of blocks that tiles its arena with no two free neighbours. `UserHeap` is `umalloc.c`, with headers and
payload bytes at addresses; `KernelHeap` is `alloc.c`. `BootHeaps` picks the memory
region from the multiboot map and carves it into the three kernel heaps.

## Paging, lock, audio, editor

`Paging` builds the tables of a process and walks them as the processor does.
`BigKernelLock` interleaves single memory steps of any number of CPUs. `AudioRing`
interleaves the steps of writer and timer on one ring, and `AudioMixer` is the mixer
over four such rings. `EditorText`, `EditorFile` and `Editor` treat the text editor
as a flat string with a cursor.

## Where the code does not do what is written about it

* `ext2_fs.h` says that unlink of a non-empty directory fails. It returns -2, but the
  entry is already gone (`FailedUnlinkExact`). And it looks at the first block only: a
  directory whose other entries lie in later blocks is removed with result 0, and what
  they named stays allocated without a name (`UnlinkOrphans`). `OrphanWitness` is a run
  from a formatted disk that gets there.
* The last inode number of the table is handed out by the kernel and by the host tool,
  but every later kernel call refuses it: such a file can be neither written nor read,
  such a directory answers no lookup (`CreatedUsable`, `MadeDirUsable`,
  `PutMountRead`). On a formatted disk of 48 blocks it is the first number handed out
  (`LastInodeWitness`).
* Truncating a directory is not refused; it hides all its entries and breaks the tree
  (`TruncateExact`, `TruncatedDirIsBlind`, `TruncatedRoot`).
* `ext2_put.py` speaks of single indirect files; the code also builds the double
  indirect table, and that is what is modelled. It writes blocks as it goes. When it
  runs out of room in the directory the inode is already written, and the image is
  still good exactly when the file has at most one block (`FailedLink`); names of 255
  bytes in a formatted root are enough to get there (`LinkWitness`). When it runs out of
  blocks while overwriting, nothing is written if the data alone does not fit. If only
  the tables do not, which takes more than 12 blocks of data, the new bytes are already
  in the old file's blocks, which the bitmaps still give to the old file: it survives
  exactly if they were the same (`OverwriteCut`). `OverwriteWitness` is a run after which
  the file is lost and its table holds no block numbers any more. And it overwrites
  whatever has the name: a directory becomes a file, and what it held stays allocated
  without a name (`OverwrittenDir`).
* `ext2_fsck.py` gives back blocks that slots of freed inodes still point to and that
  `ext2_create` will use again. `RepairExact` says on which images a repair is safe;
  unlinking one file of 13 blocks is enough to leave that class (`LostTableWitness`).
* The kernel's own use of a formatted disk does not stay clean for the checker: it calls
  the tables of unlinked files leaked and what a removed or refused directory held
  orphaned. `ReachableClean` says that nothing else ever ends a clean run, and
  `UnlinkedFile` shows both sides of it with files of 12 and of 13 blocks. When
  `ext2_put.py` reuses the number of such a file the tables are lost for good
  (`HostTight`).
* The auxiliary heaps round sizes with a 32-bit mask, so requests above 2^32 - 8
  are truncated (`RoundNarrowEnough`).
* `umalloc` of more than 2^64 - 4128 bytes: up to 2^64 - 48 it asks SBRK for nothing and
  writes a header at the break, and then either never returns or hands out memory past
  the break (`SilentGrowth`); up to 2^64 - 16 it grows the heap until SBRK refuses,
  and above that it hands out a block of any size (`LargeRequest`, `Heap.Umalloc`).
* The editor loses one trailing empty line on save and load (`RoundTripExact`). Opening
  a file and saving it unedited keeps it exactly when it has no carriage return, no
  newline at the end, at most 255 lines and no line over 159 characters
  (`OpenSaveExact`).
* Boot falls back to a fixed layout, whatever is there, when the memory map entry with
  the largest offer runs past 2^64, even if other entries are good
  (`WrapForcesFallback`). A region in the last 2 MB below 2^64 puts the main heap at
  address zero (`LastPagePlaced`).
* A user stack whose size and top are not page multiples can lose its last page: the
  pages are counted from the size alone (`StackWhole`, `StackCut`).
* A framebuffer above 512 GB can displace the identity mapping of low memory
  (`RemapIdentity`, `RemapAt512`).

## Model

| member | source | states |
|---|---|---|
| Ext2State.AllocBlockCounts | kernel/src/ext2_fs.c:50-68 | allocating the lowest free block keeps `free_blocks` equal to the number of clear bits |
| Ext2State.FreeBlockCounts | kernel/src/ext2_fs.c:70-75 | the unconditional increment keeps the counter exact if and only if the bit was set (or the number is out of range) |
| Ext2State.AllocInodeCounts | kernel/src/ext2_fs.c:77-95 | the same for `free_inodes` on allocation |
| Ext2State.FreeInodeCounts | kernel/src/ext2_fs.c:97-103 | the same, if and only if, for freeing an inode |
| Ext2Disk.InodeRoundTrip | kernel/src/ext2_fs.c:105-133 | an inode written to its 256 bytes and read back is the same inode |
| Ext2Disk.SuperRoundTrip | kernel/src/ext2_fs.c:135-146 | a superblock written and read back is the same superblock |
| Ext2Disk.BitmapRoundTrip | kernel/src/ext2_fs.c:148-176 | bit `i` of a packed bitmap on disk is bit `i` of the bitmap in memory |
| Ext2Ownership.GainsKeepsInv | kernel/src/ext2_fs.c:50-68 | giving one free block to one empty slot keeps every owned block in range, marked and owned once |
| Ext2Bmap.BmapAllocFills | kernel/src/ext2_fs.c:1060-1115 | mapping a block, with up to two tables on the way, keeps the ownership invariant, fills exactly the wanted data slot and moves no other data |
| Ext2File.LoopStored | kernel/src/ext2_fs.c:1138-1163 | the write loop stores exactly the accepted bytes, leaves every other allocated byte of the file and every other inode alone |
| Ext2File.WriteRefines | kernel/src/ext2_fs.c:1127-1173 | for offset at most size: the file becomes the old bytes overlaid with the accepted prefix of the data, no other inode changes, and a short count means the disk is full or the file at its limit |
| Ext2DirBlock.InsertOk | kernel/src/ext2_fs.c:620-660 | in a well-formed block the walk adds exactly the new entry, records still tile the block, every other lookup is unchanged |
| Ext2DirBlock.RemoveOk | kernel/src/ext2_fs.c:772-796 | merging or zeroing removes exactly the named entry, records still tile the block, every other lookup is unchanged |
| Ext2DirBlock.CountIsNames | kernel/src/ext2_fs.c:808-818 | the record count of the emptiness test is the number of names in the block |
| Ext2Dir.FindEntryIsEntry | kernel/src/ext2_fs.c:549-587 | lookup with its double bound is the abstract lookup on every well-formed directory |
| Ext2Dir.AddFromOk | kernel/src/ext2_fs.c:607-683 | adding an absent name binds exactly it, in an existing block or in one new block; failure changes nothing |
| Ext2Dir.RemoveFromOk | kernel/src/ext2_fs.c:772-796 | the removal loop unbinds exactly the name and reports the inode it had |
| Ext2Dir.DirMapEntry | kernel/src/ext2_fs.c:549-587 | the finite map of a directory has exactly the names lookup finds, with the same inodes |
| Ext2Room.NextBlockExact | kernel/src/ext2_fs.c:50-68 | allocation fails if and only if no block of the data area is free |
| Ext2Room.InsertExact | kernel/src/ext2_fs.c:625-660 | the walk finds room if and only if some record has a gap for the name |
| Ext2Room.AddExact | kernel/src/ext2_fs.c:607-683 | adding an entry succeeds if and only if some block has a gap, or a direct pointer and a block are free |
| Ext2Room.WriteUses | kernel/src/ext2_fs.c:1060-1163 | a write takes at most three blocks for every block it touches |
| Ext2Names.CreateOk | kernel/src/ext2_fs.c:685-738 | on success one new empty live file is bound to the name; every inode but it and the parent is untouched; on failure every live inode is untouched |
| Ext2Names.MkdirOk | kernel/src/ext2_fs.c:845-947 | the same for directories, with `.` and `..` in place |
| Ext2Room.CreateExact | kernel/src/ext2_fs.c:685-738 | create succeeds if and only if the parent is a usable directory without the name, an inode is free and the entry fits |
| Ext2Room.MkdirExact | kernel/src/ext2_fs.c:845-947 | mkdir succeeds if and only if, besides, a block is free for the directory and the entry fits with what is left |
| Ext2Names.UnlinkOk | kernel/src/ext2_fs.c:740-843 | the name is gone whenever it was there; with result 0 the inode is freed too; nothing else is touched; what is freed is UnlinkFrees |
| Ext2Ledger.FreeDirectsExact | kernel/src/ext2_fs.c:826-831 | the loop clears exactly the bits of the nonzero direct pointers and raises the counter by their number |
| Ext2Ledger.UnlinkFrees | kernel/src/ext2_fs.c:740-843 | with result 0 exactly the direct blocks of the inode and the inode itself become free, both counters follow, and its record is emptied but for the table pointers; with any other result no bit, counter or record changes |
| Ext2Ledger.CreateLedger | kernel/src/ext2_fs.c:685-738 | create takes the lowest inode number, and one block for the directory exactly if no gap fits the name; the new record is empty with the given mode, no inode gets or loses a table, and a failed create changes no map |
| Ext2Ledger.MkdirLedger | kernel/src/ext2_fs.c:845-947 | the same for mkdir, whose directory gets the lowest free block |
| Ext2Ledger.WritePays | kernel/src/ext2_fs.c:1060-1173 | a write adds two sectors to `blocks` for every block it takes, tables included, and leaves type, owner and links alone |
| Ext2Ledger.ShortWrite | kernel/src/ext2_fs.c:1060-1173 | a write within the first twelve blocks makes no table |
| Ext2Ledger.TruncateLedger | kernel/src/ext2_fs.c:1117-1125 | truncate changes one size; no block becomes free and none changes hands |
| Ext2Places.CreateTyped | kernel/src/ext2_fs.c:607-683 | the entry of a created file has type 1 |
| Ext2Places.MkdirTyped | kernel/src/ext2_fs.c:607-683 | the entry of a made directory has type 2 |
| Ext2Places.ReachableRefusal | kernel/src/ext2_fs.c:804-823 | after any run from a formatted disk, unlink refuses a directory if and only if its first block has an entry other than the dots |
| Ext2Tree.WriteKeepsInv | kernel/src/ext2_fs.c:1127-1173 | writes keep the whole invariant: ownership, counters, directories, at most one entry per inode, dots, hole-free files |
| Ext2Tree.TruncateKeepsInv | kernel/src/ext2_fs.c:1117-1125 | truncating a file keeps the whole invariant |
| Ext2Outcomes.CreateMap | kernel/src/ext2_fs.c:685-738 | create adds one key to one directory map and changes no other directory map |
| Ext2Outcomes.UnlinkMap | kernel/src/ext2_fs.c:740-843 | unlink deletes one key from one directory map, whatever it returns |
| Ext2Outcomes.UnlinkRefusal | kernel/src/ext2_fs.c:804-823 | -2 is returned exactly for directories whose first block holds more than two names; files and empty directories are always removed |
| Ext2Outcomes.FailedUnlinkExact | kernel/src/ext2_fs.c:783-822 | unlink fails exactly for absent names and refused directories, and leaves the directory map unchanged if and only if the name was absent: a refused directory has already lost its entry |
| Ext2Outcomes.UnlinkOrphans | kernel/src/ext2_fs.c:804-840 | a directory with an entry is removed if and only if its first block holds only the dots; what the entry named then stays live and no directory names it |
| Ext2Orphans.OrphanWitness | kernel/src/ext2_fs.c:804-840 | a run from a formatted disk that ends so |
| Ext2Outcomes.TruncatedDirIsBlind | kernel/src/ext2_fs.c:1117-1125 | truncating a directory, which the code does not refuse, keeps its records but makes every lookup in it fail |
| Ext2Outcomes.TruncateExact | kernel/src/ext2_fs.c:1117-1125 | truncating keeps the invariants if and only if the inode is a file, or the last number, which is rejected |
| Ext2Orphans.TruncatedRoot | kernel/src/ext2_fs.c:1117-1125 | truncating the root of a formatted disk breaks the invariants |
| Ext2Outcomes.WriteAnywhere | kernel/src/ext2_fs.c:1127-1173 | at any offset: size, accepted bytes, and every old byte that had a block |
| Ext2Outcomes.CreatedUsable | kernel/src/ext2_fs.c:1127-1134 | a created file can be written if and only if its number is not the last of the table |
| Ext2Outcomes.MadeDirUsable | kernel/src/ext2_fs.c:549-556 | a made directory answers lookups if and only if its number is not the last |
| Ext2Outcomes.EmptyWriteExact | kernel/src/ext2_fs.c:1127-1173 | a write of no bytes keeps the contents if and only if its offset is at most the size: a larger offset still moves the size |
| Ext2Persist.WriteSyncs | kernel/src/ext2_fs.c:1165-1170 | after a write the disk again holds superblock, bitmaps and every live inode |
| Ext2Persist.TruncateSyncs | kernel/src/ext2_fs.c:1117-1125 | the same after truncate |
| Ext2Persist.CreateSyncs | kernel/src/ext2_fs.c:730-732 | the same after create, successful or not |
| Ext2Persist.MkdirSyncs | kernel/src/ext2_fs.c:936-944 | the same after mkdir, successful or not |
| Ext2Persist.UnlinkSyncs | kernel/src/ext2_fs.c:835-840 | the same after unlink, whatever it returns |
| Ext2Persist.MountRecovers | kernel/src/ext2_fs.c:405-528 | mounting such a disk gives back the counts, both bitmaps and every live inode |
| Ext2Persist.MountKeepsInv | kernel/src/ext2_fs.c:405-528 | the mounted filesystem satisfies all invariants with every live inode untouched |
| Ext2Runs.ResolveLive | kernel/src/ext2_fs.c:589-605 | path resolution ends at a live inode or reports nothing |
| Ext2Runs.ResolveSnoc | kernel/src/ext2_fs.c:589-605 | a path with one more component is looked up in the directory the path before names, and is nothing if that is no usable directory |
| Ext2Runs.ResolveIs | kernel/src/ext2_fs.c:589-605 | a path names an inode if and only if a chain of entries leads there from the root, one component at a time |
| Ext2Runs.ExecGood | kernel/src/ext2_fs.c:685-947 | every allowed operation, failures included, keeps ownership, tree and persistence |
| Ext2Runs.RunGood | kernel/src/ext2_fs.c:50-1173 | in every state of every run no block is owned twice, owned blocks are marked and in the data area, both counters are exact |
| Ext2Runs.RunContent | kernel/src/ext2_fs.c:1127-1173 | the contents of a file over a whole run are the replay of just the writes and truncates addressed to it |
| Ext2Tight.ExecTight | kernel/src/ext2_fs.c:685-947 | if the marked blocks are exactly the metadata and the blocks some slot holds, they are so after every operation, failures included |
| Ext2Tight.ExecLost | kernel/src/ext2_fs.c:685-947 | on any good state: no operation loses a block, and none wins back a lost one |
| Ext2Tight.ReachableTight | kernel/src/ext2_fs.c:50-1173 | after any run from a formatted disk a block is marked if and only if it is metadata or some slot of some inode holds it |
| Ext2Format.FormatGood | kernel/src/ext2_fs.c:178-286 | a formatted disk satisfies every invariant |
| Ext2Format.ReachableGood | kernel/src/ext2_fs.c:178-286 | every run from a formatted disk stays good |
| Ext2Padding.ReachablePads | kernel/src/ext2_fs.c:50-103 | no operation ever sets one of the bits that pad a bitmap to whole bytes |
| Ext2Kernel.ReadIsSlice | kernel/src/ext2_fs.c:949-1036 | what `ext2_read` returns on a hole-free file is exactly the requested slice of its contents |
| Ext2Kernel.NoHolesReadSafe | kernel/src/ext2_fs.c:975-1010 | hole-free files meet the condition under which the cached tables are read correctly |
| Ext2Kernel.Filesystem.constructor | kernel/src/ext2_fs.c:333-528 | mount: the object equals the specified mounted state |
| Ext2Kernel.Filesystem.AllocBlock | kernel/src/ext2_fs.c:50-68 | the scan returns the lowest free block and marks it |
| Ext2Kernel.Filesystem.FreeBlock | kernel/src/ext2_fs.c:70-75 | refines the specified free |
| Ext2Kernel.Filesystem.AllocInode | kernel/src/ext2_fs.c:77-95 | the scan returns the lowest free inode above the reserved ones |
| Ext2Kernel.Filesystem.FreeInode | kernel/src/ext2_fs.c:97-103 | refines the specified free |
| Ext2Kernel.Filesystem.WriteInode | kernel/src/ext2_fs.c:105-133 | writes one inode through into its quarter of a block |
| Ext2Kernel.Filesystem.WriteSuperblock | kernel/src/ext2_fs.c:135-146 | writes the superblock through |
| Ext2Kernel.Filesystem.WriteBitmaps | kernel/src/ext2_fs.c:148-176 | writes both bitmaps through, block by block |
| Ext2Kernel.Filesystem.BmapAlloc | kernel/src/ext2_fs.c:1060-1115 | the three-range mapping code refines the specified mapping |
| Ext2Kernel.Filesystem.WriteData | kernel/src/ext2_fs.c:1138-1163 | the write loop refines the specified loop |
| Ext2Kernel.Filesystem.Write | kernel/src/ext2_fs.c:1127-1173 | refines the specified write, return value included |
| Ext2Kernel.Filesystem.ReadMap | kernel/src/ext2_fs.c:975-1010 | the cached L1/L2 tables give the same block as a fresh walk |
| Ext2Kernel.Filesystem.Read | kernel/src/ext2_fs.c:949-1036 | the bytes of the file up to the first hole, zeros after it, and the count |
| Ext2Kernel.Filesystem.FindEntryInDir | kernel/src/ext2_fs.c:549-587 | refines the specified lookup |
| Ext2Kernel.Filesystem.LookupInode | kernel/src/ext2_fs.c:589-605 | refines the specified path resolution |
| Ext2Kernel.Filesystem.AddEntryToDir | kernel/src/ext2_fs.c:607-683 | refines the specified insertion |
| Ext2Kernel.Filesystem.UnlinkName | kernel/src/ext2_fs.c:740-843 | refines the specified unlink |
| Ext2Kernel.Filesystem.Create | kernel/src/ext2_fs.c:685-738 | refines the specified create |
| Ext2Kernel.Filesystem.MakeDir | kernel/src/ext2_fs.c:845-947 | refines the specified mkdir |
| Ext2Kernel.Filesystem.TruncateInode | kernel/src/ext2_fs.c:1117-1125 | refines the specified truncate |
| Ext2HostDir.HostInsertSame | scripts/ext2_put.py:150-170 | in a well-formed block host and kernel choose the same record and write the same bytes |
| Ext2HostDir.HostFindSame | scripts/ext2_put.py:128-143 | `dir_find` answers what the kernel lookup answers |
| Ext2HostDir.HostExtendSame | scripts/ext2_put.py:171-190 | patching the raw inode and encoding the kernel record give the same disk, with the same lowest free block |
| Ext2HostDir.HostAddSame | scripts/ext2_put.py:145-190 | `dir_add` and `add_entry_to_dir` agree: both give up, or disk and bitmap are identical byte for byte |
| Ext2HostBytes.EncodeDecoded | scripts/ext2_put.py:60-68 | decoding raw inode bytes and encoding them again is the identity |
| Ext2HostBytes.PatchSuper | scripts/ext2_put.py:234-237 | patching two counts in an encoded superblock encodes the superblock with those counts |
| Ext2HostBytes.Recount | scripts/ext2_put.py:225-232 | recounting over whole bytes gives the number of free items if and only if the padding bits are clear |
| Ext2HostFile.RefIsPlaced | scripts/ext2_put.py:279-307 | following direct, single and double indirect pointers through the built tables finds every block where the tool put it |
| Ext2HostInstall.ReserveOk | scripts/ext2_put.py:79-85 | repeated allocation yields distinct free data blocks and marks exactly those |
| Ext2HostInstall.AdoptedOk | scripts/ext2_put.py:274-317 | handing the filled run to the inode keeps the ownership invariant and every other inode |
| Ext2HostInstall.AdoptedContent | scripts/ext2_put.py:274-317 | the contents of the inode are the installed bytes, without holes |
| Ext2HostOk.InstallOk | scripts/ext2_put.py:239-322 | a newly installed file: all kernel invariants and persistence hold, the name is bound, nothing else changes |
| Ext2HostOk.OverwriteOk | scripts/ext2_put.py:264-322 | an overwritten inode, file or directory: the same, its old blocks given back |
| Ext2HostOk.MountedInstall | scripts/ext2_put.py:274-322 | after a mount the kernel has the file with these contents |
| Ext2HostFail.FailedNew | scripts/ext2_put.py:274-307 | giving up while blocks are written for a new file does no harm |
| Ext2HostFail.FailedOverwrite | scripts/ext2_put.py:264-307 | giving up while overwriting leaves all other inodes and both maps as they were; the old inode survives if and only if none of its blocks changed, and then so do the invariants |
| Ext2HostCut.ReserveTakes | scripts/ext2_put.py:79-85 | taking as many blocks as are free takes every free one and no other |
| Ext2HostCut.OverwriteCut | scripts/ext2_put.py:264-307 | running out of blocks while overwriting: if the data alone does not fit nothing is written; otherwise the old inode survives if and only if each of its blocks already held what is written there; the invariants survive with it, and in any case if it was a file without tables; all other inodes survive |
| Ext2HostCut.OwnTaken | scripts/ext2_put.py:264-275 | every block of the overwritten inode is among those taken for the new data |
| Ext2HostCut.CutScribbles | scripts/ext2_put.py:274-307 | what is written by then lies in blocks that were free |
| Ext2HostFail.FailedLink | scripts/ext2_put.py:309-320 | giving up for want of room in the directory leaves all live inodes untouched, and the invariants if and only if the file has at most one block |
| Ext2Host.RefsOwned | scripts/ext2_put.py:96-117 | freeing what an inode refers to clears only bits of blocks that inode owns |
| Ext2Host.Image.AllocBlock | scripts/ext2_put.py:79-85 | the same lowest free block as the kernel |
| Ext2Host.Image.AllocInode | scripts/ext2_put.py:119-125 | the same lowest free inode as the kernel |
| Ext2Host.Image.FreeBlock | scripts/ext2_put.py:87-92 | clears exactly one in-range bit |
| Ext2Host.Image.FreeInodeBlocks | scripts/ext2_put.py:96-117 | clears exactly the bits of everything the inode refers to |
| Ext2Host.Image.DirFind | scripts/ext2_put.py:128-143 | finds what the kernel finds |
| Ext2Host.Image.DirAdd | scripts/ext2_put.py:145-190 | leaves disk and bitmap as the kernel would |
| Ext2HostPut.LayOut | scripts/ext2_put.py:274-307 | succeeds exactly when enough data blocks are free; takes one run of blocks and lays data and tables out on it. If the data alone does not fit the disk is unchanged; if only the tables do not, the run of all free blocks holds the data and the tables begun, except the L1 table, and nothing else changed |
| Ext2HostPut.PatchInode | scripts/ext2_put.py:309-317 | the raw record carries mode, size, link count, sector count and the fifteen pointers |
| Ext2HostPut.FlushMeta | scripts/ext2_put.py:219-237 | with clear padding the flushed disk is the one the kernel write-through would leave |
| Ext2HostPut.Put | scripts/ext2_put.py:239-322 | for every name but the dots: succeeds exactly when the file is within the double indirect limit and there are enough blocks (counting those of what is overwritten), for a new name also an inode and room in the directory; a kernel that mounts the image then finds all invariants, exactly these bytes and all other inodes untouched. After a failure every other live inode is untouched; an inode that was being overwritten survives if and only if the data alone did not fit or was there already; for a new name the invariants hold if and only if the inode was not yet written or the file has at most one block |
| Ext2HostPut.OverwroteOk | scripts/ext2_put.py:264-322 | what a successful overwrite leaves, as a relation between filesystems |
| Ext2HostPut.AddedOk | scripts/ext2_put.py:264-322 | what a successful installation leaves, as a relation between filesystems |
| Ext2HostPut.NewFailsOk | scripts/ext2_put.py:264-320 | what a failed installation under a new name leaves: all live inodes and both maps, and the invariants exactly if no record with two pointers is left in a free slot |
| Ext2HostPut.HostFailsOk | scripts/ext2_put.py:239-322 | what a failed run leaves, as a relation between the filesystem and the disk |
| Ext2HostWitness.LinkWitness | scripts/ext2_put.py:309-320 | a run from a formatted disk of 128 blocks, and a file whose name then finds no room: whatever the failed tool leaves, a mount finds the ownership invariant broken |
| Ext2HostWitness.OverwriteLost | scripts/ext2_put.py:264-307 | overwriting with as many blocks as there are, but none left for the table, puts the new bytes into every block of the old file; a table among them makes the ownership invariant fail |
| Ext2HostWitness.OverwriteWitness | scripts/ext2_put.py:264-307 | a run from a formatted disk of 128 blocks, and data with which a failed overwrite changes the contents of the file and breaks the ownership invariant |
| Ext2Interop.PutMountRead | scripts/ext2_put.py:239-322 | installed by the host, mounted by the kernel: the read succeeds if and only if the inode is not the last of the table, and gives exactly the range asked for |
| Ext2Interop.LastInodeWitness | scripts/ext2_put.py:119-125 | on a formatted disk of 48 blocks tool and kernel both use the last number, and the kernel refuses to write the file |
| Ext2Interop.OverwrittenDir | scripts/ext2_put.py:264-317 | overwriting whatever has the name: every inode with a name keeps one if and only if that was a file or an empty directory; what a directory held stays live without a name |
| Ext2Interop.TraceReady | scripts/ext2_put.py:239-322 | over any mix of kernel operations, host installations and failed host runs that do no harm every state satisfies all invariants |
| Ext2Interop.TraceContent | scripts/ext2_put.py:239-322 | and a file holds the replay of what was written to it from either side |
| Ext2HostTight.HostLost | scripts/ext2_put.py:239-322 | a successful run of the tool loses no block by overwriting; adding a file loses exactly those the new inode number still held |
| Ext2HostTight.HostTight | scripts/ext2_put.py:239-322 | so the bitmap stays exact if and only if the name existed or the number held no table |
| Ext2Fsck.Walk | scripts/ext2_fsck.py:176-218 | the work stack finds exactly the inodes reachable by a path of entries from the root, and the unmarked ones some entry names |
| Ext2Fsck.CollectRefs | scripts/ext2_fsck.py:143-156 | the in-range blocks the given inodes refer to |
| Ext2Fsck.CollectTwice | scripts/ext2_fsck.py:137-163 | the lists of owners: exactly the blocks that two inodes, or one through two pointers, refer to have two entries |
| Ext2Fsck.Check | scripts/ext2_fsck.py:134-226 | computes the findings a repair is meant to remove, which FindingsAre tells block by block, and exactly the double-allocated blocks and the metadata blocks some inode refers to |
| Ext2Fsck.FindingsAre | scripts/ext2_fsck.py:134-226 | leaked are exactly the marked data blocks no marked inode refers to through any slot; under-marked the unmarked ones that are metadata or referred to; orphans the marked inodes from 11 on that no path of entries reaches; unmarked the inodes named in a reachable directory without being marked; a count is wrong if and only if it is not the number of clear bits |
| Ext2Fsck.RepairKeepsTree | scripts/ext2_fsck.py:241-274 | if no reachable inode refers to metadata, a repair changes neither reachability nor what has to be marked |
| Ext2Fsck.RepairClean | scripts/ext2_fsck.py:241-292 | then a check of the repaired image finds no leaked or under-marked block, no unmarked or orphaned inode, no wrong count |
| Ext2Fsck.RepairIdempotent | scripts/ext2_fsck.py:241-274 | and a second repair changes nothing |
| Ext2Fsck.Fsck | scripts/ext2_fsck.py:282-293 | the tool as a whole: check only changes nothing, repair rewrites exactly when something was found and leaves nothing to repair |
| Ext2Repair.ChildrenNamed | scripts/ext2_fsck.py:105-121 | on a good filesystem the entries the walk follows are the ones the kernel looks up |
| Ext2Repair.NothingShared | scripts/ext2_fsck.py:158-163 | on a good filesystem no block is double-allocated and no metadata is referred to |
| Ext2Clean.LeakedHidden | scripts/ext2_fsck.py:166-174 | on a good image with an exact bitmap, leaked are exactly the blocks held by inodes the check does not ask: free ones, number 1, and those without a type |
| Ext2Clean.CheckExact | scripts/ext2_fsck.py:134-226 | on such an image the check finds nothing if and only if no inode it does not ask holds a block and every inode in use from 11 on has a path |
| Ext2Clean.ExecClean | scripts/ext2_fsck.py:134-226 | an image the check passes, after one more kernel operation, passes again if and only if the operation was not an unlink of a file with tables or of a directory with entries |
| Ext2Clean.ReachableClean | scripts/ext2_fsck.py:134-226 | from a formatted disk on, the check passes every image of a run if and only if the run has no such unlink |
| Ext2Clean.UnlinkedFile | scripts/ext2_fsck.py:165-174 | a file of up to 13 blocks made, written and unlinked on a formatted disk: the image is clean if and only if the file had at most 12 |
| Ext2Repair.RepairExact | scripts/ext2_fsck.py:241-274 | the kernel finds all its invariants on a repaired image if and only if unreachable slots held no pointer but the first and reachable inodes with blocks had a type |
| Ext2Repair.UnlinkedTableLost | scripts/ext2_fsck.py:241-274 | unlinking a file with a table makes that false |
| Ext2Repair.LostTableWitness | scripts/ext2_fsck.py:241-274 | a run from a formatted disk after which a repair breaks the ownership invariant |
| HeapBlocks.Apart | user/umalloc.c:63-72 | blocks of a tiled arena never overlap, headers included |
| HeapBlocks.TakeOk | user/umalloc.c:178-184 | handing out a free block keeps tiling and coalescing and adds its size to the bytes in use |
| HeapBlocks.ReleaseOk | user/umalloc.c:192-208 | giving a block back restores full coalescing and takes its size off |
| HeapBlocks.GrownOk | user/umalloc.c:89-125 | growth keeps tiling, coalescing and use, and the last block has at least the new bytes |
| HeapBlocks.StretchOk | user/umalloc.c:229-237 | growing in place keeps all of it |
| HeapBlocks.LiveTake | user/umalloc.c:178-184 | exactly one block becomes live |
| HeapBlocks.LiveRelease | user/umalloc.c:192-208 | exactly one block stops being live |
| UserHeap.GrowEnough | user/umalloc.c:79-97 | rounding asks for enough if and only if the request is at most 2^64 - 4128 |
| UserHeap.LargeRequest | user/umalloc.c:79-97 | what rounding makes of each larger size |
| UserHeap.GrownSame | user/umalloc.c:89-125 | growth in 64-bit arithmetic is growth without bounds as long as the arena ends below 2^47 |
| UserHeap.SilentGrowth | user/umalloc.c:89-190 | for the sizes that make `grow_heap` ask for nothing: the search fails again on the same list, and so for ever, if and only if the last block is free; otherwise a block past the break is handed out |
| UserHeap.GrownFits | user/umalloc.c:89-125 | after one growth the request fits |
| UserHeap.Heap.SplitBlock | user/umalloc.c:137-155 | the linked headers become those of the split list; other payloads and the kept part are unchanged |
| UserHeap.Heap.CoalesceForward | user/umalloc.c:158-166 | the linked headers become those of the merged list, tail included; all payloads are unchanged |
| UserHeap.Heap.GrowHeap | user/umalloc.c:89-125 | appends the new stretch at the old break, or changes nothing |
| UserHeap.Heap.Umalloc | user/umalloc.c:168-190 | first fit, growing at most once for sizes up to 2^64 - 4128; a block handed out is newly live and 16-byte aligned, and large enough if and only if the size is in that range; all live payloads keep their bytes; failure changes nothing except for hopeless sizes, which grow the heap until SBRK refuses |
| UserHeap.Heap.Ufree | user/umalloc.c:192-208 | exactly one live block goes; null and double frees change nothing; all payloads keep their bytes |
| UserHeap.Heap.Stretch | user/umalloc.c:228-237 | growing into the next block keeps the old bytes in place |
| UserHeap.Heap.Move | user/umalloc.c:238-252 | allocate, copy, free keeps the old bytes at the new place |
| UserHeap.Heap.Urealloc | user/umalloc.c:210-253 | on every path the first min(old, new) bytes are kept and the other live blocks are untouched; the block is large enough if and only if the size is at most 2^64 - 4128; failure changes nothing live |
| KernelBlocks.Conserved | kernel/src/alloc.c:204-222 | free bytes, used bytes and live headers add up to the heap |
| KernelBlocks.SweepOk | kernel/src/alloc.c:166-181 | the walk of `kfree` merges every pair of free neighbours and changes no live block |
| KernelBlocks.TakeOk | kernel/src/alloc.c:122-141 | exactly one block becomes live; tiling and coalescing stay |
| KernelBlocks.ReleaseOk | kernel/src/alloc.c:147-181 | exactly one block stops being live; tiling and coalescing stay |
| KernelBlocks.AllFreed | kernel/src/alloc.c:81-91 | once nothing is live the heap is its single initial block |
| KernelBlocks.RunOk | kernel/src/alloc.c:98-181 | over every run: tiled, coalesced, conserved, and back to the initial block when all is freed |
| KernelHeap.RoundEnough | kernel/src/alloc.c:101-102 | the rounded size covers the request if and only if it is at most 2^64 - 8 |
| KernelHeap.RoundNarrowEnough | kernel/src/alloc.c:379 | the 32-bit mask of the auxiliary heaps covers the request if and only if it is at most 2^32 - 8 |
| KernelHeap.Heap.constructor | kernel/src/alloc.c:81-91 | one free block fills the region |
| KernelHeap.Heap.Kmalloc | kernel/src/alloc.c:98-141 | NULL if and only if no free block is large enough; otherwise a new live block, 8-byte aligned, at most 32 bytes larger than the rounded size |
| KernelHeap.Heap.KheapAlloc | kernel/src/alloc.c:376-396 | the same for the auxiliary heaps with their narrower rounding |
| KernelHeap.Heap.Free | kernel/src/alloc.c:147-181 | exactly one live block goes; null, foreign and double frees change nothing |
| KernelHeap.Heap.Coalesce | kernel/src/alloc.c:166-181 | the loop is the specified walk; the range test never fails |
| KernelHeap.Heap.GetFree | kernel/src/alloc.c:204-222 | reports the free bytes, and with used bytes and live headers they make up the heap |
| BootHeaps.MemoryInfo | kernel/src/multiboot2.c:61-122 | succeeds if and only if some entry offers memory and the first with the largest offer does not run past 2^64; reports that entry, cut off below the kernel, and the totals |
| BootHeaps.Carve | kernel/src/kernel.c:145-203 | halts exactly when less than 32 MB is left; otherwise disjoint aligned heaps, main below image below gfx, stacked without loss, each auxiliary heap there exactly when the main heap keeps its minimum |
| BootHeaps.InsideRegion | kernel/src/kernel.c:145-154 | they lie in the region if and only if aligning its base does not wrap around |
| BootHeaps.TopReserved | kernel/src/kernel.c:145-154 | no heap reaches into the last 16 MB of the region, and less than 4 MB besides is lost to alignment |
| BootHeaps.MainShare | kernel/src/kernel.c:156-203 | the main heap keeps at least seven twelfths of what is carved, and the auxiliary heaps their limits |
| BootHeaps.Boot | kernel/src/kernel.c:124-205 | the fixed fallback exactly when no entry offers memory or the chosen one runs past 2^64; otherwise halting exactly when the chosen entry is too small, and else heaps carved from it that lie in it above the kernel if and only if aligning its base does not wrap; pairwise disjoint in every case |
| BootHeaps.WrapForcesFallback | kernel/src/kernel.c:136-143 | a map with good memory and one wrapping entry that boots into a layout outside all available memory |
| BootHeaps.LastPagePlaced | kernel/src/kernel.c:145 | a map whose region makes the main heap start at address zero |
| BootHeaps.HeapsNeverOverlap | kernel/src/alloc.c:336-350 | blocks of different heaps never overlap |
| Paging.MapUserProcess | kernel/src/paging.c:109-141 | every table entry is the stack page, else the code page, else empty; the boot upper levels gain only the user bit |
| Paging.BuildProcessTables | kernel/src/paging.c:143-183 | private PML4, PDP and first PD with the user tables spliced in; null arguments change nothing |
| Paging.BuiltFromArrays | kernel/src/paging.c:109-183 | the filled arrays, placed in memory, are the tables the walk theorems speak about |
| Paging.SliceTranslates | kernel/src/paging.c:109-141 | inside the slice the 4-level walk gives stack frame, code frame or a fault |
| Paging.OutsideTranslates | kernel/src/paging.c:153-173 | elsewhere below 4 GB it gives the boot translation, closed to user mode |
| Paging.ProcessSpace | kernel/src/paging.c:109-183 | the built tables implement the simple mapping on the whole lower half, and an address is open to user mode if and only if it lies in a code or stack page |
| Paging.SliceBytes | kernel/src/paging.c:109-133 | byte by byte: with a page-aligned top, an address of the slice goes to its stack byte, else to its code byte up to the end of the last code page, else it faults |
| Paging.StackBelow | kernel/src/paging.c:113 | a stack that would begin below the slice is not mapped at all |
| Paging.StackWhole | kernel/src/paging.c:112-113 | all bytes of the stack are on stack pages if and only if the last one lies within the pages counted from the first, which every page-aligned top gives |
| Paging.StackCut | kernel/src/paging.c:112-113 | a stack whose last byte is left unmapped |
| Paging.EveryLevel | kernel/src/paging.c:109-183 | an entry without the user or the write bit at any level of the walk denies that right |
| Paging.WithUserOnly | kernel/src/paging.c:139-140 | marking an upper level sets the user bit and no other |
| Paging.UserReach | kernel/src/paging.c:109-183 | whatever user mode reaches lies in the own frames |
| Paging.ProcessesIsolated | kernel/src/paging.c:135-138 | processes over disjoint frames never share a byte in user mode at any pair of addresses |
| Paging.BootTables.FillTable | kernel/src/paging.c:57-63 | 512 consecutive frames with the given flags |
| Paging.BootTables.InstallTable | kernel/src/paging.c:67-77 | one directory slot changes, or none above index 3 |
| Paging.BootTables.RemapFramebuffer | kernel/src/paging.c:88-107 | exactly the claimed slots point at the framebuffer tables |
| Paging.RemapTranslates | kernel/src/paging.c:88-107 | where every address below 4 GB goes after the remap |
| Paging.RemapIdentity | kernel/src/paging.c:65-107 | the identity mapping survives if and only if no remapped region aliases a low slot, and below 512 GB none does |
| Paging.RemapAt512 | kernel/src/paging.c:65-107 | a framebuffer at 512 GB loses some low address |
| Paging.RemapKernelOnly | kernel/src/paging.c:76 | the remap keeps the directories closed to user mode |
| Paging.FramebufferPages | kernel/src/paging.c:88-107 | below 4 GB every byte of the framebuffer the tables reach is mapped one to one with flags 0x9b, and every large page off it keeps its flags 0x83 |
| BigKernelLock.StepOk | kernel/src/bkl.c:11-33 | every memory step of every CPU keeps the invariant |
| BigKernelLock.RunInv | kernel/src/bkl.c:11-33 | hence every interleaving does |
| BigKernelLock.LockSafe | kernel/src/bkl.c:7-33 | at most one CPU inside, depth equals its nesting, and the unlocked owner test succeeds exactly on the CPU that is inside |
| BigKernelLock.NoSelfWait | kernel/include/spinlock.h:43-58 | a CPU never spins on a lock it holds; the flag is set if and only if some CPU is past its test-and-set |
| BigKernelLock.StepAtomic | kernel/src/bkl.c:11-33 | each step is a no-op or one atomic acquire or release of a recursive lock |
| BigKernelLock.SpinTakes | kernel/include/spinlock.h:43-50 | a spinning CPU takes a lock nobody holds with its next step |
| BigKernelLock.StepProgress | kernel/include/spinlock.h:43-50 | a step of a CPU inside a call brings the call nearer to its end unless it spins on a held lock; steps of others leave its position alone |
| BigKernelLock.AcquireFree | kernel/src/bkl.c:11-24 | five accesses of an acquire on a free lock end with the CPU inside at depth 1, owner and flag set, other CPUs as they were |
| BigKernelLock.AcquireInside | kernel/src/bkl.c:16-19 | four accesses of a nested acquire end one level deeper |
| BigKernelLock.ReleaseInside | kernel/src/bkl.c:26-33 | three accesses of a nested release end one level up |
| BigKernelLock.ReleaseLast | kernel/src/bkl.c:26-33 | five accesses of the last release end with the lock free and no owner |
| BigKernelLock.HolderAlone | kernel/src/bkl.c:11-33 | while a CPU holds the lock it sees exactly what its own steps do, whatever the other CPUs do in between |
| EditorText.InsertCharOk | user/edit.c:273-283 | a character is inserted at the offset, or nothing happens in a full line |
| EditorText.InsertNewlineOk | user/edit.c:346-371 | a newline is inserted at the offset, or nothing happens at the line limit |
| EditorText.DeleteBackwardOk | user/edit.c:285-316 | the character before the offset goes, or nothing at the start or where a join does not fit |
| EditorText.DeleteForwardOk | user/edit.c:318-344 | the character at the offset goes, or nothing at the end or where a join does not fit |
| EditorText.KillLineOk | user/edit.c:475-478 | everything up to the next newline goes |
| EditorText.SidewaysOk | user/edit.c:431-436 | left and right move the offset by one within the text |
| EditorText.CursorIs | user/edit.c:425-448 | the row is the number of newlines before the offset, the column the distance to the last of them |
| EditorText.HomeEndOk | user/edit.c:437-440 | Home and End go to the ends of the line and cross no newline |
| EditorText.VerticalOk | user/edit.c:427-448 | vertical keys move that many newlines, as far as there are any, and keep the column unless the line is shorter |
| EditorText.TabOk | user/edit.c:485-489 | Tab inserts four blanks or as many as fit at the offset |
| EditorText.PressOk | user/edit.c:425-490 | every key keeps the bounds and cursor keys keep the text |
| EditorText.SessionOk | user/edit.c:412-494 | over any session: at most 255 lines of at most 159 characters, the cursor on one of them |
| EditorFile.LoadOk | user/edit.c:119-149 | whatever the file, loading stays within the bounds |
| EditorFile.SaveFits | user/edit.c:151-167 | the joined text is always shorter than the buffer |
| EditorFile.LoadSaved | user/edit.c:119-171 | loading what was saved gives the same lines but for one trailing empty line |
| EditorFile.RoundTripExact | user/edit.c:144-148 | the round trip is exact if and only if there is one line or the last is not empty |
| EditorFile.OpenSaveExact | user/edit.c:119-171 | opening and saving unedited keeps a file if and only if it has no carriage return, no final newline, at most 255 lines and none over 159 characters |
| Editor.Editor.InsertChar | user/edit.c:273-283 | the shifting loop refines the insertion |
| Editor.Editor.InsertNewline | user/edit.c:346-371 | the nested row copies refine the insertion of a newline |
| Editor.Editor.DeleteBackward | user/edit.c:285-316 | refines the backward deletion |
| Editor.Editor.DeleteForward | user/edit.c:318-344 | refines the forward deletion |
| Editor.Editor.KillLine | user/edit.c:475-478 | refines the kill |
| Editor.Editor.Tab | user/edit.c:485-489 | four insertions refine the tab |
| Editor.Editor.MoveVertically | user/edit.c:427-448 | refines the vertical moves, 22 rows for a page |
| Editor.Editor.MoveSideways | user/edit.c:431-440 | refines the sideways moves |
| Editor.Editor.SaveText | user/edit.c:160-167 | the buffer holds the whole flat text |
| Editor.Editor.LoadText | user/edit.c:119-149 | the line table holds the loaded lines |
| AudioRing.NextOk | kernel/src/audio.c:89-125 | every single step of writer or reader keeps the ring invariant |
| AudioRing.RingFaithful | kernel/src/audio.c:89-125 | for every interleaving and any write sizes: consumed then queued is accepted, in order, and the tail is on a frame boundary |
| AudioRing.WriteIsSteps | kernel/src/audio.c:98-108 | the writer steps without a pause store the data from the head on, wrapping |
| AudioRing.ReadIsSteps | kernel/src/audio.c:111-125 | the reader steps without a pause take the front of the queue |
| AudioMixer.Voice.Write | kernel/src/audio.c:98-108 | appends to the queue, across the wrap, and is the uninterrupted run of the writer steps of the ring model |
| AudioMixer.Voice.Read | kernel/src/audio.c:111-125 | takes at most the asked bytes from the front of the queue, across the wrap; for what a tick takes it is the uninterrupted run of the reader steps |
| AudioMixer.ClampIdle | kernel/src/audio.c:197-215 | after dividing by the number of contributing voices the clamp changes no sample |
| AudioMixer.StoredBack | kernel/src/audio.c:189-216 | a sample is stored back as the two bytes it was read from |
| AudioMixer.Alone | kernel/src/audio.c:156-216 | a voice that plays alone is passed on byte for byte, followed by silence |
| AudioMixer.Unison | kernel/src/audio.c:195-203 | voices that play the same are heard as one |
| AudioMixer.PlaysOut | kernel/src/audio.c:166-193 | a voice done waiting plays to its end, a buffer a tick, and leaves less than a frame |
| AudioMixer.StreamFaithful | kernel/src/audio.c:127-323 | over any run of writes, ticks and releases, what was accepted from a process that is not released is what was heard of it followed by what still waits, whatever other processes do |
| AudioMixer.Mixer.VoiceForPid | kernel/src/audio.c:129-149 | the own slot, else the first free one freshly initialised, else none; no process ever owns two |
| AudioMixer.Mixer.MixVoices | kernel/src/audio.c:156-216 | the stored bytes are, sample by sample, the truncated average of the contributing voices; each voice loses exactly the whole frames it gave |
| AudioMixer.Mixer.AudioWrite | kernel/src/audio.c:295-308 | accepts what fits below one full ring and appends it to the own voice only |
| AudioMixer.Mixer.ReleaseVoice | kernel/src/audio.c:311-323 | clears exactly the first slot of the process |

## Left out

- Other block sizes than 1024, and the superblock fields the kernel never reads back.
- Splitting path strings: paths arrive as sequences of names of 1 to 255 bytes, none of them zero.
- Failure of block I/O and of scratch allocations: both always succeed.
- Permissions, owners, timestamps, `ext2_readdir` and `ext2_stat`.
- `ext2_format` is modelled up to its root directory; the directories and files it seeds afterwards are ordinary operations of a run.
- Ext2File.WriteRefines: needs the offset to be at most the size, because fresh blocks are not zeroed and a gap shows stale bytes; `WriteAnywhere` says what a write does at any other offset.
- Ext2Kernel.Filesystem.Write: needs a live inode, because the code does not test for one; the kernel only writes to open files.
- Ext2Kernel.Filesystem.Read: needs a file whose missing single indirect table comes with a missing double one, because with only the double one the code computes a negative index into it; every hole-free file is such (`NoHolesReadSafe`).
- Ext2Names.UnlinkOk: needs a directory as parent and a name other than `.` and `..`, because the code does not test for either. The tables of an unlinked file stay with its freed number, as in the code; `UnlinkFrees` says what becomes free, and `ReachableTight` that nothing else is lost.
- Ext2Kernel.Filesystem.UnlinkName: needs the same.
- Ext2Tree.TruncateKeepsInv: speaks of files only; `TruncateExact` has the other inodes.
- Ext2Format.ReachableGood: repeats that the formatted disk is good, which is `FormatGood`, because what an allowed operation is can only be said of a good state.
- Ext2HostPut.Put: needs a last name other than `.` and `..`, because the code does not test for them and would make a file of the directory itself or of its parent, and the bitmap padding to be clear, which `ReachablePads` shows for every image the kernel writes. Making missing directories on the way (`mkdir`) is not modelled, nor the running counters, which the final recount overwrites.
- Ext2HostCut.OverwriteCut: does not say when the invariants survive although a table of the old file was written over; that depends on whether the new bytes happen to be good block numbers, and `OverwriteLost` shows that they need not be.
- Ext2Fsck.Check: malformed or duplicate entries, missing dots, modes of zero and out-of-range numbers, which are only reported and never repaired, are one boolean, given to `Fsck`.
- Ext2Fsck.Fsck: takes that boolean as a parameter.
- UserHeap.Heap.Umalloc: leaves out the sizes from 2^64 - 4127 to 2^64 - 48, for which the code writes outside its arena and need not return; `SilentGrowth` says which.
- UserHeap.Heap.Urealloc: leaves out the same sizes, and needs a live block or null, because the code returns freed blocks as they are.
- UserHeap.Heap.GrowHeap: the break is below 2^47 and moves without gaps, as SBRK promises. The lock around the allocator is not modelled.
- KernelHeap.Heap.Free: needs a pointer that is null, outside the heap or to a block, because the code reads a header at any address in between. Heaps end below 2^63.
- BootHeaps.MemoryInfo: takes the tags as a sequence; walking them in memory by their sizes is not modelled.
- Paging entries are pairs of address and flags, frames are page aligned, and the user window is 2 MB aligned in the first gigabyte. Loading CR3 and flushing the TLB are not modelled.
- BigKernelLock.LockSafe: every release matches an acquire of the same CPU, no trap interrupts acquire or release on its own CPU, and the depth does not overflow.
- AudioRing.RingFaithful: one writer and one reader per ring; releasing a voice during a write is not modelled. AC97 registers and DMA are not modelled.
- The editor's screen, scrolling, file name prompt, modified flag and decoding of key bytes.
- Drivers, the network stack, the window server, the scheduler, TLS and the user programs.
