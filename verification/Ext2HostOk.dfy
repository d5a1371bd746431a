/** Files installed by the host tool: the filesystem keeps every invariant of the kernel, and after a mount
    the kernel reads the installed bytes. */
module Ext2HostOk {
  import opened Bytes
  import opened Ext2State
  import opened Ext2Ownership
  import opened Ext2Bmap
  import opened Ext2Disk
  import opened Ext2File
  import opened Ext2DirBlock
  import opened Ext2Dir
  import opened Ext2Tree
  import opened Ext2Names
  import opened Ext2Persist
  import opened Ext2HostFile
  import opened Ext2HostInstall

  /** The same record without block pointers. */
  function Stripped(n: Inode): (r: Inode)
    ensures NoPtrs(r)
  {
    n.(ptrs := seq(15, _ => 0))
  }

  /** The blocks taken for `data` when the block bits are `bits`. */
  function RunFor(fs: Fs, ino: nat, node: Inode, bits: seq<bool>, data: seq<byte>): (r: (Fs, seq<nat>))
    requires Shape(fs) && IsInode(fs, ino) && |bits| == |fs.blockBits|
    ensures Shape(r.0)
  {
    Reserve(Blank(fs, ino, Stripped(node), bits), Total(DataBlocks(|data|)))
  }

  /** An installed file is regular with mode 755, has one link and two sectors for every block, tables included. */
  predicate Recorded(node: Inode, data: seq<byte>) {
    && node.mode == 0x81ED && node.size == |data| && node.links == 1
    && node.blocks == 2 * Total(DataBlocks(|data|))
  }

  /** The body of the tool between finding the inode and linking it: `gs` is `fs` with the data and tables
      laid out on `disk` over a run taken from `bits`, and the record `node` written through. */
  ghost predicate Installed(fs: Fs, gs: Fs, ino: nat, bits: seq<bool>, disk: seq<Block>, node: Inode, data: seq<byte>)
    requires Shape(fs) && IsInode(fs, ino) && |bits| == |fs.blockBits|
  {
    var (r, all) := RunFor(fs, ino, node, bits, data);
    && |r.inodes| == |fs.inodes| && |disk| == |fs.disk|
    && Laid(disk, all, data) && (forall x :: 0 <= x < |disk| && x !in all ==> disk[x] == fs.disk[x])
    && node.ptrs == RunPtrs(all, DataBlocks(|data|)) && Recorded(node, data)
    && Shape(WithNode(r.(disk := disk), ino, node))
    && gs == SyncInode(WithNode(r.(disk := disk), ino, node), ino)
  }

  /** Laid out blocks survive changes elsewhere. */
  lemma LaidFrame(d: seq<Block>, e: seq<Block>, all: seq<nat>, data: seq<byte>)
    requires Laid(d, all, data) && |e| == |d| && forall i :: 0 <= i < |all| ==> all[i] < |d| && e[all[i]] == d[all[i]]
    ensures Laid(e, all, data)
  {
    hide TableIs, Chunk, Group;
  }

  /** The ownership invariant holds again, the file holds the data, nothing else changed. */
  lemma BodyOk(fs: Fs, gs: Fs, ino: nat, bits: seq<bool>, disk: seq<Block>, node: Inode, data: seq<byte>)
    requires OwnInv(fs) && Shape(fs) && IsInode(fs, ino) && |bits| == |fs.blockBits| && OnlyOwnCleared(fs, ino, bits)
    requires Installed(fs, gs, ino, bits, disk, node, data)
    ensures OwnInv(gs) && LiveFile(gs, ino) && Content(gs, ino) == data && FileOk(gs, ino)
    ensures forall j: nat :: j != ino ==> Untouched(fs, gs, j)
  {
    hide OwnInv, Untouched, Own, Laid, RunPtrs, Blank, Reserve, OnlyOwnCleared, Adopted, NoHoles, Content, SlotData,
         NoPtrs, Total, DataBlocks;
    var n0 := Stripped(node);
    BlankOk(fs, ino, n0, bits);
    var z := Blank(fs, ino, n0, bits);
    OwnCounts(z);
    ReserveOk(z, Total(DataBlocks(|data|)));
    var (r, all) := Reserve(z, Total(DataBlocks(|data|)));
    ReserveOwn(z, r, all);
    BlankFacts(fs, ino, n0, bits);
    IsAdopted(fs, r, gs, ino, disk, node, all, data);
    RunIsMarked(z, r, all);
    AdoptedOk(r, gs, ino, node, all, data);
    AdoptedContent(r, gs, ino, node, all, data);
    forall j: nat | j != ino
      ensures Untouched(fs, gs, j)
    {
      UntouchedTransitive(fs, z, r, j);
      UntouchedTransitive(fs, r, gs, j);
    }
  }

  lemma OwnCounts(fs: Fs)
    requires OwnInv(fs)
    ensures Shape(fs) && CountsOk(fs)
  {
  }

  lemma BlankFacts(fs: Fs, ino: nat, n: Inode, bits: seq<bool>)
    requires Shape(fs) && IsInode(fs, ino) && |bits| == |fs.blockBits|
    ensures var z := Blank(fs, ino, n, bits);
            z.disk == fs.disk && |z.inodes| == |fs.inodes| && Live(z, ino) && z.sup.firstData == fs.sup.firstData
            && z.sup.blocksCount == fs.sup.blocksCount
  {
  }

  lemma RunIsMarked(z: Fs, r: Fs, all: seq<nat>)
    requires Shape(z) && FreshRun(z, all) && RunMarked(z, r, all) && Shape(r)
    ensures forall i :: 0 <= i < |all| ==> r.sup.firstData <= all[i] < r.sup.blocksCount && r.blockBits[all[i]]
    ensures forall i, j :: 0 <= i < j < |all| ==> all[i] != all[j]
  {
  }

  lemma IsAdopted(fs: Fs, r: Fs, gs: Fs, ino: nat, disk: seq<Block>, node: Inode, all: seq<nat>, data: seq<byte>)
    requires Shape(r) && IsInode(r, ino) && r.disk == fs.disk && |disk| == |r.disk|
    requires Laid(disk, all, data) && (forall x :: 0 <= x < |disk| && x !in all ==> disk[x] == fs.disk[x])
    requires forall i :: 0 <= i < |all| ==> r.sup.firstData <= all[i] < r.sup.blocksCount
    requires node.ptrs == RunPtrs(all, DataBlocks(|data|)) && node.size == |data|
    requires Shape(WithNode(r.(disk := disk), ino, node)) && gs == SyncInode(WithNode(r.(disk := disk), ino, node), ino)
    ensures Adopted(r, gs, ino, node, all, data)
  {
    hide Laid, RunPtrs, EncodeInode;
    InodeInTable(r.sup.blocksCount, r.sup.inodesCount, ino);
    LaidFrame(disk, gs.disk, all, data);
  }

  /** Every inode is on disk as it is in memory. */
  lemma BodySyncs(fs: Fs, gs: Fs, ino: nat, bits: seq<bool>, disk: seq<Block>, node: Inode, data: seq<byte>)
    requires OwnInv(fs) && Shape(fs) && Synced(fs) && IsInode(fs, ino) && |bits| == |fs.blockBits|
             && OnlyOwnCleared(fs, ino, bits)
    requires Installed(fs, gs, ino, bits, disk, node, data)
    ensures Shape(gs) && InodesSynced(gs, 0) && SuperOk(gs.sup)
  {
    hide OwnInv, Untouched, Laid, RunPtrs, Blank, Reserve, OnlyOwnCleared, NoPtrs, Total, DataBlocks, InodeSynced,
         MapsSynced, SyncInode;
    var n0 := Stripped(node);
    BlankOk(fs, ino, n0, bits);
    var z := Blank(fs, ino, n0, bits);
    OwnCounts(z);
    ReserveOk(z, Total(DataBlocks(|data|)));
    var (r, all) := Reserve(z, Total(DataBlocks(|data|)));
    var f4 := WithNode(r.(disk := disk), ino, node);
    BlankSame(fs, ino, n0, bits);
    InodesLess(fs, ino);
    BodyMeta(fs, z, r, f4, ino, all);
    InodesStay(fs, f4, ino);
    OneExcept(f4, ino);
    SyncInodeSyncs(f4, ino, 0);
    SyncInodeFrame(f4, ino);
  }

  lemma BlankSame(fs: Fs, ino: nat, n: Inode, bits: seq<bool>)
    requires Shape(fs) && IsInode(fs, ino) && |bits| == |fs.blockBits|
    ensures var z := Blank(fs, ino, n, bits);
            && z.sup == fs.sup.(freeBlocks := z.sup.freeBlocks, freeInodes := z.sup.freeInodes) && z.disk == fs.disk
            && |z.inodes| == |fs.inodes|
            && (forall j: nat :: IsInode(fs, j) && j != ino ==>
                Node(z, j) == Node(fs, j) && (Live(z, j) <==> Live(fs, j)))
  {
  }

  lemma BodyMeta(fs: Fs, z: Fs, r: Fs, f4: Fs, ino: nat, all: seq<nat>)
    requires Shape(fs) && Shape(z) && Shape(f4) && IsInode(fs, ino) && |f4.disk| == |fs.disk|
    requires z.sup == fs.sup.(freeBlocks := z.sup.freeBlocks, freeInodes := z.sup.freeInodes) && z.disk == fs.disk
    requires |z.inodes| == |fs.inodes|
    requires forall j: nat :: IsInode(fs, j) && j != ino ==> Node(z, j) == Node(fs, j) && (Live(z, j) <==> Live(fs, j))
    requires FreshRun(z, all) && RunMarked(z, r, all)
    requires |r.inodes| == |fs.inodes| && IsInode(r, ino) && IsInode(f4, ino)
             && f4 == WithNode(r.(disk := f4.disk), ino, Node(f4, ino))
    requires forall x :: 0 <= x < |f4.disk| && x !in all ==> f4.disk[x] == fs.disk[x]
    ensures SameMeta(fs, f4) && f4.sup.mid == fs.sup.mid && f4.sup.logBlockSize == fs.sup.logBlockSize
    ensures forall j: nat :: IsInode(fs, j) && j != ino ==> (Live(f4, j) <==> Live(fs, j)) && Node(f4, j) == Node(fs, j)
  {
    forall x | 0 <= x < fs.sup.firstData
      ensures f4.disk[x] == fs.disk[x]
    {
      assert x !in all;
    }
  }

  /** Flushing the maps keeps the invariants and touches no inode. */
  lemma FlushKeeps(fs: Fs)
    requires FsInv(fs)
    ensures Shape(fs) && FsInv(CommitMaps(fs)) && (forall j: nat :: Untouched(fs, CommitMaps(fs), j))
  {
    hide Own, SlotData, Marked, Unshared, FreedClear, CountsOk, TreeInv, EncodeSuper, BitmapBlock;
    var gs := CommitMaps(fs);
    MetaFrame(fs, gs);
    UntouchedTree(fs, gs);
  }

  /** Replacing an inode other than the root by a file keeps the tree. */
  lemma ReplaceKeepsTree(fs: Fs, gs: Fs, ino: nat)
    requires TreeInv(fs) && Live(fs, ino) && ino != ROOT_INODE && LiveFile(gs, ino) && FileOk(gs, ino)
    requires forall j: nat :: j != ino ==> Untouched(fs, gs, j)
    ensures TreeInv(gs)
  {
    hide Entry, FileOk, DirOk, Untouched, LiveDir, LiveFile, Live;
    KindSplit(fs, ROOT_INODE);
    KindSplit(fs, ino);
    KindSplit(gs, ino);
    forall j: nat | j != ino
      ensures Live(gs, j) <==> Live(fs, j)
      ensures LiveDir(gs, j) <==> LiveDir(fs, j)
      ensures LiveFile(gs, j) <==> LiveFile(fs, j)
      ensures LiveDir(fs, j) ==> DirOk(gs, j) && forall n: Name :: Entry(gs, j, n) == Entry(fs, j, n)
      ensures LiveFile(fs, j) ==> FileOk(gs, j)
    {
      UntouchedView(fs, gs, j);
      KindSplit(fs, j);
      KindSplit(gs, j);
    }
  }

  lemma FileNotRoot(fs: Fs, ino: nat)
    requires TreeInv(fs) && LiveFile(fs, ino)
    ensures ino != ROOT_INODE
  {
    hide DirsOk, EntriesLive, OneParent, DotsOk, FilesOk;
  }

  /** Overwriting an existing inode: the tool frees its blocks, installs the data and flushes. */
  lemma OverwriteOk(fs: Fs, gs: Fs, ino: nat, bits: seq<bool>, disk: seq<Block>, node: Inode, data: seq<byte>)
    requires FsInv(fs) && Synced(fs) && Live(fs, ino) && ino != ROOT_INODE && OnlyOwnCleared(fs, ino, bits)
    requires Shape(fs) && IsInode(fs, ino) && |bits| == |fs.blockBits| && Installed(fs, gs, ino, bits, disk, node, data)
    ensures Shape(gs)
    ensures var hs := CommitMaps(gs);
            && FsInv(hs) && Synced(hs) && LiveFile(hs, ino) && Content(hs, ino) == data
            && (forall j: nat :: j != ino ==> Untouched(fs, hs, j))
  {
    hide OwnInv, TreeInv, Untouched, Installed, OnlyOwnCleared, Content, FileOk, MapsSynced, InodesSynced, CommitMaps,
         SuperOk;
    BodyOk(fs, gs, ino, bits, disk, node, data);
    BodySyncs(fs, gs, ino, bits, disk, node, data);
    ReplaceKeepsTree(fs, gs, ino);
    FlushKeeps(gs);
    CommitMapsSyncs(gs);
    var hs := CommitMaps(gs);
    UntouchedContent(gs, hs, ino);
    forall j: nat | j != ino
      ensures Untouched(fs, hs, j)
    {
      UntouchedTransitive(fs, gs, hs, j);
    }
  }

  /** Installing a new file: a fresh inode gets the data, the directory binds the name, the maps are flushed. */
  lemma InstallOk(fs: Fs, gs: Fs, d: nat, name: Name, ino: u32, disk: seq<Block>, node: Inode, data: seq<byte>)
    requires FsInv(fs) && Synced(fs) && LiveDir(fs, d) && d < fs.sup.inodesCount && IsName(name)
             && Entry(fs, d, name) == 0
    requires Shape(fs) && ino == NextInode(fs) != 0 && Installed(fs, gs, ino, fs.blockBits, disk, node, data)
    ensures ParentOk(gs, d) && Shape(gs) && BlocksOk(gs, d)
    ensures var (f6, ok) := AddEntry(gs, d, ino, name, 1); var hs := CommitMaps(f6);
            ok ==> && FsInv(hs) && Synced(hs) && LiveFile(hs, ino) && Content(hs, ino) == data
                   && Rebound(fs, hs, d, name, ino) && !Live(fs, ino)
                   && (forall j: nat :: j != d && j != ino ==> Untouched(fs, hs, j))
  {
    hide OwnInv, TreeInv, Untouched, Installed, OnlyOwnCleared, Content, FileOk, MapsSynced, InodesSynced, CommitMaps,
         SuperOk, Entry, DirOk, AddEntry, NextInode, Unreferenced, Rebound;
    NextInodeFree(fs);
    NothingCleared(fs, ino);
    BodyOk(fs, gs, ino, fs.blockBits, disk, node, data);
    BodySyncs(fs, gs, ino, fs.blockBits, disk, node, data);
    BirthKeepsTree(fs, gs, ino);
    TreeParent(fs, d);
    ParentStays(fs, gs, d);
    ParentFacts(gs, d);
    UntouchedDir(fs, gs, d);
    LinkNew(gs, d, ino, name, 1);
    var (f6, ok) := AddEntry(gs, d, ino, name, 1);
    if ok {
      LinkSyncs(gs, d, ino, name);
      FlushKeeps(f6);
      CommitMapsSyncs(f6);
      InstallFinish(fs, gs, f6, CommitMaps(f6), d, ino, name, data);
    }
  }

  lemma NothingCleared(fs: Fs, ino: nat)
    ensures OnlyOwnCleared(fs, ino, fs.blockBits)
  {
  }

  lemma TreeParent(fs: Fs, d: nat)
    requires FsInv(fs) && LiveDir(fs, d)
    ensures ParentOk(fs, d)
  {
    hide OwnInv, DirOk, EntriesLive, OneParent, DotsOk, FilesOk;
  }

  lemma LinkSyncs(fs: Fs, d: nat, ino: u32, name: Name)
    requires ParentOk(fs, d) && Shape(fs) && LiveDir(fs, d) && BlocksOk(fs, d) && IsName(name) && d != 0
    requires InodesSynced(fs, 0) && SuperOk(fs.sup) && AddEntry(fs, d, ino, name, 1).1
    ensures var f6 := AddEntry(fs, d, ino, name, 1).0; Shape(f6) && InodesSynced(f6, 0) && SuperOk(f6.sup)
  {
    hide InodesSynced, AddFrom, OwnInv, BlocksOk, DirOk;
    AddFromSyncs(fs, d, 0, ino, name, 1, 0);
  }

  lemma InstallFinish(fs: Fs, gs: Fs, f6: Fs, hs: Fs, d: nat, ino: u32, name: Name, data: seq<byte>)
    requires Live(fs, d) && d != ino && (forall j: nat :: j != ino ==> Untouched(fs, gs, j))
    requires LiveFile(gs, ino) && Content(gs, ino) == data
    requires Rebound(gs, f6, d, name, ino) && (forall j: nat :: j != d ==> Untouched(gs, f6, j))
    requires forall j: nat :: Untouched(f6, hs, j)
    ensures LiveFile(hs, ino) && Content(hs, ino) == data && Rebound(fs, hs, d, name, ino)
    ensures forall j: nat :: j != d && j != ino ==> Untouched(fs, hs, j)
  {
    hide Rebound, Content, Untouched, LiveFile;
    ComposeFront(fs, gs, f6, d, name, ino);
    Compose(fs, f6, hs, d, name, ino);
    UntouchedContent(gs, f6, ino);
    UntouchedContent(f6, hs, ino);
    forall j: nat | j != d && j != ino
      ensures Untouched(fs, hs, j)
    {
      UntouchedTransitive(fs, gs, f6, j);
      UntouchedTransitive(fs, f6, hs, j);
    }
  }

  /** After a mount of the flushed disk the kernel finds the file with the installed contents. */
  lemma MountedInstall(hs: Fs, ino: nat, data: seq<byte>)
    requires FsInv(hs) && Synced(hs) && LiveFile(hs, ino) && Content(hs, ino) == data
    ensures Mountable(hs.disk)
    ensures var m := Mount(hs.disk); FsInv(m) && LiveFile(m, ino) && Content(m, ino) == data && NoHoles(m, ino)
  {
    hide OwnInv, Untouched, Content, Mount, Mountable, NoHoles, Synced, DirsOk, EntriesLive, OneParent, DotsOk;
    MountKeepsInv(hs);
    var m := Mount(hs.disk);
    UntouchedContent(hs, m, ino);
    assert FileOk(m, ino);
  }
}
