/** Persistence: between public operations the disk carries the superblock, both
    bitmaps and every live inode, so that mounting it recovers the filesystem. */
module Ext2Persist {
  import opened Bytes
  import opened Bitmaps
  import opened Ext2State
  import opened Ext2Ownership
  import opened Ext2Bmap
  import opened Ext2Disk
  import opened Ext2File
  import opened Ext2DirBlock
  import opened Ext2Dir
  import opened Ext2Tree
  import opened Ext2Names

  /** Superblock and bitmaps on disk are the ones in memory. */
  ghost predicate MapsSynced(fs: Fs)
    requires Shape(fs)
  {
    && fs.disk[1] == EncodeSuper(fs.sup)
    && (forall i :: 0 <= i < BitmapBlocks(fs.sup.blocksCount) ==> fs.disk[2 + i] == BitmapBlock(fs.blockBits, i))
    && fs.disk[InodeBitmapBlock(fs.sup.blocksCount)] == BitmapBlock(fs.inodeBits, 0)
  }

  /** The 256 bytes of an inode slot on disk. */
  function OnDisk(fs: Fs, ino: nat): (r: seq<byte>)
    requires Shape(fs) && IsInode(fs, ino)
    ensures |r| == 256
  {
    InodeInTable(fs.sup.blocksCount, fs.sup.inodesCount, ino);
    RawInode(fs.disk, fs.sup.blocksCount, ino)
  }

  predicate SameTrees(a: Inode, b: Inode) { forall k :: 1 <= k < 15 ==> a.ptrs[k] == b.ptrs[k] }

  /** A live inode is on disk as it is in memory; a dead one at least with the pointers it still owns. */
  ghost predicate InodeSynced(fs: Fs, ino: nat)
    requires Shape(fs) && IsInode(fs, ino)
  {
    if Live(fs, ino) then OnDisk(fs, ino) == EncodeInode(Node(fs, ino))
    else SameTrees(DecodeInode(OnDisk(fs, ino)), Node(fs, ino))
  }

  /** Every inode but possibly `e` is synced. */
  ghost predicate InodesSynced(fs: Fs, e: nat)
    requires Shape(fs)
  {
    forall j: nat :: IsInode(fs, j) && j != e ==> InodeSynced(fs, j)
  }

  /** A superblock `ext2_mount` accepts: 1024-byte blocks and the ext2 magic. */
  predicate SuperOk(s: Super) { s.logBlockSize == 0 && Le16(s.mid, 28) == 0xEF53 }

  ghost predicate Synced(fs: Fs) { Shape(fs) && SuperOk(fs.sup) && MapsSynced(fs) && InodesSynced(fs, 0) }

  // ---- what keeps inodes synced ----

  /** The metadata area and the layout are the same. */
  ghost predicate SameMeta(fs: Fs, gs: Fs) {
    && Shape(fs) && Shape(gs) && |gs.inodes| == |fs.inodes|
    && gs.sup.blocksCount == fs.sup.blocksCount && gs.sup.inodesCount == fs.sup.inodesCount
    && (forall x :: 0 <= x < fs.sup.firstData ==> gs.disk[x] == fs.disk[x])
  }

  lemma SameMetaOnDisk(fs: Fs, gs: Fs, j: nat)
    requires SameMeta(fs, gs) && IsInode(fs, j)
    ensures OnDisk(gs, j) == OnDisk(fs, j)
  {
    InodeInTable(fs.sup.blocksCount, fs.sup.inodesCount, j);
  }

  /** Inodes whose record and liveness did not change stay synced while the metadata area stands still. */
  lemma InodesStay(fs: Fs, gs: Fs, e: nat)
    requires SameMeta(fs, gs) && InodesSynced(fs, e)
    requires forall j: nat :: IsInode(fs, j) && j != e ==> (Live(gs, j) <==> Live(fs, j)) && Node(gs, j) == Node(fs, j)
    ensures InodesSynced(gs, e)
  {
    hide OnDisk, Shape, EncodeInode, SameTrees, SameMeta;
    SameMetaShape(fs, gs);
    forall j: nat | IsInode(gs, j) && j != e
      ensures InodeSynced(gs, j)
    {
      SameMetaOnDisk(fs, gs, j);
      assert InodeSynced(fs, j);
    }
  }

  lemma SameMetaShape(fs: Fs, gs: Fs)
    requires SameMeta(fs, gs)
    ensures Shape(fs) && Shape(gs) && |gs.inodes| == |fs.inodes|
  {
  }

  /** Two inode slots never overlap. */
  lemma SlotsApart(i: nat, j: nat)
    requires i >= 1 && j >= 1 && i != j && (i - 1) / 4 == (j - 1) / 4
    ensures InodeOffset(i) + 256 <= InodeOffset(j) || InodeOffset(j) + 256 <= InodeOffset(i)
  {
  }

  /** Writing one inode updates its slot and no other. */
  lemma SyncInodeOnDisk(fs: Fs, ino: nat, j: nat)
    requires Shape(fs) && IsInode(fs, ino) && IsInode(fs, j)
    ensures var gs := SyncInode(fs, ino);
            Shape(gs) && IsInode(gs, j) &&
            OnDisk(gs, j) == if j == ino then EncodeInode(Node(fs, ino)) else OnDisk(fs, j)
  {
    hide EncodeInode;
    var gs := SyncInode(fs, ino);
    InodeInTable(fs.sup.blocksCount, fs.sup.inodesCount, ino);
    InodeInTable(fs.sup.blocksCount, fs.sup.inodesCount, j);
    if j != ino && (j - 1) / 4 == (ino - 1) / 4 {
      SlotsApart(ino, j);
      var b := InodeBlock(fs.sup.blocksCount, ino);
      assert forall k :: InodeOffset(j) <= k < InodeOffset(j) + 256 ==> gs.disk[b][k] == fs.disk[b][k];
      assert OnDisk(gs, j) == OnDisk(fs, j);
    }
  }

  lemma DecodeEncoded(n: Inode)
    ensures SameTrees(DecodeInode(EncodeInode(n)), n)
  {
    hide EncodeInode, DecodeInode;
    InodeRoundTrip(n);
  }

  lemma SyncInodeSyncs(fs: Fs, ino: nat, e: nat)
    requires Shape(fs) && IsInode(fs, ino)
    requires forall j: nat :: IsInode(fs, j) && j != e && j != ino ==> InodeSynced(fs, j)
    ensures Shape(SyncInode(fs, ino)) && InodesSynced(SyncInode(fs, ino), e)
  {
    hide OnDisk, EncodeInode, DecodeInode, SyncInode;
    var gs := SyncInode(fs, ino);
    SyncInodeFrame(fs, ino);
    forall j: nat | IsInode(gs, j) && j != e
      ensures InodeSynced(gs, j)
    {
      SyncInodeOnDisk(fs, ino, j);
      DecodeEncoded(Node(fs, ino));
      assert j != ino ==> InodeSynced(fs, j);
    }
  }

  /** Writing superblock and bitmaps syncs both and leaves the inode table alone. */
  lemma MapsSync(fs: Fs)
    requires Shape(fs)
    ensures var gs := CommitMaps(fs);
            Shape(gs) && MapsSynced(gs) && forall j: nat :: IsInode(fs, j) ==> OnDisk(gs, j) == OnDisk(fs, j)
  {
    hide EncodeSuper;
    var gs := CommitMaps(fs);
    assert gs.disk[1] == EncodeSuper(fs.sup);
    forall j: nat | IsInode(fs, j)
      ensures OnDisk(gs, j) == OnDisk(fs, j)
    {
      InodeInTable(fs.sup.blocksCount, fs.sup.inodesCount, j);
    }
  }

  lemma CommitMapsSyncs(fs: Fs)
    requires Shape(fs) && SuperOk(fs.sup) && InodesSynced(fs, 0)
    ensures Synced(CommitMaps(fs))
  {
    hide OnDisk, CommitMaps, EncodeInode, DecodeInode;
    MapsSync(fs);
    var gs := CommitMaps(fs);
    forall j: nat | IsInode(gs, j) && j != 0
      ensures InodeSynced(gs, j)
    {
      assert InodeSynced(fs, j);
    }
  }

  lemma CommitSyncs(fs: Fs, ino: nat)
    requires Shape(fs) && IsInode(fs, ino) && SuperOk(fs.sup) && InodesSynced(fs, ino)
    ensures Synced(Commit(fs, ino))
  {
    hide SyncInode, InodesSynced, MapsSynced, SyncSuper, SyncBitmaps;
    OneExcept(fs, ino);
    SyncInodeSyncs(fs, ino, 0);
    SyncInodeFrame(fs, ino);
    CommitMapsSyncs(SyncInode(fs, ino));
  }

  lemma OneExcept(fs: Fs, ino: nat)
    requires Shape(fs) && InodesSynced(fs, ino)
    ensures forall j: nat :: IsInode(fs, j) && j != 0 && j != ino ==> InodeSynced(fs, j)
  {
  }

  // ---- the public operations keep the disk in step ----

  lemma WriteSyncs(fs: Fs, ino: nat, off: nat, data: seq<byte>)
    requires OwnInv(fs) && Synced(fs) && LiveFile(fs, ino)
    ensures Synced(Write(fs, ino, off, data).0)
  {
    hide WriteLoop, Commit, Own, SlotData, Marked, Unshared, FreedClear, CountsOk, ByteAt, DataRef, StopsWell,
         InodeSynced, MapsSynced;
    if ino < fs.sup.inodesCount {
      LoopStored(fs, ino, off, data);
      var (f1, n) := WriteLoop(fs, ino, off, data);
      var node := Node(f1, ino);
      var f2 := if off + n > node.size then WithNode(f1, ino, node.(size := Add32(0, off + n))) else f1;
      InodesStay(fs, f2, ino);
      CommitSyncs(f2, ino);
    }
  }

  lemma TruncateSyncs(fs: Fs, ino: nat)
    requires Synced(fs) && IsInode(fs, ino)
    ensures Synced(Truncate(fs, ino).0)
  {
    hide SyncInode, InodeSynced, EncodeSuper, BitmapBlock;
    if ino < fs.sup.inodesCount {
      var f1 := WithNode(fs, ino, Node(fs, ino).(size := 0));
      InodesStay(fs, f1, ino);
      OneExcept(f1, ino);
      SyncInodeSyncs(f1, ino, 0);
      SyncInodeMaps(f1, ino);
      SyncInodeFrame(f1, ino);
    }
  }

  lemma SyncInodeMaps(fs: Fs, ino: nat)
    requires Shape(fs) && IsInode(fs, ino) && MapsSynced(fs)
    ensures Shape(SyncInode(fs, ino)) && MapsSynced(SyncInode(fs, ino))
  {
    hide EncodeSuper, BitmapBlock, EncodeInode;
    InodeInTable(fs.sup.blocksCount, fs.sup.inodesCount, ino);
  }

  /** Adding an entry writes through whatever it changes in the parent. */
  lemma {:induction false} AddFromSyncs(fs: Fs, p: nat, k: nat, ino: u32, name: Name, ftype: byte, e: nat)
    requires OwnInv(fs) && Live(fs, p) && BlocksOk(fs, p) && IsName(name) && e != p && InodesSynced(fs, e)
    ensures var (gs, ok) := AddFrom(fs, p, k, ino, name, ftype);
            && gs.sup == fs.sup.(freeBlocks := gs.sup.freeBlocks) && gs.inodeBits == fs.inodeBits
            && |gs.inodes| == |fs.inodes| && InodesSynced(gs, e)
            && (forall j: nat :: IsInode(fs, j) && j != p ==> Node(gs, j) == Node(fs, j))
            && (!ok ==> gs == fs)
    decreases NDIRECT - k
  {
    hide InodeSynced, Marked, Unshared, FreedClear, CountsOk, AddBlock, Insert, WriteSlot, NewDirBlock, Own, SlotData,
         Tiles, Distinct;
    if k < NDIRECT {
      LiveDirect(fs, p, k);
      if Node(fs, p).ptrs[k] == 0 {
        if NextBlock(fs) != 0 {
          AddBlockSyncs(fs, p, k, NewDirBlock(ino, name, ftype), e);
        }
      } else {
        var r := Insert(DirBlock(fs, p, k), 0, ino, name, ftype);
        if r.Some? {
          SlotWriteSyncs(fs, p, Direct(k), r.value, e);
        } else {
          AddFromSyncs(fs, p, k + 1, ino, name, ftype, e);
        }
      }
    }
  }

  lemma SlotWriteSyncs(fs: Fs, p: nat, s: Slot, b: Block, e: nat)
    requires OwnInv(fs) && IsInode(fs, p) && IsData(s) && Own(fs, p, s) != 0 && InodesSynced(fs, e)
    ensures var gs := WriteSlot(fs, p, s, b);
            gs == fs.(disk := gs.disk) && Shape(gs) && SameMeta(fs, gs) && InodesSynced(gs, e)
  {
    hide InodeSynced, Own, Marked, Unshared, FreedClear, CountsOk, SlotData, WriteSlot;
    WriteSlotFrame(fs, p, s, b);
    InodesStay(fs, WriteSlot(fs, p, s, b), e);
  }

  lemma AddBlockSyncs(fs: Fs, p: nat, k: nat, blk: Block, e: nat)
    requires OwnInv(fs) && Live(fs, p) && k < NDIRECT && Node(fs, p).ptrs[k] == 0 && NextBlock(fs) != 0
    requires e != p && InodesSynced(fs, e)
    ensures var gs := AddBlock(fs, p, k, blk);
            && gs.sup == fs.sup.(freeBlocks := gs.sup.freeBlocks) && gs.inodeBits == fs.inodeBits && InodesSynced(gs, e)
            && (forall j: nat :: IsInode(fs, j) && j != p ==> Node(gs, j) == Node(fs, j))
  {
    hide InodeSynced, Own, Marked, Unshared, FreedClear, CountsOk, SlotData, WriteSlot, GrowDirect, SyncInode,
         NextBlock;
    GrowDirectGains(fs, p, k);
    var (f1, nb) := GrowDirect(fs, p, k);
    GainsKeepsInv(fs, f1, p, Direct(k), nb);
    var f2 := WithNode(f1, p, Node(f1, p).(size := Add32(Node(f1, p).size, BS)));
    MetaFrame(f1, f2);
    var f3 := WriteSlot(f2, p, Direct(k), blk);
    WriteSlotFrame(f2, p, Direct(k), blk);
    TwoExcept(fs, f3, p, e);
    SyncInodeSyncs(f3, p, e);
    SyncInodeFrame(f3, p);
  }

  lemma TwoExcept(fs: Fs, gs: Fs, p: nat, e: nat)
    requires SameMeta(fs, gs) && InodesSynced(fs, e)
    requires forall j: nat :: IsInode(fs, j) && j != p ==> Node(gs, j) == Node(fs, j)
    requires gs.inodeBits == fs.inodeBits
    ensures forall j: nat :: IsInode(gs, j) && j != e && j != p ==> InodeSynced(gs, j)
  {
    hide OnDisk, Shape, EncodeInode, SameTrees, SameMeta;
    SameMetaShape(fs, gs);
    forall j: nat | IsInode(gs, j) && j != e && j != p
      ensures InodeSynced(gs, j)
    {
      SameMetaOnDisk(fs, gs, j);
      assert InodeSynced(fs, j);
    }
  }

  lemma CreateSyncs(fs: Fs, p: nat, name: Name, mode: u16)
    requires ParentOk(fs, p) && Synced(fs) && IsName(name)
    ensures Synced(CreateIn(fs, p, name, mode).0)
  {
    hide InodeSynced, MapsSynced, AddFrom, BornFile, Commit, OwnInv, DirOk, FindEntry, NextInode, FreeInode, Entry,
         Untouched;
    ParentFacts(fs, p);
    var ino := NextInode(fs);
    if FindEntry(fs, p, name) == 0 && ino != 0 {
      NextInodeFree(fs);
      BornFileOk(fs, mode);
      var f2 := BornFile(fs, mode);
      BornFileSyncs(fs, mode);
      ParentStays(fs, f2, p);
      ParentFacts(f2, p);
      var (f3, ok) := AddEntry(f2, p, ino, name, 1);
      if ok {
        AddFromSyncs(f2, p, 0, ino, name, 1, ino);
        CommitSyncs(f3, ino);
      } else {
        AddEntryFails(f2, p, ino, name, 1);
        CreateFailSyncs(fs, mode);
      }
    }
  }

  lemma AddEntryFails(fs: Fs, p: nat, ino: u32, name: Name, ftype: byte)
    requires ParentOk(fs, p) && IsName(name) && Shape(fs) && (LiveDir(fs, p) ==> BlocksOk(fs, p))
    requires !AddEntry(fs, p, ino, name, ftype).1
    ensures AddEntry(fs, p, ino, name, ftype).0 == fs
  {
    hide OwnInv, AddFrom, DirOk;
    if LiveDir(fs, p) && p < fs.sup.inodesCount {
      AddFromFails(fs, p, 0, ino, name, ftype);
    }
  }

  lemma {:induction false} AddFromFails(fs: Fs, p: nat, k: nat, ino: u32, name: Name, ftype: byte)
    requires Shape(fs) && Live(fs, p) && BlocksOk(fs, p) && IsName(name) && !AddFrom(fs, p, k, ino, name, ftype).1
    ensures AddFrom(fs, p, k, ino, name, ftype).0 == fs
    decreases NDIRECT - k
  {
    if k < NDIRECT && Node(fs, p).ptrs[k] != 0 {
      LiveDirect(fs, p, k);
      AddFromFails(fs, p, k + 1, ino, name, ftype);
    }
  }

  lemma BornFileSyncs(fs: Fs, mode: u16)
    requires Synced(fs) && NextInode(fs) != 0
    ensures var gs := BornFile(fs, mode);
            InodesSynced(gs, NextInode(fs)) && SuperOk(gs.sup) && gs.disk == fs.disk
  {
    hide InodeSynced, MapsSynced, NextInode;
    NextInodeFree(fs);
    InodesLess(fs, NextInode(fs));
    InodesStay(fs, BornFile(fs, mode), NextInode(fs));
  }

  lemma InodesLess(fs: Fs, e: nat)
    requires Shape(fs) && InodesSynced(fs, 0)
    ensures InodesSynced(fs, e)
  {
    hide InodeSynced;
  }

  /** A reverted birth leaves the disk in step: only fields a dead inode may lose have changed. */
  lemma DeadSyncs(fs: Fs, gs: Fs, ino: nat)
    requires Synced(fs) && IsInode(fs, ino) && !Live(fs, ino) && SameMeta(fs, gs)
    requires gs.sup == fs.sup && gs.blockBits == fs.blockBits && gs.inodeBits == fs.inodeBits
    requires forall j: nat :: IsInode(fs, j) && j != ino ==> Node(gs, j) == Node(fs, j)
    requires SameTrees(Node(fs, ino), Node(gs, ino))
    ensures Synced(gs)
  {
    hide OnDisk, EncodeSuper, BitmapBlock, EncodeInode, DecodeInode;
    forall j: nat | IsInode(gs, j) && j != 0
      ensures InodeSynced(gs, j)
    {
      SameMetaOnDisk(fs, gs, j);
      assert InodeSynced(fs, j);
    }
  }

  lemma CreateFailSyncs(fs: Fs, mode: u16)
    requires OwnInv(fs) && Synced(fs) && NextInode(fs) != 0
    ensures Synced(FreeInode(BornFile(fs, mode), NextInode(fs)))
  {
    hide InodesSynced, MapsSynced, Marked, Unshared, FreedClear, NextInode;
    NextInodeFree(fs);
    var ino := NextInode(fs);
    var gs := FreeInode(BornFile(fs, mode), ino);
    ClearCountPositive(fs.inodeBits, fs.sup.inodesCount, ino - 1);
    assert gs.inodeBits == fs.inodeBits;
    DeadSyncs(fs, gs, ino);
  }

  lemma MkdirSyncs(fs: Fs, p: nat, name: Name, mode: u16)
    requires ParentOk(fs, p) && Synced(fs) && IsName(name)
    ensures Synced(MkdirIn(fs, p, name, mode).0)
  {
    hide InodeSynced, MapsSynced, AddFrom, BornDir, MkdirCommit, OwnInv, DirOk, FindEntry, NextInode, NextBlock,
         FreeInode, FreeBlock, MarkInode, Entry, Untouched;
    ParentFacts(fs, p);
    var ino := NextInode(fs);
    if FindEntry(fs, p, name) == 0 && ino != 0 {
      NextInodeFree(fs);
      if NextBlock(fs) == 0 {
        UnmarkInode(fs);
      } else {
        BornDirOk(fs, p, mode);
        var f3 := BornDir(fs, p, mode);
        BornDirSyncs(fs, p, mode);
        ParentStays(fs, f3, p);
        ParentFacts(f3, p);
        var (f4, ok) := AddEntry(f3, p, ino, name, 2);
        if ok {
          AddFromSyncs(f3, p, 0, ino, name, 2, ino);
          MkdirCommitSyncs(f4, p, ino);
        } else {
          AddEntryFails(f3, p, ino, name, 2);
          MkdirFailSyncs(fs, p, mode);
        }
      }
    }
  }

  lemma BornDirSyncs(fs: Fs, p: u32, mode: u16)
    requires OwnInv(fs) && Synced(fs) && NextInode(fs) != 0 && NextBlock(fs) != 0
    ensures var gs := BornDir(fs, p, mode); InodesSynced(gs, NextInode(fs)) && SuperOk(gs.sup)
  {
    hide InodeSynced, MapsSynced, NextInode, NextBlock, Marked, Unshared, FreedClear, CountsOk, BornDir, DotsBlock;
    NextInodeFree(fs);
    FreshAbove(fs);
    BornDirState(fs, p, mode);
    InodesLess(fs, NextInode(fs));
    InodesStay(fs, BornDir(fs, p, mode), NextInode(fs));
  }

  lemma FreshAbove(fs: Fs)
    requires Shape(fs) && NextBlock(fs) != 0
    ensures fs.sup.firstData <= NextBlock(fs) < fs.sup.blocksCount && !fs.blockBits[NextBlock(fs)]
  {
  }

  lemma MkdirCommitSyncs(fs: Fs, p: nat, ino: nat)
    requires Shape(fs) && IsInode(fs, p) && IsInode(fs, ino) && p != ino && SuperOk(fs.sup) && InodesSynced(fs, ino)
    ensures Synced(MkdirCommit(fs, p, ino))
  {
    hide InodeSynced, SyncInode, Commit;
    var n := Node(fs, p);
    var f1 := WithNode(fs, p, n.(links := (n.links + 1) % 0x1_0000));
    TwoExcept(fs, f1, p, ino);
    SyncInodeSyncs(f1, ino, p);
    SyncInodeFrame(f1, ino);
    CommitSyncs(SyncInode(f1, ino), p);
  }

  lemma MkdirFailSyncs(fs: Fs, p: u32, mode: u16)
    requires Shape(fs) && OwnInv(fs) && Synced(fs) && NextInode(fs) != 0 && NextBlock(fs) != 0
    ensures Synced(Unborn(fs, p, mode))
  {
    hide InodesSynced, MapsSynced, Marked, Unshared, FreedClear, NextInode, NextBlock, BornDir, DotsBlock;
    NextInodeFree(fs);
    FreshAbove(fs);
    BornDirState(fs, p, mode);
    var ino := NextInode(fs);
    var nb := NextBlock(fs);
    var gs := FreeInode(FreeBlock(BornDir(fs, p, mode), nb), ino);
    ClearCountPositive(fs.inodeBits, fs.sup.inodesCount, ino - 1);
    ClearCountPositive(fs.blockBits, fs.sup.blocksCount, nb);
    assert gs.inodeBits == fs.inodeBits;
    assert gs.blockBits == fs.blockBits;
    DeadSyncs(fs, gs, ino);
  }

  lemma {:induction false} RemoveFromSyncs(fs: Fs, p: nat, k: nat, name: Name)
    requires OwnInv(fs) && Synced(fs) && Live(fs, p) && BlocksOk(fs, p)
    ensures Synced(RemoveFrom(fs, p, k, name).0)
    decreases NDIRECT - k
  {
    hide InodeSynced, Marked, Unshared, FreedClear, CountsOk, Remove, WriteSlot, Own, SlotData, Tiles, Distinct,
         EncodeSuper, BitmapBlock;
    if k < NDIRECT {
      LiveDirect(fs, p, k);
      RemoveFromSyncs(fs, p, k + 1, name);
      if Node(fs, p).ptrs[k] != 0 {
        var r := Remove(DirBlock(fs, p, k), name);
        if r.Gone? {
          SlotWriteSyncs(fs, p, Direct(k), r.block, 0);
        }
      }
    }
  }

  lemma BurySyncs(fs: Fs, t: nat)
    requires OwnInv(fs) && Synced(fs) && Live(fs, t)
    ensures Synced(Bury(fs, t))
  {
    hide InodeSynced, MapsSynced, Own, Marked, Unshared, FreedClear, CountsOk, FreeDirects, SyncInode, FreeInode,
         CommitMaps;
    FreeDirectsOk(fs, t, 0);
    var f1 := FreeDirects(fs, t, 0);
    var f2 := WithNode(f1, t, Node(f1, t).(links := 0, size := 0, blocks := 0));
    InodesLess(fs, t);
    InodesStay(fs, f2, t);
    OneExcept(f2, t);
    SyncInodeFrame(f2, t);
    SyncInodeSyncs(f2, t, 0);
    var f3 := SyncInode(f2, t);
    KillSyncs(f3, t);
    CommitMapsSyncs(FreeInode(f3, t));
  }

  lemma KillSyncs(fs: Fs, t: nat)
    requires Shape(fs) && Live(fs, t) && InodesSynced(fs, 0)
    ensures var gs := FreeInode(fs, t); Shape(gs) && InodesSynced(gs, 0) && gs.sup.mid == fs.sup.mid
                                        && gs.sup.logBlockSize == fs.sup.logBlockSize
  {
    hide OnDisk, EncodeInode, DecodeInode;
    var gs := FreeInode(fs, t);
    forall j: nat | IsInode(gs, j) && j != 0
      ensures InodeSynced(gs, j)
    {
      assert InodeSynced(fs, j);
      assert SameMeta(fs, gs);
      SameMetaOnDisk(fs, gs, j);
      DecodeEncoded(Node(fs, j));
    }
  }

  lemma UnlinkSyncs(fs: Fs, p: nat, name: Name)
    requires FsInv(fs) && Synced(fs) && LiveDir(fs, p) && !IsDot(name)
    ensures Synced(UnlinkIn(fs, p, name).0)
  {
    hide RemoveFrom, OwnInv, TreeInv, Entry, Bury, Rebound, Untouched, Unreferenced, Tiles, BlocksOk, Synced;
    UnlinkFacts(fs, p, name);
    RemoveFromSyncs(fs, p, 0, name);
    var (f1, t) := RemoveFrom(fs, p, 0, name);
    if t != 0 {
      BurySyncs(f1, t);
    }
  }

  // ---- mounting recovers the filesystem ----

  lemma BitInBitmap(n: nat, i: nat)
    requires i < 8 * ((n + 7) / 8)
    ensures i / 8192 < BitmapBlocks(n)
  {
    var q := i / 8192;
    assert 1024 * q < (n + 7) / 8;
    assert 8192 * q + 1 <= n;
  }

  /** A bitmap written over consecutive blocks is read back unchanged. */
  lemma MountBitsRoundTrip(bits: seq<bool>, disk: seq<Block>, start: nat, n: nat)
    requires |bits| == 8 * ((n + 7) / 8) && start + BitmapBlocks(n) <= |disk|
    requires forall b :: 0 <= b < BitmapBlocks(n) ==> disk[start + b] == BitmapBlock(bits, b)
    ensures MountBits(disk, start, n) == bits
  {
    hide BitmapBlock, DiskBit, BitmapBlocks;
    forall i | 0 <= i < |bits|
      ensures DiskBit(disk, start, i) == bits[i]
    {
      BitInBitmap(n, i);
      BitmapRoundTrip(bits, disk, start, i);
    }
  }

  lemma MountedBits(fs: Fs)
    requires Synced(fs)
    ensures MountBits(fs.disk, 2, fs.sup.blocksCount) == fs.blockBits
    ensures MountBits(fs.disk, InodeBitmapBlock(fs.sup.blocksCount), fs.sup.inodesCount) == fs.inodeBits
  {
    hide BitmapBlock, MountBits, InodesSynced, EncodeSuper;
    MountBitsRoundTrip(fs.blockBits, fs.disk, 2, fs.sup.blocksCount);
    assert BitmapBlocks(fs.sup.inodesCount) == 1;
    MountBitsRoundTrip(fs.inodeBits, fs.disk, InodeBitmapBlock(fs.sup.blocksCount), fs.sup.inodesCount);
  }

  /** Mounting the disk of a synced filesystem gives back the superblock with both free counters,
      both bitmaps, every live inode and, for dead inodes, the block trees they still hold. */
  lemma MountRecovers(fs: Fs)
    requires Synced(fs)
    ensures Mountable(fs.disk)
    ensures var m := Mount(fs.disk);
            && m.sup == fs.sup && m.blockBits == fs.blockBits && m.inodeBits == fs.inodeBits && m.disk == fs.disk
            && |m.inodes| == |fs.inodes|
            && (forall j: nat :: Live(fs, j) ==> Node(m, j) == Node(fs, j))
            && (forall j: nat :: IsInode(fs, j) ==> SameTrees(Node(m, j), Node(fs, j)))
  {
    hide EncodeSuper, DecodeSuper, EncodeInode, DecodeInode, OnDisk, BitmapBlock, MountBits, DiskBit;
    SuperRoundTrip(fs.sup);
    var m := Mount(fs.disk);
    MountedBits(fs);
    forall j: nat | IsInode(fs, j)
      ensures Live(fs, j) ==> Node(m, j) == Node(fs, j)
      ensures SameTrees(Node(m, j), Node(fs, j))
    {
      MountedInode(fs, j);
      assert InodeSynced(fs, j);
      if Live(fs, j) {
        InodeRoundTrip(Node(fs, j));
      }
    }
  }

  lemma MountedInode(fs: Fs, j: nat)
    requires Shape(fs) && IsInode(fs, j) && Mountable(fs.disk) && DecodeSuper(fs.disk[1]) == fs.sup
    ensures IsInode(Mount(fs.disk), j) && Node(Mount(fs.disk), j) == DecodeInode(OnDisk(fs, j))
  {
    hide DecodeInode, DecodeSuper, MountBits, RawInode;
  }

  lemma MountOwn(fs: Fs, m: Fs, j: nat, t: Slot)
    requires m.inodeBits == fs.inodeBits && m.disk == fs.disk && |m.inodes| == |fs.inodes|
    requires Live(fs, j) ==> Node(m, j) == Node(fs, j)
    requires IsInode(fs, j) ==> SameTrees(Node(m, j), Node(fs, j))
    ensures Own(m, j, t) == Own(fs, j, t)
  {
  }

  /** The mounted filesystem satisfies the same invariants, with every live inode untouched. */
  lemma MountKeepsInv(fs: Fs)
    requires FsInv(fs) && Synced(fs)
    ensures Mountable(fs.disk)
    ensures var m := Mount(fs.disk); FsInv(m) && Synced(m) && forall j: nat :: Untouched(fs, m, j)
  {
    hide Mount, Mountable, Own, TreeInv, InodeSynced, EncodeSuper, BitmapBlock, SameTrees;
    MountRecovers(fs);
    var m := Mount(fs.disk);
    forall j: nat, t: Slot
      ensures Own(m, j, t) == Own(fs, j, t)
    {
      MountOwn(fs, m, j, t);
    }
    assert Marked(m) && Unshared(m);
    forall j: nat | IsInode(m, j) && !Live(m, j)
      ensures DirectTailClear(Node(m, j))
    {
      DeadClear(Node(fs, j), Node(m, j));
    }
    UntouchedTree(fs, m);
    forall j: nat | IsInode(m, j) && j != 0
      ensures InodeSynced(m, j)
    {
      MountedSynced(fs, m, j);
    }
  }

  lemma DeadClear(a: Inode, b: Inode)
    requires DirectTailClear(a) && SameTrees(b, a)
    ensures DirectTailClear(b)
  {
  }

  lemma MountedSynced(fs: Fs, m: Fs, j: nat)
    requires Synced(fs) && Mountable(fs.disk) && m == Mount(fs.disk) && m.sup == fs.sup && m.inodeBits == fs.inodeBits
    requires IsInode(fs, j) && Shape(m) && |m.inodes| == |fs.inodes| && m.disk == fs.disk
    requires Live(fs, j) ==> Node(m, j) == Node(fs, j)
    ensures InodeSynced(m, j)
  {
    hide DecodeInode, EncodeInode, OnDisk, Mount, MapsSynced, DecodeSuper, EncodeSuper;
    assert InodeSynced(fs, j);
    SuperRoundTrip(fs.sup);
    SyncedSuper(fs);
    MountedInode(fs, j);
    assert SameMeta(fs, m);
    SameMetaOnDisk(fs, m, j);
  }

  lemma SyncedSuper(fs: Fs)
    requires Synced(fs)
    ensures fs.disk[1] == EncodeSuper(fs.sup)
  {
  }
}
