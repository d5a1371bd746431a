/** Bitmaps are padded to whole bytes; the kernel never sets a padding bit. The host tool counts whole bytes
    and relies on that. */
module Ext2Padding {
  import opened Bytes
  import opened Ext2State
  import opened Ext2Ownership
  import opened Ext2Bmap
  import opened Ext2Disk
  import opened Ext2File
  import opened Ext2DirBlock
  import opened Ext2Dir
  import opened Ext2Tree
  import opened Ext2Names
  import opened Ext2Persist
  import opened Ext2Runs
  import opened Ext2Format

  /** The bits that pad each bitmap to whole bytes are clear. */
  predicate PadClear(fs: Fs)
    requires Shape(fs)
  {
    && (forall k :: fs.sup.blocksCount <= k < |fs.blockBits| ==> !fs.blockBits[k])
    && (forall k :: fs.sup.inodesCount <= k < |fs.inodeBits| ==> !fs.inodeBits[k])
  }

  /** Same geometry, and no padding bit was set. */
  predicate Pads(fs: Fs, gs: Fs) {
    && Shape(fs) && Shape(gs)
    && gs.sup.blocksCount == fs.sup.blocksCount && gs.sup.inodesCount == fs.sup.inodesCount
    && (forall k :: fs.sup.blocksCount <= k < |fs.blockBits| ==> gs.blockBits[k] ==> fs.blockBits[k])
    && (forall k :: fs.sup.inodesCount <= k < |fs.inodeBits| ==> gs.inodeBits[k] ==> fs.inodeBits[k])
  }

  lemma PadsTransitive(fs: Fs, gs: Fs, hs: Fs)
    requires Pads(fs, gs) && Pads(gs, hs)
    ensures Pads(fs, hs)
  {
  }

  lemma PadsClear(fs: Fs, gs: Fs)
    requires Pads(fs, gs) && PadClear(fs)
    ensures PadClear(gs)
  {
  }

  lemma SamePads(fs: Fs, gs: Fs)
    requires Shape(fs) && Shape(gs) && gs.blockBits == fs.blockBits && gs.inodeBits == fs.inodeBits
    requires gs.sup.blocksCount == fs.sup.blocksCount && gs.sup.inodesCount == fs.sup.inodesCount
    ensures Pads(fs, gs)
  {
  }

  // ---- mapping blocks ----

  lemma DirectPads(fs: Fs, ino: nat, k: nat)
    requires Shape(fs) && IsInode(fs, ino) && k < NDIRECT
    ensures Pads(fs, GrowDirect(fs, ino, k).0)
  {
  }

  lemma TablePads(fs: Fs, ino: nat, k: nat)
    requires Shape(fs) && IsInode(fs, ino) && k < 15
    ensures Pads(fs, GrowTable(fs, ino, k).0)
  {
  }

  lemma EntryPads(fs: Fs, ino: nat, t: nat, k: nat, zero: bool)
    requires Shape(fs) && IsInode(fs, ino) && k < PTRS
    ensures Pads(fs, GrowEntry(fs, ino, t, k, zero).0)
  {
    hide SetEntry, ClearDisk, TableAt;
  }

  lemma Level2Pads(fs: Fs, ino: nat, a: nat)
    requires Shape(fs) && IsInode(fs, ino) && a < PTRS
    ensures Pads(fs, GrowLevel2(fs, ino, a).0)
  {
    hide GrowTable, GrowEntry, Pads;
    var (f1, t) := GrowTable(fs, ino, 13);
    TablePads(fs, ino, 13);
    if t != 0 {
      EntryPads(f1, ino, t, a, true);
      PadsTransitive(fs, f1, GrowEntry(f1, ino, t, a, true).0);
    }
  }

  lemma SlotPads(fs: Fs, ino: nat, s: Slot)
    requires Shape(fs) && IsInode(fs, ino) && SlotOk(s)
    ensures Pads(fs, GrowSlot(fs, ino, s).0)
  {
    hide GrowTable, GrowEntry, GrowDirect, GrowLevel2, Pads;
    match s
    case Direct(i) => DirectPads(fs, ino, i);
    case SingleEntry(k) =>
      var (f1, t) := GrowTable(fs, ino, 12);
      TablePads(fs, ino, 12);
      if t != 0 {
        EntryPads(f1, ino, t, k, false);
        PadsTransitive(fs, f1, GrowEntry(f1, ino, t, k, false).0);
      }
    case Level2Entry(a, b) =>
      var (f2, l2) := GrowLevel2(fs, ino, a);
      Level2Pads(fs, ino, a);
      if l2 != 0 {
        EntryPads(f2, ino, l2, b, false);
        PadsTransitive(fs, f2, GrowEntry(f2, ino, l2, b, false).0);
      }
  }

  lemma TurnPads(fs: Fs, ino: nat, off: nat, data: seq<byte>)
    requires Shape(fs) && IsInode(fs, ino)
    ensures Pads(fs, WriteTurn(fs, ino, off, data).0)
  {
    hide GrowSlot, PutChunk, Pads, Shape;
    var m := BmapAlloc(fs, ino, off / BS);
    DataSlotOk(off / BS);
    if off / BS < MAX_FILE_BLOCKS {
      SlotPads(fs, ino, DataSlot(off / BS));
    } else {
      SamePads(fs, fs);
    }
    var r := WriteTurn(fs, ino, off, data).0;
    assert r == m.0.(disk := r.disk);
    SamePads(m.0, r);
    PadsTransitive(fs, m.0, r);
  }

  lemma {:induction false} LoopPads(fs: Fs, ino: nat, off: nat, data: seq<byte>)
    requires Shape(fs) && IsInode(fs, ino)
    ensures Pads(fs, WriteLoop(fs, ino, off, data).0)
    decreases |data|
  {
    hide WriteTurn, Pads;
    if data == [] {
      SamePads(fs, fs);
    } else {
      var (f1, c) := WriteTurn(fs, ino, off, data);
      TurnPads(fs, ino, off, data);
      if c != 0 {
        LoopPads(f1, ino, off + c, data[c..]);
        PadsTransitive(fs, f1, WriteLoop(f1, ino, off + c, data[c..]).0);
      }
    }
  }

  lemma WritePads(fs: Fs, ino: nat, off: nat, data: seq<byte>)
    requires Shape(fs) && IsInode(fs, ino)
    ensures Pads(fs, Write(fs, ino, off, data).0)
  {
    hide WriteLoop, Commit;
    LoopPads(fs, ino, off, data);
  }

  // ---- names ----

  lemma {:induction false} AddFromPads(fs: Fs, d: nat, k: nat, ino: u32, name: Name, ftype: byte)
    requires Shape(fs) && Live(fs, d) && BlocksOk(fs, d) && IsName(name)
    ensures Pads(fs, AddFrom(fs, d, k, ino, name, ftype).0)
    decreases NDIRECT - k
  {
    hide Insert, Tiles, Distinct, BlocksOk, NewDirBlock, AddBlock, WriteSlot, SlotData, Own, Pads, NextBlock, Shape;
    SamePads(fs, fs);
    if k < NDIRECT {
      if Node(fs, d).ptrs[k] == 0 {
        AddBlockPads(fs, d, k, NewDirBlock(ino, name, ftype));
      } else {
        DirBlockTiles(fs, d, k);
        var r := Insert(DirBlock(fs, d, k), 0, ino, name, ftype);
        if r.Some? {
          WriteSlotPads(fs, d, k, r.value);
        } else {
          AddFromPads(fs, d, k + 1, ino, name, ftype);
        }
      }
    }
  }

  lemma WriteSlotPads(fs: Fs, d: nat, k: nat, b: Block)
    requires Shape(fs)
    ensures Pads(fs, WriteSlot(fs, d, Direct(k), b))
  {
    hide Own;
  }

  lemma AddBlockPads(fs: Fs, d: nat, k: nat, blk: Block)
    requires Shape(fs) && IsInode(fs, d) && k < NDIRECT
    ensures Pads(fs, AddBlock(fs, d, k, blk))
  {
    hide GrowDirect, Own, EncodeInode, Splice;
    DirectPads(fs, d, k);
    var gs := AddBlock(fs, d, k, blk);
    var f1 := GrowDirect(fs, d, k).0;
    assert gs.blockBits == f1.blockBits && gs.inodeBits == f1.inodeBits && gs.sup == f1.sup;
  }

  lemma AddEntryPads(fs: Fs, p: nat, ino: u32, name: Name, ftype: byte)
    requires Shape(fs) && IsName(name) && Live(fs, p) && (LiveDir(fs, p) ==> BlocksOk(fs, p))
    ensures Pads(fs, AddEntry(fs, p, ino, name, ftype).0)
  {
    hide AddFrom, BlocksOk, Pads;
    SamePads(fs, fs);
    if p < fs.sup.inodesCount && LiveDir(fs, p) {
      AddFromPads(fs, p, 0, ino, name, ftype);
    }
  }

  lemma FreeInodePads(fs: Fs, ino: nat)
    requires Shape(fs)
    ensures Pads(fs, FreeInode(fs, ino))
  {
  }

  lemma BornPads(fs: Fs, n: Inode)
    requires Shape(fs) && NextInode(fs) != 0
    ensures var gs := Born(fs, NextInode(fs), n); Shape(gs) && Pads(fs, gs)
  {
    hide NextInode;
    NextInodeFree(fs);
  }

  lemma CreatePads(fs: Fs, p: nat, name: Name, mode: u16)
    requires ParentOk(fs, p) && IsName(name)
    ensures Shape(fs) && Pads(fs, CreateIn(fs, p, name, mode).0)
  {
    hide BornFile, AddEntry, Commit, OwnInv, DirOk, FindEntry, Pads, FreeInode, NextInode, Untouched, Entry, Shape;
    ParentFacts(fs, p);
    SamePads(fs, fs);
    var ino := NextInode(fs);
    if FindEntry(fs, p, name) == 0 && ino != 0 {
      var f2 := BornFile(fs, mode);
      BornFilePads(fs, mode);
      BornFileOk(fs, mode);
      ParentStays(fs, f2, p);
      ParentFacts(f2, p);
      var (f3, ok) := AddEntry(f2, p, ino, name, 1);
      AddEntryPads(f2, p, ino, name, 1);
      PadsTransitive(fs, f2, f3);
      if ok {
        CommitPads(f3, ino);
        PadsTransitive(fs, f3, Commit(f3, ino));
      } else {
        FreeInodePads(f3, ino);
        PadsTransitive(fs, f3, FreeInode(f3, ino));
      }
    }
  }

  lemma BornFilePads(fs: Fs, mode: u16)
    requires Shape(fs) && NextInode(fs) != 0
    ensures Pads(fs, BornFile(fs, mode))
  {
    hide Pads, NextInode;
    BornPads(fs, FileNode(Node(fs, NextInode(fs)), mode));
  }

  lemma CommitPads(fs: Fs, ino: nat)
    requires Shape(fs) && IsInode(fs, ino)
    ensures Pads(fs, Commit(fs, ino))
  {
    hide Commit;
  }

  lemma MkdirPads(fs: Fs, p: nat, name: Name, mode: u16)
    requires ParentOk(fs, p) && IsName(name)
    ensures Shape(fs) && Pads(fs, MkdirIn(fs, p, name, mode).0)
  {
    hide BornDir, AddEntry, OwnInv, DirOk, FindEntry, Pads, FreeInode, FreeBlock, MkdirCommit, MarkInode, NextInode,
         NextBlock, Untouched, Entry, Shape;
    ParentFacts(fs, p);
    SamePads(fs, fs);
    var ino := NextInode(fs);
    if FindEntry(fs, p, name) == 0 && ino != 0 {
      if NextBlock(fs) == 0 {
        TakenBackPads(fs);
      } else {
        var f3 := BornDir(fs, p, mode);
        BornDirPads(fs, p, mode);
        BornDirOk(fs, p, mode);
        ParentStays(fs, f3, p);
        ParentFacts(f3, p);
        var (f4, ok) := AddEntry(f3, p, ino, name, 2);
        AddEntryPads(f3, p, ino, name, 2);
        PadsTransitive(fs, f3, f4);
        MkdirEndPads(f4, p, ino, NextBlock(fs), ok);
        PadsTransitive(fs, f4, if ok then MkdirCommit(f4, p, ino) else FreeInode(FreeBlock(f4, NextBlock(fs)), ino));
      }
    }
  }

  lemma TakenBackPads(fs: Fs)
    requires Shape(fs) && NextInode(fs) != 0
    ensures var ino := NextInode(fs); Shape(MarkInode(fs, ino)) && Pads(fs, FreeInode(MarkInode(fs, ino), ino))
  {
    hide NextInode;
    NextInodeFree(fs);
  }

  lemma BornDirPads(fs: Fs, p: u32, mode: u16)
    requires Shape(fs) && NextInode(fs) != 0
    ensures Pads(fs, BornDir(fs, p, mode))
  {
    hide GrowDirect, WriteSlot, NextInode, DotsBlock, Pads;
    NextInodeFree(fs);
    var ino := NextInode(fs);
    BornPads(fs, DirNode(Node(fs, ino), mode));
    var f1 := Born(fs, ino, DirNode(Node(fs, ino), mode));
    DirectPads(f1, ino, 0);
    var f2 := GrowDirect(f1, ino, 0).0;
    WriteSlotPads(f2, ino, 0, DotsBlock(ino, p));
    PadsTransitive(fs, f1, f2);
    PadsTransitive(fs, f2, WriteSlot(f2, ino, Direct(0), DotsBlock(ino, p)));
  }

  lemma MkdirEndPads(fs: Fs, p: nat, ino: nat, b: nat, ok: bool)
    requires Shape(fs) && IsInode(fs, p) && IsInode(fs, ino)
    ensures Shape(FreeBlock(fs, b))
    ensures Pads(fs, if ok then MkdirCommit(fs, p, ino) else FreeInode(FreeBlock(fs, b), ino))
  {
    hide SyncInode, Commit, FreeInode, FreeBlock;
    var f1 := WithNode(fs, p, Node(fs, p).(links := (Node(fs, p).links + 1) % 0x1_0000));
    SyncInodeFrame(f1, ino);
    FreeBlockPads(fs, b);
    FreeInodePads(FreeBlock(fs, b), ino);
    PadsTransitive(fs, FreeBlock(fs, b), FreeInode(FreeBlock(fs, b), ino));
  }

  lemma FreeBlockPads(fs: Fs, b: nat)
    requires Shape(fs)
    ensures Pads(fs, FreeBlock(fs, b))
  {
  }

  lemma {:induction false} FreeDirectsPads(fs: Fs, ino: nat, k: nat)
    requires Shape(fs) && IsInode(fs, ino)
    ensures Pads(fs, FreeDirects(fs, ino, k))
    decreases NDIRECT - k
  {
    hide Pads, FreeDirect;
    SamePads(fs, fs);
    if k < NDIRECT {
      FreeDirectPads(fs, ino, k);
      FreeDirectsPads(FreeDirect(fs, ino, k), ino, k + 1);
      PadsTransitive(fs, FreeDirect(fs, ino, k), FreeDirects(FreeDirect(fs, ino, k), ino, k + 1));
    }
  }

  lemma FreeDirectPads(fs: Fs, ino: nat, k: nat)
    requires Shape(fs) && IsInode(fs, ino) && k < NDIRECT
    ensures Pads(fs, FreeDirect(fs, ino, k))
  {
  }

  lemma BuryPads(fs: Fs, t: nat)
    requires Shape(fs) && IsInode(fs, t)
    ensures Pads(fs, Bury(fs, t))
  {
    hide FreeDirects, SyncInode, CommitMaps;
    FreeDirectsPads(fs, t, 0);
    var f1 := FreeDirects(fs, t, 0);
    var f2 := WithNode(f1, t, Node(f1, t).(links := 0, size := 0, blocks := 0));
    SyncInodeFrame(f2, t);
  }

  lemma UnlinkPads(fs: Fs, p: nat, name: Name)
    requires FsInv(fs) && LiveDir(fs, p) && !IsDot(name)
    ensures Shape(fs) && Pads(fs, UnlinkIn(fs, p, name).0)
  {
    hide RemoveFrom, OwnInv, TreeInv, Entry, Bury, Rebound, Untouched, Unreferenced, Tiles, BlocksOk, Pads, Shape;
    OwnInvShape(fs);
    UnlinkFacts(fs, p, name);
    var (f1, t) := RemoveFrom(fs, p, 0, name);
    OwnInvShape(f1);
    SamePads(fs, f1);
    if t != 0 && !(LiveDir(f1, t) && Node(f1, t).ptrs[0] != 0 && CountUsed(DirBlock(f1, t, 0), 0) > 2) {
      BuryPads(f1, t);
      PadsTransitive(fs, f1, Bury(f1, t));
    }
  }

  // ---- runs ----

  lemma ExecPads(fs: Fs, op: Op)
    requires Good(fs) && Allowed(fs, op)
    ensures Pads(fs, Exec(fs, op))
  {
    hide OwnInv, TreeInv, Synced, CreateIn, MkdirIn, UnlinkIn, Write, Resolve, Mount, Mountable, Entry, Pads, SyncInode;
    OwnInvShape(fs);
    SamePads(fs, fs);
    match op
    case Create(dir, name, mode) =>
      ResolveLive(fs, dir);
      if Resolve(fs, dir) != 0 {
        CreatePads(fs, Resolve(fs, dir), name, mode);
      }
    case Mkdir(dir, name, mode) =>
      ResolveLive(fs, dir);
      if Resolve(fs, dir) != 0 {
        MkdirPads(fs, Resolve(fs, dir), name, mode);
      }
    case WriteAt(ino, off, data) => WritePads(fs, ino, off, data);
    case TruncateTo0(path) => TruncatePads(fs, Resolve(fs, path));
    case Unlink(dir, name) =>
      if Resolve(fs, dir) != 0 {
        UnlinkPads(fs, Resolve(fs, dir), name);
      }
    case Remount =>
      MountPads(fs);
  }

  lemma TruncatePads(fs: Fs, ino: nat)
    requires Shape(fs)
    ensures Pads(fs, Truncate(fs, ino).0)
  {
    hide SyncInode;
    if ino != 0 && ino < fs.sup.inodesCount {
      SyncInodeFrame(WithNode(fs, ino, Node(fs, ino).(size := 0)), ino);
    }
  }

  lemma MountPads(fs: Fs)
    requires Synced(fs)
    ensures Mountable(fs.disk) && Pads(fs, Mount(fs.disk))
  {
    hide Mount, Mountable, MapsSynced, InodesSynced;
    MountRecovers(fs);
  }

  lemma {:induction false} RunPads(fs: Fs, ops: seq<Op>)
    requires Good(fs) && AllAllowed(fs, ops) && Shape(fs) && PadClear(fs)
    ensures Shape(Run(fs, ops)) && PadClear(Run(fs, ops))
    decreases |ops|
  {
    hide FsInv, Synced, Exec, Allowed, Pads, PadClear;
    if ops != [] {
      ExecGood(fs, ops[0]);
      ExecPads(fs, ops[0]);
      PadsShape(fs, Exec(fs, ops[0]));
      PadsClear(fs, Exec(fs, ops[0]));
      RunPads(Exec(fs, ops[0]), ops[1..]);
    }
  }

  lemma PadsShape(fs: Fs, gs: Fs)
    requires Pads(fs, gs)
    ensures Shape(gs)
  {
  }

  /** Every image the kernel leaves behind, from the first format on, has clear padding. */
  lemma ReachablePads(n: u32, disk: seq<Block>, ops: seq<Op>)
    requires 8 <= n <= MAX_BLOCKS && n <= |disk|
    requires Good(Format(n, disk)) && AllAllowed(Format(n, disk), ops)
    ensures var fs := Run(Format(n, disk), ops); Good(fs) && Shape(fs) && PadClear(fs)
  {
    hide FsInv, Synced, Format, PadClear;
    FormatPads(n, disk);
    RunGood(Format(n, disk), ops);
    RunPads(Format(n, disk), ops);
  }

  lemma FormatPads(n: u32, disk: seq<Block>)
    requires 8 <= n <= MAX_BLOCKS && n <= |disk|
    ensures Shape(Format(n, disk)) && PadClear(Format(n, disk))
  {
    hide SyncTable, CommitMaps, DotsBlock, MagicBytes;
    FirstFits(n);
    var fs := Fresh(n, disk);
    assert InodesFor(n) >= ROOT_INODE;
    assert PadClear(fs);
  }
}
