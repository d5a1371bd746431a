/** What each operation takes and gives back, block by block, and what it records. */
module Ext2Ledger {
  import opened Bytes
  import opened Bitmaps
  import opened Ext2State
  import opened Ext2Ownership
  import opened Ext2Bmap
  import opened Ext2Disk
  import opened Ext2File
  import opened Ext2DirBlock
  import opened Ext2Dir
  import opened Ext2Tree
  import opened Ext2Names
  import opened Ext2Room

  // ---- unlink ----

  /** One of the direct pointers from `k` on is block `b`. */
  ghost predicate PointsAt(n: Inode, k: nat, b: nat) { b != 0 && exists i: nat :: k <= i < NDIRECT && n.ptrs[i] == b }

  /** The nonzero direct pointers from `k` on. */
  function InUse(n: Inode, k: nat): set<nat> { set i: nat | k <= i < NDIRECT && n.ptrs[i] != 0 }

  /** The release loop gives back exactly the direct blocks and nothing else. */
  lemma {:induction false} FreeDirectsExact(fs: Fs, ino: nat, k: nat)
    requires OwnInv(fs) && Live(fs, ino)
    ensures Shape(fs)
    ensures var gs := FreeDirects(fs, ino, k); var n := Node(fs, ino);
            && |gs.blockBits| == |fs.blockBits| && |gs.inodes| == |fs.inodes| && gs.disk == fs.disk
            && gs.inodeBits == fs.inodeBits && IsInode(gs, ino)
            && (forall b :: 0 <= b < |fs.blockBits| ==> (gs.blockBits[b] <==> fs.blockBits[b] && !PointsAt(n, k, b)))
            && gs.sup.freeBlocks as int == fs.sup.freeBlocks as int + |InUse(n, k)|
            && gs.sup == fs.sup.(freeBlocks := gs.sup.freeBlocks)
            && (forall i :: 0 <= i < 15 ==> Node(gs, ino).ptrs[i] == if k <= i < NDIRECT then 0 else n.ptrs[i])
            && Node(gs, ino) == n.(ptrs := Node(gs, ino).ptrs)
            && (forall j: nat :: IsInode(fs, j) && j != ino ==> Node(gs, j) == Node(fs, j))
    decreases NDIRECT - k
  {
    hide Own, Marked, Unshared, FreedClear, CountsOk, FreeBlock, PointsAt, InUse;
    OwnInvShape(fs);
    var n := Node(fs, ino);
    if k >= NDIRECT {
      NoPointers(n, k);
    } else {
      var f1 := FreeDirect(fs, ino, k);
      if n.ptrs[k] != 0 {
        FreeDirectLoses(fs, ino, k);
        LosesKeepsInv(fs, f1, ino, Direct(k), n.ptrs[k]);
        FreeDirectNode(fs, ino, k);
        FreeRises(fs);
      }
      FreeDirectsExact(f1, ino, k + 1);
      OnePointer(n, Node(f1, ino), k);
    }
  }

  lemma NoPointers(n: Inode, k: nat)
    requires k >= NDIRECT
    ensures (forall b: nat :: !PointsAt(n, k, b)) && InUse(n, k) == {}
  {
  }

  lemma OnePointer(n: Inode, m: Inode, k: nat)
    requires k < NDIRECT && forall i :: k < i < NDIRECT ==> m.ptrs[i] == n.ptrs[i]
    ensures forall b: nat :: PointsAt(n, k, b) <==> PointsAt(m, k + 1, b) || (b != 0 && b == n.ptrs[k])
    ensures |InUse(n, k)| == |InUse(m, k + 1)| + if n.ptrs[k] != 0 then 1 else 0
  {
    assert InUse(n, k) == InUse(m, k + 1) + if n.ptrs[k] != 0 then {k} else {};
    forall b: nat | PointsAt(m, k + 1, b)
      ensures PointsAt(n, k, b)
    {
      var i: nat :| k + 1 <= i < NDIRECT && m.ptrs[i] == b;
      assert n.ptrs[i] == b;
    }
    forall b: nat | PointsAt(n, k, b) && b != n.ptrs[k]
      ensures PointsAt(m, k + 1, b)
    {
      var i: nat :| k <= i < NDIRECT && n.ptrs[i] == b;
      assert m.ptrs[i] == b;
    }
  }

  /** The free counter does not wrap. */
  lemma FreeRises(fs: Fs)
    requires OwnInv(fs)
    ensures Inc32(fs.sup.freeBlocks) as int == fs.sup.freeBlocks as int + 1
  {
    hide Marked, Unshared, FreedClear;
    ClearCountBound(fs.blockBits, fs.sup.blocksCount);
  }

  lemma ClearCountBound(bits: seq<bool>, n: nat)
    requires n <= |bits|
    ensures ClearCount(bits, n) <= n
  {
  }

  /** Whatever became of the block, the record of a dead inode. */
  predicate Emptied(n: Inode, m: Inode) {
    && m == n.(size := 0, links := 0, blocks := 0, ptrs := m.ptrs)
    && (forall i :: 0 <= i < 15 ==> m.ptrs[i] == if i < NDIRECT then 0 else n.ptrs[i])
  }

  lemma BuryExact(fs: Fs, t: nat)
    requires OwnInv(fs) && Live(fs, t)
    ensures Shape(fs)
    ensures var gs := Bury(fs, t); var n := Node(fs, t);
            && |gs.blockBits| == |fs.blockBits| && |gs.inodes| == |fs.inodes|
            && (forall b :: 0 <= b < |fs.blockBits| ==> (gs.blockBits[b] <==> fs.blockBits[b] && !PointsAt(n, 0, b)))
            && gs.inodeBits == fs.inodeBits[t - 1 := false]
            && gs.sup.freeBlocks as int == fs.sup.freeBlocks as int + |InUse(n, 0)|
            && gs.sup.freeInodes as int == fs.sup.freeInodes as int + 1
            && gs.sup == fs.sup.(freeBlocks := gs.sup.freeBlocks, freeInodes := gs.sup.freeInodes)
            && Emptied(n, Node(gs, t)) && (forall j: nat :: IsInode(fs, j) && j != t ==> Node(gs, j) == Node(fs, j))
  {
    hide Own, Marked, Unshared, FreedClear, FreeDirects, SyncInode, CommitMaps, PointsAt, InUse, ClearCount;
    OwnInvShape(fs);
    FreeDirectsExact(fs, t, 0);
    var f1 := FreeDirects(fs, t, 0);
    var f2 := WithNode(f1, t, Node(f1, t).(links := 0, size := 0, blocks := 0));
    SyncInodeFrame(f2, t);
    ClearCountBound(fs.inodeBits, fs.sup.inodesCount);
  }

  /** What unlink does to the maps. With result 0 exactly the direct blocks of the inode and the inode itself become
      free, and both counters follow; with any other result nothing does. */
  lemma UnlinkFrees(fs: Fs, p: nat, name: Name)
    requires FsInv(fs) && LiveDir(fs, p) && !IsDot(name)
    ensures var (gs, r) := UnlinkIn(fs, p, name); var t := Entry(fs, p, name);
            && |gs.blockBits| == |fs.blockBits| && |gs.inodes| == |fs.inodes|
            && (r != 0 ==> gs == fs.(disk := gs.disk))
            && (r == 0 ==>
                  && IsInode(fs, t)
                  && (forall b :: 0 <= b < |fs.blockBits| ==>
                        (gs.blockBits[b] <==> fs.blockBits[b] && !PointsAt(Node(fs, t), 0, b)))
                  && 1 <= t <= |fs.inodeBits| && gs.inodeBits == fs.inodeBits[t - 1 := false]
                  && gs.sup.freeBlocks as int == fs.sup.freeBlocks as int + |InUse(Node(fs, t), 0)|
                  && gs.sup.freeInodes as int == fs.sup.freeInodes as int + 1
                  && Emptied(Node(fs, t), Node(gs, t))
                  && (forall j: nat :: IsInode(fs, j) && j != t ==> Node(gs, j) == Node(fs, j)))
  {
    hide RemoveFrom, OwnInv, TreeInv, Entry, Bury, Rebound, Untouched, Unreferenced, Tiles, BlocksOk, PointsAt, InUse,
         Emptied, Own;
    OwnInvShape(fs);
    UnlinkFacts(fs, p, name);
    var (f1, t) := RemoveFrom(fs, p, 0, name);
    if t != 0 {
      OwnInvShape(f1);
      BuryExact(f1, t);
    }
  }

  // ---- sectors ----

  /** Two records that differ at most in pointers, size and sector count. */
  predicate SameKind(n: Inode, m: Inode) { m == n.(ptrs := m.ptrs, size := m.size, blocks := m.blocks) }

  /** The sector count of inode `ino` grew by two for every block taken; type, owner and links are as they were. */
  ghost predicate Pays(fs: Fs, gs: Fs, ino: nat) {
    && Shape(fs) && Shape(gs) && IsInode(fs, ino) && IsInode(gs, ino) && FreeData(gs) <= FreeData(fs)
    && SameKind(Node(fs, ino), Node(gs, ino))
    && Node(gs, ino).blocks == Add32(Node(fs, ino).blocks, 2 * (FreeData(fs) - FreeData(gs)))
  }

  lemma PaysTransitive(fs: Fs, gs: Fs, hs: Fs, ino: nat)
    requires Pays(fs, gs, ino) && Pays(gs, hs, ino)
    ensures Pays(fs, hs, ino)
  {
    hide FreeData, Add32;
    AddTwice(Node(fs, ino).blocks, 2 * (FreeData(fs) - FreeData(gs)), 2 * (FreeData(gs) - FreeData(hs)));
  }

  lemma AddTwice(x: u32, a: nat, b: nat)
    ensures Add32(Add32(x, a), b) == Add32(x, a + b)
  {
  }

  lemma PaysNothing(fs: Fs, gs: Fs, ino: nat)
    requires Shape(fs) && Shape(gs) && IsInode(fs, ino) && IsInode(gs, ino) && gs.blockBits == fs.blockBits
    requires gs.sup.firstData == fs.sup.firstData && gs.sup.blocksCount == fs.sup.blocksCount
    requires Node(gs, ino).blocks == Node(fs, ino).blocks && SameKind(Node(fs, ino), Node(gs, ino))
    ensures Pays(fs, gs, ino)
  {
    hide FreeData;
    SameBits(fs, gs);
  }

  lemma PaysOne(fs: Fs, gs: Fs, ino: nat)
    requires Shape(fs) && NextBlock(fs) != 0 && Shape(gs) && IsInode(fs, ino) && IsInode(gs, ino)
    requires gs.blockBits == fs.blockBits[NextBlock(fs) := true]
    requires gs.sup.firstData == fs.sup.firstData && gs.sup.blocksCount == fs.sup.blocksCount
    requires Node(gs, ino).blocks == Add32(Node(fs, ino).blocks, 2) && SameKind(Node(fs, ino), Node(gs, ino))
    ensures Pays(fs, gs, ino)
  {
    hide FreeData, NextBlock;
    NextBlockExact(fs);
    SameBits(MarkBlock(fs, NextBlock(fs)), gs);
  }

  lemma DirectPays(fs: Fs, ino: nat, k: nat)
    requires Shape(fs) && IsInode(fs, ino) && k < NDIRECT
    ensures Pays(fs, GrowDirect(fs, ino, k).0, ino)
  {
    hide NextBlock, Pays;
    PaysNothing(fs, fs, ino);
    if Node(fs, ino).ptrs[k] == 0 && NextBlock(fs) != 0 {
      PaysOne(fs, GrowDirect(fs, ino, k).0, ino);
    }
  }

  lemma TablePays(fs: Fs, ino: nat, k: nat)
    requires Shape(fs) && IsInode(fs, ino) && k < 15
    ensures Pays(fs, GrowTable(fs, ino, k).0, ino)
  {
    hide NextBlock, Pays, ClearDisk;
    PaysNothing(fs, fs, ino);
    if Node(fs, ino).ptrs[k] == 0 && NextBlock(fs) != 0 {
      PaysOne(fs, GrowTable(fs, ino, k).0, ino);
    }
  }

  lemma EntryPays(fs: Fs, ino: nat, t: nat, k: nat, zero: bool)
    requires Shape(fs) && IsInode(fs, ino) && k < PTRS
    ensures Pays(fs, GrowEntry(fs, ino, t, k, zero).0, ino)
  {
    hide NextBlock, Pays, ClearDisk, SetEntry, TableAt;
    PaysNothing(fs, fs, ino);
    if TableAt(fs.disk, t, k) == 0 && NextBlock(fs) != 0 {
      PaysOne(fs, GrowEntry(fs, ino, t, k, zero).0, ino);
    }
  }

  lemma SlotPays(fs: Fs, ino: nat, s: Slot)
    requires Shape(fs) && IsInode(fs, ino) && SlotOk(s)
    ensures Pays(fs, GrowSlot(fs, ino, s).0, ino)
  {
    hide GrowTable, GrowEntry, GrowDirect, Pays;
    match s
    case Direct(i) => DirectPays(fs, ino, i);
    case SingleEntry(k) =>
      var (f1, t) := GrowTable(fs, ino, 12);
      TablePays(fs, ino, 12);
      if t != 0 {
        EntryPays(f1, ino, t, k, false);
        PaysTransitive(fs, f1, GrowEntry(f1, ino, t, k, false).0, ino);
      }
    case Level2Entry(a, b) =>
      var (f1, t) := GrowTable(fs, ino, 13);
      TablePays(fs, ino, 13);
      if t != 0 {
        var (f2, l2) := GrowEntry(f1, ino, t, a, true);
        EntryPays(f1, ino, t, a, true);
        PaysTransitive(fs, f1, f2, ino);
        if l2 != 0 {
          EntryPays(f2, ino, l2, b, false);
          PaysTransitive(fs, f2, GrowEntry(f2, ino, l2, b, false).0, ino);
        }
      }
  }

  lemma TurnPays(fs: Fs, ino: nat, off: nat, data: seq<byte>)
    requires Shape(fs) && IsInode(fs, ino)
    ensures Pays(fs, WriteTurn(fs, ino, off, data).0, ino)
  {
    hide GrowSlot, PutChunk, Pays, Shape;
    var m := BmapAlloc(fs, ino, off / BS);
    DataSlotOk(off / BS);
    if off / BS < MAX_FILE_BLOCKS {
      SlotPays(fs, ino, DataSlot(off / BS));
    } else {
      PaysNothing(fs, fs, ino);
    }
    var r := WriteTurn(fs, ino, off, data).0;
    assert r == m.0.(disk := r.disk);
    PaysNothing(m.0, r, ino);
    PaysTransitive(fs, m.0, r, ino);
  }

  lemma {:induction false} LoopPays(fs: Fs, ino: nat, off: nat, data: seq<byte>)
    requires Shape(fs) && IsInode(fs, ino)
    ensures Pays(fs, WriteLoop(fs, ino, off, data).0, ino)
    decreases |data|
  {
    hide WriteTurn, Pays;
    PaysNothing(fs, fs, ino);
    if data != [] {
      var (f1, c) := WriteTurn(fs, ino, off, data);
      TurnPays(fs, ino, off, data);
      if c != 0 {
        LoopPays(f1, ino, off + c, data[c..]);
        PaysTransitive(fs, f1, WriteLoop(f1, ino, off + c, data[c..]).0, ino);
      }
    }
  }

  /** A write adds two sectors to the count for every block it takes, tables included. */
  lemma WritePays(fs: Fs, ino: nat, off: nat, data: seq<byte>)
    requires Shape(fs) && IsInode(fs, ino)
    ensures Pays(fs, Write(fs, ino, off, data).0, ino)
  {
    hide WriteLoop, Commit, Pays;
    PaysNothing(fs, fs, ino);
    if ino < fs.sup.inodesCount && !IsDirMode(Node(fs, ino).mode) {
      LoopPays(fs, ino, off, data);
      var f1 := WriteLoop(fs, ino, off, data).0;
      var gs := Write(fs, ino, off, data).0;
      PaysNothing(f1, gs, ino);
      PaysTransitive(fs, f1, gs, ino);
    }
  }

  // ---- tables ----

  predicate SameTables(n: Inode, m: Inode) { m.ptrs[12] == n.ptrs[12] && m.ptrs[13] == n.ptrs[13] }

  /** No inode got or lost a table. */
  ghost predicate TablesKept(fs: Fs, gs: Fs) {
    |gs.inodes| == |fs.inodes| && forall j: nat :: IsInode(fs, j) ==> SameTables(Node(fs, j), Node(gs, j))
  }

  lemma TurnTables(fs: Fs, ino: nat, off: nat, data: seq<byte>)
    requires Shape(fs) && IsInode(fs, ino) && off < NDIRECT * BS
    ensures SameTables(Node(fs, ino), Node(WriteTurn(fs, ino, off, data).0, ino))
  {
    hide NextBlock, PutChunk, GrowTable, GrowEntry, Shape;
    var m := BmapAlloc(fs, ino, off / BS);
    assert DataSlot(off / BS) == Direct(off / BS);
    var r := WriteTurn(fs, ino, off, data).0;
    assert r == m.0.(disk := r.disk);
  }

  lemma {:induction false} LoopTables(fs: Fs, ino: nat, off: nat, data: seq<byte>)
    requires Shape(fs) && IsInode(fs, ino) && off + |data| <= NDIRECT * BS
    ensures SameTables(Node(fs, ino), Node(WriteLoop(fs, ino, off, data).0, ino))
    decreases |data|
  {
    hide WriteTurn;
    if data != [] {
      var (f1, c) := WriteTurn(fs, ino, off, data);
      TurnTables(fs, ino, off, data);
      if c != 0 {
        LoopTables(f1, ino, off + c, data[c..]);
      }
    }
  }

  /** A write within the first twelve blocks makes no table. */
  lemma ShortWrite(fs: Fs, ino: nat, off: nat, data: seq<byte>)
    requires Shape(fs) && IsInode(fs, ino) && off + |data| <= NDIRECT * BS
    ensures var gs := Write(fs, ino, off, data).0; IsInode(gs, ino) && SameTables(Node(fs, ino), Node(gs, ino))
  {
    hide WriteLoop, Commit;
    LoopTables(fs, ino, off, data);
  }

  // ---- adding a name ----

  /** With a gap no block is taken; without one, one block, and the directory grows by it. */
  lemma {:induction false} AddFromTakes(fs: Fs, d: nat, k: nat, ino: u32, name: Name, ftype: byte)
    requires Shape(fs) && Live(fs, d) && BlocksOk(fs, d) && Packed(fs, d) && IsName(name)
    ensures var (gs, ok) := AddFrom(fs, d, k, ino, name, ftype);
            var gap := exists j: nat :: j >= k && GapAt(fs, d, j, |name|);
            && gs.inodeBits == fs.inodeBits && IsInode(gs, d)
            && (gap ==> gs.blockBits == fs.blockBits && Node(gs, d) == Node(fs, d))
            && (ok && !gap ==> NextBlock(fs) != 0 && gs.blockBits == fs.blockBits[NextBlock(fs) := true]
                               && Node(gs, d).blocks == Add32(Node(fs, d).blocks, 2)
                               && Node(gs, d).size == Add32(Node(fs, d).size, BS)
                               && Node(gs, d).links == Node(fs, d).links)
            && (!ok ==> gs == fs) && |gs.inodes| == |fs.inodes| && SameTables(Node(fs, d), Node(gs, d))
            && (forall j: nat :: IsInode(fs, j) && j != d ==> Node(gs, j) == Node(fs, j))
    decreases NDIRECT - k
  {
    hide Insert, Tiles, Distinct, AddBlock, NewDirBlock, NextBlock, SlotData, WriteSlot, HasGap, Packed, BlocksOk;
    if k < NDIRECT {
      assert Own(fs, d, Direct(k)) == Node(fs, d).ptrs[k];
      if Node(fs, d).ptrs[k] == 0 {
        NothingBehind(fs, d, k, |name|);
        if NextBlock(fs) != 0 {
          AddBlockTakes(fs, d, k, NewDirBlock(ino, name, ftype));
        }
      } else {
        DirBlockTiles(fs, d, k);
        InsertExact(DirBlock(fs, d, k), 0, ino, name, ftype);
        AddFromTakes(fs, d, k + 1, ino, name, ftype);
        assert GapAt(fs, d, k, |name|) <==> HasGap(DirBlock(fs, d, k), 0, |name|);
      }
    }
  }

  lemma AddBlockTakes(fs: Fs, d: nat, k: nat, blk: Block)
    requires Shape(fs) && IsInode(fs, d) && k < NDIRECT && Node(fs, d).ptrs[k] == 0 && NextBlock(fs) != 0
    ensures var gs := AddBlock(fs, d, k, blk);
            && gs.inodeBits == fs.inodeBits && IsInode(gs, d) && gs.blockBits == fs.blockBits[NextBlock(fs) := true]
            && Node(gs, d).blocks == Add32(Node(fs, d).blocks, 2)
            && Node(gs, d).size == Add32(Node(fs, d).size, BS) && Node(gs, d).links == Node(fs, d).links
            && |gs.inodes| == |fs.inodes| && SameTables(Node(fs, d), Node(gs, d))
            && (forall j: nat :: IsInode(fs, j) && j != d ==> Node(gs, j) == Node(fs, j))
  {
    hide NextBlock, Own, SyncInode, WriteSlot;
    GrowDirectSize(fs, d, k);
    var f1 := GrowDirect(fs, d, k).0;
    var f2 := WithNode(f1, d, Node(f1, d).(size := Add32(Node(f1, d).size, BS)));
    SyncInodeFrame(WriteSlot(f2, d, Direct(k), blk), d);
  }

  /** The maps, and the record of directory `p`, after a name of `len` bytes was added there: unchanged if there was a
      gap, else block `nb` was taken. */
  ghost predicate Entered(fs: Fs, gs: Fs, p: nat, len: nat, nb: nat, more: nat)
    requires Shape(fs) && IsInode(fs, p) && IsInode(gs, p) && nb < |fs.blockBits|
  {
    var taken := if DirGap(fs, p, len) then 0 else 1;
    && gs.blockBits == (if taken == 0 then fs.blockBits else fs.blockBits[nb := true])
    && Node(gs, p).blocks == Add32(Node(fs, p).blocks, 2 * taken)
    && Node(gs, p).size == Add32(Node(fs, p).size, BS * taken)
    && Node(gs, p).links == (Node(fs, p).links + more) % 0x1_0000
  }

  lemma AddEntered(fs: Fs, p: nat, ino: u32, name: Name, ftype: byte)
    requires OwnInv(fs) && Shape(fs) && DirOk(fs, p) && IsName(name) && Live(fs, p) && BlocksOk(fs, p)
    requires AddFrom(fs, p, 0, ino, name, ftype).1
    ensures var gs := AddFrom(fs, p, 0, ino, name, ftype).0;
            && IsInode(gs, p) && NextBlock(fs) < |fs.blockBits| && Entered(fs, gs, p, |name|, NextBlock(fs), 0)
            && gs.inodeBits == fs.inodeBits && |gs.inodes| == |fs.inodes| && SameTables(Node(fs, p), Node(gs, p))
            && (forall j: nat :: IsInode(fs, j) && j != p ==> Node(gs, j) == Node(fs, j))
  {
    hide OwnInv, AddFrom, BlocksOk, NextBlock, GapAt, Add32;
    DirLayout(fs, p);
    AddFromTakes(fs, p, 0, ino, name, ftype);
    AddNone(Node(fs, p).blocks);
    AddNone(Node(fs, p).size);
    NextBelow(fs);
  }

  lemma AddNone(x: u32)
    ensures Add32(x, 0) == x
  {
  }

  lemma NextBelow(fs: Fs)
    requires Shape(fs)
    ensures NextBlock(fs) < |fs.blockBits|
  {
  }

  /** A fresh regular file (directory): type, permissions, one link (two), no blocks (its first block). */
  predicate NewFile(n: Inode, mode: u16) {
    && n.mode / 0x1000 == 8 && n.mode % 0x1000 == mode % 0x1000 && n.uid == 0 && n.gid == 0
    && n.size == 0 && n.links == 1 && n.blocks == 0 && n.ptrs[0] == 0
  }

  predicate NewDirectory(n: Inode, mode: u16, nb: nat) {
    && n.mode / 0x1000 == 4 && n.mode % 0x1000 == mode % 0x1000 && n.uid == 0 && n.gid == 0
    && n.size == BS && n.links == 2 && n.blocks == 2 && n.ptrs[0] == nb
  }

  /** What create does to the maps and the records. */
  lemma CreateLedger(fs: Fs, p: nat, name: Name, mode: u16)
    requires FsInv(fs) && ParentOk(fs, p) && IsName(name)
    ensures Shape(fs) && NextBlock(fs) < |fs.blockBits|
    ensures var (gs, ino) := CreateIn(fs, p, name, mode);
            && TablesKept(fs, gs)
            && (ino == 0 ==> gs.blockBits == fs.blockBits && gs.inodeBits == fs.inodeBits && gs.sup == fs.sup)
            && (ino != 0 ==>
                  && ino == NextInode(fs) && ino <= |fs.inodeBits| && IsInode(gs, ino) && IsInode(gs, p)
                  && gs.inodeBits == fs.inodeBits[ino - 1 := true] && NewFile(Node(gs, ino), mode)
                  && (forall j: nat :: IsInode(fs, j) && j != p && j != ino ==> Node(gs, j) == Node(fs, j))
                  && Entered(fs, gs, p, |name|, NextBlock(fs), 0))
  {
    hide OwnInv, TreeInv, BornFile, AddFrom, Commit, DirOk, FindEntry, NextInode, Untouched, Entry, BlocksOk, NextBlock,
         Entered, Content, FileOk, EntrySet, FreeInode;
    ParentFacts(fs, p);
    NextBelow(fs);
    var ino := NextInode(fs);
    if FindEntry(fs, p, name) == 0 && ino != 0 {
      NextInodeFree(fs);
      var f2 := BornFile(fs, mode);
      BornFileOk(fs, mode);
      BornFileRecord(fs, p, mode);
      ParentStays(fs, f2, p);
      ParentFacts(f2, p);
      FoundNothing(fs, p, name);
      AddEntryCases(f2, p, ino, name, 1);
      if AddEntry(f2, p, ino, name, 1).1 {
        AddEntered(f2, p, ino, name, 1);
        var f3 := AddFrom(f2, p, 0, ino, name, 1).0;
        EnteredAfter(fs, f2, f3, Commit(f3, ino), p, |name|, NextBlock(fs), 0);
      } else {
        UnbornFile(fs, mode);
      }
    }
  }

  lemma BornFileRecord(fs: Fs, p: nat, mode: u16)
    requires OwnInv(fs) && Shape(fs) && NextInode(fs) != 0 && IsInode(fs, p) && p != NextInode(fs)
    ensures var f2 := BornFile(fs, mode); var ino := NextInode(fs);
            && f2.inodeBits == fs.inodeBits[ino - 1 := true] && f2.blockBits == fs.blockBits
            && NextBlock(f2) == NextBlock(fs) && IsInode(f2, ino) && NewFile(Node(f2, ino), mode)
            && IsInode(f2, p) && Node(f2, p) == Node(fs, p) && SameTables(Node(fs, ino), Node(f2, ino))
            && (forall j: nat :: IsInode(fs, j) && j != ino ==> Node(f2, j) == Node(fs, j))
  {
    hide OwnInv, NextInode, Untouched, NextBlock, Own;
    NextInodeFree(fs);
    BornOk(fs, NextInode(fs), FileNode(Node(fs, NextInode(fs)), mode));
  }

  /** Neither the step before nor the one after touches the directory, but for its link count. */
  lemma EnteredAfter(fs: Fs, gs: Fs, hs: Fs, ks: Fs, p: nat, len: nat, nb: nat, more: nat)
    requires Shape(fs) && Shape(gs) && Live(fs, p) && Untouched(fs, gs, p) && IsInode(hs, p) && IsInode(gs, p)
    requires gs.blockBits == fs.blockBits && Node(gs, p) == Node(fs, p) && nb < |fs.blockBits|
    requires Entered(gs, hs, p, len, nb, 0) && ks.blockBits == hs.blockBits && IsInode(ks, p)
    requires Node(ks, p) == Node(hs, p).(links := (Node(hs, p).links + more) % 0x1_0000)
    ensures Entered(fs, ks, p, len, nb, more)
  {
    hide Untouched, DirGap, Add32;
    SameRoom(fs, gs, p, len, 0);
  }

  lemma UnbornFile(fs: Fs, mode: u16)
    requires OwnInv(fs) && Shape(fs) && NextInode(fs) != 0
    ensures var gs := FreeInode(BornFile(fs, mode), NextInode(fs));
            && gs.inodes == BornFile(fs, mode).inodes && gs.sup == fs.sup
            && gs.blockBits == fs.blockBits && gs.inodeBits == fs.inodeBits
  {
    hide NextInode, Marked, Unshared, FreedClear, Own;
    NextInodeFree(fs);
    var ino := NextInode(fs);
    ClearCountPositive(fs.inodeBits, fs.sup.inodesCount, ino - 1);
    assert fs.inodeBits[ino - 1 := true][ino - 1 := false] == fs.inodeBits;
  }

  /** With the first free block already taken. */
  function OneTaken(fs: Fs): (gs: Fs)
    requires Shape(fs) && NextBlock(fs) != 0
    ensures Shape(gs)
  {
    fs.(blockBits := fs.blockBits[NextBlock(fs) := true])
  }

  /** What mkdir does to the maps and the records. */
  lemma MkdirLedger(fs: Fs, p: nat, name: Name, mode: u16)
    requires FsInv(fs) && ParentOk(fs, p) && IsName(name)
    ensures Shape(fs)
    ensures var (gs, ino) := MkdirIn(fs, p, name, mode);
            && TablesKept(fs, gs)
            && (ino == 0 ==> gs.blockBits == fs.blockBits && gs.inodeBits == fs.inodeBits && gs.sup == fs.sup)
            && (ino != 0 ==>
                  && ino == NextInode(fs) && ino <= |fs.inodeBits| && IsInode(gs, ino) && IsInode(gs, p)
                  && NextBlock(fs) != 0 && gs.inodeBits == fs.inodeBits[ino - 1 := true]
                  && NewDirectory(Node(gs, ino), mode, NextBlock(fs))
                  && (forall j: nat :: IsInode(fs, j) && j != p && j != ino ==> Node(gs, j) == Node(fs, j))
                  && NextBlock(OneTaken(fs)) < |fs.blockBits|
                  && Entered(OneTaken(fs), gs, p, |name|, NextBlock(OneTaken(fs)), 1))
  {
    hide OwnInv, TreeInv, BornDir, AddFrom, MkdirCommit, DirOk, FindEntry, NextInode, Untouched, Entry, BlocksOk,
         NextBlock, Entered, EntrySet, FreeInode, FreeBlock, MarkInode;
    ParentFacts(fs, p);
    var ino := NextInode(fs);
    if FindEntry(fs, p, name) == 0 && ino != 0 {
      if NextBlock(fs) == 0 {
        UnmarkInode(fs);
      } else {
        NextInodeFree(fs);
        var f3 := BornDir(fs, p, mode);
        BornDirOk(fs, p, mode);
        BornDirRecord(fs, p, mode);
        ParentStays(fs, f3, p);
        ParentFacts(f3, p);
        FoundNothing(fs, p, name);
        AddEntryCases(f3, p, ino, name, 2);
        NextBelow(OneTaken(fs));
        if AddEntry(f3, p, ino, name, 2).1 {
          AddEntered(f3, p, ino, name, 2);
          var f4 := AddFrom(f3, p, 0, ino, name, 2).0;
          MkdirCommitLinks(f4, p, ino);
          SameDir(fs, f3, p);
          EnteredAfter(OneTaken(fs), f3, f4, MkdirCommit(f4, p, ino), p, |name|, NextBlock(OneTaken(fs)), 1);
        } else {
          UnbornDir(fs, f3, p, mode);
        }
      }
    }
  }

  lemma SameDir(fs: Fs, gs: Fs, p: nat)
    requires Shape(fs) && NextBlock(fs) != 0 && Untouched(fs, gs, p)
    ensures Untouched(OneTaken(fs), gs, p) && (Live(fs, p) ==> Live(OneTaken(fs), p))
  {
    hide NextBlock;
    var os := OneTaken(fs);
    assert forall t: Slot :: Own(os, p, t) == Own(fs, p, t) && SlotData(os, p, t) == SlotData(fs, p, t);
  }

  lemma MkdirCommitLinks(fs: Fs, p: nat, ino: nat)
    requires Shape(fs) && IsInode(fs, p) && IsInode(fs, ino) && p != ino
    ensures var gs := MkdirCommit(fs, p, ino);
            && IsInode(gs, p) && gs.blockBits == fs.blockBits && gs.inodeBits == fs.inodeBits && IsInode(gs, ino)
            && Node(gs, p) == Node(fs, p).(links := (Node(fs, p).links + 1) % 0x1_0000) && |gs.inodes| == |fs.inodes|
            && (forall j: nat :: IsInode(fs, j) && j != p ==> Node(gs, j) == Node(fs, j))
  {
    hide Commit, SyncInode;
    var f1 := WithNode(fs, p, Node(fs, p).(links := (Node(fs, p).links + 1) % 0x1_0000));
    SyncInodeFrame(f1, ino);
  }

  lemma BornDirRecord(fs: Fs, p: u32, mode: u16)
    requires OwnInv(fs) && Shape(fs) && NextInode(fs) != 0 && NextBlock(fs) != 0 && IsInode(fs, p) && p != NextInode(fs)
    ensures var f3 := BornDir(fs, p, mode); var ino := NextInode(fs);
            && f3.inodeBits == fs.inodeBits[ino - 1 := true] && f3.blockBits == OneTaken(fs).blockBits
            && NextBlock(f3) == NextBlock(OneTaken(fs)) && IsInode(f3, ino)
            && NewDirectory(Node(f3, ino), mode, NextBlock(fs)) && IsInode(f3, p) && Node(f3, p) == Node(fs, p)
            && |f3.inodes| == |fs.inodes| && SameTables(Node(fs, ino), Node(f3, ino))
            && (forall j: nat :: IsInode(fs, j) && j != ino ==> Node(f3, j) == Node(fs, j))
  {
    hide OwnInv, NextInode, BornDir, DotsBlock, NextBlock;
    NextInodeFree(fs);
    BornDirState(fs, p, mode);
    NextBlockSame(OneTaken(fs), BornDir(fs, p, mode));
  }

  lemma UnbornDir(fs: Fs, f3: Fs, p: u32, mode: u16)
    requires OwnInv(fs) && Shape(fs) && Shape(f3) && NextInode(fs) != 0 && NextBlock(fs) != 0
    ensures var gs := FreeInode(FreeBlock(f3, NextBlock(fs)), NextInode(fs));
            f3 == BornDir(fs, p, mode) ==>
              gs.inodes == f3.inodes && gs.sup == fs.sup && gs.blockBits == fs.blockBits && gs.inodeBits == fs.inodeBits
  {
    hide NextInode, Marked, Unshared, FreedClear, Own, BornDir, NextBlock, DotsBlock;
    if f3 == BornDir(fs, p, mode) {
      NextInodeFree(fs);
      BornDirState(fs, p, mode);
      var ino, nb := NextInode(fs), NextBlock(fs);
      ClearCountPositive(fs.inodeBits, fs.sup.inodesCount, ino - 1);
      ClearCountPositive(fs.blockBits, fs.sup.blocksCount, nb);
      assert fs.inodeBits[ino - 1 := true][ino - 1 := false] == fs.inodeBits;
      assert fs.blockBits[nb := true][nb := false] == fs.blockBits;
    }
  }

  // ---- truncating ----

  /** Truncating sets one size to zero. No block becomes free and none changes hands, so the next write finds them. */
  lemma TruncateLedger(fs: Fs, ino: nat)
    requires OwnInv(fs) && Live(fs, ino) && Shape(fs) && ino < fs.sup.inodesCount
    ensures var (gs, r) := Truncate(fs, ino);
            && r == 0 && gs == fs.(disk := gs.disk, inodes := gs.inodes) && |gs.inodes| == |fs.inodes|
            && Node(gs, ino) == Node(fs, ino).(size := 0)
            && (forall j: nat :: IsInode(fs, j) && j != ino ==> Node(gs, j) == Node(fs, j))
            && (forall j: nat, t: Slot :: Own(gs, j, t) == Own(fs, j, t))
            && (forall j: nat, t: Slot :: IsData(t) ==> SlotData(gs, j, t) == SlotData(fs, j, t))
  {
    hide Own, SlotData, Unshared, FreedClear, CountsOk, SyncInode;
    var f1 := WithNode(fs, ino, Node(fs, ino).(size := 0));
    SyncInodeFrame(f1, ino);
    MetaFrame(fs, SyncInode(f1, ino));
  }
}
