/** No block is lost by the kernel: over every run the block bitmap is exactly the metadata and what inodes own. */
module Ext2Tight {
  import opened Bytes
  import opened Bitmaps
  import opened Ext2State
  import opened Ext2Ownership
  import opened Ext2Bmap
  import opened Ext2Disk
  import opened Ext2File
  import opened Ext2DirBlock
  import opened Ext2Dir
  import opened Ext2Tree
  import opened Ext2Names
  import opened Ext2Persist
  import opened Ext2Runs
  import opened Ext2Format

  /** Some slot of some inode holds block `b`. */
  ghost predicate Owned(fs: Fs, b: nat) { exists j: nat, s: Slot :: Own(fs, j, s) == b }

  /** A block is marked exactly if it is metadata or owned. */
  ghost predicate Tight(fs: Fs)
    requires Shape(fs)
  {
    forall b :: 0 <= b < fs.sup.blocksCount ==> (fs.blockBits[b] <==> b < fs.sup.firstData || Owned(fs, b))
  }

  /** Marked, but nobody holds it. */
  ghost predicate Lost(fs: Fs, b: nat)
    requires Shape(fs)
  {
    fs.sup.firstData <= b < fs.sup.blocksCount && fs.blockBits[b] && !Owned(fs, b)
  }

  /** Blocks newly marked are owned, owned blocks that stay marked stay owned, and lost blocks stay lost. */
  ghost predicate Accounts(fs: Fs, gs: Fs) {
    && Shape(fs) && Shape(gs)
    && gs.sup.blocksCount == fs.sup.blocksCount && gs.sup.firstData == fs.sup.firstData
    && (forall b :: 0 <= b < fs.sup.firstData ==> gs.blockBits[b] == fs.blockBits[b])
    && (forall b :: fs.sup.firstData <= b < fs.sup.blocksCount && gs.blockBits[b] ==>
          (fs.blockBits[b] && !Owned(fs, b)) || Owned(gs, b))
    && (forall b: nat :: Lost(fs, b) ==> Lost(gs, b))
  }

  lemma AccountsTransitive(fs: Fs, gs: Fs, hs: Fs)
    requires Accounts(fs, gs) && Accounts(gs, hs)
    ensures Accounts(fs, hs)
  {
    hide Owned;
  }

  lemma AccountsTight(fs: Fs, gs: Fs)
    requires Shape(fs) && Tight(fs) && Accounts(fs, gs) && OwnInv(gs)
    ensures Tight(gs)
  {
    hide Own, Unshared, FreedClear, CountsOk;
    forall b | 0 <= b < gs.sup.blocksCount
      ensures gs.blockBits[b] <==> b < gs.sup.firstData || Owned(gs, b)
    {
      FirstPositive(gs);
      if b >= gs.sup.firstData && Owned(gs, b) {
        var j: nat, s: Slot :| Own(gs, j, s) == b;
      }
    }
  }

  lemma FirstPositive(fs: Fs)
    requires Shape(fs)
    ensures fs.sup.firstData > 0
  {
  }

  // ---- single steps ----

  lemma SameOwnAccounts(fs: Fs, gs: Fs)
    requires Shape(fs) && Shape(gs) && gs.blockBits == fs.blockBits
    requires gs.sup.blocksCount == fs.sup.blocksCount && gs.sup.firstData == fs.sup.firstData
    requires forall j: nat, t: Slot :: Own(gs, j, t) == Own(fs, j, t)
    ensures Accounts(fs, gs)
  {
    hide Own;
    forall b: nat
      ensures Owned(fs, b) <==> Owned(gs, b)
    {
      if Owned(fs, b) {
        var j: nat, s: Slot :| Own(fs, j, s) == b;
        assert Own(gs, j, s) == b;
      }
      if Owned(gs, b) {
        var j: nat, s: Slot :| Own(gs, j, s) == b;
        assert Own(fs, j, s) == b;
      }
    }
    NewOwned(fs, gs);
  }

  /** Where no bit changes and no owner there is nothing to show. */
  lemma NewOwned(fs: Fs, gs: Fs)
    requires Shape(fs) && Shape(gs) && gs.blockBits == fs.blockBits
    requires gs.sup.blocksCount == fs.sup.blocksCount && gs.sup.firstData == fs.sup.firstData
    requires forall b: nat :: Owned(fs, b) <==> Owned(gs, b)
    ensures Accounts(fs, gs)
  {
    hide Owned;
  }

  lemma AccountsRefl(fs: Fs)
    requires Shape(fs)
    ensures Accounts(fs, fs)
  {
    hide Own;
    SameOwnAccounts(fs, fs);
  }

  lemma GainsAccounts(fs: Fs, gs: Fs, ino: nat, s: Slot, nb: nat)
    requires OwnInv(fs) && Shape(gs) && Gains(fs, gs, ino, s, nb) && Own(fs, ino, s) == 0
    ensures Accounts(fs, gs)
  {
    hide Own, Marked, Unshared, FreedClear, CountsOk;
    FirstPositive(fs);
    assert Own(gs, ino, s) == nb;
    forall b | fs.sup.firstData <= b < fs.sup.blocksCount && gs.blockBits[b] && (!fs.blockBits[b] || Owned(fs, b))
      ensures Owned(gs, b)
    {
      if b != nb {
        var j: nat, t: Slot :| Own(fs, j, t) == b;
        assert Own(gs, j, t) == b;
      }
    }
  }

  lemma LosesAccounts(fs: Fs, gs: Fs, ino: nat, s: Slot, b: nat)
    requires OwnInv(fs) && Shape(gs) && Loses(fs, gs, ino, s, b)
    ensures Accounts(fs, gs)
  {
    hide Own, Unshared, FreedClear, CountsOk;
    assert b >= fs.sup.firstData;
    forall c | fs.sup.firstData <= c < fs.sup.blocksCount && gs.blockBits[c] && (!fs.blockBits[c] || Owned(fs, c))
      ensures Owned(gs, c)
    {
      var j: nat, t: Slot :| Own(fs, j, t) == c;
      assert Own(gs, j, t) == c;
    }
  }

  // ---- writing ----

  lemma DirectAccounts(fs: Fs, ino: nat, k: nat)
    requires OwnInv(fs) && Live(fs, ino) && k < NDIRECT
    ensures Shape(fs) && Accounts(fs, GrowDirect(fs, ino, k).0)
  {
    hide Own, Marked, Unshared, FreedClear, CountsOk, NextBlock;
    AccountsRefl(fs);
    if Node(fs, ino).ptrs[k] == 0 && NextBlock(fs) != 0 {
      GrowDirectGains(fs, ino, k);
      LiveDirect(fs, ino, k);
      var (gs, nb) := GrowDirect(fs, ino, k);
      GainsAccounts(fs, gs, ino, Direct(k), nb);
    }
  }

  lemma TableAccounts(fs: Fs, ino: nat, k: nat)
    requires OwnInv(fs) && Live(fs, ino) && (k == 12 || k == 13)
    ensures Shape(fs) && Accounts(fs, GrowTable(fs, ino, k).0)
  {
    hide Marked, Unshared, FreedClear, CountsOk, NextBlock, ClearDisk;
    AccountsRefl(fs);
    if Node(fs, ino).ptrs[k] == 0 && NextBlock(fs) != 0 {
      GrowTableGains(fs, ino, k);
      var (gs, nb) := GrowTable(fs, ino, k);
      GainsAccounts(fs, gs, ino, if k == 12 then Single else Double, nb);
    }
  }

  lemma EntryAccounts(fs: Fs, ino: nat, p: Slot, k: nat)
    requires OwnInv(fs) && Live(fs, ino) && IsTable(p) && k < PTRS && Own(fs, ino, p) != 0
    ensures Shape(fs) && Accounts(fs, GrowEntry(fs, ino, Own(fs, ino, p), k, p.Double?).0)
  {
    hide Own, Marked, Unshared, FreedClear, CountsOk, NextBlock, ClearDisk, SetEntry, TableAt;
    AccountsRefl(fs);
    ChildEntry(fs, ino, p, k);
    if Own(fs, ino, Child(p, k)) == 0 && NextBlock(fs) != 0 {
      GrowEntryGains(fs, ino, p, k);
      var (gs, nb) := GrowEntry(fs, ino, Own(fs, ino, p), k, p.Double?);
      GainsAccounts(fs, gs, ino, Child(p, k), nb);
    }
  }

  /** An entry of a table that was just found or made. */
  lemma ThenAccounts(fs: Fs, gs: Fs, ino: nat, p: Slot, t: nat, k: nat)
    requires OwnInv(fs) && Live(fs, ino) && IsTable(p) && k < PTRS && t != 0 && Shape(fs) && Filled(fs, gs, ino, p, t)
    requires Accounts(fs, gs)
    ensures Shape(gs) && IsInode(gs, ino) && Accounts(fs, GrowEntry(gs, ino, t, k, p.Double?).0)
  {
    hide Own, GrowEntry, NextBlock, SlotData, Marked, Unshared, FreedClear, CountsOk, Accounts;
    EntryAccounts(gs, ino, p, k);
    AccountsTransitive(fs, gs, GrowEntry(gs, ino, t, k, p.Double?).0);
  }

  lemma SlotAccounts(fs: Fs, ino: nat, s: Slot)
    requires OwnInv(fs) && Live(fs, ino) && SlotOk(s)
    ensures Shape(fs) && Accounts(fs, GrowSlot(fs, ino, s).0)
  {
    hide OwnInv, GrowTable, GrowEntry, GrowDirect, Accounts, Filled;
    OwnInvShape(fs);
    match s
    case Direct(i) => DirectAccounts(fs, ino, i);
    case SingleEntry(k) =>
      var (f1, t) := GrowTable(fs, ino, 12);
      TableAccounts(fs, ino, 12);
      TableFilled(fs, ino, 12);
      if t != 0 {
        ThenAccounts(fs, f1, ino, Single, t, k);
      }
    case Level2Entry(a, b) =>
      var (f1, t) := GrowTable(fs, ino, 13);
      TableAccounts(fs, ino, 13);
      TableFilled(fs, ino, 13);
      if t != 0 {
        ThenAccounts(fs, f1, ino, Double, t, a);
        ThenEntry(fs, f1, ino, Double, t, a);
        var (f2, l2) := GrowEntry(f1, ino, t, a, true);
        if l2 != 0 {
          ThenAccounts(fs, f2, ino, Level2(a), l2, b);
        }
      }
  }

  lemma TurnAccounts(fs: Fs, ino: nat, off: nat, data: seq<byte>)
    requires OwnInv(fs) && Live(fs, ino) && data != []
    ensures Shape(fs) && Accounts(fs, WriteTurn(fs, ino, off, data).0)
  {
    hide OwnInv, GrowSlot, Accounts, Filled, WriteSlot, SlotData, Splice, Own, DataSlot, ChunkLen;
    OwnInvShape(fs);
    AccountsRefl(fs);
    DataSlotOk(off / BS);
    var s := DataSlot(off / BS);
    if off / BS < MAX_FILE_BLOCKS {
      SlotAccounts(fs, ino, s);
      SlotFilled(fs, ino, s);
      var (f1, b) := GrowSlot(fs, ino, s);
      if b != 0 {
        var c := ChunkLen(off, |data|);
        StoreAccounts(fs, f1, ino, s, b, Splice(SlotData(f1, ino, s), off % BS, data[..c]));
      }
    }
  }

  lemma StoreAccounts(fs: Fs, gs: Fs, ino: nat, s: Slot, b: nat, blk: Block)
    requires Shape(fs) && IsInode(fs, ino) && Accounts(fs, gs) && Filled(fs, gs, ino, s, b) && b != 0 && IsData(s)
    ensures Accounts(fs, WriteSlot(gs, ino, s, blk))
  {
    hide Own, Marked, Unshared, FreedClear, CountsOk, SlotData, Accounts, WriteSlot, NextBlock;
    WriteSlotFrame(gs, ino, s, blk);
    SameOwnAccounts(gs, WriteSlot(gs, ino, s, blk));
    AccountsTransitive(fs, gs, WriteSlot(gs, ino, s, blk));
  }

  lemma {:induction false} LoopAccounts(fs: Fs, ino: nat, off: nat, data: seq<byte>)
    requires OwnInv(fs) && Live(fs, ino)
    ensures Shape(fs) && Accounts(fs, WriteLoop(fs, ino, off, data).0)
    decreases |data|
  {
    hide OwnInv, WriteTurn, WriteLoop, Accounts, Stored, ChunkLen;
    OwnInvShape(fs);
    AccountsRefl(fs);
    LoopUnfold(fs, ino, off, data);
    if data != [] {
      var (f1, c) := WriteTurn(fs, ino, off, data);
      TurnAccounts(fs, ino, off, data);
      TurnStored(fs, ino, off, data);
      if c != 0 {
        StoredLive(fs, f1, ino, off, data[..c]);
        LoopAccounts(f1, ino, off + c, data[c..]);
        AccountsTransitive(fs, f1, WriteLoop(f1, ino, off + c, data[c..]).0);
      }
    }
  }

  lemma WriteAccounts(fs: Fs, ino: nat, off: nat, data: seq<byte>)
    requires OwnInv(fs) && LiveFile(fs, ino)
    ensures Shape(fs) && Accounts(fs, Write(fs, ino, off, data).0)
  {
    hide OwnInv, WriteLoop, Commit, Accounts, Own, SlotData, OthersSame;
    OwnInvShape(fs);
    AccountsRefl(fs);
    if ino < fs.sup.inodesCount {
      LoopAccounts(fs, ino, off, data);
      WriteTail(fs, ino, off, data);
      var f1 := WriteLoop(fs, ino, off, data).0;
      var gs := Write(fs, ino, off, data).0;
      OwnInvShape(gs);
      SameOwnAccounts(f1, gs);
      AccountsTransitive(fs, f1, gs);
    }
  }

  // ---- names ----

  lemma MetaAccounts(fs: Fs, gs: Fs)
    requires OwnInv(fs)
    requires gs.sup == fs.sup && gs.blockBits == fs.blockBits && gs.inodeBits == fs.inodeBits
    requires |gs.inodes| == |fs.inodes| && |gs.disk| == |fs.disk|
    requires forall j: nat :: IsInode(fs, j) ==> Node(gs, j).ptrs == Node(fs, j).ptrs
    requires forall x :: fs.sup.firstData <= x < |fs.disk| ==> gs.disk[x] == fs.disk[x]
    ensures OwnInv(gs) && Accounts(fs, gs)
  {
    hide Own, Accounts, SlotData, Marked, Unshared, FreedClear, CountsOk;
    MetaFrame(fs, gs);
    SameOwnAccounts(fs, gs);
  }

  lemma AddBlockAccounts(fs: Fs, d: nat, k: nat, c: Block)
    requires OwnInv(fs) && DirOk(fs, d) && k < NDIRECT && Own(fs, d, Direct(k)) == 0 && NextBlock(fs) != 0
    ensures Accounts(fs, AddBlock(fs, d, k, c))
  {
    hide BlocksOk, Packed, NamesApart, Marked, Unshared, FreedClear, CountsOk, SyncInode, WriteSlot, GrowDirect,
         SlotData, Accounts, Own, NextBlock;
    DirectAccounts(fs, d, k);
    GrowDirectSize(fs, d, k);
    LiveDirect(fs, d, k);
    GrowDirectGains(fs, d, k);
    var (f1, nb) := GrowDirect(fs, d, k);
    GainsKeepsInv(fs, f1, d, Direct(k), nb);
    var f2 := WithNode(f1, d, Node(f1, d).(size := Add32(Node(f1, d).size, BS)));
    MetaAccounts(f1, f2);
    MetaFrame(f1, f2);
    WriteSlotFrame(f2, d, Direct(k), c);
    var f3 := WriteSlot(f2, d, Direct(k), c);
    SameOwnAccounts(f2, f3);
    SyncInodeFrame(f3, d);
    MetaAccounts(f3, SyncInode(f3, d));
    AccountsTransitive(fs, f1, f2);
    AccountsTransitive(fs, f2, f3);
    AccountsTransitive(fs, f3, SyncInode(f3, d));
  }

  lemma {:induction false} AddFromAccounts(fs: Fs, d: nat, k: nat, ino: u32, name: Name, ftype: byte)
    requires OwnInv(fs) && DirOk(fs, d) && IsName(name) && Shape(fs) && Live(fs, d) && BlocksOk(fs, d)
    ensures Accounts(fs, AddFrom(fs, d, k, ino, name, ftype).0)
    decreases NDIRECT - k
  {
    hide OwnInv, DirOk, Insert, Tiles, Distinct, BlocksOk, NewDirBlock, AddBlock, WriteSlot, SlotData, Own, Accounts,
         NextBlock, Shape;
    AccountsRefl(fs);
    if k < NDIRECT {
      LiveDirect(fs, d, k);
      if Node(fs, d).ptrs[k] == 0 {
        if NextBlock(fs) != 0 {
          AddBlockAccounts(fs, d, k, NewDirBlock(ino, name, ftype));
        }
      } else {
        DirBlockTiles(fs, d, k);
        var r := Insert(DirBlock(fs, d, k), 0, ino, name, ftype);
        if r.Some? {
          SlotWriteAccounts(fs, d, k, r.value);
        } else {
          AddFromAccounts(fs, d, k + 1, ino, name, ftype);
        }
      }
    }
  }

  lemma SlotWriteAccounts(fs: Fs, d: nat, k: nat, b: Block)
    requires OwnInv(fs) && IsInode(fs, d) && Own(fs, d, Direct(k)) != 0
    ensures Accounts(fs, WriteSlot(fs, d, Direct(k), b))
  {
    hide Own, Accounts, SlotData, Marked, Unshared, FreedClear, CountsOk, WriteSlot, OnlyInode;
    WriteSlotFrame(fs, d, Direct(k), b);
    SameOwnAccounts(fs, WriteSlot(fs, d, Direct(k), b));
  }

  lemma AddEntryAccounts(fs: Fs, p: nat, ino: u32, name: Name, ftype: byte)
    requires ParentOk(fs, p) && IsName(name) && Shape(fs) && (LiveDir(fs, p) ==> BlocksOk(fs, p))
    ensures Accounts(fs, AddEntry(fs, p, ino, name, ftype).0)
  {
    hide AddFrom, BlocksOk, Accounts, OwnInv, DirOk;
    AccountsRefl(fs);
    if p < fs.sup.inodesCount && LiveDir(fs, p) {
      AddFromAccounts(fs, p, 0, ino, name, ftype);
    }
  }

  lemma BornAccounts(fs: Fs, n: Inode)
    requires OwnInv(fs) && NextInode(fs) != 0 && Shape(fs) && FreshNode(Node(fs, NextInode(fs)), n)
    ensures var gs := Born(fs, NextInode(fs), n); OwnInv(gs) && Accounts(fs, gs)
  {
    hide Own, NextInode, Accounts, Marked, Unshared, FreedClear, CountsOk, Untouched;
    NextInodeFree(fs);
    var ino := NextInode(fs);
    var gs := Born(fs, ino, n);
    BornOk(fs, ino, n);
    forall j: nat, t: Slot
      ensures Own(gs, j, t) == Own(fs, j, t)
    {
      BornOwn(fs, ino, n, j, t);
    }
    SameOwnAccounts(fs, gs);
  }

  lemma CreateAccounts(fs: Fs, p: nat, name: Name, mode: u16)
    requires FsInv(fs) && ParentOk(fs, p) && IsName(name)
    ensures Shape(fs) && Accounts(fs, CreateIn(fs, p, name, mode).0)
  {
    hide BornFile, AddEntry, Commit, OwnInv, TreeInv, DirOk, FindEntry, Accounts, FreeInode, NextInode, Untouched,
         Entry, Shape, Content;
    ParentFacts(fs, p);
    AccountsRefl(fs);
    var ino := NextInode(fs);
    if FindEntry(fs, p, name) == 0 && ino != 0 {
      var f2 := BornFile(fs, mode);
      BornFileAccounts(fs, mode);
      BornFileOk(fs, mode);
      ParentStays(fs, f2, p);
      ParentFacts(f2, p);
      FoundNothing(fs, p, name);
      UntouchedDir(fs, f2, p);
      AddEntryCases(f2, p, ino, name, 1);
      var (f3, ok) := AddEntry(f2, p, ino, name, 1);
      AddEntryAccounts(f2, p, ino, name, 1);
      AccountsTransitive(fs, f2, f3);
      if ok {
        EntrySetInv(f2, f3, p, name, ino);
        CommitAccounts(f3, ino);
        AccountsTransitive(fs, f3, Commit(f3, ino));
      } else {
        CreateFailsAccounts(fs, mode);
      }
    }
  }

  lemma EntrySetInv(fs: Fs, gs: Fs, p: nat, name: Name, v: u32)
    requires EntrySet(fs, gs, p, name, v)
    ensures OwnInv(gs)
  {
  }

  lemma BornFileAccounts(fs: Fs, mode: u16)
    requires OwnInv(fs) && Shape(fs) && NextInode(fs) != 0
    ensures Accounts(fs, BornFile(fs, mode))
  {
    hide Accounts, NextInode, OwnInv;
    BornAccounts(fs, FileNode(Node(fs, NextInode(fs)), mode));
  }

  lemma CommitAccounts(fs: Fs, ino: nat)
    requires OwnInv(fs) && Shape(fs) && IsInode(fs, ino)
    ensures Accounts(fs, Commit(fs, ino))
  {
    hide Commit, Accounts, OwnInv;
    MetaAccounts(fs, Commit(fs, ino));
  }

  lemma CreateFailsAccounts(fs: Fs, mode: u16)
    requires OwnInv(fs) && Shape(fs) && NextInode(fs) != 0
    ensures Accounts(fs, FreeInode(BornFile(fs, mode), NextInode(fs)))
  {
    hide Accounts, NextInode, Marked, Unshared, FreedClear, Own, Untouched;
    NextInodeFree(fs);
    var ino := NextInode(fs);
    var gs := FreeInode(BornFile(fs, mode), ino);
    ClearCountPositive(fs.inodeBits, fs.sup.inodesCount, ino - 1);
    assert gs.inodeBits == fs.inodeBits;
    DeadChange(fs, gs, ino, 0);
    SameOwnAccounts(fs, gs);
  }

  lemma MkdirAccounts(fs: Fs, p: nat, name: Name, mode: u16)
    requires FsInv(fs) && ParentOk(fs, p) && IsName(name)
    ensures Shape(fs) && Accounts(fs, MkdirIn(fs, p, name, mode).0)
  {
    hide BornDir, AddEntry, OwnInv, TreeInv, DirOk, FindEntry, Accounts, FreeInode, FreeBlock, MkdirCommit, MarkInode,
         NextInode, NextBlock, Untouched, Entry, Shape;
    ParentFacts(fs, p);
    AccountsRefl(fs);
    var ino := NextInode(fs);
    if FindEntry(fs, p, name) == 0 && ino != 0 {
      if NextBlock(fs) == 0 {
        UnmarkInode(fs);
      } else {
        var f3 := BornDir(fs, p, mode);
        BornDirAccounts(fs, p, mode);
        BornDirOk(fs, p, mode);
        ParentStays(fs, f3, p);
        ParentFacts(f3, p);
        FoundNothing(fs, p, name);
        UntouchedDir(fs, f3, p);
        AddEntryCases(f3, p, ino, name, 2);
        var (f4, ok) := AddEntry(f3, p, ino, name, 2);
        AddEntryAccounts(f3, p, ino, name, 2);
        AccountsTransitive(fs, f3, f4);
        if ok {
          EntrySetInv(f3, f4, p, name, ino);
          MkdirCommitAccounts(f4, p, ino);
          AccountsTransitive(fs, f4, MkdirCommit(f4, p, ino));
        } else {
          UnbornAccounts(fs, p, mode);
        }
      }
    }
  }

  lemma BornDirAccounts(fs: Fs, p: u32, mode: u16)
    requires OwnInv(fs) && Shape(fs) && NextInode(fs) != 0 && NextBlock(fs) != 0
    ensures Accounts(fs, BornDir(fs, p, mode))
  {
    hide OwnInv, GrowDirect, WriteSlot, NextInode, DotsBlock, Accounts, NextBlock, Own, Untouched, Born, SlotData;
    NextInodeFree(fs);
    var ino := NextInode(fs);
    var n := DirNode(Node(fs, ino), mode);
    BornAccounts(fs, n);
    BornOk(fs, ino, n);
    var f1 := Born(fs, ino, n);
    OwnInvShape(f1);
    DirectAccounts(f1, ino, 0);
    DirectFilled(f1, ino, 0);
    FirstOwned(f1, ino);
    var (f2, b) := GrowDirect(f1, ino, 0);
    SlotWriteAccounts(f2, ino, 0, DotsBlock(ino, p));
    AccountsTransitive(fs, f1, f2);
    AccountsTransitive(fs, f2, WriteSlot(f2, ino, Direct(0), DotsBlock(ino, p)));
  }

  lemma FirstOwned(fs: Fs, ino: nat)
    requires OwnInv(fs) && Shape(fs) && Live(fs, ino) && NextBlock(fs) != 0
    ensures var (gs, b) := GrowDirect(fs, ino, 0); OwnInv(gs) && IsInode(gs, ino) && Own(gs, ino, Direct(0)) != 0
  {
    hide Own, Marked, Unshared, FreedClear, CountsOk, NextBlock, Grown;
    DirectFilled(fs, ino, 0);
  }

  lemma MkdirCommitAccounts(fs: Fs, p: nat, ino: nat)
    requires OwnInv(fs) && Shape(fs) && IsInode(fs, p) && IsInode(fs, ino)
    ensures Accounts(fs, MkdirCommit(fs, p, ino))
  {
    hide MkdirCommit, Accounts, OwnInv;
    MkdirCommitNodes(fs, p, ino);
    MetaAccounts(fs, MkdirCommit(fs, p, ino));
  }

  lemma UnbornAccounts(fs: Fs, p: u32, mode: u16)
    requires OwnInv(fs) && Shape(fs) && NextInode(fs) != 0 && NextBlock(fs) != 0
    ensures Accounts(fs, FreeInode(FreeBlock(BornDir(fs, p, mode), NextBlock(fs)), NextInode(fs)))
  {
    hide Accounts, NextInode, NextBlock, BornDir, DotsBlock, Unshared, Marked, FreedClear, Own, Untouched;
    NextInodeFree(fs);
    BornDirState(fs, p, mode);
    var ino := NextInode(fs);
    var nb := NextBlock(fs);
    var gs := FreeInode(FreeBlock(BornDir(fs, p, mode), nb), ino);
    ClearCountPositive(fs.inodeBits, fs.sup.inodesCount, ino - 1);
    ClearCountPositive(fs.blockBits, fs.sup.blocksCount, nb);
    assert gs.inodeBits == fs.inodeBits && gs.blockBits == fs.blockBits;
    DeadChange(fs, gs, ino, nb);
    SameOwnAccounts(fs, gs);
  }

  // ---- unlinking ----

  lemma {:induction false} FreeDirectsAccounts(fs: Fs, ino: nat, k: nat)
    requires OwnInv(fs) && Live(fs, ino) && Shape(fs)
    ensures Accounts(fs, FreeDirects(fs, ino, k))
    decreases NDIRECT - k
  {
    hide Own, Marked, Unshared, FreedClear, CountsOk, FreeBlock, Accounts;
    AccountsRefl(fs);
    if k < NDIRECT {
      var f1 := FreeDirect(fs, ino, k);
      if Node(fs, ino).ptrs[k] != 0 {
        FreeDirectLoses(fs, ino, k);
        LosesKeepsInv(fs, f1, ino, Direct(k), Node(fs, ino).ptrs[k]);
        LosesAccounts(fs, f1, ino, Direct(k), Node(fs, ino).ptrs[k]);
      }
      FreeDirectsAccounts(f1, ino, k + 1);
      AccountsTransitive(fs, f1, FreeDirects(f1, ino, k + 1));
    }
  }

  lemma BuryAccounts(fs: Fs, t: nat)
    requires OwnInv(fs) && Live(fs, t) && Shape(fs)
    ensures Accounts(fs, Bury(fs, t))
  {
    hide Own, SlotData, Marked, Unshared, FreedClear, CountsOk, FreeDirects, SyncInode, FreeInode, CommitMaps, Released,
         Accounts, Untouched;
    FreeDirectsOk(fs, t, 0);
    FreeDirectsAccounts(fs, t, 0);
    var f1 := FreeDirects(fs, t, 0);
    ReleasedUntouched(fs, f1, t);
    var f2 := WithNode(f1, t, Node(f1, t).(links := 0, size := 0, blocks := 0));
    SyncInodeFrame(f2, t);
    var f3 := SyncInode(f2, t);
    MetaAccounts(f1, f3);
    KillKeepsInv(f3, t);
    var f4 := FreeInode(f3, t);
    FreeInodeBits(f3, t);
    SameOwnAccounts(f3, f4);
    MetaAccounts(f4, CommitMaps(f4));
    AccountsTransitive(fs, f1, f3);
    AccountsTransitive(fs, f3, f4);
    AccountsTransitive(fs, f4, CommitMaps(f4));
  }

  lemma FreeInodeBits(fs: Fs, t: nat)
    requires Shape(fs)
    ensures var gs := FreeInode(fs, t);
            Shape(gs) && gs.blockBits == fs.blockBits && gs.sup == fs.sup.(freeInodes := gs.sup.freeInodes)
  {
  }

  lemma UnlinkAccounts(fs: Fs, p: nat, name: Name)
    requires FsInv(fs) && LiveDir(fs, p) && !IsDot(name)
    ensures Shape(fs) && Accounts(fs, UnlinkIn(fs, p, name).0)
  {
    hide RemoveFrom, OwnInv, TreeInv, Entry, Bury, Rebound, Untouched, Unreferenced, Tiles, BlocksOk, Accounts, Shape,
         Own;
    OwnInvShape(fs);
    UnlinkFacts(fs, p, name);
    AccountsRefl(fs);
    var (f1, t) := RemoveFrom(fs, p, 0, name);
    OwnInvShape(f1);
    if t != 0 {
      RemoveAccounts(fs, p, 0, name);
      if !(LiveDir(f1, t) && Node(f1, t).ptrs[0] != 0 && CountUsed(DirBlock(f1, t, 0), 0) > 2) {
        BuryAccounts(f1, t);
        AccountsTransitive(fs, f1, Bury(f1, t));
      }
    }
  }

  lemma {:induction false} RemoveAccounts(fs: Fs, d: nat, k: nat, name: Name)
    requires OwnInv(fs) && Shape(fs) && Live(fs, d) && BlocksOk(fs, d)
    ensures Accounts(fs, RemoveFrom(fs, d, k, name).0)
    decreases NDIRECT - k
  {
    hide OwnInv, BlocksOk, SlotData, WriteSlot, Remove, Tiles, Distinct, Accounts, Shape, Own;
    AccountsRefl(fs);
    if k < NDIRECT {
      if Node(fs, d).ptrs[k] == 0 {
        RemoveAccounts(fs, d, k + 1, name);
      } else {
        DirBlockTiles(fs, d, k);
        var r := Remove(DirBlock(fs, d, k), name);
        if r.Gone? {
          SlotWriteAccounts(fs, d, k, r.block);
        } else {
          RemoveAccounts(fs, d, k + 1, name);
        }
      }
    }
  }

  // ---- runs ----

  lemma TruncateAccounts(fs: Fs, ino: nat)
    requires OwnInv(fs) && Shape(fs)
    ensures Accounts(fs, Truncate(fs, ino).0)
  {
    hide SyncInode, Accounts, OwnInv;
    AccountsRefl(fs);
    if ino != 0 && ino < fs.sup.inodesCount {
      var f1 := WithNode(fs, ino, Node(fs, ino).(size := 0));
      SyncInodeFrame(f1, ino);
      MetaAccounts(fs, SyncInode(f1, ino));
    }
  }

  lemma MountAccounts(fs: Fs)
    requires Synced(fs)
    ensures Mountable(fs.disk) && Accounts(fs, Mount(fs.disk))
  {
    hide Mount, Mountable, Accounts, Own, MapsSynced, InodesSynced, SameTrees;
    MountRecovers(fs);
    var m := Mount(fs.disk);
    forall j: nat, t: Slot
      ensures Own(m, j, t) == Own(fs, j, t)
    {
      MountOwn(fs, m, j, t);
    }
    SameOwnAccounts(fs, m);
  }

  lemma ExecAccounts(fs: Fs, op: Op)
    requires Good(fs) && Allowed(fs, op)
    ensures Accounts(fs, Exec(fs, op))
  {
    hide OwnInv, TreeInv, Synced, CreateIn, MkdirIn, UnlinkIn, Write, Resolve, Mount, Mountable, Entry, Accounts,
         Truncate;
    OwnInvShape(fs);
    AccountsRefl(fs);
    match op
    case Create(dir, name, mode) =>
      ResolveLive(fs, dir);
      if Resolve(fs, dir) != 0 {
        CreateAccounts(fs, Resolve(fs, dir), name, mode);
      }
    case Mkdir(dir, name, mode) =>
      ResolveLive(fs, dir);
      if Resolve(fs, dir) != 0 {
        MkdirAccounts(fs, Resolve(fs, dir), name, mode);
      }
    case WriteAt(ino, off, data) => WriteAccounts(fs, ino, off, data);
    case TruncateTo0(path) => TruncateAccounts(fs, Resolve(fs, path));
    case Unlink(dir, name) =>
      if Resolve(fs, dir) != 0 {
        UnlinkAccounts(fs, Resolve(fs, dir), name);
      }
    case Remount =>
      MountAccounts(fs);
  }

  /** Every operation keeps the bitmap exact, whatever its result. */
  lemma ExecTight(fs: Fs, op: Op)
    requires Good(fs) && Allowed(fs, op) && Shape(fs) && Tight(fs)
    ensures Good(Exec(fs, op)) && Shape(Exec(fs, op)) && Tight(Exec(fs, op))
  {
    hide OwnInv, TreeInv, Synced, Exec, Allowed, Accounts, Tight;
    ExecGood(fs, op);
    ExecAccounts(fs, op);
    OwnInvShape(Exec(fs, op));
    AccountsTight(fs, Exec(fs, op));
  }

  /** No operation loses a block, and none wins a lost one back. */
  lemma ExecLost(fs: Fs, op: Op, b: nat)
    requires Good(fs) && Allowed(fs, op) && Shape(fs)
    ensures Shape(Exec(fs, op)) && (Lost(Exec(fs, op), b) <==> Lost(fs, b))
  {
    hide OwnInv, TreeInv, Synced, Exec, Allowed, Owned;
    ExecAccounts(fs, op);
  }

  lemma {:induction false} RunTight(fs: Fs, ops: seq<Op>)
    requires Good(fs) && AllAllowed(fs, ops) && Shape(fs) && Tight(fs)
    ensures Shape(Run(fs, ops)) && Tight(Run(fs, ops))
    decreases |ops|
  {
    hide Good, Exec, Allowed, Tight, Shape;
    if ops != [] {
      ExecTight(fs, ops[0]);
      RunTight(Exec(fs, ops[0]), ops[1..]);
    }
  }

  lemma FormatTight(n: u32, disk: seq<Block>)
    requires 8 <= n <= MAX_BLOCKS && n <= |disk|
    ensures Shape(Format(n, disk)) && Tight(Format(n, disk))
  {
    hide Format, Entry, DotsBlock, Own, OwnInv, TreeInv, Synced;
    FormatRoot(n, disk);
    FormatGood(n, disk);
    var fs := Format(n, disk);
    var first := fs.sup.firstData;
    assert Own(fs, ROOT_INODE, Direct(0)) == first;
    forall b | 0 <= b < fs.sup.blocksCount
      ensures fs.blockBits[b] <==> b < first || Owned(fs, b)
    {
      if b > first && Owned(fs, b) {
        var j: nat, s: Slot :| Own(fs, j, s) == b;
        OwnedMarked(fs, j, s);
      }
    }
  }

  lemma OwnedMarked(fs: Fs, j: nat, s: Slot)
    requires OwnInv(fs) && Own(fs, j, s) != 0
    ensures Shape(fs) && Own(fs, j, s) < fs.sup.blocksCount && fs.blockBits[Own(fs, j, s)]
  {
    hide Own, Unshared, FreedClear, CountsOk;
  }

  /** In every state a run from a formatted disk can reach, a block is marked exactly if it is metadata or some slot
      of some inode holds it: create, mkdir, write, truncate and unlink lose no block, failed or not. */
  lemma ReachableTight(n: u32, disk: seq<Block>, ops: seq<Op>)
    requires 8 <= n <= MAX_BLOCKS && n <= |disk|
    requires Good(Format(n, disk)) && AllAllowed(Format(n, disk), ops)
    ensures var fs := Run(Format(n, disk), ops); Shape(fs) && Tight(fs)
  {
    hide Good, Format, Tight;
    FormatTight(n, disk);
    RunTight(Format(n, disk), ops);
  }
}
