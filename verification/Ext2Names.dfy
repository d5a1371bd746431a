/** `ext2_create`, `ext2_mkdir` and `ext2_unlink` once the parent directory is resolved. */
module Ext2Names {
  import opened Bytes
  import opened Bitmaps
  import opened Ext2State
  import opened Ext2Ownership
  import opened Ext2Bmap
  import opened Ext2Disk
  import opened Ext2File
  import opened Ext2DirBlock
  import opened Ext2Dir
  import opened Ext2Tree

  /** The record of a new file: block[0] is cleared, every other pointer is kept. */
  function FileNode(n: Inode, mode: u16): Inode {
    n.(mode := RegMode(mode), uid := 0, gid := 0, size := 0, links := 1, blocks := 0, ptrs := n.ptrs[0 := 0])
  }

  /** The record of a new directory before its first block is attached. */
  function DirNode(n: Inode, mode: u16): Inode {
    n.(mode := DirMode(mode), uid := 0, gid := 0, size := BS, links := 2, blocks := 0, ptrs := n.ptrs[0 := 0])
  }

  /** The inode a path resolved to, seen as a parent. */
  ghost predicate ParentOk(fs: Fs, p: nat) {
    OwnInv(fs) && Live(fs, p) && (LiveDir(fs, p) ==> DirOk(fs, p))
  }

  lemma ParentFacts(fs: Fs, p: nat)
    requires ParentOk(fs, p)
    ensures Shape(fs) && IsInode(fs, p) && (LiveDir(fs, p) ==> BlocksOk(fs, p))
  {
  }

  /** A parent stays a parent while another inode is being born. */
  lemma ParentStays(fs: Fs, gs: Fs, p: nat)
    requires ParentOk(fs, p) && OwnInv(gs) && Untouched(fs, gs, p)
    ensures ParentOk(gs, p) && Node(gs, p) == Node(fs, p)
    ensures forall n: Name :: Entry(gs, p, n) == Entry(fs, p, n)
  {
    hide OwnInv, DirOk, Entry;
    UntouchedDir(fs, gs, p);
  }

  // ---- ext2_create ----

  function BornFile(fs: Fs, mode: u16): (gs: Fs)
    requires Shape(fs) && NextInode(fs) != 0
    ensures Shape(gs) && |gs.inodes| == |fs.inodes|
  {
    Born(fs, NextInode(fs), FileNode(Node(fs, NextInode(fs)), mode))
  }

  lemma BornFileOk(fs: Fs, mode: u16)
    requires OwnInv(fs) && NextInode(fs) != 0
    ensures var ino := NextInode(fs); var gs := BornFile(fs, mode);
            && OwnInv(gs) && LiveFile(gs, ino) && Content(gs, ino) == [] && FileOk(gs, ino)
            && forall j: nat :: j != ino ==> Untouched(fs, gs, j)
  {
    hide OwnInv, Untouched, Own, NextInode, Born;
    OwnInvShape(fs);
    var ino := NextInode(fs);
    BornOk(fs, ino, FileNode(Node(fs, ino), mode));
  }

  /** `ext2_create` under parent `p`: the new inode number, or 0. */
  function CreateIn(fs: Fs, p: nat, name: Name, mode: u16): (Fs, nat)
    requires ParentOk(fs, p) && IsName(name)
  {
    hide BornFile, AddEntry, Commit, OwnInv, DirOk, FindEntry;
    ParentFacts(fs, p);
    var ino := NextInode(fs);
    if FindEntry(fs, p, name) != 0 || ino == 0 then (fs, 0)
    else
      var f2 := BornFile(fs, mode);
      BornFileOk(fs, mode);
      ParentStays(fs, f2, p);
      ParentFacts(f2, p);
      var (f3, ok) := AddEntry(f2, p, ino, name, 1);
      if ok then (Commit(f3, ino), ino) else (FreeInode(f3, ino), 0)
  }

  /** Directory `p` answers `v` for `name` and otherwise as before. */
  ghost predicate Rebound(fs: Fs, gs: Fs, p: nat, name: Name, v: u32) {
    && LiveDir(fs, p) && DirOk(gs, p)
    && (forall n: Name :: Entry(gs, p, n) == if n == name then v else Entry(fs, p, n))
  }

  /** `add_entry_to_dir` on any live inode. */
  lemma AddEntryCases(fs: Fs, p: nat, ino: u32, name: Name, ftype: byte)
    requires ParentOk(fs, p) && IsName(name) && ino != 0
    requires LiveDir(fs, p) && p < fs.sup.inodesCount ==> Entry(fs, p, name) == 0
    ensures Shape(fs) && (LiveDir(fs, p) ==> BlocksOk(fs, p))
    ensures var (gs, ok) := AddEntry(fs, p, ino, name, ftype);
            if ok then LiveDir(fs, p) && EntrySet(fs, gs, p, name, ino) else gs == fs
  {
    hide OwnInv, EntrySet, AddFrom, Entry, DirOk;
    ParentFacts(fs, p);
    if LiveDir(fs, p) && p < fs.sup.inodesCount {
      AddFromOk(fs, p, 0, ino, name, ftype);
    }
  }

  /** Binding `name` to the unreferenced live inode `ino`, from a state that already satisfies the invariant. */
  lemma LinkNew(fs: Fs, p: nat, ino: u32, name: Name, ftype: byte)
    requires FsInv(fs) && ParentOk(fs, p) && IsName(name)
    requires LiveDir(fs, p) && p < fs.sup.inodesCount ==> Entry(fs, p, name) == 0
    requires Live(fs, ino) && ino > FIRST_FREE_INODE && ino != p && Unreferenced(fs, ino)
    requires LiveDir(fs, ino) ==> Entry(fs, ino, DOTDOT) == p
    ensures Shape(fs) && (LiveDir(fs, p) ==> BlocksOk(fs, p))
    ensures var (gs, ok) := AddEntry(fs, p, ino, name, ftype);
            if ok then FsInv(gs) && Rebound(fs, gs, p, name, ino) && (forall j: nat :: j != p ==> Untouched(fs, gs, j))
            else gs == fs
  {
    hide OwnInv, TreeInv, AddEntry, Entry, DirOk, OthersSame, Untouched, Unreferenced;
    AddEntryCases(fs, p, ino, name, ftype);
    var (gs, ok) := AddEntry(fs, p, ino, name, ftype);
    if ok {
      NotDot(fs, p, name, ftype, ino);
      LinkKeepsTree(fs, gs, p, name, ino);
      forall j: nat | j != p
        ensures Untouched(fs, gs, j)
      {
        OthersUntouched(fs, gs, p, j);
      }
    }
  }

  /** An insertion that succeeds was not for `.` or `..`, which every directory already has. */
  lemma NotDot(fs: Fs, p: nat, name: Name, ftype: byte, ino: u32)
    requires TreeInv(fs) && ParentOk(fs, p) && IsName(name) && Shape(fs) && (LiveDir(fs, p) ==> BlocksOk(fs, p))
    requires LiveDir(fs, p) && p < fs.sup.inodesCount ==> Entry(fs, p, name) == 0
    requires AddEntry(fs, p, ino, name, ftype).1
    ensures !IsDot(name)
  {
    hide AddFrom, Entry, OneParent, EntriesLive, DirsOk, FilesOk, OwnInv, DirOk;
  }

  lemma FoundNothing(fs: Fs, p: nat, name: Name)
    requires ParentOk(fs, p) && IsInode(fs, p) && FindEntry(fs, p, name) == 0
    ensures LiveDir(fs, p) && p < fs.sup.inodesCount ==> Entry(fs, p, name) == 0
  {
    hide FindEntry, Entry, OwnInv, BlocksOk, Packed, NamesApart;
    if LiveDir(fs, p) && p < fs.sup.inodesCount {
      FindEntryIsEntry(fs, p, name);
    }
  }

  /** Write-through keeps the invariant and touches no inode. */
  lemma CommitKeeps(fs: Fs, ino: nat)
    requires FsInv(fs) && IsInode(fs, ino)
    ensures Shape(fs) && FsInv(Commit(fs, ino)) && (forall j: nat :: Untouched(fs, Commit(fs, ino), j))
  {
    hide Own, SlotData, Marked, Unshared, FreedClear, CountsOk, Commit, TreeInv;
    var gs := Commit(fs, ino);
    MetaFrame(fs, gs);
    UntouchedTree(fs, gs);
  }

  lemma Compose(fs: Fs, gs: Fs, hs: Fs, p: nat, name: Name, v: u32)
    requires Rebound(fs, gs, p, name, v) && Untouched(gs, hs, p)
    ensures Rebound(fs, hs, p, name, v)
  {
    hide Entry, BlocksOk, Packed, NamesApart, SizeOk;
    UntouchedDir(gs, hs, p);
  }

  lemma ComposeFront(fs: Fs, gs: Fs, hs: Fs, p: nat, name: Name, v: u32)
    requires Live(fs, p) && Untouched(fs, gs, p) && Rebound(gs, hs, p, name, v)
    ensures Rebound(fs, hs, p, name, v)
  {
    hide Entry, DirOk;
    UntouchedDir(fs, gs, p);
  }

  /** Main result for create: on success exactly one new, empty, live file is bound to `name` and all
      other inodes are untouched; on failure every live inode is untouched. */
  lemma CreateOk(fs: Fs, p: nat, name: Name, mode: u16)
    requires FsInv(fs) && ParentOk(fs, p) && IsName(name)
    ensures var (gs, ino) := CreateIn(fs, p, name, mode);
            && FsInv(gs)
            && (ino == 0 ==> forall j: nat :: Untouched(fs, gs, j))
            && (ino != 0 ==>
                  && ino < 0x1_0000_0000 && ino > FIRST_FREE_INODE && !Live(fs, ino)
                  && LiveFile(gs, ino) && Content(gs, ino) == []
                  && Rebound(fs, gs, p, name, ino)
                  && (forall j: nat :: j != p && j != ino ==> Untouched(fs, gs, j)))
  {
    hide OwnInv, TreeInv, AddEntry, Entry, DirOk, Untouched, Unreferenced, BornFile, Commit, FreeInode, FindEntry,
         NextInode, Rebound, FileOk, Content;
    ParentFacts(fs, p);
    var ino := NextInode(fs);
    if FindEntry(fs, p, name) == 0 && ino != 0 {
      NextInodeFree(fs);
      FoundNothing(fs, p, name);
      BornFileOk(fs, mode);
      var f2 := BornFile(fs, mode);
      ParentStays(fs, f2, p);
      BirthKeepsTree(fs, f2, ino);
      UntouchedDir(fs, f2, p);
      LinkNew(f2, p, ino, name, 1);
      var (f3, ok) := AddEntry(f2, p, ino, name, 1);
      if ok {
        CommitKeeps(f3, ino);
        CreateFinish(fs, f2, f3, Commit(f3, ino), p, ino, name);
      } else {
        CreateFails(fs, mode);
      }
    } else {
      UntouchedRefl(fs);
    }
  }

  lemma UntouchedRefl(fs: Fs)
    ensures forall j: nat :: Untouched(fs, fs, j)
  {
  }

  lemma CreateFinish(fs: Fs, f2: Fs, f3: Fs, gs: Fs, p: nat, ino: u32, name: Name)
    requires Live(fs, p) && p != ino && (forall j: nat :: j != ino ==> Untouched(fs, f2, j))
    requires LiveFile(f2, ino) && Content(f2, ino) == []
    requires Rebound(f2, f3, p, name, ino) && (forall j: nat :: j != p ==> Untouched(f2, f3, j))
    requires forall j: nat :: Untouched(f3, gs, j)
    ensures LiveFile(gs, ino) && Content(gs, ino) == [] && Rebound(fs, gs, p, name, ino)
    ensures forall j: nat :: j != p && j != ino ==> Untouched(fs, gs, j)
  {
    hide Rebound, Content, Own, SlotData;
    ComposeFront(fs, f2, f3, p, name, ino);
    Compose(fs, f3, gs, p, name, ino);
    UntouchedFile(f2, f3, ino);
    UntouchedFile(f3, gs, ino);
    forall j: nat | j != p && j != ino
      ensures Untouched(fs, gs, j)
    {
      UntouchedTransitive(fs, f2, f3, j);
      UntouchedTransitive(fs, f3, gs, j);
    }
  }

  /** Taking the new inode back leaves every live inode as it was. */
  lemma CreateFails(fs: Fs, mode: u16)
    requires FsInv(fs) && NextInode(fs) != 0
    ensures var gs := FreeInode(BornFile(fs, mode), NextInode(fs));
            FsInv(gs) && forall j: nat :: Untouched(fs, gs, j)
  {
    hide Own, TreeInv, Marked, Unshared, FreedClear, NextInode;
    NextInodeFree(fs);
    var ino := NextInode(fs);
    var gs := FreeInode(BornFile(fs, mode), ino);
    ClearCountPositive(fs.inodeBits, fs.sup.inodesCount, ino - 1);
    assert gs.inodeBits == fs.inodeBits;
    DeadChange(fs, gs, ino, 0);
    UntouchedTree(fs, gs);
  }

  // ---- ext2_mkdir ----

  /** The first block of a new directory: `.` in 12 bytes, `..` over the rest. */
  function DotsBlock(self: u32, parent: u32): Block {
    Fill(Fill(Zeros(BS), 0, 12, self, DOT, 2), 12, BS - 12, parent, DOTDOT, 2)
  }

  lemma DotNames()
    ensures IsName(DOT) && IsName(DOTDOT) && DOT != DOTDOT
  {
    assert CStr([46]) == [46] + CStr([]);
    assert [46, 46][1..] == [46];
    assert CStr([46, 46]) == [46] + CStr([46]);
  }

  lemma DotsBlockOk(self: u32, parent: u32)
    requires self != 0 && parent != 0
    ensures var c := DotsBlock(self, parent);
            && Tiles(c, 0) && Distinct(c, 0)
            && (forall n: Name :: Find(c, 0, n) == if n == DOT then self else if n == DOTDOT then parent else 0)
  {
    hide Find, Distinct, Fill, RecName, RecLen, RecIno, NameLen, CStr;
    DotNames();
    var b := Fill(Zeros(BS), 0, 12, self, DOT, 2);
    FillFields(Zeros(BS), 0, 12, self, DOT, 2);
    var c := DotsBlock(self, parent);
    FillFields(b, 12, BS - 12, parent, DOTDOT, 2);
    FindEnd(c);
    EndDistinct(c);
    PushRecord(c, 12);
    FirstDot(b, c, self);
    PushRecord(c, 0);
  }

  lemma EndDistinct(c: Block)
    ensures Tiles(c, BS) && Distinct(c, BS)
  {
  }

  lemma FirstDot(b: Block, c: Block, self: u32)
    requires IsName(DOT) && RecIno(b, 0) == self && RecLen(b, 0) == 12 && NameLen(b, 0) == 1 && RecName(b, 0) == DOT
    requires forall k :: 0 <= k < 12 ==> c[k] == b[k]
    ensures RecIno(c, 0) == self && RecLen(c, 0) == 12 && NameLen(c, 0) == 1 && RecName(c, 0) == DOT && RecOk(c, 0)
  {
    assert RecName(c, 0) == b[8..9];
  }

  /** The new directory before it is linked: record, first block, dots. */
  function BornDir(fs: Fs, p: u32, mode: u16): (gs: Fs)
    requires Shape(fs) && NextInode(fs) != 0
    ensures Shape(gs) && |gs.inodes| == |fs.inodes|
  {
    hide GrowDirect, WriteSlot;
    var ino := NextInode(fs);
    var f1 := Born(fs, ino, DirNode(Node(fs, ino), mode));
    GrowDirectSize(f1, ino, 0);
    WriteSlot(GrowDirect(f1, ino, 0).0, ino, Direct(0), DotsBlock(ino, p))
  }

  /** `ext2_mkdir` under parent `p`: the new inode number, or 0. */
  function MkdirIn(fs: Fs, p: nat, name: Name, mode: u16): (Fs, nat)
    requires ParentOk(fs, p) && IsName(name)
  {
    hide BornDir, AddEntry, OwnInv, DirOk, FindEntry;
    ParentFacts(fs, p);
    var ino := NextInode(fs);
    if FindEntry(fs, p, name) != 0 || ino == 0 then (fs, 0)
    else if NextBlock(fs) == 0 then (FreeInode(MarkInode(fs, ino), ino), 0)
    else
      var f3 := BornDir(fs, p, mode);
      BornDirOk(fs, p, mode);
      ParentStays(fs, f3, p);
      ParentFacts(f3, p);
      var (f4, ok) := AddEntry(f3, p, ino, name, 2);
      if ok then (MkdirCommit(f4, p, ino), ino) else (FreeInode(FreeBlock(f4, NextBlock(fs)), ino), 0)
  }

  /** `links_count++` on the parent, then both inodes, the superblock and the bitmaps are written. */
  function MkdirCommit(fs: Fs, p: nat, ino: nat): (gs: Fs)
    requires Shape(fs) && IsInode(fs, p) && IsInode(fs, ino)
    ensures gs == fs.(disk := gs.disk, inodes := gs.inodes) && |gs.disk| == |fs.disk|
    ensures forall x :: fs.sup.firstData <= x < |fs.disk| ==> gs.disk[x] == fs.disk[x]
  {
    var n := Node(fs, p);
    var f1 := WithNode(fs, p, n.(links := (n.links + 1) % 0x1_0000));
    SyncInodeFrame(f1, ino);
    Commit(SyncInode(f1, ino), p)
  }

  /** A directory that owns exactly one block, holding just the dots. */
  lemma OneBlockDir(fs: Fs, d: nat, c: Block)
    requires LiveDir(fs, d) && Node(fs, d).size == BS && Own(fs, d, Direct(0)) != 0 && SlotData(fs, d, Direct(0)) == c
    requires (forall k: nat :: k > 0 ==> Own(fs, d, Direct(k)) == 0) && Tiles(c, 0) && Distinct(c, 0)
    ensures DirOk(fs, d) && forall n: Name :: Entry(fs, d, n) == Find(c, 0, n)
  {
    hide Own, Find, Tiles, Distinct, SlotData, EntryFrom;
    assert BlocksOk(fs, d) && Packed(fs, d) && NamesApart(fs, d);
    forall n: Name
      ensures Entry(fs, d, n) == Find(c, 0, n)
    {
      assert forall k: nat :: k > 0 ==> BlockFind(fs, d, k, n) == 0;
      assert BlockFind(fs, d, 0, n) == Find(c, 0, n);
      EntryBlock(fs, d, n);
    }
  }

  lemma BornDirOk(fs: Fs, p: u32, mode: u16)
    requires OwnInv(fs) && NextInode(fs) != 0 && NextBlock(fs) != 0 && p != 0
    ensures var ino := NextInode(fs); var gs := BornDir(fs, p, mode);
            && OwnInv(gs) && LiveDir(gs, ino) && DirOk(gs, ino)
            && (forall n: Name :: Entry(gs, ino, n) == if n == DOT then ino else if n == DOTDOT then p else 0)
            && (forall j: nat :: j != ino ==> Untouched(fs, gs, j))
  {
    hide OwnInv, Untouched, Own, NextInode, Born, GrowDirect, WriteSlot, DotsBlock, Find, Tiles, Distinct, DirOk,
         Entry, SlotData, NextBlock, OnlyInode, Gains;
    OwnInvShape(fs);
    NextInodeFree(fs);
    var ino := NextInode(fs);
    var f1 := Born(fs, ino, DirNode(Node(fs, ino), mode));
    BornOk(fs, ino, DirNode(Node(fs, ino), mode));
    FirstBlock(f1, ino, DotsBlock(ino, p));
    var gs := BornDir(fs, p, mode);
    forall j: nat | j != ino
      ensures Untouched(fs, gs, j)
    {
      UntouchedTransitive(fs, f1, gs, j);
    }
    DotsBlockOk(ino, p);
    OneBlockDir(gs, ino, DotsBlock(ino, p));
  }

  /** Attaching and filling the first block of an inode without direct blocks. */
  lemma FirstBlock(fs: Fs, ino: nat, c: Block)
    requires OwnInv(fs) && Live(fs, ino) && NextBlock(fs) != 0 && forall k: nat :: Own(fs, ino, Direct(k)) == 0
    ensures Shape(fs)
    ensures var gs := WriteSlot(GrowDirect(fs, ino, 0).0, ino, Direct(0), c);
            && OwnInv(gs) && Live(gs, ino) && Own(gs, ino, Direct(0)) != 0 && SlotData(gs, ino, Direct(0)) == c
            && (forall k: nat :: k > 0 ==> Own(gs, ino, Direct(k)) == 0)
            && Node(gs, ino) == Node(fs, ino).(ptrs := Node(gs, ino).ptrs, blocks := Node(gs, ino).blocks)
            && (forall j: nat :: j != ino ==> Untouched(fs, gs, j))
  {
    hide Own, SlotData, Marked, Unshared, FreedClear, CountsOk, GrowDirect, WriteSlot, NextBlock;
    LiveDirect(fs, ino, 0);
    GrowDirectGains(fs, ino, 0);
    var (f1, nb) := GrowDirect(fs, ino, 0);
    GainsKeepsInv(fs, f1, ino, Direct(0), nb);
    WriteSlotFrame(f1, ino, Direct(0), c);
    var gs := WriteSlot(f1, ino, Direct(0), c);
  }

  /** The final writes of mkdir change only the parent's link count. */
  lemma MkdirCommitKeeps(fs: Fs, p: nat, ino: nat)
    requires FsInv(fs) && LiveDir(fs, p) && IsInode(fs, ino)
    ensures Shape(fs)
    ensures var gs := MkdirCommit(fs, p, ino);
            && FsInv(gs) && (forall j: nat :: j != p ==> Untouched(fs, gs, j))
            && DirOk(gs, p) && (forall n: Name :: Entry(gs, p, n) == Entry(fs, p, n))
  {
    hide Own, SlotData, Marked, Unshared, FreedClear, CountsOk, MkdirCommit, TreeInv, Entry, DirOk;
    var gs := MkdirCommit(fs, p, ino);
    TreeDir(fs, p);
    MkdirCommitNodes(fs, p, ino);
    MetaFrame(fs, gs);
    SameDirSameEntries(fs, gs, p);
    LinkCountKeepsTree(fs, gs, p);
  }

  lemma ReboundDir(fs: Fs, gs: Fs, p: nat, n: Name, v: u32)
    requires Rebound(fs, gs, p, n, v)
    ensures LiveDir(gs, p)
  {
  }

  lemma MkdirCommitNodes(fs: Fs, p: nat, ino: nat)
    requires Shape(fs) && IsInode(fs, p) && IsInode(fs, ino)
    ensures var gs := MkdirCommit(fs, p, ino);
            && |gs.inodes| == |fs.inodes|
            && (forall j: nat :: IsInode(fs, j) && j != p ==> Node(gs, j) == Node(fs, j))
            && Node(gs, p) == Node(fs, p).(links := Node(gs, p).links)
  {
    hide Commit, SyncInode;
    var n := Node(fs, p);
    var f1 := WithNode(fs, p, n.(links := (n.links + 1) % 0x1_0000));
    SyncInodeFrame(f1, ino);
  }

  /** A directory whose blocks and contents are the same has the same entries. */
  lemma SameDirSameEntries(fs: Fs, gs: Fs, d: nat)
    requires LiveDir(fs, d) && LiveDir(gs, d) && Node(gs, d).size == Node(fs, d).size
    requires forall t: Slot :: Own(gs, d, t) == Own(fs, d, t)
    requires forall t: Slot :: IsData(t) ==> SlotData(gs, d, t) == SlotData(fs, d, t)
    ensures forall n: Name :: Entry(gs, d, n) == Entry(fs, d, n)
    ensures DirOk(fs, d) ==> DirOk(gs, d)
  {
    hide Own, SlotData, Find, Tiles, Distinct, EntryFrom;
    forall k: nat
      ensures DirBlock(gs, d, k) == DirBlock(fs, d, k)
      ensures forall n: Name :: BlockFind(gs, d, k, n) == BlockFind(fs, d, k, n)
    {
      assert SlotData(gs, d, Direct(k)) == SlotData(fs, d, Direct(k));
    }
    forall n: Name
      ensures Entry(gs, d, n) == Entry(fs, d, n)
    {
      SameBlocksSameEntry(fs, gs, d, 0, n);
    }
  }

  lemma {:induction false} SameBlocksSameEntry(fs: Fs, gs: Fs, d: nat, k: nat, n: Name)
    requires forall t: Slot :: Own(gs, d, t) == Own(fs, d, t)
    requires forall i: nat :: BlockFind(gs, d, i, n) == BlockFind(fs, d, i, n)
    ensures EntryFrom(gs, d, k, n) == EntryFrom(fs, d, k, n)
    decreases NDIRECT - k
  {
    hide Own, BlockFind;
    if k < NDIRECT {
      SameBlocksSameEntry(fs, gs, d, k + 1, n);
    }
  }

  lemma LinkCountKeepsTree(fs: Fs, gs: Fs, p: nat)
    requires TreeInv(fs) && LiveDir(fs, p) && LiveDir(gs, p) && DirOk(gs, p)
    requires forall n: Name :: Entry(gs, p, n) == Entry(fs, p, n)
    requires forall j: nat :: j != p ==> Untouched(fs, gs, j)
    ensures TreeInv(gs)
  {
    hide Entry, FileOk, DirOk, Untouched, LiveDir, LiveFile, Live;
    KindSplit(fs, p);
    KindSplit(gs, p);
    forall j: nat | j != p
      ensures Live(gs, j) <==> Live(fs, j)
      ensures LiveDir(gs, j) <==> LiveDir(fs, j)
      ensures LiveFile(gs, j) <==> LiveFile(fs, j)
      ensures LiveDir(fs, j) ==> DirOk(gs, j) && forall n: Name :: Entry(gs, j, n) == Entry(fs, j, n)
      ensures LiveFile(fs, j) ==> FileOk(gs, j)
    {
      UntouchedView(fs, gs, j);
      KindSplit(fs, j);
      KindSplit(gs, j);
    }
  }

  /** Main result for mkdir: on success exactly one new directory, holding only `.` and `..`, is
      bound to `name`, and all other inodes are untouched; on failure every live inode is untouched. */
  lemma MkdirOk(fs: Fs, p: nat, name: Name, mode: u16)
    requires FsInv(fs) && ParentOk(fs, p) && IsName(name)
    ensures var (gs, ino) := MkdirIn(fs, p, name, mode);
            && FsInv(gs)
            && (ino == 0 ==> forall j: nat :: Untouched(fs, gs, j))
            && (ino != 0 ==>
                  && ino < 0x1_0000_0000 && ino > FIRST_FREE_INODE && !Live(fs, ino) && LiveDir(gs, ino)
                  && (forall n: Name :: Entry(gs, ino, n) == if n == DOT then ino else if n == DOTDOT then p else 0)
                  && Rebound(fs, gs, p, name, ino)
                  && (forall j: nat :: j != p && j != ino ==> Untouched(fs, gs, j)))
  {
    hide OwnInv, TreeInv, AddEntry, Entry, DirOk, Untouched, Unreferenced, BornDir, MkdirCommit, FreeInode, FreeBlock,
         FindEntry, NextInode, Rebound, NextBlock, MarkInode;
    ParentFacts(fs, p);
    var ino := NextInode(fs);
    if FindEntry(fs, p, name) != 0 || ino == 0 {
      UntouchedRefl(fs);
    } else if NextBlock(fs) == 0 {
      UnmarkInode(fs);
      UntouchedRefl(fs);
    } else {
      NextInodeFree(fs);
      FoundNothing(fs, p, name);
      BornDirOk(fs, p, mode);
      var f3 := BornDir(fs, p, mode);
      ParentStays(fs, f3, p);
      BirthKeepsTree(fs, f3, ino);
      UntouchedDir(fs, f3, p);
      LinkNew(f3, p, ino, name, 2);
      var (f4, ok) := AddEntry(f3, p, ino, name, 2);
      if ok {
        ReboundDir(f3, f4, p, name, ino);
        MkdirCommitKeeps(f4, p, ino);
        MkdirFinish(fs, f3, f4, MkdirCommit(f4, p, ino), p, ino, name);
      } else {
        MkdirFails(fs, p, mode);
      }
    }
  }

  lemma UnmarkInode(fs: Fs)
    requires OwnInv(fs) && NextInode(fs) != 0
    ensures FreeInode(MarkInode(fs, NextInode(fs)), NextInode(fs)) == fs
  {
    hide NextInode;
    NextInodeFree(fs);
    var ino := NextInode(fs);
    ClearCountPositive(fs.inodeBits, fs.sup.inodesCount, ino - 1);
    assert fs.inodeBits[ino - 1 := true][ino - 1 := false] == fs.inodeBits;
  }

  lemma MkdirFinish(fs: Fs, f3: Fs, f4: Fs, gs: Fs, p: nat, ino: u32, name: Name)
    requires Live(fs, p) && p != ino && (forall j: nat :: j != ino ==> Untouched(fs, f3, j))
    requires LiveDir(f3, ino) && DirOk(gs, p)
    requires Rebound(f3, f4, p, name, ino) && (forall j: nat :: j != p ==> Untouched(f3, f4, j))
    requires (forall n: Name :: Entry(gs, p, n) == Entry(f4, p, n))
             && (forall j: nat :: j != p ==> Untouched(f4, gs, j))
    ensures LiveDir(gs, ino) && (forall n: Name :: Entry(gs, ino, n) == Entry(f3, ino, n))
    ensures Rebound(fs, gs, p, name, ino)
    ensures forall j: nat :: j != p && j != ino ==> Untouched(fs, gs, j)
  {
    hide Entry, Own, SlotData, DirOk;
    ComposeFront(fs, f3, f4, p, name, ino);
    UntouchedDir(f3, f4, ino);
    UntouchedDir(f4, gs, ino);
    forall j: nat | j != p && j != ino
      ensures Untouched(fs, gs, j)
    {
      UntouchedTransitive(fs, f3, f4, j);
      UntouchedTransitive(fs, f4, gs, j);
    }
  }

  /** A new directory that could not be linked, given back: its block is free again even though the dead record
      still names it. */
  function Unborn(fs: Fs, p: u32, mode: u16): (gs: Fs)
    requires Shape(fs) && NextInode(fs) != 0
    ensures Shape(gs)
  {
    hide BornDir, NextInode, NextBlock, Shape, FreeBlock, FreeInode;
    var f3 := BornDir(fs, p, mode);
    FreedShape(f3, NextBlock(fs), NextInode(fs));
    FreeInode(FreeBlock(f3, NextBlock(fs)), NextInode(fs))
  }

  lemma FreedShape(fs: Fs, b: nat, ino: nat)
    requires Shape(fs)
    ensures Shape(FreeBlock(fs, b)) && Shape(FreeInode(FreeBlock(fs, b), ino))
  {
  }

  lemma MkdirFails(fs: Fs, p: u32, mode: u16)
    requires Shape(fs) && FsInv(fs) && NextInode(fs) != 0 && NextBlock(fs) != 0 && p != 0
    ensures FsInv(Unborn(fs, p, mode)) && forall j: nat :: Untouched(fs, Unborn(fs, p, mode), j)
  {
    hide TreeInv, Marked, Unshared, FreedClear, NextInode, NextBlock, BornDir;
    NextInodeFree(fs);
    BornDirState(fs, p, mode);
    var ino := NextInode(fs);
    var nb := NextBlock(fs);
    var gs := FreeInode(FreeBlock(BornDir(fs, p, mode), nb), ino);
    ClearCountPositive(fs.inodeBits, fs.sup.inodesCount, ino - 1);
    ClearCountPositive(fs.blockBits, fs.sup.blocksCount, nb);
    assert gs.inodeBits == fs.inodeBits;
    assert gs.blockBits == fs.blockBits;
    DeadChange(fs, gs, ino, nb);
    UntouchedTree(fs, gs);
  }

  /** The state before linking, written out. */
  lemma BornDirState(fs: Fs, p: u32, mode: u16)
    requires OwnInv(fs) && NextInode(fs) != 0 && NextBlock(fs) != 0
    ensures var ino := NextInode(fs); var nb := NextBlock(fs); var n := DirNode(Node(fs, ino), mode);
            BornDir(fs, p, mode) ==
            Fs(fs.sup.(freeBlocks := Dec32(fs.sup.freeBlocks), freeInodes := Dec32(fs.sup.freeInodes)),
               fs.blockBits[nb := true], fs.inodeBits[ino - 1 := true],
               fs.inodes[ino - 1 := AddPtr(n, 0, nb)], fs.disk[nb := DotsBlock(ino, p)])
  {
    hide NextInode, NextBlock, DotsBlock, Marked, Unshared, FreedClear, CountsOk;
    NextInodeFree(fs);
    var ino := NextInode(fs);
    var n := DirNode(Node(fs, ino), mode);
    var f1 := Born(fs, ino, n);
    NextBlockSame(fs, f1);
    var f2 := GrowDirect(f1, ino, 0).0;
    assert f2.inodes == fs.inodes[ino - 1 := AddPtr(n, 0, NextBlock(fs))];
    assert Own(f2, ino, Direct(0)) == NextBlock(fs);
  }

  // ---- ext2_unlink ----

  /** Write-through without an inode: superblock and bitmaps. */
  function CommitMaps(fs: Fs): (gs: Fs)
    requires Shape(fs)
    ensures gs == fs.(disk := gs.disk) && |gs.disk| == |fs.disk|
    ensures forall x :: fs.sup.firstData <= x < |fs.disk| ==> gs.disk[x] == fs.disk[x]
  {
    SyncBitmaps(SyncSuper(fs))
  }

  /** Release the direct blocks and the inode itself. */
  function Bury(fs: Fs, t: nat): Fs
    requires Shape(fs) && IsInode(fs, t)
  {
    hide FreeDirects, SyncInode;
    var f1 := FreeDirects(fs, t, 0);
    var f2 := WithNode(f1, t, Node(f1, t).(links := 0, size := 0, blocks := 0));
    SyncInodeFrame(f2, t);
    CommitMaps(FreeInode(SyncInode(f2, t), t))
  }

  /** Clearing the in-use bit of an inode that has no direct blocks left. */
  lemma KillKeepsInv(fs: Fs, t: nat)
    requires OwnInv(fs) && Live(fs, t) && forall i :: 0 <= i < NDIRECT ==> Node(fs, t).ptrs[i] == 0
    ensures var gs := FreeInode(fs, t);
            && OwnInv(gs) && !Live(gs, t) && gs.disk == fs.disk && gs.inodes == fs.inodes
            && (forall j: nat, u: Slot :: Own(gs, j, u) == Own(fs, j, u))
            && (forall j: nat :: j != t ==> Untouched(fs, gs, j))
  {
    hide Marked, Unshared;
    var gs := FreeInode(fs, t);
    FreeInodeCounts(fs, t);
    forall j: nat, u: Slot
      ensures Own(gs, j, u) == Own(fs, j, u)
    {
    }
    MarkedFrame(fs, gs);
    forall j: nat | IsInode(gs, j) && !Live(gs, j)
      ensures DirectTailClear(Node(gs, j))
    {
      assert Node(gs, j) == Node(fs, j);
      assert j != t ==> !Live(fs, j);
    }
  }

  lemma MarkedFrame(fs: Fs, gs: Fs)
    requires Shape(fs) && Shape(gs) && Marked(fs) && Unshared(fs) && gs.blockBits == fs.blockBits
    requires gs.sup.firstData == fs.sup.firstData && gs.sup.blocksCount == fs.sup.blocksCount
    requires forall j: nat, u: Slot :: Own(gs, j, u) == Own(fs, j, u)
    ensures Marked(gs) && Unshared(gs)
  {
    hide Own;
  }

  lemma BuryOk(fs: Fs, t: nat)
    requires OwnInv(fs) && Live(fs, t)
    ensures Shape(fs)
    ensures var gs := Bury(fs, t); OwnInv(gs) && !Live(gs, t) && forall j: nat :: j != t ==> Untouched(fs, gs, j)
  {
    hide Own, SlotData, Marked, Unshared, FreedClear, CountsOk, FreeDirects, SyncInode, FreeInode, CommitMaps, Released;
    FreeDirectsOk(fs, t, 0);
    var f1 := FreeDirects(fs, t, 0);
    ReleasedUntouched(fs, f1, t);
    var f2 := WithNode(f1, t, Node(f1, t).(links := 0, size := 0, blocks := 0));
    SyncInodeFrame(f2, t);
    var f3 := SyncInode(f2, t);
    MetaFrame(f1, f3);
    KillKeepsInv(f3, t);
    var f4 := FreeInode(f3, t);
    var gs := CommitMaps(f4);
    MetaFrame(f4, gs);
    forall j: nat | j != t
      ensures Untouched(fs, gs, j)
    {
      assert Untouched(f1, f3, j);
      assert Untouched(f4, gs, j);
      UntouchedTransitive(fs, f1, f3, j);
      UntouchedTransitive(fs, f3, f4, j);
      UntouchedTransitive(fs, f4, gs, j);
    }
  }

  lemma ReleasedUntouched(fs: Fs, gs: Fs, t: nat)
    requires Live(fs, t) && Released(fs, gs, t)
    ensures Live(gs, t) && forall j: nat :: j != t ==> Untouched(fs, gs, j)
  {
    hide Own;
  }

  lemma UnlinkFacts(fs: Fs, p: nat, name: Name)
    requires FsInv(fs) && LiveDir(fs, p) && !IsDot(name)
    ensures Shape(fs) && BlocksOk(fs, p)
    ensures var (f1, t) := RemoveFrom(fs, p, 0, name);
            && t == Entry(fs, p, name)
            && (if t == 0 then f1 == fs
                else t != p && t > FIRST_FREE_INODE && Live(fs, t) && FsInv(f1) && Live(f1, t) && Unreferenced(f1, t)
                     && Rebound(fs, f1, p, name, 0) && (forall j: nat :: j != p ==> Untouched(fs, f1, j))
                     && (LiveDir(f1, t) ==> Own(f1, t, Direct(0)) != 0 && Tiles(DirBlock(f1, t, 0), 0)))
  {
    hide OwnInv, RemoveFrom, Entry, Own, Untouched, OthersSame, Tiles, Distinct, NamesApart, FilesOk, DotsOk,
         OneParent, Unreferenced;
    TreeDir(fs, p);
    DirFacts(fs, p);
    RemoveFromOk(fs, p, 0, name);
    var (f1, t) := RemoveFrom(fs, p, 0, name);
    if t != 0 {
      UnlinkKeepsTree(fs, f1, p, name);
      forall j: nat | j != p
        ensures Untouched(fs, f1, j)
      {
        OthersUntouched(fs, f1, p, j);
      }
      UntouchedLive(fs, f1, t);
    }
  }

  /** `ext2_unlink` under directory `p`: 0, -1 (no such name) or -2 (directory not empty). */
  function UnlinkIn(fs: Fs, p: nat, name: Name): (Fs, int)
    requires FsInv(fs) && LiveDir(fs, p) && !IsDot(name)
  {
    hide RemoveFrom, OwnInv, TreeInv, Entry, Bury, Rebound, Untouched, Unreferenced, Tiles, BlocksOk;
    UnlinkFacts(fs, p, name);
    var (f1, t) := RemoveFrom(fs, p, 0, name);
    if t == 0 then (f1, -1)
    else if LiveDir(f1, t) && Node(f1, t).ptrs[0] != 0 && CountUsed(DirBlock(f1, t, 0), 0) > 2 then (f1, -2)
    else
      OwnInvShape(f1);
      (Bury(f1, t), 0)
  }

  /** Main result for unlink. The name is gone whenever it was there. With result 0 the inode is
      freed as well; with -2 the directory it named stays allocated. Nothing else is touched. */
  lemma UnlinkOk(fs: Fs, p: nat, name: Name)
    requires FsInv(fs) && LiveDir(fs, p) && !IsDot(name)
    ensures var (gs, r) := UnlinkIn(fs, p, name); var t := Entry(fs, p, name);
            && FsInv(gs) && (r == 0 || r == -1 || r == -2)
            && (r == -1 <==> t == 0) && (r == -1 ==> gs == fs)
            && (r != -1 ==> Live(fs, t) && t != p && Rebound(fs, gs, p, name, 0)
                            && (forall j: nat :: j != p && j != t ==> Untouched(fs, gs, j)))
            && (r == 0 ==> !Live(gs, t))
            && (r == -2 ==> LiveDir(gs, t) && Untouched(fs, gs, t))
  {
    hide OwnInv, TreeInv, RemoveFrom, Entry, Bury, Rebound, Untouched, Unreferenced, Tiles, BlocksOk, Own;
    UnlinkFacts(fs, p, name);
    var (f1, t) := RemoveFrom(fs, p, 0, name);
    var (gs, r) := UnlinkIn(fs, p, name);
    if r == 0 {
      BuryOk(f1, t);
      DeathKeepsTree(f1, gs, t);
      Compose(fs, f1, gs, p, name, 0);
      forall j: nat | j != p && j != t
        ensures Untouched(fs, gs, j)
      {
        UntouchedTransitive(fs, f1, gs, j);
      }
    }
  }
}
