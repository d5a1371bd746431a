/** The directory tree: `ext2_create`, `ext2_mkdir`, `ext2_unlink` and
    `ext2_truncate` on resolved inodes, and the invariant all of them keep. */
module Ext2Tree {
  import opened Bytes
  import opened Ext2State
  import opened Ext2Ownership
  import opened Ext2Bmap
  import opened Ext2Disk
  import opened Ext2File
  import opened Ext2DirBlock
  import opened Ext2Dir

  predicate IsDot(n: Name) { n == DOT || n == DOTDOT }

  // ---- the tree invariant ----

  ghost predicate DirsOk(fs: Fs) { forall d: nat :: LiveDir(fs, d) ==> DirOk(fs, d) }

  /** Every entry names a live, non-reserved inode other than the directory itself. */
  ghost predicate EntriesLive(fs: Fs) {
    forall d: nat, n: Name :: LiveDir(fs, d) && !IsDot(n) && Entry(fs, d, n) != 0 ==>
      FIRST_FREE_INODE < Entry(fs, d, n) != d && Live(fs, Entry(fs, d, n))
  }

  /** An inode has at most one entry in the whole tree. */
  ghost predicate OneParent(fs: Fs) {
    forall d: nat, n: Name, e: nat, m: Name ::
      LiveDir(fs, d) && LiveDir(fs, e) && !IsDot(n) && !IsDot(m) && 0 != Entry(fs, d, n) == Entry(fs, e, m) ==>
        d == e && n == m
  }

  /** `.` names the directory itself, `..` the directory that holds it. */
  ghost predicate DotsOk(fs: Fs) {
    && Entry(fs, ROOT_INODE, DOTDOT) == ROOT_INODE
    && (forall d: nat :: LiveDir(fs, d) ==> Entry(fs, d, DOT) == d && Entry(fs, d, DOTDOT) != 0)
    && (forall d: nat, n: Name :: LiveDir(fs, d) && !IsDot(n) && LiveDir(fs, Entry(fs, d, n)) ==>
          Entry(fs, Entry(fs, d, n), DOTDOT) == d)
  }

  ghost predicate FileOk(fs: Fs, f: nat) { IsInode(fs, f) && NoHoles(fs, f) }

  ghost predicate FilesOk(fs: Fs) { forall f: nat :: LiveFile(fs, f) ==> FileOk(fs, f) }

  ghost predicate TreeInv(fs: Fs) {
    LiveDir(fs, ROOT_INODE) && DirsOk(fs) && EntriesLive(fs) && OneParent(fs) && DotsOk(fs) && FilesOk(fs)
  }

  ghost predicate FsInv(fs: Fs) { OwnInv(fs) && TreeInv(fs) }

  // ---- inodes an operation does not touch ----

  ghost predicate Untouched(fs: Fs, gs: Fs, j: nat) {
    && (Live(gs, j) <==> Live(fs, j))
    && (Live(fs, j) ==> Node(gs, j) == Node(fs, j))
    && (Live(fs, j) ==> forall t: Slot :: Own(gs, j, t) == Own(fs, j, t))
    && (Live(fs, j) ==> forall t: Slot :: IsData(t) ==> SlotData(gs, j, t) == SlotData(fs, j, t))
  }

  lemma {:induction false} SameEntryFrom(fs: Fs, gs: Fs, d: nat, k: nat, n: Name)
    requires Live(fs, d) && Untouched(fs, gs, d)
    ensures EntryFrom(gs, d, k, n) == EntryFrom(fs, d, k, n)
    decreases NDIRECT - k
  {
    hide Own, SlotData, Find;
    if k < NDIRECT {
      SameEntryFrom(fs, gs, d, k + 1, n);
      assert SlotData(gs, d, Direct(k)) == SlotData(fs, d, Direct(k));
    }
  }

  /** An untouched directory is the same directory. */
  lemma UntouchedDir(fs: Fs, gs: Fs, d: nat)
    requires Live(fs, d) && Untouched(fs, gs, d)
    ensures LiveDir(gs, d) <==> LiveDir(fs, d)
    ensures forall n: Name :: Entry(gs, d, n) == Entry(fs, d, n)
    ensures DirOk(fs, d) ==> DirOk(gs, d)
  {
    hide Own, SlotData, Find, Tiles, Distinct, EntryFrom;
    forall n: Name
      ensures Entry(gs, d, n) == Entry(fs, d, n)
    {
      SameEntryFrom(fs, gs, d, 0, n);
    }
    forall k: nat
      ensures DirBlock(gs, d, k) == DirBlock(fs, d, k)
      ensures forall n: Name :: BlockFind(gs, d, k, n) == BlockFind(fs, d, k, n)
    {
      assert SlotData(gs, d, Direct(k)) == SlotData(fs, d, Direct(k));
    }
  }

  /** An untouched file is the same file. */
  lemma UntouchedFile(fs: Fs, gs: Fs, f: nat)
    requires Live(fs, f) && Untouched(fs, gs, f)
    ensures Content(gs, f) == Content(fs, f)
    ensures NoHoles(gs, f) <==> NoHoles(fs, f)
  {
    hide Own, SlotData;
    assert forall k: nat :: ByteAt(gs, f, k) == ByteAt(fs, f, k);
    assert forall bi: nat :: DataRef(gs, f, bi) == DataRef(fs, f, bi);
  }

  lemma OthersUntouched(fs: Fs, gs: Fs, ino: nat, j: nat)
    requires OthersSame(fs, gs, ino) && j != ino
    ensures Untouched(fs, gs, j)
  {
    hide Own, SlotData;
  }

  lemma UntouchedContent(fs: Fs, gs: Fs, f: nat)
    requires LiveFile(fs, f) && Untouched(fs, gs, f)
    ensures LiveFile(gs, f) && Content(gs, f) == Content(fs, f)
  {
    hide Content, Own, SlotData;
    UntouchedFile(fs, gs, f);
  }

  lemma UntouchedTransitive(fs: Fs, gs: Fs, hs: Fs, j: nat)
    requires Untouched(fs, gs, j) && Untouched(gs, hs, j)
    ensures Untouched(fs, hs, j)
  {
    hide Own, SlotData;
  }

  /** Changing the contents of one file keeps the tree. */
  lemma FileChangeKeepsTree(fs: Fs, gs: Fs, ino: nat)
    requires TreeInv(fs) && LiveFile(fs, ino) && LiveFile(gs, ino) && OthersSame(fs, gs, ino) && NoHoles(gs, ino)
    ensures TreeInv(gs)
  {
    hide Entry, NoHoles, DirOk, OthersSame, Untouched, IsDirMode;
    forall j: nat
      ensures Live(gs, j) <==> Live(fs, j)
      ensures LiveDir(gs, j) <==> LiveDir(fs, j)
      ensures LiveDir(fs, j) ==> DirOk(gs, j) && forall n: Name :: Entry(gs, j, n) == Entry(fs, j, n)
      ensures LiveFile(fs, j) ==> NoHoles(gs, j)
    {
      SameKind(fs, gs, ino, j);
    }
  }

  lemma SameKind(fs: Fs, gs: Fs, ino: nat, j: nat)
    requires TreeInv(fs) && LiveFile(fs, ino) && LiveFile(gs, ino) && OthersSame(fs, gs, ino) && NoHoles(gs, ino)
    ensures Live(gs, j) <==> Live(fs, j)
    ensures LiveDir(gs, j) <==> LiveDir(fs, j)
    ensures LiveDir(fs, j) ==> DirOk(gs, j) && forall n: Name :: Entry(gs, j, n) == Entry(fs, j, n)
    ensures LiveFile(fs, j) ==> NoHoles(gs, j)
  {
    hide Entry, NoHoles, DirOk;
    if j != ino {
      OthersUntouched(fs, gs, ino, j);
      if Live(fs, j) {
        UntouchedDir(fs, gs, j);
        UntouchedFile(fs, gs, j);
      }
    }
  }

  /** `ext2_write` at an offset within the file keeps the invariant. */
  lemma WriteKeepsInv(fs: Fs, ino: nat, off: nat, data: seq<byte>)
    requires FsInv(fs) && LiveFile(fs, ino) && off <= Node(fs, ino).size
    ensures FsInv(Write(fs, ino, off, data).0)
  {
    hide Write, OwnInv, TreeInv, NoHoles, OthersSame;
    TreeFile(fs, ino);
    if ino < fs.sup.inodesCount {
      WriteRefines(fs, ino, off, data);
      WriteKeepsKind(fs, ino, off, data);
      FileChangeKeepsTree(fs, Write(fs, ino, off, data).0, ino);
    } else {
      WriteRejects(fs, ino, off, data);
    }
  }

  lemma TreeFile(fs: Fs, ino: nat)
    requires FsInv(fs) && LiveFile(fs, ino)
    ensures Shape(fs) && OwnInv(fs) && TreeInv(fs) && NoHoles(fs, ino)
  {
  }

  lemma TreeDir(fs: Fs, d: nat)
    requires TreeInv(fs) && LiveDir(fs, d)
    ensures DirOk(fs, d)
  {
  }

  lemma WriteRejects(fs: Fs, ino: nat, off: nat, data: seq<byte>)
    requires Shape(fs) && IsInode(fs, ino) && (ino >= fs.sup.inodesCount || IsDirMode(Node(fs, ino).mode))
    ensures Write(fs, ino, off, data) == (fs, -1)
  {
  }

  lemma WriteKeepsKind(fs: Fs, ino: nat, off: nat, data: seq<byte>)
    requires OwnInv(fs) && LiveFile(fs, ino) && ino < fs.sup.inodesCount
    ensures LiveFile(Write(fs, ino, off, data).0, ino)
  {
    hide Write, WriteLoop, Own, SlotData, Marked, Unshared, FreedClear, CountsOk, NextBlock, DataRef, ByteAt, StopsWell;
    LoopStored(fs, ino, off, data);
    WriteTail(fs, ino, off, data);
  }

  /** `ext2_truncate`: only the size is reset; the blocks stay for reuse. */
  function Truncate(fs: Fs, ino: nat): (Fs, int)
    requires Shape(fs)
  {
    if ino == 0 || ino >= fs.sup.inodesCount then (fs, -1)
    else (SyncInode(WithNode(fs, ino, Node(fs, ino).(size := 0)), ino), 0)
  }

  /** Truncating a file leaves it empty and everything else alone. */
  lemma TruncateOk(fs: Fs, ino: nat)
    requires OwnInv(fs) && LiveFile(fs, ino) && ino < fs.sup.inodesCount
    ensures var (gs, r) := Truncate(fs, ino);
            && r == 0 && OwnInv(gs) && OthersSame(fs, gs, ino) && LiveFile(gs, ino)
            && Content(gs, ino) == [] && NoHoles(gs, ino)
  {
    hide Own, SlotData, Marked, Unshared, FreedClear, CountsOk, SyncInode;
    var f1 := WithNode(fs, ino, Node(fs, ino).(size := 0));
    SyncInodeFrame(f1, ino);
    MetaFrame(fs, SyncInode(f1, ino));
  }

  lemma TruncateKeepsInv(fs: Fs, ino: nat)
    requires FsInv(fs) && LiveFile(fs, ino)
    ensures FsInv(Truncate(fs, ino).0)
  {
    hide OwnInv, TreeInv, NoHoles, OthersSame;
    TreeFile(fs, ino);
    if ino < fs.sup.inodesCount {
      TruncateOk(fs, ino);
      FileChangeKeepsTree(fs, Truncate(fs, ino).0, ino);
    }
  }

  // ---- bringing an inode to life ----

  /** Mark `ino` used and store its record. */
  function Born(fs: Fs, ino: nat, n: Inode): Fs
    requires Shape(fs) && IsInode(fs, ino)
  {
    WithNode(MarkInode(fs, ino), ino, n)
  }

  /** A new inode starts without direct blocks; it inherits whatever trees the freed slot still held. */
  predicate FreshNode(before: Inode, n: Inode) {
    n.ptrs == before.ptrs[0 := 0]
  }

  lemma BornOwn(fs: Fs, ino: nat, n: Inode, j: nat, t: Slot)
    requires OwnInv(fs) && IsInode(fs, ino) && !Live(fs, ino) && FreshNode(Node(fs, ino), n)
    ensures Own(Born(fs, ino, n), j, t) == Own(fs, j, t)
  {
    hide Marked, Unshared, CountsOk;
    var gs := Born(fs, ino, n);
    if IsInode(fs, j) && j == ino {
      assert forall k :: 1 <= k < NDIRECT ==> n.ptrs[k] == 0;
    }
  }

  lemma BornOk(fs: Fs, ino: nat, n: Inode)
    requires OwnInv(fs) && ino == NextInode(fs) != 0 && FreshNode(Node(fs, ino), n)
    ensures var gs := Born(fs, ino, n);
            && OwnInv(gs) && Live(gs, ino) && Node(gs, ino) == n
            && (forall k: nat :: Own(gs, ino, Direct(k)) == 0)
            && (forall j: nat :: j != ino ==> Untouched(fs, gs, j))
            && NextBlock(gs) == NextBlock(fs)
  {
    hide Own, NextInode;
    NextInodeFree(fs);
    var gs := Born(fs, ino, n);
    AllocInodeCounts(fs);
    forall j: nat, t: Slot
      ensures Own(gs, j, t) == Own(fs, j, t)
    {
      BornOwn(fs, ino, n, j, t);
    }
    assert Live(gs, ino);
    assert Shape(gs);
    assert CountsOk(gs);
    assert Marked(gs) && Unshared(gs);
    forall j: nat | IsInode(gs, j) && !Live(gs, j)
      ensures DirectTailClear(Node(gs, j))
    {
      assert !Live(fs, j) && Node(gs, j) == Node(fs, j);
    }
    forall k: nat
      ensures Own(fs, ino, Direct(k)) == 0
    {
      DeadDirect(fs, ino, k);
    }
    NextBlockSame(fs, gs);
  }

  lemma NextInodeFree(fs: Fs)
    requires Shape(fs) && NextInode(fs) != 0
    ensures FIRST_FREE_INODE < NextInode(fs) <= fs.sup.inodesCount && !Live(fs, NextInode(fs))
  {
  }

  lemma DeadDirect(fs: Fs, ino: nat, k: nat)
    requires !Live(fs, ino)
    ensures Own(fs, ino, Direct(k)) == 0
  {
  }

  lemma NextBlockSame(fs: Fs, gs: Fs)
    requires Shape(fs) && Shape(gs) && gs.blockBits == fs.blockBits
    requires gs.sup.firstData == fs.sup.firstData && gs.sup.blocksCount == fs.sup.blocksCount
    ensures NextBlock(gs) == NextBlock(fs)
  {
  }

  /** Reverting a birth: any change to a dead inode's record that keeps its trees, and to a free
      block, leaves the filesystem as it was. */
  lemma DeadChange(fs: Fs, gs: Fs, ino: nat, nb: nat)
    requires OwnInv(fs) && IsInode(fs, ino) && !Live(fs, ino)
    requires gs.sup == fs.sup && gs.blockBits == fs.blockBits && gs.inodeBits == fs.inodeBits
    requires |gs.inodes| == |fs.inodes| && forall j: nat :: IsInode(fs, j) && j != ino ==> Node(gs, j) == Node(fs, j)
    requires forall k :: 1 <= k < 15 ==> Node(gs, ino).ptrs[k] == Node(fs, ino).ptrs[k]
    requires nb < fs.sup.blocksCount && (nb < fs.sup.firstData || !fs.blockBits[nb])
    requires |gs.disk| == |fs.disk| && forall x :: fs.sup.firstData <= x < |fs.disk| && x != nb ==>
             gs.disk[x] == fs.disk[x]
    ensures OwnInv(gs)
    ensures forall j: nat, t: Slot :: Own(gs, j, t) == Own(fs, j, t)
    ensures forall j: nat :: Untouched(fs, gs, j)
  {
    hide Own;
    forall j: nat, t: Slot
      ensures Own(gs, j, t) == Own(fs, j, t)
    {
      DeadOwn(fs, gs, ino, nb, j, t);
    }
    assert forall j: nat, t: Slot :: Own(fs, j, t) == 0 || Own(fs, j, t) >= fs.sup.firstData;
    assert Marked(gs) && Unshared(gs);
    assert FreedClear(gs);
  }

  lemma DeadOwn(fs: Fs, gs: Fs, ino: nat, nb: nat, j: nat, t: Slot)
    requires OwnInv(fs) && IsInode(fs, ino) && !Live(fs, ino) && gs.inodeBits == fs.inodeBits
    requires |gs.inodes| == |fs.inodes| && forall j: nat :: IsInode(fs, j) && j != ino ==> Node(gs, j) == Node(fs, j)
    requires forall k :: 1 <= k < 15 ==> Node(gs, ino).ptrs[k] == Node(fs, ino).ptrs[k]
    requires nb < fs.sup.blocksCount && (nb < fs.sup.firstData || !fs.blockBits[nb])
    requires |gs.disk| == |fs.disk| && forall x :: fs.sup.firstData <= x < |fs.disk| && x != nb ==>
             gs.disk[x] == fs.disk[x]
    ensures Own(gs, j, t) == Own(fs, j, t)
  {
    hide Unshared, FreedClear, CountsOk;
    if IsInode(fs, j) {
      var n := Node(fs, j);
      assert Own(fs, j, Single) == n.ptrs[12];
      assert Own(fs, j, Double) == n.ptrs[13];
      if t.Level2Entry? {
        assert Own(fs, j, Level2(t.a)) == TableAt(fs.disk, n.ptrs[13], t.a);
      }
      RefFrame(n, fs.disk, gs.disk, t);
    }
  }

  // ---- releasing blocks ----

  /** Slot `s` of `ino` gave up block `b`, and nothing else changed hands. */
  ghost predicate Loses(fs: Fs, gs: Fs, ino: nat, s: Slot, b: nat)
    requires Shape(fs)
  {
    && Own(fs, ino, s) == b != 0 && b < fs.sup.blocksCount
    && gs.sup == fs.sup.(freeBlocks := Inc32(fs.sup.freeBlocks))
    && gs.blockBits == fs.blockBits[b := false]
    && gs.inodeBits == fs.inodeBits && |gs.inodes| == |fs.inodes| && gs.disk == fs.disk
    && (forall j: nat, t: Slot :: Own(gs, j, t) == if j == ino && t == s then 0 else Own(fs, j, t))
    && (forall j: nat :: IsInode(fs, j) && j != ino ==> Node(gs, j) == Node(fs, j))
  }

  lemma LosesKeepsInv(fs: Fs, gs: Fs, ino: nat, s: Slot, b: nat)
    requires OwnInv(fs) && Live(fs, ino) && Loses(fs, gs, ino, s, b)
    ensures OwnInv(gs)
  {
    hide Own;
    FreeBlockCounts(fs, b);
    assert CountsOk(gs);
    assert Marked(gs) && Unshared(gs);
    assert FreedClear(gs);
  }

  /** `ext2_free_block(block[k]); block[k] = 0` for a present pointer. */
  function FreeDirect(fs: Fs, ino: nat, k: nat): Fs
    requires Shape(fs) && IsInode(fs, ino) && k < NDIRECT
  {
    var n := Node(fs, ino);
    if n.ptrs[k] == 0 then fs
    else WithNode(FreeBlock(fs, n.ptrs[k]), ino, n.(ptrs := n.ptrs[k := 0]))
  }

  /** The release loop of `ext2_unlink` from pointer `k` on. */
  function FreeDirects(fs: Fs, ino: nat, k: nat): (gs: Fs)
    requires Shape(fs) && IsInode(fs, ino)
    ensures Shape(gs) && IsInode(gs, ino)
    decreases NDIRECT - k
  {
    if k >= NDIRECT then fs else FreeDirects(FreeDirect(fs, ino, k), ino, k + 1)
  }

  lemma FreeDirectLoses(fs: Fs, ino: nat, k: nat)
    requires OwnInv(fs) && Live(fs, ino) && k < NDIRECT && Node(fs, ino).ptrs[k] != 0
    ensures Loses(fs, FreeDirect(fs, ino, k), ino, Direct(k), Node(fs, ino).ptrs[k])
  {
    var gs := FreeDirect(fs, ino, k);
    assert Own(fs, ino, Direct(k)) == Node(fs, ino).ptrs[k];
    forall j: nat, t: Slot
      ensures Own(gs, j, t) == if j == ino && t == Direct(k) then 0 else Own(fs, j, t)
    {
      assert IsInode(fs, j) && j != ino ==> Node(gs, j) == Node(fs, j);
    }
  }

  /** From `fs` to `gs` inode `ino` only gave up direct blocks. */
  ghost predicate Released(fs: Fs, gs: Fs, ino: nat) {
    && gs.inodeBits == fs.inodeBits && |gs.inodes| == |fs.inodes| && gs.disk == fs.disk
    && gs.sup == fs.sup.(freeBlocks := gs.sup.freeBlocks)
    && IsInode(fs, ino) && Node(gs, ino) == Node(fs, ino).(ptrs := Node(gs, ino).ptrs)
    && (forall j: nat, t: Slot :: Own(gs, j, t) == Own(fs, j, t) || (j == ino && t.Direct? && Own(gs, j, t) == 0))
    && (forall j: nat :: IsInode(fs, j) && j != ino ==> Node(gs, j) == Node(fs, j))
  }

  lemma {:induction false} FreeDirectsOk(fs: Fs, ino: nat, k: nat)
    requires OwnInv(fs) && Live(fs, ino) && forall i :: 0 <= i < k && i < NDIRECT ==> Node(fs, ino).ptrs[i] == 0
    ensures var gs := FreeDirects(fs, ino, k);
            && OwnInv(gs) && Released(fs, gs, ino)
            && (forall i :: 0 <= i < NDIRECT ==> Node(gs, ino).ptrs[i] == 0)
    decreases NDIRECT - k
  {
    hide Own, Marked, Unshared, FreedClear, CountsOk, FreeBlock;
    if k < NDIRECT {
      var f1 := FreeDirect(fs, ino, k);
      if Node(fs, ino).ptrs[k] != 0 {
        FreeDirectLoses(fs, ino, k);
        LosesKeepsInv(fs, f1, ino, Direct(k), Node(fs, ino).ptrs[k]);
        FreeDirectNode(fs, ino, k);
      }
      FreeDirectsOk(f1, ino, k + 1);
    }
  }

  lemma FreeDirectNode(fs: Fs, ino: nat, k: nat)
    requires Shape(fs) && IsInode(fs, ino) && k < NDIRECT
    ensures Node(FreeDirect(fs, ino, k), ino) == Node(fs, ino).(ptrs := Node(fs, ino).ptrs[k := 0])
  {
  }

  // ---- how each kind of step keeps the tree ----

  /** No directory has an entry for `ino`. */
  ghost predicate Unreferenced(fs: Fs, ino: nat) {
    forall d: nat, n: Name :: LiveDir(fs, d) && !IsDot(n) ==> Entry(fs, d, n) != ino
  }

  /** What the tree invariant needs to know about an untouched inode. */
  lemma UntouchedView(fs: Fs, gs: Fs, j: nat)
    requires TreeInv(fs) && Untouched(fs, gs, j)
    ensures Live(gs, j) <==> Live(fs, j)
    ensures LiveDir(gs, j) <==> LiveDir(fs, j)
    ensures LiveDir(fs, j) ==> DirOk(gs, j) && forall n: Name :: Entry(gs, j, n) == Entry(fs, j, n)
    ensures LiveFile(fs, j) ==> FileOk(gs, j)
  {
    hide Entry, NoHoles, DirOk, Untouched;
    if Live(fs, j) {
      UntouchedDir(fs, gs, j);
      UntouchedFile(fs, gs, j);
    }
    UntouchedLive(fs, gs, j);
  }

  lemma UntouchedLive(fs: Fs, gs: Fs, j: nat)
    requires Untouched(fs, gs, j)
    ensures Live(gs, j) <==> Live(fs, j)
  {
  }

  lemma UntouchedTree(fs: Fs, gs: Fs)
    requires TreeInv(fs) && forall j: nat :: Untouched(fs, gs, j)
    ensures TreeInv(gs)
  {
    hide Entry, FileOk, DirOk, Untouched, LiveDir, LiveFile, Live;
    forall j: nat
      ensures Live(gs, j) <==> Live(fs, j)
      ensures LiveDir(gs, j) <==> LiveDir(fs, j)
      ensures LiveFile(gs, j) <==> LiveFile(fs, j)
      ensures LiveDir(fs, j) ==> DirOk(gs, j) && forall n: Name :: Entry(gs, j, n) == Entry(fs, j, n)
      ensures LiveFile(fs, j) ==> FileOk(gs, j)
    {
      UntouchedView(fs, gs, j);
      KindSplit(fs, j);
      KindSplit(gs, j);
    }
  }

  lemma KindSplit(fs: Fs, j: nat)
    ensures LiveFile(fs, j) <==> Live(fs, j) && !LiveDir(fs, j)
    ensures LiveDir(fs, j) ==> Live(fs, j)
    ensures !Live(fs, 0) && !LiveDir(fs, 0)
  {
  }

  /** A newly born file without entries, or a newly born directory holding only its dots. */
  lemma BirthKeepsTree(fs: Fs, gs: Fs, ino: nat)
    requires TreeInv(fs) && !Live(fs, ino) && Live(gs, ino) && forall j: nat :: j != ino ==> Untouched(fs, gs, j)
    requires LiveFile(gs, ino) ==> FileOk(gs, ino)
    requires LiveDir(gs, ino) ==> DirOk(gs, ino) && Entry(gs, ino, DOT) == ino && Entry(gs, ino, DOTDOT) != 0
                                  && forall n: Name :: !IsDot(n) ==> Entry(gs, ino, n) == 0
    ensures TreeInv(gs) && Unreferenced(gs, ino)
  {
    hide Entry, FileOk, DirOk, Untouched, LiveDir, LiveFile, Live;
    KindSplit(fs, ROOT_INODE);
    KindSplit(fs, ino);
    KindSplit(gs, ino);
    forall j: nat | j != ino
      ensures Live(gs, j) <==> Live(fs, j)
      ensures LiveDir(gs, j) <==> LiveDir(fs, j)
      ensures LiveFile(gs, j) <==> LiveFile(fs, j)
      ensures LiveDir(fs, j) ==> DirOk(gs, j) && forall n: Name :: Entry(gs, j, n) == Entry(fs, j, n)
      ensures LiveFile(fs, j) ==> FileOk(gs, j)
    {
      UntouchedView(fs, gs, j);
      KindSplit(fs, j);
      KindSplit(gs, j);
    }
  }

  /** Binding a name to an inode that nothing refers to yet. */
  lemma LinkKeepsTree(fs: Fs, gs: Fs, p: nat, name: Name, ino: u32)
    requires TreeInv(fs) && LiveDir(fs, p) && !IsDot(name) && EntrySet(fs, gs, p, name, ino)
    requires Live(fs, ino) && ino > FIRST_FREE_INODE && ino != p && Unreferenced(fs, ino)
    requires LiveDir(fs, ino) ==> Entry(fs, ino, DOTDOT) == p
    ensures TreeInv(gs)
  {
    hide Entry, FileOk, DirOk, LiveDir, LiveFile, Live, EntrySet;
    EntrySetView(fs, gs, p, name, ino);
    assert Entry(gs, ROOT_INODE, DOTDOT) == ROOT_INODE;
  }

  /** Unbinding a name. */
  lemma UnlinkKeepsTree(fs: Fs, gs: Fs, p: nat, name: Name)
    requires TreeInv(fs) && LiveDir(fs, p) && !IsDot(name) && EntrySet(fs, gs, p, name, 0)
    ensures TreeInv(gs)
    ensures Entry(fs, p, name) != 0 ==> Unreferenced(gs, Entry(fs, p, name))
  {
    hide Entry, FileOk, DirOk, LiveDir, LiveFile, Live, EntrySet;
    EntrySetView(fs, gs, p, name, 0);
    KindSplit(fs, p);
  }

  lemma EntrySetView(fs: Fs, gs: Fs, p: nat, name: Name, v: u32)
    requires TreeInv(fs) && LiveDir(fs, p) && EntrySet(fs, gs, p, name, v)
    ensures DirOk(gs, p) && LiveDir(gs, p)
    ensures forall n: Name :: Entry(gs, p, n) == if n == name then v else Entry(fs, p, n)
    ensures forall j: nat :: Live(gs, j) <==> Live(fs, j)
    ensures forall j: nat :: LiveDir(gs, j) <==> LiveDir(fs, j)
    ensures forall j: nat :: LiveFile(gs, j) <==> LiveFile(fs, j)
    ensures forall j: nat :: LiveDir(fs, j) ==> DirOk(gs, j)
    ensures forall j: nat, n: Name :: j != p && LiveDir(fs, j) ==> Entry(gs, j, n) == Entry(fs, j, n)
    ensures forall j: nat :: LiveFile(fs, j) ==> FileOk(gs, j)
  {
    hide Entry, FileOk, OthersSame, OwnInv, BlocksOk, Packed, NamesApart, SizeOk;
    forall j: nat | j != p
      ensures Live(gs, j) <==> Live(fs, j)
      ensures LiveDir(gs, j) <==> LiveDir(fs, j)
      ensures LiveDir(fs, j) ==> DirOk(gs, j) && forall n: Name :: Entry(gs, j, n) == Entry(fs, j, n)
      ensures LiveFile(fs, j) ==> FileOk(gs, j)
    {
      OthersUntouched(fs, gs, p, j);
      UntouchedView(fs, gs, j);
    }
  }

  /** An unreferenced inode dies. */
  lemma DeathKeepsTree(fs: Fs, gs: Fs, ino: nat)
    requires TreeInv(fs) && ino != ROOT_INODE && Unreferenced(fs, ino) && !Live(gs, ino)
    requires forall j: nat :: j != ino ==> Untouched(fs, gs, j)
    ensures TreeInv(gs)
  {
    hide Entry, FileOk, DirOk, Untouched, LiveDir, LiveFile, Live;
    KindSplit(gs, ino);
    forall j: nat | j != ino
      ensures Live(gs, j) <==> Live(fs, j)
      ensures LiveDir(gs, j) <==> LiveDir(fs, j)
      ensures LiveFile(gs, j) <==> LiveFile(fs, j)
      ensures LiveDir(fs, j) ==> DirOk(gs, j) && forall n: Name :: Entry(gs, j, n) == Entry(fs, j, n)
      ensures LiveFile(fs, j) ==> FileOk(gs, j)
    {
      UntouchedView(fs, gs, j);
      KindSplit(fs, j);
      KindSplit(gs, j);
    }
  }
}
