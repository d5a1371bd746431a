/** The filesystem `ext2_format` lays out, up to the root directory; the directories and files it
    seeds afterwards are ordinary operations. */
module Ext2Format {
  import opened Numbers
  import opened Bytes
  import opened Bitmaps
  import opened Ext2State
  import opened Ext2Ownership
  import opened Ext2Bmap
  import opened Ext2Disk
  import opened Ext2File
  import opened Ext2DirBlock
  import opened Ext2Dir
  import opened Ext2Tree
  import opened Ext2Names
  import opened Ext2Persist
  import opened Ext2Runs

  /** 1024 inodes, fewer on small disks. */
  function InodesFor(blocksCount: nat): nat { Min(1024, blocksCount / 4) }

  function MagicBytes(): (r: seq<byte>)
    ensures |r| == 84 && Le16(r, 28) == 0xEF53
  {
    var r := Bytes32(8192) + Bytes32(2048) + Zeros(20) + Bytes16(0xEF53) + Zeros(54);
    assert r[28] == Bytes16(0xEF53)[0] && r[29] == Bytes16(0xEF53)[1];
    r
  }

  function ZeroInode(): Inode {
    Inode(0, 0, 0, Zeros(16), 0, 0, 0, Zeros(8), seq(15, _ => 0), Zeros(156))
  }

  function RootInode(first: u32): Inode {
    ZeroInode().(mode := 0x41ED, size := BS, links := 2, blocks := 2, ptrs := seq(15, _ => 0)[0 := first])
  }

  lemma FirstFits(n: nat)
    requires 8 <= n
    ensures FirstData(n, InodesFor(n)) < n
  {
  }

  /** Memory state before anything is written: every metadata block and the root block in use, and
      the root inode. */
  function Fresh(blocksCount: u32, disk: seq<Block>): (fs: Fs)
    requires 8 <= blocksCount <= MAX_BLOCKS && blocksCount <= |disk|
    ensures Shape(fs)
  {
    var i := InodesFor(blocksCount);
    var first := FirstData(blocksCount, i);
    FirstFits(blocksCount);
    Fs(Super(i, blocksCount, 0, blocksCount - first - 1, i - 1, first, 0, MagicBytes(), Zeros(896)),
       seq(8 * ((blocksCount + 7) / 8), k => k <= first),
       seq(8 * ((i + 7) / 8), k => k == ROOT_INODE - 1),
       seq(i, _ => ZeroInode())[ROOT_INODE - 1 := RootInode(first)],
       disk[first := DotsBlock(ROOT_INODE, ROOT_INODE)])
  }

  /** Write inodes 1..k through. */
  function SyncTable(fs: Fs, k: nat): (gs: Fs)
    requires Shape(fs) && k <= |fs.inodes|
    ensures Shape(gs) && gs == fs.(disk := gs.disk) && |gs.disk| == |fs.disk|
    ensures forall x :: fs.sup.firstData <= x < |fs.disk| ==> gs.disk[x] == fs.disk[x]
  {
    if k == 0 then fs
    else
      SyncInodeFrame(SyncTable(fs, k - 1), k);
      SyncInode(SyncTable(fs, k - 1), k)
  }

  /** `ext2_format` up to and including the first write-out. */
  function Format(blocksCount: u32, disk: seq<Block>): Fs
    requires 8 <= blocksCount <= MAX_BLOCKS && blocksCount <= |disk|
  {
    hide Fresh, SyncTable;
    var fs := Fresh(blocksCount, disk);
    CommitMaps(SyncTable(fs, |fs.inodes|))
  }

  lemma {:induction false} LowCount(bits: seq<bool>, first: nat, n: nat)
    requires n <= |bits| && forall k :: 0 <= k < |bits| ==> bits[k] == (k <= first)
    ensures ClearCount(bits, n) == if n <= first then 0 else n - first - 1
  {
    if n > 0 {
      LowCount(bits, first, n - 1);
    }
  }

  lemma {:induction false} OneCount(bits: seq<bool>, one: nat, n: nat)
    requires n <= |bits| && forall k :: 0 <= k < |bits| ==> bits[k] == (k == one)
    ensures ClearCount(bits, n) == if n <= one then n else n - 1
  {
    if n > 0 {
      OneCount(bits, one, n - 1);
    }
  }

  /** The root directory's block is the only owned block. */
  lemma FreshOwn(n: u32, disk: seq<Block>, j: nat, t: Slot)
    requires 8 <= n <= MAX_BLOCKS && n <= |disk|
    ensures var fs := Fresh(n, disk);
            Own(fs, j, t) == if j == ROOT_INODE && t == Direct(0) then fs.sup.firstData else 0
  {
    hide DotsBlock, MagicBytes;
    FirstFits(n);
    var fs := Fresh(n, disk);
    if IsInode(fs, j) && j != ROOT_INODE {
      assert Node(fs, j) == ZeroInode();
    }
  }

  lemma FreshOwnInv(n: u32, disk: seq<Block>)
    requires 8 <= n <= MAX_BLOCKS && n <= |disk|
    ensures OwnInv(Fresh(n, disk))
  {
    hide Own, DotsBlock, MagicBytes;
    FirstFits(n);
    var fs := Fresh(n, disk);
    LowCount(fs.blockBits, fs.sup.firstData, n);
    OneCount(fs.inodeBits, ROOT_INODE - 1, fs.sup.inodesCount);
    forall j: nat, t: Slot
      ensures Own(fs, j, t) == if j == ROOT_INODE && t == Direct(0) then fs.sup.firstData else 0
    {
      FreshOwn(n, disk, j, t);
    }
    assert Marked(fs) && Unshared(fs);
    forall j: nat | IsInode(fs, j) && !Live(fs, j)
      ensures DirectTailClear(Node(fs, j))
    {
      assert Node(fs, j) == ZeroInode();
    }
  }

  lemma FreshTree(n: u32, disk: seq<Block>)
    requires 8 <= n <= MAX_BLOCKS && n <= |disk|
    ensures TreeInv(Fresh(n, disk))
  {
    hide Own, DotsBlock, MagicBytes, Find, Tiles, Distinct, Entry, BlocksOk, Packed, NamesApart, SizeOk;
    FirstFits(n);
    var fs := Fresh(n, disk);
    assert forall j: nat :: Live(fs, j) ==> j == ROOT_INODE;
    assert LiveDir(fs, ROOT_INODE);
    var c := DotsBlock(ROOT_INODE, ROOT_INODE);
    forall k: nat
      ensures Own(fs, ROOT_INODE, Direct(k)) == if k == 0 then fs.sup.firstData else 0
    {
      FreshOwn(n, disk, ROOT_INODE, Direct(k));
    }
    assert SlotData(fs, ROOT_INODE, Direct(0)) == c;
    DotsBlockOk(ROOT_INODE, ROOT_INODE);
    OneBlockDir(fs, ROOT_INODE, c);
  }

  lemma {:induction false} SyncTableSyncs(fs: Fs, k: nat, j: nat)
    requires Shape(fs) && k <= |fs.inodes| && 1 <= j <= k
    ensures OnDisk(SyncTable(fs, k), j) == EncodeInode(Node(fs, j))
  {
    hide OnDisk, EncodeInode, SyncInode;
    var g := SyncTable(fs, k - 1);
    SyncInodeOnDisk(g, k, j);
    if j < k {
      SyncTableSyncs(fs, k - 1, j);
    }
  }

  lemma FormatSyncs(fs: Fs)
    requires Shape(fs) && SuperOk(fs.sup)
    ensures Synced(CommitMaps(SyncTable(fs, |fs.inodes|)))
  {
    hide OnDisk, EncodeInode, DecodeInode, SyncTable, CommitMaps;
    var g := SyncTable(fs, |fs.inodes|);
    forall j: nat | IsInode(g, j) && j != 0
      ensures InodeSynced(g, j)
    {
      SyncTableSyncs(fs, |fs.inodes|, j);
      DecodeEncoded(Node(fs, j));
    }
    CommitMapsSyncs(g);
  }

  lemma FreshSuper(n: u32, disk: seq<Block>)
    requires 8 <= n <= MAX_BLOCKS && n <= |disk|
    ensures SuperOk(Fresh(n, disk).sup)
  {
  }

  /** A formatted disk satisfies every invariant, so every run from it does. */
  lemma FormatGood(n: u32, disk: seq<Block>)
    requires 8 <= n <= MAX_BLOCKS && n <= |disk|
    ensures Good(Format(n, disk))
  {
    hide Fresh, SyncTable, CommitMaps, Own, SlotData, Marked, Unshared, FreedClear, CountsOk, TreeInv, Synced;
    var fs := Fresh(n, disk);
    FreshOwnInv(n, disk);
    FreshTree(n, disk);
    FreshSuper(n, disk);
    FormatSyncs(fs);
    var gs := Format(n, disk);
    MetaFrame(fs, gs);
    UntouchedTree(fs, gs);
  }

  /** What a formatted disk holds: the root directory in its one block, and nothing else in use. */
  lemma FormatRoot(n: u32, disk: seq<Block>)
    requires 8 <= n <= MAX_BLOCKS && n <= |disk|
    ensures var fs := Format(n, disk); var i := InodesFor(n); var first := FirstData(n, i);
            && Shape(fs) && fs.sup.blocksCount == n && fs.sup.inodesCount == i && fs.sup.firstData == first
            && LiveDir(fs, ROOT_INODE) && Node(fs, ROOT_INODE) == RootInode(first)
            && (forall k :: 0 <= k < |fs.blockBits| ==> fs.blockBits[k] == (k <= first))
            && (forall k :: 0 <= k < |fs.inodeBits| ==> fs.inodeBits[k] == (k == ROOT_INODE - 1))
            && Own(fs, ROOT_INODE, Direct(0)) == first
            && DirBlock(fs, ROOT_INODE, 0) == DotsBlock(ROOT_INODE, ROOT_INODE)
            && (forall m: Name :: Entry(fs, ROOT_INODE, m) == if IsDot(m) then ROOT_INODE else 0)
  {
    hide SyncTable, CommitMaps, Marked, Unshared, FreedClear, CountsOk, DotsBlock, MagicBytes, Find, Tiles, Distinct,
         Entry, Own;
    var fs := Fresh(n, disk);
    FreshOwnInv(n, disk);
    FirstFits(n);
    var gs := Format(n, disk);
    FormatFrame(n, disk);
    MetaFrame(fs, gs);
    forall k: nat
      ensures Own(gs, ROOT_INODE, Direct(k)) == if k == 0 then fs.sup.firstData else 0
    {
      FreshOwn(n, disk, ROOT_INODE, Direct(k));
    }
    assert SlotData(fs, ROOT_INODE, Direct(0)) == DotsBlock(ROOT_INODE, ROOT_INODE);
    DotsBlockOk(ROOT_INODE, ROOT_INODE);
    OneBlockDir(gs, ROOT_INODE, DotsBlock(ROOT_INODE, ROOT_INODE));
  }

  lemma FormatFrame(n: u32, disk: seq<Block>)
    requires 8 <= n <= MAX_BLOCKS && n <= |disk|
    ensures var fs := Fresh(n, disk); var gs := Format(n, disk);
            && gs == fs.(disk := gs.disk) && |gs.disk| == |fs.disk|
            && (forall x :: fs.sup.firstData <= x < |fs.disk| ==> gs.disk[x] == fs.disk[x])
  {
    hide Fresh, SyncTable, CommitMaps;
  }

  /** Every state reachable from a formatted disk is good. */
  lemma ReachableGood(n: u32, disk: seq<Block>, ops: seq<Op>)
    requires 8 <= n <= MAX_BLOCKS && n <= |disk|
    requires Good(Format(n, disk)) && AllAllowed(Format(n, disk), ops)
    ensures Good(Run(Format(n, disk), ops))
  {
    hide FsInv, Synced, Format;
    FormatGood(n, disk);
    RunGood(Format(n, disk), ops);
  }
}
