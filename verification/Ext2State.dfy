/** The mounted filesystem as a value: superblock, both bitmaps, the inode
    table cached in memory, and the disk as a sequence of 1024-byte blocks. */
module Ext2State {
  import opened Bytes
  import opened Bitmaps

  const BS := 1024            // bytes in a block
  const PTRS := 256           // 32-bit pointers in a table block
  const NDIRECT := 12         // direct pointers in an inode
  const MAX_FILE_BLOCKS := 65804   // NDIRECT + PTRS + PTRS * PTRS
  const ROOT_INODE := 2
  const FIRST_FREE_INODE := 11     // bitmap index where inode allocation starts
  const MAX_BLOCKS := 0xFFFF_0000  // keeps the bitmap-size arithmetic inside 32 bits
  const MAX_INODES := 8192         // the inode bitmap is one block

  type Block = b: seq<byte> | |b| == BS witness Zeros(BS)

  /** `struct ext2_inode`, 256 bytes on disk; `times`, `flags` and `tail` are the fields nobody interprets. */
  datatype InodeData = Inode(
    mode: u16, uid: u16, size: u32, times: seq<byte>, gid: u16, links: u16,
    blocks: u32, flags: seq<byte>, ptrs: seq<u32>, tail: seq<byte>)

  type Inode = n: InodeData | |n.times| == 16 && |n.flags| == 8 && |n.ptrs| == 15 && |n.tail| == 156
    witness Inode(0, 0, 0, Zeros(16), 0, 0, 0, Zeros(8), seq(15, _ => 0), Zeros(156))

  /** `struct ext2_superblock`; `mid` holds the bytes from 0x1C to 0x70 (magic included), `tail` the padding. */
  datatype SuperData = Super(
    inodesCount: u32, blocksCount: u32, reserved: u32, freeBlocks: u32, freeInodes: u32,
    firstData: u32, logBlockSize: u32, mid: seq<byte>, tail: seq<byte>)

  type Super = s: SuperData | |s.mid| == 84 && |s.tail| == 896
    witness Super(0, 0, 0, 0, 0, 0, 0, Zeros(84), Zeros(896))

  datatype Fs = Fs(sup: Super, blockBits: seq<bool>, inodeBits: seq<bool>, inodes: seq<Inode>, disk: seq<Block>)

  /** A directory has type bits 0040000 under the mask 0170000; a regular file 0100000. */
  predicate IsDirMode(mode: u16) { mode / 0x1000 == 4 }
  function DirMode(mode: u16): u16 { mode % 0x1000 + 0x4000 }
  function RegMode(mode: u16): u16 { mode % 0x1000 + 0x8000 }

  /** Layout: boot block, superblock, block bitmap, inode bitmap, inode table, data. */
  function BitmapBlocks(blocksCount: nat): nat { (blocksCount + 8191) / 8192 }
  function InodeBitmapBlock(blocksCount: nat): nat { 2 + BitmapBlocks(blocksCount) }
  function InodeTableStart(blocksCount: nat): nat { 3 + BitmapBlocks(blocksCount) }
  function InodeTableBlocks(inodesCount: nat): nat { (inodesCount + 3) / 4 }
  function FirstData(blocksCount: nat, inodesCount: nat): nat {
    InodeTableStart(blocksCount) + InodeTableBlocks(inodesCount)
  }

  /** Sizes that never change while the filesystem is mounted. */
  predicate Shape(fs: Fs) {
    && ROOT_INODE <= fs.sup.inodesCount <= MAX_INODES
    && fs.sup.blocksCount <= MAX_BLOCKS
    && fs.sup.firstData == FirstData(fs.sup.blocksCount, fs.sup.inodesCount)
    && fs.sup.firstData <= fs.sup.blocksCount <= |fs.disk|
    && |fs.inodes| == fs.sup.inodesCount
    && |fs.blockBits| == 8 * ((fs.sup.blocksCount + 7) / 8)
    && |fs.inodeBits| == 8 * ((fs.sup.inodesCount + 7) / 8)
  }

  predicate IsInode(fs: Fs, ino: nat) { 1 <= ino <= |fs.inodes| }

  function Node(fs: Fs, ino: nat): Inode
    requires IsInode(fs, ino)
  {
    fs.inodes[ino - 1]
  }

  function WithNode(fs: Fs, ino: nat, n: Inode): Fs
    requires IsInode(fs, ino)
  {
    fs.(inodes := fs.inodes[ino - 1 := n])
  }

  predicate Live(fs: Fs, ino: nat) { 1 <= ino <= |fs.inodes| && ino <= |fs.inodeBits| && fs.inodeBits[ino - 1] }

  predicate LiveDir(fs: Fs, ino: nat) { Live(fs, ino) && IsDirMode(Node(fs, ino).mode) }

  predicate LiveFile(fs: Fs, ino: nat) { Live(fs, ino) && !IsDirMode(Node(fs, ino).mode) }

  function Inc32(x: u32): u32 { if x == 0xFFFF_FFFF then 0 else x + 1 }
  function Dec32(x: u32): u32 { if x == 0 then 0xFFFF_FFFF else x - 1 }
  function Add32(x: u32, y: nat): u32 { (x + y) % 0x1_0000_0000 }

  /** Both free counters equal the number of clear bits in their bitmaps. */
  predicate CountsOk(fs: Fs)
    requires Shape(fs)
  {
    && fs.sup.freeBlocks == ClearCount(fs.blockBits, fs.sup.blocksCount)
    && fs.sup.freeInodes == ClearCount(fs.inodeBits, fs.sup.inodesCount)
  }

  // ---- bitmap allocation ----

  /** First block number the allocator considers. */
  function AllocStart(fs: Fs): nat { if fs.sup.firstData < 1 then 1 else fs.sup.firstData }

  /** Lowest clear block bit at or above the data area, or 0 when the disk is full. */
  function NextBlock(fs: Fs): (nb: nat)
    requires Shape(fs)
    ensures nb != 0 ==> fs.sup.firstData <= nb < fs.sup.blocksCount && !fs.blockBits[nb]
    ensures nb != 0 ==> forall k :: fs.sup.firstData <= k < nb ==> fs.blockBits[k]
    ensures nb == 0 ==> forall k :: fs.sup.firstData <= k < fs.sup.blocksCount ==> fs.blockBits[k]
  {
    var i := FirstClear(fs.blockBits, AllocStart(fs), fs.sup.blocksCount);
    if i < fs.sup.blocksCount then i else 0
  }

  function MarkBlock(fs: Fs, nb: nat): Fs
    requires nb < |fs.blockBits|
  {
    fs.(blockBits := fs.blockBits[nb := true], sup := fs.sup.(freeBlocks := Dec32(fs.sup.freeBlocks)))
  }

  /** `ext2_alloc_block`: the state is unchanged when 0 is returned. */
  function AllocBlock(fs: Fs): (Fs, nat)
    requires Shape(fs)
  {
    var nb := NextBlock(fs);
    if nb == 0 then (fs, 0) else (MarkBlock(fs, nb), nb)
  }

  /** `ext2_free_block`: the counter goes up whether or not the bit was set. */
  function FreeBlock(fs: Fs, b: nat): Fs
    requires Shape(fs)
  {
    if b < fs.sup.blocksCount then
      fs.(blockBits := fs.blockBits[b := false], sup := fs.sup.(freeBlocks := Inc32(fs.sup.freeBlocks)))
    else fs
  }

  /** Lowest free inode number above the reserved ones, or 0. */
  function NextInode(fs: Fs): (ino: nat)
    requires Shape(fs)
    ensures ino != 0 ==> FIRST_FREE_INODE < ino <= fs.sup.inodesCount && !fs.inodeBits[ino - 1]
    ensures ino != 0 ==> forall k :: FIRST_FREE_INODE <= k < ino - 1 ==> fs.inodeBits[k]
    ensures ino == 0 ==> forall k :: FIRST_FREE_INODE <= k < fs.sup.inodesCount ==> fs.inodeBits[k]
  {
    if fs.sup.inodesCount <= FIRST_FREE_INODE then 0
    else
      var i := FirstClear(fs.inodeBits, FIRST_FREE_INODE, fs.sup.inodesCount);
      if i < fs.sup.inodesCount then i + 1 else 0
  }

  function MarkInode(fs: Fs, ino: nat): Fs
    requires 1 <= ino <= |fs.inodeBits|
  {
    fs.(inodeBits := fs.inodeBits[ino - 1 := true], sup := fs.sup.(freeInodes := Dec32(fs.sup.freeInodes)))
  }

  /** `ext2_free_inode_num`. */
  function FreeInode(fs: Fs, ino: nat): Fs
    requires Shape(fs)
  {
    if 0 < ino <= fs.sup.inodesCount then
      fs.(inodeBits := fs.inodeBits[ino - 1 := false], sup := fs.sup.(freeInodes := Inc32(fs.sup.freeInodes)))
    else fs
  }

  /** Allocating keeps the free-block counter exact. */
  lemma AllocBlockCounts(fs: Fs)
    requires Shape(fs) && CountsOk(fs)
    ensures Shape(AllocBlock(fs).0) && CountsOk(AllocBlock(fs).0)
  {
    var nb := NextBlock(fs);
    if nb != 0 {
      ClearCountPositive(fs.blockBits, fs.sup.blocksCount, nb);
      ClearCountUpdate(fs.blockBits, fs.sup.blocksCount, nb, true);
    }
  }

  /** Freeing keeps the counter exact if and only if the bit was set (or the number is out of range). */
  lemma FreeBlockCounts(fs: Fs, b: nat)
    requires Shape(fs) && CountsOk(fs)
    ensures Shape(FreeBlock(fs, b))
    ensures CountsOk(FreeBlock(fs, b)) <==> (b < fs.sup.blocksCount ==> fs.blockBits[b])
  {
    if b < fs.sup.blocksCount {
      ClearCountUpdate(fs.blockBits, fs.sup.blocksCount, b, false);
    }
  }

  lemma AllocInodeCounts(fs: Fs)
    requires Shape(fs) && CountsOk(fs) && NextInode(fs) != 0
    ensures Shape(MarkInode(fs, NextInode(fs))) && CountsOk(MarkInode(fs, NextInode(fs)))
  {
    var ino := NextInode(fs);
    ClearCountPositive(fs.inodeBits, fs.sup.inodesCount, ino - 1);
    ClearCountUpdate(fs.inodeBits, fs.sup.inodesCount, ino - 1, true);
  }

  lemma FreeInodeCounts(fs: Fs, ino: nat)
    requires Shape(fs) && CountsOk(fs)
    ensures Shape(FreeInode(fs, ino))
    ensures CountsOk(FreeInode(fs, ino)) <==> (0 < ino <= fs.sup.inodesCount ==> fs.inodeBits[ino - 1])
  {
    if 0 < ino <= fs.sup.inodesCount {
      ClearCountUpdate(fs.inodeBits, fs.sup.inodesCount, ino - 1, false);
    }
  }
}
