/** The on-disk image of the superblock, the bitmaps and the inode table, the
    write-through of each, and what `ext2_mount` reads back. */
module Ext2Disk {
  import opened Bytes
  import opened Ext2State

  // ---- 32-bit pointer arrays ----

  function PtrBytes(ptrs: seq<u32>): (r: seq<byte>)
    ensures |r| == 4 * |ptrs|
  {
    if ptrs == [] then [] else Bytes32(ptrs[0]) + PtrBytes(ptrs[1..])
  }

  lemma {:induction false} PtrBytesAt(ptrs: seq<u32>, i: nat)
    requires i < |ptrs|
    ensures Le32(PtrBytes(ptrs), 4 * i) == ptrs[i]
  {
    var rest := PtrBytes(ptrs[1..]);
    if i == 0 {
      Le32Left(Bytes32(ptrs[0]), rest, 0);
    } else {
      PtrBytesAt(ptrs[1..], i - 1);
      Le32Right(Bytes32(ptrs[0]), rest, 4 * (i - 1));
    }
  }

  // ---- inodes: 256 bytes, four to a block ----

  function EncodeInode(n: Inode): (r: seq<byte>)
    ensures |r| == 256
  {
    InodeHead(n) + PtrBytes(n.ptrs) + n.tail
  }

  function InodeHead(n: Inode): (r: seq<byte>)
    ensures |r| == 40
  {
    Bytes16(n.mode) + Bytes16(n.uid) + Bytes32(n.size) + n.times + Bytes16(n.gid) + Bytes16(n.links)
    + Bytes32(n.blocks) + n.flags
  }

  function DecodeInode(raw: seq<byte>): Inode
    requires |raw| == 256
  {
    Inode(Le16(raw, 0), Le16(raw, 2), Le32(raw, 4), raw[8..24], Le16(raw, 24), Le16(raw, 26), Le32(raw, 28),
          raw[32..40], seq(15, i requires 0 <= i < 15 => Le32(raw, 40 + 4 * i)), raw[100..])
  }

  lemma HeadFields(n: Inode, raw: seq<byte>)
    requires |raw| == 256 && raw[..40] == InodeHead(n)
    ensures Le16(raw, 0) == n.mode && Le16(raw, 2) == n.uid && Le32(raw, 4) == n.size && raw[8..24] == n.times
    ensures Le16(raw, 24) == n.gid && Le16(raw, 26) == n.links && Le32(raw, 28) == n.blocks && raw[32..40] == n.flags
  {
    var h := InodeHead(n);
    assert forall k :: 0 <= k < 40 ==> raw[k] == raw[..40][k] == h[k];
    assert h[0..2] == Bytes16(n.mode);
    assert h[2..4] == Bytes16(n.uid);
    assert h[4..8] == Bytes32(n.size);
    assert h[8..24] == n.times;
    assert h[24..26] == Bytes16(n.gid);
    assert h[26..28] == Bytes16(n.links);
    assert h[28..32] == Bytes32(n.blocks);
    assert h[32..40] == n.flags;
  }

  /** Writing an inode out and reading it back is the identity. */
  lemma InodeRoundTrip(n: Inode)
    ensures DecodeInode(EncodeInode(n)) == n
  {
    hide InodeHead, PtrBytes;
    var raw := EncodeInode(n);
    assert raw[..40] == InodeHead(n);
    HeadFields(n, raw);
    assert forall k :: 0 <= k < 60 ==> raw[40 + k] == PtrBytes(n.ptrs)[k];
    forall i | 0 <= i < 15
      ensures Le32(raw, 40 + 4 * i) == n.ptrs[i]
    {
      PtrBytesAt(n.ptrs, i);
      assert Le32(raw, 40 + 4 * i) == Le32(PtrBytes(n.ptrs), 4 * i);
    }
    assert DecodeInode(raw).ptrs == n.ptrs;
    assert raw[100..] == n.tail;
  }

  function InodeBlock(blocksCount: nat, ino: nat): nat
    requires ino >= 1
  {
    InodeTableStart(blocksCount) + (ino - 1) / 4
  }

  function InodeOffset(ino: nat): nat
    requires ino >= 1
  {
    (ino - 1) % 4 * 256
  }

  /** Every inode slot lies in the inode table, below the data area. */
  lemma InodeInTable(blocksCount: nat, inodesCount: nat, ino: nat)
    requires 1 <= ino <= inodesCount
    ensures InodeTableStart(blocksCount) <= InodeBlock(blocksCount, ino) < FirstData(blocksCount, inodesCount)
    ensures InodeOffset(ino) + 256 <= BS
  {
  }

  // ---- superblock: one block ----

  function EncodeSuper(s: Super): Block {
    SuperCounts(s) + s.mid + Bytes32(BS) + Bytes32(1) + s.tail + Zeros(8)
  }

  function SuperCounts(s: Super): (r: seq<byte>)
    ensures |r| == 28
  {
    PtrBytes([s.inodesCount, s.blocksCount, s.reserved, s.freeBlocks, s.freeInodes, s.firstData, s.logBlockSize])
  }

  function DecodeSuper(b: Block): Super {
    Super(Le32(b, 0), Le32(b, 4), Le32(b, 8), Le32(b, 12), Le32(b, 16), Le32(b, 20), Le32(b, 24),
          b[28..112], b[120..1016])
  }

  lemma SuperRoundTrip(s: Super)
    ensures DecodeSuper(EncodeSuper(s)) == s
  {
    var b := EncodeSuper(s);
    var v := [s.inodesCount, s.blocksCount, s.reserved, s.freeBlocks, s.freeInodes, s.firstData, s.logBlockSize];
    assert b[..28] == PtrBytes(v);
    forall i | 0 <= i < 7
      ensures Le32(b, 4 * i) == v[i]
    {
      PtrBytesAt(v, i);
      assert forall k :: 0 <= k < 28 ==> b[k] == b[..28][k];
      assert Le32(b, 4 * i) == Le32(PtrBytes(v), 4 * i);
    }
    assert b[28..112] == s.mid;
    assert b[120..1016] == s.tail;
    assert Le32(b, 4 * 0) == v[0] && Le32(b, 4 * 1) == v[1] && Le32(b, 4 * 2) == v[2] && Le32(b, 4 * 3) == v[3];
    assert Le32(b, 4 * 4) == v[4] && Le32(b, 4 * 5) == v[5] && Le32(b, 4 * 6) == v[6];
  }

  // ---- bitmaps: eight bits to a byte, lowest bit first ----

  function PackBits(s: seq<bool>): (v: nat)
  {
    if s == [] then 0 else (if s[0] then 1 else 0) + 2 * PackBits(s[1..])
  }

  function Pow2(n: nat): (r: nat)
    ensures r >= 1
  {
    if n == 0 then 1 else 2 * Pow2(n - 1)
  }

  lemma {:induction false} PackBound(s: seq<bool>)
    ensures PackBits(s) < Pow2(|s|)
  {
    if s != [] {
      PackBound(s[1..]);
    }
  }

  /** Bit `k` of the byte at `bit / 8`, counted from the low end. */
  predicate BitOf(v: nat, k: nat) { if k == 0 then v % 2 == 1 else BitOf(v / 2, k - 1) }

  lemma {:induction false} BitOfPack(s: seq<bool>, k: nat)
    requires k < |s|
    ensures BitOf(PackBits(s), k) == s[k]
  {
    if k > 0 {
      BitOfPack(s[1..], k - 1);
      assert PackBits(s) / 2 == PackBits(s[1..]);
    }
  }

  function PackByte(s: seq<bool>): byte
    requires |s| == 8
  {
    PackBound(s);
    assert Pow2(8) == 256;
    PackBits(s)
  }

  /** Byte `j` of a bitmap, zero past its end. */
  function BitmapByte(bits: seq<bool>, j: nat): byte {
    if 8 * j + 8 <= |bits| then PackByte(bits[8 * j..8 * j + 8]) else 0
  }

  /** Block `i` of a bitmap as stored on disk. */
  function BitmapBlock(bits: seq<bool>, i: nat): (r: Block)
    ensures forall j :: 0 <= j < BS ==> r[j] == BitmapByte(bits, i * BS + j)
  {
    var r := seq(BS, j requires 0 <= j < BS => BitmapByte(bits, i * BS + j));
    assert forall j :: 0 <= j < BS ==> r[j] == BitmapByte(bits, i * BS + j);
    r
  }

  /** Bit `i` of the bitmap stored from disk block `start` on. */
  predicate DiskBit(disk: seq<Block>, start: nat, i: nat) {
    start + i / 8192 < |disk| && BitOf(disk[start + i / 8192][i % 8192 / 8], i % 8)
  }

  lemma BitIndex(i: nat)
    ensures i / 8192 * BS + i % 8192 / 8 == i / 8 && 0 <= i % 8192 / 8 < BS
    ensures 8 * (i / 8) + i % 8 == i
  {
  }

  lemma BitmapRoundTrip(bits: seq<bool>, disk: seq<Block>, start: nat, i: nat)
    requires |bits| % 8 == 0 && i < |bits| && start + i / 8192 < |disk|
    requires disk[start + i / 8192] == BitmapBlock(bits, i / 8192)
    ensures DiskBit(disk, start, i) == bits[i]
  {
    BitIndex(i);
    var j := i / 8;
    var blk := i / 8192;
    var pos := i % 8192 / 8;
    assert BitmapBlock(bits, blk)[pos] == BitmapByte(bits, blk * BS + pos);
    var s := bits[8 * j..8 * j + 8];
    assert s[i % 8] == bits[i];
    BitOfPack(s, i % 8);
  }

  // ---- write-through and mount ----

  /** `ext2_write_superblock`. */
  function SyncSuper(fs: Fs): Fs
    requires Shape(fs)
  {
    fs.(disk := fs.disk[1 := EncodeSuper(fs.sup)])
  }

  /** `ext2_write_bitmaps`. */
  function SyncBitmaps(fs: Fs): Fs
    requires Shape(fs)
  {
    var bb := BitmapBlocks(fs.sup.blocksCount);
    fs.(disk := seq(|fs.disk|, x requires 0 <= x < |fs.disk| =>
                      if 2 <= x < 2 + bb then BitmapBlock(fs.blockBits, x - 2)
                      else if x == 2 + bb then BitmapBlock(fs.inodeBits, 0)
                      else fs.disk[x]))
  }

  /** `ext2_write_inode`. */
  function SyncInode(fs: Fs, ino: nat): Fs
    requires Shape(fs) && IsInode(fs, ino)
  {
    var b := InodeBlock(fs.sup.blocksCount, ino);
    InodeInTable(fs.sup.blocksCount, fs.sup.inodesCount, ino);
    fs.(disk := fs.disk[b := Splice(fs.disk[b], InodeOffset(ino), EncodeInode(Node(fs, ino)))])
  }

  /** The 256 bytes of an inode slot on disk. */
  function RawInode(disk: seq<Block>, blocksCount: nat, ino: nat): (r: seq<byte>)
    requires ino >= 1 && InodeBlock(blocksCount, ino) < |disk|
    ensures |r| == 256
  {
    disk[InodeBlock(blocksCount, ino)][InodeOffset(ino)..InodeOffset(ino) + 256]
  }

  /** The disk carries the layout its own superblock announces, with 1024-byte blocks. */
  predicate Mountable(disk: seq<Block>) {
    && |disk| > 1
    && var s := DecodeSuper(disk[1]);
    && s.logBlockSize == 0 && Le16(s.mid, 28) == 0xEF53
    && ROOT_INODE <= s.inodesCount <= MAX_INODES && s.blocksCount <= MAX_BLOCKS
    && s.firstData == FirstData(s.blocksCount, s.inodesCount) <= s.blocksCount <= |disk|
  }

  /** The bitmap of at least `n` bits (whole bytes) stored from block `start` on. */
  function MountBits(disk: seq<Block>, start: nat, n: nat): (r: seq<bool>)
    ensures |r| == 8 * ((n + 7) / 8)
  {
    seq(8 * ((n + 7) / 8), i requires 0 <= i => DiskBit(disk, start, i))
  }

  function MountInode(disk: seq<Block>, blocksCount: nat, inodesCount: nat, ino: nat): Inode
    requires 1 <= ino <= inodesCount && FirstData(blocksCount, inodesCount) <= |disk|
  {
    InodeInTable(blocksCount, inodesCount, ino);
    DecodeInode(RawInode(disk, blocksCount, ino))
  }

  /** `ext2_mount` of a formatted disk. */
  function Mount(disk: seq<Block>): (fs: Fs)
    requires Mountable(disk)
    ensures Shape(fs)
  {
    var s := DecodeSuper(disk[1]);
    Fs(s,
       MountBits(disk, 2, s.blocksCount),
       MountBits(disk, InodeBitmapBlock(s.blocksCount), s.inodesCount),
       seq(s.inodesCount, i requires 0 <= i < s.inodesCount =>
             MountInode(disk, s.blocksCount, s.inodesCount, i + 1)),
       disk)
  }
}
