/** The host tool's own directory code, and its agreement with the kernel's. */
module Ext2HostDir {
  import opened Bytes
  import opened Ext2State
  import opened Ext2Ownership
  import opened Ext2Bmap
  import opened Ext2Disk
  import opened Ext2File
  import opened Ext2DirBlock
  import opened Ext2Dir
  import opened Ext2Persist
  import opened Ext2HostBytes

  /** The insertion walk of `dir_add` in one block. It reads `used` as zero for a free record and so needs
      one case where the kernel has two. */
  function HostInsert(b: Block, o: nat, ino: u32, name: Name, ftype: byte): Option<Block>
    requires IsName(name)
    decreases BS - o
  {
    if o + 8 > BS then None
    else
      var len := RecLen(b, o);
      var used := if RecIno(b, o) != 0 then Space(NameLen(b, o)) else 0;
      if len == 0 then None
      else if len >= used + Space(|name|) && o + len <= BS then
        var c := if RecIno(b, o) != 0 then Put16(b, o + 4, used) else b;
        Some(Fill(c, o + used, len - used, ino, name, ftype))
      else HostInsert(b, o + len, ino, name, ftype)
  }

  /** On a well-formed block host and kernel choose the same record and write the same bytes. */
  lemma {:induction false} HostInsertSame(b: Block, o: nat, ino: u32, name: Name, ftype: byte)
    requires o <= BS && Tiles(b, o) && IsName(name)
    ensures HostInsert(b, o, ino, name, ftype) == Insert(b, o, ino, name, ftype)
    decreases BS - o
  {
    hide Fill, Space, Put16, IsName, CStr, RecOk, RecName, RecIno, RecLen, NameLen;
    if o < BS {
      RecInside(b, o);
      HostInsertSame(b, o + RecLen(b, o), ino, name, ftype);
    }
  }

  /** The lookup of `dir_find` in one block: the name bytes are compared as they are. */
  function HostFindIn(b: Block, o: nat, n: Name): u32
    decreases BS - o
  {
    if o + 8 > BS then 0
    else
      var len := RecLen(b, o);
      if len == 0 then 0
      else if RecIno(b, o) != 0 && RecName(b, o) == n then RecIno(b, o)
      else HostFindIn(b, o + len, n)
  }

  lemma {:induction false} HostFindInSame(b: Block, o: nat, n: Name)
    requires o <= BS && Tiles(b, o) && IsName(n)
    ensures HostFindIn(b, o, n) == Find(b, o, n)
    decreases BS - o
  {
    hide CStr, RecName;
    if o < BS {
      RecInside(b, o);
      FindStep(b, o, n);
      HostFindInSame(b, o + RecLen(b, o), n);
    } else {
      FindEnd(b);
    }
  }

  /** `dir_find` over the twelve direct blocks, skipping missing ones. */
  function HostFindFrom(fs: Fs, d: nat, k: nat, n: Name): u32
    decreases NDIRECT - k
  {
    if k >= NDIRECT then 0
    else if Own(fs, d, Direct(k)) != 0 && HostFindIn(DirBlock(fs, d, k), 0, n) != 0
    then HostFindIn(DirBlock(fs, d, k), 0, n)
    else HostFindFrom(fs, d, k + 1, n)
  }

  /** On a well-formed directory the host's lookup is the kernel's. */
  lemma HostFindSame(fs: Fs, d: nat, n: Name)
    requires DirOk(fs, d) && IsName(n)
    ensures HostFindFrom(fs, d, 0, n) == Entry(fs, d, n)
  {
    HostFindFromSame(fs, d, 0, n);
  }

  lemma {:induction false} HostFindFromSame(fs: Fs, d: nat, k: nat, n: Name)
    requires BlocksOk(fs, d) && Packed(fs, d) && IsName(n)
    ensures HostFindFrom(fs, d, k, n) == EntryFrom(fs, d, k, n)
    decreases NDIRECT - k
  {
    hide Own, SlotData, Tiles, Distinct, Find, HostFindIn;
    if k < NDIRECT {
      if Own(fs, d, Direct(k)) != 0 {
        HostFindInSame(DirBlock(fs, d, k), 0, n);
      } else {
        GoneBeyond(fs, d, k, n);
      }
      HostFindFromSame(fs, d, k + 1, n);
    }
  }

  /** Past the first missing block there is nothing. */
  lemma GoneBeyond(fs: Fs, d: nat, k: nat, n: Name)
    requires Packed(fs, d) && Own(fs, d, Direct(k)) == 0
    ensures EntryFrom(fs, d, k + 1, n) == 0
  {
    hide Own;
    assert Own(fs, d, Direct(k + 1)) == 0;
  }

  // ---- extending a directory ----

  /** The raw inode after `dir_add` attached block `nb` as direct block `k`. */
  function PatchDir(raw: seq<byte>, k: nat, nb: u32): (r: seq<byte>)
    requires |raw| == 256 && k < NDIRECT && Le32(raw, 4) + BS < 0x1_0000_0000 && Le32(raw, 28) + 2 < 0x1_0000_0000
    ensures |r| == 256
  {
    var a := Put32(raw, 40 + 4 * k, nb);
    var b := Put32(a, 4, Le32(raw, 4) + BS);
    Put32(b, 28, Le32(raw, 28) + 2)
  }

  /** The patched bytes are the encoding of the kernel's new record. */
  lemma PatchDirSame(n: Inode, k: nat, nb: u32)
    requires k < NDIRECT && n.size + BS < 0x1_0000_0000 && n.blocks + 2 < 0x1_0000_0000
    ensures Le32(EncodeInode(n), 4) == n.size && Le32(EncodeInode(n), 28) == n.blocks
    ensures PatchDir(EncodeInode(n), k, nb) ==
            EncodeInode(AddPtr(n, k, nb).(size := Add32(n.size, BS)))
  {
    hide EncodeInode, DecodeInode, PatchDir;
    var raw := EncodeInode(n);
    InodeRoundTrip(n);
    RawFields(raw);
    PatchDirFields(raw, k, nb);
    EncodeDecoded(PatchDir(raw, k, nb));
  }

  lemma PatchDirFields(raw: seq<byte>, k: nat, nb: u32)
    requires |raw| == 256 && k < NDIRECT && Le32(raw, 4) + BS < 0x1_0000_0000 && Le32(raw, 28) + 2 < 0x1_0000_0000
    ensures var n := DecodeInode(raw);
            DecodeInode(PatchDir(raw, k, nb)) ==
            n.(ptrs := n.ptrs[k := nb], size := Le32(raw, 4) + BS, blocks := Le32(raw, 28) + 2)
  {
    hide DecodeInode, Le32;
    var a := Put32(raw, 40 + 4 * k, nb);
    var b := Put32(a, 4, Le32(raw, 4) + BS);
    PatchPtr(raw, k, nb);
    PatchSize(a, Le32(raw, 4) + BS);
    PatchBlocks(b, Le32(raw, 28) + 2);
  }

  lemma RawFields(raw: seq<byte>)
    requires |raw| == 256
    ensures DecodeInode(raw).size == Le32(raw, 4) && DecodeInode(raw).blocks == Le32(raw, 28)
  {
  }

  /** Writing the raw bytes of an inode slot. */
  function PutInode(disk: seq<Block>, blocksCount: nat, ino: nat, raw: seq<byte>): seq<Block>
    requires ino >= 1 && InodeBlock(blocksCount, ino) < |disk| && |raw| == 256
  {
    var b := InodeBlock(blocksCount, ino);
    disk[b := Splice(disk[b], InodeOffset(ino), raw)]
  }

  /** What `dir_add` leaves behind: the disk and the block bits, or nothing when it gives up. */
  datatype DirResult = GaveUp | Done(disk: seq<Block>, bits: seq<bool>)

  /** The second loop of `dir_add`: attach the lowest free block as direct block `k`. */
  function HostExtend(fs: Fs, d: nat, k: nat, ino: u32, name: Name, ftype: byte): DirResult
    requires Shape(fs) && IsInode(fs, d) && k < NDIRECT && IsName(name)
    requires InodeBlock(fs.sup.blocksCount, d) < |fs.disk|
    requires var raw := RawInode(fs.disk, fs.sup.blocksCount, d);
             Le32(raw, 4) + BS < 0x1_0000_0000 && Le32(raw, 28) + 2 < 0x1_0000_0000
  {
    var nb := NextBlock(fs);
    if nb == 0 then GaveUp
    else
      var raw := RawInode(fs.disk, fs.sup.blocksCount, d);
      var disk := fs.disk[nb := NewDirBlock(ino, name, ftype)];
      Done(PutInode(disk, fs.sup.blocksCount, d, PatchDir(raw, k, nb)), fs.blockBits[nb := true])
  }

  /** Host and kernel extend a directory the same way, byte for byte. */
  lemma HostExtendSame(fs: Fs, d: nat, k: nat, ino: u32, name: Name, ftype: byte)
    requires OwnInv(fs) && Shape(fs) && Live(fs, d) && k < NDIRECT && Node(fs, d).ptrs[k] == 0 && IsName(name)
    requires OnDisk(fs, d) == EncodeInode(Node(fs, d))
    requires Node(fs, d).size + BS < 0x1_0000_0000 && Node(fs, d).blocks + 2 < 0x1_0000_0000
    ensures InodeBlock(fs.sup.blocksCount, d) < |fs.disk|
    ensures var raw := RawInode(fs.disk, fs.sup.blocksCount, d);
            Le32(raw, 4) + BS < 0x1_0000_0000 && Le32(raw, 28) + 2 < 0x1_0000_0000
    ensures HostExtend(fs, d, k, ino, name, ftype) ==
            if NextBlock(fs) == 0 then GaveUp
            else var gs := AddBlock(fs, d, k, NewDirBlock(ino, name, ftype)); Done(gs.disk, gs.blockBits)
  {
    hide OwnInv, EncodeInode, NewDirBlock, PatchDir, NextBlock, Splice;
    InodeInTable(fs.sup.blocksCount, fs.sup.inodesCount, d);
    PatchDirSame(Node(fs, d), k, 0);
    var nb := NextBlock(fs);
    if nb != 0 {
      PatchDirSame(Node(fs, d), k, nb);
      ExtendDisk(fs, d, k, nb, NewDirBlock(ino, name, ftype));
    }
  }

  /** The kernel's extension, spelled out on the disk. */
  lemma ExtendDisk(fs: Fs, d: nat, k: nat, nb: u32, blk: Block)
    requires Shape(fs) && Live(fs, d) && k < NDIRECT && Node(fs, d).ptrs[k] == 0 && nb == NextBlock(fs) != 0
    requires InodeBlock(fs.sup.blocksCount, d) < fs.sup.firstData
    ensures var gs := AddBlock(fs, d, k, blk);
            var n := AddPtr(Node(fs, d), k, nb).(size := Add32(Node(fs, d).size, BS));
            && gs.disk == PutInode(fs.disk[nb := blk], fs.sup.blocksCount, d, EncodeInode(n))
            && gs.blockBits == fs.blockBits[nb := true]
  {
    hide EncodeInode, NextBlock, Splice;
    var f1 := GrowDirect(fs, d, k).0;
    var n := AddPtr(Node(fs, d), k, nb).(size := Add32(Node(fs, d).size, BS));
    var f2 := WithNode(f1, d, Node(f1, d).(size := Add32(Node(f1, d).size, BS)));
    assert Node(f2, d) == n && Live(f2, d);
    assert Own(f2, d, Direct(k)) == nb;
    var f3 := WriteSlot(f2, d, Direct(k), blk);
    assert f3.disk == fs.disk[nb := blk];
  }

  /** `dir_add`: the first block with room, else the first missing block. */
  function HostAddFrom(fs: Fs, d: nat, k: nat, ino: u32, name: Name, ftype: byte): DirResult
    requires Shape(fs) && Live(fs, d) && IsName(name) && InodeBlock(fs.sup.blocksCount, d) < |fs.disk|
    requires var raw := RawInode(fs.disk, fs.sup.blocksCount, d);
             Le32(raw, 4) + BS < 0x1_0000_0000 && Le32(raw, 28) + 2 < 0x1_0000_0000
    decreases NDIRECT - k
  {
    if k >= NDIRECT then GaveUp
    else if Own(fs, d, Direct(k)) == 0 then HostExtend(fs, d, k, ino, name, ftype)
    else
      match HostInsert(DirBlock(fs, d, k), 0, ino, name, ftype)
      case Some(b) => Done(WriteSlot(fs, d, Direct(k), b).disk, fs.blockBits)
      case None => HostAddFrom(fs, d, k + 1, ino, name, ftype)
  }

  /** Host and guest agree: the same record or the same lowest free block, byte-identical directory blocks,
      sizes and block counts, the same bitmap. */
  lemma {:induction false} HostAddSame(fs: Fs, d: nat, k: nat, ino: u32, name: Name, ftype: byte)
    requires OwnInv(fs) && Shape(fs) && Live(fs, d) && BlocksOk(fs, d) && IsName(name)
    requires OnDisk(fs, d) == EncodeInode(Node(fs, d))
    requires Node(fs, d).size + BS < 0x1_0000_0000 && Node(fs, d).blocks + 2 < 0x1_0000_0000
    ensures InodeBlock(fs.sup.blocksCount, d) < |fs.disk|
    ensures var raw := RawInode(fs.disk, fs.sup.blocksCount, d);
            Le32(raw, 4) + BS < 0x1_0000_0000 && Le32(raw, 28) + 2 < 0x1_0000_0000
    ensures var (gs, ok) := AddFrom(fs, d, k, ino, name, ftype);
            HostAddFrom(fs, d, k, ino, name, ftype) == if ok then Done(gs.disk, gs.blockBits) else GaveUp
    decreases NDIRECT - k
  {
    hide OwnInv, EncodeInode, NewDirBlock, NextBlock, AddBlock, HostExtend, Insert, HostInsert, Own, SlotData, Tiles,
         Distinct, OnDisk, RawInode;
    if k < NDIRECT {
      LiveDirect(fs, d, k);
      if Node(fs, d).ptrs[k] == 0 {
        HostExtendSame(fs, d, k, ino, name, ftype);
      } else {
        HostExtendFits(fs, d);
        HostInsertSame(DirBlock(fs, d, k), 0, ino, name, ftype);
        HostAddSame(fs, d, k + 1, ino, name, ftype);
      }
    } else {
      HostExtendFits(fs, d);
    }
  }

  lemma HostExtendFits(fs: Fs, d: nat)
    requires Shape(fs) && Live(fs, d) && OnDisk(fs, d) == EncodeInode(Node(fs, d))
    requires Node(fs, d).size + BS < 0x1_0000_0000 && Node(fs, d).blocks + 2 < 0x1_0000_0000
    ensures InodeBlock(fs.sup.blocksCount, d) < |fs.disk|
    ensures var raw := RawInode(fs.disk, fs.sup.blocksCount, d);
            Le32(raw, 4) + BS < 0x1_0000_0000 && Le32(raw, 28) + 2 < 0x1_0000_0000
  {
    hide EncodeInode, PatchDir;
    InodeInTable(fs.sup.blocksCount, fs.sup.inodesCount, d);
    PatchDirSame(Node(fs, d), 0, 0);
  }
}
