/** The host tool working on an image: bitmaps in memory, everything else read from and written to the disk. */
module Ext2Host {
  import opened Bytes
  import opened Bitmaps
  import opened Ext2State
  import opened Ext2Ownership
  import opened Ext2Bmap
  import opened Ext2Disk
  import opened Ext2File
  import opened Ext2DirBlock
  import opened Ext2Dir
  import opened Ext2Persist
  import opened Ext2Fsck
  import opened Ext2HostInstall
  import opened Ext2HostDir

  /** The bits after freeing the in-range blocks of a set. */
  function Cleared(bits: seq<bool>, s: set<nat>, limit: nat): (r: seq<bool>)
    ensures |r| == |bits|
    ensures forall b :: 0 <= b < |bits| ==> r[b] == (bits[b] && !(b in s && 0 < b < limit))
  {
    seq(|bits|, b requires 0 <= b < |bits| => bits[b] && !(b in s && 0 < b < limit))
  }

  lemma ClearedUnion(bits: seq<bool>, s: set<nat>, t: set<nat>, limit: nat)
    ensures Cleared(Cleared(bits, s, limit), t, limit) == Cleared(bits, s + t, limit)
  {
  }

  lemma ClearedNone(bits: seq<bool>, limit: nat)
    ensures Cleared(bits, {}, limit) == bits
  {
  }

  lemma FirstClearIs(bits: seq<bool>, lo: nat, hi: nat, i: nat)
    requires lo <= i <= hi <= |bits| && (i < hi ==> !bits[i]) && forall k :: lo <= k < i ==> bits[k]
    ensures FirstClear(bits, lo, hi) == i
  {
    var f := FirstClear(bits, lo, hi);
    assert f >= i;
    assert i < hi ==> f <= i;
  }

  class Image {
    const inodesCount: nat
    const blocksCount: nat
    const firstData: nat
    var disk: seq<Block>
    var blockBits: seq<bool>
    var inodeBits: seq<bool>

    ghost predicate Geometry(fs: Fs) {
      Shape(fs) && inodesCount == fs.sup.inodesCount && blocksCount == fs.sup.blocksCount
          && firstData == fs.sup.firstData
    }

    /** The image and its loaded bitmaps are those of `fs`. */
    ghost predicate Mirrors(fs: Fs)
      reads this
    {
      Geometry(fs) && disk == fs.disk && blockBits == fs.blockBits && inodeBits == fs.inodeBits
    }

    constructor (d: seq<Block>)
      requires Mountable(d)
      ensures Mirrors(Mount(d))
    {
      var s := DecodeSuper(d[1]);
      inodesCount, blocksCount, firstData := s.inodesCount, s.blocksCount, s.firstData;
      disk := d;
      blockBits := MountBits(d, 2, s.blocksCount);
      inodeBits := MountBits(d, InodeBitmapBlock(s.blocksCount), s.inodesCount);
    }

    /** `alloc_block`: 0 stands for giving up. */
    method AllocBlock(ghost fs: Fs) returns (b: nat)
      requires Geometry(fs) && blockBits == fs.blockBits
      modifies this`blockBits
      ensures b == NextBlock(fs) && blockBits == if b == 0 then old(blockBits) else old(blockBits)[b := true]
      ensures b != 0 ==> blockBits == MarkBlock(fs, b).blockBits && Geometry(MarkBlock(fs, b))
    {
      var i := firstData;
      while i < blocksCount
        invariant firstData <= i <= blocksCount && blockBits == fs.blockBits
        invariant forall k :: firstData <= k < i ==> blockBits[k]
      {
        if !blockBits[i] {
          FirstClearIs(blockBits, AllocStart(fs), blocksCount, i);
          blockBits := blockBits[i := true];
          return i;
        }
        i := i + 1;
      }
      FirstClearIs(blockBits, AllocStart(fs), blocksCount, blocksCount);
      b := 0;
    }

    /** `alloc_inode`: 0 stands for giving up. */
    method AllocInode(ghost fs: Fs) returns (ino: nat)
      requires Geometry(fs) && inodeBits == fs.inodeBits
      modifies this`inodeBits
      ensures ino == NextInode(fs) && inodeBits == if ino == 0 then old(inodeBits) else old(inodeBits)[ino - 1 := true]
    {
      var i := FIRST_FREE_INODE;
      while i < inodesCount && i < 8 * BS
        invariant FIRST_FREE_INODE <= i && (inodesCount > FIRST_FREE_INODE ==> i <= inodesCount)
                  && inodeBits == fs.inodeBits
        invariant forall k :: FIRST_FREE_INODE <= k < i && k < inodesCount ==> inodeBits[k]
      {
        if !inodeBits[i] {
          FirstClearIs(inodeBits, FIRST_FREE_INODE, inodesCount, i);
          inodeBits := inodeBits[i := true];
          return i + 1;
        }
        i := i + 1;
      }
      if inodesCount > FIRST_FREE_INODE {
        FirstClearIs(inodeBits, FIRST_FREE_INODE, inodesCount, inodesCount);
      }
      ino := 0;
    }

    /** `free_block`. */
    method FreeBlock(b: nat)
      requires blocksCount <= |blockBits|
      modifies this`blockBits
      ensures blockBits == Cleared(old(blockBits), {b}, blocksCount)
    {
      if 0 < b < blocksCount && blockBits[b] {
        blockBits := blockBits[b := false];
      }
      assert blockBits == Cleared(old(blockBits), {b}, blocksCount);
    }

    /** Free every block a table lists. */
    method FreeTable(t: Block)
      requires blocksCount <= |blockBits|
      modifies this`blockBits
      ensures blockBits == Cleared(old(blockBits), TableRefs(t), blocksCount)
    {
      hide Cleared, Le32;
      ghost var gone: set<nat> := {};
      ClearedNone(blockBits, blocksCount);
      var k := 0;
      while k < PTRS
        invariant 0 <= k <= PTRS && |blockBits| == |old(blockBits)|
        invariant gone == (set i | 0 <= i < k && Le32(t, 4 * i) != 0 :: Le32(t, 4 * i) as nat)
        invariant blockBits == Cleared(old(blockBits), gone, blocksCount)
      {
        var b := Le32(t, 4 * k) as nat;
        if b != 0 {
          FreeBlock(b);
          ClearedUnion(old(blockBits), gone, {b}, blocksCount);
          gone := gone + {b};
        }
        k := k + 1;
      }
    }

    /** `free_inode_blocks`. */
    method FreeInodeBlocks(n: Inode)
      requires blocksCount <= |blockBits|
      modifies this`blockBits
      ensures blockBits == Cleared(old(blockBits), InodeRefs(disk, n), blocksCount)
    {
      hide Cleared, TableRefs, Rd;
      ghost var was := blockBits;
      FreeDirect(n);
      ghost var gone := DirectRefs(n);
      if n.ptrs[12] != 0 {
        var t := Rd(disk, n.ptrs[12]);
        FreeTable(t);
        FreeBlock(n.ptrs[12]);
        ClearedUnion(was, gone, TableRefs(t), blocksCount);
        ClearedUnion(was, gone + TableRefs(t), {n.ptrs[12] as nat}, blocksCount);
        gone := gone + TableRefs(t) + {n.ptrs[12] as nat};
      }
      if n.ptrs[13] != 0 {
        var l1 := Rd(disk, n.ptrs[13]);
        FreeDeep(l1);
        FreeBlock(n.ptrs[13]);
        ClearedUnion(was, gone, DeepRefs(disk, l1), blocksCount);
        ClearedUnion(was, gone + DeepRefs(disk, l1), {n.ptrs[13] as nat}, blocksCount);
        gone := gone + DeepRefs(disk, l1) + {n.ptrs[13] as nat};
      }
      assert gone == InodeRefs(disk, n);
    }

    method FreeDirect(n: Inode)
      requires blocksCount <= |blockBits|
      modifies this`blockBits
      ensures blockBits == Cleared(old(blockBits), DirectRefs(n), blocksCount)
    {
      hide Cleared;
      ghost var gone: set<nat> := {};
      ClearedNone(blockBits, blocksCount);
      var i := 0;
      while i < NDIRECT
        invariant 0 <= i <= NDIRECT && |blockBits| == |old(blockBits)|
        invariant gone == (set k | 0 <= k < i && n.ptrs[k] != 0 :: n.ptrs[k] as nat)
        invariant blockBits == Cleared(old(blockBits), gone, blocksCount)
      {
        if n.ptrs[i] != 0 {
          FreeBlock(n.ptrs[i]);
          ClearedUnion(old(blockBits), gone, {n.ptrs[i] as nat}, blocksCount);
          gone := gone + {n.ptrs[i] as nat};
        }
        i := i + 1;
      }
    }

    /** The double indirect part: every L2 table with what it lists. */
    method FreeDeep(l1: Block)
      requires blocksCount <= |blockBits|
      modifies this`blockBits
      ensures blockBits == Cleared(old(blockBits), DeepRefs(disk, l1), blocksCount)
    {
      hide Cleared, Le32, Rd;
      ghost var gone: set<nat> := {};
      ClearedNone(blockBits, blocksCount);
      var g := 0;
      while g < PTRS
        invariant 0 <= g <= PTRS && |blockBits| == |old(blockBits)|
        invariant gone == DeepUpTo(disk, l1, g)
        invariant blockBits == Cleared(old(blockBits), gone, blocksCount)
      {
        var t := Le32(l1, 4 * g) as nat;
        DeepNext(disk, l1, g);
        if t != 0 {
          var l2 := Rd(disk, t);
          FreeTable(l2);
          FreeBlock(t);
          ClearedUnion(old(blockBits), gone, TableRefs(l2), blocksCount);
          ClearedUnion(old(blockBits), gone + TableRefs(l2), {t}, blocksCount);
          gone := gone + TableRefs(l2) + {t};
        }
        g := g + 1;
      }
      DeepAll(disk, l1);
    }

    /** The pointers of an inode as `read_inode` finds them on disk. */
    method ReadInode(ino: nat, ghost fs: Fs) returns (raw: seq<byte>)
      requires Mirrors(fs) && IsInode(fs, ino)
      ensures |raw| == 256 && raw == OnDisk(fs, ino)
    {
      InodeInTable(fs.sup.blocksCount, fs.sup.inodesCount, ino);
      var b, off := InodeBlock(blocksCount, ino), InodeOffset(ino);
      raw := disk[b][off..off + 256];
    }

    /** `write_inode`. */
    method WriteInode(ino: nat, raw: seq<byte>)
      requires ino >= 1 && InodeBlock(blocksCount, ino) < |disk| && |raw| == 256
      modifies this`disk
      ensures disk == PutInode(old(disk), blocksCount, ino, raw)
    {
      var b, off := InodeBlock(blocksCount, ino), InodeOffset(ino);
      disk := disk[b := Splice(disk[b], off, raw)];
    }

    /** The record walk of `dir_find` in one block. */
    method FindInBlock(b: Block, name: Name) returns (ino: u32)
      requires Tiles(b, 0)
      ensures ino == HostFindIn(b, 0, name)
    {
      hide RecName, CStr, RecIno;
      var off := 0;
      while off < BS
        invariant 0 <= off <= BS && Tiles(b, off) && HostFindIn(b, off, name) == HostFindIn(b, 0, name)
        decreases BS - off
      {
        RecInside(b, off);
        var len := RecLen(b, off);
        if RecIno(b, off) != 0 && RecName(b, off) == name {
          return RecIno(b, off);
        }
        off := off + len;
      }
      ino := 0;
    }

    /** `dir_find`. */
    method DirFind(d: nat, name: Name, ghost fs: Fs) returns (ino: u32)
      requires Mirrors(fs) && OwnInv(fs) && DirOk(fs, d) && OnDisk(fs, d) == EncodeInode(Node(fs, d)) && IsName(name)
      ensures ino == Entry(fs, d, name)
    {
      hide OwnInv, BlocksOk, NamesApart, SizeOk, Entry, HostFindIn, OnDisk, EncodeInode, DecodeInode, Tiles, Distinct,
           Own, SlotData;
      HostFindSame(fs, d, name);
      var raw := ReadInode(d, fs);
      InodeRoundTrip(Node(fs, d));
      var n := DecodeInode(raw);
      var i := 0;
      while i < NDIRECT
        invariant 0 <= i <= NDIRECT && HostFindFrom(fs, d, i, name) == HostFindFrom(fs, d, 0, name)
      {
        LiveDirect(fs, d, i);
        if n.ptrs[i] != 0 {
          BlockInDir(fs, d, i);
          var r := FindInBlock(disk[n.ptrs[i]], name);
          if r != 0 {
            return r;
          }
        }
        i := i + 1;
      }
      ino := 0;
    }

    /** The record walk of `dir_add` in one block. */
    method InsertInBlock(b: Block, ino: u32, name: Name, ftype: byte) returns (r: Option<Block>)
      requires Tiles(b, 0) && IsName(name)
      ensures r == HostInsert(b, 0, ino, name, ftype)
    {
      hide RecName, CStr, RecIno, Fill, Put16, IsName;
      var needed := Space(|name|);
      NameFits(name);
      var off := 0;
      while off < BS
        invariant 0 <= off <= BS && Tiles(b, off)
                  && HostInsert(b, off, ino, name, ftype) == HostInsert(b, 0, ino, name, ftype)
        decreases BS - off
      {
        RecInside(b, off);
        var len := RecLen(b, off);
        var used := if RecIno(b, off) != 0 then Space(NameLen(b, off)) else 0;
        if len >= used + needed {
          var c := if RecIno(b, off) != 0 then Put16(b, off + 4, used) else b;
          return Some(Fill(c, off + used, len - used, ino, name, ftype));
        }
        off := off + len;
      }
      r := None;
    }

    /** `dir_add`: false stands for giving up. The disk and the bits end up as the kernel would leave them. */
    method DirAdd(d: nat, ino: u32, name: Name, ftype: byte, ghost fs: Fs) returns (ok: bool)
      requires Mirrors(fs) && OwnInv(fs) && Live(fs, d) && BlocksOk(fs, d) && IsName(name)
      requires OnDisk(fs, d) == EncodeInode(Node(fs, d))
      requires Node(fs, d).size + BS < 0x1_0000_0000 && Node(fs, d).blocks + 2 < 0x1_0000_0000
      modifies this`disk, this`blockBits
      ensures var (gs, added) := AddFrom(fs, d, 0, ino, name, ftype);
              ok == added && (ok ==> disk == gs.disk && blockBits == gs.blockBits)
      ensures !ok ==> disk == old(disk) && blockBits == old(blockBits)
    {
      hide OwnInv, BlocksOk, HostInsert, Insert, HostExtend, OnDisk, EncodeInode, DecodeInode, Tiles, Distinct, Own,
           SlotData, AddFrom, RawInode, WriteSlot, NewDirBlock, HostAddFrom, Shape, InodeBlock, Le32, DirBlock;
      HostAddSame(fs, d, 0, ino, name, ftype);
      var raw := ReadInode(d, fs);
      InodeRoundTrip(Node(fs, d));
      var n := DecodeInode(raw);
      var k := 0;
      while k < NDIRECT
        invariant 0 <= k <= NDIRECT && Mirrors(fs)
        invariant HostAddFrom(fs, d, k, ino, name, ftype) == HostAddFrom(fs, d, 0, ino, name, ftype)
        invariant disk == old(disk) && blockBits == old(blockBits)
      {
        LiveDirect(fs, d, k);
        HostAddStep(fs, d, k, ino, name, ftype);
        if n.ptrs[k] == 0 {
          ok := Extend(d, k, ino, name, ftype, fs);
          return;
        }
        BlockInDir(fs, d, k);
        var r := InsertInBlock(disk[n.ptrs[k]], ino, name, ftype);
        if r.Some? {
          WriteInto(fs, d, k, r.value);
          disk := disk[n.ptrs[k] := r.value];
          return true;
        }
        k := k + 1;
      }
      HostAddEnd(fs, d, k, ino, name, ftype);
      ok := false;
    }

    /** The second loop of `dir_add` at the first missing block. */
    method Extend(d: nat, k: nat, ino: u32, name: Name, ftype: byte, ghost fs: Fs) returns (ok: bool)
      requires Mirrors(fs) && OwnInv(fs) && Live(fs, d) && k < NDIRECT && Node(fs, d).ptrs[k] == 0 && IsName(name)
      requires OnDisk(fs, d) == EncodeInode(Node(fs, d))
      requires Node(fs, d).size + BS < 0x1_0000_0000 && Node(fs, d).blocks + 2 < 0x1_0000_0000
      requires InodeBlock(fs.sup.blocksCount, d) < |fs.disk|
      requires var raw := RawInode(fs.disk, fs.sup.blocksCount, d);
               Le32(raw, 4) + BS < 0x1_0000_0000 && Le32(raw, 28) + 2 < 0x1_0000_0000
      modifies this`disk, this`blockBits
      ensures HostExtend(fs, d, k, ino, name, ftype) == if ok then Done(disk, blockBits) else GaveUp
      ensures !ok ==> disk == old(disk) && blockBits == old(blockBits)
    {
      hide OwnInv, EncodeInode, NewDirBlock, PatchDir, Splice;
      InodeInTable(fs.sup.blocksCount, fs.sup.inodesCount, d);
      var nb := AllocBlock(fs);
      if nb == 0 {
        return false;
      }
      var raw := disk[InodeBlock(blocksCount, d)][InodeOffset(d)..InodeOffset(d) + 256];
      disk := disk[nb := NewDirBlock(ino, name, ftype)];
      WriteInode(d, PatchDir(raw, k, nb));
      ok := true;
    }
  }

  /** The blocks below the first `g` entries of an L1 table. */
  ghost function DeepUpTo(disk: seq<Block>, l1: Block, g: nat): set<nat>
    requires g <= PTRS
  {
    (set k | 0 <= k < g && Le32(l1, 4 * k) != 0 :: Le32(l1, 4 * k) as nat)
    + (set k, b | 0 <= k < g && Le32(l1, 4 * k) != 0 && b in TableRefs(Rd(disk, Le32(l1, 4 * k))) :: b)
  }

  lemma DeepNext(disk: seq<Block>, l1: Block, g: nat)
    requires g < PTRS
    ensures var t := Le32(l1, 4 * g) as nat;
            DeepUpTo(disk, l1, g + 1) == if t == 0 then DeepUpTo(disk, l1, g)
                                         else DeepUpTo(disk, l1, g) + TableRefs(Rd(disk, t)) + {t}
  {
    hide Le32, Rd, TableRefs;
  }

  lemma DeepAll(disk: seq<Block>, l1: Block)
    ensures DeepUpTo(disk, l1, PTRS) == DeepRefs(disk, l1) && DeepUpTo(disk, l1, 0) == {}
  {
    hide Le32, Rd;
    var a := DeepUpTo(disk, l1, PTRS);
    var b := DeepRefs(disk, l1);
    forall x | x in b
      ensures x in a
    {
      if x !in TableRefs(l1) {
        var t :| t in TableRefs(l1) && x in TableRefs(Rd(disk, t));
        var k :| 0 <= k < PTRS && Le32(l1, 4 * k) != 0 && t == Le32(l1, 4 * k);
      }
    }
  }

  /** Freeing what an inode refers to clears only bits of blocks it owns. */
  lemma RefsOwned(fs: Fs, ino: nat)
    requires Shape(fs) && Live(fs, ino)
    ensures OnlyOwnCleared(fs, ino, Cleared(fs.blockBits, InodeRefs(fs.disk, Node(fs, ino)), fs.sup.blocksCount))
  {
    var n := Node(fs, ino);
    forall b | b in InodeRefs(fs.disk, n) && b != 0
      ensures OwnsBlock(fs, ino, b)
    {
      RefOwned(fs, ino, b);
    }
  }

  lemma RefOwned(fs: Fs, ino: nat, b: nat)
    requires Live(fs, ino) && b in InodeRefs(fs.disk, Node(fs, ino))
    ensures OwnsBlock(fs, ino, b)
  {
    var s := RefSlot(fs.disk, Node(fs, ino), b);
    assert Own(fs, ino, s) == b;
  }

  /** Conversely, an inode refers to all it owns. */
  lemma OwnedRef(fs: Fs, ino: nat, t: Slot)
    requires Live(fs, ino) && Own(fs, ino, t) != 0
    ensures Own(fs, ino, t) as nat in InodeRefs(fs.disk, Node(fs, ino))
  {
    SlotRef(fs.disk, Node(fs, ino), t);
  }

  /** One turn of `dir_add`. */
  lemma HostAddStep(fs: Fs, d: nat, k: nat, ino: u32, name: Name, ftype: byte)
    requires Shape(fs) && Live(fs, d) && IsName(name) && InodeBlock(fs.sup.blocksCount, d) < |fs.disk| && k < NDIRECT
    requires var raw := RawInode(fs.disk, fs.sup.blocksCount, d);
             Le32(raw, 4) + BS < 0x1_0000_0000 && Le32(raw, 28) + 2 < 0x1_0000_0000
    ensures HostAddFrom(fs, d, k, ino, name, ftype) ==
            if Own(fs, d, Direct(k)) == 0 then HostExtend(fs, d, k, ino, name, ftype)
            else match HostInsert(DirBlock(fs, d, k), 0, ino, name, ftype)
                 case Some(b) => Done(WriteSlot(fs, d, Direct(k), b).disk, fs.blockBits)
                 case None => HostAddFrom(fs, d, k + 1, ino, name, ftype)
  {
    hide HostInsert, HostExtend, Own, SlotData, WriteSlot, RawInode, Le32;
  }

  lemma HostAddEnd(fs: Fs, d: nat, k: nat, ino: u32, name: Name, ftype: byte)
    requires Shape(fs) && Live(fs, d) && IsName(name) && InodeBlock(fs.sup.blocksCount, d) < |fs.disk| && k >= NDIRECT
    requires var raw := RawInode(fs.disk, fs.sup.blocksCount, d);
             Le32(raw, 4) + BS < 0x1_0000_0000 && Le32(raw, 28) + 2 < 0x1_0000_0000
    ensures HostAddFrom(fs, d, k, ino, name, ftype) == GaveUp
  {
  }

  lemma NameFits(name: Name)
    requires IsName(name)
    ensures 0 < |name| <= MAX_NAME
  {
  }

  /** A directory block is where its pointer says. */
  lemma BlockInDir(fs: Fs, d: nat, k: nat)
    requires OwnInv(fs) && Live(fs, d) && BlocksOk(fs, d) && k < NDIRECT && Node(fs, d).ptrs[k] != 0
    ensures var b := Node(fs, d).ptrs[k]; b < |fs.disk| && DirBlock(fs, d, k) == fs.disk[b] && Tiles(fs.disk[b], 0)
  {
    hide Tiles, Distinct, Unshared, FreedClear, CountsOk;
    assert Own(fs, d, Direct(k)) == Node(fs, d).ptrs[k];
  }

  lemma WriteInto(fs: Fs, d: nat, k: nat, b: Block)
    requires Live(fs, d) && k < NDIRECT && Node(fs, d).ptrs[k] < |fs.disk|
    ensures WriteSlot(fs, d, Direct(k), b).disk == fs.disk[Node(fs, d).ptrs[k] := b]
  {
  }
}
