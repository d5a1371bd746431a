/** The kernel's filesystem object: the imperative code of ext2_fs.c, each method
    proved to take the state exactly where its specification function says. */
module Ext2Kernel {
  import opened Numbers
  import opened Bytes
  import opened Ext2State
  import opened Ext2Ownership
  import opened Ext2Bmap
  import opened Ext2Disk
  import opened Ext2File
  import opened Ext2DirBlock
  import opened Ext2Dir
  import opened Ext2Tree
  import opened Ext2Names
  import opened Ext2Runs

  /** The table buffers `ext2_read` keeps between chunks. */
  datatype TableCache = TableCache(single: Option<Block>, level1: Option<Block>, level2At: u32, level2: Block)

  class Filesystem {
    var sup: Super
    var blockBits: seq<bool>
    var inodeBits: seq<bool>
    var inodes: seq<Inode>
    var disk: seq<Block>

    /** The object as a value. */
    function State(): Fs
      reads this
    {
      Fs(sup, blockBits, inodeBits, inodes, disk)
    }

    /** `ext2_mount` of a disk that carries the magic. */
    constructor (image: seq<Block>)
      requires Mountable(image)
      ensures State() == Mount(image)
    {
      hide DecodeSuper, DecodeInode, DiskBit, RawInode;
      var s := DecodeSuper(image[1]);
      sup := s;
      disk := image;
      var nbits := 8 * ((s.blocksCount + 7) / 8);
      var bits: seq<bool> := [];
      for i := 0 to nbits
        invariant bits == MountBits(image, 2, s.blocksCount)[..i]
      {
        bits := bits + [DiskBit(image, 2, i)];
      }
      blockBits := bits;
      var ibits: seq<bool> := [];
      for i := 0 to 8 * ((s.inodesCount + 7) / 8)
        invariant ibits == MountBits(image, InodeBitmapBlock(s.blocksCount), s.inodesCount)[..i]
      {
        ibits := ibits + [DiskBit(image, InodeBitmapBlock(s.blocksCount), i)];
      }
      inodeBits := ibits;
      var table: seq<Inode> := [];
      for i := 0 to s.inodesCount
        invariant table == Mount(image).inodes[..i]
      {
        InodeInTable(s.blocksCount, s.inodesCount, i + 1);
        table := table + [DecodeInode(RawInode(image, s.blocksCount, i + 1))];
      }
      inodes := table;
    }

    // ---- bitmaps ----

    method AllocBlock() returns (nb: nat)
      requires Shape(State())
      modifies this
      ensures (State(), nb) == Ext2State.AllocBlock(old(State()))
    {
      var start := if sup.firstData < 1 then 1 else sup.firstData;
      for i := start to sup.blocksCount
        invariant forall k :: start <= k < i ==> blockBits[k]
        invariant State() == old(State())
      {
        if !blockBits[i] {
          blockBits := blockBits[i := true];
          sup := sup.(freeBlocks := Dec32(sup.freeBlocks));
          LowestIsNext(old(State()), i);
          return i;
        }
      }
      FullIsZero(State());
      return 0;
    }

    method FreeBlock(b: nat)
      requires Shape(State())
      modifies this
      ensures State() == Ext2State.FreeBlock(old(State()), b)
    {
      if b < sup.blocksCount {
        blockBits := blockBits[b := false];
        sup := sup.(freeBlocks := Inc32(sup.freeBlocks));
      }
    }

    method AllocInode() returns (ino: nat)
      requires Shape(State())
      modifies this
      ensures ino == NextInode(old(State()))
      ensures State() == if ino == 0 then old(State()) else MarkInode(old(State()), ino)
    {
      var i := FIRST_FREE_INODE;
      while i < sup.inodesCount
        invariant FIRST_FREE_INODE <= i && (i <= sup.inodesCount || i == FIRST_FREE_INODE)
        invariant forall k :: FIRST_FREE_INODE <= k < i ==> inodeBits[k]
        invariant State() == old(State())
      {
        if !inodeBits[i] {
          inodeBits := inodeBits[i := true];
          sup := sup.(freeInodes := Dec32(sup.freeInodes));
          return i + 1;
        }
        i := i + 1;
      }
      return 0;
    }

    method FreeInode(ino: nat)
      requires Shape(State())
      modifies this
      ensures State() == Ext2State.FreeInode(old(State()), ino)
    {
      if ino > 0 && ino <= sup.inodesCount {
        inodeBits := inodeBits[ino - 1 := false];
        sup := sup.(freeInodes := Inc32(sup.freeInodes));
      }
    }

    // ---- write-through ----

    method WriteInode(ino: nat)
      requires Shape(State()) && IsInode(State(), ino)
      modifies this`disk
      ensures State() == SyncInode(old(State()), ino)
    {
      hide EncodeInode, InodeBlock, InodeOffset, Splice, InodeTableStart;
      InodeInTable(sup.blocksCount, sup.inodesCount, ino);
      InodePlace(sup.blocksCount, ino);
      var b := InodeTableStart(sup.blocksCount) + (ino - 1) * 256 / BS;
      var block: Block := disk[b];
      block := Splice(block, (ino - 1) * 256 % BS, EncodeInode(inodes[ino - 1]));
      disk := disk[b := block];
    }

    method WriteSuperblock()
      requires Shape(State())
      modifies this`disk
      ensures State() == SyncSuper(old(State()))
    {
      disk := disk[1 := EncodeSuper(sup)];
    }

    method WriteBitmaps()
      requires Shape(State())
      modifies this`disk
      ensures State() == SyncBitmaps(old(State()))
    {
      hide BitmapBlock;
      var bb := BitmapBlocks(sup.blocksCount);
      var before := disk;
      for i := 0 to bb
        invariant |disk| == |before|
        invariant forall x :: 0 <= x < |disk| ==>
                    disk[x] == if 2 <= x < 2 + i then BitmapBlock(blockBits, x - 2) else before[x]
      {
        disk := disk[2 + i := BitmapBlock(blockBits, i)];
      }
      disk := disk[2 + bb := BitmapBlock(inodeBits, 0)];
    }

    // ---- block mapping ----

    /** `ext2_ptr_get`. */
    method PtrGet(t: nat, k: nat) returns (v: u32)
      requires 0 < t < |disk| && k < PTRS
      ensures v == TableAt(disk, t, k)
    {
      var table := disk[t];
      v := Le32(table, 4 * k);
    }

    /** `ext2_ptr_set`. */
    method PtrSet(t: nat, k: nat, v: u32)
      requires t < |disk| && k < PTRS
      modifies this`disk
      ensures disk == SetEntry(old(disk), t, k, v)
    {
      var table: Block := disk[t];
      table := Put32(table, 4 * k, v);
      disk := disk[t := table];
    }

    method EnsureDirect(ino: nat, k: nat) returns (b: nat)
      requires Shape(State()) && IsInode(State(), ino) && k < NDIRECT
      modifies this
      ensures (State(), b) == GrowDirect(old(State()), ino, k)
    {
      hide NextBlock;
      if inodes[ino - 1].ptrs[k] == 0 {
        var nb := AllocBlock();
        if nb == 0 {
          return 0;
        }
        InRange(old(State()));
        inodes := inodes[ino - 1 := AddPtr(inodes[ino - 1], k, nb)];
      }
      return inodes[ino - 1].ptrs[k];
    }

    /** The single (12) or double (13) indirect table of an inode, allocated and zeroed if missing. */
    method EnsureTable(ino: nat, k: nat) returns (t: nat)
      requires Shape(State()) && IsInode(State(), ino) && (k == 12 || k == 13)
      modifies this
      ensures (State(), t) == GrowTable(old(State()), ino, k)
    {
      hide NextBlock;
      if inodes[ino - 1].ptrs[k] == 0 {
        var nb := AllocBlock();
        if nb == 0 {
          return 0;
        }
        InRange(old(State()));
        disk := disk[nb := Zeros(BS)];
        inodes := inodes[ino - 1 := AddPtr(inodes[ino - 1], k, nb)];
      }
      return inodes[ino - 1].ptrs[k];
    }

    /** Entry `k` of table `t`, allocated if missing and zeroed if it is a table itself. */
    method EnsureEntry(ino: nat, t: nat, k: nat, zero: bool) returns (b: nat)
      requires Shape(State()) && IsInode(State(), ino) && 0 < t < |disk| && k < PTRS
      modifies this
      ensures (State(), b) == GrowEntry(old(State()), ino, t, k, zero)
    {
      hide NextBlock;
      b := PtrGet(t, k);
      if b == 0 {
        b := AllocBlock();
        if b == 0 {
          return 0;
        }
        InRange(old(State()));
        if zero {
          disk := disk[b := Zeros(BS)];
        }
        PtrSet(t, k, b);
        inodes := inodes[ino - 1 := AddSectors(inodes[ino - 1])];
      }
    }

    /** `ext2_bmap_alloc`. */
    method BmapAlloc(ino: nat, bi: nat) returns (b: nat)
      requires OwnInv(State()) && Live(State(), ino)
      modifies this
      ensures (State(), b) == Ext2Bmap.BmapAlloc(old(State()), ino, bi)
    {
      hide OwnInv, GrowDirect, GrowTable, GrowEntry, Filled;
      OwnInvShape(State());
      DataSlotOk(bi);
      if bi < NDIRECT {
        b := EnsureDirect(ino, bi);
      } else if bi < NDIRECT + PTRS {
        TableOwned(State(), ino, 12);
        var t := EnsureTable(ino, 12);
        if t == 0 {
          return 0;
        }
        b := EnsureEntry(ino, t, bi - NDIRECT, false);
      } else if bi < MAX_FILE_BLOCKS {
        var di := bi - NDIRECT - PTRS;
        TableOwned(State(), ino, 13);
        var t := EnsureTable(ino, 13);
        if t == 0 {
          return 0;
        }
        Level2Owned(old(State()), ino, di / PTRS);
        var l2 := EnsureEntry(ino, t, di / PTRS, true);
        if l2 == 0 {
          return 0;
        }
        b := EnsureEntry(ino, l2, di % PTRS, false);
      } else {
        return 0;
      }
    }

    // ---- file contents ----

    /** The loop of `ext2_write`. */
    method WriteData(ino: nat, off: nat, data: seq<byte>) returns (n: nat)
      requires OwnInv(State()) && Live(State(), ino)
      modifies this
      ensures (State(), n) == WriteLoop(old(State()), ino, off, data)
    {
      hide OwnInv, Ext2Bmap.BmapAlloc, WriteTurn, WriteLoop, Shape;
      OwnInvShape(State());
      var buffer: Block := *;
      n := 0;
      while n < |data|
        invariant n <= |data|
        invariant OwnInv(State()) && Shape(State()) && Live(State(), ino)
        invariant WriteLoop(old(State()), ino, off, data) ==
                  var r := WriteLoop(State(), ino, off + n, data[n..]); (r.0, n + r.1)
      {
        ghost var rest := data[n..];
        LoopUnfold(State(), ino, off + n, rest);
        TurnByHand(State(), ino, off + n, rest);
        var bo := (off + n) % BS;
        var b := BmapAlloc(ino, (off + n) / BS);
        if b == 0 {
          return;
        }
        if bo != 0 || |data| - n < BS {
          buffer := disk[b];
        }
        var chunk := |data| - n;
        if chunk > BS - bo {
          chunk := BS - bo;
        }
        assert rest[..chunk] == data[n..n + chunk];
        assert rest[chunk..] == data[n + chunk..];
        SpliceWhole(buffer, disk[b], bo, rest[..chunk]);
        buffer := Splice(buffer, bo, data[n..n + chunk]);
        disk := disk[b := buffer];
        n := n + chunk;
      }
      LoopUnfold(State(), ino, off + n, data[n..]);
    }

    /** `ext2_write`. */
    method Write(ino: nat, off: nat, data: seq<byte>) returns (n: int)
      requires OwnInv(State()) && Live(State(), ino)
      modifies this
      ensures (State(), n) == Ext2File.Write(old(State()), ino, off, data)
    {
      hide OwnInv, WriteLoop, SyncInode, SyncSuper, SyncBitmaps, Shape;
      OwnInvShape(State());
      if ino >= sup.inodesCount || IsDirMode(inodes[ino - 1].mode) {
        return -1;
      }
      var done := WriteData(ino, off, data);
      SizeShape(State(), ino, off + done);
      if off + done > inodes[ino - 1].size {
        inodes := inodes[ino - 1 := inodes[ino - 1].(size := Add32(0, off + done))];
      }
      SyncShapes(State(), ino);
      WriteInode(ino);
      WriteSuperblock();
      WriteBitmaps();
      return done;
    }

    /** Block mapping in `ext2_read`, through the cached tables. */
    method ReadMap(ino: nat, bi: nat, cache: TableCache) returns (b: u32, after: TableCache)
      requires OwnInv(State()) && Live(State(), ino) && CacheOk(State(), ino, cache)
      requires NDIRECT <= bi < NDIRECT + PTRS && inodes[ino - 1].ptrs[12] == 0 ==> inodes[ino - 1].ptrs[13] == 0
      ensures b == DataRef(State(), ino, bi) && CacheOk(State(), ino, after)
    {
      hide Unshared, FreedClear, CountsOk;
      after := cache;
      var n := inodes[ino - 1];
      assert Own(State(), ino, Single) == n.ptrs[12] && Own(State(), ino, Double) == n.ptrs[13];
      if bi < NDIRECT {
        return n.ptrs[bi], after;
      } else if bi < NDIRECT + PTRS && n.ptrs[12] != 0 {
        if after.single.None? {
          after := after.(single := Some(disk[n.ptrs[12]]));
        }
        return Le32(after.single.value, 4 * (bi - NDIRECT)), after;
      } else if bi < MAX_FILE_BLOCKS && n.ptrs[13] != 0 {
        var di := bi - NDIRECT - PTRS;
        if after.level1.None? {
          after := after.(level1 := Some(disk[n.ptrs[13]]));
        }
        var l2 := Le32(after.level1.value, 4 * (di / PTRS));
        assert l2 == Own(State(), ino, Level2(di / PTRS));
        if l2 == 0 {
          return 0, after;
        }
        if after.level2At != l2 {
          after := after.(level2 := disk[l2], level2At := l2);
        }
        return Le32(after.level2, 4 * (di % PTRS)), after;
      }
      return 0, after;
    }

    /** `ext2_read`: the caller's buffer and the byte count, or -1. */
    method Read(ino: nat, off: nat, size: nat) returns (buffer: seq<byte>, n: int)
      requires OwnInv(State()) && Live(State(), ino) && ReadSafe(Node(State(), ino))
      ensures ino >= sup.inodesCount ==> n == -1
      ensures ino < sup.inodesCount ==> ReadOk(State(), ino, off, size, buffer, n)
    {
      hide Marked, Unshared, FreedClear, CountsOk, Own, SlotData;
      if ino >= sup.inodesCount {
        return [], -1;
      }
      var node := inodes[ino - 1];
      if off >= node.size {
        return [], 0;
      }
      var len := if off + size > node.size then node.size - off else size;
      var cache := TableCache(None, None, 0, Zeros(BS));
      buffer := [];
      while |buffer| < len
        invariant |buffer| <= len && CacheOk(State(), ino, cache)
        invariant BytesRead(State(), ino, off, buffer)
      {
        var o := off + |buffer|;
        MidTable(node, o);
        var b;
        b, cache := ReadMap(ino, o / BS, cache);
        if b == 0 {
          n := |buffer|;
          buffer := buffer + Zeros(len - |buffer|);
          assert BytesRead(State(), ino, off, buffer[..n]);
          return;
        }
        var block := ReadBlock(ino, o / BS, b);
        var chunk := len - |buffer|;
        if chunk > BS - o % BS {
          chunk := BS - o % BS;
        }
        MoreRead(State(), ino, off, buffer, block[o % BS..o % BS + chunk]);
        buffer := buffer + block[o % BS..o % BS + chunk];
      }
      n := |buffer|;
      assert buffer[..n] == buffer;
    }

    method ReadBlock(ino: nat, bi: nat, b: u32) returns (block: Block)
      requires OwnInv(State()) && b == DataRef(State(), ino, bi) != 0
      ensures block == SlotData(State(), ino, DataSlot(bi))
    {
      hide Unshared, FreedClear, CountsOk;
      block := disk[b];
    }

    // ---- directories ----

    /** The records of one directory block, searched up to `lim`. */
    method SearchBlock(block: Block, lim: nat, name: Name) returns (r: u32)
      requires Tiles(block, 0) && lim <= BS
      ensures r == FindUpTo(block, 0, lim, name)
    {
      hide CStr, RecName, RecLen, RecIno, NameLen;
      var o: nat := 0;
      while o < lim
        invariant o <= BS && Tiles(block, o)
        invariant FindUpTo(block, 0, lim, name) == FindUpTo(block, o, lim, name)
        decreases BS - o
      {
        if RecIno(block, o) != 0 && NameLen(block, o) > 0 && CStr(RecName(block, o)) == name {
          return RecIno(block, o);
        }
        o := o + RecLen(block, o);
      }
      return 0;
    }

    /** `find_entry_in_dir`. */
    method FindEntryInDir(d: nat, name: Name) returns (r: u32)
      requires OwnInv(State()) && Live(State(), d) && (LiveDir(State(), d) ==> BlocksOk(State(), d))
      ensures r == FindEntry(State(), d, name)
    {
      hide Unshared, FreedClear, CountsOk, FindUpTo, Tiles, Distinct;
      if d >= sup.inodesCount || !IsDirMode(inodes[d - 1].mode) {
        return 0;
      }
      var dir := inodes[d - 1];
      var i := 0;
      while i < NDIRECT && dir.ptrs[i] != 0
        invariant i <= NDIRECT
        invariant LookupFrom(State(), d, 0, name) == LookupFrom(State(), d, i, name)
      {
        DirectOnDisk(State(), d, i);
        var block := disk[dir.ptrs[i]];
        r := SearchBlock(block, Min(dir.size, BS), name);
        if r != 0 {
          return;
        }
        i := i + 1;
      }
      return 0;
    }

    /** `ext2_lookup_inode` on a split path. */
    method LookupInode(path: seq<Name>) returns (r: nat)
      requires FsInv(State())
      ensures r == Resolve(State(), path)
    {
      hide OwnInv, TreeInv, FindEntry, Chain;
      RootChain(State());
      r := ROOT_INODE;
      ghost var ch: seq<nat> := [ROOT_INODE];
      var i := 0;
      while i < |path|
        invariant i <= |path| && Live(State(), r) && (LiveDir(State(), r) ==> Chain(State(), ch, r))
        invariant Resolve(State(), path) == LookupPath(State(), r, path[i..])
      {
        DirBlocks(State(), r);
        assert path[i..][0] == path[i] && path[i..][1..] == path[i + 1..];
        var next := FindEntryInDir(r, path[i]);
        if next == 0 {
          return 0;
        }
        FoundEntry(State(), r, path[i]);
        ch := ChainStep(State(), ch, r, path[i]);
        r := next;
        i := i + 1;
      }
    }

    /** The insertion walk over one block; `None` when nothing fits. */
    method InsertIntoBlock(b: Block, ino: u32, name: Name, ftype: byte) returns (r: Option<Block>)
      requires Tiles(b, 0) && IsName(name)
      ensures r == Insert(b, 0, ino, name, ftype)
    {
      hide CStr, RecName, RecLen, RecIno, NameLen, Fill, Insert, Put16, Put32, Splice, Space, RecOk, IsName, Tiles;
      var needed := Space(|name|);
      var block: Block := b;
      var o: nat := 0;
      while o < BS
        invariant o <= BS && Tiles(b, o) && block == b
        invariant Insert(b, 0, ino, name, ftype) == Insert(b, o, ino, name, ftype)
        decreases BS - o
      {
        InsertTurn(b, o, ino, name, ftype);
        var used := Space(NameLen(block, o));
        var len := RecLen(block, o);
        if RecIno(block, o) == 0 {
          if len >= needed {
            ReuseIsFill(b, o, ino, name, ftype);
            block := Put32(block, o, ino);
            block := block[o + 6 := |name|][o + 7 := ftype];
            block := Splice(block, o + 8, name);
            return Some(block);
          }
        } else if len >= used + needed {
          block := Put16(block, o + 4, used);
          FieldsAreFill(block, o + used, len - used, ino, name, ftype);
          o := o + used;
          block := Put32(block, o, ino);
          block := Put16(block, o + 4, len - used);
          block := block[o + 6 := |name|][o + 7 := ftype];
          block := Splice(block, o + 8, name);
          return Some(block);
        }
        o := o + len;
      }
      InsertEnd(b, ino, name, ftype);
      return None;
    }

    /** `add_entry_to_dir`. */
    method AddEntryToDir(d: nat, ino: u32, name: Name, ftype: byte) returns (ok: bool)
      requires OwnInv(State()) && Live(State(), d) && (LiveDir(State(), d) ==> BlocksOk(State(), d)) && IsName(name)
      modifies this
      ensures (State(), ok) == AddEntry(old(State()), d, ino, name, ftype)
    {
      hide OwnInv, GrowDirect, SyncInode, NewDirBlock, Insert, Tiles, Distinct, NextBlock, Fill, WriteSlot;
      OwnInvShape(State());
      if d == 0 || d >= sup.inodesCount || !IsDirMode(inodes[d - 1].mode) {
        return false;
      }
      var i := 0;
      while i < NDIRECT
        invariant i <= NDIRECT && State() == old(State())
        invariant AddFrom(State(), d, 0, ino, name, ftype) == AddFrom(State(), d, i, ino, name, ftype)
      {
        if inodes[d - 1].ptrs[i] == 0 {
          ok := ExtendDir(d, i, ino, name, ftype);
          return;
        }
        DirectOnDisk(State(), d, i);
        var b := inodes[d - 1].ptrs[i];
        var r := InsertIntoBlock(disk[b], ino, name, ftype);
        if r.Some? {
          SlotByHand(State(), d, i, r.value);
          disk := disk[b := r.value];
          return true;
        }
        i := i + 1;
      }
      return false;
    }

    /** The branch of `add_entry_to_dir` that gives the directory a new block. */
    method ExtendDir(d: nat, k: nat, ino: u32, name: Name, ftype: byte) returns (ok: bool)
      requires OwnInv(State()) && Live(State(), d) && k < NDIRECT && inodes[d - 1].ptrs[k] == 0 && IsName(name)
      modifies this
      ensures Shape(old(State())) && ok == (NextBlock(old(State())) != 0)
      ensures State() == if ok then AddBlock(old(State()), d, k, NewDirBlock(ino, name, ftype)) else old(State())
    {
      hide SyncInode, Marked, Unshared, FreedClear, CountsOk, NextBlock, Fill, AddBlock;
      var nb := AllocBlock();
      if nb == 0 {
        return false;
      }
      InRange(old(State()));
      var n := inodes[d - 1];
      inodes := inodes[d - 1 := n.(ptrs := n.ptrs[k := nb], size := Add32(n.size, BS), blocks := Add32(n.blocks, 2))];
      var block: Block := Zeros(BS);
      block := Fill(block, 0, BS, ino, name, ftype);
      disk := disk[nb := block];
      AddBlockByHand(old(State()), d, k, block);
      WriteInode(d);
      return true;
    }

    /** The removal walk over one block, remembering the previous record. */
    method RemoveFromBlock(b: Block, name: Name) returns (r: Removal)
      requires Tiles(b, 0)
      ensures r == Remove(b, name)
    {
      hide CStr, RecName, RecLen, RecIno, NameLen;
      var o: nat := 0;
      var prev: Option<nat> := None;
      while o < BS
        invariant o <= BS && Tiles(b, o)
        invariant prev.None? ==> o == 0
        invariant prev.Some? ==> prev.value < BS && Tiles(b, prev.value) && o == prev.value + RecLen(b, prev.value)
                                 && Remove(b, name) == RemoveAfter(b, prev.value, name)
        decreases BS - o
      {
        if RecIno(b, o) != 0 && RecName(b, o) == name {
          if prev.Some? {
            return Gone(Put16(b, prev.value + 4, RecLen(b, prev.value) + RecLen(b, o)), RecIno(b, o));
          }
          return Gone(Put32(b, 0, 0), RecIno(b, 0));
        }
        prev := Some(o);
        o := o + RecLen(b, o);
      }
      return Absent;
    }

    /** The first loop of `ext2_unlink`: find the entry in the parent and take it out. */
    method RemoveEntry(p: nat, name: Name) returns (t: u32)
      requires OwnInv(State()) && Live(State(), p) && BlocksOk(State(), p)
      modifies this`disk
      ensures (State(), t) == RemoveFrom(old(State()), p, 0, name)
    {
      hide OwnInv, Remove, Tiles, Distinct, WriteSlot;
      OwnInvShape(State());
      var i := 0;
      while i < NDIRECT
        invariant i <= NDIRECT && State() == old(State())
        invariant RemoveFrom(State(), p, 0, name) == RemoveFrom(State(), p, i, name)
      {
        var b := inodes[p - 1].ptrs[i];
        if b != 0 {
          DirectOnDisk(State(), p, i);
          var r := RemoveFromBlock(disk[b], name);
          if r.Gone? {
            SlotByHand(State(), p, i, r.block);
            disk := disk[b := r.block];
            return r.ino;
          }
        }
        i := i + 1;
      }
      return 0;
    }

    /** The emptiness test of `ext2_unlink`. */
    method CountRecords(block: Block) returns (n: nat)
      requires Tiles(block, 0)
      ensures n == CountUsed(block, 0)
    {
      hide CStr, RecName, RecLen, RecIno, NameLen;
      n := 0;
      var o: nat := 0;
      while o < BS
        invariant o <= BS && Tiles(block, o) && CountUsed(block, 0) == n + CountUsed(block, o)
        decreases BS - o
      {
        if RecIno(block, o) != 0 {
          n := n + 1;
        }
        o := o + RecLen(block, o);
      }
    }

    /** The release of an inode at the end of `ext2_unlink`. */
    method Release(t: nat)
      requires OwnInv(State()) && Live(State(), t)
      modifies this
      ensures Shape(old(State())) && State() == Bury(old(State()), t)
    {
      hide OwnInv, SyncInode, SyncSuper, SyncBitmaps, Ext2State.FreeInode, Ext2State.FreeBlock, Shape;
      OwnInvShape(State());
      for i := 0 to NDIRECT
        invariant Shape(State()) && IsInode(State(), t)
        invariant FreeDirects(old(State()), t, 0) == FreeDirects(State(), t, i)
      {
        var b := inodes[t - 1].ptrs[i];
        FreeShapes(State(), b);
        FreeKeepsNodes(State(), b);
        if b != 0 {
          LinkShape(Ext2State.FreeBlock(State(), b), t, inodes[t - 1].(ptrs := inodes[t - 1].ptrs[i := 0]));
          FreeBlock(b);
          inodes := inodes[t - 1 := inodes[t - 1].(ptrs := inodes[t - 1].ptrs[i := 0])];
        }
      }
      LinkShape(State(), t, inodes[t - 1].(links := 0, size := 0, blocks := 0));
      inodes := inodes[t - 1 := inodes[t - 1].(links := 0, size := 0, blocks := 0)];
      SyncShapes(State(), t);
      WriteInode(t);
      KillShapes(State(), t);
      FreeInode(t);
      WriteSuperblock();
      WriteBitmaps();
    }

    // ---- public operations on a resolved parent ----

    /** `ext2_unlink` once the parent directory is resolved. */
    method UnlinkName(p: nat, name: Name) returns (r: int)
      requires FsInv(State()) && LiveDir(State(), p) && !IsDot(name)
      modifies this
      ensures (State(), r) == UnlinkIn(old(State()), p, name)
    {
      hide OwnInv, TreeInv, RemoveFrom, Entry, Bury, Rebound, Untouched, Unreferenced, Tiles, BlocksOk;
      UnlinkFacts(State(), p, name);
      DirBlocks(State(), p);
      var t := RemoveEntry(p, name);
      if t == 0 {
        return -1;
      }
      if IsDirMode(inodes[t - 1].mode) && inodes[t - 1].ptrs[0] != 0 {
        DirectOnDisk(State(), t, 0);
        var entries := CountRecords(disk[inodes[t - 1].ptrs[0]]);
        if entries > 2 {
          return -2;
        }
      }
      Release(t);
      return 0;
    }

    /** `ext2_create` once the parent is resolved. */
    method Create(p: nat, name: Name, mode: u16) returns (ino: nat)
      requires ParentOk(State(), p) && IsName(name)
      modifies this
      ensures (State(), ino) == CreateIn(old(State()), p, name, mode)
    {
      hide OwnInv, DirOk, FindEntry, AddEntry, SyncInode, SyncSuper, SyncBitmaps, Shape, Ext2State.FreeInode, Entry,
           NextInode;
      ParentFacts(State(), p);
      var there := FindEntryInDir(p, name);
      if there != 0 {
        return 0;
      }
      ino := AllocInode();
      if ino == 0 {
        return;
      }
      NextInodeFree(old(State()));
      var n := inodes[ino - 1];
      inodes := inodes[ino - 1 := n.(mode := RegMode(mode), uid := 0, gid := 0, size := 0, links := 1, blocks := 0,
                                     ptrs := n.ptrs[0 := 0])];
      BornFileOk(old(State()), mode);
      ParentStays(old(State()), State(), p);
      ParentFacts(State(), p);
      var ok := AddEntryToDir(p, ino, name, 1);
      if !ok {
        FreeInode(ino);
        return 0;
      }
      SyncShapes(State(), ino);
      WriteInode(ino);
      WriteSuperblock();
      WriteBitmaps();
    }

    /** The record and the first block of a directory whose inode and block were just taken in `before`. */
    method FillDirectory(p: u32, mode: u16, nb: nat, ino: nat, ghost before: Fs)
      requires OwnInv(before) && nb == NextBlock(before) != 0 && ino == NextInode(before) != 0
      requires nb < |before.blockBits| && 1 <= ino <= |before.inodeBits|
      requires State() == MarkBlock(MarkInode(before, ino), nb)
      modifies this
      ensures State() == BornDir(before, p, mode)
    {
      hide Marked, Unshared, FreedClear, CountsOk, NextInode, NextBlock, BornDir, Fill;
      NextInodeFree(before);
      InRange(before);
      BornDirState(before, p, mode);
      var n := inodes[ino - 1];
      assert n.ptrs[0 := 0][0 := nb] == n.ptrs[0 := nb];
      inodes := inodes[ino - 1 := n.(mode := DirMode(mode), uid := 0, gid := 0, size := BS, links := 2, blocks := 2,
                                     ptrs := n.ptrs[0 := nb])];
      var block: Block := Fill(Zeros(BS), 0, 12, ino, DOT, 2);
      block := Fill(block, 12, BS - 12, p, DOTDOT, 2);
      disk := disk[nb := block];
    }

    /** `ext2_mkdir` once the parent is resolved. */
    method MakeDir(p: nat, name: Name, mode: u16) returns (ino: nat)
      requires ParentOk(State(), p) && IsName(name)
      modifies this
      ensures (State(), ino) == MkdirIn(old(State()), p, name, mode)
    {
      hide OwnInv, DirOk, FindEntry, AddEntry, SyncInode, SyncSuper, SyncBitmaps, Ext2State.FreeInode,
           Ext2State.FreeBlock, Entry, NextInode, NextBlock, BornDir, Shape;
      ParentFacts(State(), p);
      var there := FindEntryInDir(p, name);
      if there != 0 {
        return 0;
      }
      ino := AllocInode();
      if ino == 0 {
        return;
      }
      NextInodeFree(old(State()));
      MarkShape(old(State()), ino);
      var nb := AllocBlock();
      if nb == 0 {
        FreeInode(ino);
        return 0;
      }
      FillDirectory(p, mode, nb, ino, old(State()));
      BornDirOk(old(State()), p, mode);
      ParentStays(old(State()), State(), p);
      ParentFacts(State(), p);
      var ok := AddEntryToDir(p, ino, name, 2);
      if !ok {
        FreeShapes(State(), nb);
        FreeBlock(nb);
        FreeInode(ino);
        return 0;
      }
      var parent := inodes[p - 1];
      LinkShape(State(), p, parent.(links := (parent.links + 1) % 0x1_0000));
      inodes := inodes[p - 1 := parent.(links := (parent.links + 1) % 0x1_0000)];
      SyncShapes(State(), ino);
      WriteInode(ino);
      SyncShapes(State(), p);
      WriteInode(p);
      WriteSuperblock();
      WriteBitmaps();
    }

    /** `ext2_truncate` once the path is resolved. */
    method TruncateInode(ino: nat) returns (r: int)
      requires Shape(State())
      modifies this
      ensures (State(), r) == Truncate(old(State()), ino)
    {
      hide SyncInode;
      if ino == 0 || ino >= sup.inodesCount {
        return -1;
      }
      inodes := inodes[ino - 1 := inodes[ino - 1].(size := 0)];
      WriteInode(ino);
      return 0;
    }
  }

  /** The first clear bit at or above the data area is the one the specification names. */
  lemma LowestIsNext(fs: Fs, i: nat)
    requires Shape(fs) && AllocStart(fs) <= i < fs.sup.blocksCount && !fs.blockBits[i]
    requires forall k :: AllocStart(fs) <= k < i ==> fs.blockBits[k]
    ensures NextBlock(fs) == i
  {
  }

  lemma FullIsZero(fs: Fs)
    requires Shape(fs) && forall k :: AllocStart(fs) <= k < fs.sup.blocksCount ==> fs.blockBits[k]
    ensures NextBlock(fs) == 0
  {
  }

  lemma InRange(fs: Fs)
    requires Shape(fs)
    ensures NextBlock(fs) < fs.sup.blocksCount || NextBlock(fs) == 0
  {
  }

  /** A table that was found or made is a block of the disk. */
  lemma TableOwned(fs: Fs, ino: nat, k: nat)
    requires OwnInv(fs) && Live(fs, ino) && (k == 12 || k == 13)
    ensures Shape(fs) && GrowTable(fs, ino, k).1 < |fs.disk| && |GrowTable(fs, ino, k).0.disk| == |fs.disk|
  {
    hide GrowTable, Unshared, FreedClear, CountsOk, NextBlock, Own, SlotData;
    TableFilled(fs, ino, k);
  }

  lemma Level2Owned(fs: Fs, ino: nat, a: nat)
    requires OwnInv(fs) && Live(fs, ino) && a < PTRS
    ensures Shape(fs) && GrowLevel2(fs, ino, a).1 < |fs.disk| && |GrowLevel2(fs, ino, a).0.disk| == |fs.disk|
  {
    hide GrowLevel2, Unshared, FreedClear, CountsOk, NextBlock, Own, SlotData;
    Level2Filled(fs, ino, a);
  }

  /** One turn of the write loop in terms of the block found. */
  lemma TurnByHand(fs: Fs, ino: nat, o: nat, rest: seq<byte>)
    requires OwnInv(fs) && Live(fs, ino) && rest != []
    ensures Shape(fs)
    ensures var (f1, b) := Ext2Bmap.BmapAlloc(fs, ino, o / BS);
            var t := WriteTurn(fs, ino, o, rest);
            if b == 0 then t == (f1, 0)
            else var c := Min(|rest|, BS - o % BS);
                 && c > 0 && b < |f1.disk| && |rest[..c]| == c
                 && t == (f1.(disk := f1.disk[b := Splice(f1.disk[b], o % BS, rest[..c])]), c)
                 && OwnInv(t.0) && Live(t.0, ino)
  {
    hide Ext2Bmap.BmapAlloc, Stored, Unshared, FreedClear, CountsOk, NextBlock;
    var (f1, b) := Ext2Bmap.BmapAlloc(fs, ino, o / BS);
    if b != 0 {
      BmapBeyond(fs, ino, o / BS);
      BmapAllocFills(fs, ino, o / BS);
      TurnStored(fs, ino, o, rest);
      var t := WriteTurn(fs, ino, o, rest);
      StoredLive(fs, t.0, ino, o, rest[..t.1]);
    }
  }

  lemma BmapBeyond(fs: Fs, ino: nat, bi: nat)
    requires Shape(fs) && IsInode(fs, ino) && Ext2Bmap.BmapAlloc(fs, ino, bi).1 != 0
    ensures bi < MAX_FILE_BLOCKS
  {
    hide GrowSlot;
  }

  /** A buffer that was not read first is overwritten completely. */
  lemma SpliceWhole(x: Block, y: Block, o: nat, d: seq<byte>)
    requires o + |d| <= BS && (x == y || (o == 0 && |d| == BS))
    ensures Splice(x, o, d) == Splice(y, o, d)
  {
  }

  lemma SizeShape(fs: Fs, ino: nat, size: nat)
    requires Shape(fs) && IsInode(fs, ino)
    ensures Shape(WithNode(fs, ino, Node(fs, ino).(size := Add32(0, size))))
  {
  }

  lemma FreeShapes(fs: Fs, b: nat)
    requires Shape(fs)
    ensures Shape(Ext2State.FreeBlock(fs, b))
  {
  }

  lemma LinkShape(fs: Fs, p: nat, n: Inode)
    requires Shape(fs) && IsInode(fs, p)
    ensures Shape(WithNode(fs, p, n))
  {
  }

  lemma MarkShape(fs: Fs, ino: nat)
    requires Shape(fs) && 1 <= ino <= fs.sup.inodesCount
    ensures ino <= |fs.inodeBits| && Shape(MarkInode(fs, ino)) && NextBlock(MarkInode(fs, ino)) == NextBlock(fs)
    ensures NextBlock(fs) < |fs.blockBits|
  {
    NextBlockSame(fs, MarkInode(fs, ino));
    InRange(fs);
  }

  lemma FreeKeepsNodes(fs: Fs, b: nat)
    requires Shape(fs)
    ensures Ext2State.FreeBlock(fs, b).inodes == fs.inodes
  {
  }

  lemma KillShapes(fs: Fs, t: nat)
    requires Shape(fs)
    ensures Shape(Ext2State.FreeInode(fs, t)) && Shape(SyncSuper(Ext2State.FreeInode(fs, t)))
  {
    hide EncodeSuper;
  }

  lemma SyncShapes(fs: Fs, ino: nat)
    requires Shape(fs) && IsInode(fs, ino)
    ensures Shape(SyncInode(fs, ino)) && Shape(SyncSuper(SyncInode(fs, ino)))
  {
    hide EncodeInode, EncodeSuper;
    InodeInTable(fs.sup.blocksCount, fs.sup.inodesCount, ino);
  }

  /** Cached tables are the tables on disk. */
  predicate CacheOk(fs: Fs, ino: nat, c: TableCache)
    requires IsInode(fs, ino)
  {
    var n := Node(fs, ino);
    && (c.single.Some? ==> 0 < n.ptrs[12] < |fs.disk| && c.single.value == fs.disk[n.ptrs[12]])
    && (c.level1.Some? ==> 0 < n.ptrs[13] < |fs.disk| && c.level1.value == fs.disk[n.ptrs[13]])
    && (c.level2At != 0 ==> c.level2At < |fs.disk| && c.level2 == fs.disk[c.level2At])
  }

  /** With a double but no single indirect tree, a read past the direct blocks would compute a
      negative table index; files written without gaps never look like that. */
  predicate ReadSafe(n: Inode) { n.ptrs[12] == 0 && n.size > NDIRECT * BS ==> n.ptrs[13] == 0 }

  lemma MidTable(n: Inode, o: nat)
    requires ReadSafe(n) && o < n.size
    ensures NDIRECT <= o / BS < NDIRECT + PTRS && n.ptrs[12] == 0 ==> n.ptrs[13] == 0
  {
  }

  /** Files without holes are safe to read. */
  lemma NoHolesReadSafe(fs: Fs, ino: nat)
    requires Live(fs, ino) && NoHoles(fs, ino)
    ensures ReadSafe(Node(fs, ino))
  {
    if Node(fs, ino).size > NDIRECT * BS {
      assert DataRef(fs, ino, NDIRECT) != 0;
    }
  }

  /** The bytes read so far are the bytes of the file, all from allocated blocks. */
  ghost predicate BytesRead(fs: Fs, ino: nat, off: nat, got: seq<byte>) {
    forall k :: 0 <= k < |got| ==> got[k] == ByteAt(fs, ino, off + k) && DataRef(fs, ino, (off + k) / BS) != 0
  }

  /** What a read returns: the file's bytes up to the first hole, zeros after it. */
  ghost predicate ReadOk(fs: Fs, ino: nat, off: nat, size: nat, buffer: seq<byte>, n: int)
    requires IsInode(fs, ino)
  {
    var fsize := Node(fs, ino).size;
    && |buffer| == (if off >= fsize then 0 else Min(size, fsize - off))
    && 0 <= n <= |buffer| && BytesRead(fs, ino, off, buffer[..n])
    && (forall k :: n <= k < |buffer| ==> buffer[k] == 0)
    && (n < |buffer| ==> DataRef(fs, ino, (off + n) / BS) == 0)
  }

  lemma MoreRead(fs: Fs, ino: nat, off: nat, got: seq<byte>, piece: seq<byte>)
    requires BytesRead(fs, ino, off, got)
    requires var o := off + |got|;
             && o % BS + |piece| <= BS && DataRef(fs, ino, o / BS) != 0
             && piece == SlotData(fs, ino, DataSlot(o / BS))[o % BS..o % BS + |piece|]
    ensures BytesRead(fs, ino, off, got + piece)
  {
    hide Own, SlotData;
    var o := off + |got|;
    forall k | 0 <= k < |got + piece|
      ensures (got + piece)[k] == ByteAt(fs, ino, off + k) && DataRef(fs, ino, (off + k) / BS) != 0
    {
      if k >= |got| {
        assert (off + k) / BS == o / BS && (off + k) % BS == o % BS + (k - |got|);
      }
    }
  }

  /** Main result for reads: on a file without holes the result is exactly the requested slice of
      its contents. */
  lemma ReadIsSlice(fs: Fs, ino: nat, off: nat, size: nat, buffer: seq<byte>, n: int)
    requires Live(fs, ino) && NoHoles(fs, ino) && ReadOk(fs, ino, off, size, buffer, n)
    ensures n == |buffer|
    ensures var c := Content(fs, ino); buffer == if off >= |c| then [] else c[off..Min(off + size, |c|)]
  {
    hide Own, SlotData;
    if n < |buffer| {
      OldByteMapped(fs, ino, off + n);
    }
    assert buffer[..n] == buffer;
  }

  lemma DirectOnDisk(fs: Fs, d: nat, k: nat)
    requires OwnInv(fs) && Live(fs, d) && k < NDIRECT && Node(fs, d).ptrs[k] != 0
    ensures var b := Node(fs, d).ptrs[k]; b < |fs.disk| && DirBlock(fs, d, k) == fs.disk[b]
    ensures BlocksOk(fs, d) ==> Tiles(DirBlock(fs, d, k), 0)
  {
    hide Unshared, FreedClear, CountsOk, Tiles, Distinct;
    assert Own(fs, d, Direct(k)) == Node(fs, d).ptrs[k];
  }

  lemma SlotByHand(fs: Fs, d: nat, k: nat, b: Block)
    requires Live(fs, d) && k < NDIRECT && Node(fs, d).ptrs[k] < |fs.disk|
    ensures WriteSlot(fs, d, Direct(k), b) == fs.(disk := fs.disk[Node(fs, d).ptrs[k] := b])
  {
  }

  lemma AddBlockByHand(fs: Fs, d: nat, k: nat, blk: Block)
    requires Shape(fs) && Live(fs, d) && k < NDIRECT && Node(fs, d).ptrs[k] == 0 && NextBlock(fs) != 0
    ensures var nb := NextBlock(fs); var n := Node(fs, d);
            var m := n.(ptrs := n.ptrs[k := nb], size := Add32(n.size, BS), blocks := Add32(n.blocks, 2));
            var g := WithNode(MarkBlock(fs, nb), d, m).(disk := fs.disk[nb := blk]);
            Shape(g) && AddBlock(fs, d, k, blk) == SyncInode(g, d)
  {
    hide NextBlock, SyncInode;
    InRange(fs);
    var nb := NextBlock(fs);
    var f1 := GrowDirect(fs, d, k).0;
    var f2 := WithNode(f1, d, Node(f1, d).(size := Add32(Node(f1, d).size, BS)));
    assert Own(f2, d, Direct(k)) == nb;
    var n := Node(fs, d);
    var m := n.(ptrs := n.ptrs[k := nb], size := Add32(n.size, BS), blocks := Add32(n.blocks, 2));
    assert f2.inodes == fs.inodes[d - 1 := m];
    assert WriteSlot(f2, d, Direct(k), blk) == WithNode(MarkBlock(fs, nb), d, m).(disk := fs.disk[nb := blk]);
  }

  lemma DirBlocks(fs: Fs, d: nat)
    requires FsInv(fs)
    ensures OwnInv(fs) && (LiveDir(fs, d) ==> BlocksOk(fs, d))
  {
  }

  lemma RootChain(fs: Fs)
    requires FsInv(fs)
    ensures Live(fs, ROOT_INODE) && Chain(fs, [ROOT_INODE], ROOT_INODE)
  {
  }

  /** Storing a record field by field. */
  lemma FieldsAreFill(b: Block, o: nat, len: u16, ino: u32, name: Name, ftype: byte)
    requires o + 8 + |name| <= BS && IsName(name)
    ensures Splice(Put16(Put32(b, o, ino), o + 4, len)[o + 6 := |name|][o + 7 := ftype], o + 8, name)
         == Fill(b, o, len, ino, name, ftype)
  {
    hide RecBytes, CStr, Put32, Put16;
    var x := Splice(Put16(Put32(b, o, ino), o + 4, len)[o + 6 := |name|][o + 7 := ftype], o + 8, name);
    var r := RecBytes(ino, len, name, ftype);
    RecBytesAt(ino, len, name, ftype);
    HeaderBytes(x, o, ino, len);
    assert forall k :: 0 <= k < |name| ==> r[8 + k] == r[8..][k] == name[k];
    forall k | 0 <= k < 8
      ensures x[o + k] == r[k]
    {
      if k < 4 {
        assert x[o..o + 4][k] == r[..4][k];
      } else if k < 6 {
        assert x[o + 4..o + 6][k - 4] == r[4..6][k - 4];
      }
    }
  }

  /** Where the inode table keeps a record. */
  lemma InodePlace(blocksCount: nat, ino: nat)
    requires ino >= 1
    ensures InodeTableStart(blocksCount) + (ino - 1) * 256 / BS == InodeBlock(blocksCount, ino)
    ensures (ino - 1) * 256 % BS == InodeOffset(ino)
  {
  }

  /** Header fields determine their bytes. */
  lemma HeaderBytes(x: Block, o: nat, ino: u32, len: u16)
    requires o + 8 <= BS && Le32(x, o) == ino && Le16(x, o + 4) == len
    ensures x[o..o + 4] == Bytes32(ino) && x[o + 4..o + 6] == Bytes16(len)
  {
    Bytes32Back(x, o);
    Bytes16Back(x, o + 4);
  }

  /** One turn of the insertion walk, and the room it has. */
  lemma InsertTurn(b: Block, o: nat, ino: u32, name: Name, ftype: byte)
    requires o < BS && Tiles(b, o) && IsName(name)
    ensures var len := RecLen(b, o); var used := Space(NameLen(b, o)); var needed := Space(|name|);
            && o + 8 <= o + len <= BS && Tiles(b, o + len) && 0 < |name| <= MAX_NAME && needed >= 8 + |name|
            && used >= 8
            && Insert(b, o, ino, name, ftype) ==
               if RecIno(b, o) == 0 && len >= needed then Some(Fill(b, o, len, ino, name, ftype))
               else if RecIno(b, o) != 0 && len >= used + needed then
                 Some(Fill(Put16(b, o + 4, used), o + used, len - used, ino, name, ftype))
               else Insert(b, o + len, ino, name, ftype)
  {
    hide CStr, RecName, Fill, Put16;
  }

  lemma InsertEnd(b: Block, ino: u32, name: Name, ftype: byte)
    requires Tiles(b, BS) && IsName(name)
    ensures Insert(b, BS, ino, name, ftype) == None
  {
  }

  /** A reused record keeps its length field. */
  lemma ReuseIsFill(b: Block, o: nat, ino: u32, name: Name, ftype: byte)
    requires o + 8 + |name| <= BS && IsName(name)
    ensures Splice(Put32(b, o, ino)[o + 6 := |name|][o + 7 := ftype], o + 8, name)
         == Fill(b, o, RecLen(b, o), ino, name, ftype)
  {
    var m := Put32(b, o, ino);
    assert Le16(m, o + 4) == RecLen(b, o);
    assert Put16(m, o + 4, RecLen(b, o)) == m;
    FieldsAreFill(b, o, RecLen(b, o), ino, name, ftype);
  }
}
