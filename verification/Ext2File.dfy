/** Files as byte sequences: `ext2_write`, and what `ext2_read` must return. */
module Ext2File {
  import opened Numbers
  import opened Bytes
  import opened Ext2State
  import opened Ext2Ownership
  import opened Ext2Bmap
  import opened Ext2Disk

  /** Disk block of logical block `bi`, 0 for a hole. */
  function DataRef(fs: Fs, ino: nat, bi: nat): u32 { Own(fs, ino, DataSlot(bi)) }

  /** Byte `k` of a file, whether or not it lies below the file size. */
  function ByteAt(fs: Fs, ino: nat, k: nat): byte { SlotData(fs, ino, DataSlot(k / BS))[k % BS] }

  /** The contents of a file: the first `size` bytes of its blocks. */
  function Content(fs: Fs, ino: nat): (c: seq<byte>)
    requires IsInode(fs, ino)
    ensures |c| == Node(fs, ino).size
    ensures forall k :: 0 <= k < |c| ==> c[k] == ByteAt(fs, ino, k)
  {
    seq(Node(fs, ino).size, k requires 0 <= k => ByteAt(fs, ino, k))
  }

  /** Every block below the file size is allocated. */
  ghost predicate NoHoles(fs: Fs, ino: nat)
    requires IsInode(fs, ino)
  {
    forall bi: nat :: bi * BS < Node(fs, ino).size ==> DataRef(fs, ino, bi) != 0
  }

  // ---- frames ----

  /** Pointers, and contents behind them, survive any change confined to the metadata area of the
      disk and to inode fields other than the block pointers. */
  lemma MetaFrame(fs: Fs, gs: Fs)
    requires OwnInv(fs)
    requires gs.sup == fs.sup && gs.blockBits == fs.blockBits && gs.inodeBits == fs.inodeBits
    requires |gs.inodes| == |fs.inodes| && |gs.disk| == |fs.disk|
    requires forall j: nat :: IsInode(fs, j) ==> Node(gs, j).ptrs == Node(fs, j).ptrs
    requires forall x :: fs.sup.firstData <= x < |fs.disk| ==> gs.disk[x] == fs.disk[x]
    ensures OwnInv(gs)
    ensures forall j: nat, t: Slot :: Own(gs, j, t) == Own(fs, j, t)
    ensures forall j: nat, t: Slot :: SlotData(gs, j, t) == SlotData(fs, j, t)
  {
    hide Own;
    forall j: nat, t: Slot
      ensures Own(gs, j, t) == Own(fs, j, t)
    {
      MetaOwn(fs, gs, j, t);
    }
    assert forall j: nat, t: Slot :: Own(fs, j, t) == 0 || Own(fs, j, t) >= fs.sup.firstData;
    assert Marked(gs);
    assert FreedClear(gs);
  }

  lemma MetaOwn(fs: Fs, gs: Fs, j: nat, t: Slot)
    requires OwnInv(fs) && gs.inodeBits == fs.inodeBits && |gs.inodes| == |fs.inodes| && |gs.disk| == |fs.disk|
    requires IsInode(fs, j) ==> Node(gs, j).ptrs == Node(fs, j).ptrs
    requires forall x :: fs.sup.firstData <= x < |fs.disk| ==> gs.disk[x] == fs.disk[x]
    ensures Own(gs, j, t) == Own(fs, j, t)
  {
    hide Unshared, FreedClear, CountsOk;
    if IsInode(fs, j) {
      var n := Node(fs, j);
      assert Own(fs, j, Single) == n.ptrs[12];
      assert Own(fs, j, Double) == n.ptrs[13];
      if t.Level2Entry? {
        assert Own(fs, j, Level2(t.a)) == TableAt(fs.disk, n.ptrs[13], t.a);
      }
      RefFrame(n, fs.disk, gs.disk, t);
    }
  }

  /** Rewrite the block behind a slot. */
  function WriteSlot(fs: Fs, ino: nat, s: Slot, blk: Block): (gs: Fs)
    ensures gs == fs.(disk := gs.disk) && |gs.disk| == |fs.disk|
  {
    var r := Own(fs, ino, s);
    if r < |fs.disk| then fs.(disk := fs.disk[r := blk]) else fs
  }

  /** Rewriting the block behind one data slot changes no pointer and no other contents. */
  lemma WriteSlotFrame(fs: Fs, ino: nat, s: Slot, blk: Block)
    requires OwnInv(fs) && IsInode(fs, ino) && IsData(s) && Own(fs, ino, s) != 0
    ensures var gs := WriteSlot(fs, ino, s, blk);
            && OwnInv(gs) && OnlyInode(fs, gs, ino)
            && gs == fs.(disk := gs.disk)
            && (forall j: nat, t: Slot :: Own(gs, j, t) == Own(fs, j, t))
            && SlotData(gs, ino, s) == blk
            && (forall j: nat, t: Slot :: IsData(t) && !(j == ino && t == s) ==>
                SlotData(gs, j, t) == SlotData(fs, j, t))
  {
    hide Own;
    var gs := WriteSlot(fs, ino, s, blk);
    forall j: nat, t: Slot
      ensures Own(gs, j, t) == Own(fs, j, t)
    {
      WriteSlotOwn(fs, ino, s, blk, j, t);
    }
    assert forall j: nat :: IsInode(fs, j) ==> Node(gs, j) == Node(fs, j);
    assert Marked(gs) && Unshared(gs) && FreedClear(gs);
    assert forall x :: 0 <= x < |fs.disk| && x != Own(fs, ino, s) ==> gs.disk[x] == fs.disk[x];
  }

  lemma WriteSlotOwn(fs: Fs, ino: nat, s: Slot, blk: Block, j: nat, t: Slot)
    requires OwnInv(fs) && IsInode(fs, ino) && IsData(s) && Own(fs, ino, s) != 0
    ensures Own(WriteSlot(fs, ino, s, blk), j, t) == Own(fs, j, t)
  {
    if IsInode(fs, j) {
      var n := Node(fs, j);
      assert Own(fs, j, Single) == n.ptrs[12];
      assert Own(fs, j, Double) == n.ptrs[13];
      if t.Level2Entry? {
        assert Own(fs, j, Level2(t.a)) == TableAt(fs.disk, n.ptrs[13], t.a);
      }
      RefFrame(n, fs.disk, WriteSlot(fs, ino, s, blk).disk, t);
    }
  }

  // ---- ext2_write ----

  /** Length of the piece of a transfer at `off` that stays inside one block. */
  function ChunkLen(off: nat, len: nat): (c: nat)
    ensures c <= len && off % BS + c <= BS && (len > 0 ==> c > 0)
    ensures c == len || (off + c) % BS == 0
  {
    Min(len, BS - off % BS)
  }

  /** Store a piece into its (already mapped) block. */
  function PutChunk(fs: Fs, ino: nat, off: nat, d: seq<byte>): (gs: Fs)
    requires off % BS + |d| <= BS
    ensures gs == fs.(disk := gs.disk) && |gs.disk| == |fs.disk|
  {
    var s := DataSlot(off / BS);
    WriteSlot(fs, ino, s, Splice(SlotData(fs, ino, s), off % BS, d))
  }

  /** Store the next piece once its block is known to be `b`; nothing is stored when `b` is 0. */
  function StoreAt(fs: Fs, b: nat, ino: nat, off: nat, data: seq<byte>): (r: (Fs, nat))
    ensures r.0 == fs.(disk := r.0.disk) && |r.0.disk| == |fs.disk| && r.1 <= |data|
  {
    if b == 0 then (fs, 0)
    else
      var c := ChunkLen(off, |data|);
      (PutChunk(fs, ino, off, data[..c]), c)
  }

  /** One turn of the write loop: map the block, store the piece. Returns the bytes stored, 0 when mapping failed. */
  function WriteTurn(fs: Fs, ino: nat, off: nat, data: seq<byte>): (r: (Fs, nat))
    requires Shape(fs) && IsInode(fs, ino)
    ensures Shape(r.0) && IsInode(r.0, ino) && r.1 <= |data|
  {
    hide BmapAlloc;
    hide StoreAt;
    var m := BmapAlloc(fs, ino, off / BS);
    StoreAt(m.0, m.1, ino, off, data)
  }

  /** The write loop: the new state and the number of bytes stored. */
  function WriteLoop(fs: Fs, ino: nat, off: nat, data: seq<byte>): (r: (Fs, nat))
    requires Shape(fs) && IsInode(fs, ino)
    ensures Shape(r.0) && IsInode(r.0, ino) && r.1 <= |data|
    decreases |data|
  {
    if data == [] then (fs, 0)
    else
      var (f1, c) := WriteTurn(fs, ino, off, data);
      if c == 0 then (f1, 0)
      else
        var (f2, n) := WriteLoop(f1, ino, off + c, data[c..]);
        (f2, c + n)
  }

  /** Write-through at the end of a data operation: inode, superblock, bitmaps. */
  function Commit(fs: Fs, ino: nat): (gs: Fs)
    requires Shape(fs) && IsInode(fs, ino)
    ensures gs == fs.(disk := gs.disk) && |gs.disk| == |fs.disk|
    ensures forall x :: fs.sup.firstData <= x < |fs.disk| ==> gs.disk[x] == fs.disk[x]
  {
    InodeInTable(fs.sup.blocksCount, fs.sup.inodesCount, ino);
    SyncBitmaps(SyncSuper(SyncInode(fs, ino)))
  }

  /** `ext2_write`: the result is the byte count, or -1. */
  function Write(fs: Fs, ino: nat, off: nat, data: seq<byte>): (Fs, int)
    requires Shape(fs) && IsInode(fs, ino)
  {
    hide WriteLoop, Commit;
    if ino >= fs.sup.inodesCount || IsDirMode(Node(fs, ino).mode) then (fs, -1)
    else
      var (f1, n) := WriteLoop(fs, ino, off, data);
      var node := Node(f1, ino);
      var f2 := if off + n > node.size then WithNode(f1, ino, node.(size := Add32(0, off + n))) else f1;
      (Commit(f2, ino), n as int)
  }

  // ---- the write loop stores exactly the accepted bytes ----

  /** From `fs` to `gs` the bytes `d` were stored at `off` of `ino`; every other allocated byte of
      that file, and everything of every other inode, is unchanged. */
  ghost predicate Stored(fs: Fs, gs: Fs, ino: nat, off: nat, d: seq<byte>)
    requires Shape(fs) && IsInode(fs, ino)
  {
    && OwnInv(gs) && OnlyInode(fs, gs, ino)
    && (forall k: nat :: off <= k < off + |d| ==> DataRef(gs, ino, k / BS) != 0 && ByteAt(gs, ino, k) == d[k - off])
    && (forall k: nat :: !(off <= k < off + |d|) && DataRef(fs, ino, k / BS) != 0 ==>
          ByteAt(gs, ino, k) == ByteAt(fs, ino, k))
  }

  lemma StoredConcat(fs: Fs, gs: Fs, hs: Fs, ino: nat, off: nat, d: seq<byte>, e: seq<byte>)
    requires Shape(fs) && IsInode(fs, ino) && Stored(fs, gs, ino, off, d) && Stored(gs, hs, ino, off + |d|, e)
    ensures Stored(fs, hs, ino, off, d + e)
  {
    hide Own, OwnInv, ByteAt, Node;
    OnlyInodeTransitive(fs, gs, hs, ino);
    forall k: nat | off <= k < off + |d + e|
      ensures DataRef(hs, ino, k / BS) != 0 && ByteAt(hs, ino, k) == (d + e)[k - off]
    {
      if k < off + |d| {
        assert ByteAt(gs, ino, k) == d[k - off];
      }
    }
    forall k: nat | !(off <= k < off + |d + e|) && DataRef(fs, ino, k / BS) != 0
      ensures ByteAt(hs, ino, k) == ByteAt(fs, ino, k)
    {
      assert DataRef(gs, ino, k / BS) != 0;
    }
  }

  /** A piece inside one block, seen as bytes of the file. */
  lemma PieceBytes(fs: Fs, gs: Fs, ino: nat, off: nat, d: seq<byte>)
    requires Shape(fs) && IsInode(fs, ino) && OwnInv(gs) && OnlyInode(fs, gs, ino)
    requires 0 < |d| && off % BS + |d| <= BS
    requires var s := DataSlot(off / BS);
             && Own(gs, ino, s) != 0
             && (forall x :: 0 <= x < BS ==>
                   (if off % BS <= x < off % BS + |d| then SlotData(gs, ino, s)[x] == d[x - off % BS]
                    else Own(fs, ino, s) != 0 ==> SlotData(gs, ino, s)[x] == SlotData(fs, ino, s)[x]))
             && (forall t: Slot :: IsData(t) && t != s && Own(fs, ino, t) != 0 ==>
                   SlotData(gs, ino, t) == SlotData(fs, ino, t))
    ensures Stored(fs, gs, ino, off, d)
  {
    hide Own, OwnInv, OnlyInode, SlotData, Shape;
    var bi := off / BS;
    forall k: nat | off <= k < off + |d|
      ensures DataRef(gs, ino, k / BS) != 0 && ByteAt(gs, ino, k) == d[k - off]
    {
      assert k / BS == bi && k % BS == off % BS + (k - off);
    }
    forall k: nat | !(off <= k < off + |d|) && DataRef(fs, ino, k / BS) != 0
      ensures ByteAt(gs, ino, k) == ByteAt(fs, ino, k)
    {
      var s := DataSlot(k / BS);
      if k / BS == bi {
        assert !(off % BS <= k % BS < off % BS + |d|);
      } else {
        assert s != DataSlot(bi) by { if s == DataSlot(bi) { DataSlotInjective(k / BS, bi); } }
      }
    }
  }

  /** What one turn of the loop does. */
  lemma TurnStored(fs: Fs, ino: nat, off: nat, data: seq<byte>)
    requires OwnInv(fs) && Live(fs, ino) && data != []
    ensures var (gs, c) := WriteTurn(fs, ino, off, data);
            && Stored(fs, gs, ino, off, data[..c])
            && (if c == 0 then off / BS >= MAX_FILE_BLOCKS || NextBlock(gs) == 0
                else c == ChunkLen(off, |data|) && off / BS < MAX_FILE_BLOCKS)
  {
    var s := DataSlot(off / BS);
    var (f1, b) := BmapAlloc(fs, ino, off / BS);
    var (gs, c) := WriteTurn(fs, ino, off, data);
    if off / BS < MAX_FILE_BLOCKS {
      BmapAllocFills(fs, ino, off / BS);
    }
    if b == 0 {
      assert gs == f1 && c == 0 && data[..c] == [];
      GrownStored(fs, gs, ino, off);
    } else {
      var d := data[..c];
      var blk := Splice(SlotData(f1, ino, s), off % BS, d);
      assert gs == WriteSlot(f1, ino, s, blk);
      WriteSlotFrame(f1, ino, s, blk);
      OnlyInodeTransitive(fs, f1, gs, ino);
      PieceBytes(fs, gs, ino, off, d);
    }
  }

  lemma GrownStored(fs: Fs, gs: Fs, ino: nat, off: nat)
    requires Shape(fs) && IsInode(fs, ino) && OwnInv(gs) && Grown(fs, gs, ino)
    ensures Stored(fs, gs, ino, off, [])
  {
  }

  lemma GrownRefl(fs: Fs, ino: nat)
    requires OwnInv(fs) && IsInode(fs, ino)
    ensures Shape(fs) && Grown(fs, fs, ino)
  {
  }

  lemma StoredLive(fs: Fs, gs: Fs, ino: nat, off: nat, d: seq<byte>)
    requires Shape(fs) && Live(fs, ino) && Stored(fs, gs, ino, off, d)
    ensures OwnInv(gs) && Live(gs, ino)
  {
  }

  lemma ChunkInBlock(off: nat, len: nat)
    requires len > 0
    ensures (off + ChunkLen(off, len) - 1) / BS == off / BS
  {
  }

  /** Where the loop stops: early only on a full disk or at the size limit. */
  ghost predicate StopsWell(gs: Fs, off: nat, n: nat, len: nat) {
    && (n < len ==> (off + n) / BS >= MAX_FILE_BLOCKS || (Shape(gs) && NextBlock(gs) == 0))
    && (n > 0 ==> (off + n - 1) / BS < MAX_FILE_BLOCKS)
  }

  lemma StopsLater(gs: Fs, off: nat, c: nat, n: nat, len: nat)
    requires 0 < c == ChunkLen(off, len) && off / BS < MAX_FILE_BLOCKS && StopsWell(gs, off + c, n, len - c)
    ensures StopsWell(gs, off, c + n, len)
  {
    hide NextBlock, Shape;
    ChunkInBlock(off, len);
    assert off + c + n == off + (c + n);
  }

  lemma StoredTwice(fs: Fs, gs: Fs, hs: Fs, ino: nat, off: nat, data: seq<byte>, c: nat, n: nat)
    requires Shape(fs) && IsInode(fs, ino) && c <= |data| && n <= |data| - c
    requires Stored(fs, gs, ino, off, data[..c])
    requires Shape(gs) && IsInode(gs, ino) && Stored(gs, hs, ino, off + c, data[c..][..n])
    ensures Stored(fs, hs, ino, off, data[..c + n])
  {
    hide Stored, Shape;
    assert data[..c] + data[c..][..n] == data[..c + n];
    StoredConcat(fs, gs, hs, ino, off, data[..c], data[c..][..n]);
  }

  lemma LoopUnfold(fs: Fs, ino: nat, off: nat, data: seq<byte>)
    requires Shape(fs) && IsInode(fs, ino)
    ensures data == [] ==> WriteLoop(fs, ino, off, data) == (fs, 0)
    ensures data != [] ==>
              var t := WriteTurn(fs, ino, off, data);
              WriteLoop(fs, ino, off, data) ==
              if t.1 == 0 then (t.0, 0)
              else var r := WriteLoop(t.0, ino, off + t.1, data[t.1..]); (r.0, t.1 + r.1)
  {
    hide WriteTurn;
  }

  lemma LoopDone(fs: Fs, ino: nat, off: nat)
    requires OwnInv(fs) && Live(fs, ino)
    ensures Shape(fs) && Stored(fs, fs, ino, off, []) && StopsWell(fs, off, 0, 0)
  {
    GrownRefl(fs, ino);
    GrownStored(fs, fs, ino, off);
  }

  /** The whole loop stores `data[..n]` at `off`. */
  lemma {:induction false} LoopStored(fs: Fs, ino: nat, off: nat, data: seq<byte>)
    requires OwnInv(fs) && Live(fs, ino)
    ensures var r := WriteLoop(fs, ino, off, data);
            Stored(fs, r.0, ino, off, data[..r.1]) && StopsWell(r.0, off, r.1, |data|)
    decreases |data|
  {
    hide WriteLoop, WriteTurn, Stored, OwnInv, StopsWell, Shape, ChunkLen;
    OwnInvShape(fs);
    LoopUnfold(fs, ino, off, data);
    if data == [] {
      LoopDone(fs, ino, off);
    } else {
      TurnStored(fs, ino, off, data);
      var t := WriteTurn(fs, ino, off, data);
      if t.1 == 0 {
        TurnStops(fs, ino, off, data);
      } else {
        StoredLive(fs, t.0, ino, off, data[..t.1]);
        LoopStored(t.0, ino, off + t.1, data[t.1..]);
        var r := WriteLoop(t.0, ino, off + t.1, data[t.1..]);
        StoredTwice(fs, t.0, r.0, ino, off, data, t.1, r.1);
        StopsLater(r.0, off, t.1, r.1, |data|);
      }
    }
  }

  lemma TurnStops(fs: Fs, ino: nat, off: nat, data: seq<byte>)
    requires OwnInv(fs) && Live(fs, ino) && data != [] && WriteTurn(fs, ino, off, data).1 == 0
    ensures StopsWell(WriteTurn(fs, ino, off, data).0, off, 0, |data|)
  {
    hide WriteTurn, Stored, OwnInv, NextBlock;
    OwnInvShape(fs);
    TurnStored(fs, ino, off, data);
  }

  // ---- ext2_write refines an overwrite of a byte sequence ----

  /** `c` with `d` written at `off`, extended if it runs past the end. */
  function Overlay(c: seq<byte>, off: nat, d: seq<byte>): seq<byte>
    requires off <= |c|
  {
    c[..off] + d + if off + |d| < |c| then c[off + |d|..] else []
  }

  /** Every inode but `ino` keeps its record, its pointers and its contents; no inode is allocated or freed. */
  ghost predicate OthersSame(fs: Fs, gs: Fs, ino: nat) {
    && gs.inodeBits == fs.inodeBits && |gs.inodes| == |fs.inodes| && |gs.disk| == |fs.disk|
    && gs.sup == fs.sup.(freeBlocks := gs.sup.freeBlocks)
    && (forall j: nat :: IsInode(fs, j) && j != ino ==> Node(gs, j) == Node(fs, j))
    && (forall j: nat, t: Slot :: j != ino ==> Own(gs, j, t) == Own(fs, j, t))
    && (forall j: nat, t: Slot :: IsData(t) && j != ino ==> SlotData(gs, j, t) == SlotData(fs, j, t))
  }

  lemma OthersContent(fs: Fs, gs: Fs, ino: nat, j: nat)
    requires OthersSame(fs, gs, ino) && IsInode(fs, j) && j != ino
    ensures Content(gs, j) == Content(fs, j)
    ensures NoHoles(gs, j) <==> NoHoles(fs, j)
  {
    hide Own, SlotData;
    assert forall k: nat :: ByteAt(gs, j, k) == ByteAt(fs, j, k);
    assert forall bi: nat :: DataRef(gs, j, bi) == DataRef(fs, j, bi);
  }

  /** `Write` after its loop: only the size, and the metadata area of the disk. */
  lemma WriteTail(fs: Fs, ino: nat, off: nat, data: seq<byte>)
    requires OwnInv(fs) && LiveFile(fs, ino) && ino < fs.sup.inodesCount
    ensures var (f1, n) := WriteLoop(fs, ino, off, data);
            var (gs, m) := Write(fs, ino, off, data);
            && OwnInv(f1) && OwnInv(gs) && m == n && NextBlock(gs) == NextBlock(f1)
            && (forall j: nat, t: Slot :: Own(gs, j, t) == Own(f1, j, t))
            && (forall j: nat, t: Slot :: SlotData(gs, j, t) == SlotData(f1, j, t))
            && IsInode(gs, ino) && OthersSame(fs, gs, ino)
            && Node(gs, ino) == Node(f1, ino).(size := Node(gs, ino).size)
            && Node(gs, ino).size == if off + n > Node(fs, ino).size then Add32(0, off + n) else Node(fs, ino).size
  {
    hide WriteLoop, Commit, Own, SlotData, Marked, Unshared, FreedClear, CountsOk, NextBlock;
    LoopStored(fs, ino, off, data);
    var (f1, n) := WriteLoop(fs, ino, off, data);
    var (gs, m) := Write(fs, ino, off, data);
    MetaFrame(f1, gs);
    NextBlockFrame(f1, gs);
  }

  lemma NextBlockFrame(fs: Fs, gs: Fs)
    requires Shape(fs) && Shape(gs) && gs.sup == fs.sup && gs.blockBits == fs.blockBits
    ensures NextBlock(gs) == NextBlock(fs)
  {
  }

  lemma WriteSizeBound(off: nat, n: nat)
    requires n > 0 ==> (off + n - 1) / BS < MAX_FILE_BLOCKS
    ensures n > 0 ==> off + n <= MAX_FILE_BLOCKS * BS < 0x1_0000_0000
  {
  }

  /** Main result for writes: with `off` at most the file size, the accepted bytes overwrite exactly
      `[off, off + n)`, the file has no holes afterwards, every other inode is untouched, and fewer
      bytes than offered are accepted only when the disk is full or the size limit is reached. */
  lemma WriteRefines(fs: Fs, ino: nat, off: nat, data: seq<byte>)
    requires OwnInv(fs) && LiveFile(fs, ino) && ino < fs.sup.inodesCount
    requires off <= Node(fs, ino).size && NoHoles(fs, ino)
    ensures var (gs, n) := Write(fs, ino, off, data);
            && OwnInv(gs) && OthersSame(fs, gs, ino) && IsInode(gs, ino) && 0 <= n <= |data|
            && Content(gs, ino) == Overlay(Content(fs, ino), off, data[..n])
            && NoHoles(gs, ino)
            && StopsWell(gs, off, n, |data|)
  {
    hide Write, WriteLoop, Own, Marked, Unshared, FreedClear, CountsOk, SlotData, NextBlock, OthersSame, ByteAt,
         DataRef;
    LoopStored(fs, ino, off, data);
    WriteTail(fs, ino, off, data);
    var (f1, n) := WriteLoop(fs, ino, off, data);
    var (gs, m) := Write(fs, ino, off, data);
    WriteSizeBound(off, n);
    SameBytes(f1, gs, ino);
    var e := Overlay(Content(fs, ino), off, data[..n]);
    assert |e| == Node(gs, ino).size;
    forall k | 0 <= k < |e|
      ensures ByteAt(gs, ino, k) == e[k]
    {
      StoredByte(fs, f1, ino, off, data[..n], k);
    }
    forall bi: nat | bi * BS < |e|
      ensures DataRef(gs, ino, bi) != 0
    {
      BlockMapped(fs, f1, ino, off, data[..n], bi);
    }
  }

  /** Same pointers, same contents: same bytes. */
  lemma SameBytes(fs: Fs, gs: Fs, ino: nat)
    requires forall t: Slot :: Own(gs, ino, t) == Own(fs, ino, t)
    requires forall t: Slot :: SlotData(gs, ino, t) == SlotData(fs, ino, t)
    ensures forall k: nat :: ByteAt(gs, ino, k) == ByteAt(fs, ino, k)
    ensures forall bi: nat :: DataRef(gs, ino, bi) == DataRef(fs, ino, bi)
  {
    hide Own, SlotData;
  }

  lemma OldByteMapped(fs: Fs, ino: nat, k: nat)
    requires IsInode(fs, ino) && NoHoles(fs, ino) && k < Node(fs, ino).size
    ensures DataRef(fs, ino, k / BS) != 0
  {
    hide Own;
    assert k / BS * BS <= k;
  }

  /** Each byte is a stored one or an old one. */
  lemma StoredByte(fs: Fs, gs: Fs, ino: nat, off: nat, d: seq<byte>, k: nat)
    requires Shape(fs) && IsInode(fs, ino) && NoHoles(fs, ino) && off <= Node(fs, ino).size
    requires Stored(fs, gs, ino, off, d) && k < |Overlay(Content(fs, ino), off, d)|
    ensures ByteAt(gs, ino, k) == Overlay(Content(fs, ino), off, d)[k]
  {
    hide Own, ByteAt, DataRef, OwnInv;
    if k < off || off + |d| <= k {
      OldByteMapped(fs, ino, k);
    }
  }

  /** A block below the new size was either there before or received bytes. */
  lemma BlockMapped(fs: Fs, gs: Fs, ino: nat, off: nat, d: seq<byte>, bi: nat)
    requires Shape(fs) && IsInode(fs, ino) && NoHoles(fs, ino) && off <= Node(fs, ino).size
    requires Stored(fs, gs, ino, off, d) && (bi * BS < Node(fs, ino).size || bi * BS < off + |d|)
    ensures DataRef(gs, ino, bi) != 0
  {
    hide OwnInv, ByteAt;
    if bi * BS < Node(fs, ino).size {
      assert DataRef(fs, ino, bi) != 0;
    } else {
      var k := bi * BS;
      assert k / BS == bi;
      assert ByteAt(gs, ino, k) == d[k - off];
    }
  }
}
