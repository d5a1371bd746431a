/** When an operation finds the space it needs: free blocks of the data area and gaps between records. */
module Ext2Room {
  import opened Bytes
  import opened Ext2State
  import opened Ext2Ownership
  import opened Ext2Bmap
  import opened Ext2File
  import opened Ext2DirBlock
  import opened Ext2Dir
  import opened Ext2Tree
  import opened Ext2Names

  // ---- free blocks ----

  /** Number of clear bits in `[lo, hi)`. */
  function ClearIn(bits: seq<bool>, lo: nat, hi: nat): (r: nat)
    requires hi <= |bits|
    decreases hi
  {
    if hi <= lo then 0 else ClearIn(bits, lo, hi - 1) + if bits[hi - 1] then 0 else 1
  }

  lemma {:induction false} ClearInUpdate(bits: seq<bool>, lo: nat, hi: nat, i: nat)
    requires lo <= i < |bits| && hi <= |bits| && !bits[i]
    ensures ClearIn(bits, lo, hi) == ClearIn(bits[i := true], lo, hi) + if i < hi then 1 else 0
    decreases hi
  {
    if lo < hi {
      ClearInUpdate(bits, lo, hi - 1, i);
    }
  }

  lemma {:induction false} ClearInNone(bits: seq<bool>, lo: nat, hi: nat)
    requires hi <= |bits|
    ensures ClearIn(bits, lo, hi) == 0 <==> forall k :: lo <= k < hi ==> bits[k]
    decreases hi
  {
    if lo < hi {
      ClearInNone(bits, lo, hi - 1);
    }
  }

  /** Free blocks of the data area under the block bits `bits`. */
  function FreeUnder(fs: Fs, bits: seq<bool>): nat
    requires Shape(fs) && |bits| == |fs.blockBits|
  {
    ClearIn(bits, fs.sup.firstData, fs.sup.blocksCount)
  }

  function FreeData(fs: Fs): nat
    requires Shape(fs)
  {
    FreeUnder(fs, fs.blockBits)
  }

  /** The allocator fails exactly when no block of the data area is free, and takes one otherwise. */
  lemma NextBlockExact(fs: Fs)
    requires Shape(fs)
    ensures NextBlock(fs) == 0 <==> FreeData(fs) == 0
    ensures NextBlock(fs) != 0 ==> Shape(MarkBlock(fs, NextBlock(fs)))
    ensures NextBlock(fs) != 0 ==> FreeData(MarkBlock(fs, NextBlock(fs))) == FreeData(fs) - 1
  {
    ClearInNone(fs.blockBits, fs.sup.firstData, fs.sup.blocksCount);
    var nb := NextBlock(fs);
    if nb != 0 {
      ClearInUpdate(fs.blockBits, fs.sup.firstData, fs.sup.blocksCount, nb);
    }
  }

  // ---- what a write uses up ----

  lemma DirectUses(fs: Fs, ino: nat, k: nat)
    requires Shape(fs) && IsInode(fs, ino) && k < NDIRECT
    ensures FreeData(GrowDirect(fs, ino, k).0) + 1 >= FreeData(fs)
  {
    hide NextBlock, FreeData;
    NextBlockExact(fs);
    SameBits(fs, fs);
    var nb := NextBlock(fs);
    if nb != 0 {
      SameBits(MarkBlock(fs, nb), WithNode(MarkBlock(fs, nb), ino, AddPtr(Node(fs, ino), k, nb)));
    }
  }

  /** The count depends on the bits and the layout alone. */
  lemma SameBits(fs: Fs, gs: Fs)
    requires Shape(fs) && Shape(gs) && gs.blockBits == fs.blockBits
    requires gs.sup.firstData == fs.sup.firstData && gs.sup.blocksCount == fs.sup.blocksCount
    ensures FreeData(gs) == FreeData(fs)
  {
    hide ClearIn;
  }

  lemma TableUses(fs: Fs, ino: nat, k: nat)
    requires Shape(fs) && IsInode(fs, ino) && k < 15
    ensures FreeData(GrowTable(fs, ino, k).0) + 1 >= FreeData(fs)
  {
    hide NextBlock, FreeData, ClearDisk;
    NextBlockExact(fs);
    var nb := NextBlock(fs);
    if Node(fs, ino).ptrs[k] == 0 && nb != 0 {
      SameBits(MarkBlock(fs, nb), GrowTable(fs, ino, k).0);
    }
  }

  lemma EntryUses(fs: Fs, ino: nat, t: nat, k: nat, zero: bool)
    requires Shape(fs) && IsInode(fs, ino) && k < PTRS
    ensures FreeData(GrowEntry(fs, ino, t, k, zero).0) + 1 >= FreeData(fs)
  {
    hide NextBlock, FreeData, SetEntry, ClearDisk, TableAt;
    NextBlockExact(fs);
    var nb := NextBlock(fs);
    if TableAt(fs.disk, t, k) == 0 && nb != 0 {
      SameBits(MarkBlock(fs, nb), GrowEntry(fs, ino, t, k, zero).0);
    }
  }

  lemma SlotUses(fs: Fs, ino: nat, s: Slot)
    requires Shape(fs) && IsInode(fs, ino) && SlotOk(s)
    ensures FreeData(GrowSlot(fs, ino, s).0) + 3 >= FreeData(fs)
  {
    hide GrowTable, GrowEntry, GrowDirect, FreeData;
    match s
    case Direct(i) => DirectUses(fs, ino, i);
    case SingleEntry(k) =>
      var (f1, t) := GrowTable(fs, ino, 12);
      TableUses(fs, ino, 12);
      if t != 0 {
        EntryUses(f1, ino, t, k, false);
      }
    case Level2Entry(a, b) =>
      var (f1, t) := GrowTable(fs, ino, 13);
      TableUses(fs, ino, 13);
      if t != 0 {
        EntryUses(f1, ino, t, a, true);
        var (f2, l2) := GrowEntry(f1, ino, t, a, true);
        if l2 != 0 {
          EntryUses(f2, ino, l2, b, false);
        }
      }
  }

  lemma TurnUses(fs: Fs, ino: nat, off: nat, data: seq<byte>)
    requires Shape(fs) && IsInode(fs, ino)
    ensures FreeData(WriteTurn(fs, ino, off, data).0) + 3 >= FreeData(fs)
  {
    hide GrowSlot, PutChunk, Shape, FreeData;
    var m := BmapAlloc(fs, ino, off / BS);
    DataSlotOk(off / BS);
    if off / BS < MAX_FILE_BLOCKS {
      SlotUses(fs, ino, DataSlot(off / BS));
    }
    var r := WriteTurn(fs, ino, off, data).0;
    assert r == m.0.(disk := r.disk);
    SameBits(m.0, r);
  }

  /** Blocks a range of bytes touches. */
  function Span(off: nat, len: nat): nat { if len == 0 then 0 else (off % BS + len + BS - 1) / BS }

  lemma {:induction false} LoopUses(fs: Fs, ino: nat, off: nat, data: seq<byte>)
    requires Shape(fs) && IsInode(fs, ino)
    ensures FreeData(WriteLoop(fs, ino, off, data).0) + 3 * Span(off, |data|) >= FreeData(fs)
    decreases |data|
  {
    hide WriteTurn, FreeData;
    if data != [] {
      var (f1, c) := WriteTurn(fs, ino, off, data);
      TurnUses(fs, ino, off, data);
      SpanStep(off, |data|);
      if c != 0 {
        TurnLength(fs, ino, off, data);
        LoopUses(f1, ino, off + c, data[c..]);
      }
    }
  }

  lemma SpanStep(off: nat, len: nat)
    requires len > 0
    ensures var c := ChunkLen(off, len); 0 < c <= len && Span(off + c, len - c) + 1 <= Span(off, len)
  {
  }

  lemma TurnLength(fs: Fs, ino: nat, off: nat, data: seq<byte>)
    requires Shape(fs) && IsInode(fs, ino) && data != []
    ensures var c := WriteTurn(fs, ino, off, data).1; c == 0 || c == ChunkLen(off, |data|)
  {
    hide GrowSlot, PutChunk;
  }

  /** A write takes at most three blocks for every block it touches. */
  lemma WriteUses(fs: Fs, ino: nat, off: nat, data: seq<byte>)
    requires Shape(fs) && IsInode(fs, ino)
    ensures var gs := Write(fs, ino, off, data).0; Shape(gs) && FreeData(gs) + 3 * Span(off, |data|) >= FreeData(fs)
  {
    hide WriteLoop, Commit, FreeData;
    LoopUses(fs, ino, off, data);
    if ino < fs.sup.inodesCount && !IsDirMode(Node(fs, ino).mode) {
      SameBits(WriteLoop(fs, ino, off, data).0, Write(fs, ino, off, data).0);
    }
  }

  // ---- gaps between records ----

  /** Bytes of a record beyond its own name: all of a free one. */
  function Slack(b: Block, o: nat): int
    requires o + 8 <= BS
  {
    RecLen(b, o) - if RecIno(b, o) == 0 then 0 else Space(NameLen(b, o))
  }

  /** Some record from `o` on has room for a name of `len` bytes behind its own. */
  predicate HasGap(b: Block, o: nat, len: nat)
    requires o <= BS && Tiles(b, o)
    decreases BS - o
  {
    o < BS && (Slack(b, o) >= Space(len) || HasGap(b, o + RecLen(b, o), len))
  }

  /** The insertion walk succeeds exactly when there is a gap. */
  lemma {:induction false} InsertExact(b: Block, o: nat, ino: u32, name: Name, ftype: byte)
    requires o <= BS && Tiles(b, o) && IsName(name)
    ensures Insert(b, o, ino, name, ftype).Some? <==> HasGap(b, o, |name|)
    decreases BS - o
  {
    hide Fill, Put16;
    if o < BS {
      InsertExact(b, o + RecLen(b, o), ino, name, ftype);
    }
  }

  /** Block `k` of the directory has a gap for the name. */
  ghost predicate GapAt(fs: Fs, d: nat, k: nat, len: nat) {
    k < NDIRECT && Own(fs, d, Direct(k)) != 0 && Tiles(DirBlock(fs, d, k), 0) && HasGap(DirBlock(fs, d, k), 0, len)
  }

  /** Some block of the directory has a gap for a name of `len` bytes. */
  ghost predicate DirGap(fs: Fs, d: nat, len: nat) { exists k: nat :: GapAt(fs, d, k, len) }

  /** A new entry fits: into a gap, or into a new block while a direct pointer and `blocks` free blocks remain. */
  ghost predicate DirRoom(fs: Fs, d: nat, len: nat, blocks: int)
    requires IsInode(fs, d)
  {
    DirGap(fs, d, len) || (Node(fs, d).ptrs[NDIRECT - 1] == 0 && blocks > 0)
  }

  lemma MoreRoom(fs: Fs, d: nat, len: nat, less: int, more: int)
    requires IsInode(fs, d) && DirRoom(fs, d, len, less) && less <= more
    ensures DirRoom(fs, d, len, more)
  {
  }

  /** `add_entry_to_dir` succeeds exactly when there is room. */
  lemma AddExact(fs: Fs, d: nat, ino: u32, name: Name, ftype: byte)
    requires DirOk(fs, d) && Shape(fs) && IsName(name)
    ensures AddFrom(fs, d, 0, ino, name, ftype).1 <==> DirRoom(fs, d, |name|, FreeData(fs))
  {
    hide AddFrom, DirOk, FreeData, Own, NextBlock, GapAt, BlocksOk, Packed;
    DirLayout(fs, d);
    AddFromExact(fs, d, 0, ino, name, ftype);
    NextBlockExact(fs);
    LastPointer(fs, d);
  }

  lemma DirLayout(fs: Fs, d: nat)
    requires DirOk(fs, d)
    ensures Live(fs, d) && BlocksOk(fs, d) && Packed(fs, d)
  {
  }

  /** With blocks packed from the front, a direct pointer is free exactly when the last one is. */
  lemma LastPointer(fs: Fs, d: nat)
    requires Live(fs, d) && Packed(fs, d)
    ensures FreePointer(fs, d, 0) <==> Node(fs, d).ptrs[NDIRECT - 1] == 0
  {
    assert Own(fs, d, Direct(NDIRECT - 1)) == Node(fs, d).ptrs[NDIRECT - 1];
    forall k: nat | k < NDIRECT && Node(fs, d).ptrs[k] == 0
      ensures Node(fs, d).ptrs[NDIRECT - 1] == 0
    {
      assert Own(fs, d, Direct(k)) == 0;
    }
  }

  ghost predicate FreePointer(fs: Fs, d: nat, k: nat)
    requires IsInode(fs, d)
  {
    exists j: nat :: k <= j < NDIRECT && Node(fs, d).ptrs[j] == 0
  }

  lemma {:induction false} AddFromExact(fs: Fs, d: nat, k: nat, ino: u32, name: Name, ftype: byte)
    requires Shape(fs) && Live(fs, d) && BlocksOk(fs, d) && Packed(fs, d) && IsName(name)
    ensures AddFrom(fs, d, k, ino, name, ftype).1 <==>
            (exists j: nat :: j >= k && GapAt(fs, d, j, |name|)) || (FreePointer(fs, d, k) && NextBlock(fs) != 0)
    decreases NDIRECT - k
  {
    hide Insert, Tiles, Distinct, AddBlock, NewDirBlock, NextBlock, SlotData, WriteSlot, HasGap, Packed, BlocksOk;
    if k < NDIRECT {
      assert Own(fs, d, Direct(k)) == Node(fs, d).ptrs[k];
      if Node(fs, d).ptrs[k] == 0 {
        NothingBehind(fs, d, k, |name|);
      } else {
        DirBlockTiles(fs, d, k);
        InsertExact(DirBlock(fs, d, k), 0, ino, name, ftype);
        AddFromExact(fs, d, k + 1, ino, name, ftype);
        assert GapAt(fs, d, k, |name|) <==> HasGap(DirBlock(fs, d, k), 0, |name|);
        assert FreePointer(fs, d, k) <==> FreePointer(fs, d, k + 1);
      }
    }
  }

  lemma NothingBehind(fs: Fs, d: nat, k: nat, len: nat)
    requires Live(fs, d) && Packed(fs, d) && k < NDIRECT && Node(fs, d).ptrs[k] == 0
    ensures forall j: nat :: j >= k ==> !GapAt(fs, d, j, len)
  {
    hide Tiles, HasGap, SlotData;
    assert Own(fs, d, Direct(k)) == 0;
  }

  // ---- create and mkdir ----

  /** The name can be entered: a usable directory without it, and a free inode. */
  ghost predicate Enterable(fs: Fs, p: nat, name: Name)
    requires Shape(fs)
  {
    LiveDir(fs, p) && p < fs.sup.inodesCount && Entry(fs, p, name) == 0 && NextInode(fs) != 0
  }

  lemma SameRoom(fs: Fs, gs: Fs, d: nat, len: nat, blocks: int)
    requires Live(fs, d) && Untouched(fs, gs, d)
    ensures DirRoom(gs, d, len, blocks) <==> DirRoom(fs, d, len, blocks)
  {
    hide Own, SlotData, HasGap, Tiles;
    forall k: nat
      ensures GapAt(gs, d, k, len) <==> GapAt(fs, d, k, len)
    {
      assert SlotData(gs, d, Direct(k)) == SlotData(fs, d, Direct(k));
      assert Own(gs, d, Direct(k)) == Own(fs, d, Direct(k));
    }
  }

  /** `ext2_create` succeeds exactly when the name can be entered and the directory has room. */
  lemma CreateExact(fs: Fs, p: nat, name: Name, mode: u16)
    requires ParentOk(fs, p) && IsName(name)
    ensures Shape(fs)
    ensures CreateIn(fs, p, name, mode).1 != 0 <==> Enterable(fs, p, name) && DirRoom(fs, p, |name|, FreeData(fs))
  {
    hide OwnInv, AddFrom, DirOk, Entry, BornFile, Commit, FindEntry, NextInode, DirRoom, Untouched, FreeData, BlocksOk;
    ParentFacts(fs, p);
    FoundExactly(fs, p, name);
    if FindEntry(fs, p, name) == 0 && NextInode(fs) != 0 {
      var f2 := BornFile(fs, mode);
      BornFileOk(fs, mode);
      ParentStays(fs, f2, p);
      ParentFacts(f2, p);
      BornFileFree(fs, mode);
      if LiveDir(fs, p) {
        UntouchedDir(fs, f2, p);
        AddExact(f2, p, NextInode(fs), name, 1);
        SameRoom(fs, f2, p, |name|, FreeData(fs));
      }
    }
  }

  lemma BornFileFree(fs: Fs, mode: u16)
    requires Shape(fs) && NextInode(fs) != 0
    ensures FreeData(BornFile(fs, mode)) == FreeData(fs) && BornFile(fs, mode).sup.inodesCount == fs.sup.inodesCount
  {
  }

  /** Lookup in a usable directory answers; elsewhere it finds nothing. */
  lemma FoundExactly(fs: Fs, p: nat, name: Name)
    requires ParentOk(fs, p) && IsInode(fs, p)
    ensures FindEntry(fs, p, name) == if LiveDir(fs, p) && p < fs.sup.inodesCount then Entry(fs, p, name) else 0
  {
    hide OwnInv, Entry, LookupFrom, DirOk;
    if LiveDir(fs, p) && p < fs.sup.inodesCount {
      FindEntryIsEntry(fs, p, name);
    }
  }

  /** `ext2_mkdir` succeeds exactly when the name can be entered, a block is free for the new directory, and
      the parent has room while one block less is free. */
  lemma MkdirExact(fs: Fs, p: nat, name: Name, mode: u16)
    requires ParentOk(fs, p) && IsName(name)
    ensures Shape(fs)
    ensures MkdirIn(fs, p, name, mode).1 != 0 <==>
            Enterable(fs, p, name) && FreeData(fs) > 0 && DirRoom(fs, p, |name|, FreeData(fs) - 1)
  {
    hide OwnInv, AddFrom, DirOk, Entry, BornDir, Commit, FindEntry, NextInode, NextBlock, DirRoom, Untouched,
         FreeData, BlocksOk, MkdirCommit;
    ParentFacts(fs, p);
    FoundExactly(fs, p, name);
    NextBlockExact(fs);
    if FindEntry(fs, p, name) == 0 && NextInode(fs) != 0 && NextBlock(fs) != 0 {
      var f3 := BornDir(fs, p, mode);
      BornDirOk(fs, p, mode);
      ParentStays(fs, f3, p);
      ParentFacts(f3, p);
      BornDirFree(fs, p, mode);
      if LiveDir(fs, p) {
        UntouchedDir(fs, f3, p);
        AddExact(f3, p, NextInode(fs), name, 2);
        SameRoom(fs, f3, p, |name|, FreeData(fs) - 1);
      }
    }
  }

  lemma BornDirFree(fs: Fs, p: u32, mode: u16)
    requires OwnInv(fs) && NextInode(fs) != 0 && NextBlock(fs) != 0
    ensures FreeData(BornDir(fs, p, mode)) == FreeData(fs) - 1
            && BornDir(fs, p, mode).sup.inodesCount == fs.sup.inodesCount
  {
    hide OwnInv, BornDir, NextInode, NextBlock, ClearIn;
    OwnInvShape(fs);
    BornDirState(fs, p, mode);
    NextBlockExact(fs);
  }
}
