/** A directory: up to twelve blocks of records. `find_entry_in_dir`,
    `add_entry_to_dir` and the removal loop of `ext2_unlink`. */
module Ext2Dir {
  import opened Numbers
  import opened Bytes
  import opened Ext2State
  import opened Ext2Ownership
  import opened Ext2Bmap
  import opened Ext2Disk
  import opened Ext2File
  import opened Ext2DirBlock

  function DirBlock(fs: Fs, d: nat, k: nat): Block { SlotData(fs, d, Direct(k)) }

  /** Lookup in block `k` of a directory; 0 where there is no such block. */
  function BlockFind(fs: Fs, d: nat, k: nat, n: Name): u32 {
    if Own(fs, d, Direct(k)) != 0 then Find(DirBlock(fs, d, k), 0, n) else 0
  }

  /** Lookup from block `k` on; stops at the first missing block. */
  function EntryFrom(fs: Fs, d: nat, k: nat, n: Name): u32
    decreases NDIRECT - k
  {
    if k >= NDIRECT || Own(fs, d, Direct(k)) == 0 then 0
    else if BlockFind(fs, d, k, n) != 0 then BlockFind(fs, d, k, n)
    else EntryFrom(fs, d, k + 1, n)
  }

  /** The inode a directory binds a name to, or 0. */
  function Entry(fs: Fs, d: nat, n: Name): u32 { EntryFrom(fs, d, 0, n) }

  /** The loop of `find_entry_in_dir`, with its double bound on the offset. */
  function LookupFrom(fs: Fs, d: nat, k: nat, n: Name): u32
    requires IsInode(fs, d)
    decreases NDIRECT - k
  {
    if k >= NDIRECT || Node(fs, d).ptrs[k] == 0 then 0
    else
      var r := FindUpTo(DirBlock(fs, d, k), 0, Min(Node(fs, d).size, BS), n);
      if r != 0 then r else LookupFrom(fs, d, k + 1, n)
  }

  /** `find_entry_in_dir`. */
  function FindEntry(fs: Fs, d: nat, n: Name): u32
    requires IsInode(fs, d)
  {
    if d >= fs.sup.inodesCount || !IsDirMode(Node(fs, d).mode) then 0 else LookupFrom(fs, d, 0, n)
  }

  // ---- well-formed directories ----

  ghost predicate BlocksOk(fs: Fs, d: nat) {
    forall k: nat :: Own(fs, d, Direct(k)) != 0 ==> Tiles(DirBlock(fs, d, k), 0) && Distinct(DirBlock(fs, d, k), 0)
  }

  /** Blocks are filled from the front. */
  ghost predicate Packed(fs: Fs, d: nat) {
    && Own(fs, d, Direct(0)) != 0
    && (forall k: nat, j: nat :: j < k && Own(fs, d, Direct(k)) != 0 ==> Own(fs, d, Direct(j)) != 0)
  }

  /** A name occurs in at most one block. */
  ghost predicate NamesApart(fs: Fs, d: nat) {
    forall i: nat, j: nat, n: Name :: i != j && BlockFind(fs, d, i, n) != 0 ==> BlockFind(fs, d, j, n) == 0
  }

  /** The recorded size is at least one block and at most the blocks that are there. */
  ghost predicate SizeOk(fs: Fs, d: nat)
    requires IsInode(fs, d)
  {
    && BS <= Node(fs, d).size <= NDIRECT * BS
    && (forall k: nat :: k < NDIRECT && Own(fs, d, Direct(k)) == 0 ==> Node(fs, d).size <= k * BS)
  }

  ghost predicate DirOk(fs: Fs, d: nat) {
    && LiveDir(fs, d) && SizeOk(fs, d)
    && BlocksOk(fs, d) && Packed(fs, d) && NamesApart(fs, d)
  }

  /** On a well-formed directory the kernel's lookup is the abstract one. */
  lemma FindEntryIsEntry(fs: Fs, d: nat, n: Name)
    requires DirOk(fs, d) && d < fs.sup.inodesCount
    ensures FindEntry(fs, d, n) == Entry(fs, d, n)
  {
    LookupIsEntry(fs, d, 0, n);
  }

  lemma {:induction false} LookupIsEntry(fs: Fs, d: nat, k: nat, n: Name)
    requires LiveDir(fs, d) && Node(fs, d).size >= BS
    ensures LookupFrom(fs, d, k, n) == EntryFrom(fs, d, k, n)
    decreases NDIRECT - k
  {
    if k < NDIRECT {
      assert Own(fs, d, Direct(k)) == Node(fs, d).ptrs[k];
      LookupIsEntry(fs, d, k + 1, n);
    }
  }

  lemma {:induction false} EntryFromHit(fs: Fs, d: nat, i: nat, k: nat, n: Name)
    requires Packed(fs, d) && NamesApart(fs, d) && i <= k && BlockFind(fs, d, k, n) != 0
    ensures EntryFrom(fs, d, i, n) == BlockFind(fs, d, k, n)
    decreases k - i
  {
    hide BlockFind;
    BlockFindOwned(fs, d, k, n);
    if i < k {
      EntryFromHit(fs, d, i + 1, k, n);
    }
  }

  lemma BlockFindOwned(fs: Fs, d: nat, k: nat, n: Name)
    ensures BlockFind(fs, d, k, n) != 0 ==> Own(fs, d, Direct(k)) != 0 && k < NDIRECT
  {
  }

  lemma {:induction false} EntryFromMiss(fs: Fs, d: nat, i: nat, n: Name)
    requires forall k: nat :: BlockFind(fs, d, k, n) == 0
    ensures EntryFrom(fs, d, i, n) == 0
    decreases NDIRECT - i
  {
    if i < NDIRECT {
      EntryFromMiss(fs, d, i + 1, n);
    }
  }

  /** A directory entry sits in exactly one block. */
  lemma EntryBlock(fs: Fs, d: nat, n: Name)
    requires Packed(fs, d) && NamesApart(fs, d)
    ensures Entry(fs, d, n) != 0 ==> exists k: nat :: BlockFind(fs, d, k, n) == Entry(fs, d, n)
    ensures forall k: nat :: BlockFind(fs, d, k, n) != 0 ==> BlockFind(fs, d, k, n) == Entry(fs, d, n)
  {
    hide BlockFind, Packed, NamesApart;
    forall k: nat | BlockFind(fs, d, k, n) != 0
      ensures BlockFind(fs, d, k, n) == Entry(fs, d, n)
    {
      EntryFromHit(fs, d, 0, k, n);
    }
    if forall k: nat :: BlockFind(fs, d, k, n) == 0 {
      EntryFromMiss(fs, d, 0, n);
    }
  }

  /** Changing what one block says about one name changes what the directory says about that name only. */
  lemma EntryChange(fs: Fs, gs: Fs, d: nat, k: nat, name: Name, v: u32)
    requires Packed(fs, d) && NamesApart(fs, d) && Packed(gs, d) && NamesApart(gs, d)
    requires forall i: nat, n: Name ::
               BlockFind(gs, d, i, n) == if i == k && n == name then v else BlockFind(fs, d, i, n)
    requires forall i: nat :: i != k ==> BlockFind(fs, d, i, name) == 0
    ensures forall n: Name :: Entry(gs, d, n) == if n == name then v else Entry(fs, d, n)
  {
    hide BlockFind, Packed, NamesApart, Entry;
    forall n: Name
      ensures Entry(gs, d, n) == if n == name then v else Entry(fs, d, n)
    {
      EntryBlock(fs, d, n);
      EntryBlock(gs, d, n);
      assert BlockFind(gs, d, k, n) == if n == name then v else BlockFind(fs, d, k, n);
      if n != name && Entry(fs, d, n) != 0 {
        var i: nat :| BlockFind(fs, d, i, n) == Entry(fs, d, n);
        assert BlockFind(gs, d, i, n) == Entry(fs, d, n);
      }
      if Entry(gs, d, n) != 0 {
        var i: nat :| BlockFind(gs, d, i, n) == Entry(gs, d, n);
        assert n != name ==> BlockFind(fs, d, i, n) == Entry(gs, d, n);
      }
    }
  }

  // ---- add_entry_to_dir ----

  /** A fresh directory block with a single record spanning it. */
  function NewDirBlock(ino: u32, name: Name, ftype: byte): Block
    requires IsName(name)
  {
    Fill(Zeros(BS), 0, BS, ino, name, ftype)
  }

  /** Extend a directory by block `k`: allocate it, account for it, fill it, write the inode through. */
  function AddBlock(fs: Fs, d: nat, k: nat, blk: Block): (gs: Fs)
    requires Shape(fs) && IsInode(fs, d) && k < NDIRECT
    ensures Shape(gs) && |gs.inodes| == |fs.inodes|
  {
    hide GrowDirect;
    var f1 := GrowDirect(fs, d, k).0;
    var f2 := WithNode(f1, d, Node(f1, d).(size := Add32(Node(f1, d).size, BS)));
    GrowDirectSize(fs, d, k);
    SyncInodeFrame(WriteSlot(f2, d, Direct(k), blk), d);
    SyncInode(WriteSlot(f2, d, Direct(k), blk), d)
  }

  lemma GrowDirectSize(fs: Fs, d: nat, k: nat)
    requires Shape(fs) && IsInode(fs, d) && k < NDIRECT
    ensures |GrowDirect(fs, d, k).0.inodes| == |fs.inodes|
  {
  }

  lemma DirBlockTiles(fs: Fs, d: nat, k: nat)
    requires Live(fs, d) && BlocksOk(fs, d) && k < NDIRECT && Node(fs, d).ptrs[k] != 0
    ensures Own(fs, d, Direct(k)) != 0 && Tiles(DirBlock(fs, d, k), 0)
  {
    hide Tiles, Distinct;
  }

  function AddFrom(fs: Fs, d: nat, k: nat, ino: u32, name: Name, ftype: byte): (r: (Fs, bool))
    requires Shape(fs) && Live(fs, d) && BlocksOk(fs, d) && IsName(name)
    ensures Shape(r.0) && |r.0.inodes| == |fs.inodes|
    decreases NDIRECT - k
  {
    hide Insert, Tiles, Distinct, AddBlock, NewDirBlock, NextBlock, Own, SlotData, WriteSlot, IsName, BlocksOk;
    if k >= NDIRECT then (fs, false)
    else if Node(fs, d).ptrs[k] == 0 then
      if NextBlock(fs) == 0 then (fs, false) else (AddBlock(fs, d, k, NewDirBlock(ino, name, ftype)), true)
    else
      DirBlockTiles(fs, d, k);
      match Insert(DirBlock(fs, d, k), 0, ino, name, ftype)
      case Some(b) => (WriteSlot(fs, d, Direct(k), b), true)
      case None => AddFrom(fs, d, k + 1, ino, name, ftype)
  }

  /** `add_entry_to_dir`: the flag is false when it returns -1. */
  function AddEntry(fs: Fs, d: nat, ino: u32, name: Name, ftype: byte): (r: (Fs, bool))
    requires Shape(fs) && IsName(name) && Live(fs, d) && (LiveDir(fs, d) ==> BlocksOk(fs, d))
    ensures Shape(r.0) && |r.0.inodes| == |fs.inodes|
  {
    if d == 0 || d >= fs.sup.inodesCount || !IsDirMode(Node(fs, d).mode) then (fs, false)
    else AddFrom(fs, d, 0, ino, name, ftype)
  }

  /** The directory `d` changed its answer for `name` to `v` and for nothing else, and only `d` changed. */
  ghost predicate EntrySet(fs: Fs, gs: Fs, d: nat, name: Name, v: u32) {
    && OwnInv(gs) && OthersSame(fs, gs, d) && DirOk(gs, d) && IsInode(fs, d)
    && Node(gs, d) == Node(fs, d).(ptrs := Node(gs, d).ptrs, size := Node(gs, d).size, blocks := Node(gs, d).blocks)
    && (forall n: Name :: Entry(gs, d, n) == if n == name then v else Entry(fs, d, n))
  }

  /** Rewriting one block so that only `name` is affected. */
  lemma BlockRewritten(fs: Fs, d: nat, k: nat, c: Block, name: Name, v: u32)
    requires OwnInv(fs) && DirOk(fs, d) && Own(fs, d, Direct(k)) != 0
    requires Tiles(c, 0) && Distinct(c, 0) && Find(c, 0, name) == v
    requires forall n: Name :: n != name ==> Find(c, 0, n) == Find(DirBlock(fs, d, k), 0, n)
    requires forall i: nat :: i != k ==> BlockFind(fs, d, i, name) == 0
    ensures EntrySet(fs, WriteSlot(fs, d, Direct(k), c), d, name, v)
  {
    hide Find, Tiles, Distinct, Marked, Unshared, FreedClear, CountsOk, Own, WriteSlot, EntryFrom;
    var gs := WriteSlot(fs, d, Direct(k), c);
    WriteSlotFrame(fs, d, Direct(k), c);
    forall i: nat, n: Name
      ensures BlockFind(gs, d, i, n) == if i == k && n == name then v else BlockFind(fs, d, i, n)
    {
      assert i != k ==> SlotData(gs, d, Direct(i)) == SlotData(fs, d, Direct(i));
    }
    assert NamesApart(gs, d);
    forall i: nat | Own(gs, d, Direct(i)) != 0
      ensures Tiles(DirBlock(gs, d, i), 0) && Distinct(DirBlock(gs, d, i), 0)
    {
      assert i != k ==> SlotData(gs, d, Direct(i)) == SlotData(fs, d, Direct(i));
    }
    assert Node(gs, d) == Node(fs, d);
    EntryChange(fs, gs, d, k, name, v);
  }

  lemma AbsentEverywhere(fs: Fs, d: nat, name: Name)
    requires DirOk(fs, d) && Entry(fs, d, name) == 0
    ensures forall i: nat :: BlockFind(fs, d, i, name) == 0
  {
    hide BlockFind, Packed, NamesApart, Entry, BlocksOk;
    EntryBlock(fs, d, name);
  }

  /** The single record of a fresh block. */
  lemma NewDirBlockOk(ino: u32, name: Name, ftype: byte)
    requires IsName(name) && ino != 0
    ensures var c := NewDirBlock(ino, name, ftype);
            && Tiles(c, 0) && Distinct(c, 0)
            && (forall n: Name :: Find(c, 0, n) == if n == name then ino else 0)
  {
    var c := NewDirBlock(ino, name, ftype);
    FillFields(Zeros(BS), 0, BS, ino, name, ftype);
    assert forall n: Name :: Find(c, BS, n) == 0;
    PushRecord(c, 0);
  }

  /** Extending a directory by its first missing block. */
  lemma BlockAdded(fs: Fs, d: nat, k: nat, c: Block)
    requires OwnInv(fs) && DirOk(fs, d) && k < NDIRECT && Own(fs, d, Direct(k)) == 0 && NextBlock(fs) != 0
    ensures var gs := AddBlock(fs, d, k, c);
            && OwnInv(gs) && OthersSame(fs, gs, d) && Own(gs, d, Direct(k)) != 0 && SlotData(gs, d, Direct(k)) == c
            && (forall t: Slot :: t != Direct(k) ==> Own(gs, d, t) == Own(fs, d, t))
            && (forall i: nat :: Own(fs, d, Direct(i)) != 0 ==>
                SlotData(gs, d, Direct(i)) == SlotData(fs, d, Direct(i)))
            && Node(gs, d) == Node(fs, d).(ptrs := Node(gs, d).ptrs, size := Add32(Node(fs, d).size, BS),
                                           blocks := Node(gs, d).blocks)
  {
    hide BlocksOk, Packed, NamesApart, Marked, Unshared, FreedClear, CountsOk, SyncInode, WriteSlot, GrowDirect,
         SlotData;
    LiveDirect(fs, d, k);
    GrowDirectGains(fs, d, k);
    var (f1, nb) := GrowDirect(fs, d, k);
    GainsKeepsInv(fs, f1, d, Direct(k), nb);
    var f2 := WithNode(f1, d, Node(f1, d).(size := Add32(Node(f1, d).size, BS)));
    MetaFrame(f1, f2);
    WriteSlotFrame(f2, d, Direct(k), c);
    var f3 := WriteSlot(f2, d, Direct(k), c);
    SyncInodeFrame(f3, d);
    MetaFrame(f3, SyncInode(f3, d));
  }

  lemma LiveDirect(fs: Fs, d: nat, k: nat)
    requires Live(fs, d) && k < NDIRECT
    ensures Own(fs, d, Direct(k)) == Node(fs, d).ptrs[k]
  {
  }

  lemma SyncInodeFrame(fs: Fs, ino: nat)
    requires Shape(fs) && IsInode(fs, ino)
    ensures var gs := SyncInode(fs, ino);
            && gs == fs.(disk := gs.disk) && |gs.disk| == |fs.disk|
            && (forall x :: fs.sup.firstData <= x < |fs.disk| ==> gs.disk[x] == fs.disk[x])
  {
    InodeInTable(fs.sup.blocksCount, fs.sup.inodesCount, ino);
  }

  /** The new block answers for `name` only. */
  lemma BlockAddedEntry(fs: Fs, d: nat, k: nat, ino: u32, name: Name, ftype: byte)
    requires OwnInv(fs) && DirOk(fs, d) && k < NDIRECT && Own(fs, d, Direct(k)) == 0 && NextBlock(fs) != 0
    requires (forall j: nat :: j < k ==> Own(fs, d, Direct(j)) != 0)
    requires IsName(name) && ino != 0 && Entry(fs, d, name) == 0
    ensures EntrySet(fs, AddBlock(fs, d, k, NewDirBlock(ino, name, ftype)), d, name, ino)
  {
    hide Find, Tiles, Distinct, Marked, Unshared, FreedClear, CountsOk, Own, AddBlock, EntryFrom, SlotData, NewDirBlock;
    var c := NewDirBlock(ino, name, ftype);
    var gs := AddBlock(fs, d, k, c);
    NewDirBlockOk(ino, name, ftype);
    BlockAdded(fs, d, k, c);
    AbsentEverywhere(fs, d, name);
    forall i: nat, n: Name
      ensures BlockFind(gs, d, i, n) == if i == k && n == name then ino else BlockFind(fs, d, i, n)
    {
    }
    assert NamesApart(gs, d);
    assert BlocksOk(gs, d);
    assert Packed(gs, d);
    assert SizeOk(gs, d);
    EntryChange(fs, gs, d, k, name, ino);
  }

  /** `add_entry_to_dir` of an absent name: on success the directory binds it and nothing else
      changed; on failure nothing changed at all. */
  lemma {:induction false} AddFromOk(fs: Fs, d: nat, k: nat, ino: u32, name: Name, ftype: byte)
    requires OwnInv(fs) && DirOk(fs, d) && IsName(name) && ino != 0 && Entry(fs, d, name) == 0
    requires (forall j: nat :: j < k && j < NDIRECT ==> Own(fs, d, Direct(j)) != 0)
    ensures var (gs, ok) := AddFrom(fs, d, k, ino, name, ftype);
            if ok then EntrySet(fs, gs, d, name, ino) else gs == fs
    decreases NDIRECT - k
  {
    hide OwnInv, BlocksOk, Packed, NamesApart, Own, AddBlock, EntrySet, SlotData, NewDirBlock, WriteSlot, Insert,
         EntryFrom;
    DirFacts(fs, d);
    if k < NDIRECT {
      LiveDirect(fs, d, k);
      if Node(fs, d).ptrs[k] == 0 {
        if NextBlock(fs) != 0 {
          BlockAddedEntry(fs, d, k, ino, name, ftype);
        }
      } else {
        InsertStep(fs, d, k, ino, name, ftype);
        AddFromOk(fs, d, k + 1, ino, name, ftype);
      }
    }
  }

  lemma DirFacts(fs: Fs, d: nat)
    requires OwnInv(fs) && DirOk(fs, d)
    ensures Shape(fs) && Live(fs, d) && BlocksOk(fs, d)
    ensures forall k: nat :: Own(fs, d, Direct(k)) != 0 ==> Tiles(DirBlock(fs, d, k), 0)
  {
  }

  lemma InsertStep(fs: Fs, d: nat, k: nat, ino: u32, name: Name, ftype: byte)
    requires OwnInv(fs) && DirOk(fs, d) && IsName(name) && ino != 0 && Entry(fs, d, name) == 0
    requires Own(fs, d, Direct(k)) != 0
    ensures Tiles(DirBlock(fs, d, k), 0)
    ensures var r := Insert(DirBlock(fs, d, k), 0, ino, name, ftype);
            r.Some? ==> EntrySet(fs, WriteSlot(fs, d, Direct(k), r.value), d, name, ino)
  {
    hide Insert, EntrySet, WriteSlot, OwnInv, EntryFrom;
    AbsentEverywhere(fs, d, name);
    assert BlockFind(fs, d, k, name) == 0;
    var b := DirBlock(fs, d, k);
    InsertOk(b, 0, ino, name, ftype);
    var r := Insert(b, 0, ino, name, ftype);
    if r.Some? {
      BlockRewritten(fs, d, k, r.value, name, ino);
    }
  }

  // ---- the removal loop of ext2_unlink ----

  /** Remove `name` from the first block at or after `k` that holds it; the inode it named, or 0. */
  function RemoveFrom(fs: Fs, d: nat, k: nat, name: Name): (r: (Fs, u32))
    requires Shape(fs) && Live(fs, d) && BlocksOk(fs, d)
    ensures Shape(r.0) && r.0 == fs.(disk := r.0.disk)
    decreases NDIRECT - k
  {
    if k >= NDIRECT then (fs, 0)
    else if Node(fs, d).ptrs[k] == 0 then RemoveFrom(fs, d, k + 1, name)
    else
      assert Own(fs, d, Direct(k)) != 0;
      match Remove(DirBlock(fs, d, k), name)
      case Gone(b, ino) => (WriteSlot(fs, d, Direct(k), b), ino)
      case Absent => RemoveFrom(fs, d, k + 1, name)
  }

  /** Removing finds the name exactly when lookup does, and unbinds it and nothing else. */
  lemma {:induction false} RemoveFromOk(fs: Fs, d: nat, k: nat, name: Name)
    requires OwnInv(fs) && DirOk(fs, d) && forall j: nat :: j < k ==> BlockFind(fs, d, j, name) == 0
    ensures var (gs, ino) := RemoveFrom(fs, d, k, name);
            && ino == Entry(fs, d, name)
            && (if ino != 0 then EntrySet(fs, gs, d, name, 0) else gs == fs)
    decreases NDIRECT - k
  {
    hide OwnInv, BlocksOk, Packed, NamesApart, Own, EntrySet, SlotData, WriteSlot, Remove, EntryFrom, Find;
    DirFacts(fs, d);
    if k >= NDIRECT {
      NoBlockPast(fs, d, k, name);
      EntryFromMiss(fs, d, 0, name);
    } else {
      LiveDirect(fs, d, k);
      if Node(fs, d).ptrs[k] == 0 {
        assert BlockFind(fs, d, k, name) == 0;
        RemoveFromOk(fs, d, k + 1, name);
      } else {
        RemoveStep(fs, d, k, name);
        if Remove(DirBlock(fs, d, k), name).Absent? {
          RemoveFromOk(fs, d, k + 1, name);
        }
      }
    }
  }

  lemma NoBlockPast(fs: Fs, d: nat, k: nat, name: Name)
    requires k >= NDIRECT && forall j: nat :: j < k ==> BlockFind(fs, d, j, name) == 0
    ensures forall j: nat :: BlockFind(fs, d, j, name) == 0
  {
  }

  lemma RemoveStep(fs: Fs, d: nat, k: nat, name: Name)
    requires OwnInv(fs) && DirOk(fs, d) && Own(fs, d, Direct(k)) != 0
    ensures Tiles(DirBlock(fs, d, k), 0)
    ensures var r := Remove(DirBlock(fs, d, k), name);
            if r.Gone? then r.ino != 0 && r.ino == Entry(fs, d, name)
                            && EntrySet(fs, WriteSlot(fs, d, Direct(k), r.block), d, name, 0)
            else BlockFind(fs, d, k, name) == 0
  {
    hide Remove, EntrySet, WriteSlot, OwnInv, EntryFrom, Entry;
    var b := DirBlock(fs, d, k);
    RemoveOk(b, name);
    var r := Remove(b, name);
    if r.Gone? {
      assert BlockFind(fs, d, k, name) == r.ino;
      EntryBlock(fs, d, name);
      BlockRewritten(fs, d, k, r.block, name, 0);
    }
  }

  // ---- the directory as a finite map ----

  function BlockNames(fs: Fs, d: nat, k: nat): set<Name>
    requires BlocksOk(fs, d)
  {
    if Own(fs, d, Direct(k)) != 0 then Names(DirBlock(fs, d, k), 0) else {}
  }

  function NamesFrom(fs: Fs, d: nat, k: nat): set<Name>
    requires BlocksOk(fs, d)
    decreases NDIRECT - k
  {
    if k >= NDIRECT then {} else BlockNames(fs, d, k) + NamesFrom(fs, d, k + 1)
  }

  lemma BlockNamesFind(fs: Fs, d: nat, k: nat, n: Name)
    requires BlocksOk(fs, d)
    ensures n in BlockNames(fs, d, k) <==> BlockFind(fs, d, k, n) != 0
  {
    if Own(fs, d, Direct(k)) != 0 {
      NamesFind(DirBlock(fs, d, k), 0, n);
    }
  }

  lemma {:induction false} NamesFromFind(fs: Fs, d: nat, k: nat, n: Name)
    requires BlocksOk(fs, d)
    ensures n in NamesFrom(fs, d, k) <==> exists i: nat :: i >= k && BlockFind(fs, d, i, n) != 0
    decreases NDIRECT - k
  {
    hide BlocksOk, BlockFind, BlockNames;
    if k < NDIRECT {
      NamesFromFind(fs, d, k + 1, n);
      BlockNamesFind(fs, d, k, n);
    } else {
      forall i: nat
        ensures i >= k ==> BlockFind(fs, d, i, n) == 0
      {
        BlockFindOwned(fs, d, i, n);
      }
    }
  }

  /** The finite map a directory stands for. */
  function DirMap(fs: Fs, d: nat): map<Name, u32>
    requires BlocksOk(fs, d)
  {
    map n | n in NamesFrom(fs, d, 0) :: Entry(fs, d, n)
  }

  lemma DirMapEntry(fs: Fs, d: nat, n: Name)
    requires DirOk(fs, d)
    ensures n in DirMap(fs, d) <==> Entry(fs, d, n) != 0
    ensures n in DirMap(fs, d) ==> DirMap(fs, d)[n] == Entry(fs, d, n)
  {
    NamesFromFind(fs, d, 0, n);
    EntryBlock(fs, d, n);
  }
}
