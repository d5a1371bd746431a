/** Mapping a file's logical blocks to disk blocks, allocating on the way
    (`ext2_bmap_alloc`): direct, single indirect and double indirect. */
module Ext2Bmap {
  import opened Bytes
  import opened Ext2State
  import opened Ext2Ownership

  /** The slot that holds logical block `bi` of a file. */
  function DataSlot(bi: nat): Slot {
    if bi < NDIRECT then Direct(bi)
    else if bi < NDIRECT + PTRS then SingleEntry(bi - NDIRECT)
    else Level2Entry((bi - NDIRECT - PTRS) / PTRS, (bi - NDIRECT - PTRS) % PTRS)
  }

  lemma DataSlotInjective(x: nat, y: nat)
    requires DataSlot(x) == DataSlot(y)
    ensures x == y
  {
  }

  /** `block[k] = nb; blocks += 2` and `blocks += 2`. */
  function AddPtr(n: Inode, k: nat, nb: u32): Inode
    requires k < 15
  {
    n.(ptrs := n.ptrs[k := nb], blocks := Add32(n.blocks, 2))
  }

  function AddSectors(n: Inode): Inode { n.(blocks := Add32(n.blocks, 2)) }

  function SetEntry(disk: seq<Block>, t: nat, k: nat, v: u32): seq<Block>
    requires k < PTRS
  {
    if t < |disk| then disk[t := Put32(disk[t], 4 * k, v)] else disk
  }

  function ClearDisk(disk: seq<Block>, t: nat): seq<Block> {
    if t < |disk| then disk[t := Zeros(BS)] else disk
  }

  /** Direct pointer `k`, allocated if missing. */
  function GrowDirect(fs: Fs, ino: nat, k: nat): (r: (Fs, nat))
    requires Shape(fs) && IsInode(fs, ino) && k < NDIRECT
    ensures Shape(r.0) && IsInode(r.0, ino)
  {
    if Node(fs, ino).ptrs[k] != 0 then (fs, Node(fs, ino).ptrs[k])
    else
      var nb := NextBlock(fs);
      if nb == 0 then (fs, 0)
      else (WithNode(MarkBlock(fs, nb), ino, AddPtr(Node(fs, ino), k, nb)), nb)
  }

  /** Table pointer `k` (12 or 13), allocated and zeroed if missing. */
  function GrowTable(fs: Fs, ino: nat, k: nat): (r: (Fs, nat))
    requires Shape(fs) && IsInode(fs, ino) && k < 15
    ensures Shape(r.0) && IsInode(r.0, ino)
  {
    if Node(fs, ino).ptrs[k] != 0 then (fs, Node(fs, ino).ptrs[k])
    else
      var nb := NextBlock(fs);
      if nb == 0 then (fs, 0)
      else (WithNode(MarkBlock(fs, nb).(disk := ClearDisk(fs.disk, nb)), ino, AddPtr(Node(fs, ino), k, nb)), nb)
  }

  /** Entry `k` of table `t`, allocated if missing; `zero` clears the new block because it is a table itself. */
  function GrowEntry(fs: Fs, ino: nat, t: nat, k: nat, zero: bool): (r: (Fs, nat))
    requires Shape(fs) && IsInode(fs, ino) && k < PTRS
    ensures Shape(r.0) && IsInode(r.0, ino)
  {
    if TableAt(fs.disk, t, k) != 0 then (fs, TableAt(fs.disk, t, k))
    else
      var nb := NextBlock(fs);
      if nb == 0 then (fs, 0)
      else
        var disk := SetEntry(if zero then ClearDisk(fs.disk, nb) else fs.disk, t, k, nb);
        (WithNode(MarkBlock(fs, nb).(disk := disk), ino, AddSectors(Node(fs, ino))), nb)
  }

  /** Data pointer `k` of the single indirect table. */
  function GrowSingle(fs: Fs, ino: nat, k: nat): (r: (Fs, nat))
    requires Shape(fs) && IsInode(fs, ino) && k < PTRS
    ensures Shape(r.0) && IsInode(r.0, ino)
  {
    var (f1, t) := GrowTable(fs, ino, 12);
    if t == 0 then (f1, 0) else GrowEntry(f1, ino, t, k, false)
  }

  /** L2 table `a` of the double indirect tree. */
  function GrowLevel2(fs: Fs, ino: nat, a: nat): (r: (Fs, nat))
    requires Shape(fs) && IsInode(fs, ino) && a < PTRS
    ensures Shape(r.0) && IsInode(r.0, ino)
  {
    var (f1, t) := GrowTable(fs, ino, 13);
    if t == 0 then (f1, 0) else GrowEntry(f1, ino, t, a, true)
  }

  /** Data pointer `b` of L2 table `a`. */
  function GrowDouble(fs: Fs, ino: nat, a: nat, b: nat): (r: (Fs, nat))
    requires Shape(fs) && IsInode(fs, ino) && a < PTRS && b < PTRS
    ensures Shape(r.0) && IsInode(r.0, ino)
  {
    var (f2, l2) := GrowLevel2(fs, ino, a);
    if l2 == 0 then (f2, 0) else GrowEntry(f2, ino, l2, b, false)
  }

  predicate SlotOk(s: Slot) {
    match s
    case Direct(i) => i < NDIRECT
    case SingleEntry(k) => k < PTRS
    case Level2Entry(a, b) => a < PTRS && b < PTRS
    case _ => false
  }

  /** The block in a data slot, allocated with its tables if missing. */
  function GrowSlot(fs: Fs, ino: nat, s: Slot): (r: (Fs, nat))
    requires Shape(fs) && IsInode(fs, ino) && SlotOk(s)
    ensures Shape(r.0) && IsInode(r.0, ino)
  {
    match s
    case Direct(i) => GrowDirect(fs, ino, i)
    case SingleEntry(k) => GrowSingle(fs, ino, k)
    case Level2Entry(a, b) => GrowDouble(fs, ino, a, b)
  }

  lemma DataSlotOk(bi: nat)
    ensures bi < MAX_FILE_BLOCKS <==> SlotOk(DataSlot(bi))
  {
  }

  /** `ext2_bmap_alloc`: the disk block of logical block `bi`, or 0. */
  function BmapAlloc(fs: Fs, ino: nat, bi: nat): (r: (Fs, nat))
    requires Shape(fs) && IsInode(fs, ino)
    ensures Shape(r.0) && IsInode(r.0, ino)
  {
    DataSlotOk(bi);
    if bi < MAX_FILE_BLOCKS then GrowSlot(fs, ino, DataSlot(bi)) else (fs, 0)
  }

  /** The contents behind a slot. */
  function SlotData(fs: Fs, ino: nat, s: Slot): Block {
    var r := Own(fs, ino, s);
    if 0 < r < |fs.disk| then fs.disk[r] else Zeros(BS)
  }

  /** What an operation on the data of one inode never touches: the sizes and bitmaps of inodes,
      every pointer that already existed, every other inode with its contents, and the metadata
      area of the disk. */
  ghost predicate OnlyInode(fs: Fs, gs: Fs, ino: nat)
    requires Shape(fs) && IsInode(fs, ino)
  {
    && Shape(gs)
    && gs.sup == fs.sup.(freeBlocks := gs.sup.freeBlocks)
    && gs.inodeBits == fs.inodeBits
    && |gs.inodes| == |fs.inodes| && |gs.disk| == |fs.disk|
    && (forall j: nat, t: Slot :: Own(fs, j, t) != 0 ==> Own(gs, j, t) == Own(fs, j, t))
    && (forall j: nat, t: Slot :: j != ino ==> Own(gs, j, t) == Own(fs, j, t))
    && (forall j: nat :: IsInode(fs, j) && j != ino ==> Node(gs, j) == Node(fs, j))
    && Node(gs, ino) == Node(fs, ino).(ptrs := Node(gs, ino).ptrs, blocks := Node(gs, ino).blocks)
    && (forall j: nat, t: Slot :: IsData(t) && j != ino ==> SlotData(gs, j, t) == SlotData(fs, j, t))
    && (forall x :: 0 <= x < fs.sup.firstData ==> gs.disk[x] == fs.disk[x])
  }

  /** Growing an inode moreover keeps the contents it already had. */
  ghost predicate Grown(fs: Fs, gs: Fs, ino: nat)
    requires Shape(fs) && IsInode(fs, ino)
  {
    && OnlyInode(fs, gs, ino)
    && (forall t: Slot :: IsData(t) && Own(fs, ino, t) != 0 ==> SlotData(gs, ino, t) == SlotData(fs, ino, t))
  }

  lemma OnlyInodeTransitive(fs: Fs, gs: Fs, hs: Fs, ino: nat)
    requires Shape(fs) && IsInode(fs, ino) && OnlyInode(fs, gs, ino) && OnlyInode(gs, hs, ino)
    ensures OnlyInode(fs, hs, ino)
  {
    forall j: nat, t: Slot | Own(fs, j, t) != 0
      ensures Own(hs, j, t) == Own(fs, j, t)
    {
      assert Own(gs, j, t) == Own(fs, j, t);
    }
  }

  lemma GrownTransitive(fs: Fs, gs: Fs, hs: Fs, ino: nat)
    requires Shape(fs) && IsInode(fs, ino) && Grown(fs, gs, ino) && Grown(gs, hs, ino)
    ensures Grown(fs, hs, ino)
  {
    OnlyInodeTransitive(fs, gs, hs, ino);
    forall t: Slot | IsData(t) && Own(fs, ino, t) != 0
      ensures SlotData(hs, ino, t) == SlotData(fs, ino, t)
    {
      assert Own(gs, ino, t) == Own(fs, ino, t);
    }
  }

  /** Freshly allocated blocks belong to nobody. */
  lemma FreshUnowned(fs: Fs, nb: nat)
    requires OwnInv(fs) && nb < fs.sup.blocksCount && !fs.blockBits[nb]
    ensures forall j: nat, t: Slot :: Own(fs, j, t) != 0 ==> Own(fs, j, t) != nb
  {
  }

  lemma GrowDirectGains(fs: Fs, ino: nat, k: nat)
    requires OwnInv(fs) && Live(fs, ino) && k < NDIRECT && Node(fs, ino).ptrs[k] == 0 && NextBlock(fs) != 0
    ensures var (gs, nb) := GrowDirect(fs, ino, k); Gains(fs, gs, ino, Direct(k), nb) && Grown(fs, gs, ino)
  {
    hide Own, NextBlock;
    var (gs, nb) := GrowDirect(fs, ino, k);
    NextIsFree(fs);
    GrowDirectOwn(fs, ino, k, ino, Direct(k));
    forall j: nat, t: Slot
      ensures Own(gs, j, t) == if j == ino && t == Direct(k) then nb else Own(fs, j, t)
    {
      GrowDirectOwn(fs, ino, k, j, t);
    }
  }

  lemma NextIsFree(fs: Fs)
    requires Shape(fs) && NextBlock(fs) != 0
    ensures fs.sup.firstData <= NextBlock(fs) < fs.sup.blocksCount && !fs.blockBits[NextBlock(fs)]
  {
  }

  lemma GrowDirectOwn(fs: Fs, ino: nat, k: nat, j: nat, t: Slot)
    requires Shape(fs) && Live(fs, ino) && k < NDIRECT && Node(fs, ino).ptrs[k] == 0 && NextBlock(fs) != 0
    ensures var (gs, nb) := GrowDirect(fs, ino, k);
            Own(gs, j, t) == if j == ino && t == Direct(k) then nb else Own(fs, j, t)
    ensures Own(fs, ino, Direct(k)) == 0
  {
    hide NextBlock;
    var gs := GrowDirect(fs, ino, k).0;
    if IsInode(fs, j) {
      assert j != ino ==> Node(gs, j) == Node(fs, j);
    }
  }

  /** A slot reads the same on two disks that agree on the tables it goes through. */
  lemma RefFrame(n: Inode, d: seq<Block>, e: seq<Block>, t: Slot)
    requires |d| == |e|
    requires 0 < n.ptrs[12] < |d| ==> d[n.ptrs[12]] == e[n.ptrs[12]]
    requires 0 < n.ptrs[13] < |d| ==> d[n.ptrs[13]] == e[n.ptrs[13]]
    requires t.Level2Entry? ==> var p := TableAt(d, n.ptrs[13], t.a); 0 < p < |d| ==> d[p] == e[p]
    ensures Ref(n, d, t) == Ref(n, e, t)
  {
  }

  /** Filling an empty table pointer with an all-zero table adds no further pointers. */
  lemma ZeroTableRef(n: Inode, d: seq<Block>, k: nat, nb: u32, t: Slot)
    requires (k == 12 || k == 13) && n.ptrs[k] == 0 && 0 < nb < |d| && d[nb] == Zeros(BS)
    requires t != if k == 12 then Single else Double
    ensures Ref(AddPtr(n, k, nb), d, t) == Ref(n, d, t)
  {
    assert forall e: nat :: TableAt(d, nb, e) == 0 == TableAt(d, 0, e);
  }

  lemma GrowTableGains(fs: Fs, ino: nat, k: nat)
    requires OwnInv(fs) && Live(fs, ino) && (k == 12 || k == 13) && Node(fs, ino).ptrs[k] == 0 && NextBlock(fs) != 0
    ensures var (gs, nb) := GrowTable(fs, ino, k);
            Gains(fs, gs, ino, if k == 12 then Single else Double, nb) && Grown(fs, gs, ino)
  {
    var (gs, nb) := GrowTable(fs, ino, k);
    var s := if k == 12 then Single else Double;
    assert gs.disk == fs.disk[nb := Zeros(BS)];
    forall j: nat, t: Slot
      ensures Own(gs, j, t) == if j == ino && t == s then nb else Own(fs, j, t)
    {
      if IsInode(fs, j) {
        DiskFrame(fs, gs.disk, nb, j, t);
        if j == ino && t != s {
          ZeroTableRef(Node(fs, j), gs.disk, k, nb, t);
        }
      }
    }
    GainsGrows(fs, gs, ino, s, nb, s);
  }

  /** Rewriting a block nobody owns changes no pointer. */
  lemma DiskFrame(fs: Fs, e: seq<Block>, nb: nat, j: nat, t: Slot)
    requires OwnInv(fs) && nb < fs.sup.blocksCount && !fs.blockBits[nb] && IsInode(fs, j)
    requires |e| == |fs.disk| && forall x :: 0 <= x < |e| && x != nb ==> e[x] == fs.disk[x]
    ensures Ref(Node(fs, j), e, t) == Ref(Node(fs, j), fs.disk, t)
  {
    FreshUnowned(fs, nb);
    var n := Node(fs, j);
    assert Own(fs, j, Single) == n.ptrs[12];
    assert Own(fs, j, Double) == n.ptrs[13];
    if t.Level2Entry? {
      assert Own(fs, j, Level2(t.a)) == TableAt(fs.disk, n.ptrs[13], t.a);
    }
    RefFrame(n, fs.disk, e, t);
  }

  predicate IsTable(p: Slot) { p.Single? || p.Double? || p.Level2? }

  /** The slot reached through entry `k` of the table held in slot `p`. */
  function Child(p: Slot, k: nat): Slot
    requires IsTable(p)
  {
    match p
    case Single => SingleEntry(k)
    case Double => Level2(k)
    case Level2(a) => Level2Entry(a, k)
  }

  lemma ChildEntry(fs: Fs, ino: nat, p: Slot, k: nat)
    requires IsTable(p) && IsInode(fs, ino)
    ensures Own(fs, ino, Child(p, k)) == TableAt(fs.disk, Own(fs, ino, p), k)
  {
  }

  lemma SetEntryGet(d: seq<Block>, t: nat, k: nat, v: u32)
    requires 0 < t < |d| && k < PTRS
    ensures |SetEntry(d, t, k, v)| == |d|
    ensures forall x: nat, e: nat ::
              TableAt(SetEntry(d, t, k, v), x, e) == if x == t && e == k then v else TableAt(d, x, e)
  {
    forall x: nat, e: nat
      ensures TableAt(SetEntry(d, t, k, v), x, e) == if x == t && e == k then v else TableAt(d, x, e)
    {
      if x == t && e < PTRS && e != k {
        assert Le32(Put32(d[t], 4 * k, v), 4 * e) == Le32(d[t], 4 * e);
      }
    }
  }

  /** Writing entry `k` of the table in slot `p` of `ino` changes exactly the slot below it. */
  lemma EntryFrame(fs: Fs, d: seq<Block>, ino: nat, p: Slot, k: nat, nb: u32, j: nat, u: Slot)
    requires OwnInv(fs) && IsInode(fs, ino) && IsInode(fs, j) && IsTable(p) && k < PTRS
    requires |d| == |fs.disk| && (forall i: nat, t: Slot :: IsInode(fs, i) ==>
               Ref(Node(fs, i), d, t) == Ref(Node(fs, i), fs.disk, t))
    requires Own(fs, ino, p) != 0 && Own(fs, ino, Child(p, k)) == 0
    requires p.Double? ==> 0 < nb < |d| && d[nb] == Zeros(BS)
    requires (forall i: nat, t: Slot :: Own(fs, i, t) != 0 ==> Own(fs, i, t) != nb) && nb != 0
    ensures Ref(Node(fs, j), SetEntry(d, Own(fs, ino, p), k, nb), u)
         == if j == ino && u == Child(p, k) then nb else Ref(Node(fs, j), fs.disk, u)
  {
    var t := Own(fs, ino, p);
    var n := Node(fs, j);
    SetEntryGet(d, t, k, nb);
    assert Own(fs, j, Single) == n.ptrs[12];
    assert Own(fs, j, Double) == n.ptrs[13];
    assert Ref(n, d, u) == Ref(n, fs.disk, u);
    if u.Level2Entry? {
      assert Ref(n, d, Level2(u.a)) == Own(fs, j, Level2(u.a));
      if p.Double? {
        assert TableAt(d, nb, u.b) == 0;
      }
    }
  }

  /** The owner of every block after an entry is filled. */
  lemma GrowEntryOwns(fs: Fs, ino: nat, p: Slot, k: nat, j: nat, u: Slot)
    requires OwnInv(fs) && Live(fs, ino) && IsTable(p) && k < PTRS && NextBlock(fs) != 0
    requires Own(fs, ino, p) != 0 && Own(fs, ino, Child(p, k)) == 0
    ensures var (gs, nb) := GrowEntry(fs, ino, Own(fs, ino, p), k, p.Double?);
            Own(gs, j, u) == if j == ino && u == Child(p, k) then nb else Own(fs, j, u)
  {
    hide Marked, Unshared, FreedClear, CountsOk, Ref;
    ChildEntry(fs, ino, p, k);
    var t := Own(fs, ino, p);
    var (gs, nb) := GrowEntry(fs, ino, t, k, p.Double?);
    var d := if p.Double? then ClearDisk(fs.disk, nb) else fs.disk;
    assert NextBlock(fs) == nb && gs.disk == SetEntry(d, t, k, nb);
    if IsInode(fs, j) {
      FreshUnowned(fs, nb);
      forall i: nat, v: Slot | IsInode(fs, i)
        ensures Ref(Node(fs, i), d, v) == Ref(Node(fs, i), fs.disk, v)
      {
        DiskFrame(fs, d, nb, i, v);
      }
      EntryFrame(fs, d, ino, p, k, nb, j, u);
      SectorsRef(Node(fs, j), gs.disk, u);
    }
  }

  lemma SectorsRef(n: Inode, d: seq<Block>, u: Slot)
    ensures Ref(AddSectors(n), d, u) == Ref(n, d, u)
  {
  }

  /** A gain that rewrote only the new block and one table of `ino` leaves all contents alone. */
  lemma GainsGrows(fs: Fs, gs: Fs, ino: nat, s: Slot, nb: nat, p: Slot)
    requires OwnInv(fs) && IsInode(fs, ino) && Gains(fs, gs, ino, s, nb) && Own(fs, ino, s) == 0 && IsTable(p)
    requires gs.inodes == fs.inodes[ino - 1 := Node(gs, ino)]
    requires Node(gs, ino) == Node(fs, ino).(ptrs := Node(gs, ino).ptrs, blocks := Node(gs, ino).blocks)
    requires forall x :: 0 <= x < |fs.disk| && x != nb && (x == 0 || x != Own(fs, ino, p)) ==> gs.disk[x] == fs.disk[x]
    ensures Grown(fs, gs, ino)
  {
    hide Own;
    forall j: nat, t: Slot | IsData(t) && Own(fs, j, t) != 0
      ensures SlotData(gs, j, t) == SlotData(fs, j, t)
    {
      assert Own(fs, j, t) != nb;
      assert Own(fs, j, t) != Own(fs, ino, p);
    }
    assert Own(fs, ino, p) == 0 || Own(fs, ino, p) >= fs.sup.firstData;
  }

  /** The entry was empty, so a block is taken. */
  lemma GrowEntryNew(fs: Fs, ino: nat, p: Slot, k: nat)
    requires OwnInv(fs) && Live(fs, ino) && IsTable(p) && k < PTRS && Own(fs, ino, p) != 0
             && Own(fs, ino, Child(p, k)) == 0
    ensures TableAt(fs.disk, Own(fs, ino, p), k) == 0
  {
    ChildEntry(fs, ino, p, k);
  }

  lemma GrowEntryGains(fs: Fs, ino: nat, p: Slot, k: nat)
    requires OwnInv(fs) && Live(fs, ino) && IsTable(p) && k < PTRS && NextBlock(fs) != 0
    requires Own(fs, ino, p) != 0 && Own(fs, ino, Child(p, k)) == 0
    ensures var (gs, nb) := GrowEntry(fs, ino, Own(fs, ino, p), k, p.Double?);
            Gains(fs, gs, ino, Child(p, k), nb) && Grown(fs, gs, ino)
  {
    hide Own, NextBlock;
    NextIsFree(fs);
    var (gs, nb) := GrowEntry(fs, ino, Own(fs, ino, p), k, p.Double?);
    GrowEntryNew(fs, ino, p, k);
    forall j: nat, u: Slot
      ensures Own(gs, j, u) == if j == ino && u == Child(p, k) then nb else Own(fs, j, u)
    {
      GrowEntryOwns(fs, ino, p, k, j, u);
    }
    GainsGrows(fs, gs, ino, Child(p, k), nb, p);
  }

  /** One growth step is safe: it keeps the invariant, fills slot `s` (or the disk is full), and no other data slot. */
  ghost predicate Filled(fs: Fs, gs: Fs, ino: nat, s: Slot, b: nat)
    requires Shape(fs) && IsInode(fs, ino)
  {
    && OwnInv(gs) && Grown(fs, gs, ino)
    && (b != 0 ==> Own(gs, ino, s) == b)
    && (b == 0 ==> NextBlock(gs) == 0)
    && (Own(fs, ino, s) != 0 ==> gs == fs)
    && (forall t: Slot :: IsData(t) && t != s ==> Own(gs, ino, t) == Own(fs, ino, t))
  }

  lemma DirectFilled(fs: Fs, ino: nat, k: nat)
    requires OwnInv(fs) && Live(fs, ino) && k < NDIRECT
    ensures var (gs, b) := GrowDirect(fs, ino, k); Filled(fs, gs, ino, Direct(k), b)
  {
    if Node(fs, ino).ptrs[k] == 0 && NextBlock(fs) != 0 {
      GrowDirectGains(fs, ino, k);
      var (gs, b) := GrowDirect(fs, ino, k);
      GainsKeepsInv(fs, gs, ino, Direct(k), b);
    }
  }

  lemma TableFilled(fs: Fs, ino: nat, k: nat)
    requires OwnInv(fs) && Live(fs, ino) && (k == 12 || k == 13)
    ensures var (gs, b) := GrowTable(fs, ino, k); Filled(fs, gs, ino, if k == 12 then Single else Double, b)
  {
    if Node(fs, ino).ptrs[k] == 0 && NextBlock(fs) != 0 {
      GrowTableGains(fs, ino, k);
      var (gs, b) := GrowTable(fs, ino, k);
      GainsKeepsInv(fs, gs, ino, if k == 12 then Single else Double, b);
    }
  }

  lemma EntryFilled(fs: Fs, ino: nat, p: Slot, k: nat)
    requires OwnInv(fs) && Live(fs, ino) && IsTable(p) && k < PTRS && Own(fs, ino, p) != 0
    ensures var (gs, b) := GrowEntry(fs, ino, Own(fs, ino, p), k, p.Double?); Filled(fs, gs, ino, Child(p, k), b)
  {
    assert Own(fs, ino, Child(p, k)) == TableAt(fs.disk, Own(fs, ino, p), k);
    if Own(fs, ino, Child(p, k)) == 0 && NextBlock(fs) != 0 {
      GrowEntryGains(fs, ino, p, k);
      var (gs, b) := GrowEntry(fs, ino, Own(fs, ino, p), k, p.Double?);
      GainsKeepsInv(fs, gs, ino, Child(p, k), b);
    }
  }

  lemma ParentFirst(fs: Fs, ino: nat, p: Slot, k: nat)
    requires IsTable(p) && Own(fs, ino, Child(p, k)) != 0
    ensures Own(fs, ino, p) != 0
  {
  }

  /** Filling a table and then an entry of it is one filling of the entry. */
  lemma ThenEntry(fs: Fs, gs: Fs, ino: nat, p: Slot, t: nat, k: nat)
    requires OwnInv(fs) && Live(fs, ino) && IsTable(p) && k < PTRS && t != 0 && Filled(fs, gs, ino, p, t)
    ensures Shape(gs) && IsInode(gs, ino)
    ensures var (hs, b) := GrowEntry(gs, ino, t, k, p.Double?); Filled(fs, hs, ino, Child(p, k), b)
  {
    hide Own, GrowEntry, NextBlock, SlotData, Marked, Unshared, FreedClear, CountsOk;
    EntryFilled(gs, ino, p, k);
    var (hs, b) := GrowEntry(gs, ino, t, k, p.Double?);
    GrownTransitive(fs, gs, hs, ino);
    if Own(fs, ino, Child(p, k)) != 0 {
      ParentFirst(fs, ino, p, k);
    }
  }

  /** When the table cannot be allocated, its entry is not filled either. */
  lemma NoEntry(fs: Fs, gs: Fs, ino: nat, p: Slot, k: nat)
    requires OwnInv(fs) && IsInode(fs, ino) && IsTable(p) && Filled(fs, gs, ino, p, 0)
    ensures Filled(fs, gs, ino, Child(p, k), 0)
  {
    if Own(fs, ino, Child(p, k)) != 0 {
      ParentFirst(fs, ino, p, k);
    }
    assert forall t: Slot :: IsData(t) ==> t != p;
  }

  lemma SingleFilled(fs: Fs, ino: nat, k: nat)
    requires OwnInv(fs) && Live(fs, ino) && k < PTRS
    ensures var (gs, b) := GrowSingle(fs, ino, k); Filled(fs, gs, ino, SingleEntry(k), b)
  {
    TableFilled(fs, ino, 12);
    var (f1, t) := GrowTable(fs, ino, 12);
    if t == 0 {
      NoEntry(fs, f1, ino, Single, k);
    } else {
      ThenEntry(fs, f1, ino, Single, t, k);
    }
  }

  lemma Level2Filled(fs: Fs, ino: nat, a: nat)
    requires OwnInv(fs) && Live(fs, ino) && a < PTRS
    ensures var (gs, b) := GrowLevel2(fs, ino, a); Filled(fs, gs, ino, Level2(a), b)
  {
    TableFilled(fs, ino, 13);
    var (f1, t) := GrowTable(fs, ino, 13);
    if t == 0 {
      NoEntry(fs, f1, ino, Double, a);
    } else {
      ThenEntry(fs, f1, ino, Double, t, a);
    }
  }

  lemma DoubleFilled(fs: Fs, ino: nat, a: nat, b: nat)
    requires OwnInv(fs) && Live(fs, ino) && a < PTRS && b < PTRS
    ensures var (gs, db) := GrowDouble(fs, ino, a, b); Filled(fs, gs, ino, Level2Entry(a, b), db)
  {
    Level2Filled(fs, ino, a);
    var (f2, l2) := GrowLevel2(fs, ino, a);
    if l2 == 0 {
      NoEntry(fs, f2, ino, Level2(a), b);
    } else {
      ThenEntry(fs, f2, ino, Level2(a), l2, b);
    }
  }

  lemma SlotFilled(fs: Fs, ino: nat, s: Slot)
    requires OwnInv(fs) && Live(fs, ino) && SlotOk(s)
    ensures var (gs, b) := GrowSlot(fs, ino, s); Filled(fs, gs, ino, s, b)
  {
    match s
    case Direct(i) => DirectFilled(fs, ino, i);
    case SingleEntry(k) => SingleFilled(fs, ino, k);
    case Level2Entry(a, b) => DoubleFilled(fs, ino, a, b);
  }

  /** The whole of `ext2_bmap_alloc`: afterwards logical block `bi` is mapped to the returned
      block and nothing else changed hands; 0 is returned only on a full disk; an already mapped
      block is found without changing anything. */
  lemma BmapAllocFills(fs: Fs, ino: nat, bi: nat)
    requires OwnInv(fs) && Live(fs, ino) && bi < MAX_FILE_BLOCKS
    ensures var (gs, b) := BmapAlloc(fs, ino, bi); Filled(fs, gs, ino, DataSlot(bi), b)
  {
    DataSlotOk(bi);
    SlotFilled(fs, ino, DataSlot(bi));
  }
}
