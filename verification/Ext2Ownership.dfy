/** Which disk blocks an inode owns: its direct blocks, its single and double
    indirect tables, and everything those tables point to. */
module Ext2Ownership {
  import opened Bytes
  import opened Bitmaps
  import opened Ext2State

  /** The places a block pointer can be stored in one inode's tree. */
  datatype Slot =
    | Direct(i: nat)          // block[i], i < 12
    | Single                  // block[12], the single indirect table
    | SingleEntry(k: nat)     // data pointer k of the single indirect table
    | Double                  // block[13], the L1 table
    | Level2(a: nat)          // L2 table a
    | Level2Entry(a: nat, b: nat)   // data pointer b of L2 table a

  /** Slots that point to file (or directory) contents rather than to tables. */
  predicate IsData(s: Slot) { s.Direct? || s.SingleEntry? || s.Level2Entry? }

  /** Pointer `k` of the table in block `t`; 0 where there is no such table. */
  function TableAt(disk: seq<Block>, t: nat, k: nat): u32 {
    if 0 < t < |disk| && k < PTRS then Le32(disk[t], 4 * k) else 0
  }

  /** The pointer stored in a slot of an inode, 0 when the slot is empty or unreachable. */
  function Ref(n: Inode, disk: seq<Block>, s: Slot): u32 {
    match s
    case Direct(i) => if i < NDIRECT then n.ptrs[i] else 0
    case Single => n.ptrs[12]
    case SingleEntry(k) => TableAt(disk, n.ptrs[12], k)
    case Double => n.ptrs[13]
    case Level2(a) => TableAt(disk, n.ptrs[13], a)
    case Level2Entry(a, b) => TableAt(disk, TableAt(disk, n.ptrs[13], a), b)
  }

  /** The block owned through a slot. Freed inodes still own the trees in block[12]
      and block[13], which unlink leaves alone, but not their direct pointers. */
  function Own(fs: Fs, ino: nat, s: Slot): u32 {
    if !IsInode(fs, ino) || (s.Direct? && !Live(fs, ino)) then 0
    else Ref(Node(fs, ino), fs.disk, s)
  }

  /** Every owned block is a data-area block marked in use. */
  ghost predicate Marked(fs: Fs)
    requires Shape(fs)
  {
    forall ino: nat, s: Slot :: Own(fs, ino, s) != 0 ==>
      fs.sup.firstData <= Own(fs, ino, s) < fs.sup.blocksCount && fs.blockBits[Own(fs, ino, s)]
  }

  /** No block is owned twice, by two inodes or through two slots. */
  ghost predicate Unshared(fs: Fs) {
    forall i: nat, s: Slot, j: nat, t: Slot ::
      Own(fs, i, s) != 0 && Own(fs, i, s) == Own(fs, j, t) ==> i == j && s == t
  }

  predicate DirectTailClear(n: Inode) { forall k :: 1 <= k < NDIRECT ==> n.ptrs[k] == 0 }

  /** `ext2_create` clears only block[0], so freed inodes must hold no other direct pointer. */
  ghost predicate FreedClear(fs: Fs)
    requires Shape(fs)
  {
    forall ino: nat :: IsInode(fs, ino) && !Live(fs, ino) ==> DirectTailClear(Node(fs, ino))
  }

  ghost predicate OwnInv(fs: Fs) {
    Shape(fs) && CountsOk(fs) && Marked(fs) && Unshared(fs) && FreedClear(fs)
  }

  lemma OwnInvShape(fs: Fs)
    requires OwnInv(fs)
    ensures Shape(fs)
  {
  }

  /** Nothing but one slot changed owner: `nb` was free and is now held by slot `s` of `ino`. */
  ghost predicate Gains(fs: Fs, gs: Fs, ino: nat, s: Slot, nb: nat)
    requires Shape(fs)
  {
    && fs.sup.firstData <= nb < fs.sup.blocksCount && !fs.blockBits[nb]
    && gs.sup == fs.sup.(freeBlocks := Dec32(fs.sup.freeBlocks))
    && gs.blockBits == fs.blockBits[nb := true]
    && gs.inodeBits == fs.inodeBits
    && |gs.inodes| == |fs.inodes| && |gs.disk| == |fs.disk|
    && (forall j: nat, t: Slot :: Own(gs, j, t) == if j == ino && t == s then nb else Own(fs, j, t))
    && (forall j: nat :: IsInode(fs, j) && !Live(fs, j) ==> Node(gs, j) == Node(fs, j))
  }

  lemma GainsKeepsInv(fs: Fs, gs: Fs, ino: nat, s: Slot, nb: nat)
    requires OwnInv(fs) && Gains(fs, gs, ino, s, nb)
    ensures OwnInv(gs)
  {
    ClearCountPositive(fs.blockBits, fs.sup.blocksCount, nb);
    ClearCountUpdate(fs.blockBits, fs.sup.blocksCount, nb, true);
    assert Shape(gs) && CountsOk(gs);
    forall i: nat, t: Slot | Own(gs, i, t) != 0
      ensures fs.sup.firstData <= Own(gs, i, t) < fs.sup.blocksCount && gs.blockBits[Own(gs, i, t)]
    {
    }
    assert forall i: nat, t: Slot :: Own(fs, i, t) != nb;
    assert Unshared(gs);
    assert FreedClear(gs);
  }
}
