/** What installing a file from the host does to a filesystem: the old file's blocks go back, a run of
    free blocks is taken, filled and handed to the inode. */
module Ext2HostInstall {
  import opened Bytes
  import opened Bitmaps
  import opened Ext2State
  import opened Ext2Ownership
  import opened Ext2Bmap
  import opened Ext2File
  import opened Ext2Tree
  import opened Ext2HostFile

  // ---- giving back ----

  /** An inode without any block pointer. */
  predicate NoPtrs(n: Inode) { forall k :: 0 <= k < 15 ==> n.ptrs[k] == 0 }

  /** Only bits of blocks owned by `ino` were cleared. */
  ghost predicate OnlyOwnCleared(fs: Fs, ino: nat, bits: seq<bool>) {
    && |bits| == |fs.blockBits|
    && (forall b :: 0 <= b < |bits| && bits[b] != fs.blockBits[b] ==> !bits[b] && b != 0 && OwnsBlock(fs, ino, b))
  }

  ghost predicate OwnsBlock(fs: Fs, ino: nat, b: nat) { exists t: Slot :: Own(fs, ino, t) == b }

  /** Inode `ino` in use with the blank record `n`, block bits `bits`, counts to match. */
  function Blank(fs: Fs, ino: nat, n: Inode, bits: seq<bool>): (z: Fs)
    requires Shape(fs) && IsInode(fs, ino) && |bits| == |fs.blockBits|
    ensures Shape(z)
  {
    var ib := fs.inodeBits[ino - 1 := true];
    fs.(inodes := fs.inodes[ino - 1 := n], inodeBits := ib, blockBits := bits,
        sup := fs.sup.(freeBlocks := ClearCount(bits, fs.sup.blocksCount),
            freeInodes := ClearCount(ib, fs.sup.inodesCount)))
  }

  lemma BlankOwn(fs: Fs, ino: nat, n: Inode, bits: seq<bool>, j: nat, t: Slot)
    requires Shape(fs) && IsInode(fs, ino) && |bits| == |fs.blockBits| && NoPtrs(n)
    ensures Own(Blank(fs, ino, n, bits), j, t) == if j == ino then 0 else Own(fs, j, t)
  {
    var z := Blank(fs, ino, n, bits);
    if j != ino && IsInode(fs, j) {
      assert Node(z, j) == Node(fs, j) && (Live(z, j) <==> Live(fs, j));
    }
  }

  /** Dropping an inode's own blocks keeps the ownership invariant and every other inode. */
  lemma BlankOk(fs: Fs, ino: nat, n: Inode, bits: seq<bool>)
    requires OwnInv(fs) && IsInode(fs, ino) && NoPtrs(n) && OnlyOwnCleared(fs, ino, bits)
    ensures Shape(fs)
    ensures var z := Blank(fs, ino, n, bits);
            && OwnInv(z) && Live(z, ino) && Node(z, ino) == n
            && (forall t: Slot :: Own(z, ino, t) == 0)
            && (forall j: nat :: j != ino ==> Untouched(fs, z, j))
  {
    hide Own;
    var z := Blank(fs, ino, n, bits);
    forall j: nat, t: Slot
      ensures Own(z, j, t) == if j == ino then 0 else Own(fs, j, t)
    {
      BlankOwn(fs, ino, n, bits, j, t);
    }
    forall j: nat, t: Slot | Own(z, j, t) != 0
      ensures fs.sup.firstData <= Own(z, j, t) < fs.sup.blocksCount && bits[Own(z, j, t)]
    {
      StillMarked(fs, ino, bits, j, t);
    }
    assert Unshared(z);
    forall j: nat | IsInode(z, j) && !Live(z, j)
      ensures DirectTailClear(Node(z, j))
    {
      assert !Live(fs, j) && Node(z, j) == Node(fs, j);
    }
  }

  lemma StillMarked(fs: Fs, ino: nat, bits: seq<bool>, j: nat, t: Slot)
    requires OwnInv(fs) && OnlyOwnCleared(fs, ino, bits) && j != ino && Own(fs, j, t) != 0
    ensures fs.sup.firstData <= Own(fs, j, t) < fs.sup.blocksCount && bits[Own(fs, j, t)]
  {
    hide Own, FreedClear, CountsOk;
    forall s: Slot
      ensures Own(fs, ino, s) != Own(fs, j, t)
    {
    }
    assert !OwnsBlock(fs, ino, Own(fs, j, t));
  }

  // ---- taking a run of free blocks ----

  /** The next `m` free blocks in order; fewer when the disk is full. */
  function Reserve(fs: Fs, m: nat): (r: (Fs, seq<nat>))
    requires Shape(fs)
    ensures Shape(r.0)
    decreases m
  {
    var nb := NextBlock(fs);
    if m == 0 || nb == 0 then (fs, []) else
      var (gs, rest) := Reserve(MarkBlock(fs, nb), m - 1);
      (gs, [nb] + rest)
  }

  /** Blocks of the data area that were free in `fs`, each once. */
  ghost predicate FreshRun(fs: Fs, all: seq<nat>)
    requires Shape(fs)
  {
    && (forall i :: 0 <= i < |all| ==> fs.sup.firstData <= all[i] < fs.sup.blocksCount && !fs.blockBits[all[i]])
    && (forall i, j :: 0 <= i < j < |all| ==> all[i] != all[j])
  }

  /** `gs` is `fs` with exactly the run marked. */
  ghost predicate RunMarked(fs: Fs, gs: Fs, all: seq<nat>)
    requires Shape(fs)
  {
    && gs == fs.(blockBits := gs.blockBits, sup := fs.sup.(freeBlocks := gs.sup.freeBlocks))
    && |gs.blockBits| == |fs.blockBits|
    && (forall b :: 0 <= b < |fs.blockBits| ==> (gs.blockBits[b] <==> fs.blockBits[b] || b in all))
  }

  lemma {:induction false} ReserveOk(fs: Fs, m: nat)
    requires Shape(fs) && CountsOk(fs)
    ensures var (gs, all) := Reserve(fs, m);
            && |all| <= m && CountsOk(gs) && FreshRun(fs, all) && RunMarked(fs, gs, all)
            && (|all| < m ==> NextBlock(gs) == 0)
    decreases m
  {
    hide CountsOk, NextBlock;
    var nb := NextBlock(fs);
    if m != 0 && nb != 0 {
      var f1 := MarkBlock(fs, nb);
      AllocBlockCounts(fs);
      ReserveOk(f1, m - 1);
      var (gs, rest) := Reserve(f1, m - 1);
      RunStep(fs, gs, nb, rest);
    }
  }

  lemma RunStep(fs: Fs, gs: Fs, nb: nat, rest: seq<nat>)
    requires Shape(fs) && nb == NextBlock(fs) != 0 && Shape(MarkBlock(fs, nb))
    requires FreshRun(MarkBlock(fs, nb), rest) && RunMarked(MarkBlock(fs, nb), gs, rest)
    ensures FreshRun(fs, [nb] + rest) && RunMarked(fs, gs, [nb] + rest)
  {
    hide CountsOk;
    var f1 := MarkBlock(fs, nb);
    var all := [nb] + rest;
    forall i | 0 <= i < |all|
      ensures fs.sup.firstData <= all[i] < fs.sup.blocksCount && !fs.blockBits[all[i]]
    {
      if i > 0 {
        assert !f1.blockBits[rest[i - 1]];
      }
    }
    assert forall i :: 0 <= i < |rest| ==> rest[i] != nb;
  }

  /** Taking a run changes no owner, and nobody owns a block of it. */
  lemma ReserveOwn(fs: Fs, gs: Fs, all: seq<nat>)
    requires OwnInv(fs) && FreshRun(fs, all) && RunMarked(fs, gs, all) && Shape(gs) && CountsOk(gs)
    ensures OwnInv(gs) && (forall j: nat :: Untouched(fs, gs, j))
    ensures forall j: nat, t: Slot :: Own(gs, j, t) == Own(fs, j, t)
    ensures forall j: nat, t: Slot, i :: 0 <= i < |all| ==> Own(gs, j, t) != all[i]
  {
    hide Own;
    forall j: nat, t: Slot
      ensures Own(gs, j, t) == Own(fs, j, t)
    {
      SameNodesOwn(fs, gs, j, t);
    }
    assert Marked(gs) && Unshared(gs);
    assert forall j: nat :: IsInode(fs, j) ==> Node(gs, j) == Node(fs, j) && (Live(gs, j) <==> Live(fs, j));
    assert FreedClear(gs);
    forall j: nat, t: Slot, i | 0 <= i < |all|
      ensures Own(gs, j, t) != all[i]
    {
      assert all[i] >= fs.sup.firstData > 0;
    }
  }

  lemma SameNodesOwn(fs: Fs, gs: Fs, j: nat, t: Slot)
    requires gs.inodes == fs.inodes && gs.inodeBits == fs.inodeBits && gs.disk == fs.disk
    ensures Own(gs, j, t) == Own(fs, j, t)
  {
  }

  // ---- handing the run to the inode ----

  /** `gs` is `r` with the run filled and given to `ino`; elsewhere only metadata blocks changed. */
  ghost predicate Adopted(r: Fs, gs: Fs, ino: nat, node: Inode, all: seq<nat>, data: seq<byte>)
    requires IsInode(r, ino)
  {
    && gs == r.(disk := gs.disk, inodes := r.inodes[ino - 1 := node]) && |gs.disk| == |r.disk|
    && Laid(gs.disk, all, data) && node.ptrs == RunPtrs(all, DataBlocks(|data|)) && node.size == |data|
    && (forall x :: r.sup.firstData <= x < |r.disk| && x !in all ==> gs.disk[x] == r.disk[x])
  }

  /** The inode owns exactly the laid out run. */
  lemma AdoptedSelf(r: Fs, gs: Fs, ino: nat, node: Inode, all: seq<nat>, data: seq<byte>, t: Slot)
    requires IsInode(r, ino) && Live(r, ino) && Adopted(r, gs, ino, node, all, data)
    ensures |all| == Total(DataBlocks(|data|)) && Own(gs, ino, t) == RunBlock(all, DataBlocks(|data|), t)
  {
    hide Laid, RunPtrs, RunBlock, Ref;
    LaidTotal(gs.disk, all, data);
    RefIsPlaced(node, gs.disk, all, data, t);
    assert Node(gs, ino) == node && Live(gs, ino);
  }

  lemma LaidTotal(disk: seq<Block>, all: seq<nat>, data: seq<byte>)
    requires Laid(disk, all, data)
    ensures |all| == Total(DataBlocks(|data|)) && DataBlocks(|data|) <= MAX_FILE_BLOCKS
  {
  }

  /** Other inodes keep their pointers. */
  lemma AdoptedOther(r: Fs, gs: Fs, ino: nat, node: Inode, all: seq<nat>, data: seq<byte>, j: nat, t: Slot)
    requires OwnInv(r) && IsInode(r, ino) && Adopted(r, gs, ino, node, all, data) && j != ino
    requires forall j: nat, t: Slot, i :: 0 <= i < |all| ==> Own(r, j, t) != all[i]
    ensures Own(gs, j, t) == Own(r, j, t)
  {
    hide Laid, RunPtrs, Unshared, FreedClear, CountsOk;
    if IsInode(r, j) {
      var n := Node(r, j);
      assert Node(gs, j) == n && (Live(gs, j) <==> Live(r, j));
      assert Own(r, j, Single) == n.ptrs[12];
      assert Own(r, j, Double) == n.ptrs[13];
      if t.Level2Entry? {
        assert Own(r, j, Level2(t.a)) == TableAt(r.disk, n.ptrs[13], t.a);
      }
      RefFrame(n, r.disk, gs.disk, t);
    }
  }

  /** Two slots of the layout never hold the same block. */
  lemma PlacedInjective(r: Fs, all: seq<nat>, n: nat, s: Slot, t: Slot)
    requires Shape(r) && |all| == Total(n) && (forall i, j :: 0 <= i < j < |all| ==> all[i] != all[j])
    requires RunBlock(all, n, s) == RunBlock(all, n, t) != 0
    ensures s == t
  {
    SlotIndexBound(n, s);
    SlotIndexBound(n, t);
    SameIndex(all, SlotIndex(n, s), SlotIndex(n, t));
    SlotIndexInjective(n, s, t);
  }

  lemma SameIndex(all: seq<nat>, x: nat, y: nat)
    requires (forall i, j :: 0 <= i < j < |all| ==> all[i] != all[j]) && x < |all| && y < |all|
    ensures all[x] == all[y] ==> x == y
  {
  }

  lemma PlacedInRun(all: seq<nat>, n: nat, t: Slot)
    requires |all| == Total(n) && RunBlock(all, n, t) != 0
    ensures RunBlock(all, n, t) in all
  {
    SlotIndexBound(n, t);
  }

  lemma AdoptedOk(r: Fs, gs: Fs, ino: nat, node: Inode, all: seq<nat>, data: seq<byte>)
    requires OwnInv(r) && IsInode(r, ino) && Live(r, ino) && Adopted(r, gs, ino, node, all, data)
    requires forall i :: 0 <= i < |all| ==> r.sup.firstData <= all[i] < r.sup.blocksCount && r.blockBits[all[i]]
    requires forall i, j :: 0 <= i < j < |all| ==> all[i] != all[j]
    requires forall j: nat, t: Slot, i :: 0 <= i < |all| ==> Own(r, j, t) != all[i]
    ensures OwnInv(gs) && Live(gs, ino) && Node(gs, ino) == node
    ensures forall j: nat :: j != ino ==> Untouched(r, gs, j)
  {
    hide Own, Laid, RunPtrs, RunBlock, Total, DataBlocks;
    var n := DataBlocks(|data|);
    LaidTotal(gs.disk, all, data);
    forall t: Slot
      ensures Own(gs, ino, t) == RunBlock(all, n, t)
    {
      AdoptedSelf(r, gs, ino, node, all, data, t);
    }
    forall j: nat, t: Slot | j != ino
      ensures Own(gs, j, t) == Own(r, j, t)
    {
      AdoptedOther(r, gs, ino, node, all, data, j, t);
    }
    AdoptedMarked(r, gs, ino, all, n);
    AdoptedUnshared(r, gs, ino, all, n);
    AdoptedRest(r, gs, ino, node, all, data);
  }

  lemma AdoptedMarked(r: Fs, gs: Fs, ino: nat, all: seq<nat>, n: nat)
    requires OwnInv(r) && Shape(gs) && |all| == Total(n)
    requires gs.sup == r.sup && gs.blockBits == r.blockBits
    requires forall i :: 0 <= i < |all| ==> r.sup.firstData <= all[i] < r.sup.blocksCount && r.blockBits[all[i]]
    requires forall t: Slot :: Own(gs, ino, t) == RunBlock(all, n, t)
    requires forall j: nat, t: Slot :: j != ino ==> Own(gs, j, t) == Own(r, j, t)
    ensures Marked(gs)
  {
    hide Own, RunBlock, Total, Unshared, FreedClear, CountsOk;
    forall j: nat, t: Slot | Own(gs, j, t) != 0
      ensures gs.sup.firstData <= Own(gs, j, t) < gs.sup.blocksCount && gs.blockBits[Own(gs, j, t)]
    {
      if j == ino {
        PlacedInRun(all, n, t);
      }
    }
  }

  lemma AdoptedUnshared(r: Fs, gs: Fs, ino: nat, all: seq<nat>, n: nat)
    requires OwnInv(r) && |all| == Total(n)
    requires forall i, j :: 0 <= i < j < |all| ==> all[i] != all[j]
    requires forall j: nat, t: Slot, i :: 0 <= i < |all| ==> Own(r, j, t) != all[i]
    requires forall t: Slot :: Own(gs, ino, t) == RunBlock(all, n, t)
    requires forall j: nat, t: Slot :: j != ino ==> Own(gs, j, t) == Own(r, j, t)
    ensures Unshared(gs)
  {
    hide Own, RunBlock, Total, Marked, FreedClear, CountsOk;
    forall i: nat, s: Slot, j: nat, t: Slot | Own(gs, i, s) != 0 && Own(gs, i, s) == Own(gs, j, t)
      ensures i == j && s == t
    {
      if i == ino && j == ino {
        PlacedInjective(r, all, n, s, t);
      } else if i == ino {
        PlacedInRun(all, n, s);
        assert false;
      } else if j == ino {
        PlacedInRun(all, n, t);
        assert false;
      }
    }
  }

  lemma AdoptedRest(r: Fs, gs: Fs, ino: nat, node: Inode, all: seq<nat>, data: seq<byte>)
    requires OwnInv(r) && IsInode(r, ino) && Live(r, ino) && Adopted(r, gs, ino, node, all, data)
    requires forall j: nat, t: Slot, i :: 0 <= i < |all| ==> Own(r, j, t) != all[i]
    requires forall j: nat, t: Slot :: j != ino ==> Own(gs, j, t) == Own(r, j, t)
    ensures Shape(gs) && CountsOk(gs) && FreedClear(gs) && Live(gs, ino) && Node(gs, ino) == node
    ensures forall j: nat :: j != ino ==> Untouched(r, gs, j)
  {
    hide Own, Laid, RunPtrs, Unshared;
    forall j: nat | j != ino && IsInode(r, j)
      ensures Node(gs, j) == Node(r, j) && (Live(gs, j) <==> Live(r, j))
    {
    }
    forall j: nat, t: Slot | j != ino
      ensures SlotData(gs, j, t) == SlotData(r, j, t)
    {
      if Own(r, j, t) != 0 {
        assert Own(r, j, t) !in all;
      }
    }
  }

  /** The contents are the installed bytes, without holes. */
  lemma AdoptedContent(r: Fs, gs: Fs, ino: nat, node: Inode, all: seq<nat>, data: seq<byte>)
    requires IsInode(r, ino) && Live(r, ino) && Adopted(r, gs, ino, node, all, data)
    ensures IsInode(gs, ino) && Content(gs, ino) == data && NoHoles(gs, ino)
  {
    hide Own, Laid, RunPtrs, RunBlock, SlotData, DataSlot, DataBlocks;
    var n := DataBlocks(|data|);
    forall bi: nat | bi * BS < |data|
      ensures DataRef(gs, ino, bi) != 0 && SlotData(gs, ino, DataSlot(bi)) == Chunk(data, bi)
    {
      BlockHere(r, gs, ino, node, all, data, bi);
    }
    forall k | 0 <= k < |data|
      ensures ByteAt(gs, ino, k) == data[k]
    {
      ByteHere(data, k);
    }
  }

  lemma ByteHere(data: seq<byte>, k: nat)
    requires k < |data|
    ensures k / BS * BS < |data| && Chunk(data, k / BS)[k % BS] == data[k]
  {
  }

  lemma BlockHere(r: Fs, gs: Fs, ino: nat, node: Inode, all: seq<nat>, data: seq<byte>, bi: nat)
    requires IsInode(r, ino) && Live(r, ino) && Adopted(r, gs, ino, node, all, data) && bi * BS < |data|
    ensures DataRef(gs, ino, bi) != 0 && SlotData(gs, ino, DataSlot(bi)) == Chunk(data, bi)
  {
    hide Own, RunPtrs, DataSlot, TableIs, Chunk, Group, Groups, Total, DataBlocks;
    var n := DataBlocks(|data|);
    BlockCount(|data|, bi);
    AdoptedSelf(r, gs, ino, node, all, data, DataSlot(bi));
    DataSlotIndex(n, bi);
    SlotIndexBound(n, DataSlot(bi));
    assert gs.disk[all[bi]] == Chunk(data, bi);
  }

  lemma BlockCount(len: nat, bi: nat)
    ensures bi < DataBlocks(len) <==> bi * BS < len
  {
  }
}
