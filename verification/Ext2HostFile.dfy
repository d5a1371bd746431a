/** How the host tool lays a file out: data blocks first, then the single indirect table, the L1 table
    and the L2 tables, all from one run of the lowest free blocks. */
module Ext2HostFile {
  import opened Numbers
  import opened Bytes
  import opened Ext2State
  import opened Ext2Ownership
  import opened Ext2Bmap

  const FIRST_DOUBLE := 268   // NDIRECT + PTRS

  /** Blocks of data in `len` bytes. */
  function DataBlocks(len: nat): nat { (len + BS - 1) / BS }

  /** L2 tables a file of `n` data blocks needs. */
  function Groups(n: nat): nat { if n > FIRST_DOUBLE then (n - FIRST_DOUBLE + PTRS - 1) / PTRS else 0 }

  /** All blocks of such a file. */
  function Total(n: nat): nat { n + (if n > NDIRECT then 1 else 0) + if n > FIRST_DOUBLE then 1 + Groups(n) else 0 }

  /** Position of the block in slot `s` within the run, or -1 for an empty slot. */
  function SlotIndex(n: nat, s: Slot): int {
    match s
    case Direct(i) => if i < NDIRECT && i < n then i else -1
    case Single => if n > NDIRECT then n else -1
    case SingleEntry(k) => if k < PTRS && NDIRECT + k < n then NDIRECT + k else -1
    case Double => if n > FIRST_DOUBLE then n + 1 else -1
    case Level2(a) => if a < Groups(n) then n + 2 + a else -1
    case Level2Entry(a, b) => if b < PTRS && FIRST_DOUBLE + PTRS * a + b < n then FIRST_DOUBLE + PTRS * a + b else -1
  }

  lemma SlotIndexBound(n: nat, s: Slot)
    ensures SlotIndex(n, s) < Total(n)
  {
  }

  /** Different slots hold different blocks of the run. */
  lemma SlotIndexInjective(n: nat, s: Slot, t: Slot)
    requires SlotIndex(n, s) == SlotIndex(n, t) >= 0
    ensures s == t
  {
    if s.Level2Entry? && t.Level2Entry? {
      Unpair(s.a, s.b, t.a, t.b);
    }
  }

  lemma Unpair(a: nat, b: nat, c: nat, d: nat)
    requires b < PTRS && d < PTRS && PTRS * a + b == PTRS * c + d
    ensures a == c && b == d
  {
  }

  lemma DataSlotIndex(n: nat, bi: nat)
    requires bi < n
    ensures SlotIndex(n, DataSlot(bi)) == bi
  {
    if bi >= FIRST_DOUBLE {
      var r := bi - FIRST_DOUBLE;
      assert PTRS * (r / PTRS) + r % PTRS == r;
    }
  }

  lemma GroupBound(n: nat, a: nat, b: nat)
    ensures b < PTRS && FIRST_DOUBLE + PTRS * a + b < n ==> a < Groups(n)
  {
    if n > FIRST_DOUBLE {
      var r := n - FIRST_DOUBLE;
      assert r <= PTRS * ((r + PTRS - 1) / PTRS);
    }
  }

  lemma GroupsFit(n: nat)
    requires n <= MAX_FILE_BLOCKS
    ensures Groups(n) <= PTRS
  {
  }

  // ---- block contents ----

  /** A table block with these entries and zeros after them. */
  predicate TableIs(t: Block, entries: seq<nat>) {
    |entries| <= PTRS && forall k :: 0 <= k < PTRS ==> Le32(t, 4 * k) == if k < |entries| then entries[k] else 0
  }

  /** The part of the run that L2 table `g` lists. */
  function Group(all: seq<nat>, n: nat, g: nat): seq<nat>
    requires n <= |all| && g < Groups(n)
  {
    GroupStart(n, g);
    all[FIRST_DOUBLE + PTRS * g..Min(n, FIRST_DOUBLE + PTRS * (g + 1))]
  }

  lemma GroupStart(n: nat, g: nat)
    requires g < Groups(n)
    ensures FIRST_DOUBLE + PTRS * g < n
  {
    var r := n - FIRST_DOUBLE;
    var q := (r + PTRS - 1) / PTRS;
    assert g <= q - 1 && PTRS * q <= r + PTRS - 1;
    assert PTRS * g <= PTRS * (q - 1);
  }

  /** Block `i` of the data, padded with zeros. */
  function Chunk(data: seq<byte>, i: nat): Block
    requires i * BS < |data|
  {
    var piece := data[i * BS..Min(|data|, (i + 1) * BS)];
    piece + Zeros(BS - |piece|)
  }

  /** The data and all tables are on disk. */
  ghost predicate Laid(disk: seq<Block>, all: seq<nat>, data: seq<byte>) {
    var n := DataBlocks(|data|);
    && |all| == Total(n) && n <= MAX_FILE_BLOCKS
    && (forall i :: 0 <= i < |all| ==> 0 < all[i] < |disk|)
    && (forall i :: 0 <= i < n ==> i * BS < |data| && disk[all[i]] == Chunk(data, i))
    && (n > NDIRECT ==> TableIs(disk[all[n]], all[NDIRECT..Min(n, FIRST_DOUBLE)]))
    && (n > FIRST_DOUBLE ==> TableIs(disk[all[n + 1]], all[n + 2..]))
    && (forall g :: 0 <= g < Groups(n) ==> TableIs(disk[all[n + 2 + g]], Group(all, n, g)))
  }

  /** The fifteen pointers of the inode. */
  function RunPtrs(all: seq<nat>, n: nat): (r: seq<nat>)
    requires |all| == Total(n)
    ensures |r| == 15
  {
    seq(15, i requires 0 <= i < 15 => RunPtr(all, n, i))
  }

  function RunPtr(all: seq<nat>, n: nat, i: nat): nat
    requires |all| == Total(n)
  {
    if i < NDIRECT then (if i < n then all[i] else 0)
    else if i == 12 && n > NDIRECT then all[n]
    else if i == 13 && n > FIRST_DOUBLE then all[n + 1]
    else 0
  }

  /** The block the layout puts into a slot. */
  function RunBlock(all: seq<nat>, n: nat, s: Slot): nat
    requires |all| == Total(n)
  {
    SlotIndexBound(n, s);
    var x := SlotIndex(n, s);
    if x >= 0 then all[x] else 0
  }

  lemma TableRead(disk: seq<Block>, t: nat, entries: seq<nat>, k: nat)
    requires 0 < t < |disk| && TableIs(disk[t], entries)
    ensures TableAt(disk, t, k) == if k < |entries| then entries[k] else 0
  {
  }

  /** Following the pointers of the inode through the tables finds the layout. */
  lemma RefIsPlaced(node: Inode, disk: seq<Block>, all: seq<nat>, data: seq<byte>, s: Slot)
    requires Laid(disk, all, data) && node.ptrs == RunPtrs(all, DataBlocks(|data|))
    ensures Ref(node, disk, s) == RunBlock(all, DataBlocks(|data|), s)
  {
    hide DataBlocks, Chunk, TableIs, TableAt;
    var n := DataBlocks(|data|);
    match s
    case Direct(i) =>
    case Single =>
    case SingleEntry(k) =>
      if n > NDIRECT {
        TableRead(disk, all[n], all[NDIRECT..Min(n, FIRST_DOUBLE)], k);
      } else {
        NoTable(disk, k);
      }
    case Double =>
    case Level2(a) => LevelTwo(node, disk, all, data, a);
    case Level2Entry(a, b) =>
      LevelTwo(node, disk, all, data, a);
      if a < Groups(n) {
        TableRead(disk, all[n + 2 + a], Group(all, n, a), b);
        GroupStart(n, a);
      } else {
        NoTable(disk, b);
        GroupBound(n, a, b);
      }
  }

  lemma NoTable(disk: seq<Block>, k: nat)
    ensures TableAt(disk, 0, k) == 0
  {
  }

  lemma LevelTwo(node: Inode, disk: seq<Block>, all: seq<nat>, data: seq<byte>, a: nat)
    requires Laid(disk, all, data) && node.ptrs == RunPtrs(all, DataBlocks(|data|))
    ensures TableAt(disk, node.ptrs[13], a) == RunBlock(all, DataBlocks(|data|), Level2(a))
  {
    hide DataBlocks, Chunk, TableIs, TableAt;
    var n := DataBlocks(|data|);
    if n > FIRST_DOUBLE {
      TableRead(disk, all[n + 1], all[n + 2..], a);
    } else {
      NoTable(disk, a);
    }
  }
}
