/** `kmalloc`/`kfree` and the parameterised `kheap_*` copies: the singly linked headers in memory. */
module KernelHeap {
  import opened BlockLists
  import opened KernelBlocks

  const WORD := 0x1_0000_0000_0000_0000   // 2^64
  const HALF := 0x1_0000_0000             // 2^32
  const LIMIT := 0x8000_0000_0000_0000    // heaps lie below this address

  /** `alloc_header_t`. */
  datatype Header = Header(size: nat, next: int, free: bool)

  /** Rounding in `kmalloc_locked`: 64-bit sum, 64-bit mask. */
  function Round(size: nat): nat { (size + 7) % WORD / 8 * 8 }

  /** Rounding in `kheap_alloc`: the mask `~7u` has only 32 bits, so it also clears the upper half. */
  function RoundNarrow(size: nat): nat { (size + 7) % WORD % HALF / 8 * 8 }

  /** `kmalloc` asks for at least the requested size except for the last seven sizes before wrap-around. */
  lemma RoundEnough(size: nat)
    requires size < WORD
    ensures Round(size) % 8 == 0
    ensures Round(size) >= size <==> size <= WORD - 8
  {
  }

  /** The auxiliary heaps ask for at least the requested size exactly up to 4 GB less eight. */
  lemma RoundNarrowEnough(size: nat)
    requires size < WORD
    ensures RoundNarrow(size) % 8 == 0
    ensures RoundNarrow(size) >= size <==> size <= HALF - 8
  {
    if size > HALF - 8 {
      assert RoundNarrow(size) < HALF;
      assert size < HALF ==> (size + 7) % WORD % HALF < 8;
    }
  }

  /** Subtraction that stops at zero. */
  function Minus(a: nat, b: nat): nat { if a >= b then a - b else 0 }

  function NextAddr(bs: seq<Blk>, i: nat): int
    requires i < |bs|
  {
    if i + 1 < |bs| then bs[i + 1].addr else 0
  }

  /** The headers in memory are the block list. */
  predicate Linked(hdr: map<int, Header>, bs: seq<Blk>) {
    forall i :: 0 <= i < |bs| ==>
      bs[i].addr in hdr && hdr[bs[i].addr] == Header(bs[i].size, NextAddr(bs, i), bs[i].free)
  }

  class Heap {
    const base: int
    const size: nat
    const counted: bool   // the main heap keeps a count of used bytes, the auxiliary ones do not
    var start: int
    var used: nat
    var hdr: map<int, Header>
    ghost var blocks: seq<Blk>

    ghost predicate Shape()
      reads this
    {
      && 0 < base && base + size <= LIMIT && start == base
      && Tiled(blocks, base, base + size) && Linked(hdr, blocks)
    }

    ghost predicate Valid()
      reads this
    {
      Shape() && Coalesced(blocks) && (counted ==> used == UsedBytes(blocks))
    }

    /** `kmalloc_init` and `kheap_init`. */
    constructor (b: int, n: nat, main: bool)
      requires 0 < b && b % 8 == 0 && n >= HDR && b + n <= LIMIT
      ensures Valid() && base == b && size == n && counted == main && Single(blocks, b, b + n)
    {
      base, size, counted := b, n, main;
      start, used := b, 0;
      hdr := map[b := Header(n - HDR, 0, true)];
      blocks := [Blk(b, n - HDR, true)];
    }

    /** `block_in_heap` and `kheap_block_ok`, with the header's size read only when it is inside. */
    predicate InHeap(p: int)
      requires base <= p && p + HDR <= base + size ==> p in hdr
      reads this
    {
      base <= p && p + HDR <= base + size && hdr[p].size <= base + size - p - HDR
    }

    /** The scan loop. It never meets a block outside the heap. */
    method FindFit(need: nat) returns (curr: int, ghost i: nat)
      requires Shape()
      ensures i == FirstFit(blocks, need)
      ensures curr == (if i < |blocks| then blocks[i].addr else 0) && (i < |blocks| ==> curr > 0)
    {
      hide Tiled, Linked, FirstFit;
      HeaderHere(hdr, blocks, base, base + size, 0);
      curr, i := start, 0;
      while curr != 0
        invariant i <= |blocks| && curr == if i < |blocks| then blocks[i].addr else 0
        invariant i < |blocks| ==> curr > 0 && curr in hdr
        invariant forall k :: 0 <= k < i ==> !(blocks[k].free && blocks[k].size >= need)
        decreases |blocks| - i
      {
        HeaderHere(hdr, blocks, base, base + size, i);
        if !InHeap(curr) || (hdr[curr].free && hdr[curr].size >= need) {
          break;
        }
        if i + 1 < |blocks| {
          HeaderHere(hdr, blocks, base, base + size, i + 1);
        }
        curr, i := hdr[curr].next, i + 1;
      }
      if i < |blocks| {
        HeaderHere(hdr, blocks, base, base + size, i);
      }
      FirstFitUnique(blocks, need, i);
    }

    /** Split if worth it, then mark as used. */
    method TakeBlock(curr: int, need: nat, ghost i: nat)
      requires Shape() && i < |blocks| && blocks[i].addr == curr && need % 8 == 0 && blocks[i].size >= need
      modifies this`hdr, this`blocks
      ensures Shape() && blocks == TakeAt(old(blocks), i, need)
      ensures curr in hdr && hdr[curr].size == blocks[i].size
    {
      hide Tiled, Linked, SplitAt;
      HeaderHere(hdr, blocks, base, base + size, i);
      SplitTiled(blocks, base, base + size, i, need);
      SplitHere(blocks, i, need);
      if hdr[curr].size > need + HDR + 8 {
        SplitLinked(hdr, blocks, base, base + size, i, need);
        var nb := curr + HDR + need;
        hdr := hdr[nb := Header(hdr[curr].size - need - HDR, hdr[curr].next, true)];
        hdr := hdr[curr := hdr[curr].(size := need, next := nb)];
      } else {
        SplitNone(blocks, i, need);
      }
      blocks := SplitAt(blocks, i, need);
      HeaderHere(hdr, blocks, base, base + size, i);
      SetFreeTiled(blocks, base, base + size, i, false);
      SetFreeLinked(hdr, blocks, base, base + size, i, false);
      hdr := hdr[curr := hdr[curr].(free := false)];
      blocks := SetFree(blocks, i, false);
    }

    /** Common part of the two allocators on a rounded size. */
    method Allocate(need: nat) returns (p: int, ghost i: nat)
      requires Valid() && need % 8 == 0
      modifies this
      ensures Valid() && i == FirstFit(old(blocks), need)
      ensures i == |old(blocks)| ==> p == 0 && blocks == old(blocks) && used == old(used)
      ensures i < |old(blocks)| ==>
                && blocks == TakeAt(old(blocks), i, need) && p == blocks[i].addr + HDR && p % 8 == 0 && p > 0
                && need <= blocks[i].size <= need + 32 && !blocks[i].free && blocks[i] !in Live(old(blocks))
                && Live(blocks) == Live(old(blocks)) + {blocks[i]}
    {
      hide Tiled, Linked, FirstFit, Coalesced, UsedBytes, Live, TakeAt;
      var curr;
      curr, i := FindFit(need);
      if curr == 0 {
        return 0, i;
      }
      TakeOk(blocks, base, base + size, i, need);
      Aligned(blocks, base, base + size, i);
      TakeBlock(curr, need, i);
      if counted {
        used := used + hdr[curr].size;
      }
      p := curr + HDR;
    }

    /** `kmalloc`: NULL only when no free block is large enough. */
    method Kmalloc(n: nat) returns (p: int, ghost i: nat)
      requires Valid() && n < WORD
      modifies this
      ensures Valid()
      ensures p == 0 <==> forall k :: 0 <= k < |old(blocks)| ==>
              !(old(blocks)[k].free && old(blocks)[k].size >= Round(n))
      ensures p == 0 ==> blocks == old(blocks)
      ensures p != 0 ==> && i < |blocks| && p == blocks[i].addr + HDR && p % 8 == 0
                         && Round(n) <= blocks[i].size <= Round(n) + 32
                         && blocks[i] !in Live(old(blocks)) && Live(blocks) == Live(old(blocks)) + {blocks[i]}
    {
      hide Tiled, Linked, Coalesced, UsedBytes, Live, Round, TakeAt;
      RoundEnough(n);
      p, i := Allocate(Round(n));
    }

    /** `kheap_alloc`: the same with the narrow mask. */
    method KheapAlloc(n: nat) returns (p: int, ghost i: nat)
      requires Valid() && n < WORD
      modifies this
      ensures Valid()
      ensures p == 0 <==> forall k :: 0 <= k < |old(blocks)| ==>
              !(old(blocks)[k].free && old(blocks)[k].size >= RoundNarrow(n))
      ensures p == 0 ==> blocks == old(blocks)
      ensures p != 0 ==> && i < |blocks| && p == blocks[i].addr + HDR && p % 8 == 0
                         && RoundNarrow(n) <= blocks[i].size <= RoundNarrow(n) + 32
                         && blocks[i] !in Live(old(blocks)) && Live(blocks) == Live(old(blocks)) + {blocks[i]}
    {
      hide Tiled, Linked, Coalesced, UsedBytes, Live, RoundNarrow, TakeAt;
      RoundNarrowEnough(n);
      p, i := Allocate(RoundNarrow(n));
    }

    /** `kfree` and `kheap_free`: nothing for null, for a pointer outside the heap or for a free block. */
    method Free(ptr: int, ghost i: nat)
      requires Valid()
      requires ptr == 0 || HDR <= ptr < base + HDR || ptr > base + size || (i < |blocks| && ptr == blocks[i].addr + HDR)
      modifies this`hdr, this`used, this`blocks
      ensures Valid()
      ensures ptr == 0 || ptr < base + HDR || ptr > base + size || old(blocks)[i].free ==> blocks == old(blocks)
      ensures base + HDR <= ptr <= base + size && !old(blocks)[i].free ==>
                && blocks == ReleaseAt(old(blocks), i) && Live(blocks) == Live(old(blocks)) - {old(blocks)[i]}
    {
      hide Tiled, Linked, Coalesced, UsedBytes, Live, Sweep, ReleaseAt, SetFree;
      if ptr == 0 {
        return;
      }
      var block := ptr - HDR;
      if base <= block && block + HDR <= base + size {
        HeaderHere(hdr, blocks, base, base + size, i);
      }
      if !InHeap(block) || hdr[block].free {
        return;
      }
      ReleaseOk(blocks, base, base + size, i);
      ReleaseUnfold(blocks, i);
      SetFreeTiled(blocks, base, base + size, i, true);
      SetFreeLinked(hdr, blocks, base, base + size, i, true);
      hdr := hdr[block := hdr[block].(free := true)];
      if counted {
        UsedAtLeast(blocks, i);
        used := Minus(used, hdr[block].size);
      }
      blocks := SetFree(blocks, i, true);
      Coalesce();
    }

    /** The walk that merges neighbouring free blocks. */
    method Coalesce()
      requires Shape()
      modifies this`hdr, this`blocks
      ensures Shape() && blocks == Sweep(old(blocks), 0)
    {
      hide Tiled, Linked, Sweep, MergeAt;
      NonEmpty(blocks, base, base + size);
      HeaderHere(hdr, blocks, base, base + size, 0);
      if |blocks| > 1 {
        HeaderHere(hdr, blocks, base, base + size, 1);
      }
      var curr, next := start, hdr[start].next;
      ghost var i := 0;
      while next != 0 && InHeap(curr) && InHeap(next)
        invariant Shape() && i < |blocks| && curr == blocks[i].addr && curr in hdr && next == hdr[curr].next
        invariant next == NextAddr(blocks, i) && (next != 0 ==> next in hdr && i + 1 < |blocks|)
        invariant i + 1 < |blocks| ==> next != 0 && InHeap(curr) && InHeap(next)
        invariant Sweep(old(blocks), 0) == Sweep(blocks, i)
        decreases |blocks| - i
      {
        HeaderHere(hdr, blocks, base, base + size, i);
        HeaderHere(hdr, blocks, base, base + size, i + 1);
        SweepStep(blocks, i);
        if hdr[curr].free && hdr[next].free && curr + HDR + hdr[curr].size == next {
          MergeLinked(hdr, blocks, base, base + size, i);
          MergeTiled(blocks, base, base + size, i);
          MergeFacts(blocks, i);
          hdr := hdr[curr := hdr[curr].(size := hdr[curr].size + HDR + hdr[next].size, next := hdr[next].next)];
          blocks := MergeAt(blocks, i);
        } else {
          curr, i := next, i + 1;
        }
        HeaderHere(hdr, blocks, base, base + size, i);
        if i + 1 < |blocks| {
          HeaderHere(hdr, blocks, base, base + size, i + 1);
        }
        next := hdr[curr].next;
      }
      SweepStep(blocks, i);
    }

    /** `kmalloc_get_free`. */
    method GetFree() returns (bytes: nat)
      requires Valid()
      ensures bytes == FreeBytes(blocks)
      ensures counted ==> bytes + used + HDR * LiveCount(blocks) == size
    {
      hide Tiled, Linked, Coalesced, UsedBytes, LiveCount;
      bytes := 0;
      Conserved(blocks, base, base + size);
      HeaderHere(hdr, blocks, base, base + size, 0);
      var curr := start;
      ghost var i := 0;
      while curr != 0
        invariant i <= |blocks| && curr == if i < |blocks| then blocks[i].addr else 0
        invariant i < |blocks| ==> curr > 0 && curr in hdr && InHeap(curr)
        invariant bytes + FreeBytes(blocks[i..]) == FreeBytes(blocks)
        decreases |blocks| - i
      {
        HeaderHere(hdr, blocks, base, base + size, i);
        if !InHeap(curr) {
          break;
        }
        assert blocks[i..][1..] == blocks[i + 1..];
        if hdr[curr].free {
          bytes := bytes + hdr[curr].size + HDR;
        }
        if i + 1 < |blocks| {
          HeaderHere(hdr, blocks, base, base + size, i + 1);
        }
        curr, i := hdr[curr].next, i + 1;
      }
      assert blocks[i..] == [];
    }
  }

  /** What the header of block `i` says, and that the block lies inside the heap. */
  lemma HeaderHere(hdr: map<int, Header>, bs: seq<Blk>, base: int, top: int, i: nat)
    requires Tiled(bs, base, top) && Linked(hdr, bs) && base > 0 && (i < |bs| || i == 0)
    ensures i < |bs| && bs[i].addr in hdr && hdr[bs[i].addr].size == bs[i].size && hdr[bs[i].addr].free == bs[i].free
    ensures base <= bs[i].addr && bs[i].addr + HDR <= top && bs[i].size <= top - bs[i].addr - HDR
    ensures i == 0 ==> bs[i].addr == base
    ensures hdr[bs[i].addr].next == NextAddr(bs, i)
    ensures i + 1 < |bs| ==> NextAddr(bs, i) == End(bs[i]) > 0
  {
    Within(bs, base, top, i);
  }

  lemma NonEmpty(bs: seq<Blk>, base: int, top: int)
    requires Tiled(bs, base, top)
    ensures bs != [] && bs[0].addr == base
  {
  }

  lemma Aligned(bs: seq<Blk>, base: int, top: int, i: nat)
    requires Tiled(bs, base, top) && i < |bs|
    ensures (bs[i].addr + HDR) % 8 == 0
  {
  }

  lemma FirstFitUnique(bs: seq<Blk>, need: nat, i: nat)
    requires i <= |bs| && (i < |bs| ==> bs[i].free && bs[i].size >= need)
    requires forall k :: 0 <= k < i ==> !(bs[k].free && bs[k].size >= need)
    ensures FirstFit(bs, need) == i
  {
    var f := FirstFit(bs, need);
  }

  lemma SplitNone(bs: seq<Blk>, i: nat, need: nat)
    requires i < |bs| && bs[i].size <= need + HDR + 8
    ensures SplitAt(bs, i, need) == bs
  {
  }

  lemma ReleaseUnfold(bs: seq<Blk>, i: nat)
    requires i < |bs|
    ensures SetFree(bs, i, true) != [] && ReleaseAt(bs, i) == Sweep(SetFree(bs, i, true), 0)
  {
  }

  lemma UsedAtLeast(bs: seq<Blk>, i: nat)
    requires i < |bs| && !bs[i].free
    ensures UsedBytes(bs) >= bs[i].size
  {
    SetFreeUsed(bs, i, true);
  }

  lemma SweepStep(bs: seq<Blk>, i: nat)
    requires i < |bs|
    ensures i + 1 == |bs| ==> Sweep(bs, i) == bs
    ensures i + 1 < |bs| && !(bs[i].free && bs[i + 1].free) ==> Sweep(bs, i) == Sweep(bs, i + 1)
    ensures i + 1 < |bs| && bs[i].free && bs[i + 1].free ==>
            i < |MergeAt(bs, i)| && Sweep(bs, i) == Sweep(MergeAt(bs, i), i)
  {
  }

  lemma MergeFacts(bs: seq<Blk>, i: nat)
    requires i + 1 < |bs|
    ensures i < |MergeAt(bs, i)| == |bs| - 1 && MergeAt(bs, i)[i].addr == bs[i].addr
  {
  }

  lemma SplitLinked(hdr: map<int, Header>, bs: seq<Blk>, base: int, top: int, i: nat, need: nat)
    requires Tiled(bs, base, top) && Linked(hdr, bs) && i < |bs| && bs[i].size > need + HDR + 8
    ensures var c := bs[i].addr; var nb := c + HDR + need;
            && c in hdr && hdr[c].size >= need + HDR
            && var h1 := hdr[nb := Header(hdr[c].size - need - HDR, hdr[c].next, true)];
            Linked(h1[c := h1[c].(size := need, next := nb)], SplitAt(bs, i, need))
  {
    hide Tiled;
    var c := bs[i].addr;
    var nb := c + HDR + need;
    var h1 := hdr[nb := Header(hdr[c].size - need - HDR, hdr[c].next, true)];
    var w := h1[c := h1[c].(size := need, next := nb)];
    var r := SplitAt(bs, i, need);
    forall k | 0 <= k < |r|
      ensures r[k].addr in w && w[r[k].addr] == Header(r[k].size, NextAddr(r, k), r[k].free)
    {
      if k < i {
        Ordered(bs, base, top, k, i);
        assert r[k] == bs[k] && r[k + 1].addr == bs[k + 1].addr;
      } else if k > i + 1 {
        Ordered(bs, base, top, i, k - 1);
        assert r[k] == bs[k - 1] && (k + 1 < |r| ==> r[k + 1] == bs[k]);
      } else {
        assert r[i].addr == c && r[i + 1].addr == nb && (i + 2 < |r| ==> r[i + 2] == bs[i + 1]);
      }
    }
  }

  lemma SetFreeLinked(hdr: map<int, Header>, bs: seq<Blk>, base: int, top: int, i: nat, f: bool)
    requires Tiled(bs, base, top) && Linked(hdr, bs) && i < |bs|
    ensures bs[i].addr in hdr && Linked(hdr[bs[i].addr := hdr[bs[i].addr].(free := f)], SetFree(bs, i, f))
  {
    hide Tiled;
    var r := SetFree(bs, i, f);
    var w := hdr[bs[i].addr := hdr[bs[i].addr].(free := f)];
    forall k | 0 <= k < |r|
      ensures r[k].addr in w && w[r[k].addr] == Header(r[k].size, NextAddr(r, k), r[k].free)
    {
      if k != i {
        Apart(bs, base, top, i, k);
      }
    }
  }

  lemma MergeLinked(hdr: map<int, Header>, bs: seq<Blk>, base: int, top: int, i: nat)
    requires Tiled(bs, base, top) && Linked(hdr, bs) && i + 1 < |bs|
    ensures var c := bs[i].addr; var n := bs[i + 1].addr;
            && c in hdr && n in hdr
            && Linked(hdr[c := hdr[c].(size := hdr[c].size + HDR + hdr[n].size, next := hdr[n].next)], MergeAt(bs, i))
  {
    hide Tiled;
    var c := bs[i].addr;
    var n := bs[i + 1].addr;
    var w := hdr[c := hdr[c].(size := hdr[c].size + HDR + hdr[n].size, next := hdr[n].next)];
    var r := MergeAt(bs, i);
    forall k | 0 <= k < |r|
      ensures r[k].addr in w && w[r[k].addr] == Header(r[k].size, NextAddr(r, k), r[k].free)
    {
      if k < i {
        Ordered(bs, base, top, k, i);
        assert r[k] == bs[k] && r[k + 1].addr == bs[k + 1].addr;
      } else if k > i {
        Ordered(bs, base, top, i, k + 1);
        assert r[k] == bs[k + 1] && (k + 1 < |r| ==> r[k + 1] == bs[k + 2]);
      } else {
        assert r[i].addr == c && (i + 1 < |r| ==> r[i + 1] == bs[i + 2]);
      }
    }
  }
}
