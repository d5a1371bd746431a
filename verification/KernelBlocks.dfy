/** The block list behind the kernel heaps: blocks that tile one fixed region. */
module KernelBlocks {
  import opened BlockLists

  const HDR := 24   // sizeof(alloc_header_t)

  function End(b: Blk): int { EndOf(b, HDR) }

  /** The blocks tile `[base, top)` in address order and every header is 8-byte aligned. */
  predicate Tiled(bs: seq<Blk>, base: int, top: int) { Chained(bs, base, top, HDR, 8) }

  /** No two neighbours before index `n` are both free. */
  predicate CoalescedTo(bs: seq<Blk>, n: int) {
    forall i :: 0 < i < |bs| && i <= n ==> !(bs[i - 1].free && bs[i].free)
  }

  lemma Ordered(bs: seq<Blk>, base: int, top: int, i: nat, j: nat)
    requires Tiled(bs, base, top) && i < j < |bs|
    ensures End(bs[i]) <= bs[j].addr
  {
    ChainOrdered(bs, base, top, HDR, 8, i, j);
  }

  lemma Within(bs: seq<Blk>, base: int, top: int, i: nat)
    requires Tiled(bs, base, top) && i < |bs|
    ensures base <= bs[i].addr && End(bs[i]) <= top
  {
    ChainWithin(bs, base, top, HDR, 8, i);
  }

  /** Two blocks never overlap, headers included. */
  lemma Apart(bs: seq<Blk>, base: int, top: int, i: nat, j: nat)
    requires Tiled(bs, base, top) && i < |bs| && j < |bs| && i != j
    ensures bs[i].addr != bs[j].addr && (End(bs[i]) <= bs[j].addr || End(bs[j]) <= bs[i].addr)
  {
    ChainApart(bs, base, top, HDR, 8, i, j);
  }

  // ---- totals ----

  /** Bytes of the free blocks with their headers: what `kmalloc_get_free` reports. */
  function FreeBytes(bs: seq<Blk>): nat {
    if bs == [] then 0 else (if bs[0].free then bs[0].size + HDR else 0) + FreeBytes(bs[1..])
  }

  function LiveCount(bs: seq<Blk>): nat {
    if bs == [] then 0 else (if bs[0].free then 0 else 1) + LiveCount(bs[1..])
  }

  /** Conservation: free bytes, used bytes and the headers of live blocks add up to the region. */
  lemma {:induction false} Conserved(bs: seq<Blk>, base: int, top: int)
    requires Tiled(bs, base, top)
    ensures FreeBytes(bs) + UsedBytes(bs) + HDR * LiveCount(bs) == top - base
  {
    if |bs| == 1 {
      assert bs[1..] == [];
    } else {
      var r := bs[1..];
      assert forall i :: 0 < i < |r| ==> r[i].addr == bs[i + 1].addr == End(bs[i]) == End(r[i - 1]);
      assert Tiled(r, End(bs[0]), top);
      Conserved(r, End(bs[0]), top);
    }
  }

  // ---- operations on the list ----

  lemma ReplaceTiled(bs: seq<Blk>, base: int, top: int, i: nat, n: nat, mid: seq<Blk>)
    requires Tiled(bs, base, top) && 0 < n && i + n <= |bs|
    requires Tiled(mid, bs[i].addr, End(bs[i + n - 1]))
    ensures Tiled(Replace(bs, i, n, mid), base, top)
  {
    ReplaceChained(bs, base, top, HDR, 8, i, n, mid);
  }

  /** Cut block `i` down to `need` when more than a header and 8 bytes would be left over. */
  function SplitAt(bs: seq<Blk>, i: nat, need: nat): seq<Blk>
    requires i < |bs|
  {
    var b := bs[i];
    if b.size > need + HDR + 8
    then Replace(bs, i, 1, [b.(size := need), Blk(b.addr + HDR + need, b.size - need - HDR, true)])
    else bs
  }

  function TakeAt(bs: seq<Blk>, i: nat, need: nat): (r: seq<Blk>)
    requires i < |bs|
    ensures i < |r|
  {
    SetFree(SplitAt(bs, i, need), i, false)
  }

  function MergeAt(bs: seq<Blk>, i: nat): seq<Blk>
    requires i + 1 < |bs|
  {
    Merge(bs, i, HDR)
  }

  /** The coalescing walk of `kfree` from block `i` on. */
  function Sweep(bs: seq<Blk>, i: nat): seq<Blk>
    requires i < |bs|
    decreases |bs| - i
  {
    if i + 1 == |bs| then bs
    else if bs[i].free && bs[i + 1].free then Sweep(MergeAt(bs, i), i)
    else Sweep(bs, i + 1)
  }

  /** Give block `i` back. */
  function ReleaseAt(bs: seq<Blk>, i: nat): seq<Blk>
    requires i < |bs|
  {
    Sweep(SetFree(bs, i, true), 0)
  }

  lemma SplitTiled(bs: seq<Blk>, base: int, top: int, i: nat, need: nat)
    requires Tiled(bs, base, top) && i < |bs| && need % 8 == 0
    ensures Tiled(SplitAt(bs, i, need), base, top)
  {
    var b := bs[i];
    if b.size > need + HDR + 8 {
      var x := b.(size := need);
      var y := Blk(End(x), b.size - need - HDR, true);
      assert y.addr % 8 == 0;
      assert Tiled([x, y], b.addr, End(b));
      ReplaceTiled(bs, base, top, i, 1, [x, y]);
    }
  }

  lemma MergeTiled(bs: seq<Blk>, base: int, top: int, i: nat)
    requires Tiled(bs, base, top) && i + 1 < |bs|
    ensures Tiled(MergeAt(bs, i), base, top)
  {
    ReplaceTiled(bs, base, top, i, 2, [bs[i].(size := bs[i].size + HDR + bs[i + 1].size)]);
  }

  lemma SetFreeTiled(bs: seq<Blk>, base: int, top: int, i: nat, f: bool)
    requires Tiled(bs, base, top) && i < |bs|
    ensures Tiled(SetFree(bs, i, f), base, top)
  {
  }

  /** Splitting a free block changes neither the live blocks nor the bytes in use. */
  lemma SplitSame(bs: seq<Blk>, i: nat, need: nat)
    requires i < |bs| && bs[i].free
    ensures Live(SplitAt(bs, i, need)) == Live(bs) && UsedBytes(SplitAt(bs, i, need)) == UsedBytes(bs)
  {
    hide Replace, UsedBytes, Live;
    var b := bs[i];
    if b.size > need + HDR + 8 {
      LiveHalves(bs, i, b.(size := need), Blk(b.addr + HDR + need, b.size - need - HDR, true));
    }
  }

  lemma LiveSetFree(bs: seq<Blk>, base: int, top: int, i: nat, f: bool)
    requires Tiled(bs, base, top) && i < |bs|
    ensures Live(SetFree(bs, i, f)) == Live(bs) - {bs[i]} + if f then {} else {bs[i].(free := false)}
  {
    ChainSetFree(bs, base, top, HDR, 8, i, f);
  }

  // ---- what the operations keep ----

  /** The state of a kernel heap: tiled and fully coalesced. */
  predicate HeapOk(bs: seq<Blk>, base: int, top: int) { Tiled(bs, base, top) && Coalesced(bs) }

  /** The walk merges every pair of free neighbours and changes no live block. */
  lemma {:induction false} SweepOk(bs: seq<Blk>, base: int, top: int, i: nat)
    requires Tiled(bs, base, top) && i < |bs| && CoalescedTo(bs, i)
    ensures var r := Sweep(bs, i); HeapOk(r, base, top) && UsedBytes(r) == UsedBytes(bs) && Live(r) == Live(bs)
    decreases |bs| - i
  {
    hide UsedBytes, Live, Tiled, Merge;
    if i + 1 < |bs| {
      if bs[i].free && bs[i + 1].free {
        MergeTiled(bs, base, top, i);
        MergeUsed(bs, i, HDR);
        LiveMerge(bs, i, HDR);
        MergeFront(bs, i);
        SweepOk(MergeAt(bs, i), base, top, i);
      } else {
        SweepOk(bs, base, top, i + 1);
      }
    }
  }

  lemma MergeFront(bs: seq<Blk>, i: nat)
    requires i + 1 < |bs| && CoalescedTo(bs, i)
    ensures var r := MergeAt(bs, i); i < |r| && |r| == |bs| - 1 && CoalescedTo(r, i)
  {
    var r := MergeAt(bs, i);
    assert forall k :: 0 <= k < i ==> r[k] == bs[k];
  }

  /** Handing out block `i`: exactly that block becomes live. */
  lemma TakeOk(bs: seq<Blk>, base: int, top: int, i: nat, need: nat)
    requires HeapOk(bs, base, top) && i < |bs| && bs[i].free && bs[i].size >= need && need % 8 == 0
    ensures var r := TakeAt(bs, i, need);
            && HeapOk(r, base, top) && r[i].addr == bs[i].addr && need <= r[i].size <= need + 32 && !r[i].free
            && UsedBytes(r) == UsedBytes(bs) + r[i].size
            && r[i] !in Live(bs) && Live(r) == Live(bs) + {r[i]}
  {
    hide UsedBytes, SplitAt, Tiled, Coalesced, Live;
    SplitTiled(bs, base, top, i, need);
    var m := SplitAt(bs, i, need);
    SplitHere(bs, i, need);
    SetFreeTiled(m, base, top, i, false);
    SetFreeUsed(m, i, false);
    SplitSame(bs, i, need);
    TakeCoalesced(bs, i, need);
    LiveSetFree(m, base, top, i, false);
    NotLiveHere(bs, base, top, i, TakeAt(bs, i, need)[i]);
    NotLiveHere(bs, base, top, i, m[i]);
  }

  lemma SplitHere(bs: seq<Blk>, i: nat, need: nat)
    requires i < |bs| && bs[i].size >= need
    ensures var m := SplitAt(bs, i, need);
            i < |m| && m[i].addr == bs[i].addr && m[i].free == bs[i].free && need <= m[i].size <= need + 32
  {
  }

  lemma NotLiveHere(bs: seq<Blk>, base: int, top: int, i: nat, b: Blk)
    requires Tiled(bs, base, top) && i < |bs| && bs[i].free && b.addr == bs[i].addr
    ensures b !in Live(bs)
  {
    hide Tiled;
    if b in Live(bs) {
      var j :| 0 <= j < |bs| && bs[j] == b;
      Apart(bs, base, top, i, j);
    }
  }

  lemma TakeCoalesced(bs: seq<Blk>, i: nat, need: nat)
    requires Coalesced(bs) && i < |bs| && bs[i].free
    ensures Coalesced(TakeAt(bs, i, need))
  {
    var m := SplitAt(bs, i, need);
    var r := TakeAt(bs, i, need);
    if m != bs {
      assert i + 2 < |m| ==> m[i + 2] == bs[i + 1];
      forall k | 0 < k < |r|
        ensures !(r[k - 1].free && r[k].free)
      {
        if k > i + 2 {
          assert r[k] == bs[k - 1] && r[k - 1] == bs[k - 2];
        }
      }
    }
  }

  /** Giving block `i` back: exactly that block stops being live and everything is coalesced again. */
  lemma ReleaseOk(bs: seq<Blk>, base: int, top: int, i: nat)
    requires HeapOk(bs, base, top) && i < |bs| && !bs[i].free
    ensures var r := ReleaseAt(bs, i);
            && HeapOk(r, base, top) && UsedBytes(r) == UsedBytes(bs) - bs[i].size && Live(r) == Live(bs) - {bs[i]}
  {
    hide UsedBytes, Tiled, Live, Sweep;
    var s := SetFree(bs, i, true);
    SetFreeTiled(bs, base, top, i, true);
    SetFreeUsed(bs, i, true);
    LiveSetFree(bs, base, top, i, true);
    SweepOk(s, base, top, 0);
  }

  /** One free block fills the region: the list a heap starts with. */
  predicate Single(bs: seq<Blk>, base: int, top: int) {
    |bs| == 1 && bs[0].addr == base && End(bs[0]) == top && bs[0].free
  }

  /** Once nothing is live the heap is the single block it started as. */
  lemma AllFreed(bs: seq<Blk>, base: int, top: int)
    requires HeapOk(bs, base, top) && Live(bs) == {}
    ensures Single(bs, base, top)
  {
    NoneLive(bs, 0);
    if |bs| > 1 {
      NoneLive(bs, 1);
    }
  }

  lemma NoneLive(bs: seq<Blk>, i: nat)
    requires Live(bs) == {} && i < |bs|
    ensures bs[i].free
  {
    assert bs[i] in Live(bs) + (if bs[i].free then {bs[i]} else {});
  }

  // ---- runs ----

  /** A call: a request already rounded to 8 bytes, or a free of the block at an address. */
  datatype Call = Alloc(need: nat) | Free(addr: int)

  function IndexAt(bs: seq<Blk>, addr: int): (i: nat)
    ensures i <= |bs| && (i < |bs| ==> bs[i].addr == addr)
  {
    if bs == [] then 0 else if bs[0].addr == addr then 0 else 1 + IndexAt(bs[1..], addr)
  }

  function Perform(bs: seq<Blk>, c: Call): seq<Blk> {
    match c
    case Alloc(need) =>
      var i := FirstFit(bs, need); if i < |bs| && need % 8 == 0 then TakeAt(bs, i, need) else bs
    case Free(addr) =>
      var i := IndexAt(bs, addr); if i < |bs| && !bs[i].free then ReleaseAt(bs, i) else bs
  }

  function Run(bs: seq<Blk>, calls: seq<Call>): seq<Blk>
    decreases |calls|
  {
    if calls == [] then bs else Run(Perform(bs, calls[0]), calls[1..])
  }

  lemma PerformOk(bs: seq<Blk>, base: int, top: int, c: Call)
    requires HeapOk(bs, base, top)
    ensures HeapOk(Perform(bs, c), base, top)
  {
    hide HeapOk, TakeAt, ReleaseAt;
    match c
    case Alloc(need) =>
      var i := FirstFit(bs, need);
      if i < |bs| && need % 8 == 0 {
        TakeOk(bs, base, top, i, need);
      }
    case Free(addr) =>
      var i := IndexAt(bs, addr);
      if i < |bs| && !bs[i].free {
        ReleaseOk(bs, base, top, i);
      }
  }

  /** Over every run from a fresh heap: tiling and coalescing hold, the totals add up, and when
      everything has been given back the heap is the initial block again. */
  lemma {:induction false} RunOk(bs: seq<Blk>, base: int, top: int, calls: seq<Call>)
    requires HeapOk(bs, base, top)
    ensures var r := Run(bs, calls);
            && HeapOk(r, base, top)
            && FreeBytes(r) + UsedBytes(r) + HDR * LiveCount(r) == top - base
            && (Live(r) == {} ==> Single(r, base, top))
    decreases |calls|
  {
    hide Tiled, Coalesced, Perform, FreeBytes, UsedBytes, LiveCount, Live;
    if calls == [] {
      Conserved(bs, base, top);
      if Live(bs) == {} {
        AllFreed(bs, base, top);
      }
    } else {
      PerformOk(bs, base, top, calls[0]);
      RunOk(Perform(bs, calls[0]), base, top, calls[1..]);
    }
  }
}
