/** The block list behind `umalloc`: address-ordered blocks that tile the SBRK arena. */
module HeapBlocks {
  import opened BlockLists

  const HEADER := 32

  function End(b: Blk): int { EndOf(b, HEADER) }

  /** Blocks tile `[base, brk)` in address order, sizes and addresses being multiples of 16. */
  predicate Tiled(bs: seq<Blk>, base: int, brk: int) {
    && 0 < base <= brk && base % 16 == 0
    && (bs == [] ==> base == brk)
    && (bs != [] ==> Chained(bs, base, brk, HEADER, 16))
    && (forall i :: 0 <= i < |bs| ==> bs[i].size % 16 == 0)
  }

  lemma Ordered(bs: seq<Blk>, base: int, brk: int, i: nat, j: nat)
    requires Tiled(bs, base, brk) && i < j < |bs|
    ensures End(bs[i]) <= bs[j].addr
  {
    ChainOrdered(bs, base, brk, HEADER, 16, i, j);
  }

  lemma Within(bs: seq<Blk>, base: int, brk: int, i: nat)
    requires Tiled(bs, base, brk) && i < |bs|
    ensures base <= bs[i].addr && End(bs[i]) <= brk
  {
    ChainWithin(bs, base, brk, HEADER, 16, i);
  }

  lemma Apart(bs: seq<Blk>, base: int, brk: int, i: nat, j: nat)
    requires Tiled(bs, base, brk) && i < |bs| && j < |bs| && i != j
    ensures bs[i].addr != bs[j].addr && (End(bs[i]) <= bs[j].addr || End(bs[j]) <= bs[i].addr)
  {
    ChainApart(bs, base, brk, HEADER, 16, i, j);
  }

  /** Replacing a stretch by blocks covering the same addresses keeps the tiling. */
  lemma ReplaceTiled(bs: seq<Blk>, base: int, brk: int, i: nat, n: nat, mid: seq<Blk>)
    requires Tiled(bs, base, brk) && 0 < n && i + n <= |bs| && mid != []
    requires Tiled(mid, bs[i].addr, End(bs[i + n - 1]))
    ensures Tiled(Replace(bs, i, n, mid), base, brk)
  {
    ReplaceChained(bs, base, brk, HEADER, 16, i, n, mid);
  }

  /** The block list once split: block `i` shrinks to `need`, the rest becomes a free block. */
  function SplitAt(bs: seq<Blk>, i: nat, need: nat): seq<Blk>
    requires i < |bs|
  {
    var b := bs[i];
    if b.size < need + HEADER + 16 then bs
    else Replace(bs, i, 1, [Blk(b.addr, need, b.free), Blk(b.addr + HEADER + need, b.size - need - HEADER, true)])
  }

  /** Block `i` swallowed its free successor. */
  function MergeAt(bs: seq<Blk>, i: nat): seq<Blk>
    requires i + 1 < |bs|
  {
    Merge(bs, i, HEADER)
  }

  /** Block `i` swallowed all free blocks right after it. */
  function MergeRun(bs: seq<Blk>, i: nat): seq<Blk>
    requires i < |bs|
    decreases |bs|
  {
    if i + 1 < |bs| && bs[i + 1].free then MergeRun(MergeAt(bs, i), i) else bs
  }

  lemma SplitTiled(bs: seq<Blk>, base: int, brk: int, i: nat, need: nat)
    requires Tiled(bs, base, brk) && i < |bs| && need % 16 == 0
    ensures Tiled(SplitAt(bs, i, need), base, brk)
  {
    hide Tiled;
    var b := bs[i];
    Within(bs, base, brk, i);
    Aligned(bs, base, brk, i);
    if b.size >= need + HEADER + 16 {
      PairTiled(b, need);
      ReplaceTiled(bs, base, brk, i, 1, [Blk(b.addr, need, b.free),
          Blk(b.addr + HEADER + need, b.size - need - HEADER, true)]);
    }
  }

  lemma Aligned(bs: seq<Blk>, base: int, brk: int, i: nat)
    requires Tiled(bs, base, brk) && i < |bs|
    ensures bs[i].addr % 16 == 0 && bs[i].size % 16 == 0 && base > 0
  {
  }

  /** The two halves of a split block cover the same addresses. */
  lemma PairTiled(b: Blk, need: nat)
    requires b.addr > 0 && b.addr % 16 == 0 && b.size % 16 == 0 && need % 16 == 0 && b.size >= need + HEADER + 16
    ensures Tiled([Blk(b.addr, need, b.free), Blk(b.addr + HEADER + need, b.size - need - HEADER, true)],
                  b.addr, End(b))
  {
  }

  lemma MergeTiled(bs: seq<Blk>, base: int, brk: int, i: nat)
    requires Tiled(bs, base, brk) && i + 1 < |bs|
    ensures Tiled(MergeAt(bs, i), base, brk)
  {
    Within(bs, base, brk, i);
    ReplaceTiled(bs, base, brk, i, 2, [bs[i].(size := bs[i].size + HEADER + bs[i + 1].size)]);
  }

  lemma {:induction false} MergeRunTiled(bs: seq<Blk>, base: int, brk: int, i: nat)
    requires Tiled(bs, base, brk) && i < |bs|
    ensures var r := MergeRun(bs, i);
            Tiled(r, base, brk) && i < |r| && r[i].addr == bs[i].addr && r[..i] == bs[..i] && r[i].free == bs[i].free
            && r[i].size >= bs[i].size
    decreases |bs|
  {
    if i + 1 < |bs| && bs[i + 1].free {
      MergeTiled(bs, base, brk, i);
      MergeRunTiled(MergeAt(bs, i), base, brk, i);
      assert MergeAt(bs, i)[..i] == bs[..i];
    }
  }

  // ---- the operations on the list ----

  /** Hand out block `i`. */
  function TakeAt(bs: seq<Blk>, i: nat, need: nat): (r: seq<Blk>)
    requires i < |bs|
    ensures i < |r|
  {
    SetFree(SplitAt(bs, i, need), i, false)
  }

  /** Give block `i` back: merge forward, then into a free predecessor. */
  function ReleaseAt(bs: seq<Blk>, i: nat): seq<Blk>
    requires i < |bs|
  {
    MergeRunLength(SetFree(bs, i, true), i);
    var r := MergeRun(SetFree(bs, i, true), i);
    if i > 0 && r[i - 1].free then MergeRun(r, i - 1) else r
  }

  lemma {:induction false} MergeRunLength(bs: seq<Blk>, i: nat)
    requires i < |bs|
    ensures i < |MergeRun(bs, i)| <= |bs|
    decreases |bs|
  {
    if i + 1 < |bs| && bs[i + 1].free {
      MergeRunLength(MergeAt(bs, i), i);
    }
  }

  /** At most one neighbour is swallowed when the rest of the list is coalesced. */
  lemma MergeRunOnce(bs: seq<Blk>, i: nat)
    requires i < |bs| && forall k :: i + 1 < k < |bs| ==> !(bs[k - 1].free && bs[k].free)
    ensures MergeRun(bs, i) == if i + 1 < |bs| && bs[i + 1].free then MergeAt(bs, i) else bs
  {
    if i + 1 < |bs| && bs[i + 1].free {
      var m := MergeAt(bs, i);
      assert i + 1 < |m| ==> m[i + 1] == bs[i + 2];
    }
  }

  /** Handing out a free block keeps the list coalesced and adds its size to the bytes in use. */
  lemma TakeOk(bs: seq<Blk>, base: int, brk: int, i: nat, need: nat)
    requires Tiled(bs, base, brk) && Coalesced(bs) && i < |bs| && bs[i].free && bs[i].size >= need && need % 16 == 0
    ensures var r := TakeAt(bs, i, need);
            && Tiled(r, base, brk) && Coalesced(r) && r[i].addr == bs[i].addr && !r[i].free
            && need <= r[i].size < need + 48
            && UsedBytes(r) == UsedBytes(bs) + r[i].size
  {
    hide UsedBytes, SplitAt, Tiled, Coalesced;
    SplitTiled(bs, base, brk, i, need);
    var m := SplitAt(bs, i, need);
    SplitBlockAt(bs, i, need);
    SetFreeTiled(m, base, brk, i, false);
    SetFreeUsed(m, i, false);
    SplitSame(bs, i, need);
    TakeCoalesced(bs, i, need);
  }

  lemma SplitBlockAt(bs: seq<Blk>, i: nat, need: nat)
    requires i < |bs| && bs[i].size >= need
    ensures var m := SplitAt(bs, i, need);
            i < |m| && m[i].addr == bs[i].addr && m[i].free == bs[i].free && need <= m[i].size < need + 48
  {
  }

  /** Splitting a free block changes neither the live blocks nor the bytes in use. */
  lemma SplitSame(bs: seq<Blk>, i: nat, need: nat)
    requires i < |bs| && bs[i].free
    ensures Live(SplitAt(bs, i, need)) == Live(bs) && UsedBytes(SplitAt(bs, i, need)) == UsedBytes(bs)
  {
    hide Replace, UsedBytes, Live;
    var b := bs[i];
    if b.size >= need + HEADER + 16 {
      LiveHalves(bs, i, Blk(b.addr, need, b.free), Blk(b.addr + HEADER + need, b.size - need - HEADER, true));
    }
  }

  lemma SetFreeTiled(bs: seq<Blk>, base: int, brk: int, i: nat, f: bool)
    requires Tiled(bs, base, brk) && i < |bs|
    ensures Tiled(SetFree(bs, i, f), base, brk)
  {
  }

  lemma TakeCoalesced(bs: seq<Blk>, i: nat, need: nat)
    requires Coalesced(bs) && i < |bs| && bs[i].free
    ensures Coalesced(TakeAt(bs, i, need))
  {
    TakeSeparates(bs, i, need);
  }

  /** A block handed out separates its neighbours, so only pairs away from it matter. */
  lemma TakeSeparates(bs: seq<Blk>, i: nat, need: nat)
    requires i < |bs| && (i + 1 < |bs| ==> !bs[i + 1].free)
    requires forall k :: 0 < k < |bs| && k != i && k != i + 1 ==> !(bs[k - 1].free && bs[k].free)
    ensures Coalesced(TakeAt(bs, i, need))
  {
    var m := SplitAt(bs, i, need);
    var r := TakeAt(bs, i, need);
    if m != bs {
      assert i + 2 < |m| ==> m[i + 2] == bs[i + 1];
      forall k | 0 < k < |r|
        ensures !(r[k - 1].free && r[k].free)
      {
        if k > i + 2 {
          assert r[k] == bs[k - 1] && r[k - 1] == bs[k - 2];
        }
      }
    }
  }

  /** Giving a block back restores full coalescing and takes its size off the bytes in use. */
  lemma ReleaseOk(bs: seq<Blk>, base: int, brk: int, i: nat)
    requires Tiled(bs, base, brk) && Coalesced(bs) && i < |bs| && !bs[i].free
    ensures var r := ReleaseAt(bs, i);
            Tiled(r, base, brk) && Coalesced(r) && UsedBytes(r) == UsedBytes(bs) - bs[i].size
  {
    hide UsedBytes, Tiled, MergeRun;
    MergeRunLength(SetFree(bs, i, true), i);
    var s := SetFree(bs, i, true);
    SetFreeTiled(bs, base, brk, i, true);
    SetFreeUsed(bs, i, true);
    ForwardOk(s, base, brk, i);
    var m := MergeRun(s, i);
    assert i > 0 ==> m[..i][i - 1] == s[..i][i - 1];
    if i > 0 && m[i - 1].free {
      BackwardOk(m, base, brk, i - 1);
    }
  }

  /** Merging a freed block forward: afterwards only it and its predecessor may both be free. */
  lemma ForwardOk(bs: seq<Blk>, base: int, brk: int, i: nat)
    requires Tiled(bs, base, brk) && i < |bs| && bs[i].free
    requires forall k :: 0 < k < |bs| && k != i && k != i + 1 ==> !(bs[k - 1].free && bs[k].free)
    ensures var r := MergeRun(bs, i);
            && Tiled(r, base, brk) && i < |r| && r[..i] == bs[..i] && r[i].free && UsedBytes(r) == UsedBytes(bs)
            && (forall k :: 0 < k < |r| && k != i ==> !(r[k - 1].free && r[k].free))
  {
    MergeRunTiled(bs, base, brk, i);
    MergeRunOnce(bs, i);
    if i + 1 < |bs| && bs[i + 1].free {
      MergeUsed(bs, i, HEADER);
      var r := MergeAt(bs, i);
      forall k | 0 < k < |r| && k != i
        ensures !(r[k - 1].free && r[k].free)
      {
        if k > i + 1 {
          assert r[k] == bs[k + 1] && r[k - 1] == bs[k];
        } else if k == i + 1 {
          assert r[k] == bs[i + 2];
        }
      }
    }
  }

  lemma BackwardOk(bs: seq<Blk>, base: int, brk: int, i: nat)
    requires Tiled(bs, base, brk) && i + 1 < |bs| && bs[i].free && bs[i + 1].free
    requires forall k :: 0 < k < |bs| && k != i + 1 ==> !(bs[k - 1].free && bs[k].free)
    ensures var r := MergeRun(bs, i); Tiled(r, base, brk) && Coalesced(r) && UsedBytes(r) == UsedBytes(bs)
  {
    ForwardOk(bs, base, brk, i);
    MergeRunOnce(bs, i);
    var r := MergeAt(bs, i);
    assert i > 0 ==> r[i - 1] == bs[i - 1];
  }

  /** The list after SBRK added `bytes` at the old break. */
  function GrownBy(bs: seq<Blk>, brk: int, bytes: nat): seq<Blk>
    requires bytes >= HEADER
  {
    var s := bs + [Blk(brk, bytes - HEADER, true)];
    if bs != [] && bs[|bs| - 1].free then MergeRun(s, |bs| - 1) else s
  }

  /** Growth keeps tiling, coalescing and the bytes in use, and the last block is free with at least
      the new bytes. */
  lemma GrownOk(bs: seq<Blk>, base: int, brk: int, bytes: nat)
    requires Tiled(bs, base, brk) && Coalesced(bs) && bytes >= HEADER && bytes % 16 == 0
    ensures var r := GrownBy(bs, brk, bytes);
            && Tiled(r, base, brk + bytes) && Coalesced(r) && UsedBytes(r) == UsedBytes(bs)
            && r != [] && r[|r| - 1].free && r[|r| - 1].size >= bytes - HEADER
            && (forall k :: 0 <= k < |r| - 1 ==> k < |bs| && r[k] == bs[k])
  {
    hide UsedBytes;
    var x := Blk(brk, bytes - HEADER, true);
    var s := bs + [x];
    AppendTiled(bs, base, brk, x);
    UsedConcat(bs, [x]);
    UsedOne(x);
    if bs != [] && bs[|bs| - 1].free {
      BackwardOk(s, base, brk + bytes, |bs| - 1);
      MergeRunOnce(s, |bs| - 1);
    }
  }

  lemma AppendTiled(bs: seq<Blk>, base: int, brk: int, x: Blk)
    requires Tiled(bs, base, brk) && x.addr == brk && x.size % 16 == 0
    ensures Tiled(bs + [x], base, brk + HEADER + x.size)
  {
    assert brk % 16 == 0;
  }

  /** Growing a used block into its free successor and cutting off what is not needed. */
  function StretchAt(bs: seq<Blk>, i: nat, need: nat): (r: seq<Blk>)
    requires i < |bs|
    ensures i < |r|
  {
    MergeRunLength(bs, i);
    SetFree(SplitAt(MergeRun(bs, i), i, need), i, false)
  }

  lemma StretchOk(bs: seq<Blk>, base: int, brk: int, i: nat, need: nat)
    requires Tiled(bs, base, brk) && Coalesced(bs) && i + 1 < |bs| && !bs[i].free && bs[i + 1].free && need % 16 == 0
    requires bs[i].size < need <= bs[i].size + HEADER + bs[i + 1].size
    ensures var r := StretchAt(bs, i, need);
            && Tiled(r, base, brk) && Coalesced(r) && r[i].addr == bs[i].addr && !r[i].free
            && need <= r[i].size < need + 48
            && UsedBytes(r) == UsedBytes(bs) - bs[i].size + r[i].size
            && r[..i] == bs[..i]
  {
    hide UsedBytes, Tiled, SplitAt, Coalesced;
    MergeTiled(bs, base, brk, i);
    OnceHere(bs, i);
    var m := MergeAt(bs, i);
    SplitTiled(m, base, brk, i, need);
    SplitBlockAt(m, i, need);
    SetFreeTiled(SplitAt(m, i, need), base, brk, i, false);
    StretchCoalesced(bs, i, need);
    StretchUsed(bs, i, need);
    StretchFront(bs, i, need);
  }

  lemma OnceHere(bs: seq<Blk>, i: nat)
    requires Coalesced(bs) && i + 1 < |bs| && bs[i + 1].free
    ensures MergeRun(bs, i) == MergeAt(bs, i)
  {
    MergeRunOnce(bs, i);
  }

  lemma StretchFront(bs: seq<Blk>, i: nat, need: nat)
    requires i + 1 < |bs|
    ensures SetFree(SplitAt(MergeAt(bs, i), i, need), i, false)[..i] == bs[..i]
  {
  }

  lemma StretchCoalesced(bs: seq<Blk>, i: nat, need: nat)
    requires Coalesced(bs) && i + 1 < |bs| && !bs[i].free && bs[i + 1].free
    ensures Coalesced(SetFree(SplitAt(MergeAt(bs, i), i, need), i, false))
  {
    hide SplitAt;
    var m := MergeAt(bs, i);
    assert forall k :: i + 1 <= k < |m| ==> m[k] == bs[k + 1];
    TakeSeparates(m, i, need);
  }

  lemma StretchUsed(bs: seq<Blk>, i: nat, need: nat)
    requires i + 1 < |bs| && !bs[i].free && bs[i + 1].free
    ensures var r := SetFree(SplitAt(MergeAt(bs, i), i, need), i, false);
            UsedBytes(r) == UsedBytes(bs) - bs[i].size + r[i].size
  {
    hide UsedBytes;
    var f := SetFree(bs, i, true);
    SetFreeUsed(bs, i, true);
    MergeUsed(f, i, HEADER);
    SplitSame(MergeAt(f, i), i, need);
    SetFreeUsed(SplitAt(MergeAt(f, i), i, need), i, false);
    StretchViaFree(bs, i, need);
  }

  /** It makes no difference whether the flag is cleared before or after. */
  lemma StretchViaFree(bs: seq<Blk>, i: nat, need: nat)
    requires i + 1 < |bs| && !bs[i].free && bs[i + 1].free
    ensures var s := SplitAt(MergeAt(SetFree(bs, i, true), i), i, need);
            i < |s| && s[i].free && SetFree(SplitAt(MergeAt(bs, i), i, need), i, false) == SetFree(s, i, false)
  {
  }

  // ---- which blocks are live ----

  lemma {:induction false} LiveMergeRun(bs: seq<Blk>, i: nat)
    requires i < |bs| && bs[i].free
    ensures Live(MergeRun(bs, i)) == Live(bs)
    decreases |bs|
  {
    if i + 1 < |bs| && bs[i + 1].free {
      LiveMerge(bs, i, HEADER);
      LiveMergeRun(MergeAt(bs, i), i);
    }
  }

  lemma LiveSetFree(bs: seq<Blk>, base: int, brk: int, i: nat, f: bool)
    requires Tiled(bs, base, brk) && i < |bs|
    ensures Live(SetFree(bs, i, f)) == Live(bs) - {bs[i]} + if f then {} else {bs[i].(free := false)}
  {
    ChainSetFree(bs, base, brk, HEADER, 16, i, f);
  }

  /** Handing out a block adds exactly that block to the live ones. */
  lemma LiveTake(bs: seq<Blk>, base: int, brk: int, i: nat, need: nat)
    requires Tiled(bs, base, brk) && i < |bs| && bs[i].free && need % 16 == 0
    ensures Live(TakeAt(bs, i, need)) == Live(bs) + {TakeAt(bs, i, need)[i]}
  {
    hide Live, Tiled;
    SplitTiled(bs, base, brk, i, need);
    SplitSame(bs, i, need);
    var m := SplitAt(bs, i, need);
    LiveSetFree(m, base, brk, i, false);
    FreeNotLive(m[i], m);
  }

  lemma FreeNotLive(b: Blk, bs: seq<Blk>)
    ensures b.free ==> b !in Live(bs)
  {
  }

  /** Giving a block back removes exactly that block from the live ones. */
  lemma LiveRelease(bs: seq<Blk>, base: int, brk: int, i: nat)
    requires Tiled(bs, base, brk) && i < |bs| && !bs[i].free
    ensures Live(ReleaseAt(bs, i)) == Live(bs) - {bs[i]}
  {
    hide Live, Tiled;
    var s := SetFree(bs, i, true);
    LiveSetFree(bs, base, brk, i, true);
    SetFreeTiled(bs, base, brk, i, true);
    LiveMergeRun(s, i);
    MergeRunTiled(s, base, brk, i);
    var m := MergeRun(s, i);
    if i > 0 && m[i - 1].free {
      LiveMergeRun(m, i - 1);
    }
  }

  lemma LiveGrown(bs: seq<Blk>, brk: int, bytes: nat)
    requires bytes >= HEADER
    ensures Live(GrownBy(bs, brk, bytes)) == Live(bs)
  {
    hide Live;
    var x := Blk(brk, bytes - HEADER, true);
    LiveConcat(bs, [x]);
    LiveOne(x);
    if bs != [] && bs[|bs| - 1].free {
      LiveMergeRun(bs + [x], |bs| - 1);
    }
  }

  /** Growing a block in place replaces it by its larger self among the live ones. */
  lemma LiveStretch(bs: seq<Blk>, base: int, brk: int, i: nat, need: nat)
    requires Tiled(bs, base, brk) && Coalesced(bs) && i + 1 < |bs| && !bs[i].free && bs[i + 1].free && need % 16 == 0
    ensures Live(StretchAt(bs, i, need)) == Live(bs) - {bs[i]} + {StretchAt(bs, i, need)[i]}
  {
    hide Live, Tiled, SplitAt;
    OnceHere(bs, i);
    StretchViaFree(bs, i, need);
    var f := SetFree(bs, i, true);
    LiveSetFree(bs, base, brk, i, true);
    SetFreeTiled(bs, base, brk, i, true);
    LiveMerge(f, i, HEADER);
    MergeTiled(f, base, brk, i);
    var m := MergeAt(f, i);
    SplitSame(m, i, need);
    SplitTiled(m, base, brk, i, need);
    var s := SplitAt(m, i, need);
    LiveSetFree(s, base, brk, i, false);
    FreeNotLive(s[i], s);
  }
}
