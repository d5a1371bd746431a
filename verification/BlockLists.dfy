/** What the two allocators share: blocks laid end to end, each behind a header of `h` bytes. */
module BlockLists {
  /** One block: header address, payload bytes, availability. */
  datatype Blk = Blk(addr: int, size: nat, free: bool)

  /** First address past block `b`. */
  function EndOf(b: Blk, h: nat): int { b.addr + h + b.size }

  /** The blocks fill `[base, top)` in address order, every header at a multiple of `align`. */
  predicate Chained(bs: seq<Blk>, base: int, top: int, h: nat, align: nat)
    requires align > 0
  {
    && bs != [] && bs[0].addr == base && EndOf(bs[|bs| - 1], h) == top
    && (forall i :: 0 <= i < |bs| ==> bs[i].addr % align == 0)
    && (forall i :: 0 < i < |bs| ==> bs[i].addr == EndOf(bs[i - 1], h))
  }

  /** Later blocks lie entirely above earlier ones. */
  lemma {:induction false} ChainOrdered(bs: seq<Blk>, base: int, top: int, h: nat, align: nat, i: nat, j: nat)
    requires align > 0 && Chained(bs, base, top, h, align) && i < j < |bs|
    ensures EndOf(bs[i], h) <= bs[j].addr
    decreases j - i
  {
    if i + 1 < j {
      ChainOrdered(bs, base, top, h, align, i + 1, j);
    }
  }

  lemma ChainWithin(bs: seq<Blk>, base: int, top: int, h: nat, align: nat, i: nat)
    requires align > 0 && Chained(bs, base, top, h, align) && i < |bs|
    ensures base <= bs[i].addr && EndOf(bs[i], h) <= top
  {
    if i > 0 {
      ChainOrdered(bs, base, top, h, align, 0, i);
    }
    if i < |bs| - 1 {
      ChainOrdered(bs, base, top, h, align, i, |bs| - 1);
    }
  }

  /** Two blocks never overlap, headers included. */
  lemma ChainApart(bs: seq<Blk>, base: int, top: int, h: nat, align: nat, i: nat, j: nat)
    requires align > 0 && h > 0 && Chained(bs, base, top, h, align) && i < |bs| && j < |bs| && i != j
    ensures bs[i].addr != bs[j].addr && (EndOf(bs[i], h) <= bs[j].addr || EndOf(bs[j], h) <= bs[i].addr)
  {
    if i < j {
      ChainOrdered(bs, base, top, h, align, i, j);
    } else {
      ChainOrdered(bs, base, top, h, align, j, i);
    }
  }

  // ---- operations on the list ----

  /** Replace the `n` blocks from `i` on by `mid`. */
  function Replace(bs: seq<Blk>, i: nat, n: nat, mid: seq<Blk>): seq<Blk>
    requires i + n <= |bs|
  {
    bs[..i] + mid + bs[i + n..]
  }

  /** Replacing a stretch by blocks covering the same addresses keeps the chain. */
  lemma ReplaceChained(bs: seq<Blk>, base: int, top: int, h: nat, align: nat, i: nat, n: nat, mid: seq<Blk>)
    requires align > 0 && Chained(bs, base, top, h, align) && 0 < n && i + n <= |bs|
    requires Chained(mid, bs[i].addr, EndOf(bs[i + n - 1], h), h, align)
    ensures Chained(Replace(bs, i, n, mid), base, top, h, align)
  {
    var r := Replace(bs, i, n, mid);
    forall k | 0 < k < |r|
      ensures r[k].addr == EndOf(r[k - 1], h)
    {
      if k == i {
        assert r[k] == mid[0] && r[k - 1] == bs[i - 1];
      } else if i < k < i + |mid| {
        assert r[k] == mid[k - i] && r[k - 1] == mid[k - i - 1];
      } else if k == i + |mid| {
        assert r[k] == bs[i + n] && r[k - 1] == mid[|mid| - 1];
      } else if k > i + |mid| {
        assert r[k] == bs[k - |mid| + n] && r[k - 1] == bs[k - 1 - |mid| + n];
      }
    }
  }

  /** Index of the first free block with room for `need` bytes, or the list length. */
  function FirstFit(bs: seq<Blk>, need: nat): (i: nat)
    ensures i <= |bs|
    ensures i < |bs| ==> bs[i].free && bs[i].size >= need
    ensures forall k :: 0 <= k < i ==> !(bs[k].free && bs[k].size >= need)
  {
    if bs == [] then 0
    else if bs[0].free && bs[0].size >= need then 0
    else 1 + FirstFit(bs[1..], need)
  }

  function SetFree(bs: seq<Blk>, i: nat, f: bool): seq<Blk>
    requires i < |bs|
  {
    bs[i := bs[i].(free := f)]
  }

  /** Block `i` swallowed its successor. */
  function Merge(bs: seq<Blk>, i: nat, h: nat): seq<Blk>
    requires i + 1 < |bs|
  {
    Replace(bs, i, 2, [bs[i].(size := bs[i].size + h + bs[i + 1].size)])
  }

  // ---- bytes in use ----

  /** Total payload of the blocks in use. */
  function UsedBytes(bs: seq<Blk>): nat {
    if bs == [] then 0 else (if bs[0].free then 0 else bs[0].size) + UsedBytes(bs[1..])
  }

  lemma {:induction false} UsedConcat(a: seq<Blk>, b: seq<Blk>)
    ensures UsedBytes(a + b) == UsedBytes(a) + UsedBytes(b)
  {
    if a == [] {
      assert a + b == b;
    } else {
      assert (a + b)[1..] == a[1..] + b;
      UsedConcat(a[1..], b);
    }
  }

  lemma UsedOne(b: Blk)
    ensures UsedBytes([b]) == if b.free then 0 else b.size
  {
  }

  lemma UsedPair(x: Blk, y: Blk)
    ensures UsedBytes([x, y]) == (if x.free then 0 else x.size) + (if y.free then 0 else y.size)
  {
    assert [x, y][1..] == [y];
    UsedOne(y);
  }

  lemma ReplaceUsed(bs: seq<Blk>, i: nat, n: nat, mid: seq<Blk>)
    requires i + n <= |bs|
    ensures UsedBytes(Replace(bs, i, n, mid)) == UsedBytes(bs) - UsedBytes(bs[i..i + n]) + UsedBytes(mid)
  {
    assert bs == bs[..i] + (bs[i..i + n] + bs[i + n..]);
    UsedConcat(bs[..i], bs[i..i + n] + bs[i + n..]);
    UsedConcat(bs[i..i + n], bs[i + n..]);
    assert Replace(bs, i, n, mid) == bs[..i] + (mid + bs[i + n..]);
    UsedConcat(bs[..i], mid + bs[i + n..]);
    UsedConcat(mid, bs[i + n..]);
  }

  lemma SetFreeUsed(bs: seq<Blk>, i: nat, f: bool)
    requires i < |bs|
    ensures UsedBytes(SetFree(bs, i, f)) ==
            UsedBytes(bs) - (if bs[i].free then 0 else bs[i].size) + (if f then 0 else bs[i].size)
  {
    hide UsedBytes;
    var b := bs[i].(free := f);
    assert SetFree(bs, i, f) == Replace(bs, i, 1, [b]);
    assert bs[i..i + 1] == [bs[i]];
    ReplaceUsed(bs, i, 1, [b]);
    UsedOne(b);
    UsedOne(bs[i]);
  }

  lemma MergeUsed(bs: seq<Blk>, i: nat, h: nat)
    requires i + 1 < |bs| && bs[i].free && bs[i + 1].free
    ensures UsedBytes(Merge(bs, i, h)) == UsedBytes(bs)
  {
    hide Replace, UsedBytes;
    var m := bs[i].(size := bs[i].size + h + bs[i + 1].size);
    ReplaceUsed(bs, i, 2, [m]);
    assert bs[i..i + 2] == [bs[i], bs[i + 1]];
    UsedPair(bs[i], bs[i + 1]);
    UsedOne(m);
  }

  // ---- which blocks are live ----

  /** The blocks in use. */
  function Live(bs: seq<Blk>): set<Blk> { set b | b in bs && !b.free }

  lemma LiveConcat(a: seq<Blk>, b: seq<Blk>)
    ensures Live(a + b) == Live(a) + Live(b)
  {
  }

  lemma LiveReplace(bs: seq<Blk>, i: nat, n: nat, mid: seq<Blk>)
    requires i + n <= |bs|
    ensures Live(bs) == Live(bs[..i]) + Live(bs[i..i + n]) + Live(bs[i + n..])
    ensures Live(Replace(bs, i, n, mid)) == Live(bs[..i]) + Live(mid) + Live(bs[i + n..])
  {
    hide Live;
    assert bs == bs[..i] + bs[i..i + n] + bs[i + n..];
    LiveConcat(bs[..i] + bs[i..i + n], bs[i + n..]);
    LiveConcat(bs[..i], bs[i..i + n]);
    LiveConcat(bs[..i] + mid, bs[i + n..]);
    LiveConcat(bs[..i], mid);
  }

  lemma LiveOne(b: Blk)
    ensures Live([b]) == if b.free then {} else {b}
  {
  }

  lemma LiveTwo(a: Blk, b: Blk)
    ensures Live([a, b]) == Live([a]) + Live([b])
  {
    LiveConcat([a], [b]);
    assert [a] + [b] == [a, b];
  }

  lemma LiveMerge(bs: seq<Blk>, i: nat, h: nat)
    requires i + 1 < |bs| && bs[i].free && bs[i + 1].free
    ensures Live(Merge(bs, i, h)) == Live(bs)
  {
    hide Live;
    var m := bs[i].(size := bs[i].size + h + bs[i + 1].size);
    LiveReplace(bs, i, 2, [m]);
    assert bs[i..i + 2] == [bs[i], bs[i + 1]];
    LiveTwo(bs[i], bs[i + 1]);
    LiveOne(bs[i]);
    LiveOne(bs[i + 1]);
    LiveOne(m);
  }

  /** Two free halves in place of a free block. */
  lemma LiveHalves(bs: seq<Blk>, i: nat, x: Blk, y: Blk)
    requires i < |bs| && bs[i].free && x.free && y.free
    ensures Live(Replace(bs, i, 1, [x, y])) == Live(bs) && UsedBytes(Replace(bs, i, 1, [x, y])) == UsedBytes(bs)
  {
    hide Live, UsedBytes, Replace;
    LiveReplace(bs, i, 1, [x, y]);
    ReplaceUsed(bs, i, 1, [x, y]);
    assert bs[i..i + 1] == [bs[i]];
    LiveTwo(x, y);
    LiveOne(x);
    LiveOne(y);
    LiveOne(bs[i]);
    UsedPair(x, y);
    UsedOne(bs[i]);
  }

  /** Flipping a flag changes that block only. */
  lemma ChainSetFree(bs: seq<Blk>, base: int, top: int, h: nat, align: nat, i: nat, f: bool)
    requires align > 0 && h > 0 && Chained(bs, base, top, h, align) && i < |bs|
    ensures Live(SetFree(bs, i, f)) == Live(bs) - {bs[i]} + if f then {} else {bs[i].(free := false)}
  {
    hide Chained;
    var r := SetFree(bs, i, f);
    forall b | b in bs && !b.free && b != bs[i]
      ensures b in r
    {
      var k :| 0 <= k < |bs| && bs[k] == b;
      assert r[k] == b;
    }
    forall b | b in r && !b.free && (f || b != bs[i].(free := false))
      ensures b in bs && b != bs[i]
    {
      var k :| 0 <= k < |r| && r[k] == b;
      assert k != i && bs[k] == b;
      ChainApart(bs, base, top, h, align, i, k);
    }
    assert r[i] == bs[i].(free := f);
  }

  // ---- free neighbours ----

  /** No two neighbours are both free. */
  predicate Coalesced(bs: seq<Blk>) { forall i :: 0 < i < |bs| ==> !(bs[i - 1].free && bs[i].free) }
}
