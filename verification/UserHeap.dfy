/** `umalloc`, `ufree` and `urealloc`: the doubly linked block headers in memory
    and the in-place operations on them. */
module UserHeap {
  import opened BlockLists
  import opened HeapBlocks

  const ALIGN := 16
  const GROW_MIN := 65536
  const PAGE := 4096
  const WORD := 0x1_0000_0000_0000_0000   // 2^64
  const LIMIT := 0x8000_0000_0000         // user addresses end here
  const MAX_REQUEST := WORD - PAGE - HEADER   // above this the rounding wraps around

  const LAST_SILENT := WORD - 48              // up to here `grow_heap` then asks for no bytes
  const LAST_ROUNDED := WORD - 16             // above this the request is rounded to zero

  /** Sizes on which the code keeps within its arena: all but those for which `grow_heap` asks for no bytes. */
  predicate Handled(size: nat) { size <= MAX_REQUEST || LAST_SILENT < size < WORD }

  /** Requests rounded up to more than the address space, but growing by the minimum. */
  predicate Hopeless(size: nat) { LAST_SILENT < size <= LAST_ROUNDED }

  /** `struct block`. */
  datatype Header = Header(size: nat, prev: int, next: int, free: bool)

  /** `align_up` and `page_align` in 64-bit arithmetic. */
  function AlignUp(n: nat): nat { (n + 15) % WORD / 16 * 16 }
  function PageAlign(n: nat): nat { (n + 4095) % WORD / 4096 * 4096 }

  /** The bytes `grow_heap` asks SBRK for. */
  function GrowBytes(need: nat): nat {
    var bytes := (need + HEADER) % WORD;
    PageAlign(if bytes < GROW_MIN then GROW_MIN else bytes)
  }

  /** Rounding asks for at least what the block needs exactly up to `MAX_REQUEST`; beyond it the
      64-bit sums wrap around. */
  lemma GrowEnough(size: nat)
    requires size < WORD
    ensures AlignUp(size) >= size && GrowBytes(AlignUp(size)) >= AlignUp(size) + HEADER <==> size <= MAX_REQUEST
  {
  }

  /** What becomes of larger requests: the next ones make `grow_heap` ask for nothing and write a header at the break,
      the 32 after them make it ask for the minimum, and the last 15 are rounded to a request of no bytes. */
  lemma LargeRequest(size: nat)
    requires MAX_REQUEST < size < WORD
    ensures GrowBytes(AlignUp(size)) == 0 <==> size <= LAST_SILENT
    ensures LAST_SILENT < size <= LAST_ROUNDED ==> AlignUp(size) >= WORD - 32 && GrowBytes(AlignUp(size)) == GROW_MIN
    ensures size > LAST_ROUNDED ==> AlignUp(size) == 0
  {
  }

  /** The list after `grow_heap` got `bytes` at the break, in 64-bit arithmetic. */
  function GrownWrapped(bs: seq<Blk>, brk: int, bytes: nat): seq<Blk> {
    var x := Blk(brk, (bytes - HEADER) % WORD, true);
    var n := |bs|;
    if n > 0 && bs[n - 1].free then bs[n - 1 := bs[n - 1].(size := (bs[n - 1].size + HEADER + x.size) % WORD)]
    else bs + [x]
  }

  /** Within the address space that is what `GrownBy` says. */
  lemma GrownSame(bs: seq<Blk>, base: int, brk: int, bytes: nat)
    requires Tiled(bs, base, brk) && Coalesced(bs) && bytes >= HEADER && bytes % 16 == 0 && brk + bytes <= LIMIT
    ensures GrownWrapped(bs, brk, bytes) == GrownBy(bs, brk, bytes)
  {
    var n := |bs|;
    if n > 0 && bs[n - 1].free {
      Within(bs, base, brk, n - 1);
      MergeRunOnce(bs + [Blk(brk, bytes - HEADER, true)], n - 1);
    }
  }

  /** The sizes for which `grow_heap` asks for no bytes. No block ever fits. If the last block is free it swallows the
      header written at the break and keeps its size, so the scan starts over on the same list, for ever; otherwise
      the block at the break is handed out, all of it past the arena. */
  lemma SilentGrowth(bs: seq<Blk>, base: int, brk: int, size: nat)
    requires Tiled(bs, base, brk) && brk <= LIMIT && MAX_REQUEST < size <= LAST_SILENT
    ensures var need := AlignUp(size); var g := GrownWrapped(bs, brk, GrowBytes(need)); var n := |bs|;
            && FirstFit(bs, need) == n
            && (FirstFit(g, need) == |g| <==> n > 0 && bs[n - 1].free)
            && if n > 0 && bs[n - 1].free then g == bs
               else FirstFit(g, need) == n && g[n].addr == brk && End(g[n]) > brk + HEADER
  {
    hide Tiled;
    LargeRequest(size);
    var need := AlignUp(size);
    var g := GrownWrapped(bs, brk, GrowBytes(need));
    forall i | 0 <= i < |bs|
      ensures bs[i].size < LIMIT < need
    {
      Within(bs, base, brk, i);
      Aligned(bs, base, brk, i);
    }
    FirstFitUnique(bs, need, |bs|);
    if |bs| > 0 && bs[|bs| - 1].free {
      assert g == bs;
    } else {
      FirstFitUnique(g, need, |bs|);
    }
  }

  lemma GrowWhole(need: nat)
    ensures GrowBytes(need) % 16 == 0
    ensures GrowBytes(need) == 0 || GrowBytes(need) >= GROW_MIN
  {
  }

  /** Byte `k` of a header in memory, little-endian. */
  function HeaderByte(h: Header, k: int): int {
    if k < 8 then Digit(h.size, k) else if k < 16 then Digit(h.prev, k - 8)
    else if k < 24 then Digit(h.next, k - 16) else if k == 24 && h.free then 1 else 0
  }

  function Digit(v: int, k: int): int
    decreases k
  {
    if k <= 0 then v % 256 else Digit(v / 256, k - 1)
  }

  /** Memory after a header is stored at `a`. */
  function Stamp(m: int -> int, a: int, h: Header): int -> int {
    x => if a <= x < a + HEADER then HeaderByte(h, x - a) else m(x)
  }

  function PrevAddr(bs: seq<Blk>, i: nat): int
    requires i < |bs|
  {
    if i == 0 then 0 else bs[i - 1].addr
  }

  function NextAddr(bs: seq<Blk>, i: nat): int
    requires i < |bs|
  {
    if i + 1 < |bs| then bs[i + 1].addr else 0
  }

  function HeaderOf(bs: seq<Blk>, i: nat): Header
    requires i < |bs|
  {
    Header(bs[i].size, PrevAddr(bs, i), NextAddr(bs, i), bs[i].free)
  }

  /** The headers in memory are the block list, with correct links both ways. */
  predicate Linked(hdr: map<int, Header>, bs: seq<Blk>) {
    forall i :: 0 <= i < |bs| ==> bs[i].addr in hdr && hdr[bs[i].addr] == HeaderOf(bs, i)
  }

  predicate EndsOk(bs: seq<Blk>, head: int, tail: int) {
    if bs == [] then head == 0 && tail == 0 else head == bs[0].addr && tail == bs[|bs| - 1].addr
  }

  /** The payload bytes of `b` are the same in both memories. */
  ghost predicate Kept(m: int -> int, w: int -> int, b: Blk) {
    forall x :: b.addr + HEADER <= x < End(b) ==> w(x) == m(x)
  }

  // ---- splitting and merging on headers ----

  /** Headers after a split of block `i`. */
  function SplitHdr(hdr: map<int, Header>, bs: seq<Blk>, i: nat, need: nat): map<int, Header>
    requires i < |bs| && Linked(hdr, bs) && bs[i].size >= need + HEADER + 16
  {
    var b := bs[i].addr;
    var rest := b + HEADER + need;
    var h := hdr[b];
    var h1 := hdr[rest := Header(h.size - need - HEADER, b, h.next, true)];
    var h2 := if i + 1 < |bs| then h1[bs[i + 1].addr := hdr[bs[i + 1].addr].(prev := rest)] else h1;
    h2[b := h.(next := rest, size := need)]
  }

  lemma SplitLinked(hdr: map<int, Header>, bs: seq<Blk>, base: int, brk: int, i: nat, need: nat)
    requires Tiled(bs, base, brk) && Linked(hdr, bs) && i < |bs| && bs[i].size >= need + HEADER + 16
    ensures Linked(SplitHdr(hdr, bs, i, need), SplitAt(bs, i, need))
  {
    hide Tiled;
    var r := SplitAt(bs, i, need);
    var w := SplitHdr(hdr, bs, i, need);
    forall k | 0 <= k < |r|
      ensures r[k].addr in w && w[r[k].addr] == HeaderOf(r, k)
    {
      SplitHeader(hdr, bs, base, brk, i, need, k);
    }
  }

  /** Header `k` of the split list. */
  lemma SplitHeader(hdr: map<int, Header>, bs: seq<Blk>, base: int, brk: int, i: nat, need: nat, k: nat)
    requires Tiled(bs, base, brk) && Linked(hdr, bs) && i < |bs| && bs[i].size >= need + HEADER + 16
    requires k < |SplitAt(bs, i, need)|
    ensures var r := SplitAt(bs, i, need); var w := SplitHdr(hdr, bs, i, need);
            r[k].addr in w && w[r[k].addr] == HeaderOf(r, k)
  {
    hide Tiled, Linked;
    var r := SplitAt(bs, i, need);
    SplitIndex(bs, base, brk, i, need, k);
    LinkedAt(hdr, bs, i);
    if k < i {
      LinkedAt(hdr, bs, k);
      assert r[k + 1].addr == bs[k + 1].addr && (k > 0 ==> r[k - 1] == bs[k - 1]);
    } else if k > i + 1 {
      LinkedAt(hdr, bs, k - 1);
      assert k + 1 < |r| ==> r[k + 1] == bs[k];
    } else {
      assert i + 2 < |r| ==> r[i + 2] == bs[i + 1];
      assert i > 0 ==> r[i - 1] == bs[i - 1];
    }
  }

  lemma LinkedAt(hdr: map<int, Header>, bs: seq<Blk>, i: nat)
    requires Linked(hdr, bs) && i < |bs|
    ensures bs[i].addr in hdr && hdr[bs[i].addr] == HeaderOf(bs, i)
  {
  }

  /** Where the blocks of the split list come from, and that they are at other addresses. */
  lemma SplitIndex(bs: seq<Blk>, base: int, brk: int, i: nat, need: nat, k: nat)
    requires Tiled(bs, base, brk) && i < |bs| && bs[i].size >= need + HEADER + 16 && k < |SplitAt(bs, i, need)|
    ensures var r := SplitAt(bs, i, need); var rest := bs[i].addr + HEADER + need;
            && |r| == |bs| + 1 && r[i].addr == bs[i].addr && r[i + 1].addr == rest
            && (k < i ==> r[k] == bs[k] && bs[k].addr != bs[i].addr && bs[k].addr != rest
                          && (i + 1 < |bs| ==> bs[k].addr != bs[i + 1].addr))
            && (k > i + 1 ==> r[k] == bs[k - 1] && bs[k - 1].addr != bs[i].addr && bs[k - 1].addr != rest
                              && (k > i + 2 ==> bs[k - 1].addr != bs[i + 1].addr && r[k - 1] == bs[k - 2]))
            && bs[i].addr != rest && (i + 1 < |bs| ==> bs[i + 1].addr != rest && bs[i + 1].addr != bs[i].addr)
  {
    if k < i {
      Ordered(bs, base, brk, k, i);
      if i + 1 < |bs| {
        Ordered(bs, base, brk, k, i + 1);
      }
    }
    if k > i + 1 {
      Ordered(bs, base, brk, i, k - 1);
      if k > i + 2 {
        Ordered(bs, base, brk, i + 1, k - 1);
      }
    }
    if i + 1 < |bs| {
      Ordered(bs, base, brk, i, i + 1);
    }
  }

  /** Headers after block `i` swallowed its successor. */
  function MergeHdr(hdr: map<int, Header>, bs: seq<Blk>, i: nat): map<int, Header>
    requires i + 1 < |bs| && Linked(hdr, bs)
  {
    var b := bs[i].addr;
    var n := hdr[bs[i + 1].addr];
    var h1 := hdr[b := hdr[b].(size := hdr[b].size + HEADER + n.size, next := n.next)];
    if i + 2 < |bs| then h1[bs[i + 2].addr := hdr[bs[i + 2].addr].(prev := b)] else h1
  }

  lemma MergeLinked(hdr: map<int, Header>, bs: seq<Blk>, base: int, brk: int, i: nat)
    requires Tiled(bs, base, brk) && Linked(hdr, bs) && i + 1 < |bs|
    ensures Linked(MergeHdr(hdr, bs, i), MergeAt(bs, i))
  {
    hide Tiled;
    var r := MergeAt(bs, i);
    var w := MergeHdr(hdr, bs, i);
    forall k | 0 <= k < |r|
      ensures r[k].addr in w && w[r[k].addr] == HeaderOf(r, k)
    {
      MergeHeader(hdr, bs, base, brk, i, k);
    }
  }

  /** Header `k` of the merged list. */
  lemma MergeHeader(hdr: map<int, Header>, bs: seq<Blk>, base: int, brk: int, i: nat, k: nat)
    requires Tiled(bs, base, brk) && Linked(hdr, bs) && i + 1 < |bs| && k < |MergeAt(bs, i)|
    ensures var r := MergeAt(bs, i); var w := MergeHdr(hdr, bs, i); r[k].addr in w && w[r[k].addr] == HeaderOf(r, k)
  {
    hide Tiled, Linked;
    var r := MergeAt(bs, i);
    MergeIndex(bs, base, brk, i, k);
    LinkedAt(hdr, bs, i);
    LinkedAt(hdr, bs, i + 1);
    if k < i {
      LinkedAt(hdr, bs, k);
      assert r[k + 1].addr == bs[k + 1].addr && (k > 0 ==> r[k - 1] == bs[k - 1]);
    } else if k > i {
      LinkedAt(hdr, bs, k + 1);
      assert k + 1 < |r| ==> r[k + 1] == bs[k + 2];
    } else {
      assert k > 0 ==> r[k - 1] == bs[k - 1];
    }
  }

  lemma MergeIndex(bs: seq<Blk>, base: int, brk: int, i: nat, k: nat)
    requires Tiled(bs, base, brk) && i + 1 < |bs| && k < |MergeAt(bs, i)|
    ensures var r := MergeAt(bs, i);
            && |r| == |bs| - 1 && r[i].addr == bs[i].addr
            && (k < i ==> r[k] == bs[k] && bs[k].addr != bs[i].addr && (i + 2 < |bs| ==> bs[k].addr != bs[i + 2].addr))
            && (k > i ==> r[k] == bs[k + 1] && bs[k + 1].addr != bs[i].addr
                          && (k > i + 1 ==> bs[k + 1].addr != bs[i + 2].addr && r[k - 1] == bs[k]))
            && (i + 2 < |bs| ==> bs[i + 2].addr != bs[i].addr && r[i + 1] == bs[i + 2])
  {
    if k < i {
      Ordered(bs, base, brk, k, i);
      if i + 2 < |bs| {
        Ordered(bs, base, brk, k, i + 2);
      }
    }
    if k > i {
      Ordered(bs, base, brk, i, k + 1);
      if k > i + 1 {
        Ordered(bs, base, brk, i + 2, k + 1);
      }
    }
    if i + 2 < |bs| {
      Ordered(bs, base, brk, i, i + 2);
    }
  }

  // ---- payload bytes ----

  ghost predicate AllKept(m: int -> int, w: int -> int, bs: seq<Blk>) {
    forall j :: 0 <= j < |bs| ==> Kept(m, w, bs[j])
  }

  /** Storing a header where a block header lies touches no payload. */
  lemma StampHeader(bs: seq<Blk>, base: int, brk: int, i: nat, m: int -> int, h: Header)
    requires Tiled(bs, base, brk) && i < |bs|
    ensures AllKept(m, Stamp(m, bs[i].addr, h), bs)
  {
    hide Tiled, HeaderByte;
    forall j | 0 <= j < |bs|
      ensures Kept(m, Stamp(m, bs[i].addr, h), bs[j])
    {
      if j != i {
        Apart(bs, base, brk, i, j);
      }
    }
  }

  lemma AllKeptTransitive(m: int -> int, w: int -> int, v: int -> int, bs: seq<Blk>)
    requires AllKept(m, w, bs) && AllKept(w, v, bs)
    ensures AllKept(m, v, bs)
  {
    forall j | 0 <= j < |bs|
      ensures Kept(m, v, bs[j])
    {
      assert Kept(m, w, bs[j]) && Kept(w, v, bs[j]);
    }
  }

  class Heap {
    var head: int
    var tail: int
    var used: nat
    var capacity: nat
    var brk: int
    var hdr: map<int, Header>
    var mem: int -> int
    ghost const base: int
    ghost var blocks: seq<Blk>

    /** The headers in memory form the block list and the list tiles the arena. */
    ghost predicate Shape()
      reads this
    {
      Tiled(blocks, base, brk) && Linked(hdr, blocks) && EndsOk(blocks, head, tail)
    }

    ghost predicate Valid()
      reads this
    {
      Shape() && brk <= LIMIT && Coalesced(blocks) && used == UsedBytes(blocks)
    }

    constructor (start: int)
      requires 0 < start <= LIMIT && start % 16 == 0
      ensures Valid() && blocks == [] && brk == start
    {
      head, tail, used, capacity := 0, 0, 0, 0;
      brk := start;
      hdr := map[];
      mem := _ => 0;
      base := start;
      blocks := [];
    }

    /** SYS_SBRK: the previous break, or -1. */
    method Sbrk(bytes: nat) returns (r: int)
      modifies this`brk
      ensures (r == -1 && brk == old(brk)) || (r == old(brk) && brk == old(brk) + bytes <= LIMIT)
    {
      var granted: bool := *;
      if granted && brk + bytes <= LIMIT {
        r := brk;
        brk := brk + bytes;
      } else {
        r := -1;
      }
    }

    /** Store a header, overwriting the 32 bytes it occupies. */
    method Store(a: int, h: Header)
      modifies this`hdr, this`mem
      ensures hdr == old(hdr)[a := h] && mem == Stamp(old(mem), a, h)
    {
      hdr := hdr[a := h];
      mem := Stamp(mem, a, h);
    }

    /** `split_block`. */
    method SplitBlock(b: int, need: nat, ghost i: nat)
      requires Shape() && i < |blocks| && blocks[i].addr == b && need % 16 == 0
      modifies this`hdr, this`mem, this`tail, this`blocks
      ensures Shape() && blocks == SplitAt(old(blocks), i, need)
      ensures forall j :: 0 <= j < |old(blocks)| && j != i ==> Kept(old(mem), mem, old(blocks)[j])
      ensures forall x :: b + HEADER <= x < b + HEADER + need && x < End(old(blocks)[i]) ==> mem(x) == old(mem)(x)
    {
      hide HeaderByte, Tiled, Linked, Stamp, Kept, SplitAt, HeaderOf;
      HeaderHere(hdr, blocks, base, brk, i);
      var h := hdr[b];
      if h.size < need + HEADER + ALIGN {
        SplitNone(blocks, i, need, mem);
        return;
      }
      SplitLinked(hdr, blocks, base, brk, i, need);
      SplitTiled(blocks, base, brk, i, need);
      SplitEnds(blocks, i, need);
      var rest := b + HEADER + need;
      var next := h.next;
      var h0 := Header(h.size - need - HEADER, b, next, true);
      var h1 := h0;
      var h2 := h.(next := rest, size := need);
      Store(rest, h0);
      if next != 0 {
        h1 := hdr[next].(prev := rest);
        Store(next, h1);
      } else {
        tail := rest;
      }
      Store(b, h2);
      assert hdr == SplitHdr(old(hdr), old(blocks), i, need);
      assert mem == SplitMem(old(mem), old(blocks), i, need, h0, h1, h2);
      SplitKept(blocks, base, brk, i, need, old(mem), h0, h1, h2);
      blocks := SplitAt(blocks, i, need);
    }

    /** `coalesce_forward`. */
    method CoalesceForward(b: int, ghost i: nat)
      requires Shape() && i < |blocks| && blocks[i].addr == b
      modifies this`hdr, this`mem, this`tail, this`blocks
      ensures Shape() && blocks == MergeRun(old(blocks), i)
      ensures AllKept(old(mem), mem, old(blocks))
    {
      hide HeaderByte, Tiled, Linked, Stamp, Kept, AllKept, MergeAt, MergeRun, HeaderOf, Covers;
      KeptRefl(mem, blocks);
      while true
        invariant Shape() && i < |blocks| && blocks[i].addr == b
        invariant MergeRun(old(blocks), i) == MergeRun(blocks, i)
        invariant Covers(blocks, old(blocks)) && AllKept(old(mem), mem, old(blocks))
        decreases |blocks|
      {
        HeaderHere(hdr, blocks, base, brk, i);
        MergeRunStep(blocks, i);
        if hdr[b].next == 0 {
          return;
        }
        HeaderHere(hdr, blocks, base, brk, i + 1);
        if !hdr[hdr[b].next].free {
          return;
        }
        ghost var m := mem;
        MergeOnce(b, i, old(blocks));
        AllKeptTransitive(old(mem), m, mem, old(blocks));
      }
    }

    /** One turn of the merge loop. */
    method MergeOnce(b: int, ghost i: nat, ghost first: seq<Blk>)
      requires Shape() && i + 1 < |blocks| && blocks[i].addr == b && Covers(blocks, first)
      modifies this`hdr, this`mem, this`tail, this`blocks
      ensures Shape() && blocks == MergeAt(old(blocks), i) && i < |blocks| < |old(blocks)| && blocks[i].addr == b
      ensures Covers(blocks, first) && AllKept(old(mem), mem, first)
    {
      hide HeaderByte, Tiled, Linked, Stamp, Kept, AllKept, MergeAt, HeaderOf, Covers;
      HeaderHere(hdr, blocks, base, brk, i);
      HeaderHere(hdr, blocks, base, brk, i + 1);
      MergeLinked(hdr, blocks, base, brk, i);
      MergeTiled(blocks, base, brk, i);
      MergeEnds(blocks, base, brk, i);
      var n := hdr[hdr[b].next];
      var h0 := hdr[b].(size := hdr[b].size + HEADER + n.size, next := n.next);
      var h1 := h0;
      Store(b, h0);
      if n.next != 0 {
        h1 := hdr[n.next].(prev := b);
        Store(n.next, h1);
      } else {
        tail := b;
      }
      assert hdr == MergeHdr(old(hdr), old(blocks), i);
      assert mem == MergeMem(old(mem), old(blocks), i, h0, h1);
      MergeKept(blocks, base, brk, i, old(mem), h0, h1);
      CoversKept(old(mem), mem, blocks, first);
      MergeCovers(blocks, base, brk, i, first);
      blocks := MergeAt(blocks, i);
    }

    /** Link the made stretch `[b, b + bytes)` in as the last block. */
    method AddBlock(b: int, bytes: nat)
      requires Tiled(blocks, base, b) && Linked(hdr, blocks) && EndsOk(blocks, head, tail)
      requires bytes >= HEADER && bytes % 16 == 0 && brk == b + bytes
      modifies this`hdr, this`mem, this`head, this`tail, this`capacity, this`blocks
      ensures Shape() && blocks == old(blocks) + [Blk(b, bytes - HEADER, true)]
      ensures AllKept(old(mem), mem, old(blocks)) && capacity == old(capacity) + bytes - HEADER
    {
      hide HeaderByte, Tiled, Linked, Stamp, Kept, AllKept, HeaderOf;
      ghost var x := Blk(b, bytes - HEADER, true);
      AppendTiled(blocks, base, b, x);
      AppendLinked(hdr, blocks, base, b, x);
      TailHere(hdr, blocks, base, b);
      var h0 := Header(bytes - HEADER, tail, 0, true);
      var h1 := h0;
      Store(b, h0);
      if tail != 0 {
        h1 := hdr[tail].(next := b);
        Store(tail, h1);
      } else {
        head := b;
      }
      AppendKept(blocks, base, b, old(mem), h0, h1);
      tail := b;
      capacity := capacity + (bytes - HEADER);
      blocks := blocks + [x];
    }

    /** `grow_heap`. */
    method GrowHeap(need: nat) returns (ok: bool)
      requires Valid() && GrowBytes(need) >= HEADER
      modifies this
      ensures Valid() && AllKept(old(mem), mem, old(blocks)) && used == old(used)
      ensures ok ==> blocks == GrownBy(old(blocks), old(brk), GrowBytes(need)) && brk == old(brk) + GrowBytes(need)
      ensures !ok ==> blocks == old(blocks) && brk == old(brk) && mem == old(mem)
    {
      hide HeaderByte, Tiled, Linked, Stamp, Kept, AllKept, MergeRun, HeaderOf, UsedBytes, Coalesced, GrowBytes,
           GrownBy, EndsOk;
      KeptRefl(mem, blocks);
      Bounds(blocks, base, brk);
      GrowWhole(need);
      var bytes := GrowBytes(need);
      var b := Sbrk(bytes);
      if b == -1 {
        return false;
      }
      GrownKeeps(blocks, base, b, bytes);
      GrownJoin(blocks, b, bytes);
      AddBlock(b, bytes);
      ghost var m := mem;
      JoinTail(b, |blocks| - 1);
      PrefixKept(m, mem, old(blocks), old(blocks) + [Blk(b, bytes - HEADER, true)]);
      AllKeptTransitive(old(mem), m, mem, old(blocks));
      ok := true;
    }

    /** Let a free predecessor of the last block `b` swallow it. */
    method JoinTail(b: int, ghost n: nat)
      requires Shape() && |blocks| == n + 1 && blocks[n].addr == b
      modifies this`hdr, this`mem, this`tail, this`blocks
      ensures Shape() && AllKept(old(mem), mem, old(blocks))
      ensures blocks == if n > 0 && old(blocks)[n - 1].free then MergeRun(old(blocks), n - 1) else old(blocks)
    {
      hide HeaderByte, Tiled, Linked, Stamp, Kept, AllKept, MergeRun, HeaderOf, EndsOk, Covers;
      KeptRefl(mem, blocks);
      HeaderHere(hdr, blocks, base, brk, n);
      var prev := hdr[b].prev;
      if prev != 0 {
        HeaderHere(hdr, blocks, base, brk, n - 1);
        if hdr[prev].free {
          MergeRunTiled(blocks, base, brk, n - 1);
          CoalesceForward(prev, n - 1);
          HeaderHere(hdr, blocks, base, brk, n - 1);
          if hdr[prev].next == 0 {
            TailIs(blocks, head, tail);
            tail := prev;
          }
        }
      } else if n > 0 {
        HeaderHere(hdr, blocks, base, brk, n - 1);
      }
    }

    /** The scan for the first free block that is large enough. */
    method FindFit(need: nat) returns (b: int, ghost i: nat)
      requires Shape()
      ensures i == FirstFit(blocks, need) && b == if i < |blocks| then blocks[i].addr else 0
      ensures i < |blocks| ==> b > 0
    {
      hide Tiled, Linked, FirstFit, HeaderOf;
      b, i := head, 0;
      while b != 0
        invariant i <= |blocks| && b == if i < |blocks| then blocks[i].addr else 0
        invariant forall k :: 0 <= k < i ==> !(blocks[k].free && blocks[k].size >= need)
        decreases |blocks| - i
      {
        HeaderHere(hdr, blocks, base, brk, i);
        if hdr[b].free && hdr[b].size >= need {
          break;
        }
        b, i := hdr[b].next, i + 1;
      }
      if i < |blocks| {
        HeaderHere(hdr, blocks, base, brk, i);
      }
      FirstFitUnique(blocks, need, i);
    }

    /** Hand out the free block `b`: split, mark, account. */
    method Take(b: int, need: nat, ghost i: nat)
      requires Valid() && i < |blocks| && blocks[i].addr == b && blocks[i].free && blocks[i].size >= need
               && need % 16 == 0
      modifies this`hdr, this`mem, this`tail, this`blocks, this`used
      ensures Valid() && blocks == TakeAt(old(blocks), i, need)
      ensures KeptOn(old(mem), mem, Live(old(blocks)))
    {
      hide HeaderByte, Tiled, Linked, Stamp, Kept, HeaderOf, UsedBytes, Coalesced, SplitAt, Live, KeptOn;
      TakeOk(blocks, base, brk, i, need);
      SplitBlockAt(blocks, i, need);
      SplitBlock(b, need, i);
      SplitLiveKept(old(mem), mem, old(blocks), i);
      ghost var m, split := mem, blocks;
      Mark(b, false, i);
      used := used + hdr[b].size;
      SplitSame(old(blocks), i, need);
      AllKeptLive(m, mem, split);
      KeptOnTransitive(old(mem), m, mem, Live(split));
    }

    /** `umalloc`: first fit over the list. The arena grows at most once for sizes up to `MAX_REQUEST`; a block that is
        handed out is large enough exactly for those. Requests for nearly 2^64 bytes get a block of any size, and just
        below them the arena is grown until SBRK refuses. */
    method Umalloc(size: nat) returns (p: int, ghost i: nat)
      requires Valid() && Handled(size)
      modifies this
      ensures Valid() && KeptOn(old(mem), mem, Live(old(blocks)))
      ensures p == 0 && !Hopeless(size) ==> blocks == old(blocks) && brk == old(brk) && mem == old(mem)
      ensures p == 0 && size > 0 ==> FirstFit(blocks, AlignUp(size)) == |blocks|
      ensures p != 0 ==> && size > 0 && p % 16 == 0 && i < |blocks| && p == blocks[i].addr + HEADER && !blocks[i].free
                         && (blocks[i].size >= size <==> size <= MAX_REQUEST)
                         && AlignUp(size) <= blocks[i].size < AlignUp(size) + 48
                         && blocks[i] !in Live(old(blocks)) && Live(blocks) == Live(old(blocks)) + {blocks[i]}
      ensures p != 0 ==> Taken(blocks, i, brk, old(blocks), old(brk), AlignUp(size))
      ensures Hopeless(size) ==> p == 0 && Live(blocks) == Live(old(blocks)) && brk >= old(brk)
    {
      hide Tiled, Linked, Kept, KeptOn, AllKept, Coalesced, UsedBytes, Live, FirstFit, TakeAt, GrownBy, GrowBytes,
           AlignUp, EndsOk;
      KeptRefl(mem, blocks);
      AllKeptLive(mem, mem, blocks);
      if size == 0 {
        return 0, 0;
      }
      var need := AlignUp(size);
      NeedOk(size);
      ghost var grown := false;
      while true
        invariant Valid() && KeptOn(old(mem), mem, Live(old(blocks))) && Live(blocks) == Live(old(blocks))
                  && brk >= old(brk)
        invariant !grown ==> blocks == old(blocks) && brk == old(brk) && mem == old(mem)
        invariant grown && !Hopeless(size) ==>
                    && FirstFit(old(blocks), need) == |old(blocks)| && brk == old(brk) + GrowBytes(need)
                    && blocks == GrownBy(old(blocks), old(brk), GrowBytes(need)) && FirstFit(blocks, need) < |blocks|
        decreases LIMIT - brk
      {
        var b, fit := FindFit(need);
        if b != 0 {
          ghost var m, g := mem, blocks;
          i := fit;
          SizeBelow(g, base, brk, i);
          TakeIndex(g, base, brk, i, need);
          Take(b, need, i);
          p := b + HEADER;
          KeptOnTransitive(old(mem), m, mem, Live(g));
          SizeBelow(blocks, base, brk, i);
          return;
        }
        ghost var m, g, was := mem, blocks, brk;
        var ok := GrowHeap(need);
        if !ok {
          return 0, 0;
        }
        LiveGrown(g, was, GrowBytes(need));
        AllKeptLive(m, mem, g);
        KeptOnTransitive(old(mem), m, mem, Live(g));
        if !Hopeless(size) {
          GrownFits(old(blocks), base, old(brk), need);
        }
        grown := true;
      }
    }

    /** `ufree`: nothing for a null pointer or a block already free. */
    method Ufree(ptr: int, ghost i: nat)
      requires Valid() && (ptr == 0 || (i < |blocks| && ptr == blocks[i].addr + HEADER))
      modifies this`hdr, this`mem, this`tail, this`blocks, this`used
      ensures Valid() && AllKept(old(mem), mem, old(blocks))
      ensures ptr == 0 || old(blocks)[i].free ==> blocks == old(blocks) && mem == old(mem)
      ensures ptr != 0 && !old(blocks)[i].free ==>
                && blocks == ReleaseAt(old(blocks), i) && Live(blocks) == Live(old(blocks)) - {old(blocks)[i]}
                && used == old(used) - old(blocks)[i].size
    {
      hide HeaderByte, Tiled, Linked, Stamp, Kept, AllKept, HeaderOf, UsedBytes, Coalesced, MergeRun, Live, ReleaseAt,
           SetFree, EndsOk;
      KeptRefl(mem, blocks);
      if ptr == 0 {
        return;
      }
      var b := ptr - HEADER;
      HeaderHere(hdr, blocks, base, brk, i);
      if hdr[b].free {
        return;
      }
      ReleaseOk(blocks, base, brk, i);
      LiveRelease(blocks, base, brk, i);
      used := used - hdr[b].size;
      Mark(b, true, i);
      ghost var m := mem;
      ReleaseUnfold(old(blocks), i);
      MergeAround(b, i);
      FreedKept(old(mem), m, mem, old(blocks), i);
    }

    /** Merge block `b` with the free blocks after it, then let a free predecessor swallow it. */
    method MergeAround(b: int, ghost i: nat)
      requires Shape() && i < |blocks| && blocks[i].addr == b
      modifies this`hdr, this`mem, this`tail, this`blocks
      ensures Shape() && AllKept(old(mem), mem, old(blocks))
      ensures var r := MergeRun(old(blocks), i);
              i < |r| && blocks == if i > 0 && r[i - 1].free then MergeRun(r, i - 1) else r
    {
      hide HeaderByte, Tiled, Linked, Stamp, Kept, AllKept, HeaderOf, MergeRun, EndsOk;
      MergeRunTiled(blocks, base, brk, i);
      CoalesceForward(b, i);
      ghost var m := mem;
      HeaderHere(hdr, blocks, base, brk, i);
      var prev := hdr[b].prev;
      if prev != 0 {
        HeaderHere(hdr, blocks, base, brk, i - 1);
        if hdr[prev].free {
          CoalesceForward(prev, i - 1);
          RunKept(m, mem, old(blocks), base, brk, i);
          AllKeptTransitive(old(mem), m, mem, old(blocks));
        }
      } else if i > 0 {
        HeaderHere(hdr, blocks, base, brk, i - 1);
      }
    }

    /** Set the flag of block `b`. */
    method Mark(b: int, f: bool, ghost i: nat)
      requires Shape() && i < |blocks| && blocks[i].addr == b
      modifies this`hdr, this`mem, this`blocks
      ensures Shape() && blocks == SetFree(old(blocks), i, f) && AllKept(old(mem), mem, old(blocks))
      ensures i < |blocks| && blocks[i].addr == b && b in hdr && hdr[b].size == old(blocks)[i].size
    {
      hide HeaderByte, Tiled, Linked, Stamp, Kept, AllKept, HeaderOf;
      HeaderHere(hdr, blocks, base, brk, i);
      SetFreeLinked(hdr, blocks, base, brk, i, f);
      SetFreeTiled(blocks, base, brk, i, f);
      SetFreeEnds(blocks, i, f);
      StampHeader(blocks, base, brk, i, mem, hdr[b].(free := f));
      Store(b, hdr[b].(free := f));
      blocks := SetFree(blocks, i, f);
    }

    /** `urealloc` into the free space right after the block. */
    method Stretch(b: int, need: nat, ghost i: nat)
      requires Valid() && i + 1 < |blocks| && blocks[i].addr == b && !blocks[i].free && blocks[i + 1].free
      requires need % 16 == 0 && blocks[i].size < need <= blocks[i].size + HEADER + blocks[i + 1].size
      modifies this`hdr, this`mem, this`tail, this`blocks, this`used
      ensures Valid() && blocks == StretchAt(old(blocks), i, need) && blocks[i].addr == b
      ensures need <= blocks[i].size < need + 48
      ensures !blocks[i].free && Live(blocks) == Live(old(blocks)) - {old(blocks)[i]} + {blocks[i]}
      ensures KeptOn(old(mem), mem, Live(old(blocks)))
    {
      hide HeaderByte, Tiled, Linked, Stamp, Kept, AllKept, KeptOn, HeaderOf, UsedBytes, Coalesced, MergeRun, MergeAt,
           SplitAt, Live, EndsOk;
      StretchOk(blocks, base, brk, i, need);
      LiveStretch(blocks, base, brk, i, need);
      OnceHere(blocks, i);
      MergeTiled(blocks, base, brk, i);
      MergeEnds(blocks, base, brk, i);
      HeaderHere(hdr, blocks, base, brk, i);
      UsedAtLeast(blocks, i);
      used := used - hdr[b].size;
      CoalesceForward(b, i);
      ghost var m, merged := mem, blocks;
      AllKeptLive(old(mem), m, old(blocks));
      SplitBlock(b, need, i);
      ghost var w, split := mem, blocks;
      StretchIndex(old(blocks), i, need);
      Mark(b, false, i);
      used := used + hdr[b].size;
      StretchKept(m, w, mem, old(blocks), i, need);
      KeptOnTransitive(old(mem), m, mem, Live(old(blocks)));
    }

    /** `urealloc` by allocating, copying and freeing. */
    method Move(ptr: int, size: nat, ghost i: nat) returns (p: int, ghost k: nat)
      requires Valid() && 0 < size && Handled(size)
      requires i < |blocks| && ptr == blocks[i].addr + HEADER && !blocks[i].free && blocks[i].size < AlignUp(size)
      modifies this
      ensures Valid() && KeptOn(old(mem), mem, Live(old(blocks)) - {old(blocks)[i]})
      ensures p == 0 ==> Live(blocks) == Live(old(blocks)) && KeptOn(old(mem), mem, Live(old(blocks)))
      ensures p == 0 && !Hopeless(size) ==> blocks == old(blocks) && mem == old(mem)
      ensures Hopeless(size) ==> p == 0
      ensures p != 0 ==> && k < |blocks| && p == blocks[k].addr + HEADER && p % 16 == 0 && !blocks[k].free
                         && blocks[k].size >= AlignUp(size) && (blocks[k].size >= size <==> size <= MAX_REQUEST)
                         && Live(blocks) == Live(old(blocks)) - {old(blocks)[i]} + {blocks[k]}
                         && SameBytes(old(mem), ptr, mem, p, old(blocks)[i].size)
    {
      hide HeaderByte, Tiled, Linked, Stamp, Kept, AllKept, KeptOn, HeaderOf, UsedBytes, Coalesced, Live, EndsOk,
           AlignUp, FirstFit, Taken, ReleaseAt, SameBytes;
      ghost var b0 := blocks[i];
      p, k := Umalloc(size);
      if p == 0 {
        SubsetKept(old(mem), mem, Live(old(blocks)), Live(old(blocks)) - {b0});
        return;
      }
      ghost var m, g, made := mem, blocks, blocks[k];
      LiveAt(old(blocks), i);
      PayloadAligned(old(blocks), base, old(brk), i);
      ghost var j := IndexOf(blocks, b0);
      KeptBytes(old(mem), m, Live(old(blocks)), b0);
      Apart(blocks, base, brk, j, k);
      CopyPayload(ptr, p, AlignUp(size), j, k);
      ghost var w := mem;
      CopyKept(m, w, g, base, brk, k, Live(old(blocks)));
      Ufree(ptr, j);
      LiveAt(g, k);
      assert Live(blocks) == Live(old(blocks)) - {b0} + {made};
      k := IndexOf(blocks, made);
      FreedBytes(w, mem, g, made, Live(old(blocks)));
      SameBytesTrans(old(mem), m, w, mem, b0, made);
      KeptOnTransitive(old(mem), m, w, Live(old(blocks)));
      KeptOnTransitive(old(mem), w, mem, Live(old(blocks)));
      SubsetKept(old(mem), mem, Live(old(blocks)), Live(old(blocks)) - {b0});
    }

    /** The copy loop: byte by byte up to the smaller of the old size and the request. */
    method CopyPayload(src: int, dst: int, need: nat, ghost j: nat, ghost k: nat)
      requires Shape() && j < |blocks| && k < |blocks| && j != k
      requires src == blocks[j].addr + HEADER && dst == blocks[k].addr + HEADER
      requires blocks[j].size <= need <= blocks[k].size
      requires End(blocks[j]) <= blocks[k].addr || End(blocks[k]) <= blocks[j].addr
      modifies this`mem
      ensures SameBytes(old(mem), src, mem, dst, blocks[j].size)
      ensures forall x :: !(dst <= x < End(blocks[k])) ==> mem(x) == old(mem)(x)
    {
      hide Tiled, Linked, HeaderOf, EndsOk;
      HeaderHere(hdr, blocks, base, brk, j);
      var n := 0;
      while n < hdr[src - HEADER].size && n < need
        invariant n <= blocks[j].size
        invariant SameBytes(old(mem), src, mem, dst, n)
        invariant forall x :: !(dst <= x < dst + n) ==> mem(x) == old(mem)(x)
      {
        ghost var m := mem;
        mem := SetByte(mem, dst + n, mem(src + n));
        assert forall x :: 0 <= x < n ==> ByteAt(mem, dst, x) == ByteAt(m, dst, x);
        n := n + 1;
      }
    }

    /** `urealloc`. */
    method Urealloc(ptr: int, size: nat, ghost i: nat) returns (p: int, ghost k: nat)
      requires Valid() && Handled(size)
      requires ptr == 0 || (i < |blocks| && ptr == blocks[i].addr + HEADER && !blocks[i].free)
      modifies this
      ensures Valid()
      ensures KeptOn(old(mem), mem, Live(old(blocks)) - (if ptr == 0 then {} else {old(blocks)[i]}))
      ensures p != 0 ==> && size > 0 && k < |blocks| && p == blocks[k].addr + HEADER && p % 16 == 0
                         && !blocks[k].free && (blocks[k].size >= size <==> size <= MAX_REQUEST)
                         && Live(blocks) == Live(old(blocks)) - (if ptr == 0 then {}
                            else {old(blocks)[i]}) + {blocks[k]}
      ensures p != 0 && ptr != 0 ==>
                SameBytes(old(mem), ptr, mem, p, if old(blocks)[i].size < blocks[k].size then old(blocks)[i].size
                    else blocks[k].size)
      ensures p == 0 && (ptr == 0 || size > 0) && !Hopeless(size) ==> blocks == old(blocks) && mem == old(mem)
      ensures Hopeless(size) ==> p == 0 && Live(blocks) == Live(old(blocks)) && KeptOn(old(mem), mem, Live(old(blocks)))
      ensures ptr != 0 && size == 0 ==> p == 0 && Live(blocks) == Live(old(blocks)) - {old(blocks)[i]}
    {
      hide Tiled, Linked, Kept, AllKept, KeptOn, Coalesced, UsedBytes, Live, FirstFit, Taken, EndsOk, AlignUp,
           SameBytes, ReleaseAt, StretchAt, HeaderOf;
      if ptr == 0 {
        p, k := Umalloc(size);
        SubsetKept(old(mem), mem, Live(old(blocks)), Live(old(blocks)) - {});
        return;
      }
      ghost var b0 := blocks[i];
      LiveAt(blocks, i);
      if size == 0 {
        Ufree(ptr, i);
        AllKeptLive(old(mem), mem, old(blocks));
        SubsetKept(old(mem), mem, Live(old(blocks)), Live(old(blocks)) - {b0});
        return 0, 0;
      }
      var b := ptr - HEADER;
      var need := AlignUp(size);
      NeedOk(size);
      PayloadAligned(blocks, base, brk, i);
      HeaderHere(hdr, blocks, base, brk, i);
      SizeBelow(blocks, base, brk, i);
      if hdr[b].size >= need {
        KeptRefl(mem, blocks);
        AllKeptLive(mem, mem, blocks);
        KeptBytes(mem, mem, Live(blocks), b0);
        SubsetKept(mem, mem, Live(blocks), Live(blocks) - {b0});
        return ptr, i;
      }
      var n := hdr[b].next;
      if n != 0 {
        HeaderHere(hdr, blocks, base, brk, i + 1);
        PairBelow(blocks, base, brk, i);
        if hdr[n].free && hdr[b].size + HEADER + hdr[n].size >= need {
          Stretch(b, need, i);
          KeptBytes(old(mem), mem, Live(old(blocks)), b0);
          SubsetKept(old(mem), mem, Live(old(blocks)), Live(old(blocks)) - {b0});
          return ptr, i;
        }
      }
      p, k := Move(ptr, size, i);
    }
  }

  /** What the header of block `i` says, spelled out. */
  lemma HeaderHere(hdr: map<int, Header>, bs: seq<Blk>, base: int, brk: int, i: nat)
    requires Tiled(bs, base, brk) && Linked(hdr, bs) && i < |bs|
    ensures bs[i].addr in hdr && hdr[bs[i].addr].size == bs[i].size && hdr[bs[i].addr].free == bs[i].free
    ensures bs[i].addr > 0
    ensures hdr[bs[i].addr].next == 0 <==> i + 1 == |bs|
    ensures i + 1 < |bs| ==> hdr[bs[i].addr].next == bs[i + 1].addr == End(bs[i]) && bs[i + 1].addr in hdr
    ensures i + 2 < |bs| ==> bs[i + 2].addr in hdr && bs[i + 2].addr != bs[i].addr
    ensures hdr[bs[i].addr].prev == if i == 0 then 0 else bs[i - 1].addr
  {
    Within(bs, base, brk, i);
    if i + 1 < |bs| {
      Within(bs, base, brk, i + 1);
    }
    if i + 2 < |bs| {
      Ordered(bs, base, brk, i, i + 2);
    }
  }

  lemma SplitNone(bs: seq<Blk>, i: nat, need: nat, m: int -> int)
    requires i < |bs| && bs[i].size < need + HEADER + 16
    ensures SplitAt(bs, i, need) == bs && forall j :: 0 <= j < |bs| ==> Kept(m, m, bs[j])
  {
  }

  lemma SplitEnds(bs: seq<Blk>, i: nat, need: nat)
    requires i < |bs| && bs[i].size >= need + HEADER + 16
    ensures var r := SplitAt(bs, i, need);
            && r != [] && r[0].addr == bs[0].addr
            && r[|r| - 1].addr == if i + 1 == |bs| then bs[i].addr + HEADER + need else bs[|bs| - 1].addr
  {
  }

  lemma MergeEnds(bs: seq<Blk>, base: int, brk: int, i: nat)
    requires Tiled(bs, base, brk) && i + 1 < |bs|
    ensures var r := MergeAt(bs, i);
            && r != [] && |r| == |bs| - 1 && r[i].addr == bs[i].addr && r[0].addr == bs[0].addr
            && r[i].size == bs[i].size + HEADER + bs[i + 1].size
            && r[|r| - 1].addr == if i + 2 == |bs| then bs[i].addr else bs[|bs| - 1].addr
  {
  }

  /** Every payload of `first` lies inside a payload of `bs`. */
  ghost predicate Covers(bs: seq<Blk>, first: seq<Blk>) {
    forall j :: 0 <= j < |first| ==> InSome(first[j], bs)
  }

  predicate InSome(a: Blk, bs: seq<Blk>) { exists k :: 0 <= k < |bs| && Inside(a, bs[k]) }

  predicate Inside(a: Blk, b: Blk) { b.addr <= a.addr && End(a) <= End(b) }

  lemma CoversKept(m: int -> int, w: int -> int, bs: seq<Blk>, first: seq<Blk>)
    requires AllKept(m, w, bs) && Covers(bs, first)
    ensures AllKept(m, w, first)
  {
    forall j | 0 <= j < |first|
      ensures Kept(m, w, first[j])
    {
      assert InSome(first[j], bs);
      var k :| 0 <= k < |bs| && Inside(first[j], bs[k]);
      assert Kept(m, w, bs[k]);
    }
  }

  lemma MergeCovers(bs: seq<Blk>, base: int, brk: int, i: nat, first: seq<Blk>)
    requires Tiled(bs, base, brk) && i + 1 < |bs| && Covers(bs, first)
    ensures Covers(MergeAt(bs, i), first)
  {
    var r := MergeAt(bs, i);
    forall j | 0 <= j < |first|
      ensures InSome(first[j], r)
    {
      assert InSome(first[j], bs);
      var k :| 0 <= k < |bs| && Inside(first[j], bs[k]);
      var e := if k <= i then k else k - 1;
      assert k > i + 1 ==> r[e] == bs[k];
      assert bs[i + 1].addr == End(bs[i]);
      assert Inside(bs[k], r[e]);
      assert Inside(first[j], r[e]);
    }
  }

  lemma KeptRefl(m: int -> int, bs: seq<Blk>)
    ensures AllKept(m, m, bs) && Covers(bs, bs)
  {
    assert forall j :: 0 <= j < |bs| ==> Inside(bs[j], bs[j]);
  }

  lemma MergeRunStep(bs: seq<Blk>, i: nat)
    requires i < |bs|
    ensures i + 1 < |bs| && bs[i + 1].free ==> MergeRun(bs, i) == MergeRun(MergeAt(bs, i), i)
    ensures i + 1 == |bs| || !bs[i + 1].free ==> MergeRun(bs, i) == bs
  {
  }

  /** Memory after the header stores of a split. */
  function SplitMem(m: int -> int, bs: seq<Blk>, i: nat, need: nat, h0: Header, h1: Header, h2: Header): int -> int
    requires i < |bs|
  {
    var m1 := Stamp(m, bs[i].addr + HEADER + need, h0);
    var m2 := if i + 1 < |bs| then Stamp(m1, bs[i + 1].addr, h1) else m1;
    Stamp(m2, bs[i].addr, h2)
  }

  lemma SplitKept(bs: seq<Blk>, base: int, brk: int, i: nat, need: nat, m: int -> int, h0: Header, h1: Header,
      h2: Header)
    requires Tiled(bs, base, brk) && i < |bs| && bs[i].size >= need + HEADER + 16
    ensures var w := SplitMem(m, bs, i, need, h0, h1, h2);
            && (forall j :: 0 <= j < |bs| && j != i ==> Kept(m, w, bs[j]))
            && (forall x :: bs[i].addr + HEADER <= x < bs[i].addr + HEADER + need ==> w(x) == m(x))
  {
    hide HeaderByte, Tiled;
    var w := SplitMem(m, bs, i, need, h0, h1, h2);
    forall j | 0 <= j < |bs| && j != i
      ensures Kept(m, w, bs[j])
    {
      Apart(bs, base, brk, i, j);
      if i + 1 < |bs| && j != i + 1 {
        Apart(bs, base, brk, i + 1, j);
      }
    }
    if i + 1 < |bs| {
      Ordered(bs, base, brk, i, i + 1);
    }
  }

  /** Memory after the header stores of a merge. */
  function MergeMem(m: int -> int, bs: seq<Blk>, i: nat, h0: Header, h1: Header): int -> int
    requires i < |bs|
  {
    var m1 := Stamp(m, bs[i].addr, h0);
    if i + 2 < |bs| then Stamp(m1, bs[i + 2].addr, h1) else m1
  }

  lemma MergeKept(bs: seq<Blk>, base: int, brk: int, i: nat, m: int -> int, h0: Header, h1: Header)
    requires Tiled(bs, base, brk) && i + 1 < |bs|
    ensures AllKept(m, MergeMem(m, bs, i, h0, h1), bs)
  {
    hide Tiled, Stamp, AllKept;
    StampHeader(bs, base, brk, i, m, h0);
    var m1 := Stamp(m, bs[i].addr, h0);
    if i + 2 < |bs| {
      StampHeader(bs, base, brk, i + 2, m1, h1);
      AllKeptTransitive(m, m1, Stamp(m1, bs[i + 2].addr, h1), bs);
    }
  }

  /** Payload bytes of a set of blocks are the same in both memories. */
  ghost predicate KeptOn(m: int -> int, w: int -> int, bs: set<Blk>) {
    forall b :: b in bs ==> Kept(m, w, b)
  }

  lemma KeptOnTransitive(m: int -> int, w: int -> int, v: int -> int, bs: set<Blk>)
    requires KeptOn(m, w, bs) && KeptOn(w, v, bs)
    ensures KeptOn(m, v, bs)
  {
    forall b | b in bs
      ensures Kept(m, v, b)
    {
      assert Kept(m, w, b) && Kept(w, v, b);
    }
  }

  lemma AllKeptLive(m: int -> int, w: int -> int, bs: seq<Blk>)
    requires AllKept(m, w, bs)
    ensures KeptOn(m, w, Live(bs))
  {
    hide Kept;
  }

  lemma SplitLiveKept(m: int -> int, w: int -> int, bs: seq<Blk>, i: nat)
    requires i < |bs| && bs[i].free && forall j :: 0 <= j < |bs| && j != i ==> Kept(m, w, bs[j])
    ensures KeptOn(m, w, Live(bs))
  {
    hide Kept;
  }

  lemma PrefixKept(m: int -> int, w: int -> int, bs: seq<Blk>, all: seq<Blk>)
    requires AllKept(m, w, all) && bs <= all
    ensures AllKept(m, w, bs)
  {
    hide Kept;
    assert forall j :: 0 <= j < |bs| ==> bs[j] == all[j];
  }

  lemma FirstFitUnique(bs: seq<Blk>, need: nat, i: nat)
    requires i <= |bs| && (i < |bs| ==> bs[i].free && bs[i].size >= need)
    requires forall k :: 0 <= k < i ==> !(bs[k].free && bs[k].size >= need)
    ensures FirstFit(bs, need) == i
  {
    var f := FirstFit(bs, need);
  }

  lemma TailIs(bs: seq<Blk>, head: int, tail: int)
    requires EndsOk(bs, head, tail) && bs != []
    ensures tail == bs[|bs| - 1].addr
  {
  }

  lemma SetFreeEnds(bs: seq<Blk>, i: nat, f: bool)
    requires i < |bs|
    ensures var r := SetFree(bs, i, f); r != [] && r[0].addr == bs[0].addr && r[|r| - 1].addr == bs[|bs| - 1].addr
  {
  }

  lemma SetFreeLinked(hdr: map<int, Header>, bs: seq<Blk>, base: int, brk: int, i: nat, f: bool)
    requires Tiled(bs, base, brk) && Linked(hdr, bs) && i < |bs|
    ensures bs[i].addr in hdr && Linked(hdr[bs[i].addr := hdr[bs[i].addr].(free := f)], SetFree(bs, i, f))
  {
    hide Tiled;
    var a := bs[i].addr;
    var w := hdr[a := hdr[a].(free := f)];
    var r := SetFree(bs, i, f);
    forall k | 0 <= k < |r|
      ensures r[k].addr in w && w[r[k].addr] == HeaderOf(r, k)
    {
      if k != i {
        Apart(bs, base, brk, i, k);
      }
    }
  }

  lemma GrownKeeps(bs: seq<Blk>, base: int, brk: int, bytes: nat)
    requires Tiled(bs, base, brk) && Coalesced(bs) && bytes >= HEADER && bytes % 16 == 0
    ensures Coalesced(GrownBy(bs, brk, bytes)) && UsedBytes(GrownBy(bs, brk, bytes)) == UsedBytes(bs)
  {
    hide Tiled, Coalesced, UsedBytes, GrownBy;
    GrownOk(bs, base, brk, bytes);
  }

  lemma GrownJoin(bs: seq<Blk>, brk: int, bytes: nat)
    requires bytes >= HEADER
    ensures var s := bs + [Blk(brk, bytes - HEADER, true)]; var n := |bs|;
            GrownBy(bs, brk, bytes) == if n > 0 && s[n - 1].free then MergeRun(s, n - 1) else s
  {
    hide MergeRun;
  }

  lemma Bounds(bs: seq<Blk>, base: int, brk: int)
    requires Tiled(bs, base, brk)
    ensures 0 < base <= brk
  {
  }

  /** The header `tail` points at is the last block's. */
  lemma TailHere(hdr: map<int, Header>, bs: seq<Blk>, base: int, brk: int)
    requires Tiled(bs, base, brk) && Linked(hdr, bs)
    ensures bs != [] ==> var t := bs[|bs| - 1].addr; t > 0 && t in hdr && t < brk
  {
    if bs != [] {
      Within(bs, base, brk, |bs| - 1);
    }
  }

  /** Headers once a block is appended. */
  function AppendHdr(hdr: map<int, Header>, bs: seq<Blk>, x: Blk): map<int, Header>
    requires Linked(hdr, bs)
  {
    var t := if bs == [] then 0 else bs[|bs| - 1].addr;
    var h := hdr[x.addr := Header(x.size, t, 0, x.free)];
    if bs == [] then h else h[t := hdr[t].(next := x.addr)]
  }

  lemma AppendLinked(hdr: map<int, Header>, bs: seq<Blk>, base: int, brk: int, x: Blk)
    requires Tiled(bs, base, brk) && Linked(hdr, bs) && x.addr == brk
    ensures Linked(AppendHdr(hdr, bs, x), bs + [x])
  {
    hide Tiled;
    var r := bs + [x];
    var w := AppendHdr(hdr, bs, x);
    forall k | 0 <= k < |r|
      ensures r[k].addr in w && w[r[k].addr] == HeaderOf(r, k)
    {
      AppendIndex(bs, base, brk, x, k);
      if k == |bs| {
        assert r[k] == x && (k > 0 ==> r[k - 1] == bs[k - 1]);
      } else if k == |bs| - 1 {
        assert r[k] == bs[k] && r[k + 1] == x && (k > 0 ==> r[k - 1] == bs[k - 1]);
      } else {
        assert r[k] == bs[k] && r[k + 1] == bs[k + 1] && (k > 0 ==> r[k - 1] == bs[k - 1]);
        assert w[r[k].addr] == hdr[bs[k].addr];
      }
    }
  }

  lemma AppendIndex(bs: seq<Blk>, base: int, brk: int, x: Blk, k: nat)
    requires Tiled(bs, base, brk) && x.addr == brk && k <= |bs|
    ensures bs != [] ==> bs[|bs| - 1].addr != x.addr
    ensures k < |bs| ==> bs[k].addr != x.addr && (k < |bs| - 1 ==> bs[k].addr != bs[|bs| - 1].addr)
  {
    if k < |bs| {
      Within(bs, base, brk, k);
      if k < |bs| - 1 {
        Apart(bs, base, brk, k, |bs| - 1);
      }
    }
    if bs != [] {
      Within(bs, base, brk, |bs| - 1);
    }
  }

  /** Memory after a block is appended at `b`. */
  function AppendMem(m: int -> int, bs: seq<Blk>, b: int, h0: Header, h1: Header): int -> int {
    var m1 := Stamp(m, b, h0);
    if bs == [] then m1 else Stamp(m1, bs[|bs| - 1].addr, h1)
  }

  lemma AppendKept(bs: seq<Blk>, base: int, b: int, m: int -> int, h0: Header, h1: Header)
    requires Tiled(bs, base, b)
    ensures AllKept(m, AppendMem(m, bs, b, h0, h1), bs)
  {
    hide Tiled, HeaderByte;
    var m1 := Stamp(m, b, h0);
    forall j | 0 <= j < |bs|
      ensures Kept(m, m1, bs[j])
    {
      Within(bs, base, b, j);
    }
    if bs != [] {
      StampHeader(bs, base, b, |bs| - 1, m1, h1);
      AllKeptTransitive(m, m1, Stamp(m1, bs[|bs| - 1].addr, h1), bs);
    }
  }

  /** Exactly which block is handed out: the first fit of the old list, or of the list grown once when
      nothing fitted. */
  ghost predicate Taken(bs: seq<Blk>, i: nat, brk: int, was: seq<Blk>, wasBrk: int, need: nat)
  {
    if FirstFit(was, need) < |was| then brk == wasBrk && i == FirstFit(was, need) && bs == TakeAt(was, i, need)
    else && GrowBytes(need) >= HEADER && brk == wasBrk + GrowBytes(need)
         && var g := GrownBy(was, wasBrk, GrowBytes(need));
         i == FirstFit(g, need) < |g| && bs == TakeAt(g, i, need)
  }

  lemma NeedOk(size: nat)
    requires 0 < size && Handled(size)
    ensures var need := AlignUp(size);
            && need % 16 == 0 && GrowBytes(need) >= GROW_MIN
            && (if size <= LAST_ROUNDED then need >= size else need == 0)
            && (Hopeless(size) ==> need >= WORD - 32) && (!Hopeless(size) ==> GrowBytes(need) >= need + HEADER)
  {
    GrowEnough(size);
    GrowWhole(AlignUp(size));
    if size > MAX_REQUEST {
      LargeRequest(size);
    }
  }

  lemma PairBelow(bs: seq<Blk>, base: int, brk: int, i: nat)
    requires Tiled(bs, base, brk) && i + 1 < |bs|
    ensures bs[i].size + HEADER + bs[i + 1].size < brk
  {
    Within(bs, base, brk, i);
    Within(bs, base, brk, i + 1);
  }

  lemma SizeBelow(bs: seq<Blk>, base: int, brk: int, i: nat)
    requires Tiled(bs, base, brk) && i < |bs|
    ensures bs[i].size < brk
  {
    Within(bs, base, brk, i);
  }

  /** After one growth the request fits, so the loop never grows twice. */
  lemma GrownFits(bs: seq<Blk>, base: int, brk: int, need: nat)
    requires Tiled(bs, base, brk) && Coalesced(bs) && GrowBytes(need) >= need + HEADER
    ensures var g := GrownBy(bs, brk, GrowBytes(need)); FirstFit(g, need) < |g| && Live(g) == Live(bs)
  {
    hide Tiled, Coalesced, GrowBytes, GrownBy, Live, FirstFit, UsedBytes;
    GrowWhole(need);
    GrownOk(bs, base, brk, GrowBytes(need));
    LiveGrown(bs, brk, GrowBytes(need));
  }

  lemma TakeIndex(bs: seq<Blk>, base: int, brk: int, i: nat, need: nat)
    requires Tiled(bs, base, brk) && Coalesced(bs) && i == FirstFit(bs, need) < |bs| && need % 16 == 0
    ensures bs[i].free && bs[i].size >= need && bs[i].addr > 0 && bs[i].addr % 16 == 0
    ensures var r := TakeAt(bs, i, need);
            && r[i].addr == bs[i].addr && !r[i].free && need <= r[i].size < need + 48 && Live(r) == Live(bs) + {r[i]}
            && r[i] !in Live(bs)
  {
    hide Coalesced, Live, TakeAt, UsedBytes;
    Within(bs, base, brk, i);
    TakeOk(bs, base, brk, i, need);
    LiveTake(bs, base, brk, i, need);
    NotLiveHere(bs, base, brk, i, TakeAt(bs, i, need)[i]);
  }

  lemma ReleaseUnfold(bs: seq<Blk>, i: nat)
    requires i < |bs|
    ensures var s := SetFree(bs, i, true); var r := MergeRun(s, i);
            && i < |r| && ReleaseAt(bs, i) == if i > 0 && r[i - 1].free then MergeRun(r, i - 1) else r
  {
    MergeRunLength(SetFree(bs, i, true), i);
  }

  /** Payloads survive a step stated for the list with one flag changed. */
  lemma FreedKept(m: int -> int, w: int -> int, v: int -> int, bs: seq<Blk>, i: nat)
    requires i < |bs| && AllKept(m, w, bs) && AllKept(w, v, SetFree(bs, i, true))
    ensures AllKept(m, v, bs)
  {
    var s := SetFree(bs, i, true);
    forall j | 0 <= j < |bs|
      ensures Kept(m, v, bs[j])
    {
      assert Kept(m, w, bs[j]) && Kept(w, v, s[j]);
    }
  }

  /** Payloads of the blocks that went into a merge lie in the merged blocks. */
  lemma RunKept(m: int -> int, w: int -> int, bs: seq<Blk>, base: int, brk: int, i: nat)
    requires Tiled(bs, base, brk) && i < |bs| && AllKept(m, w, MergeRun(bs, i))
    ensures AllKept(m, w, bs)
  {
    KeptRefl(m, bs);
    RunCovers(bs, base, brk, i, bs);
    CoversKept(m, w, MergeRun(bs, i), bs);
  }

  lemma {:induction false} RunCovers(bs: seq<Blk>, base: int, brk: int, i: nat, first: seq<Blk>)
    requires Tiled(bs, base, brk) && i < |bs| && Covers(bs, first)
    ensures Covers(MergeRun(bs, i), first)
    decreases |bs|
  {
    hide Tiled, Covers;
    if i + 1 < |bs| && bs[i + 1].free {
      MergeTiled(bs, base, brk, i);
      MergeCovers(bs, base, brk, i, first);
      RunCovers(MergeAt(bs, i), base, brk, i, first);
    }
  }

  /** `n` bytes at `a` in one memory equal those at `c` in another. */
  ghost predicate SameBytes(m: int -> int, a: int, w: int -> int, c: int, n: nat) {
    forall x :: 0 <= x < n ==> ByteAt(w, c, x) == ByteAt(m, a, x)
  }

  function ByteAt(m: int -> int, a: int, x: int): int { m(a + x) }

  function SetByte(m: int -> int, a: int, v: int): int -> int { x => if x == a then v else m(x) }

  lemma SubsetKept(m: int -> int, w: int -> int, all: set<Blk>, some: set<Blk>)
    requires KeptOn(m, w, all) && some <= all
    ensures KeptOn(m, w, some)
  {
    hide Kept;
  }

  lemma LiveAt(bs: seq<Blk>, i: nat)
    requires i < |bs| && !bs[i].free
    ensures bs[i] in Live(bs)
  {
  }

  ghost function IndexOf(bs: seq<Blk>, b: Blk): (j: nat)
    requires b in Live(bs)
    ensures j < |bs| && bs[j] == b && !b.free
  {
    var j :| 0 <= j < |bs| && bs[j] == b; j
  }

  lemma KeptBytes(m: int -> int, w: int -> int, bs: set<Blk>, b: Blk)
    requires KeptOn(m, w, bs) && b in bs
    ensures SameBytes(m, b.addr + HEADER, w, b.addr + HEADER, b.size)
  {
    assert Kept(m, w, b);
  }

  /** Copying into block `k` leaves every other block alone. */
  lemma CopyKept(m: int -> int, w: int -> int, bs: seq<Blk>, base: int, brk: int, k: nat, some: set<Blk>)
    requires Tiled(bs, base, brk) && k < |bs| && bs[k] !in some && some <= Live(bs)
    requires forall x :: !(bs[k].addr + HEADER <= x < End(bs[k])) ==> w(x) == m(x)
    ensures KeptOn(m, w, some)
  {
    hide Tiled;
    forall b | b in some
      ensures Kept(m, w, b)
    {
      assert b in Live(bs);
      var j := IndexOf(bs, b);
      Apart(bs, base, brk, j, k);
    }
  }

  lemma FreedBytes(w: int -> int, v: int -> int, g: seq<Blk>, made: Blk, some: set<Blk>)
    requires AllKept(w, v, g) && made in Live(g) && some <= Live(g)
    ensures Kept(w, v, made) && KeptOn(w, v, some)
  {
    hide Kept;
    var j := IndexOf(g, made);
    AllKeptLive(w, v, g);
    SubsetKept(w, v, Live(g), some);
  }

  lemma SameBytesTrans(m0: int -> int, m: int -> int, w: int -> int, v: int -> int, b: Blk, made: Blk)
    requires SameBytes(m0, b.addr + HEADER, m, b.addr + HEADER, b.size)
    requires SameBytes(m, b.addr + HEADER, w, made.addr + HEADER, b.size)
    requires Kept(w, v, made) && b.size <= made.size
    ensures SameBytes(m0, b.addr + HEADER, v, made.addr + HEADER, b.size)
  {
    var a, c := b.addr + HEADER, made.addr + HEADER;
    forall x | 0 <= x < b.size
      ensures ByteAt(v, c, x) == ByteAt(m0, a, x)
    {
      assert ByteAt(v, c, x) == ByteAt(w, c, x) == ByteAt(m, a, x) == ByteAt(m0, a, x);
    }
  }

  lemma UsedAtLeast(bs: seq<Blk>, i: nat)
    requires i < |bs| && !bs[i].free
    ensures UsedBytes(bs) >= bs[i].size
  {
    SetFreeUsed(bs, i, true);
  }

  lemma NotLiveHere(bs: seq<Blk>, base: int, brk: int, i: nat, b: Blk)
    requires Tiled(bs, base, brk) && i < |bs| && bs[i].free && b.addr == bs[i].addr
    ensures b !in Live(bs)
  {
    hide Tiled;
    if b in Live(bs) {
      var j := IndexOf(bs, b);
      Apart(bs, base, brk, i, j);
    }
  }

  lemma PayloadAligned(bs: seq<Blk>, base: int, brk: int, i: nat)
    requires Tiled(bs, base, brk) && i < |bs|
    ensures (bs[i].addr + HEADER) % 16 == 0 && bs[i].addr > 0
  {
    Within(bs, base, brk, i);
  }

  /** The stretched block in the merged and split list. */
  lemma StretchIndex(bs: seq<Blk>, i: nat, need: nat)
    requires i + 1 < |bs| && bs[i].size < need <= bs[i].size + HEADER + bs[i + 1].size
    ensures var s := SplitAt(MergeAt(bs, i), i, need); i < |s| && s[i].addr == bs[i].addr && s[i].size >= need
  {
  }

  lemma StretchKept(m: int -> int, w: int -> int, v: int -> int, bs: seq<Blk>, i: nat, need: nat)
    requires i + 1 < |bs| && bs[i + 1].free && bs[i].size < need <= bs[i].size + HEADER + bs[i + 1].size
    requires var r := MergeAt(bs, i); forall j :: 0 <= j < |r| && j != i ==> Kept(m, w, r[j])
    requires forall x :: bs[i].addr + HEADER <= x < bs[i].addr + HEADER + need ==> w(x) == m(x)
    requires AllKept(w, v, SplitAt(MergeAt(bs, i), i, need))
    ensures KeptOn(m, v, Live(bs))
  {
    hide SplitAt, Live;
    StretchIndex(bs, i, need);
    var r := MergeAt(bs, i);
    var s := SplitAt(r, i, need);
    forall b | b in Live(bs)
      ensures Kept(m, v, b)
    {
      var k := IndexOf(bs, b);
      if k == i {
        assert Kept(w, v, s[i]);
      } else {
        ghost var j, l := StretchElse(bs, i, need, k);
        assert Kept(m, w, r[j]) && Kept(w, v, s[l]);
      }
    }
  }

  /** Where the other used blocks are found in the merged and in the split list. */
  lemma StretchElse(bs: seq<Blk>, i: nat, need: nat, k: nat) returns (j: nat, l: nat)
    requires i + 1 < |bs| && k < |bs| && k != i && k != i + 1
    ensures var r := MergeAt(bs, i); var s := SplitAt(r, i, need);
            j < |r| && j != i && r[j] == bs[k] && l < |s| && s[l] == bs[k]
  {
    var r := MergeAt(bs, i);
    j := if k < i then k else k - 1;
    l := if k < i || SplitAt(r, i, need) == r then j else j + 1;
  }
}
