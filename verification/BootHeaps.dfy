/** Boot: choosing a memory region from the multiboot map and carving the three kernel heaps out of it. */
module BootHeaps {
  import opened Numbers
  import opened BlockLists
  import KB = KernelBlocks

  const WORD := 0x1_0000_0000_0000_0000   // 2^64
  const MB := 0x10_0000
  const BIG_PAGE := 0x20_0000             // 2 MB
  const TOP_RESERVE := 16 * MB
  const MIN_HEAP := 32 * MB
  const MIN_AUX := 8 * MB
  const MMAP_ENTRY_SIZE := 24
  const AVAILABLE := 1

  type u64 = x: nat | x < WORD

  /** One memory map entry. */
  datatype Entry = Entry(base: u64, length: u64, kind: nat)

  /** The multiboot tags up to the terminator, a map tag with the entries it spans. */
  datatype Tag = Mmap(entrySize: nat, entries: seq<Entry>) | Other | EndTag

  /** The entries the scan looks at: those of map tags before the terminator with full-size entries. */
  function Entries(tags: seq<Tag>): seq<Entry> {
    if tags == [] || tags[0].EndTag? then []
    else (if tags[0].Mmap? && tags[0].entrySize >= MMAP_ENTRY_SIZE then tags[0].entries else []) + Entries(tags[1..])
  }

  predicate Usable(e: Entry) { e.kind == AVAILABLE && e.length > 0 }

  /** End of an entry in 64-bit arithmetic. */
  function EntryEnd(e: Entry): u64 { (e.base + e.length) % WORD }

  /** The heap length an entry offers above `lo`, in 64-bit arithmetic. */
  function Offer(e: Entry, lo: u64): u64 {
    if Usable(e) && EntryEnd(e) > lo then (EntryEnd(e) - Max(e.base, lo)) % WORD else 0
  }

  /** An entry that runs past the end of the address space. */
  predicate Wraps(e: Entry) { e.base + e.length >= WORD }

  /** The first entry with the largest offer, or `|es|` if no entry offers anything. */
  function Winner(es: seq<Entry>, lo: u64): (w: nat)
    ensures w <= |es|
    ensures w == |es| <==> forall j :: 0 <= j < |es| ==> Offer(es[j], lo) == 0
    ensures w < |es| ==> && Offer(es[w], lo) > 0
                         && (forall j :: 0 <= j < w ==> Offer(es[j], lo) < Offer(es[w], lo))
                         && (forall j :: 0 <= j < |es| ==> Offer(es[j], lo) <= Offer(es[w], lo))
  {
    hide Offer;
    if es == [] then 0
    else
      var n := |es| - 1;
      var w := Winner(es[..n], lo);
      assert forall j :: 0 <= j < n ==> es[..n][j] == es[j];
      if w == n then (if Offer(es[n], lo) > 0 then n else n + 1)
      else if Offer(es[n], lo) > Offer(es[w], lo) then n
      else w
  }

  /** The bookkeeping of the scan: the largest offer so far and the region it came from. */
  ghost predicate Best(seen: seq<Entry>, lo: u64, len: u64, base: u64, end: u64) {
    var w := Winner(seen, lo);
    if w == |seen| then len == 0 && base == 0 && end == 0
    else len == Offer(seen[w], lo) && base == Max(seen[w].base, lo) && end == EntryEnd(seen[w])
  }

  lemma BestNext(seen: seq<Entry>, e: Entry, lo: u64, len: u64, base: u64, end: u64)
    requires Best(seen, lo, len, base, end)
    ensures if Offer(e, lo) > len then Best(seen + [e], lo, Offer(e, lo), Max(e.base, lo), EntryEnd(e))
            else Best(seen + [e], lo, len, base, end)
  {
    hide Offer;
    assert (seen + [e])[..|seen|] == seen;
  }

  /** What the scan promises: it succeeds exactly when some entry offers memory and the first with the
      largest offer does not run past the end of the address space, and then reports that entry, cut
      off below `lo`. */
  ghost predicate Chosen(es: seq<Entry>, lo: u64, base: u64, end: u64) {
    var w := Winner(es, lo);
    && (end > base <==> w < |es| && !Wraps(es[w]))
    && (end > base ==> Usable(es[w]) && base == Max(es[w].base, lo) && end == es[w].base + es[w].length)
  }

  lemma BestMeans(es: seq<Entry>, lo: u64, len: u64, base: u64, end: u64)
    requires Best(es, lo, len, base, end)
    ensures Chosen(es, lo, base, end)
  {
    hide Offer, Wraps, EntryEnd;
    var w := Winner(es, lo);
    if w < |es| {
      OfferMeans(es[w], lo);
    }
  }

  lemma OfferMeans(e: Entry, lo: u64)
    requires Offer(e, lo) > 0
    ensures Usable(e)
    ensures Wraps(e) <==> EntryEnd(e) <= Max(e.base, lo)
    ensures !Wraps(e) ==> EntryEnd(e) == e.base + e.length && Offer(e, lo) == e.base + e.length - Max(e.base, lo)
  {
  }

  /** The loop body for one entry. */
  method Consider(e: Entry, lo: u64, best: u64, base: u64, end: u64, ghost seen: seq<Entry>)
    returns (best': u64, base': u64, end': u64)
    requires Best(seen, lo, best, base, end)
    ensures Best(seen + [e], lo, best', base', end')
  {
    hide Offer, Best, EntryEnd;
    BestNext(seen, e, lo, best, base, end);
    OfferHere(e, lo);
    best', base', end' := best, base, end;
    if e.kind == AVAILABLE && e.length > 0 {
      var last := EntryEnd(e);
      if last > lo {
        var heapBase := Max(e.base, lo);
        var heapLen := Sub(last, heapBase);
        if heapLen > best {
          best', base', end' := heapLen, heapBase, last;
        }
      }
    }
  }

  /** The loop over the entries of one map tag. */
  method ScanEntries(es: seq<Entry>, lo: u64, best0: u64, base0: u64, end0: u64, available0: u64, highest0: u64,
                     ghost before: seq<Entry>)
    returns (best: u64, base: u64, end: u64, available: u64, highest: u64)
    requires Best(before, lo, best0, base0, end0)
    requires available0 == AvailableBytes(before) % WORD && highest0 == HighestEnd(before)
    ensures Best(before + es, lo, best, base, end)
    ensures available == AvailableBytes(before + es) % WORD && highest == HighestEnd(before + es)
  {
    hide Best, EntryEnd, AvailableBytes, HighestEnd;
    best, base, end, available, highest := best0, base0, end0, available0, highest0;
    assert before + es[..0] == before;
    var j := 0;
    while j < |es|
      invariant j <= |es| && Best(before + es[..j], lo, best, base, end)
      invariant available == AvailableBytes(before + es[..j]) % WORD && highest == HighestEnd(before + es[..j])
    {
      var e := es[j];
      ghost var seen := before + es[..j];
      best, base, end := Consider(e, lo, best, base, end, seen);
      SumsNext(seen, e);
      if e.kind == AVAILABLE && e.length > 0 {
        available := Add(available, e.length);
        highest := if EntryEnd(e) > highest then EntryEnd(e) else highest;
      }
      assert before + es[..j + 1] == seen + [e];
      j := j + 1;
    }
    assert es[..j] == es;
  }

  /** `multiboot2_memory_info`. */
  method MemoryInfo(tags: seq<Tag>, lo: u64) returns (ok: bool, base: u64, end: u64, available: u64, highest: u64)
    ensures ok <==> end > base
    ensures Chosen(Entries(tags), lo, base, end)
    ensures available == AvailableBytes(Entries(tags)) % WORD
    ensures highest == HighestEnd(Entries(tags))
  {
    hide Offer, Best, Wraps, EntryEnd, Chosen, AvailableBytes, HighestEnd, Entries;
    ghost var seen := [];
    var best: u64 := 0;
    base, end, available, highest := 0, 0, 0, 0;
    NoneSeen(lo);
    var i := 0;
    assert tags[0..] == tags;
    while i < |tags| && !tags[i].EndTag?
      invariant i <= |tags| && Entries(tags) == seen + Entries(tags[i..])
      invariant Best(seen, lo, best, base, end)
      invariant available == AvailableBytes(seen) % WORD && highest == HighestEnd(seen)
    {
      EntriesStep(tags, i);
      if tags[i].Mmap? && tags[i].entrySize >= MMAP_ENTRY_SIZE {
        best, base, end, available, highest := ScanEntries(tags[i].entries, lo, best, base, end, available, highest,
            seen);
        seen := seen + tags[i].entries;
      }
      i := i + 1;
    }
    EntriesDone(tags, i);
    assert seen == Entries(tags);
    BestMeans(seen, lo, best, base, end);
    ok := end > base;
  }

  function Add(a: u64, b: u64): u64 { (a + b) % WORD }

  function Sub(a: u64, b: u64): u64 { (a - b) % WORD }

  lemma OfferHere(e: Entry, lo: u64)
    ensures Offer(e, lo) == if Usable(e) && EntryEnd(e) > lo then Sub(EntryEnd(e), Max(e.base, lo)) else 0
  {
  }

  lemma NoneSeen(lo: u64)
    ensures Best([], lo, 0, 0, 0) && AvailableBytes([]) == 0 && HighestEnd([]) == 0
  {
  }

  /** Total length of the available entries. */
  function AvailableBytes(es: seq<Entry>): nat {
    if es == [] then 0
    else var e := es[|es| - 1]; AvailableBytes(es[..|es| - 1]) + if Usable(e) then e.length else 0
  }

  function HighestEnd(es: seq<Entry>): u64 {
    if es == [] then 0
    else var e := es[|es| - 1]; var h := HighestEnd(es[..|es| - 1]);
         if Usable(e) && EntryEnd(e) > h then EntryEnd(e) else h
  }

  lemma SumsNext(seen: seq<Entry>, e: Entry)
    ensures AvailableBytes(seen + [e]) == AvailableBytes(seen) + if Usable(e) then e.length else 0
    ensures Usable(e) ==> AvailableBytes(seen + [e]) % WORD == (AvailableBytes(seen) % WORD + e.length) % WORD
    ensures HighestEnd(seen + [e]) ==
            if Usable(e) && EntryEnd(e) > HighestEnd(seen) then EntryEnd(e) else HighestEnd(seen)
  {
    assert (seen + [e])[..|seen|] == seen;
  }

  lemma EntriesStep(tags: seq<Tag>, i: nat)
    requires i < |tags| && !tags[i].EndTag?
    ensures Entries(tags[i..]) ==
            (if tags[i].Mmap? && tags[i].entrySize >= MMAP_ENTRY_SIZE then tags[i].entries else [])
            + Entries(tags[i + 1..])
  {
    assert tags[i..][1..] == tags[i + 1..];
  }

  lemma EntriesDone(tags: seq<Tag>, i: nat)
    requires i <= |tags| && (i < |tags| ==> tags[i].EndTag?)
    ensures Entries(tags[i..]) == []
  {
  }

  // ---- carving ----

  datatype Region = Region(base: nat, size: nat)

  function Top(r: Region): nat { r.base + r.size }

  /** `halt_forever`, or the heaps that are initialised (an auxiliary heap may be missing). */
  datatype Outcome = Halted | Heaps(main: Region, gfx: seq<Region>, img: seq<Region>)

  function Regions(o: Outcome): seq<Region>
    requires o.Heaps?
  {
    [o.main] + o.gfx + o.img
  }

  predicate Apart(a: Region, b: Region) { Top(a) <= b.base || Top(b) <= a.base }

  predicate PairwiseApart(rs: seq<Region>) { forall i, j :: 0 <= i < j < |rs| ==> Apart(rs[i], rs[j]) }

  predicate Inside(r: Region, lo: int, hi: int) { lo <= r.base && Top(r) <= hi }

  /** `align_up_uintptr(v, 2 MB)` in 64-bit arithmetic. */
  function AlignUp(v: u64): u64 { (v + BIG_PAGE - 1) % WORD / BIG_PAGE * BIG_PAGE }

  function AlignDown(v: nat): nat { v / BIG_PAGE * BIG_PAGE }

  /** Inside the region, large enough and aligned to 2 MB. */
  predicate Fits(r: Region, lo: int, hi: int) {
    Inside(r, lo, hi) && r.size >= MIN_AUX && r.base % BIG_PAGE == 0 && r.size % BIG_PAGE == 0
  }

  /** Less than the smallest main heap is left between the aligned ends. */
  predicate TooSmall(base: u64, end: u64) { AlignDown(Usable16(end)) < AlignUp(base) + MIN_HEAP }

  function GfxSize(h: nat): nat { AlignDown(Min(h / 6, 64 * MB)) }

  function ImgSize(h: nat): nat { AlignDown(Min(h / 4, 96 * MB)) }

  /** The graphics heap also leaves room for the image heap. */
  predicate GfxTaken(h: nat) { GfxSize(h) >= MIN_AUX && h - GfxSize(h) - ImgSize(h) >= MIN_HEAP }

  predicate ImgTaken(h: nat) {
    ImgSize(h) >= MIN_AUX && h - (if GfxTaken(h) then GfxSize(h) else 0) - ImgSize(h) >= MIN_HEAP
  }

  /** Disjoint heaps stacked from the aligned base to the aligned end, main below image below graphics. */
  predicate CarvedFrom(o: Outcome, base: u64, end: u64) {
    && o.Heaps? && PairwiseApart(Regions(o)) && |o.gfx| <= 1 && |o.img| <= 1
    && o.main.base == AlignUp(base) && o.main.size >= MIN_HEAP && AlignUp(base) <= AlignDown(Usable16(end))
    && (forall r :: r in Regions(o) ==> Fits(r, AlignUp(base), AlignDown(Usable16(end))))
    && Sum(Regions(o)) == AlignDown(Usable16(end)) - AlignUp(base)
    && (forall r, g :: r in o.img && g in o.gfx ==> Top(r) == g.base)
    && var h := AlignDown(Usable16(end)) - AlignUp(base);
       && (if GfxTaken(h) then |o.gfx| == 1 && o.gfx[0].size == GfxSize(h) else o.gfx == [])
       && (if ImgTaken(h) then |o.img| == 1 && o.img[0].size == ImgSize(h) else o.img == [])
  }

  /** The carving, given the region found: both auxiliary heaps come off the top, each only while the
      main heap keeps its minimum. Nothing between the aligned ends is lost. */
  method Carve(base: u64, end: u64) returns (o: Outcome)
    requires base < end
    ensures o.Halted? <==> TooSmall(base, end)
    ensures o.Heaps? ==> CarvedFrom(o, base, end)
  {
    hide AlignUp, AlignDown, Usable16, Min, Sum, PairwiseApart, Regions, Fits, GfxSize, ImgSize;
    var heapStart := AlignUp(base);
    var heapEnd: nat := AlignDown(Usable16(end));
    Aligned(base, end);
    if heapEnd <= heapStart || heapEnd - heapStart < MIN_HEAP {
      return Halted;
    }
    var heapSize := heapEnd - heapStart;
    var gfxSize := GfxSize(heapSize);
    var imgSize := ImgSize(heapSize);
    SizesFit(heapSize);
    var gfx: seq<Region> := [];
    var img: seq<Region> := [];
    if gfxSize >= MIN_AUX && heapSize - gfxSize - imgSize >= MIN_HEAP {
      var gfxBase := heapEnd - gfxSize;
      heapSize := heapSize - gfxSize;
      heapEnd := gfxBase;
      gfx := [Region(gfxBase, gfxSize)];
    }
    if imgSize >= MIN_AUX && heapSize - imgSize >= MIN_HEAP {
      var imgBase := heapEnd - imgSize;
      heapSize := heapSize - imgSize;
      heapEnd := imgBase;
      img := [Region(imgBase, imgSize)];
    }
    o := Heaps(Region(heapStart, heapSize), gfx, img);
    Stacked(o, AlignDown(Usable16(end)));
  }

  /** Regions stacked from the main heap up to `top` without gaps. */
  lemma Stacked(o: Outcome, top: nat)
    requires o.Heaps? && |o.gfx| <= 1 && |o.img| <= 1
    requires o.main.size >= MIN_HEAP && o.main.base % BIG_PAGE == 0 && top % BIG_PAGE == 0
    requires forall r :: r in o.gfx + o.img ==> r.size >= MIN_AUX && r.size % BIG_PAGE == 0
    requires var g := if o.gfx == [] then top else o.gfx[0].base; var m := if o.img == [] then g else o.img[0].base;
             (o.gfx != [] ==> Top(o.gfx[0]) == top) && (o.img != [] ==> Top(o.img[0]) == g) && Top(o.main) == m
    ensures PairwiseApart(Regions(o)) && Sum(Regions(o)) == top - o.main.base
    ensures forall r :: r in Regions(o) ==> Fits(r, o.main.base, top)
  {
    hide Sum;
    SumParts(o.main, o.gfx, o.img);
    assert o.gfx != [] ==> o.gfx[0] in o.gfx + o.img;
    assert o.img != [] ==> o.img[0] in o.gfx + o.img;
    if o.gfx != [] {
      MinusAligned(top, o.gfx[0].size);
    }
    if o.img != [] {
      MinusAligned(Top(o.img[0]), o.img[0].size);
    }
    MinusAligned(Top(o.main), o.main.base);
  }

  lemma MinusAligned(a: nat, b: nat)
    requires a % BIG_PAGE == 0 && b % BIG_PAGE == 0
    ensures (a - b) % BIG_PAGE == 0
  {
  }

  /** The region end less the reserve kept at the top of memory. */
  function Usable16(end: u64): nat { if end > TOP_RESERVE then end - TOP_RESERVE else end }

  function Sum(rs: seq<Region>): nat { if rs == [] then 0 else rs[0].size + Sum(rs[1..]) }

  lemma SumParts(m: Region, g: seq<Region>, h: seq<Region>)
    requires |g| <= 1 && |h| <= 1
    ensures Sum([m] + g + h) == m.size + (if g == [] then 0 else g[0].size) + if h == [] then 0 else h[0].size
  {
    assert ([m] + g + h)[1..] == g + h;
    SumOne(h);
    if g == [] {
      assert g + h == h;
    } else {
      assert (g + h)[1..] == h;
    }
  }

  lemma SumOne(h: seq<Region>)
    requires |h| <= 1
    ensures Sum(h) == if h == [] then 0 else h[0].size
  {
    if h != [] {
      assert h[1..] == [];
    }
  }

  lemma Aligned(base: u64, end: u64)
    ensures AlignUp(base) % BIG_PAGE == 0 && AlignDown(Usable16(end)) % BIG_PAGE == 0
    ensures AlignDown(Usable16(end)) <= end
  {
  }

  lemma SizesFit(h: nat)
    ensures var g := GfxSize(h); var m := ImgSize(h);
            g % BIG_PAGE == 0 && m % BIG_PAGE == 0 && g + m <= h
  {
  }

  /** The heaps lie inside the region found exactly when aligning its base does not wrap around. */
  lemma InsideRegion(base: u64, end: u64, o: Outcome)
    requires base < end && CarvedFrom(o, base, end)
    ensures (forall r :: r in Regions(o) ==> Inside(r, base, end)) <==> base <= WORD - BIG_PAGE
  {
    hide AlignUp, AlignDown, Usable16, Sum, PairwiseApart;
    assert Regions(o)[0] == o.main;
    assert o.main in Regions(o);
    AlignUpAbove(base);
    Aligned(base, end);
  }

  lemma AlignUpAbove(v: u64)
    ensures AlignUp(v) >= v <==> v <= WORD - BIG_PAGE
  {
  }

  /** A region above 2^64 - 2 MB: the main heap would start at address zero. */
  lemma WrapsToZero(base: u64)
    requires base > WORD - BIG_PAGE
    ensures AlignUp(base) == 0
  {
  }

  /** Of a region above 16 MB the top 16 MB are never part of a heap; less than 2 MB more is lost there, and less than
      2 MB at its base. */
  lemma TopReserved(base: u64, end: u64, o: Outcome)
    requires base <= WORD - BIG_PAGE && end > 0x100_0000 && CarvedFrom(o, base, end)
    ensures forall r :: r in Regions(o) ==> base <= r.base && Top(r) <= end - 0x100_0000
    ensures end - base - 0x100_0000 - 0x40_0000 < Sum(Regions(o)) <= end - base - 0x100_0000
  {
    hide AlignUp, AlignDown, Sum;
    AlignedWithin(base, end);
  }

  lemma AlignedWithin(base: u64, end: u64)
    ensures base <= WORD - BIG_PAGE ==> base <= AlignUp(base) < base + 0x20_0000
    ensures Usable16(end) - 0x20_0000 < AlignDown(Usable16(end)) <= Usable16(end)
  {
  }

  /** The auxiliary heaps take at most five twelfths: the main heap keeps the rest of what is carved. */
  lemma MainShare(base: u64, end: u64, o: Outcome)
    requires CarvedFrom(o, base, end)
    ensures 12 * o.main.size >= 7 * Sum(Regions(o)) && o.main.size >= 0x200_0000
    ensures forall r :: r in o.gfx ==> 0x80_0000 <= r.size <= 0x400_0000
    ensures forall r :: r in o.img ==> 0x80_0000 <= r.size <= 0x600_0000
  {
    hide Sum, PairwiseApart, AlignUp;
    SumParts(o.main, o.gfx, o.img);
  }

  /** `kernel_init_heap_from_bootinfo`. Every outcome has its exact condition on the memory map. */
  method Boot(kernelEnd: nat, tags: seq<Tag>) returns (o: Outcome)
    requires kernelEnd <= 0x1_0000_0000
    ensures o.Heaps? ==> PairwiseApart(Regions(o)) && forall r :: r in Regions(o) ==> Top(r) < WORD
    ensures var lo := AlignUp(kernelEnd); var es := Entries(tags); var w := Winner(es, lo);
            && (o == Fallback(lo) <==> w == |es| || Wraps(es[w]))
            && (w < |es| && !Wraps(es[w]) ==> Placed(o, es[w], lo))
  {
    hide AlignUp, AlignDown, Usable16, Sum, Offer, Wraps, PairwiseApart, Regions, Entries, Fallback, Fits, CarvedFrom,
         Winner, Inside, TooSmall;
    var lo := AlignUp(kernelEnd);
    LowBound(kernelEnd);
    var ok, base, end, _, _ := MemoryInfo(tags, lo);
    if !ok {
      o := Fallback(lo);
      FallbackOk(lo);
      return;
    }
    o := Carve(base, end);
    if o.Heaps? {
      NotFallback(o, base, end, lo);
      TopsBelow(o, base, end);
      InsideRegion(base, end, o);
    }
  }

  /** The outcome for the entry chosen: too small a region halts, and otherwise the heaps are carved
      from it and lie in it, above the kernel, exactly when its aligned base does not wrap around. */
  ghost predicate Placed(o: Outcome, e: Entry, lo: u64)
    requires e.base + e.length < WORD
  {
    var base := Max(e.base, lo);
    var end := e.base + e.length;
    && Usable(e) && base < end
    && (o.Halted? <==> TooSmall(base, end))
    && (o.Heaps? ==> && CarvedFrom(o, base, end)
                     && ((forall r :: r in Regions(o) ==> Inside(r, base, end)) <==> base <= WORD - BIG_PAGE))
  }

  lemma LowBound(kernelEnd: nat)
    requires kernelEnd <= 0x1_0000_0000
    ensures kernelEnd <= AlignUp(kernelEnd) <= 0x1_0000_0000 + BIG_PAGE
  {
  }

  lemma TopsBelow(o: Outcome, base: u64, end: u64)
    requires CarvedFrom(o, base, end)
    ensures forall r :: r in Regions(o) ==> Top(r) < WORD
    ensures PairwiseApart(Regions(o))
  {
    hide Regions, PairwiseApart, Sum, AlignUp, AlignDown, Usable16;
    Aligned(base, end);
  }

  /** The fixed layout used without a memory map. */
  function Fallback(start: u64): (o: Outcome)
    ensures o.Heaps?
  {
    Heaps(Region(start, 256 * MB), [Region(start + 256 * MB, 64 * MB)], [Region(start + 320 * MB, 96 * MB)])
  }

  lemma FallbackOk(start: u64)
    requires start <= 0x1_0000_0000 + BIG_PAGE
    ensures PairwiseApart(Regions(Fallback(start)))
    ensures forall r :: r in Regions(Fallback(start)) ==> Top(r) < WORD
    ensures Fallback(start).main.size >= MIN_HEAP && |Fallback(start).gfx| == 1 && |Fallback(start).img| == 1
  {
    var o := Fallback(start);
    assert Regions(o) == [o.main, o.gfx[0], o.img[0]];
  }

  lemma ImageBelow(o: Outcome, base: u64, end: u64)
    requires CarvedFrom(o, base, end)
    ensures o.img != [] && o.gfx != [] ==> Top(o.img[0]) == o.gfx[0].base
  {
  }

  /** The fallback has the graphics heap below the image heap, carving the other way round. */
  lemma NotFallback(o: Outcome, base: u64, end: u64, start: u64)
    requires CarvedFrom(o, base, end)
    ensures o != Fallback(start)
  {
    hide AlignUp, AlignDown, Usable16, Sum, PairwiseApart, Fits;
    ImageBelow(o, base, end);
  }

  /** An entry that wraps around and offers most sends boot to the fixed layout, here with no available
      memory below 64 GB: none of its heaps is in an available entry. */
  lemma WrapForcesFallback(lo: u64)
    requires lo <= 0x1_0000_0000 + BIG_PAGE
    ensures var gb := 1024 * MB; var es := [Entry(64 * gb, gb, AVAILABLE), Entry(WORD - gb, 32 * gb, AVAILABLE)];
            && Winner(es, lo) == 1 && Wraps(es[1]) && !Wraps(es[0]) && Offer(es[0], lo) == gb
            && (forall k, r :: 0 <= k < |es| && r in Regions(Fallback(lo)) ==>
                !Inside(r, es[k].base, es[k].base + es[k].length))
  {
    var gb := 1024 * MB;
    var es := [Entry(64 * gb, gb, AVAILABLE), Entry(WORD - gb, 32 * gb, AVAILABLE)];
    assert Offer(es[0], lo) == gb;
    assert Offer(es[1], lo) == 32 * gb;
    assert Winner(es, lo) < |es|;
    var o := Fallback(lo);
    assert Regions(o) == [o.main, o.gfx[0], o.img[0]];
  }

  /** A chosen entry in the last 2 MB of the address space: the main heap starts at address zero. */
  lemma LastPagePlaced(lo: u64, o: Outcome)
    requires 0 < lo <= 0x1_0000_0000 + BIG_PAGE
    ensures var e := Entry(WORD - MB, MB - 1, AVAILABLE);
            && Winner([e], lo) == 0 && !Wraps(e)
            && (Placed(o, e, lo) ==>
                  && o.Heaps? && o.main.base == 0
                  && exists r :: r in Regions(o) && !Inside(r, lo, e.base + e.length))
  {
    var e := Entry(WORD - MB, MB - 1, AVAILABLE);
    assert Offer([e][0], lo) == MB - 1;
    assert Winner([e], lo) < 1;
    if Placed(o, e, lo) {
      WrapsToZero(e.base);
      assert !TooSmall(e.base, e.base + e.length);
      assert Regions(o)[0] == o.main;
      assert o.main in Regions(o);
    }
  }

  /** Blocks of different heaps never overlap, whatever the heaps have been through. */
  lemma HeapsNeverOverlap(rs: seq<Region>, i: nat, j: nat, a: seq<Blk>, b: seq<Blk>, x: nat, y: nat)
    requires PairwiseApart(rs) && i < |rs| && j < |rs| && i != j
    requires KB.HeapOk(a, rs[i].base, Top(rs[i])) && KB.HeapOk(b, rs[j].base, Top(rs[j]))
    requires x < |a| && y < |b|
    ensures KB.End(a[x]) <= b[y].addr || KB.End(b[y]) <= a[x].addr
  {
    KB.Within(a, rs[i].base, Top(rs[i]), x);
    KB.Within(b, rs[j].base, Top(rs[j]), y);
    assert if i < j then Apart(rs[i], rs[j]) else Apart(rs[j], rs[i]);
  }
}
