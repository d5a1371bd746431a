/** Page tables: the 4-level walk, the tables built for a process and the framebuffer remap. */
module Paging {
  const WORD := 0x1_0000_0000_0000_0000   // 2^64
  const KB4 := 0x1000
  const MB2 := 0x20_0000
  const GB := 0x4000_0000
  const GB512 := 0x80_0000_0000
  const USER_RW := 7      // present, writable, user
  const KERNEL_RW := 3    // present, writable
  const FB_FLAGS := 0x9b  // present, writable, write-through, cache-disable, PAT

  /** A table entry as frame address and flag bits. */
  datatype Entry = Entry(addr: nat, flags: nat)

  const EMPTY := Entry(0, 0)

  predicate Present(e: Entry) { e.flags % 2 == 1 }
  predicate Writable(e: Entry) { e.flags / 2 % 2 == 1 }
  predicate User(e: Entry) { e.flags / 4 % 2 == 1 }
  predicate Large(e: Entry) { e.flags / 128 % 2 == 1 }

  /** Physical memory seen as tables of 512 entries by address. */
  type Memory = map<nat, seq<Entry>>

  function Get(mem: Memory, table: nat, i: nat): Entry {
    if table in mem && i < |mem[table]| then mem[table][i] else EMPTY
  }

  datatype Result = Fault | Page(phys: nat, user: bool, writable: bool)

  function I4(v: nat): nat { v / GB512 % 512 }
  function I3(v: nat): nat { v / GB % 512 }
  function I2(v: nat): nat { v / MB2 % 512 }
  function I1(v: nat): nat { v / KB4 % 512 }

  /** The walk from a page directory entry on; `u` and `w` are the rights granted so far. */
  function FromPde(mem: Memory, e: Entry, v: nat, u: bool, w: bool): Result {
    if !Present(e) then Fault
    else if Large(e) then Page(e.addr + v % MB2, u && User(e), w && Writable(e))
    else
      var t := Get(mem, e.addr, I1(v));
      if !Present(t) then Fault
      else Page(t.addr + v % KB4, u && User(e) && User(t), w && Writable(e) && Writable(t))
  }

  /** The 4-level walk: an access needs its right at every level. */
  function Translate(mem: Memory, cr3: nat, v: nat): Result {
    var e4 := Get(mem, cr3, I4(v));
    if !Present(e4) then Fault
    else
      var e3 := Get(mem, e4.addr, I3(v));
      if !Present(e3) then Fault
      else if Large(e3) then Page(e3.addr + v % GB, User(e4) && User(e3), Writable(e4) && Writable(e3))
      else FromPde(mem, Get(mem, e3.addr, I2(v)), v, User(e4) && User(e3), Writable(e4) && Writable(e3))
  }

  /** A level without the right denies it, whatever the other levels say. */
  lemma EveryLevel(mem: Memory, cr3: nat, v: nat)
    ensures var r := Translate(mem, cr3, v); var e4 := Get(mem, cr3, I4(v)); var e3 := Get(mem, e4.addr, I3(v));
            var e2 := Get(mem, e3.addr, I2(v)); var e1 := Get(mem, e2.addr, I1(v));
            && (r.Page? && (!User(e4) || !User(e3)) ==> !r.user)
            && (r.Page? && (!Writable(e4) || !Writable(e3)) ==> !r.writable)
            && (r.Page? && !Large(e3) && (!User(e2) || (!Large(e2) && !User(e1))) ==> !r.user)
            && (r.Page? && !Large(e3) && (!Writable(e2) || (!Large(e2) && !Writable(e1))) ==> !r.writable)
  {
    hide I4, I3, I2, I1, User, Writable, Present, Large;
  }

  // ---- a process ----

  datatype Layout = Layout(base: nat, top: nat, code: nat, codeSize: nat, stack: nat, stackSize: nat, count: nat)

  /** What the callers must pass: an aligned slice of the first gigabyte and page-aligned frames. */
  predicate LayoutOk(m: Layout) {
    && m.base % MB2 == 0 && m.base / MB2 + m.count <= 512
    && m.top < WORD && m.codeSize < WORD && m.stackSize < WORD
    && m.code % KB4 == 0 && m.stack % KB4 == 0
  }

  function Pages(size: nat): nat { (size + 0xfff) % WORD / KB4 }

  /** First page of the stack within the slice, in 64-bit arithmetic. */
  function StackPage(m: Layout): nat { ((m.top - m.stackSize) - m.base) % WORD / KB4 }

  predicate IsStack(m: Layout, p: nat) { StackPage(m) <= p < StackPage(m) + Pages(m.stackSize) }

  predicate IsCode(m: Layout, p: nat) { p < Pages(m.codeSize) }

  /** The mapping of page `p` of the slice; the stack wins where both claim a page. */
  function UserEntry(m: Layout, p: nat): Entry {
    if IsStack(m, p) then Entry(m.stack + (p - StackPage(m)) * KB4, USER_RW)
    else if IsCode(m, p) then Entry(m.code + p * KB4, USER_RW)
    else EMPTY
  }

  function WithUser(e: Entry): Entry { if User(e) then e else e.(flags := e.flags + 4) }

  /** Only the user bit is set. */
  lemma WithUserOnly(e: Entry)
    ensures var r := WithUser(e);
            && User(r) && r.addr == e.addr && Present(r) == Present(e) && Writable(r) == Writable(e)
            && Large(r) == Large(e)
  {
    if !User(e) {
      var f := e.flags;
      ThirdBit(f);
      assert (f + 4) / 128 == (f + 4) / 8 / 16 && f / 128 == f / 8 / 16;
    }
  }

  lemma ThirdBit(f: nat)
    requires f / 4 % 2 == 0
    ensures (f + 4) / 8 == f / 8 && (f + 4) / 4 % 2 == 1 && (f + 4) % 2 == f % 2 && (f + 4) / 2 % 2 == f / 2 % 2
  {
    var q, r := f / 8, f % 8;
    assert f / 4 == 2 * q + r / 4;
    assert (f + 4) / 4 == 2 * q + 1;
    assert f / 2 == 4 * q + r / 2 && (f + 4) / 2 == f / 2 + 2;
  }

  /** `paging_map_user_process`. */
  method MapUserProcess(m: Layout, tables: array<Entry>, bootPml4: array<Entry>, bootPdp: array<Entry>)
    requires LayoutOk(m) && tables.Length == m.count * 512 && bootPml4.Length == 512 && bootPdp.Length == 512
    requires bootPml4 != bootPdp && tables != bootPml4 && tables != bootPdp
    modifies tables, bootPml4, bootPdp
    ensures forall p :: 0 <= p < tables.Length ==> tables[p] == UserEntry(m, p)
    ensures bootPml4[..] == old(bootPml4[..])[0 := WithUser(old(bootPml4[0]))]
    ensures bootPdp[..] == old(bootPdp[..])[0 := WithUser(old(bootPdp[0]))]
  {
    Clear(tables);
    MapCode(m, tables);
    MapStack(m, tables);
    bootPml4[0] := WithUser(bootPml4[0]);
    bootPdp[0] := WithUser(bootPdp[0]);
  }

  method Clear(tables: array<Entry>)
    modifies tables
    ensures forall p :: 0 <= p < tables.Length ==> tables[p] == EMPTY
  {
    var i := 0;
    while i < tables.Length
      invariant i <= tables.Length && forall p :: 0 <= p < i ==> tables[p] == EMPTY
    {
      tables[i] := EMPTY;
      i := i + 1;
    }
  }

  /** The loop over code pages, stopping at the first page past the tables. */
  method MapCode(m: Layout, tables: array<Entry>)
    requires tables.Length == m.count * 512 && forall p :: 0 <= p < tables.Length ==> tables[p] == EMPTY
    modifies tables
    ensures forall p :: 0 <= p < tables.Length ==>
              tables[p] == if IsCode(m, p) then Entry(m.code + p * KB4, USER_RW) else EMPTY
  {
    hide Pages;
    var pages := Pages(m.codeSize);
    var i := 0;
    while i < pages
      invariant i <= pages && i <= tables.Length
      invariant forall p :: 0 <= p < tables.Length ==>
                tables[p] == if p < i then Entry(m.code + p * KB4, USER_RW) else EMPTY
    {
      if i / 512 >= m.count {
        break;
      }
      Slot(i, m.count);
      tables[i / 512 * 512 + i % 512] := Entry(m.code + i * KB4, USER_RW);
      i := i + 1;
    }
  }

  lemma Slot(page: nat, count: nat)
    requires page / 512 < count
    ensures page / 512 * 512 + page % 512 == page < count * 512
  {
  }

  lemma NoSlot(page: nat, count: nat)
    requires page / 512 >= count
    ensures page >= count * 512
  {
  }

  method MapStack(m: Layout, tables: array<Entry>)
    requires tables.Length == m.count * 512
    requires forall p :: 0 <= p < tables.Length ==>
               tables[p] == if IsCode(m, p) then Entry(m.code + p * KB4, USER_RW) else EMPTY
    modifies tables
    ensures forall p :: 0 <= p < tables.Length ==> tables[p] == UserEntry(m, p)
  {
    hide Pages, StackPage, IsCode;
    var pages := Pages(m.stackSize);
    var first := StackPage(m);
    var i := 0;
    while i < pages
      invariant i <= pages
      invariant forall p :: 0 <= p < tables.Length ==>
                  tables[p] == if first <= p < first + i then Entry(m.stack + (p - first) * KB4, USER_RW)
                               else if IsCode(m, p) then Entry(m.code + p * KB4, USER_RW) else EMPTY
    {
      var page := first + i;
      if page / 512 >= m.count {
        NoSlot(page, m.count);
        break;
      }
      Slot(page, m.count);
      tables[page / 512 * 512 + page % 512] := Entry(m.stack + i * KB4, USER_RW);
      i := i + 1;
    }
  }

  /** The addresses of the tables of one process. */
  datatype Addresses = Addresses(pml4: nat, pdp: nat, pd0: nat, user: nat)

  /** The page directory for the first gigabyte: the boot one with the user tables spliced in. */
  function Pd0Entry(m: Layout, a: Addresses, boot: seq<Entry>, i: nat): Entry
    requires i < |boot|
  {
    var first := m.base / MB2;
    if first <= i < first + m.count then Entry(a.user + (i - first) * KB4, USER_RW) else boot[i]
  }

  function PdpEntry(a: Addresses, pds: seq<nat>, i: nat): Entry
    requires |pds| == 4
  {
    if i == 0 then Entry(a.pd0, USER_RW) else if i < 4 then Entry(pds[i], KERNEL_RW) else EMPTY
  }

  function Pml4Entry(a: Addresses, i: nat): Entry { if i == 0 then Entry(a.pdp, USER_RW) else EMPTY }

  /** `paging_build_process_tables`; `pds` are the addresses of the four boot page directories. */
  method BuildProcessTables(m: Layout, a: Addresses, pds: seq<nat>, boot: array<Entry>,
                            pml4: array<Entry>, pdp: array<Entry>, pd0: array<Entry>)
    returns (cr3: nat)
    requires LayoutOk(m) && |pds| == 4
    requires boot.Length == 512 && pml4.Length == 512 && pdp.Length == 512 && pd0.Length == 512
    requires boot != pml4 && boot != pdp && boot != pd0 && pml4 != pdp && pml4 != pd0 && pdp != pd0
    modifies pml4, pdp, pd0
    ensures a.pml4 == 0 || a.pdp == 0 || a.pd0 == 0 || a.user == 0 ==>
              cr3 == 0 && pml4[..] == old(pml4[..]) && pdp[..] == old(pdp[..]) && pd0[..] == old(pd0[..])
    ensures a.pml4 != 0 && a.pdp != 0 && a.pd0 != 0 && a.user != 0 ==>
              && cr3 == a.pml4
              && (forall i :: 0 <= i < 512 ==> pml4[i] == Pml4Entry(a, i))
              && (forall i :: 0 <= i < 512 ==> pdp[i] == PdpEntry(a, pds, i))
              && (forall i :: 0 <= i < 512 ==> pd0[i] == Pd0Entry(m, a, boot[..], i))
  {
    if a.pml4 == 0 || a.pdp == 0 || a.pd0 == 0 || a.user == 0 {
      return 0;
    }
    var i := 0;
    while i < 512
      invariant i <= 512 && forall k :: 0 <= k < i ==> pd0[k] == boot[k]
      modifies pd0
    {
      pd0[i] := boot[i];
      i := i + 1;
    }
    Splice(m, a, boot[..], pd0);
    pdp[0] := Entry(a.pd0, USER_RW);
    pdp[1] := Entry(pds[1], KERNEL_RW);
    pdp[2] := Entry(pds[2], KERNEL_RW);
    pdp[3] := Entry(pds[3], KERNEL_RW);
    i := 4;
    while i < 512
      invariant 4 <= i <= 512 && forall k :: 0 <= k < i ==> pdp[k] == PdpEntry(a, pds, k)
      modifies pdp
    {
      pdp[i] := EMPTY;
      i := i + 1;
    }
    pml4[0] := Entry(a.pdp, USER_RW);
    i := 1;
    while i < 512
      invariant 1 <= i <= 512 && forall k :: 0 <= k < i ==> pml4[k] == Pml4Entry(a, k)
      modifies pml4
    {
      pml4[i] := EMPTY;
      i := i + 1;
    }
    cr3 := a.pml4;
  }

  method Splice(m: Layout, a: Addresses, boot: seq<Entry>, pd0: array<Entry>)
    requires LayoutOk(m) && |boot| == 512 && pd0.Length == 512 && forall k :: 0 <= k < 512 ==> pd0[k] == boot[k]
    modifies pd0
    ensures forall k :: 0 <= k < 512 ==> pd0[k] == Pd0Entry(m, a, boot, k)
  {
    var first := m.base / MB2 % 512;
    assert m.count > 0 ==> first == m.base / MB2;
    var i := 0;
    while i < m.count
      invariant i <= m.count
      invariant forall k :: 0 <= k < 512 ==>
                  pd0[k] == if first <= k < first + i then Entry(a.user + (k - first) * KB4, USER_RW) else boot[k]
    {
      pd0[first + i] := Entry(a.user + i * KB4, USER_RW);
      i := i + 1;
    }
  }

  // ---- what the tables mean ----

  /** The boot tables: upper levels present and writable, page directories at `pds` open to the kernel only. */
  predicate BootOk(mem: Memory, cr3: nat, pds: seq<nat>) {
    && |pds| == 4
    && var e4 := Get(mem, cr3, 0);
    && Present(e4) && Writable(e4)
    && (forall k :: 0 <= k < 4 ==> var e3 := Get(mem, e4.addr, k);
                                   e3.addr == pds[k] && Present(e3) && Writable(e3) && !Large(e3))
    && (forall k, i :: 0 <= k < 4 && 0 <= i < 512 ==> !User(Get(mem, pds[k], i)))
  }

  /** Entry `i` of the `t`-th user table in memory. */
  function UserTable(mem: Memory, a: Addresses, t: nat, i: nat): Entry { Get(mem, a.user + t * KB4, i) }

  /** The tables the two methods leave behind, as they lie in memory. */
  predicate Built(mem: Memory, m: Layout, a: Addresses, pds: seq<nat>) {
    && LayoutOk(m) && |pds| == 4
    && (forall i :: 0 <= i < 512 ==> Get(mem, a.pml4, i) == Pml4Entry(a, i))
    && (forall i :: 0 <= i < 512 ==> Get(mem, a.pdp, i) == PdpEntry(a, pds, i))
    && pds[0] in mem && |mem[pds[0]]| == 512
    && (forall i :: 0 <= i < 512 ==> Get(mem, a.pd0, i) == Pd0Entry(m, a, mem[pds[0]], i))
    && (forall t, i :: 0 <= t < m.count && 0 <= i < 512 ==> UserTable(mem, a, t, i) == UserEntry(m, t * 512 + i))
  }

  predicate InSlice(m: Layout, v: nat) { m.base <= v < m.base + m.count * MB2 }

  /** The simple mapping the tables are meant to implement. */
  function Meant(mem: Memory, m: Layout, boot: nat, v: nat): Result {
    if InSlice(m, v) then
      var p := (v - m.base) / KB4;
      if IsStack(m, p) then Page(m.stack + (v - m.base - StackPage(m) * KB4), true, true)
      else if IsCode(m, p) then Page(m.code + (v - m.base), true, true)
      else Fault
    else if v < 4 * GB then
      match Translate(mem, boot, v)
      case Fault => Fault
      case Page(phys, _, w) => Page(phys, false, w)
    else Fault
  }

  lemma SliceIndices(m: Layout, v: nat)
    requires LayoutOk(m) && InSlice(m, v)
    ensures v < GB && I4(v) == 0 && I3(v) == 0
    ensures var t := I2(v) - m.base / MB2;
            0 <= t < m.count && (v - m.base) / KB4 == t * 512 + I1(v) && v % KB4 == (v - m.base) % KB4
  {
    var b := m.base / MB2;
    var d := v - m.base;
    assert m.base == b * MB2 && v == b * MB2 + d;
    assert d / MB2 < m.count && v < 512 * MB2;
    assert v / MB2 == b + d / MB2;
    TableSlot(d);
    TableSlot(v);
    assert v / KB4 == b * 512 + d / KB4;
  }

  lemma TableSlot(d: nat)
    ensures d / KB4 == d / MB2 * 512 + d / KB4 % 512
  {
    assert d / KB4 / 512 == d / MB2;
  }

  lemma LowIndices(v: nat)
    requires v < 4 * GB
    ensures I4(v) == 0 && I3(v) == v / GB < 4
  {
  }

  /** In the slice: stack pages, code pages, and a fault for the rest. */
  lemma SliceTranslates(mem: Memory, m: Layout, a: Addresses, pds: seq<nat>, boot: nat, v: nat)
    requires Built(mem, m, a, pds) && InSlice(m, v)
    ensures Translate(mem, a.pml4, v) == Meant(mem, m, boot, v)
  {
    hide StackPage, Pages, I4, I3, I2, I1;
    SliceIndices(m, v);
    IndexBounds(v);
    var d := v - m.base;
    var p := d / KB4;
    var t := I2(v) - m.base / MB2;
    assert Get(mem, a.pml4, 0) == Entry(a.pdp, USER_RW);
    assert Get(mem, a.pdp, 0) == Entry(a.pd0, USER_RW);
    assert Get(mem, a.pd0, I2(v)) == Entry(a.user + t * KB4, USER_RW);
    assert UserTable(mem, a, t, I1(v)) == UserEntry(m, p);
    assert d == p * KB4 + d % KB4;
  }

  lemma IndexBounds(v: nat)
    ensures I4(v) < 512 && I3(v) < 512 && I2(v) < 512 && I1(v) < 512
  {
  }

  /** Elsewhere below 4 GB: what the boot tables say, closed to user mode. */
  lemma OutsideTranslates(mem: Memory, m: Layout, a: Addresses, pds: seq<nat>, boot: nat, v: nat)
    requires Built(mem, m, a, pds) && BootOk(mem, boot, pds) && v < 4 * GB && !InSlice(m, v)
    ensures Translate(mem, a.pml4, v) == Meant(mem, m, boot, v)
  {
    hide StackPage, Pages, I4, I3, I2, I1, UserEntry;
    LowIndices(v);
    IndexBounds(v);
    var k := I3(v);
    assert Get(mem, a.pml4, 0) == Entry(a.pdp, USER_RW);
    assert Get(mem, a.pdp, k) == PdpEntry(a, pds, k);
    assert !User(Get(mem, pds[k], I2(v)));
    if k == 0 {
      NotSpliced(m, v);
      assert Get(mem, a.pd0, I2(v)) == mem[pds[0]][I2(v)] == Get(mem, pds[0], I2(v));
    }
  }

  lemma NotSpliced(m: Layout, v: nat)
    requires LayoutOk(m) && v < GB && !InSlice(m, v)
    ensures !(m.base / MB2 <= I2(v) < m.base / MB2 + m.count)
  {
    var b := m.base / MB2;
    assert m.base == b * MB2 && I2(v) == v / MB2;
  }

  lemma HighFaults(mem: Memory, m: Layout, a: Addresses, pds: seq<nat>, v: nat)
    requires Built(mem, m, a, pds) && 4 * GB <= v < 512 * GB512
    ensures Translate(mem, a.pml4, v) == Fault
  {
    hide I2, I1, UserEntry, Pd0Entry;
    IndexBounds(v);
    assert Get(mem, a.pml4, I4(v)) == Pml4Entry(a, I4(v));
    if I4(v) == 0 {
      assert I3(v) >= 4;
      assert Get(mem, a.pdp, I3(v)) == EMPTY;
    }
  }

  /** The built tables implement the simple mapping on the whole lower half of the address space, and an
      address is open to user mode exactly when it lies in a code or stack page of the slice. */
  lemma ProcessSpace(mem: Memory, m: Layout, a: Addresses, pds: seq<nat>, boot: nat, v: nat)
    requires Built(mem, m, a, pds) && BootOk(mem, boot, pds) && v < 256 * GB512
    ensures Translate(mem, a.pml4, v) == Meant(mem, m, boot, v)
    ensures var r := Translate(mem, a.pml4, v); var p := (v - m.base) / KB4;
            r.Page? && r.user <==> InSlice(m, v) && (IsStack(m, p) || IsCode(m, p))
  {
    hide Built, BootOk, Translate, IsStack, IsCode, StackPage, I4;
    if InSlice(m, v) {
      SliceTranslates(mem, m, a, pds, boot, v);
    } else if v < 4 * GB {
      OutsideTranslates(mem, m, a, pds, boot, v);
    } else {
      HighFaults(mem, m, a, pds, v);
    }
  }

  // ---- the same in bytes ----

  function PageStart(v: nat): nat { v - v % KB4 }

  /** Code reaches every page that begins before its end; a size that wraps in the rounding maps nothing. */
  lemma CodePages(m: Layout, v: nat)
    requires LayoutOk(m) && m.base <= v
    ensures IsCode(m, (v - m.base) / KB4) <==> m.codeSize <= WORD - KB4 && PageStart(v) < m.base + m.codeSize
  {
    var d := v - m.base;
    assert v % KB4 == d % KB4;
    assert d == d / KB4 * KB4 + d % KB4;
    RoundedUp(m.codeSize, d / KB4);
  }

  lemma RoundedUp(size: nat, p: nat)
    requires size < WORD
    ensures p < Pages(size) <==> size <= WORD - KB4 && p * KB4 < size
  {
    if size <= WORD - KB4 {
      var q := (size + 0xfff) / KB4;
      assert q * KB4 <= size + 0xfff < (q + 1) * KB4;
    }
  }

  /** Where the stack pages lie when it starts in the slice. */
  lemma StackPages(m: Layout, v: nat)
    requires LayoutOk(m) && m.base <= v && m.base + m.stackSize <= m.top && m.stackSize <= WORD - KB4
    ensures var f := PageStart(m.top - m.stackSize);
            && StackPage(m) * KB4 == f - m.base
            && (IsStack(m, (v - m.base) / KB4) <==> f <= v && PageStart(v) - f < m.stackSize)
  {
    var lo := m.top - m.stackSize;
    var f := PageStart(lo);
    var d := v - m.base;
    var e := lo - m.base;
    assert v % KB4 == d % KB4 && lo % KB4 == e % KB4;
    assert d == d / KB4 * KB4 + d % KB4 && e == e / KB4 * KB4 + e % KB4;
    assert StackPage(m) == e / KB4;
    if d / KB4 >= e / KB4 {
      RoundedUp(m.stackSize, d / KB4 - e / KB4);
    }
  }

  /** The slice of a process byte by byte, without counting pages: the stack below its top, then the code up to the
      end of the page it ends in, and a fault for everything else. */
  lemma SliceBytes(mem: Memory, m: Layout, a: Addresses, pds: seq<nat>, v: nat)
    requires Built(mem, m, a, pds) && InSlice(m, v) && m.base + m.stackSize <= m.top && m.top % KB4 == 0
    ensures var f := PageStart(m.top - m.stackSize);
            Translate(mem, a.pml4, v) ==
            if f <= v < m.top then Page(m.stack + (v - f), true, true)
            else if m.codeSize <= WORD - KB4 && PageStart(v) < m.base + m.codeSize
            then Page(m.code + (v - m.base), true, true)
            else Fault
  {
    hide Built, Translate, StackPage, Pages, IsCode, IsStack;
    BuiltLayout(mem, m, a, pds);
    SliceTranslates(mem, m, a, pds, 0, v);
    StackPages(m, v);
    CodePages(m, v);
    StackEnds(m, v);
  }

  lemma BuiltLayout(mem: Memory, m: Layout, a: Addresses, pds: seq<nat>)
    requires Built(mem, m, a, pds)
    ensures LayoutOk(m)
  {
  }

  /** With an aligned top the stack pages end at the top. */
  lemma StackEnds(m: Layout, v: nat)
    requires m.stackSize <= m.top && m.top % KB4 == 0
    ensures var f := PageStart(m.top - m.stackSize); f <= v ==> (PageStart(v) - f < m.stackSize <==> v < m.top)
  {
  }

  /** A stack that begins below the slice is not mapped at all. */
  lemma StackBelow(mem: Memory, m: Layout, a: Addresses, pds: seq<nat>, v: nat)
    requires Built(mem, m, a, pds) && InSlice(m, v) && m.top < m.base + m.stackSize && m.stackSize < WORD / 2
    ensures Translate(mem, a.pml4, v) ==
            if m.codeSize <= WORD - KB4 && PageStart(v) < m.base + m.codeSize
            then Page(m.code + (v - m.base), true, true)
            else Fault
  {
    hide Built, Translate, Pages, IsCode;
    BuiltLayout(mem, m, a, pds);
    SliceTranslates(mem, m, a, pds, 0, v);
    CodePages(m, v);
    var e := (m.top - m.stackSize) - m.base;
    assert e % WORD == e + WORD;
    assert StackPage(m) > 512 * 512;
  }

  /** The last page of the stack starts inside the page its size is rounded up to. */
  predicate StackFits(m: Layout)
    requires m.stackSize <= m.top
  {
    var o, r := (m.top - m.stackSize) % KB4, m.stackSize % KB4;
    m.stackSize == 0 || (if r == 0 then o == 0 else o + r <= KB4)
  }

  predicate OnStack(m: Layout, v: nat) { m.base <= v && IsStack(m, (v - m.base) / KB4) }

  /** With any top: every byte of the stack is mapped if and only if it touches no more pages than its size rounded
      up, which an aligned top ensures. */
  lemma StackWhole(m: Layout)
    requires LayoutOk(m) && m.base + m.stackSize <= m.top && m.stackSize <= WORD - KB4
    ensures (forall v: nat :: m.top - m.stackSize <= v < m.top ==> OnStack(m, v)) <==> StackFits(m)
    ensures m.top % KB4 == 0 ==> StackFits(m)
  {
    hide IsStack, StackPage, PageStart, LayoutOk;
    AlignedFits(m);
    var lo := m.top - m.stackSize;
    if m.stackSize > 0 {
      StackPages(m, m.top - 1);
      LastPage(lo, m.stackSize);
      Below(lo);
      assert OnStack(m, m.top - 1) <==> StackFits(m);
    }
    forall v: nat | lo <= v < m.top && StackFits(m)
      ensures OnStack(m, v)
    {
      StackPages(m, v);
      PageOrder(v, m.top - 1);
      PageOrder(lo, v);
      Below(lo);
    }
  }

  /** A stack of 0x1002 bytes up to 0x2001 touches three pages; two are mapped, and its last byte is not. */
  lemma StackCut(code: nat, stack: nat)
    requires code % KB4 == 0 && stack % KB4 == 0
    ensures var m := Layout(0, 0x2001, code, 0, stack, 0x1002, 1);
            LayoutOk(m) && !StackFits(m) && !OnStack(m, 0x2000) && OnStack(m, 0x1fff) && OnStack(m, 0xfff)
  {
  }

  lemma AlignedFits(m: Layout)
    requires m.stackSize <= m.top
    ensures m.top % KB4 == 0 ==> StackFits(m)
  {
  }

  lemma Below(v: nat)
    ensures PageStart(v) <= v
  {
  }

  lemma LastPage(lo: nat, size: nat)
    requires size > 0
    ensures PageStart(lo + size - 1) - PageStart(lo) < size <==>
            if size % KB4 == 0 then lo % KB4 == 0 else lo % KB4 + size % KB4 <= KB4
  {
    var r, o := size % KB4, lo % KB4;
    var x := o + size - 1;
    Rest(lo - o, x);
    Rest(size - r, o + r - 1);
  }

  /** Whole pages do not change the offset in a page. */
  lemma Rest(pages: int, x: int)
    requires pages % KB4 == 0
    ensures (pages + x) % KB4 == x % KB4
    ensures -KB4 <= x < 0 ==> x % KB4 == x + KB4
    ensures 0 <= x < KB4 ==> x % KB4 == x
    ensures KB4 <= x < 2 * KB4 ==> x % KB4 == x - KB4
  {
  }

  lemma PageOrder(v: nat, w: nat)
    requires v <= w
    ensures PageStart(v) <= PageStart(w)
  {
  }

  /** The frames a process may use. */
  predicate OwnFrame(m: Layout, phys: nat) {
    || m.code <= phys < m.code + Pages(m.codeSize) * KB4
    || m.stack <= phys < m.stack + Pages(m.stackSize) * KB4
  }

  /** Whatever user mode can reach lies in the process's own code or stack frames. */
  lemma UserReach(mem: Memory, m: Layout, a: Addresses, pds: seq<nat>, boot: nat, v: nat)
    requires Built(mem, m, a, pds) && BootOk(mem, boot, pds) && v < 256 * GB512
    ensures var r := Translate(mem, a.pml4, v); r.Page? && r.user ==> OwnFrame(m, r.phys)
  {
    hide Built, BootOk, Translate, StackPage, Pages;
    ProcessSpace(mem, m, a, pds, boot, v);
    var d := v - m.base;
    var p := d / KB4;
    assert InSlice(m, v) ==> d == p * KB4 + d % KB4;
  }

  /** Two processes over disjoint frames never share a physical byte in user mode, although they use the
      same virtual addresses. */
  lemma ProcessesIsolated(mem: Memory, m: Layout, a: Addresses, n: Layout, b: Addresses, pds: seq<nat>, boot: nat,
      v: nat, w: nat)
    requires Built(mem, m, a, pds) && Built(mem, n, b, pds) && BootOk(mem, boot, pds)
    requires v < 256 * GB512 && w < 256 * GB512
    requires forall x: nat :: !(OwnFrame(m, x) && OwnFrame(n, x))
    ensures var r := Translate(mem, a.pml4, v); var s := Translate(mem, b.pml4, w);
            r.Page? && r.user && s.Page? && s.user ==> r.phys != s.phys
  {
    hide Built, BootOk, Translate, OwnFrame;
    UserReach(mem, m, a, pds, boot, v);
    UserReach(mem, n, b, pds, boot, w);
  }

  /** The arrays the two methods filled, placed in memory, are built tables. */
  lemma BuiltFromArrays(mem: Memory, m: Layout, a: Addresses, pds: seq<nat>,
                        pml4: seq<Entry>, pdp: seq<Entry>, pd0: seq<Entry>, tables: seq<Entry>)
    requires LayoutOk(m) && |pds| == 4 && |pml4| == |pdp| == |pd0| == 512 && |tables| == m.count * 512
    requires a.pml4 in mem && mem[a.pml4] == pml4 && a.pdp in mem && mem[a.pdp] == pdp && a.pd0 in mem
             && mem[a.pd0] == pd0
    requires pds[0] in mem && |mem[pds[0]]| == 512
    requires forall t :: 0 <= t < m.count ==> TableIn(mem, a.user + t * KB4, tables, t)
    requires forall i :: 0 <= i < 512 ==> pml4[i] == Pml4Entry(a, i)
    requires forall i :: 0 <= i < 512 ==> pdp[i] == PdpEntry(a, pds, i)
    requires forall i :: 0 <= i < 512 ==> pd0[i] == Pd0Entry(m, a, mem[pds[0]], i)
    requires forall p :: 0 <= p < |tables| ==> tables[p] == UserEntry(m, p)
    ensures Built(mem, m, a, pds)
  {
    hide UserEntry, Pd0Entry, PdpEntry, Pml4Entry;
    forall t, i | 0 <= t < m.count && 0 <= i < 512
      ensures UserTable(mem, a, t, i) == UserEntry(m, t * 512 + i)
    {
      assert TableIn(mem, a.user + t * KB4, tables, t);
      assert t * 512 + i < |tables|;
    }
  }

  /** The `t`-th table of an array of entries lies at an address. */
  predicate TableIn(mem: Memory, addr: nat, tables: seq<Entry>, t: nat) {
    (t + 1) * 512 <= |tables| && addr in mem && mem[addr] == tables[t * 512..(t + 1) * 512]
  }

  // ---- the framebuffer ----

  const FB_TABLES := 4
  const SLOTS := 512 * 512   // page directory slots a walk can tell apart below one top-level entry

  /** A table of 512 consecutive frames. */
  function Frames(base: nat, flags: nat): (t: seq<Entry>)
    ensures |t| == 512
  {
    seq(512, i requires 0 <= i < 512 => Entry(base + i * KB4, flags))
  }

  function RegionBase(fb: nat): nat { fb / MB2 * MB2 }

  /** How many 2 MB regions are remapped. */
  function Regions(fb: nat, size: nat): (n: nat)
    ensures n <= FB_TABLES
    ensures forall i: nat :: i < n <==> i < FB_TABLES && RegionBase(fb) + i * MB2 < fb + size
  {
    var n := (fb + size - RegionBase(fb) + MB2 - 1) / MB2;
    if n < FB_TABLES then n else FB_TABLES
  }

  /** Which region claims slot `j` of page directory `k`. */
  function Claim(fb: nat, k: nat, j: nat): nat { (k * 512 + j - fb / MB2) % SLOTS }

  /** The boot page directories and the framebuffer page tables with their addresses. */
  class BootTables {
    var pds: seq<seq<Entry>>
    var fbTables: seq<seq<Entry>>
    const fbAddr: seq<nat>

    ghost predicate Valid()
      reads this
    {
      && |pds| == 4 && |fbTables| == FB_TABLES && |fbAddr| == FB_TABLES
      && (forall k :: 0 <= k < 4 ==> |pds[k]| == 512)
    }

    constructor (p: seq<seq<Entry>>, f: seq<seq<Entry>>, a: seq<nat>)
      requires |p| == 4 && |f| == FB_TABLES && |a| == FB_TABLES && forall k :: 0 <= k < 4 ==> |p[k]| == 512
      ensures Valid() && pds == p && fbTables == f && fbAddr == a
    {
      pds, fbTables, fbAddr := p, f, a;
    }

    /** `fill_4k_page_table`. */
    method FillTable(n: nat, base: nat, flags: nat)
      requires Valid() && n < FB_TABLES
      modifies this`fbTables
      ensures Valid() && fbTables == old(fbTables)[n := Frames(base, flags)]
    {
      var t: seq<Entry> := [];
      var i := 0;
      while i < 512
        invariant i <= 512 && |t| == i && forall k :: 0 <= k < i ==> t[k] == Entry(base + k * KB4, flags)
      {
        t := t + [Entry(base + i * KB4, flags)];
        i := i + 1;
      }
      assert t == Frames(base, flags);
      fbTables := fbTables[n := t];
    }

    /** `install_page_table`: nothing happens for a directory index above 3. */
    method InstallTable(region: nat, table: nat)
      requires Valid()
      modifies this`pds
      ensures Valid()
      ensures forall k, j :: 0 <= k < 4 && 0 <= j < 512 ==>
                pds[k][j] == if k == I3(region) && j == I2(region) then Entry(table, KERNEL_RW) else old(pds)[k][j]
    {
      var k := region / GB % 512;
      var j := region / MB2 % 512;
      if k >= 4 {
        return;
      }
      pds := pds[k := pds[k][j := Entry(table, KERNEL_RW)]];
    }

    /** `paging_remap_framebuffer`. */
    method RemapFramebuffer(fb: nat, size: nat)
      requires Valid() && fb + size < WORD
      modifies this`pds, this`fbTables
      ensures Valid()
      ensures forall i :: 0 <= i < Regions(fb, size) ==> fbTables[i] == Frames(RegionBase(fb) + i * MB2, FB_FLAGS)
      ensures forall k, j :: 0 <= k < 4 && 0 <= j < 512 ==>
                pds[k][j] == if Claim(fb, k, j) < Regions(fb, size) then Entry(fbAddr[Claim(fb, k, j)], KERNEL_RW)
                             else old(pds)[k][j]
    {
      hide Regions, Claim, RegionBase, Frames;
      var next := RegionBase(fb);
      var i := 0;
      while i < FB_TABLES && next < fb + size
        invariant Valid() && i <= Regions(fb, size) && next == RegionBase(fb) + i * MB2
        invariant forall n :: 0 <= n < i ==> fbTables[n] == Frames(RegionBase(fb) + n * MB2, FB_FLAGS)
        invariant forall k, j :: 0 <= k < 4 && 0 <= j < 512 ==>
                    pds[k][j] == if Claim(fb, k, j) < i then Entry(fbAddr[Claim(fb, k, j)], KERNEL_RW)
                        else old(pds)[k][j]
      {
        FillTable(i, next, FB_FLAGS);
        InstallTable(next, fbAddr[i]);
        forall k, j | 0 <= k < 4 && 0 <= j < 512
          ensures (k == I3(next) && j == I2(next)) <==> Claim(fb, k, j) == i
        {
          ClaimIs(fb, i, k, j);
        }
        i := i + 1;
        next := next + MB2;
      }
    }
  }

  /** Slot `j` of directory `k` is the one region `i` installs into exactly when it claims it. */
  lemma ClaimIs(fb: nat, i: nat, k: nat, j: nat)
    requires i < FB_TABLES && k < 4 && j < 512
    ensures var r := RegionBase(fb) + i * MB2; (k == I3(r) && j == I2(r)) <==> Claim(fb, k, j) == i
  {
    var q := fb / MB2;
    var r := RegionBase(fb) + i * MB2;
    assert r / MB2 == q + i;
    assert r / GB == (q + i) / 512;
    ModPair(q + i, k, j);
    ModShift(k * 512 + j, q, i);
  }

  lemma ModPair(x: nat, k: nat, j: nat)
    requires k < 512 && j < 512
    ensures (x / 512 % 512 == k && x % 512 == j) <==> x % SLOTS == k * 512 + j
  {
    assert x % SLOTS == x / 512 % 512 * 512 + x % 512;
  }

  lemma ModShift(s: nat, q: nat, i: nat)
    requires s < SLOTS && i < SLOTS
    ensures (s - q) % SLOTS == i <==> (q + i) % SLOTS == s
  {
    var c := q / SLOTS;
    var d := q % SLOTS;
    ModSum(s - d, -c);
    ModSum(d + i, c);
    assert s - q == s - d + -c * SLOTS && q + i == d + i + c * SLOTS;
    SmallShift(s, d, i);
  }

  lemma SmallShift(s: nat, d: nat, i: nat)
    requires s < SLOTS && d < SLOTS && i < SLOTS
    ensures (s - d) % SLOTS == i <==> (d + i) % SLOTS == s
  {
    assert (s - d) % SLOTS == if s >= d then s - d else s - d + SLOTS;
    assert (d + i) % SLOTS == if d + i < SLOTS then d + i else d + i - SLOTS;
  }

  lemma ModSum(x: int, c: int)
    ensures (x + c * SLOTS) % SLOTS == x % SLOTS
  {
  }

  /** Memory with the remapped boot tables: identity 2 MB kernel pages except for the claimed slots. */
  predicate Remapped(mem: Memory, boot: nat, pds: seq<nat>, fbAddr: seq<nat>, fb: nat, size: nat) {
    && |pds| == 4 && |fbAddr| == FB_TABLES
    && var e4 := Get(mem, boot, 0);
    && Present(e4) && Writable(e4)
    && (forall k :: 0 <= k < 4 ==> var e3 := Get(mem, e4.addr, k);
                                   e3.addr == pds[k] && Present(e3) && Writable(e3) && !Large(e3))
    && (forall k, j :: 0 <= k < 4 && 0 <= j < 512 ==>
          Get(mem, pds[k], j) == if Claim(fb, k, j) < Regions(fb, size) then Entry(fbAddr[Claim(fb, k, j)], KERNEL_RW)
                                 else Entry(k * GB + j * MB2, 0x83))
    && (forall i, x :: 0 <= i < Regions(fb, size) && 0 <= x < 512 ==>
          Get(mem, fbAddr[i], x) == Entry(RegionBase(fb) + i * MB2 + x * KB4, FB_FLAGS))
  }

  /** Where the boot tables send an address after the remap. */
  lemma RemapTranslates(mem: Memory, boot: nat, pds: seq<nat>, fbAddr: seq<nat>, fb: nat, size: nat, v: nat)
    requires Remapped(mem, boot, pds, fbAddr, fb, size) && v < 4 * GB
    ensures var c := Claim(fb, I3(v), I2(v));
            Translate(mem, boot, v) ==
            Page(if c < Regions(fb, size) then RegionBase(fb) + c * MB2 + v % MB2 else v, false, true)
  {
    hide Claim, Regions, RegionBase, I4, I3, I2, I1;
    LowIndices(v);
    IndexBounds(v);
    Parts(v);
    var k, j := I3(v), I2(v);
    var c := Claim(fb, k, j);
    var e := Get(mem, pds[k], j);
    assert Get(mem, Get(mem, boot, 0).addr, k).addr == pds[k];
    if c < Regions(fb, size) {
      assert e == Entry(fbAddr[c], KERNEL_RW);
      assert Get(mem, fbAddr[c], I1(v)) == Entry(RegionBase(fb) + c * MB2 + I1(v) * KB4, FB_FLAGS);
    } else {
      assert e == Entry(k * GB + j * MB2, 0x83);
    }
  }

  lemma Parts(v: nat)
    requires v < 4 * GB
    ensures v == I3(v) * GB + I2(v) * MB2 + v % MB2 && v % MB2 == I1(v) * KB4 + v % KB4
  {
    assert v / MB2 == v / GB * 512 + v / MB2 % 512;
    TableSlot(v);
  }

  /** A region below 4 GB is the one its own indices name. */
  lemma RegionHere(r: nat)
    requires r % MB2 == 0
    ensures r < 4 * GB <==> r == I3(r) * GB + I2(r) * MB2 && I3(r) < 4
  {
    if r < 4 * GB {
      Parts(r);
      LowIndices(r);
    } else {
      IndexBounds(r);
    }
  }

  /** A region that would land on a low directory slot although it lies elsewhere. */
  predicate Aliases(fb: nat, i: nat) { var r := RegionBase(fb) + i * MB2; r >= 4 * GB && I3(r) < 4 }

  /** The remap keeps the kernel's identity mapping of the first 4 GB exactly when no remapped region
      aliases a low slot; a framebuffer below 512 GB never does. */
  lemma RemapIdentity(mem: Memory, boot: nat, pds: seq<nat>, fbAddr: seq<nat>, fb: nat, size: nat)
    requires Remapped(mem, boot, pds, fbAddr, fb, size)
    ensures (forall v: nat :: v < 4 * GB ==> Translate(mem, boot, v) == Page(v, false, true))
            <==> (forall i: nat :: i < Regions(fb, size) ==> !Aliases(fb, i))
    ensures RegionBase(fb) + FB_TABLES * MB2 <= GB512 ==> forall i: nat :: i < Regions(fb, size) ==> !Aliases(fb, i)
  {
    hide Remapped, Translate, Claim, Regions, RegionBase, Aliases, I3, I2;
    forall v: nat | v < 4 * GB && forall i: nat :: i < Regions(fb, size) ==> !Aliases(fb, i)
      ensures Translate(mem, boot, v) == Page(v, false, true)
    {
      RemapTranslates(mem, boot, pds, fbAddr, fb, size, v);
      RemapHere(fb, size, v);
    }
    forall i: nat | i < Regions(fb, size) && Aliases(fb, i)
      ensures exists v: nat :: v < 4 * GB && Translate(mem, boot, v) != Page(v, false, true)
    {
      var v := AliasVictim(fb, i);
      RemapTranslates(mem, boot, pds, fbAddr, fb, size, v);
    }
    forall i: nat | i < Regions(fb, size) && RegionBase(fb) + FB_TABLES * MB2 <= GB512
      ensures !Aliases(fb, i)
    {
      LowRegion(fb, i);
    }
  }

  /** A framebuffer at 512 GB takes the kernel's own low addresses away. */
  lemma RemapAt512(mem: Memory, boot: nat, pds: seq<nat>, fbAddr: seq<nat>, size: nat)
    requires Remapped(mem, boot, pds, fbAddr, GB512, size) && size > 0
    ensures exists v: nat :: v < 4 * GB && Translate(mem, boot, v) != Page(v, false, true)
  {
    hide Remapped, Translate;
    RemapIdentity(mem, boot, pds, fbAddr, GB512, size);
    assert Aliases(GB512, 0) && 0 < Regions(GB512, size);
  }

  lemma RemapHere(fb: nat, size: nat, v: nat)
    requires v < 4 * GB
    ensures var c := Claim(fb, I3(v), I2(v));
            c < Regions(fb, size) && !Aliases(fb, c) ==> RegionBase(fb) + c * MB2 + v % MB2 == v
  {
    hide Claim, Regions, I3, I2;
    LowIndices(v);
    IndexBounds(v);
    Parts(v);
    var c := Claim(fb, I3(v), I2(v));
    if c < Regions(fb, size) {
      ClaimIs(fb, c, I3(v), I2(v));
      RegionHere(RegionBase(fb) + c * MB2);
    }
  }

  /** The low address an aliasing region takes over. */
  lemma AliasVictim(fb: nat, i: nat) returns (v: nat)
    requires i < FB_TABLES && Aliases(fb, i)
    ensures v < 4 * GB && Claim(fb, I3(v), I2(v)) == i && RegionBase(fb) + i * MB2 + v % MB2 != v
  {
    hide Claim;
    var r := RegionBase(fb) + i * MB2;
    IndexBounds(r);
    v := I3(r) * GB + I2(r) * MB2;
    BackIndices(I3(r), I2(r));
    ClaimIs(fb, i, I3(r), I2(r));
  }

  lemma BackIndices(k: nat, j: nat)
    requires k < 4 && j < 512
    ensures var v := k * GB + j * MB2; v < 4 * GB && I3(v) == k && I2(v) == j && v % MB2 == 0
  {
    var v := k * GB + j * MB2;
    assert v / MB2 == k * 512 + j;
  }

  lemma LowRegion(fb: nat, i: nat)
    requires i < FB_TABLES && RegionBase(fb) + FB_TABLES * MB2 <= GB512
    ensures !Aliases(fb, i)
  {
  }

  /** The table entry that maps `v`, with its flags. */
  function Leaf(mem: Memory, cr3: nat, v: nat): Entry {
    var e4 := Get(mem, cr3, I4(v));
    var e3 := Get(mem, e4.addr, I3(v));
    var e2 := Get(mem, e3.addr, I2(v));
    if Large(e2) then e2 else Get(mem, e2.addr, I1(v))
  }

  /** For a framebuffer below 4 GB: each of its bytes in the first four regions of 2 MB it touches is mapped to itself
      by a page with the framebuffer flags, and an address outside these regions by the large page it had. */
  lemma FramebufferPages(mem: Memory, boot: nat, pds: seq<nat>, fbAddr: seq<nat>, fb: nat, size: nat, v: nat)
    requires Remapped(mem, boot, pds, fbAddr, fb, size) && fb + size <= 4 * GB && v < 4 * GB
    ensures fb <= v < fb + size && v < fb - fb % MB2 + FB_TABLES * MB2 ==>
              Leaf(mem, boot, v).addr == v - v % KB4 && Leaf(mem, boot, v).flags == 0x9b
    ensures v < fb - fb % MB2 || v - v % MB2 >= fb + size || v >= fb - fb % MB2 + FB_TABLES * MB2 ==>
              Leaf(mem, boot, v).addr == v - v % MB2 && Leaf(mem, boot, v).flags == 0x83
  {
    hide Claim, I4, I3, I2, I1;
    LowIndices(v);
    IndexBounds(v);
    Parts(v);
    var k, j := I3(v), I2(v);
    assert Get(mem, Get(mem, boot, 0).addr, k).addr == pds[k];
    var r := v - v % MB2;
    RegionOf(fb, v);
    var c := Claim(fb, k, j);
    if c < Regions(fb, size) {
      RegionHere(RegionBase(fb) + c * MB2);
      ClaimIs(fb, c, k, j);
      assert RegionBase(fb) + c * MB2 == r;
      assert Get(mem, fbAddr[c], I1(v)) == Entry(r + I1(v) * KB4, FB_FLAGS);
    } else if RegionBase(fb) <= r < RegionBase(fb) + FB_TABLES * MB2 && r < fb + size {
      var i := (r - RegionBase(fb)) / MB2;
      SameIndices(v);
      ClaimIs(fb, i, k, j);
      assert false;
    }
  }

  lemma RegionOf(fb: nat, v: nat)
    ensures RegionBase(fb) == fb - fb % MB2
    ensures v >= RegionBase(fb) <==> v - v % MB2 >= RegionBase(fb)
    ensures v < RegionBase(fb) + FB_TABLES * MB2 <==> v - v % MB2 < RegionBase(fb) + FB_TABLES * MB2
    ensures (v - v % MB2 - RegionBase(fb)) % MB2 == 0
  {
  }

  lemma SameIndices(v: nat)
    ensures I3(v - v % MB2) == I3(v) && I2(v - v % MB2) == I2(v)
  {
  }

  /** The remap leaves the boot directories closed to user mode, so processes can be built on them. */
  lemma RemapKernelOnly(mem: Memory, boot: nat, pds: seq<nat>, fbAddr: seq<nat>, fb: nat, size: nat)
    requires Remapped(mem, boot, pds, fbAddr, fb, size)
    ensures BootOk(mem, boot, pds)
  {
    hide Claim, Regions, RegionBase;
    forall k, i | 0 <= k < 4 && 0 <= i < 512
      ensures !User(Get(mem, pds[k], i))
    {
      var c := Claim(fb, k, i);
      assert Get(mem, pds[k], i).flags == if c < Regions(fb, size) then KERNEL_RW else 0x83;
    }
  }
}
