/** The main program of the host tool: lay the file out, write its inode, link it, flush the maps. */
module Ext2HostPut {
  import opened Numbers
  import opened Bytes
  import opened Bitmaps
  import opened Ext2State
  import opened Ext2Ownership
  import opened Ext2Bmap
  import opened Ext2Disk
  import opened Ext2File
  import opened Ext2DirBlock
  import opened Ext2Dir
  import opened Ext2Tree
  import opened Ext2Names
  import opened Ext2Persist
  import opened Ext2Padding
  import opened Ext2Room
  import opened Ext2HostFile
  import opened Ext2HostInstall
  import opened Ext2HostOk
  import opened Ext2HostFail
  import opened Ext2HostCut
  import opened Ext2HostBytes
  import opened Ext2HostDir
  import opened Ext2Host

  const REGULAR: u16 := 0x81ED   // 0100755

  // ---- the run of blocks ----

  /** `all` are the first blocks `Reserve` takes, leaving `cur`. */
  ghost predicate Taken(z: Fs, cur: Fs, all: seq<nat>)
    requires Shape(z)
  {
    (cur, all) == Reserve(z, |all|)
  }

  lemma {:induction false} ReserveSnoc(z: Fs, k: nat)
    requires Shape(z) && |Reserve(z, k).1| == k && NextBlock(Reserve(z, k).0) != 0
    ensures var (cur, all) := Reserve(z, k); var nb := NextBlock(cur);
            Reserve(z, k + 1) == (MarkBlock(cur, nb), all + [nb])
    decreases k
  {
    hide NextBlock, MarkBlock;
    if k > 0 {
      var nb := NextBlock(z);
      TakenFirst(z, k);
      var z1 := MarkBlock(z, nb);
      ReserveSnoc(z1, k - 1);
      ReserveStep(z, k);
      var (cur, rest) := Reserve(z1, k - 1);
      assert [nb] + (rest + [NextBlock(cur)]) == [nb] + rest + [NextBlock(cur)];
    } else {
      ReserveOne(z);
      assert [] + [NextBlock(z)] == [NextBlock(z)];
    }
  }

  lemma ReserveStep(z: Fs, k: nat)
    requires Shape(z) && NextBlock(z) != 0
    ensures var z1 := MarkBlock(z, NextBlock(z));
            Shape(z1) && Reserve(z, k + 1) == (Reserve(z1, k).0, [NextBlock(z)] + Reserve(z1, k).1)
  {
    hide NextBlock;
  }

  lemma TakenFirst(z: Fs, k: nat)
    requires Shape(z) && k > 0 && |Reserve(z, k).1| == k
    ensures NextBlock(z) != 0 && Shape(MarkBlock(z, NextBlock(z)))
    ensures Reserve(z, k).0 == Reserve(MarkBlock(z, NextBlock(z)), k - 1).0
    ensures Reserve(z, k).1 == [NextBlock(z)] + Reserve(MarkBlock(z, NextBlock(z)), k - 1).1
  {
    hide NextBlock;
  }

  lemma ReserveOne(z: Fs)
    requires Shape(z) && NextBlock(z) != 0
    ensures Reserve(z, 0) == (z, []) && Reserve(z, 1) == (MarkBlock(z, NextBlock(z)), [NextBlock(z)])
  {
    hide NextBlock;
    var nb := NextBlock(z);
    assert Reserve(MarkBlock(z, nb), 0) == (MarkBlock(z, nb), []);
    assert [nb] + [] == [nb];
  }

  lemma TakeNext(z: Fs, cur: Fs, all: seq<nat>, nb: nat)
    requires Shape(z) && Taken(z, cur, all) && Shape(cur) && nb == NextBlock(cur) != 0
    ensures Taken(z, MarkBlock(cur, nb), all + [nb])
  {
    hide NextBlock, MarkBlock, Reserve;
    ReserveSnoc(z, |all|);
  }

  /** Blocks taken so far are distinct blocks of the data area. */
  lemma TakenFresh(z: Fs, cur: Fs, all: seq<nat>)
    requires Shape(z) && CountsOk(z) && Taken(z, cur, all)
    ensures forall i :: 0 <= i < |all| ==> z.sup.firstData <= all[i] < z.sup.blocksCount <= |z.disk|
    ensures forall i, j :: 0 <= i < j < |all| ==> all[i] != all[j]
    ensures Shape(cur) && cur.sup.firstData == z.sup.firstData && cur.sup.blocksCount == z.sup.blocksCount
    ensures cur.sup.inodesCount == z.sup.inodesCount
  {
    hide CountsOk, Reserve;
    ReserveOk(z, |all|);
  }

  lemma TakenFree(z: Fs, cur: Fs, all: seq<nat>)
    requires Shape(z) && Taken(z, cur, all)
    ensures Shape(cur) && |all| <= FreeData(z) && (NextBlock(cur) == 0 ==> |all| == FreeData(z))
  {
    hide NextBlock, Reserve, FreeData;
    ReserveFree(z, |all|);
    NextBlockExact(cur);
  }

  lemma TakenWasFree(z: Fs, cur: Fs, all: seq<nat>)
    requires Shape(z) && CountsOk(z) && Taken(z, cur, all)
    ensures forall i :: 0 <= i < |all| ==> IsFree(z, all[i])
  {
    hide CountsOk, Reserve;
    ReserveOk(z, |all|);
  }

  /** Writing to taken blocks only. */
  lemma ScribbledHere(z: Fs, cur: Fs, all: seq<nat>, a: seq<Block>, b: seq<Block>)
    requires Shape(z) && CountsOk(z) && Taken(z, cur, all)
    requires |b| == |a| && forall x :: 0 <= x < |a| && x !in all ==> b[x] == a[x]
    ensures Scribbled(z, a, b)
  {
    hide CountsOk, Taken, IsFree;
    TakenWasFree(z, cur, all);
  }

  /** One more block; 0 when all free blocks are taken. */
  method TakeBlock(img: Image, ghost z: Fs, ghost cur: Fs, ghost all: seq<nat>) returns (nb: nat, ghost cur': Fs)
    requires Shape(z) && CountsOk(z) && Taken(z, cur, all) && Shape(cur) && img.Geometry(cur)
             && img.blockBits == cur.blockBits
    modifies img`blockBits
    ensures nb != 0 ==> && Taken(z, cur', all + [nb]) && Shape(cur') && img.Geometry(cur')
                        && img.blockBits == cur'.blockBits
                        && nb !in all && z.sup.firstData <= nb < z.sup.blocksCount <= |z.disk|
    ensures nb == 0 ==> FreeData(z) == |all|
  {
    hide CountsOk, NextBlock, MarkBlock, Reserve, Taken, FreeData;
    TakenFree(z, cur, all);
    nb := img.AllocBlock(cur);
    cur' := cur;
    if nb != 0 {
      TakeNext(z, cur, all, nb);
      cur' := MarkBlock(cur, nb);
      TakenFresh(z, cur', all + [nb]);
      LastDiffers(all, nb);
    }
  }

  lemma LastDiffers(all: seq<nat>, nb: nat)
    requires forall i, j :: 0 <= i < j < |all + [nb]| ==> (all + [nb])[i] != (all + [nb])[j]
    requires forall i :: 0 <= i < |all + [nb]| ==> (all + [nb])[i] >= 0
    ensures nb !in all && (all + [nb])[|all|] == nb
  {
    forall i | 0 <= i < |all|
      ensures all[i] != nb
    {
      assert (all + [nb])[i] != (all + [nb])[|all|];
    }
  }

  /** The blocks for the data. */
  method TakeData(img: Image, n: nat, ghost z: Fs) returns (ok: bool, blocks: seq<nat>, ghost cur: Fs)
    requires Shape(z) && CountsOk(z) && img.Geometry(z) && img.blockBits == z.blockBits
    modifies img`blockBits
    ensures ok <==> n <= FreeData(z)
    ensures ok ==> && |blocks| == n && Taken(z, cur, blocks) && Shape(cur) && img.Geometry(cur)
                   && img.blockBits == cur.blockBits
  {
    hide CountsOk, Reserve, Taken, FreeData;
    blocks, cur := [], z;
    TakenNone(z);
    var i := 0;
    while i < n
      invariant 0 <= i <= n && |blocks| == i && Taken(z, cur, blocks)
      invariant Shape(cur) && img.Geometry(cur) && img.blockBits == cur.blockBits
    {
      var nb;
      nb, cur := TakeBlock(img, z, cur, blocks);
      if nb == 0 {
        return false, [], cur;
      }
      blocks := blocks + [nb];
      i := i + 1;
    }
    TakenFree(z, cur, blocks);
    ok := true;
  }

  lemma TakenNone(z: Fs)
    requires Shape(z)
    ensures Taken(z, z, [])
  {
  }

  // ---- contents ----

  ghost predicate DataOn(disk: seq<Block>, blocks: seq<nat>, data: seq<byte>) {
    forall i :: 0 <= i < |blocks| ==> blocks[i] < |disk| && i * BS < |data| && disk[blocks[i]] == Chunk(data, i)
  }

  /** Write the data blocks. */
  method WriteData(img: Image, blocks: seq<nat>, data: seq<byte>)
    requires |blocks| == DataBlocks(|data|) && (forall i :: 0 <= i < |blocks| ==> blocks[i] < |img.disk|)
    requires forall i, j :: 0 <= i < j < |blocks| ==> blocks[i] != blocks[j]
    modifies img`disk
    ensures |img.disk| == |old(img.disk)| && DataOn(img.disk, blocks, data)
    ensures forall x :: 0 <= x < |img.disk| && x !in blocks ==> img.disk[x] == old(img.disk)[x]
  {
    hide Chunk;
    var i := 0;
    while i < |blocks|
      invariant 0 <= i <= |blocks| && |img.disk| == |old(img.disk)|
      invariant forall k :: 0 <= k < i ==> k * BS < |data| && img.disk[blocks[k]] == Chunk(data, k)
      invariant forall x :: 0 <= x < |img.disk| && x !in blocks ==> img.disk[x] == old(img.disk)[x]
    {
      BlockCount(|data|, i);
      ghost var before := img.disk;
      img.disk := img.disk[blocks[i] := Chunk(data, i)];
      assert forall k :: 0 <= k < i ==> img.disk[blocks[k]] == before[blocks[k]];
      i := i + 1;
    }
  }

  /** Pack pointers into a table block. */
  method BuildTable(entries: seq<nat>) returns (t: Block)
    requires |entries| <= PTRS && forall i :: 0 <= i < |entries| ==> entries[i] < 0x1_0000_0000
    ensures TableIs(t, entries)
  {
    t := Zeros(BS);
    ZeroWords();
    var k := 0;
    while k < |entries|
      invariant 0 <= k <= |entries|
      invariant forall i :: 0 <= i < PTRS ==> Le32(t, 4 * i) == if i < k then entries[i] else 0
    {
      ghost var before := t;
      t := Put32(t, 4 * k, entries[k]);
      forall i | 0 <= i < PTRS && i != k
        ensures Le32(t, 4 * i) == Le32(before, 4 * i)
      {
      }
      k := k + 1;
    }
  }

  lemma ZeroWords()
    ensures forall i :: 0 <= i < PTRS ==> Le32(Zeros(BS), 4 * i) == 0
  {
  }

  /** Take a block and make it a table of `entries`. */
  method TakeTable(img: Image, entries: seq<nat>, ghost z: Fs, ghost cur: Fs, ghost all: seq<nat>)
    returns (t: nat, ghost cur': Fs)
    requires Shape(z) && CountsOk(z) && Taken(z, cur, all) && Shape(cur) && img.Geometry(cur)
             && img.blockBits == cur.blockBits
    requires |img.disk| == |z.disk| && |entries| <= PTRS
             && forall i :: 0 <= i < |entries| ==> entries[i] < 0x1_0000_0000
    modifies img`blockBits, img`disk
    ensures |img.disk| == |old(img.disk)|
    ensures t != 0 ==> && Taken(z, cur', all + [t]) && Shape(cur') && img.Geometry(cur')
                       && img.blockBits == cur'.blockBits
                       && t !in all && z.sup.firstData <= t < z.sup.blocksCount <= |img.disk|
                       && TableIs(img.disk[t], entries)
                       && img.disk == old(img.disk)[t := img.disk[t]]
    ensures t == 0 ==> FreeData(z) == |all| && img.disk == old(img.disk)
    ensures Scribbled(z, old(img.disk), img.disk)
  {
    hide CountsOk, Taken, TableIs, FreeData, IsFree;
    t, cur' := TakeBlock(img, z, cur, all);
    if t != 0 {
      var table := BuildTable(entries);
      img.disk := img.disk[t := table];
      ScribbledHere(z, cur', all + [t], old(img.disk), img.disk);
    }
  }

  // ---- the whole layout ----

  /** The L2 tables written so far. */
  ghost predicate GroupsOn(disk: seq<Block>, blocks: seq<nat>, l2s: seq<nat>) {
    && |l2s| <= Groups(|blocks|)
    && (forall g :: 0 <= g < |l2s| ==> l2s[g] < |disk| && TableIs(disk[l2s[g]], Group(blocks, |blocks|, g)))
  }

  lemma DataOnFrame(d: seq<Block>, e: seq<Block>, blocks: seq<nat>, data: seq<byte>, t: nat)
    requires DataOn(d, blocks, data) && t !in blocks && t < |d| && |e| == |d| && e == d[t := e[t]]
    ensures DataOn(e, blocks, data)
  {
    hide Chunk;
  }

  lemma GroupsOnFrame(d: seq<Block>, e: seq<Block>, blocks: seq<nat>, l2s: seq<nat>, t: nat)
    requires GroupsOn(d, blocks, l2s) && t !in l2s && t < |d| && |e| == |d| && e == d[t := e[t]]
    ensures GroupsOn(e, blocks, l2s)
  {
    hide TableIs, Group;
  }

  lemma GroupsNone(disk: seq<Block>, blocks: seq<nat>)
    ensures GroupsOn(disk, blocks, [])
  {
  }

  lemma GroupsMore(disk: seq<Block>, blocks: seq<nat>, l2s: seq<nat>, t: nat)
    requires GroupsOn(disk, blocks, l2s) && |l2s| < Groups(|blocks|) && t < |disk|
    requires TableIs(disk[t], Group(blocks, |blocks|, |l2s|))
    ensures GroupsOn(disk, blocks, l2s + [t])
  {
    hide TableIs, Group, Groups;
  }

  /** All free blocks are taken, the last of them, `made`, for tables that are not enough. The first of these is to
      be the L1 table, which is not written yet. */
  ghost predicate OutOfTables(z: Fs, cur: Fs, all: seq<nat>, made: seq<nat>, blocks: seq<nat>, d: seq<Block>,
                              e: seq<Block>)
    requires Shape(z)
  {
    && FreeData(z) == |all + made| < |all| + 1 + Groups(|blocks|) && Taken(z, cur, all + made) && |e| == |d|
    && (made == [] || GroupsOn(e, blocks, made[1..]))
    && (forall x :: 0 <= x < |e| && (x !in made || x == made[0]) ==> e[x] == d[x])
  }

  lemma NoneMade(z: Fs, cur: Fs, all: seq<nat>, blocks: seq<nat>, d: seq<Block>)
    requires Shape(z) && Taken(z, cur, all) && FreeData(z) == |all|
    ensures OutOfTables(z, cur, all, [], blocks, d, d)
  {
    hide Taken, FreeData, Groups;
    assert all + [] == all;
  }

  lemma SomeMade(z: Fs, cur: Fs, all: seq<nat>, l1: nat, l2s: seq<nat>, blocks: seq<nat>, d: seq<Block>, e: seq<Block>)
    requires Shape(z) && Taken(z, cur, all + [l1] + l2s) && FreeData(z) == |all + [l1] + l2s| && |e| == |d|
    requires GroupsOn(e, blocks, l2s) && |l2s| < Groups(|blocks|) && l1 !in l2s
    requires forall x :: 0 <= x < |e| && x !in l2s ==> e[x] == d[x]
    ensures OutOfTables(z, cur, all, [l1] + l2s, blocks, d, e)
  {
    hide Taken, FreeData, Groups, GroupsOn;
    var made := [l1] + l2s;
    assert all + made == all + [l1] + l2s && made[1..] == l2s;
  }

  /** The double indirect part: the L1 block is taken first and written last. */
  method LayDouble(img: Image, blocks: seq<nat>, ghost z: Fs, ghost cur: Fs, ghost all: seq<nat>)
    returns (l1: nat, ghost cur': Fs, ghost l2s: seq<nat>, ghost made: seq<nat>)
    requires Shape(z) && CountsOk(z) && Taken(z, cur, all) && Shape(cur) && img.Geometry(cur)
             && img.blockBits == cur.blockBits
    requires |img.disk| == |z.disk| && FIRST_DOUBLE < |blocks| <= MAX_FILE_BLOCKS
    requires forall i :: 0 <= i < |blocks| ==> blocks[i] < 0x1_0000_0000
    modifies img`blockBits, img`disk
    ensures |img.disk| == |old(img.disk)|
    ensures l1 != 0 ==> && Taken(z, cur', all + [l1] + l2s) && Shape(cur') && img.Geometry(cur')
                        && img.blockBits == cur'.blockBits
                        && |l2s| == Groups(|blocks|) && l1 < |img.disk|
                        && TableIs(img.disk[l1], l2s) && GroupsOn(img.disk, blocks, l2s)
                        && (forall x :: 0 <= x < |img.disk| && (x in all || !(x in all + [l1] + l2s)) ==>
                            img.disk[x] == old(img.disk)[x])
    ensures l1 == 0 ==> OutOfTables(z, cur', all, made, blocks, old(img.disk), img.disk)
    ensures Scribbled(z, old(img.disk), img.disk)
  {
    hide CountsOk, Taken, TableIs, Group, Groups, FreeData, IsFree, OutOfTables, GroupsOn;
    made := [];
    var n := |blocks|;
    var groups := Groups(n);
    GroupsFit(n);
    l2s, cur' := [], cur;
    l1, cur' := TakeBlock(img, z, cur, all);
    if l1 == 0 {
      cur' := cur;
      NoneMade(z, cur, all, blocks, img.disk);
      return;
    }
    ghost var base := all + [l1];
    assert base + [] == base;
    GroupsNone(img.disk, blocks);
    var tables: seq<nat> := [];
    var g := 0;
    while g < groups
      invariant 0 <= g <= groups == Groups(n) && |tables| == g && l2s == tables
                && |img.disk| == |old(img.disk)| == |z.disk|
      invariant Taken(z, cur', base + l2s) && Shape(cur') && img.Geometry(cur') && img.blockBits == cur'.blockBits
      invariant GroupsOn(img.disk, blocks, l2s) && (forall i :: 0 <= i < g ==> tables[i] < 0x1_0000_0000)
      invariant forall x :: 0 <= x < |img.disk| && x !in l2s ==> img.disk[x] == old(img.disk)[x]
      invariant forall i :: 0 <= i < |l2s| ==> l2s[i] !in base
      invariant Scribbled(z, old(img.disk), img.disk)
    {
      ghost var before := img.disk;
      GroupStart(n, g);
      GroupSmall(blocks, g);
      var t;
      ghost var was := cur';
      t, cur' := TakeTable(img, Group(blocks, n, g), z, cur', base + l2s);
      ScribbledTwice(z, old(img.disk), before, img.disk);
      if t == 0 {
        NotListed(base, l2s, l1);
        SomeMade(z, was, all, l1, l2s, blocks, old(img.disk), img.disk);
        return 0, was, l2s, [l1] + l2s;
      }
      GroupsOnFrame(before, img.disk, blocks, l2s, t);
      GroupsMore(img.disk, blocks, l2s, t);
      assert base + l2s + [t] == base + (l2s + [t]);
      tables, l2s := tables + [t], l2s + [t];
      g := g + 1;
    }
    TakenFresh(z, cur', base + l2s);
    var table := BuildTable(tables);
    NotListed(base, l2s, l1);
    ghost var before := img.disk;
    img.disk := img.disk[l1 := table];
    GroupsOnFrame(before, img.disk, blocks, l2s, l1);
    assert forall x :: x in all ==> x != l1;
    ScribbledHere(z, cur', base + l2s, before, img.disk);
    ScribbledTwice(z, old(img.disk), before, img.disk);
  }

  lemma NotListed(base: seq<nat>, l2s: seq<nat>, l1: nat)
    requires l1 in base && forall i :: 0 <= i < |l2s| ==> l2s[i] !in base
    ensures l1 !in l2s
  {
  }

  lemma GroupSmall(blocks: seq<nat>, g: nat)
    requires g < Groups(|blocks|)
    ensures |Group(blocks, |blocks|, g)| <= PTRS
    ensures forall i :: 0 <= i < |Group(blocks, |blocks|, g)| ==> Group(blocks, |blocks|, g)[i] in blocks
  {
  }

  /** Data and tables in their places are the layout. */
  lemma Assemble(disk: seq<Block>, blocks: seq<nat>, single: seq<nat>, l1: seq<nat>, l2s: seq<nat>, data: seq<byte>)
    requires |blocks| == DataBlocks(|data|) <= MAX_FILE_BLOCKS && DataOn(disk, blocks, data)
    requires if |blocks| > NDIRECT then |single| == 1 && single[0] < |disk|
                                        && TableIs(disk[single[0]], blocks[NDIRECT..Min(|blocks|, FIRST_DOUBLE)])
             else single == []
    requires if |blocks| > FIRST_DOUBLE then |l1| == 1 && l1[0] < |disk| && |l2s| == Groups(|blocks|)
                                             && TableIs(disk[l1[0]], l2s) && GroupsOn(disk, blocks, l2s)
             else l1 == [] && l2s == []
    requires forall x :: x in blocks + single + l1 + l2s ==> 0 < x < |disk|
    ensures Laid(disk, blocks + single + l1 + l2s, data)
  {
    hide TableIs, Chunk, Group, GroupsOn, DataOn, DataBlocks;
    var n := |blocks|;
    var all := blocks + single + l1 + l2s;
    assert |all| == Total(n);
    AssembleData(disk, blocks, all, data);
    AssembleGroups(disk, blocks, all, l2s);
    assert forall i :: 0 <= i < |all| ==> all[i] in all;
    if n > NDIRECT {
      assert all[n] == single[0];
      assert all[NDIRECT..Min(n, FIRST_DOUBLE)] == blocks[NDIRECT..Min(n, FIRST_DOUBLE)];
    }
    if n > FIRST_DOUBLE {
      assert all[n + 1] == l1[0] && all[n + 2..] == l2s;
    }
  }

  lemma AssembleData(disk: seq<Block>, blocks: seq<nat>, all: seq<nat>, data: seq<byte>)
    requires DataOn(disk, blocks, data) && blocks <= all
    ensures forall i :: 0 <= i < |blocks| ==> i * BS < |data| && all[i] < |disk| && disk[all[i]] == Chunk(data, i)
  {
    hide Chunk;
  }

  lemma AssembleGroups(disk: seq<Block>, blocks: seq<nat>, all: seq<nat>, l2s: seq<nat>)
    requires blocks <= all
    requires Groups(|blocks|) > 0 ==>
               && GroupsOn(disk, blocks, l2s) && |l2s| == Groups(|blocks|) && |all| == |blocks| + 2 + |l2s|
               && all[|blocks| + 2..] == l2s
    ensures forall g :: 0 <= g < Groups(|blocks|) ==>
              && |blocks| + 2 + g < |all| && all[|blocks| + 2 + g] < |disk|
              && TableIs(disk[all[|blocks| + 2 + g]], Group(all, |blocks|, g))
  {
    hide TableIs, Group, Groups;
    var n := |blocks|;
    forall g | 0 <= g < Groups(n)
      ensures n + 2 + g < |all| && all[n + 2 + g] < |disk| && TableIs(disk[all[n + 2 + g]], Group(all, n, g))
    {
      assert all[n + 2..][g] == l2s[g];
      SameGroup(all, blocks, g);
    }
  }

  lemma SameGroup(all: seq<nat>, blocks: seq<nat>, g: nat)
    requires blocks <= all && g < Groups(|blocks|)
    ensures Group(all, |blocks|, g) == Group(blocks, |blocks|, g)
  {
    GroupStart(|blocks|, g);
  }

  /** The pointers the tool stores: twelve direct blocks, the single and the double indirect table. */
  function Pointers(blocks: seq<nat>, single: seq<nat>, l1: seq<nat>): (r: seq<nat>)
    ensures |r| == 15
  {
    seq(15, i requires 0 <= i < 15 =>
      if i < NDIRECT then (if i < |blocks| then blocks[i] else 0)
      else if i == 12 && single != [] then single[0]
      else if i == 13 && l1 != [] then l1[0]
      else 0)
  }

  lemma PointersAre(blocks: seq<nat>, single: seq<nat>, l1: seq<nat>, l2s: seq<nat>)
    requires var n := |blocks|;
             && |single| == (if n > NDIRECT then 1 else 0) && |l1| == (if n > FIRST_DOUBLE then 1 else 0)
             && |l2s| == Groups(n)
    ensures var all := blocks + single + l1 + l2s;
            |all| == Total(|blocks|) && Pointers(blocks, single, l1) == RunPtrs(all, |blocks|)
  {
    var all := blocks + single + l1 + l2s;
    var n := |blocks|;
    assert forall i :: 0 <= i < n ==> all[i] == blocks[i];
    assert single != [] ==> all[n] == single[0];
    assert l1 != [] ==> all[n + 1] == l1[0];
  }

  /** Take the blocks, write the data and the tables. */
  method LayOut(img: Image, data: seq<byte>, ghost z: Fs)
    returns (ok: bool, ptrs: seq<nat>, ghost cur: Fs, ghost all: seq<nat>)
    requires Shape(z) && CountsOk(z) && img.Geometry(z) && img.blockBits == z.blockBits && |img.disk| == |z.disk|
    requires DataBlocks(|data|) <= MAX_FILE_BLOCKS
    modifies img`blockBits, img`disk
    ensures |img.disk| == |old(img.disk)|
    ensures ok ==> && |all| == Total(DataBlocks(|data|)) && Taken(z, cur, all) && img.blockBits == cur.blockBits
                   && Laid(img.disk, all, data) && ptrs == RunPtrs(all, DataBlocks(|data|))
                   && (forall x :: 0 <= x < |img.disk| && x !in all ==> img.disk[x] == old(img.disk)[x])
    ensures ok <==> Total(DataBlocks(|data|)) <= FreeData(z)
    ensures Scribbled(z, old(img.disk), img.disk)
    ensures DataBlocks(|data|) > FreeData(z) ==> img.disk == old(img.disk)
    ensures !ok && DataBlocks(|data|) <= FreeData(z) ==>
              CutShort(old(img.disk), img.disk, Reserve(z, FreeData(z)).1, data)
  {
    hide CountsOk, Taken, TableIs, Group, Groups, Chunk, DataBlocks, Laid, RunPtrs, Pointers, DataOn, GroupsOn,
         FreeData, IsFree, CutShort, OutOfTables;
    var n := DataBlocks(|data|);
    all, ptrs, cur := [], [], z;
    var blocks;
    ok, blocks, cur := TakeData(img, n, z);
    if !ok {
      return;
    }
    TakenFresh(z, cur, blocks);
    WriteData(img, blocks, data);
    ghost var d1 := img.disk;
    ScribbledHere(z, cur, blocks, old(img.disk), d1);
    var single: seq<nat> := [];
    if n > NDIRECT {
      var si;
      ghost var was := cur;
      si, cur := TakeTable(img, blocks[NDIRECT..Min(n, FIRST_DOUBLE)], z, cur, blocks);
      ScribbledTwice(z, old(img.disk), d1, img.disk);
      if si == 0 {
        IsCutData(z, was, old(img.disk), d1, blocks, data);
        return false, [], cur, [];
      }
      DataOnFrame(d1, img.disk, blocks, data, si);
      single := [si];
    }
    ghost var d2 := img.disk;
    assert blocks + [] == blocks;
    var l1: seq<nat> := [];
    ghost var l2s: seq<nat> := [];
    if n > FIRST_DOUBLE {
      var t;
      ghost var made;
      t, cur, l2s, made := LayDouble(img, blocks, z, cur, blocks + single);
      ScribbledTwice(z, old(img.disk), d2, img.disk);
      if t == 0 {
        assert blocks + single == blocks + [single[0]];
        IsCut(z, cur, old(img.disk), d2, img.disk, blocks, single[0], made, data);
        return false, [], cur, [];
      }
      l1 := [t];
      DataOnKept(d2, img.disk, blocks, data);
    }
    all := blocks + single + l1 + l2s;
    NoGroups(n);
    assert blocks + single + [] + [] == blocks + single;
    TakenFresh(z, cur, all);
    TakenFree(z, cur, all);
    Assemble(img.disk, blocks, single, l1, l2s, data);
    PointersAre(blocks, single, l1, l2s);
    ptrs := Pointers(blocks, single, l1);
  }

  /** Out of blocks right after the data. */
  lemma IsCutData(z: Fs, cur: Fs, d: seq<Block>, e: seq<Block>, blocks: seq<nat>, data: seq<byte>)
    requires Shape(z) && CountsOk(z) && Taken(z, cur, blocks) && |blocks| == FreeData(z)
    requires |blocks| == DataBlocks(|data|) > NDIRECT && DataOn(e, blocks, data) && |e| == |d|
    requires forall x :: 0 <= x < |d| && x !in blocks ==> e[x] == d[x]
    ensures CutShort(d, e, Reserve(z, FreeData(z)).1, data)
  {
    hide CountsOk, Chunk, TableIs, Reserve, DataBlocks, FreeData, Groups;
  }

  /** Out of blocks while building the double indirect part. */
  lemma IsCut(z: Fs, cur: Fs, d: seq<Block>, d2: seq<Block>, e: seq<Block>, blocks: seq<nat>, single: nat,
              made: seq<nat>, data: seq<byte>)
    requires Shape(z) && CountsOk(z) && OutOfTables(z, cur, blocks + [single], made, blocks, d2, e)
    requires FIRST_DOUBLE < |blocks| == DataBlocks(|data|) && |e| == |d| == |d2| == |z.disk|
    requires DataOn(d2, blocks, data) && single < |d2| && TableIs(d2[single], blocks[NDIRECT..FIRST_DOUBLE])
    requires forall x :: 0 <= x < |d| && x !in blocks && x != single ==> d2[x] == d[x]
    ensures FreeData(z) < Total(|blocks|)
    ensures CutShort(d, e, Reserve(z, FreeData(z)).1, data)
  {
    hide CountsOk, Chunk, TableIs, Reserve, DataBlocks, FreeData, Groups, Group, CutBlock, DataOn, GroupsOn;
    var run := blocks + [single] + made;
    var n := |blocks|;
    assert run == Reserve(z, FreeData(z)).1;
    TakenFresh(z, cur, run);
    forall i | 0 <= i < |run|
      ensures CutBlock(e[run[i]], run, data, i)
    {
      CutHere(e, d2, blocks, single, made, data, i);
    }
    forall x | 0 <= x < |d| && (x !in run || (n + 1 < |run| && x == run[n + 1]))
      ensures e[x] == d[x]
    {
      if x in run {
        ApartFrom(run, n + 1, blocks, single);
      } else {
        assert x !in made && x !in blocks && x != single;
      }
    }
  }

  /** Another place of the run is neither among the data blocks nor the single indirect table. */
  lemma ApartFrom(run: seq<nat>, k: nat, blocks: seq<nat>, single: nat)
    requires forall i, j :: 0 <= i < j < |run| ==> run[i] != run[j]
    requires |blocks| < k < |run| && run[..|blocks|] == blocks && run[|blocks|] == single
    ensures run[k] !in blocks && run[k] != single
  {
    forall i | 0 <= i < |blocks|
      ensures blocks[i] != run[k]
    {
      assert run[..|blocks|][i] == run[i];
    }
  }

  lemma CutHere(e: seq<Block>, d2: seq<Block>, blocks: seq<nat>, single: nat, made: seq<nat>, data: seq<byte>, i: nat)
    requires var run := blocks + [single] + made;
             && |e| == |d2| && i < |run| < |blocks| + 2 + Groups(|blocks|)
             && (forall i, j :: 0 <= i < j < |run| ==> run[i] != run[j])
             && (forall i :: 0 <= i < |run| ==> run[i] < |e|)
    requires FIRST_DOUBLE < |blocks| == DataBlocks(|data|)
    requires DataOn(d2, blocks, data) && single < |d2| && TableIs(d2[single], blocks[NDIRECT..FIRST_DOUBLE])
    requires made == [] || GroupsOn(e, blocks, made[1..])
    requires forall x :: 0 <= x < |e| && (x !in made || x == made[0]) ==> e[x] == d2[x]
    ensures var run := blocks + [single] + made; CutBlock(e[run[i]], run, data, i)
  {
    hide Chunk, TableIs, DataBlocks, Group, Groups;
    var run := blocks + [single] + made;
    var n := |blocks|;
    if i <= n {
      assert run[i] !in made by {
        forall k | 0 <= k < |made|
          ensures made[k] != run[i]
        {
          assert run[n + 1 + k] == made[k];
        }
      }
      assert run[NDIRECT..FIRST_DOUBLE] == blocks[NDIRECT..FIRST_DOUBLE];
      assert i < n ==> run[i] == blocks[i];
    } else if i > n + 1 {
      var g := i - n - 2;
      assert run[i] == made[1..][g];
      GroupInRange(n, g, |run|);
      SameGroup(run, blocks, g);
    }
  }

  lemma NoGroups(n: nat)
    ensures n <= FIRST_DOUBLE ==> Groups(n) == 0
  {
  }

  lemma DataOnKept(d: seq<Block>, e: seq<Block>, blocks: seq<nat>, data: seq<byte>)
    requires DataOn(d, blocks, data) && |e| == |d| && forall x :: 0 <= x < |d| && x in blocks ==> e[x] == d[x]
    ensures DataOn(e, blocks, data)
  {
    hide Chunk;
  }

  // ---- the inode ----

  /** The record the tool stores for the file. */
  function FileRecord(n: Inode, len: u32, sectors: u32): Inode
  {
    n.(mode := REGULAR, size := len, links := 1, blocks := sectors)
  }

  /** Patch mode, size, link count, sector count and the fifteen pointers into the raw inode. */
  method PatchInode(raw: seq<byte>, len: u32, sectors: u32, ptrs: seq<nat>) returns (r: seq<byte>)
    requires |raw| == 256 && |ptrs| == 15 && forall i :: 0 <= i < 15 ==> ptrs[i] < 0x1_0000_0000
    ensures |r| == 256 && DecodeInode(r).ptrs == ptrs
    ensures DecodeInode(r).(ptrs := []) == FileRecord(DecodeInode(raw), len, sectors).(ptrs := [])
  {
    hide DecodeInode, Put16, Put32;
    r := Put16(raw, 0, REGULAR);
    PatchMode(raw, REGULAR);
    var r1 := Put32(r, 4, len);
    PatchSize(r, len);
    var r2 := Put16(r1, 26, 1);
    PatchLinks(r1, 1);
    r := Put32(r2, 28, sectors);
    PatchBlocks(r2, sectors);
    var i := 0;
    while i < 15
      invariant 0 <= i <= 15 && |r| == 256
      invariant forall k :: 0 <= k < i ==> DecodeInode(r).ptrs[k] == ptrs[k]
      invariant DecodeInode(r).(ptrs := []) == FileRecord(DecodeInode(raw), len, sectors).(ptrs := [])
    {
      PatchPtr(r, i, ptrs[i]);
      r := Put32(r, 40 + 4 * i, ptrs[i]);
      i := i + 1;
    }
  }

  // ---- flushing ----

  method CountSet(bits: seq<bool>) returns (n: nat)
    ensures n == SetCount(bits, |bits|)
  {
    n := 0;
    var i := 0;
    while i < |bits|
      invariant 0 <= i <= |bits| && n == SetCount(bits, i)
    {
      if bits[i] {
        n := n + 1;
      }
      i := i + 1;
    }
  }

  /** `flush_meta`: both bitmaps and the counts derived from them. With clear padding the disk becomes the
      one the kernel's own write-through would leave. */
  method FlushMeta(img: Image, ghost fs: Fs, ghost before: Super)
    requires img.Mirrors(fs) && CountsOk(fs) && PadClear(fs) && fs.disk[1] == EncodeSuper(before)
    requires fs.sup == before.(freeBlocks := fs.sup.freeBlocks, freeInodes := fs.sup.freeInodes)
    modifies img`disk
    ensures img.disk == CommitMaps(fs).disk
  {
    hide EncodeSuper, BitmapBlock, ClearCount, SetCount, PutFree;
    BitmapsBelow(fs);
    WriteBitmaps(img);
    var usedBlocks := CountSet(img.blockBits);
    var usedInodes := CountSet(img.inodeBits);
    FlushCounts(fs);
    PatchSuper(before, fs.sup.freeBlocks, fs.sup.freeInodes);
    var freeBlocks := (img.blocksCount - usedBlocks) % 0x1_0000_0000;
    var freeInodes := (img.inodesCount - usedInodes) % 0x1_0000_0000;
    img.disk := img.disk[1 := PutFree(img.disk[1], freeBlocks, freeInodes)];
    assert img.disk == CommitMaps(fs).disk;
  }

  /** The counts derived from the bitmaps are the ones in the superblock. */
  lemma FlushCounts(fs: Fs)
    requires Shape(fs) && CountsOk(fs) && PadClear(fs)
    ensures (fs.sup.blocksCount - SetCount(fs.blockBits, |fs.blockBits|)) % 0x1_0000_0000 == fs.sup.freeBlocks
    ensures (fs.sup.inodesCount - SetCount(fs.inodeBits, |fs.inodeBits|)) % 0x1_0000_0000 == fs.sup.freeInodes
  {
    hide ClearCount, SetCount;
    Recount(fs.blockBits, fs.sup.blocksCount, |fs.blockBits|);
    Recount(fs.inodeBits, fs.sup.inodesCount, |fs.inodeBits|);
  }

  /** Write both bitmaps. */
  method WriteBitmaps(img: Image)
    requires 3 + BitmapBlocks(img.blocksCount) <= |img.disk|
    modifies img`disk
    ensures |img.disk| == |old(img.disk)|
    ensures var bb := BitmapBlocks(img.blocksCount);
            forall x :: 0 <= x < |img.disk| ==>
              img.disk[x] == if 2 <= x < 2 + bb then BitmapBlock(img.blockBits, x - 2)
                             else if x == 2 + bb then BitmapBlock(img.inodeBits, 0)
                             else old(img.disk)[x]
  {
    hide BitmapBlock;
    var bb := BitmapBlocks(img.blocksCount);
    ghost var was := img.disk;
    var i := 0;
    while i < bb
      invariant 0 <= i <= bb && |img.disk| == |was|
      invariant forall x :: 0 <= x < |was| ==>
                img.disk[x] == if 2 <= x < 2 + i then BitmapBlock(img.blockBits, x - 2) else was[x]
    {
      img.disk := img.disk[2 + i := BitmapBlock(img.blockBits, i)];
      i := i + 1;
    }
    img.disk := img.disk[2 + bb := BitmapBlock(img.inodeBits, 0)];
  }

  lemma BitmapsBelow(fs: Fs)
    requires Shape(fs)
    ensures 3 + BitmapBlocks(fs.sup.blocksCount) <= |fs.disk|
  {
  }

  // ---- the main program ----

  lemma BlankCounts(fs: Fs, ino: nat, n: Inode, bits: seq<bool>)
    requires Shape(fs) && IsInode(fs, ino) && |bits| == |fs.blockBits|
    ensures var z := Blank(fs, ino, n, bits); Shape(z) && CountsOk(z)
  {
  }

  lemma TotalSmall(n: nat)
    requires n <= MAX_FILE_BLOCKS
    ensures Total(n) * 2 < 0x1_0000_0000
  {
    GroupsFit(n);
  }

  lemma LengthSmall(len: nat)
    requires DataBlocks(len) <= MAX_FILE_BLOCKS
    ensures len < 0x1_0000_0000
  {
  }

  lemma StripSame(a: Inode, b: Inode)
    requires a.(ptrs := []) == b.(ptrs := [])
    ensures Stripped(a) == Stripped(b)
  {
    assert Stripped(a) == a.(ptrs := []).(ptrs := seq(15, _ => 0));
    assert Stripped(b) == b.(ptrs := []).(ptrs := seq(15, _ => 0));
  }

  /** What taking the run leaves alone. */
  lemma TakenFrame(z: Fs, cur: Fs, all: seq<nat>)
    requires Shape(z) && CountsOk(z) && Taken(z, cur, all)
    ensures Shape(cur) && cur == z.(blockBits := cur.blockBits, sup := z.sup.(freeBlocks := cur.sup.freeBlocks))
    ensures forall i :: 0 <= i < |all| ==> all[i] < 0x1_0000_0000
  {
    hide CountsOk, Reserve;
    ReserveOk(z, |all|);
  }

  lemma PtrsSmall(all: seq<nat>, n: nat)
    requires |all| == Total(n) && forall i :: 0 <= i < |all| ==> all[i] < 0x1_0000_0000
    ensures forall i :: 0 <= i < 15 ==> RunPtrs(all, n)[i] < 0x1_0000_0000
  {
  }

  /** From the found inode to its stored record. */
  method PutBody(img: Image, ino: nat, raw: seq<byte>, data: seq<byte>, ghost fs: Fs)
    returns (ok: bool, ghost gs: Fs, ghost disk: seq<Block>, ghost node: Inode)
    requires Shape(fs) && IsInode(fs, ino) && img.Geometry(fs) && img.disk == fs.disk
             && |img.blockBits| == |fs.blockBits|
    requires img.inodeBits == fs.inodeBits[ino - 1 := true] && |raw| == 256 && DataBlocks(|data|) <= MAX_FILE_BLOCKS
    modifies img`blockBits, img`disk
    ensures ok ==> Installed(fs, gs, ino, old(img.blockBits), disk, node, data) && Shape(gs) && img.Mirrors(gs)
    ensures ok <==> Total(DataBlocks(|data|)) <= FreeUnder(fs, old(img.blockBits))
    ensures ok ==> FreeData(gs) == FreeUnder(fs, old(img.blockBits)) - Total(DataBlocks(|data|))
    ensures !ok ==> CutOff(fs, old(img.blockBits), img.disk, data)
  {
    hide CountsOk, Taken, DataBlocks, Laid, RunPtrs, Total, Blank, DecodeInode, EncodeInode, Reserve, Stripped,
         FreeData, FreeUnder, CutOff, CutShort;
    var n := DataBlocks(|data|);
    TotalSmall(n);
    LengthSmall(|data|);
    ghost var bits := img.blockBits;
    var len: u32, sectors: u32 := |data|, Total(n) * 2;
    ghost var n0 := Stripped(FileRecord(DecodeInode(raw), len, sectors));
    ghost var z := Blank(fs, ino, n0, bits);
    BlankCounts(fs, ino, n0, bits);
    BlankFacts(fs, ino, n0, bits);
    BlankMaps(fs, ino, n0, bits);
    BlankFree(fs, z, bits);
    gs, disk, node := fs, fs.disk, n0;
    var ptrs;
    ghost var cur, all;
    ok, ptrs, cur, all := LayOut(img, data, z);
    if !ok {
      BodyCut(fs, z, bits, img.disk, data);
      return;
    }
    TakenFrame(z, cur, all);
    TakenLeaves(z, cur, all);
    PtrsSmall(all, n);
    var r := PatchInode(raw, len, sectors, ptrs);
    node := DecodeInode(r);
    StripSame(node, FileRecord(DecodeInode(raw), len, sectors));
    EncodeDecoded(r);
    disk := img.disk;
    InodeInTable(fs.sup.blocksCount, fs.sup.inodesCount, ino);
    img.WriteInode(ino, r);
    gs := SyncInode(WithNode(cur.(disk := disk), ino, node), ino);
    SameBits(cur, gs);
    IsInstalled(fs, gs, ino, bits, disk, node, data, z, cur, all);
  }

  lemma BlankFree(fs: Fs, z: Fs, bits: seq<bool>)
    requires Shape(fs) && Shape(z) && |bits| == |fs.blockBits| && z.blockBits == bits
    requires z.sup.firstData == fs.sup.firstData && z.sup.blocksCount == fs.sup.blocksCount
    ensures FreeData(z) == FreeUnder(fs, bits)
  {
  }

  lemma TakenLeaves(z: Fs, cur: Fs, all: seq<nat>)
    requires Shape(z) && Taken(z, cur, all)
    ensures Shape(cur) && FreeData(cur) == FreeData(z) - |all|
  {
    hide Reserve, FreeData;
    ReserveFree(z, |all|);
  }

  lemma BodyCut(fs: Fs, z: Fs, bits: seq<bool>, e: seq<Block>, data: seq<byte>)
    requires Shape(fs) && Shape(z) && |bits| == |fs.blockBits| && z.blockBits == bits
    requires z.sup.firstData == fs.sup.firstData && z.sup.blocksCount == fs.sup.blocksCount
    requires DataBlocks(|data|) > FreeData(z) ==> e == fs.disk
    requires DataBlocks(|data|) <= FreeData(z) ==> CutShort(fs.disk, e, Reserve(z, FreeData(z)).1, data)
    ensures CutOff(fs, bits, e, data)
  {
    hide CutShort, Reserve, DataBlocks, ClearIn;
    ReserveSame(z, fs.(blockBits := bits), FreeData(z));
  }

  /** The run depends on the bits and the layout alone. */
  lemma {:induction false} ReserveSame(y: Fs, z: Fs, m: nat)
    requires Shape(y) && Shape(z) && y.blockBits == z.blockBits
    requires y.sup.firstData == z.sup.firstData && y.sup.blocksCount == z.sup.blocksCount
    ensures Reserve(y, m).1 == Reserve(z, m).1
    decreases m
  {
    if m > 0 && NextBlock(y) != 0 {
      ReserveSame(MarkBlock(y, NextBlock(y)), MarkBlock(z, NextBlock(z)), m - 1);
    }
  }

  lemma BlankMaps(fs: Fs, ino: nat, n: Inode, bits: seq<bool>)
    requires Shape(fs) && IsInode(fs, ino) && |bits| == |fs.blockBits|
    ensures var z := Blank(fs, ino, n, bits);
            && z.blockBits == bits && z.inodeBits == fs.inodeBits[ino - 1 := true]
            && z.sup.inodesCount == fs.sup.inodesCount
  {
  }

  lemma IsInstalled(fs: Fs, gs: Fs, ino: nat, bits: seq<bool>, disk: seq<Block>, node: Inode, data: seq<byte>,
                    z: Fs, cur: Fs, all: seq<nat>)
    requires Shape(fs) && IsInode(fs, ino) && |bits| == |fs.blockBits| && z == Blank(fs, ino, Stripped(node), bits)
    requires Shape(z) && Shape(cur) && |cur.inodes| == |fs.inodes| && |disk| == |fs.disk| && |cur.disk| == |fs.disk|
    requires |all| == Total(DataBlocks(|data|)) && Taken(z, cur, all)
    requires Laid(disk, all, data) && (forall x :: 0 <= x < |disk| && x !in all ==> disk[x] == fs.disk[x])
    requires node.ptrs == RunPtrs(all, DataBlocks(|data|)) && Recorded(node, data)
    requires Shape(WithNode(cur.(disk := disk), ino, node))
             && gs == SyncInode(WithNode(cur.(disk := disk), ino, node), ino)
    ensures Installed(fs, gs, ino, bits, disk, node, data)
  {
    hide Laid, RunPtrs, DataBlocks, Total, Blank, Reserve, SyncInode, Stripped;
  }

  /** The superblock on disk and everything in it but the free counts are still the old ones, and the
      padding bits are as they were. */
  ghost predicate SuperKept(fs: Fs, gs: Fs) {
    && Pads(fs, gs) && gs.disk[1] == fs.disk[1]
    && gs.sup == fs.sup.(freeBlocks := gs.sup.freeBlocks, freeInodes := gs.sup.freeInodes)
  }

  lemma SuperKeptTransitive(fs: Fs, gs: Fs, hs: Fs)
    requires SuperKept(fs, gs) && SuperKept(gs, hs)
    ensures SuperKept(fs, hs)
  {
  }

  lemma SuperKeptPad(fs: Fs, gs: Fs)
    requires SuperKept(fs, gs) && PadClear(fs)
    ensures PadClear(gs)
  {
  }

  lemma InstalledSuper(fs: Fs, gs: Fs, ino: nat, bits: seq<bool>, disk: seq<Block>, node: Inode, data: seq<byte>)
    requires Shape(fs) && IsInode(fs, ino) && |bits| == |fs.blockBits| && OnlyOwnCleared(fs, ino, bits)
    requires Installed(fs, gs, ino, bits, disk, node, data) && Shape(gs)
    ensures SuperKept(fs, gs)
  {
    hide Laid, RunPtrs, DataBlocks, Total, Blank, Reserve, Stripped, EncodeInode, CountsOk;
    var n0 := Stripped(node);
    var z := Blank(fs, ino, n0, bits);
    BlankCounts(fs, ino, n0, bits);
    BlankSame(fs, ino, n0, bits);
    BlankMaps(fs, ino, n0, bits);
    ReserveOk(z, Total(DataBlocks(|data|)));
    var (r, all) := Reserve(z, Total(DataBlocks(|data|)));
    InodeInTable(fs.sup.blocksCount, fs.sup.inodesCount, ino);
    assert 1 !in all;
  }

  lemma {:induction false} AddFromSuper(fs: Fs, d: nat, k: nat, ino: u32, name: Name, ftype: byte)
    requires OwnInv(fs) && Shape(fs) && Live(fs, d) && BlocksOk(fs, d) && IsName(name)
    ensures SuperKept(fs, AddFrom(fs, d, k, ino, name, ftype).0)
    decreases NDIRECT - k
  {
    hide OwnInv, Insert, Tiles, Distinct, BlocksOk, NewDirBlock, AddBlock, WriteSlot, SlotData, Own;
    if k < NDIRECT {
      BlocksHere(fs, d, k);
      if Node(fs, d).ptrs[k] == 0 {
        if NextBlock(fs) != 0 {
          AddBlockSuper(fs, d, k, NewDirBlock(ino, name, ftype));
        }
      } else {
        var r := Insert(DirBlock(fs, d, k), 0, ino, name, ftype);
        if r.Some? {
          WriteSlotSuper(fs, d, k, r.value);
        } else {
          AddFromSuper(fs, d, k + 1, ino, name, ftype);
        }
      }
    }
  }

  lemma BlocksHere(fs: Fs, d: nat, k: nat)
    requires Live(fs, d) && BlocksOk(fs, d) && k < NDIRECT
    ensures Node(fs, d).ptrs[k] != 0 ==> Own(fs, d, Direct(k)) != 0 && Tiles(DirBlock(fs, d, k), 0)
  {
    hide Tiles, Distinct;
  }

  lemma WriteSlotSuper(fs: Fs, d: nat, k: nat, b: Block)
    requires OwnInv(fs) && Shape(fs) && Live(fs, d) && k < NDIRECT && Node(fs, d).ptrs[k] != 0
    ensures SuperKept(fs, WriteSlot(fs, d, Direct(k), b))
  {
    hide Unshared, FreedClear, CountsOk;
    assert Own(fs, d, Direct(k)) == Node(fs, d).ptrs[k];
  }

  lemma AddBlockSuper(fs: Fs, d: nat, k: nat, blk: Block)
    requires Shape(fs) && Live(fs, d) && k < NDIRECT && Node(fs, d).ptrs[k] == 0 && NextBlock(fs) != 0
    ensures SuperKept(fs, AddBlock(fs, d, k, blk))
  {
    hide EncodeInode, Splice, Tiles;
    InodeInTable(fs.sup.blocksCount, fs.sup.inodesCount, d);
    ExtendDisk(fs, d, k, NextBlock(fs), blk);
    AddBlockMaps(fs, d, k, blk);
  }

  lemma AddBlockMaps(fs: Fs, d: nat, k: nat, blk: Block)
    requires Shape(fs) && Live(fs, d) && k < NDIRECT && Node(fs, d).ptrs[k] == 0 && NextBlock(fs) != 0
    ensures var gs := AddBlock(fs, d, k, blk);
            gs.sup == fs.sup.(freeBlocks := gs.sup.freeBlocks) && gs.inodeBits == fs.inodeBits
  {
    hide EncodeInode, Splice;
  }

  lemma LiveOnDisk(fs: Fs, j: nat)
    requires Synced(fs) && Live(fs, j)
    ensures Shape(fs) && OnDisk(fs, j) == EncodeInode(Node(fs, j)) && fs.disk[1] == EncodeSuper(fs.sup)
  {
    hide OnDisk, EncodeInode;
    assert InodeSynced(fs, j);
  }

  /** A mount finds `m`: file `ino` overwritten with `data` by way of `gs`. */
  ghost predicate OverwroteBy(fs: Fs, m: Fs, ino: nat, data: seq<byte>, gs: Fs, disk: seq<Block>, node: Inode)
    requires Shape(fs) && IsInode(fs, ino)
  {
    && Installed(fs, gs, ino, BitsWithout(fs, ino), disk, node, data) && Shape(gs)
    && Mountable(CommitMaps(gs).disk) && m == Mount(CommitMaps(gs).disk)
  }

  ghost predicate Overwrote(fs: Fs, m: Fs, ino: nat, data: seq<byte>)
    requires Shape(fs) && IsInode(fs, ino)
  {
    exists gs, disk, node :: OverwroteBy(fs, m, ino, data, gs, disk, node)
  }

  /** `m` is a good filesystem that the tool can be used on again, and `ino` holds `data`. */
  ghost predicate Holds(fs: Fs, m: Fs, ino: nat, data: seq<byte>) {
    && FsInv(m) && Synced(m) && PadClear(m) && m.sup.inodesCount == fs.sup.inodesCount
    && LiveFile(m, ino) && Content(m, ino) == data && NoHoles(m, ino) && Recorded(Node(m, ino), data)
  }

  lemma OverwroteOk(fs: Fs, m: Fs, ino: nat, data: seq<byte>, gs: Fs, disk: seq<Block>, node: Inode)
    requires FsInv(fs) && Synced(fs) && PadClear(fs) && Live(fs, ino) && ino != ROOT_INODE && Shape(fs)
    requires OverwroteBy(fs, m, ino, data, gs, disk, node)
    ensures Holds(fs, m, ino, data) && forall j: nat :: j != ino ==> Untouched(fs, m, j)
  {
    hide OwnInv, TreeInv, Untouched, Content, NoHoles, Mount, Mountable, Synced, PadClear, Installed, OnlyOwnCleared,
         CommitMaps, BitsWithout, DataBlocks;
    BitsWithoutOwn(fs, ino);
    var bits := BitsWithout(fs, ino);
    InstalledSuper(fs, gs, ino, bits, disk, node, data);
    SuperKeptPad(fs, gs);
    OverwriteOk(fs, gs, ino, bits, disk, node, data);
    MountedInstall(CommitMaps(gs), ino, data);
    OthersAfterMount(fs, CommitMaps(gs), ino, ino);
    PadAfterMount(gs);
    SuperAfterMount(fs, gs);
    InstalledRecord(fs, gs, ino, bits, disk, node, data);
    NodeAfterMount(gs, ino);
  }

  lemma InstalledRecord(fs: Fs, gs: Fs, ino: nat, bits: seq<bool>, disk: seq<Block>, node: Inode, data: seq<byte>)
    requires Shape(fs) && IsInode(fs, ino) && |bits| == |fs.blockBits| && Installed(fs, gs, ino, bits, disk, node, data)
    ensures Shape(gs) && IsInode(gs, ino) && Recorded(Node(gs, ino), data)
  {
    hide Laid, RunPtrs, DataBlocks, Total, Blank, Reserve, Stripped, SyncInode, Recorded;
    var r := RunFor(fs, ino, node, bits, data).0;
    SyncInodeFrame(WithNode(r.(disk := disk), ino, node), ino);
  }

  lemma NodeAfterMount(gs: Fs, ino: nat)
    requires Shape(gs) && Synced(CommitMaps(gs)) && Live(CommitMaps(gs), ino)
    ensures Mountable(CommitMaps(gs).disk) && IsInode(gs, ino) && IsInode(Mount(CommitMaps(gs).disk), ino)
    ensures Node(Mount(CommitMaps(gs).disk), ino) == Node(gs, ino)
  {
    hide Synced, Mount, Mountable;
    MountRecovers(CommitMaps(gs));
  }

  lemma SuperAfterMount(fs: Fs, gs: Fs)
    requires SuperKept(fs, gs) && Shape(gs) && Synced(CommitMaps(gs))
    ensures Mountable(CommitMaps(gs).disk) && Mount(CommitMaps(gs).disk).sup.inodesCount == fs.sup.inodesCount
  {
    hide Synced, Mount, Mountable, Pads;
    MountRecovers(CommitMaps(gs));
  }

  /** Overwrite an existing inode: this succeeds exactly when the data fits into the free blocks and its own. */
  method PutExisting(img: Image, ino: nat, data: seq<byte>, ghost fs: Fs) returns (ok: bool)
    requires img.Mirrors(fs) && FsInv(fs) && Synced(fs) && Live(fs, ino) && ino != ROOT_INODE && PadClear(fs)
    requires DataBlocks(|data|) <= MAX_FILE_BLOCKS
    modifies img
    ensures Mountable(img.disk) && Shape(fs) && IsInode(fs, ino)
    ensures ok <==> Total(DataBlocks(|data|)) <= FreeUnder(fs, BitsWithout(fs, ino))
    ensures ok ==> Overwrote(fs, Mount(img.disk), ino, data)
    ensures ok ==> Holds(fs, Mount(img.disk), ino, data)
    ensures ok ==> forall j: nat :: j != ino ==> Untouched(fs, Mount(img.disk), j)
    ensures !ok ==> CutOff(fs, BitsWithout(fs, ino), img.disk, data)
    ensures !ok ==> var m := Mount(img.disk); var n := Node(fs, ino);
                    && (forall j: nat :: j != ino ==> Untouched(fs, m, j)) && Live(m, ino) && Node(m, ino) == n
                    && (Untouched(fs, m, ino) <==> OldKept(fs, ino, data)) && (OldKept(fs, ino, data) ==> FsInv(m))
                    && (LiveFile(fs, ino) && n.ptrs[12] == 0 && n.ptrs[13] == 0 ==> FsInv(m))
  {
    hide OwnInv, TreeInv, Untouched, Content, NoHoles, Mount, Mountable, Synced, PadClear, Installed, OnlyOwnCleared,
         CommitMaps, EncodeSuper, EncodeInode, DecodeInode, OnDisk, DataBlocks, Ext2Fsck.InodeRefs, Cleared, Total,
         FreeUnder, CutOff, OldKept, Holds, Overwrote;
    LiveOnDisk(fs, ino);
    var raw := img.ReadInode(ino, fs);
    InodeRoundTrip(Node(fs, ino));
    img.FreeInodeBlocks(DecodeInode(raw));
    BitsWithoutOwn(fs, ino);
    ghost var bits := BitsWithout(fs, ino);
    assert img.inodeBits == fs.inodeBits[ino - 1 := true];
    ghost var gs, disk, node;
    ok, gs, disk, node := PutBody(img, ino, raw, data, fs);
    if !ok {
      OverwriteCut(fs, ino, data, img.disk);
      return;
    }
    InstalledSuper(fs, gs, ino, bits, disk, node, data);
    SuperKeptPad(fs, gs);
    BodyOk(fs, gs, ino, bits, disk, node, data);
    OwnCounts(gs);
    FlushMeta(img, gs, fs.sup);
    OverwriteOk(fs, gs, ino, bits, disk, node, data);
    MountKeepsInv(CommitMaps(gs));
    OverwroteThis(fs, Mount(img.disk), ino, data, gs, disk, node);
    OverwroteOk(fs, Mount(img.disk), ino, data, gs, disk, node);
  }

  lemma OverwroteThis(fs: Fs, m: Fs, ino: nat, data: seq<byte>, gs: Fs, disk: seq<Block>, node: Inode)
    requires Shape(fs) && IsInode(fs, ino) && OverwroteBy(fs, m, ino, data, gs, disk, node)
    ensures Overwrote(fs, m, ino, data)
  {
  }

  /** So that the tool can be run again on the result. */
  lemma PadAfterMount(fs: Fs)
    requires Shape(fs) && PadClear(fs) && FsInv(CommitMaps(fs)) && Synced(CommitMaps(fs))
    ensures Mountable(CommitMaps(fs).disk)
    ensures var m := Mount(CommitMaps(fs).disk); Synced(m) && PadClear(m)
  {
    hide OwnInv, TreeInv, Mount, Mountable, Synced, CommitMaps, Untouched;
    MountKeepsInv(CommitMaps(fs));
    MountPads(CommitMaps(fs));
    PadsClear(CommitMaps(fs), Mount(CommitMaps(fs).disk));
  }

  /** Mounting leaves the others as they were, too. */
  lemma OthersAfterMount(fs: Fs, hs: Fs, d: nat, ino: nat)
    requires FsInv(hs) && Synced(hs) && forall j: nat :: j != d && j != ino ==> Untouched(fs, hs, j)
    ensures Mountable(hs.disk) && forall j: nat :: j != d && j != ino ==> Untouched(fs, Mount(hs.disk), j)
  {
    hide OwnInv, TreeInv, Untouched, Mount, Mountable, Synced;
    MountKeepsInv(hs);
    var m := Mount(hs.disk);
    forall j: nat | j != d && j != ino
      ensures Untouched(fs, m, j)
    {
      UntouchedTransitive(fs, hs, m, j);
    }
  }

  /** A free inode and enough free blocks: the tool gets as far as writing the inode. */
  ghost predicate Writable(fs: Fs, len: nat)
    requires Shape(fs)
  {
    NextInode(fs) != 0 && Total(DataBlocks(len)) <= FreeData(fs)
  }

  /** A mount finds `m`: `data` installed in the fresh inode `ino` by way of `gs` and entered in `d`. */
  ghost predicate AddedBy(fs: Fs, m: Fs, d: nat, name: Name, ino: u32, data: seq<byte>, gs: Fs, disk: seq<Block>,
      node: Inode)
    requires Shape(fs) && IsInode(fs, ino) && IsName(name)
  {
    && Installed(fs, gs, ino, fs.blockBits, disk, node, data) && Shape(gs) && Live(gs, d) && BlocksOk(gs, d)
    && var (f6, ok) := AddFrom(gs, d, 0, ino, name, 1);
       ok && Mountable(CommitMaps(f6).disk) && m == Mount(CommitMaps(f6).disk)
  }

  ghost predicate Added(fs: Fs, m: Fs, d: nat, name: Name, ino: u32, data: seq<byte>)
    requires Shape(fs) && IsInode(fs, ino) && IsName(name)
  {
    exists gs, disk, node :: AddedBy(fs, m, d, name, ino, data, gs, disk, node)
  }

  lemma AddedThis(fs: Fs, m: Fs, d: nat, name: Name, ino: u32, data: seq<byte>, gs: Fs, disk: seq<Block>, node: Inode)
    requires Shape(fs) && IsInode(fs, ino) && IsName(name) && AddedBy(fs, m, d, name, ino, data, gs, disk, node)
    ensures Added(fs, m, d, name, ino, data)
  {
  }

  /** Directory `d` gained the name, the inode was free before, and everything else is as it was. */
  ghost predicate Linked(fs: Fs, m: Fs, d: nat, name: Name, ino: u32) {
    && !Live(fs, ino) && (forall n: Name :: Entry(m, d, n) == if n == name then ino else Entry(fs, d, n))
    && (forall j: nat :: j != d && j != ino ==> Untouched(fs, m, j))
  }

  lemma AddedOk(fs: Fs, m: Fs, d: nat, name: Name, ino: u32, data: seq<byte>, gs: Fs, disk: seq<Block>, node: Inode)
    requires FsInv(fs) && Synced(fs) && PadClear(fs) && LiveDir(fs, d) && d < fs.sup.inodesCount && Shape(fs)
    requires IsName(name) && Entry(fs, d, name) == 0 && 0 != ino == NextInode(fs)
    requires AddedBy(fs, m, d, name, ino, data, gs, disk, node)
    ensures Holds(fs, m, ino, data) && Linked(fs, m, d, name, ino)
  {
    hide OwnInv, TreeInv, Untouched, Content, NoHoles, Mount, Mountable, Synced, PadClear, Installed, OnlyOwnCleared,
         CommitMaps, DataBlocks, NextInode, Entry, AddFrom, BlocksOk, Rebound, DirOk;
    NextInodeFree(fs);
    NothingCleared(fs, ino);
    InstalledSuper(fs, gs, ino, fs.blockBits, disk, node, data);
    InstallOk(fs, gs, d, name, ino, disk, node, data);
    BodyOk(fs, gs, ino, fs.blockBits, disk, node, data);
    BodySyncs(fs, gs, ino, fs.blockBits, disk, node, data);
    DirAsFound(fs, gs, d);
    UntouchedDir(fs, gs, d);
    var f6 := AddFrom(gs, d, 0, ino, name, 1).0;
    AddFromSuper(gs, d, 0, ino, name, 1);
    SuperKeptTransitive(fs, gs, f6);
    SuperKeptPad(fs, f6);
    AddFromKeeps(gs, d, ino, name);
    MountedInstall(CommitMaps(f6), ino, data);
    OthersAfterMount(fs, CommitMaps(f6), d, ino);
    PadAfterMount(f6);
    SuperAfterMount(fs, f6);
    EntryAfterMount(fs, CommitMaps(f6), d, name, ino);
    InstalledRecord(fs, gs, ino, fs.blockBits, disk, node, data);
    AddFromRecord(gs, d, ino, name);
    NodeAfterMount(f6, ino);
  }

  /** The record is written but `dir_add` finds no room, which leaves the disk `e`. */
  ghost predicate UnenteredBy(fs: Fs, d: nat, name: Name, data: seq<byte>, e: seq<Block>, gs: Fs, disk: seq<Block>,
      node: Inode)
    requires Shape(fs) && IsName(name) && NextInode(fs) != 0
  {
    NextInodeFree(fs);
    var ino := NextInode(fs);
    && Installed(fs, gs, ino, fs.blockBits, disk, node, data) && Shape(gs) && Live(gs, d) && BlocksOk(gs, d)
    && !AddFrom(gs, d, 0, ino, name, 1).1 && e == gs.disk
  }

  ghost predicate Unentered(fs: Fs, d: nat, name: Name, data: seq<byte>, e: seq<Block>)
    requires Shape(fs) && IsName(name) && NextInode(fs) != 0
  {
    exists gs, disk, node :: UnenteredBy(fs, d, name, data, e, gs, disk, node)
  }

  lemma UnenteredThis(fs: Fs, d: nat, name: Name, data: seq<byte>, e: seq<Block>, gs: Fs, disk: seq<Block>, node: Inode)
    requires Shape(fs) && IsName(name) && NextInode(fs) != 0 && UnenteredBy(fs, d, name, data, e, gs, disk, node)
    ensures Unentered(fs, d, name, data, e)
  {
  }

  /** Giving up on a new name leaves the disk `e`. */
  ghost predicate NewFails(fs: Fs, d: nat, name: Name, data: seq<byte>, e: seq<Block>)
    requires Shape(fs) && IsName(name)
  {
    if NextInode(fs) == 0 then e == fs.disk
    else if Total(DataBlocks(|data|)) > FreeData(fs) then CutOff(fs, fs.blockBits, e, data)
    else Unentered(fs, d, name, data, e)
  }

  /** All that is live survives, and the invariants hold exactly if no record with two or more pointers is left in
      a free inode slot. */
  lemma NewFailsOk(fs: Fs, d: nat, name: Name, data: seq<byte>, e: seq<Block>)
    requires FsInv(fs) && Synced(fs) && Shape(fs) && IsName(name) && NewFails(fs, d, name, data, e)
    ensures Mountable(e)
    ensures var m := Mount(e);
            && (forall j: nat :: Untouched(fs, m, j)) && SameMaps(fs, m)
            && (FsInv(m) <==> !Writable(fs, |data|) || DataBlocks(|data|) <= 1)
  {
    hide OwnInv, TreeInv, Untouched, Mount, Mountable, Synced, Installed, DataBlocks, NextInode, AddFrom, BlocksOk,
         Total, FreeData, CutOff, SameMaps;
    if NextInode(fs) == 0 {
      FailedEarly(fs, e);
    } else if Total(DataBlocks(|data|)) > FreeData(fs) {
      CutScribbles(fs, fs.blockBits, e, data);
      FailedNew(fs, e);
    } else {
      var gs, disk, node :| UnenteredBy(fs, d, name, data, e, gs, disk, node);
      NextInodeFree(fs);
      FailedLink(fs, gs, NextInode(fs), disk, node, data);
    }
  }

  /** Install a file under a name the directory does not have: this succeeds exactly when there are an inode,
      enough blocks, and room in the directory with the blocks that are left. */
  method PutNew(img: Image, d: nat, name: Name, data: seq<byte>, ghost fs: Fs) returns (ok: bool, ino: u32)
    requires img.Mirrors(fs) && FsInv(fs) && Synced(fs) && PadClear(fs) && LiveDir(fs, d) && d < fs.sup.inodesCount
    requires IsName(name) && Entry(fs, d, name) == 0 && Node(fs, d).blocks + 2 < 0x1_0000_0000
    requires DataBlocks(|data|) <= MAX_FILE_BLOCKS
    modifies img
    ensures Mountable(img.disk) && Shape(fs) && IsInode(fs, d)
    ensures ok <==> Writable(fs, |data|) && DirRoom(fs, d, |name|, FreeData(fs) - Total(DataBlocks(|data|)))
    ensures ok ==> 0 != ino == NextInode(fs) && Added(fs, Mount(img.disk), d, name, ino, data)
    ensures ok ==> Holds(fs, Mount(img.disk), ino, data) && Linked(fs, Mount(img.disk), d, name, ino)
    ensures !ok ==> NewFails(fs, d, name, data, img.disk)
    ensures !ok ==> var m := Mount(img.disk);
                    && (forall j: nat :: Untouched(fs, m, j))
                    && (FsInv(m) <==> !Writable(fs, |data|) || DataBlocks(|data|) <= 1)
  {
    hide OwnInv, TreeInv, Untouched, Content, NoHoles, Mount, Mountable, Synced, PadClear, Installed, OnlyOwnCleared,
         CommitMaps, EncodeSuper, EncodeInode, DecodeInode, OnDisk, DataBlocks, NextInode, Entry, AddFrom, BlocksOk,
         Rebound, DirOk, Total, FreeUnder, CutOff, DirRoom, Holds, Linked, Added, Unentered;
    LiveOnDisk(fs, d);
    ino := 0;
    var i := img.AllocInode(fs);
    if i == 0 {
      NewFailsOk(fs, d, name, data, img.disk);
      return false, 0;
    }
    NextInodeFree(fs);
    ino := i;
    NothingCleared(fs, ino);
    ghost var gs, disk, node;
    ok, gs, disk, node := PutBody(img, ino, Zeros(256), data, fs);
    if !ok {
      NewFailsOk(fs, d, name, data, img.disk);
      return;
    }
    InstalledSuper(fs, gs, ino, fs.blockBits, disk, node, data);
    InstallOk(fs, gs, d, name, ino, disk, node, data);
    BodyOk(fs, gs, ino, fs.blockBits, disk, node, data);
    BodySyncs(fs, gs, ino, fs.blockBits, disk, node, data);
    DirAsFound(fs, gs, d);
    UntouchedDir(fs, gs, d);
    AddExact(gs, d, ino, name, 1);
    SameRoom(fs, gs, d, |name|, FreeData(gs));
    ok := img.DirAdd(d, ino, name, 1, gs);
    if !ok {
      UnenteredThis(fs, d, name, data, img.disk, gs, disk, node);
      NewFailsOk(fs, d, name, data, img.disk);
      return;
    }
    ghost var f6 := AddFrom(gs, d, 0, ino, name, 1).0;
    AddFromSuper(gs, d, 0, ino, name, 1);
    SuperKeptTransitive(fs, gs, f6);
    SuperKeptPad(fs, f6);
    AddFromKeeps(gs, d, ino, name);
    FlushMeta(img, f6, fs.sup);
    MountKeepsInv(CommitMaps(f6));
    AddedThis(fs, Mount(img.disk), d, name, ino, data, gs, disk, node);
    AddedOk(fs, Mount(img.disk), d, name, ino, data, gs, disk, node);
  }

  lemma FailedEarly(fs: Fs, e: seq<Block>)
    requires FsInv(fs) && Synced(fs) && e == fs.disk
    ensures Mountable(e)
    ensures var m := Mount(e); FsInv(m) && SameMaps(fs, m) && forall j: nat :: Untouched(fs, m, j)
  {
    hide OwnInv, TreeInv, Untouched, Mount, Mountable, Synced;
    MountKeepsInv(fs);
    MountSame(fs);
  }

  /** The directory as `dir_add` finds it. */
  lemma DirAsFound(fs: Fs, gs: Fs, d: nat)
    requires FsInv(fs) && LiveDir(fs, d) && Untouched(fs, gs, d) && Shape(gs) && InodesSynced(gs, 0)
    ensures LiveDir(gs, d) && Node(gs, d) == Node(fs, d) && OnDisk(gs, d) == EncodeInode(Node(gs, d))
    ensures Node(gs, d).size + BS < 0x1_0000_0000
  {
    hide OnDisk, EncodeInode, Own, SlotData, BlocksOk, NamesApart, Packed, OwnInv;
    assert InodeSynced(gs, d);
    assert DirOk(fs, d);
  }

  /** On a directory with a usable number `add_entry_to_dir` is the block walk; its result keeps counts. */
  lemma AddFromKeeps(gs: Fs, d: nat, ino: u32, name: Name)
    requires ParentOk(gs, d) && LiveDir(gs, d) && d < gs.sup.inodesCount && Shape(gs) && BlocksOk(gs, d) && IsName(name)
    requires ino != 0 && Entry(gs, d, name) == 0 && AddFrom(gs, d, 0, ino, name, 1).1 && InodesSynced(gs, 0)
    ensures AddEntry(gs, d, ino, name, 1) == AddFrom(gs, d, 0, ino, name, 1)
    ensures var f6 := AddFrom(gs, d, 0, ino, name, 1).0; Shape(f6) && CountsOk(f6) && f6.inodeBits == gs.inodeBits
  {
    hide AddFrom, Entry, DirOk, BlocksOk, Marked, Unshared, FreedClear, CountsOk, OthersSame, InodesSynced;
    AddFromSyncs(gs, d, 0, ino, name, 1, 0);
    AddEntryCases(gs, d, ino, name, 1);
  }

  lemma AddFromRecord(gs: Fs, d: nat, ino: u32, name: Name)
    requires ParentOk(gs, d) && LiveDir(gs, d) && d < gs.sup.inodesCount && Shape(gs) && BlocksOk(gs, d) && IsName(name)
    requires ino != 0 && Entry(gs, d, name) == 0 && AddFrom(gs, d, 0, ino, name, 1).1 && IsInode(gs, ino) && ino != d
    ensures var f6 := AddFrom(gs, d, 0, ino, name, 1).0; IsInode(f6, ino) && Node(f6, ino) == Node(gs, ino)
  {
    hide AddFrom, Entry, DirOk, BlocksOk, OwnInv, Own, SlotData;
    AddFromOk(gs, d, 0, ino, name, 1);
  }

  lemma EntryAfterMount(fs: Fs, hs: Fs, d: nat, name: Name, ino: u32)
    requires FsInv(hs) && Synced(hs) && Rebound(fs, hs, d, name, ino)
    ensures Mountable(hs.disk)
    ensures var m := Mount(hs.disk); forall n: Name :: Entry(m, d, n) == if n == name then ino else Entry(fs, d, n)
  {
    hide OwnInv, TreeInv, Untouched, Mount, Mountable, Synced, Entry, BlocksOk, Packed, NamesApart, SizeOk;
    MountKeepsInv(hs);
    var m := Mount(hs.disk);
    UntouchedDir(hs, m, d);
  }

  /** What the tool needs before it starts: a file within the double indirect limit; to overwrite, enough free
      blocks counting those of the old file; for a new name an inode, blocks, and room in the directory. */
  ghost predicate Accepts(fs: Fs, d: nat, name: Name, len: nat)
    requires Shape(fs) && IsInode(fs, d) && (Entry(fs, d, name) != 0 ==> IsInode(fs, Entry(fs, d, name)))
  {
    var n := DataBlocks(len);
    && n <= MAX_FILE_BLOCKS
    && if Entry(fs, d, name) != 0 then Total(n) <= FreeUnder(fs, BitsWithout(fs, Entry(fs, d, name)))
       else Writable(fs, len) && DirRoom(fs, d, |name|, FreeData(fs) - Total(n))
  }

  /** A mount after a successful run of the tool on `fs` finds `m`. */
  ghost predicate HostPuts(fs: Fs, m: Fs, d: nat, name: Name, data: seq<byte>)
    requires Shape(fs) && IsName(name)
  {
    var e := Entry(fs, d, name);
    if e != 0 then IsInode(fs, e) && Overwrote(fs, m, e, data)
    else var i := NextInode(fs); i != 0 && IsInode(fs, i) && i < 0x1_0000_0000 && Added(fs, m, d, name, i, data)
  }

  /** The tool gave up on `fs` and left the disk `e`. */
  ghost predicate HostFails(fs: Fs, d: nat, name: Name, data: seq<byte>, e: seq<Block>)
    requires Shape(fs) && IsName(name)
  {
    var n := DataBlocks(|data|);
    var x := Entry(fs, d, name);
    if n > MAX_FILE_BLOCKS then e == fs.disk
    else if x != 0 then IsInode(fs, x) && Total(n) > FreeUnder(fs, BitsWithout(fs, x))
                        && CutOff(fs, BitsWithout(fs, x), e, data)
    else NewFails(fs, d, name, data, e)
  }

  /** What a run that fails leaves of the inode that has the name already. */
  ghost predicate OldAfter(fs: Fs, m: Fs, x: nat, data: seq<byte>)
    requires Shape(fs) && IsInode(fs, x)
    requires DataBlocks(|data|) <= MAX_FILE_BLOCKS ==> Total(DataBlocks(|data|)) > FreeUnder(fs, BitsWithout(fs, x))
  {
    var kept := DataBlocks(|data|) > MAX_FILE_BLOCKS || OldKept(fs, x, data);
    && Live(m, x) && Node(m, x) == Node(fs, x) && (Untouched(fs, m, x) <==> kept) && (kept ==> FsInv(m))
    && (LiveFile(fs, x) && Node(fs, x).ptrs[12] == 0 && Node(fs, x).ptrs[13] == 0 ==> FsInv(m))
  }

  /** A failed run, exactly. */
  lemma HostFailsOk(fs: Fs, d: nat, name: Name, data: seq<byte>, e: seq<Block>)
    requires FsInv(fs) && Synced(fs) && Shape(fs) && IsName(name) && LiveDir(fs, d) && !IsDot(name)
    requires HostFails(fs, d, name, data, e)
    ensures Mountable(e)
    ensures var m := Mount(e); var x := Entry(fs, d, name);
            && (forall j: nat :: j != x ==> Untouched(fs, m, j)) && SameMaps(fs, m)
            && (x != 0 ==> IsInode(fs, x) && OldAfter(fs, m, x, data))
            && (x == 0 ==> (FsInv(m) <==>
                            DataBlocks(|data|) > MAX_FILE_BLOCKS || !Writable(fs, |data|) || DataBlocks(|data|) <= 1))
  {
    hide OwnInv, TreeInv, Untouched, Mount, Mountable, Synced, DataBlocks, Entry, NextInode, Total, FreeUnder, CutOff,
         Writable, NewFails, OldKept, BitsWithout, SameMaps;
    var x := Entry(fs, d, name);
    if x != 0 {
      NamedLive(fs, d, name);
    }
    if DataBlocks(|data|) > MAX_FILE_BLOCKS {
      FailedEarly(fs, e);
      assert x != 0 ==> Live(Mount(e), x) && Node(Mount(e), x) == Node(fs, x) by {
        RecordKept(fs, Mount(e), x);
      }
    } else if x != 0 {
      OverwriteCut(fs, x, data, e);
    } else {
      NewFailsOk(fs, d, name, data, e);
    }
  }

  lemma RecordKept(fs: Fs, m: Fs, x: nat)
    requires Untouched(fs, m, x)
    ensures Live(fs, x) ==> Live(m, x) && Node(m, x) == Node(fs, x)
  {
  }

  lemma NamedLive(fs: Fs, d: nat, name: Name)
    requires FsInv(fs) && LiveDir(fs, d) && !IsDot(name) && Entry(fs, d, name) != 0
    ensures Live(fs, Entry(fs, d, name)) && Entry(fs, d, name) != ROOT_INODE && Entry(fs, d, name) != d
  {
    hide OwnInv, DirsOk, OneParent, DotsOk, FilesOk, Entry;
  }

  /** The tool, once the parent directory is resolved: whatever the size of the file up to the double indirect
      limit, a kernel that mounts the image finds all its invariants and reads back exactly these bytes. */
  method Put(img: Image, d: nat, name: Name, data: seq<byte>, ghost fs: Fs) returns (ok: bool, ino: u32)
    requires img.Mirrors(fs) && FsInv(fs) && Synced(fs) && PadClear(fs) && LiveDir(fs, d) && d < fs.sup.inodesCount
    requires IsName(name) && !IsDot(name) && Node(fs, d).blocks + 2 < 0x1_0000_0000
    modifies img
    ensures Entry(fs, d, name) != 0 ==> IsInode(fs, Entry(fs, d, name))
    ensures Shape(fs) && (ok <==> Accepts(fs, d, name, |data|))
    ensures ok ==> ino == if Entry(fs, d, name) != 0 then Entry(fs, d, name) else NextInode(fs)
    ensures Mountable(img.disk)
    ensures ok ==> Holds(fs, Mount(img.disk), ino, data) && HostPuts(fs, Mount(img.disk), d, name, data)
    ensures ok && Entry(fs, d, name) != 0 ==> forall j: nat :: j != ino ==> Untouched(fs, Mount(img.disk), j)
    ensures ok && Entry(fs, d, name) == 0 ==> Linked(fs, Mount(img.disk), d, name, ino)
    ensures !ok ==> forall j: nat :: j != Entry(fs, d, name) ==> Untouched(fs, Mount(img.disk), j)
    ensures !ok && Entry(fs, d, name) == 0 ==>
              (FsInv(Mount(img.disk)) <==>
               DataBlocks(|data|) > MAX_FILE_BLOCKS || !Writable(fs, |data|) || DataBlocks(|data|) <= 1)
    ensures !ok && Entry(fs, d, name) != 0 ==> OldAfter(fs, Mount(img.disk), Entry(fs, d, name), data)
    ensures !ok ==> HostFails(fs, d, name, data, img.disk)
  {
    hide OwnInv, TreeInv, Untouched, Content, NoHoles, Mount, Mountable, Synced, PadClear, EncodeInode, OnDisk,
         DataBlocks, Entry, DirOk, BlocksOk, Total, FreeUnder, DirRoom, NextInode, BitsWithout, Writable, Holds,
         Linked, Added, Overwrote, OldAfter, NewFails, CutOff;
    ino := 0;
    TreeShape(fs);
    if Entry(fs, d, name) != 0 {
      NamedLive(fs, d, name);
    }
    if DataBlocks(|data|) > MAX_FILE_BLOCKS {
      HostFailsOk(fs, d, name, data, img.disk);
      return false, 0;
    }
    LiveOnDisk(fs, d);
    TreeDir(fs, d);
    var existing := img.DirFind(d, name, fs);
    if existing != 0 {
      ino := existing;
      ok := PutExisting(img, ino, data, fs);
    } else {
      ok, ino := PutNew(img, d, name, data, fs);
    }
    if !ok {
      HostFailsOk(fs, d, name, data, img.disk);
    }
  }

  lemma TreeShape(fs: Fs)
    requires FsInv(fs)
    ensures Shape(fs)
  {
  }
}
