/** The host-side checker: walk the tree, compare with the bitmaps, rebuild them. */
module Ext2Fsck {
  import opened Bytes
  import opened Ext2State
  import opened Ext2Ownership
  import opened Ext2Disk
  import opened Ext2HostBytes
  import Ext2DirBlock

  function InodesCount(disk: seq<Block>): nat
    requires |disk| > 1
  {
    DecodeSuper(disk[1]).inodesCount
  }

  function BlocksCount(disk: seq<Block>): nat
    requires |disk| > 1
  {
    DecodeSuper(disk[1]).blocksCount
  }

  /** A block, zeros past the end of the image. */
  function Rd(disk: seq<Block>, n: nat): Block { if n < |disk| then disk[n] else Zeros(BS) }

  /** Inode `ino` as stored on disk. */
  function DiskNode(disk: seq<Block>, ino: nat): Inode
    requires Mountable(disk) && 1 <= ino <= InodesCount(disk)
  {
    MountInode(disk, BlocksCount(disk), InodesCount(disk), ino)
  }

  predicate BlockUsed(disk: seq<Block>, b: nat) { DiskBit(disk, 2, b) }

  predicate InodeUsed(disk: seq<Block>, ino: nat)
    requires |disk| > 1 && ino >= 1
  {
    DiskBit(disk, InodeBitmapBlock(BlocksCount(disk)), ino - 1)
  }

  // ---- what an inode refers to ----

  /** The nonzero pointers of a table block. */
  function TableRefs(t: Block): set<nat> { set k | 0 <= k < PTRS && Le32(t, 4 * k) != 0 :: Le32(t, 4 * k) as nat }

  function DirectRefs(n: Inode): set<nat> { set k | 0 <= k < NDIRECT && n.ptrs[k] != 0 :: n.ptrs[k] as nat }

  /** Everything below a table of tables. */
  function DeepRefs(disk: seq<Block>, l1: Block): set<nat> {
    TableRefs(l1) + set t, b | t in TableRefs(l1) && b in TableRefs(Rd(disk, t)) :: b
  }

  /** `inode_blocks`: data blocks and tables alike. */
  function InodeRefs(disk: seq<Block>, n: Inode): set<nat> {
    DirectRefs(n)
    + (if n.ptrs[12] != 0 then {n.ptrs[12] as nat} + TableRefs(Rd(disk, n.ptrs[12])) else {})
    + (if n.ptrs[13] != 0 then {n.ptrs[13] as nat} + DeepRefs(disk, Rd(disk, n.ptrs[13])) else {})
  }

  // ---- directories ----

  function EntryName(b: Block, off: nat): seq<byte>
    requires off + 8 <= BS
  {
    var end := off + 8 + b[off + 6] as int;
    b[off + 8..if end > BS then BS else end]
  }

  /** An entry the walk follows. */
  predicate Follows(b: Block, off: nat, limit: nat)
    requires off + 8 <= BS
  {
    1 <= Le32(b, off) <= limit && EntryName(b, off) != Ext2DirBlock.DOT && EntryName(b, off) != Ext2DirBlock.DOTDOT
  }

  /** The inodes named by the entries from `off` on; a malformed length ends the block. */
  function BlockChildren(b: Block, off: nat, limit: nat): set<nat>
    decreases BS - off
  {
    if off + 8 > BS then {}
    else
      var len := Le16(b, off + 4);
      if len < 8 || off + len > BS then {}
      else (if Follows(b, off, limit) then {Le32(b, off) as nat} else {}) + BlockChildren(b, off + len, limit)
  }

  /** The inodes named in a directory, from its `k`-th block on. */
  function ChildrenFrom(disk: seq<Block>, n: Inode, k: nat, limit: nat): set<nat>
    decreases NDIRECT - k
  {
    if k >= NDIRECT then {}
    else (if n.ptrs[k] == 0 then {} else BlockChildren(Rd(disk, n.ptrs[k]), 0, limit))
         + ChildrenFrom(disk, n, k + 1, limit)
  }

  function Children(disk: seq<Block>, d: nat): set<nat>
    requires Mountable(disk) && 1 <= d <= InodesCount(disk)
  {
    ChildrenFrom(disk, DiskNode(disk, d), 0, InodesCount(disk))
  }

  predicate IsDir(disk: seq<Block>, ino: nat)
    requires Mountable(disk) && 1 <= ino <= InodesCount(disk)
  {
    IsDirMode(DiskNode(disk, ino).mode)
  }

  /** A chain of directory entries down from the root. */
  ghost predicate IsPath(disk: seq<Block>, p: seq<nat>)
    requires Mountable(disk)
  {
    && p != [] && p[0] == ROOT_INODE
    && (forall i :: 0 <= i < |p| ==> 1 <= p[i] <= InodesCount(disk))
    && (forall i :: 0 < i < |p| ==> p[i] in Children(disk, p[i - 1]))
    && (forall i :: 0 < i < |p| - 1 ==> IsDir(disk, p[i]))
  }

  ghost predicate Reaches(disk: seq<Block>, ino: nat)
    requires Mountable(disk)
  {
    exists p :: EndsAt(disk, p, ino)
  }

  ghost predicate EndsAt(disk: seq<Block>, p: seq<nat>, ino: nat)
    requires Mountable(disk)
  {
    IsPath(disk, p) && p[|p| - 1] == ino
  }

  /** Inodes reachable from the root. */
  ghost function Reachable(disk: seq<Block>): (r: set<nat>)
    requires Mountable(disk)
    ensures forall i :: i in r ==> 1 <= i <= InodesCount(disk)
  {
    set ino | 1 <= ino <= InodesCount(disk) && Reaches(disk, ino)
  }

  lemma {:induction false} BlockChildrenBound(b: Block, off: nat, limit: nat)
    ensures forall c :: c in BlockChildren(b, off, limit) ==> 1 <= c <= limit
    decreases BS - off
  {
    if off + 8 <= BS {
      var len := Le16(b, off + 4);
      if len >= 8 && off + len <= BS {
        BlockChildrenBound(b, off + len, limit);
      }
    }
  }

  lemma {:induction false} ChildrenBound(disk: seq<Block>, n: Inode, k: nat, limit: nat)
    ensures forall c :: c in ChildrenFrom(disk, n, k, limit) ==> 1 <= c <= limit
    decreases NDIRECT - k
  {
    if k < NDIRECT {
      ChildrenBound(disk, n, k + 1, limit);
      if n.ptrs[k] != 0 {
        BlockChildrenBound(Rd(disk, n.ptrs[k]), 0, limit);
      }
    }
  }

  lemma RootReachable(disk: seq<Block>)
    requires Mountable(disk)
    ensures ROOT_INODE in Reachable(disk)
  {
    assert EndsAt(disk, [ROOT_INODE], ROOT_INODE);
  }

  lemma MountSize(disk: seq<Block>)
    requires Mountable(disk)
    ensures |disk| > 1 && ROOT_INODE <= InodesCount(disk)
  {
  }

  /** One entry further down. */
  lemma ReachChild(disk: seq<Block>, d: nat, c: nat)
    requires Mountable(disk) && d in Reachable(disk) && (d == ROOT_INODE || IsDir(disk, d)) && c in Children(disk, d)
    ensures c in Reachable(disk)
  {
    hide Mountable, DiskNode, IsDir, InodesCount, IsPath, ChildrenFrom;
    MountSize(disk);
    ChildrenBound(disk, DiskNode(disk, d), 0, InodesCount(disk));
    assert Reaches(disk, d);
    var p :| EndsAt(disk, p, d);
    var q := if d == ROOT_INODE then [ROOT_INODE] else p;
    RootPath(disk);
    Extend(disk, q, c);
    assert (q + [c])[|q|] == c;
    assert EndsAt(disk, q + [c], c);
  }

  lemma RootPath(disk: seq<Block>)
    requires Mountable(disk)
    ensures IsPath(disk, [ROOT_INODE])
  {
  }

  lemma Extend(disk: seq<Block>, p: seq<nat>, c: nat)
    requires Mountable(disk) && IsPath(disk, p) && 1 <= c <= InodesCount(disk)
    requires (|p| == 1 || IsDir(disk, p[|p| - 1])) && c in Children(disk, p[|p| - 1])
    ensures IsPath(disk, p + [c])
  {
    hide Mountable, Children, IsDir, InodesCount;
    MountSize(disk);
  }

  /** A path without its last step. */
  lemma Shorten(disk: seq<Block>, p: seq<nat>)
    requires Mountable(disk) && IsPath(disk, p) && |p| > 1
    ensures IsPath(disk, p[..|p| - 1]) && 1 <= p[|p| - 2] <= InodesCount(disk) && 1 <= p[|p| - 1] <= InodesCount(disk)
    ensures p[|p| - 1] in Children(disk, p[|p| - 2])
    ensures |p| == 2 || IsDir(disk, p[|p| - 2])
  {
    hide Mountable, Children, IsDir, InodesCount;
    MountSize(disk);
  }

  // ---- the walk ----

  /** The directories among a set of inodes. */
  function Dirs(disk: seq<Block>, s: set<nat>): set<nat>
    requires Mountable(disk)
  {
    set x | x in s && 1 <= x <= InodesCount(disk) && IsDir(disk, x)
  }

  function Elements(s: seq<nat>): set<nat> { set x | x in s }

  /** The entries of one block. */
  method VisitBlock(disk: seq<Block>, b: Block, reach: set<nat>, stack: seq<nat>)
    returns (reach': set<nat>, stack': seq<nat>)
    requires Mountable(disk)
    ensures var c := BlockChildren(b, 0, InodesCount(disk));
            reach' == reach + c && Elements(stack') == Elements(stack) + Dirs(disk, c)
  {
    hide Mountable, IsDir, DecodeSuper;
    MountSize(disk);
    var limit := InodesCount(disk);
    reach', stack' := reach, stack;
    ghost var c := BlockChildren(b, 0, limit);
    ghost var done: set<nat> := {};
    var off := 0;
    NoDirs(disk);
    while off + 8 <= BS
      invariant 0 <= off <= BS && c == done + BlockChildren(b, off, limit)
      invariant reach' == reach + done && Elements(stack') == Elements(stack) + Dirs(disk, done)
      decreases BS - off
    {
      var ino, len := Le32(b, off) as nat, Le16(b, off + 4);
      if len < 8 || off + len > BS {
        break;
      }
      if Follows(b, off, limit) {
        DirsAdd(disk, done, ino);
        reach' := reach' + {ino};
        if IsDir(disk, ino) {
          ElementsAdd(stack', ino);
          stack' := stack' + [ino];
        }
        done := done + {ino};
      }
      off := off + len;
    }
    assert c == done;
  }

  lemma NoDirs(disk: seq<Block>)
    requires Mountable(disk)
    ensures Dirs(disk, {}) == {}
  {
  }

  lemma DirsAdd(disk: seq<Block>, s: set<nat>, x: nat)
    requires Mountable(disk) && 1 <= x <= InodesCount(disk)
    ensures Dirs(disk, s + {x}) == Dirs(disk, s) + if IsDir(disk, x) then {x} else {}
  {
    hide Mountable, IsDir, InodesCount;
    MountSize(disk);
  }

  lemma DirsUnion(disk: seq<Block>, s: set<nat>, t: set<nat>)
    requires Mountable(disk)
    ensures Dirs(disk, s + t) == Dirs(disk, s) + Dirs(disk, t)
  {
    hide Mountable, IsDir, InodesCount;
    MountSize(disk);
  }

  lemma ElementsAdd(s: seq<nat>, x: nat)
    ensures Elements(s + [x]) == Elements(s) + {x}
  {
  }

  /** One directory: its children join `reach`, the directories among them the stack. */
  method VisitDir(disk: seq<Block>, d: nat, reach: set<nat>, stack: seq<nat>)
    returns (reach': set<nat>, stack': seq<nat>)
    requires Mountable(disk) && 1 <= d <= InodesCount(disk)
    ensures reach' == reach + Children(disk, d) && Elements(stack') == Elements(stack) + Dirs(disk, Children(disk, d))
  {
    hide Mountable, IsDir, InodesCount, BlockChildren, Dirs, Elements;
    MountSize(disk);
    var limit := InodesCount(disk);
    var n := DiskNode(disk, d);
    reach', stack' := reach, stack;
    ghost var done: set<nat> := {};
    NoDirs(disk);
    var k := 0;
    while k < NDIRECT
      invariant 0 <= k <= NDIRECT && Children(disk, d) == done + ChildrenFrom(disk, n, k, limit)
      invariant reach' == reach + done && Elements(stack') == Elements(stack) + Dirs(disk, done)
    {
      if n.ptrs[k] != 0 {
        var b := Rd(disk, n.ptrs[k]);
        ghost var c := BlockChildren(b, 0, limit);
        DirsUnion(disk, done, c);
        reach', stack' := VisitBlock(disk, b, reach', stack');
        done := done + c;
      }
      k := k + 1;
    }
    assert Children(disk, d) == done;
  }

  /** Every directory seen has handed over its children. */
  ghost predicate Closed(disk: seq<Block>, seen: set<nat>, pending: set<nat>, reach: set<nat>)
    requires Mountable(disk)
  {
    && ROOT_INODE in seen + pending && ROOT_INODE in reach
    && (forall d :: d in seen ==> 1 <= d <= InodesCount(disk) && HandedOver(disk, d, seen + pending, reach))
  }

  ghost predicate HandedOver(disk: seq<Block>, d: nat, known: set<nat>, reach: set<nat>)
    requires Mountable(disk) && 1 <= d <= InodesCount(disk)
  {
    Children(disk, d) <= reach && Dirs(disk, Children(disk, d)) <= known
  }

  /** Only reachable inodes, and on the stack only directories (or the root). */
  ghost predicate Sound(disk: seq<Block>, seen: set<nat>, pending: set<nat>, reach: set<nat>)
    requires Mountable(disk)
  {
    && reach <= Reachable(disk) && seen + pending <= reach
    && (forall d :: d in seen + pending ==> d == ROOT_INODE || (1 <= d <= InodesCount(disk) && IsDir(disk, d)))
  }

  lemma {:induction false} PathInside(disk: seq<Block>, seen: set<nat>, reach: set<nat>, p: seq<nat>)
    requires Mountable(disk) && Closed(disk, seen, {}, reach) && IsPath(disk, p)
    ensures var x := p[|p| - 1];
            1 <= x <= InodesCount(disk) && x in reach && (|p| == 1 || IsDir(disk, x) ==> x in seen)
    decreases |p|
  {
    hide Mountable, Children, IsDir, InodesCount;
    MountSize(disk);
    if |p| > 1 {
      hide IsPath;
      Shorten(disk, p);
      PathInside(disk, seen, reach, p[..|p| - 1]);
      var d := p[|p| - 2];
      assert p[..|p| - 1][|p| - 2] == d;
      assert HandedOver(disk, d, seen, reach);
    }
  }

  lemma AllReached(disk: seq<Block>, seen: set<nat>, reach: set<nat>)
    requires Mountable(disk) && Closed(disk, seen, {}, reach) && Sound(disk, seen, {}, reach)
    ensures reach == Reachable(disk)
  {
    hide Mountable, IsPath, InodesCount, Closed;
    MountSize(disk);
    forall x | x in Reachable(disk)
      ensures x in reach
    {
      assert Reaches(disk, x);
      var p :| EndsAt(disk, p, x);
      PathInside(disk, seen, reach, p);
    }
  }

  /** The work stack of `check`: exactly the inodes reachable from the root, and the unmarked ones that
      some entry names. */
  method Walk(disk: seq<Block>) returns (reach: set<nat>, unmarked: set<nat>)
    requires Mountable(disk)
    ensures reach == Reachable(disk) && unmarked == UnmarkedBy(disk, Visited(disk))
  {
    hide Mountable, IsDir, InodesCount, Children, Dirs, Elements, Reachable, Closed, Sound, UnmarkedBy, InodeUsed,
         Visited;
    MountSize(disk);
    reach, unmarked := {ROOT_INODE}, {};
    var stack: seq<nat> := [ROOT_INODE];
    var seen: set<nat> := {};
    WalkStart(disk);
    while |stack| > 0
      invariant Closed(disk, seen, Elements(stack), reach) && Sound(disk, seen, Elements(stack), reach)
      invariant (forall d :: d in seen ==> 1 <= d <= InodesCount(disk)) && unmarked == UnmarkedBy(disk, seen)
      decreases Reachable(disk) - seen, |stack|
    {
      var d := stack[|stack| - 1];
      ghost var before := stack;
      stack := stack[..|stack| - 1];
      PopElements(before);
      if d in seen {
        WalkSkip(disk, seen, Elements(stack), reach, d);
      } else {
        PopFacts(disk, seen, Elements(before), reach, d);
        WalkVisit(disk, seen, Elements(stack), reach, d);
        UnmarkedNext(disk, seen, d);
        var children;
        children, stack := VisitDir(disk, d, {}, stack);
        assert children == Children(disk, d);
        seen := seen + {d};
        reach := reach + children;
        unmarked := unmarked + set c | c in children && c >= 1 && !InodeUsed(disk, c);
      }
    }
    PopElements(stack);
    AllReached(disk, seen, reach);
    AllVisited(disk, seen, reach);
  }

  lemma UnmarkedNext(disk: seq<Block>, seen: set<nat>, d: nat)
    requires Mountable(disk) && 1 <= d <= InodesCount(disk) && forall x :: x in seen ==> 1 <= x <= InodesCount(disk)
    ensures UnmarkedBy(disk, seen + {d}) ==
            UnmarkedBy(disk, seen) + set c | c in Children(disk, d) && c >= 1 && !InodeUsed(disk, c)
  {
    hide Mountable, InodesCount, Children, InodeUsed;
    MountSize(disk);
  }

  lemma AllVisited(disk: seq<Block>, seen: set<nat>, reach: set<nat>)
    requires Mountable(disk) && Closed(disk, seen, {}, reach) && Sound(disk, seen, {}, reach)
    ensures seen == Visited(disk)
  {
    hide Mountable, IsPath, InodesCount, IsDir;
    MountSize(disk);
    forall x | x in Visited(disk)
      ensures x in seen
    {
      if x != ROOT_INODE {
        assert Reaches(disk, x);
        var p :| EndsAt(disk, p, x);
        PathInside(disk, seen, reach, p);
      }
    }
    assert seen + {} == seen;
  }

  lemma WalkStart(disk: seq<Block>)
    requires Mountable(disk)
    ensures Elements([ROOT_INODE]) == {ROOT_INODE}
    ensures Closed(disk, {}, {ROOT_INODE}, {ROOT_INODE}) && Sound(disk, {}, {ROOT_INODE}, {ROOT_INODE})
    ensures UnmarkedBy(disk, {}) == {}
  {
    RootReachable(disk);
  }

  lemma PopElements(s: seq<nat>)
    ensures s == [] ==> Elements(s) == {}
    ensures s != [] ==> Elements(s) == Elements(s[..|s| - 1]) + {s[|s| - 1]}
  {
    if s != [] {
      assert s == s[..|s| - 1] + [s[|s| - 1]];
    }
  }

  lemma WalkSkip(disk: seq<Block>, seen: set<nat>, pending: set<nat>, reach: set<nat>, d: nat)
    requires Mountable(disk) && d in seen
    requires Closed(disk, seen, pending + {d}, reach) && Sound(disk, seen, pending + {d}, reach)
    ensures Closed(disk, seen, pending, reach) && Sound(disk, seen, pending, reach)
  {
    hide Mountable, IsDir, InodesCount, Children, Dirs, Reachable;
    MountSize(disk);
    assert seen + (pending + {d}) == seen + pending;
  }

  lemma PopFacts(disk: seq<Block>, seen: set<nat>, pending: set<nat>, reach: set<nat>, d: nat)
    requires Mountable(disk) && d in pending && Sound(disk, seen, pending, reach)
    ensures 1 <= d <= InodesCount(disk) && d in Reachable(disk) && (d == ROOT_INODE || IsDir(disk, d))
  {
    hide Mountable, IsDir, InodesCount, Reachable;
    MountSize(disk);
  }

  lemma WalkVisit(disk: seq<Block>, seen: set<nat>, pending: set<nat>, reach: set<nat>, d: nat)
    requires Mountable(disk) && 1 <= d <= InodesCount(disk)
    requires Closed(disk, seen, pending + {d}, reach) && Sound(disk, seen, pending + {d}, reach)
    ensures var c := Children(disk, d);
            && Closed(disk, seen + {d}, pending + Dirs(disk, c), reach + c)
            && Sound(disk, seen + {d}, pending + Dirs(disk, c), reach + c)
  {
    hide Mountable, IsDir, InodesCount, Children, Reachable;
    MountSize(disk);
    var c := Children(disk, d);
    PopFacts(disk, seen, pending + {d}, reach, d);
    forall x | x in c
      ensures x in Reachable(disk)
    {
      ReachChild(disk, d, x);
    }
    assert seen + (pending + {d}) <= seen + {d} + (pending + Dirs(disk, c));
  }

  // ---- checking ----

  /** Boot block, superblock, bitmaps and inode table. */
  function Metadata(disk: seq<Block>): set<nat>
    requires |disk| > 1
  {
    var n := FirstData(BlocksCount(disk), InodesCount(disk));
    set b | 0 <= b < n && Below(b, n)
  }

  predicate Below(b: nat, n: nat) { b < n }

  /** The inodes whose bit is set. */
  function UsedInodes(disk: seq<Block>): set<nat>
    requires |disk| > 1
  {
    set i | 1 <= i <= InodesCount(disk) && InodeUsed(disk, i)
  }

  /** An inode whose blocks count as referenced: not reserved below the root and with a type. */
  predicate Counts(disk: seq<Block>, ino: nat)
    requires Mountable(disk) && 1 <= ino <= InodesCount(disk)
  {
    ino >= ROOT_INODE && DiskNode(disk, ino).mode != 0
  }

  /** The in-range blocks the inodes of a set refer to. */
  function Referenced(disk: seq<Block>, inos: set<nat>): set<nat>
    requires Mountable(disk) && forall i :: i in inos ==> 1 <= i <= InodesCount(disk)
  {
    set i, b | i in inos && Counts(disk, i) && b in InodeRefs(disk, DiskNode(disk, i)) && b < BlocksCount(disk) :: b
  }

  function UsedBlocks(disk: seq<Block>): set<nat>
    requires |disk| > 1
  {
    set b | 0 <= b < BlocksCount(disk) && BlockUsed(disk, b)
  }

  /** The findings a repair is meant to remove. */
  datatype Report = Report(under: set<nat>, leaked: set<nat>, unmarked: set<nat>, orphans: set<nat>,
                           wrongBlocks: bool, wrongInodes: bool)

  const FIRST_ORDINARY := 11   // inodes below this are reserved and never orphans

  const CLEAN := Report({}, {}, {}, {}, false, false)

  /** Unmarked inodes named by an entry of one of these directories. */
  ghost function UnmarkedBy(disk: seq<Block>, dirs: set<nat>): set<nat>
    requires Mountable(disk) && forall d :: d in dirs ==> 1 <= d <= InodesCount(disk)
  {
    set d, c | d in dirs && c in Children(disk, d) && c >= 1 && !InodeUsed(disk, c) :: c
  }

  /** The directories the walk opens: the root and every reachable directory. */
  ghost function Visited(disk: seq<Block>): (r: set<nat>)
    requires Mountable(disk)
    ensures forall d :: d in r ==> 1 <= d <= InodesCount(disk)
  {
    set d | d in Reachable(disk) && (d == ROOT_INODE || IsDir(disk, d))
  }

  ghost function Findings(disk: seq<Block>): Report
    requires Mountable(disk)
  {
    var should := Metadata(disk) + Referenced(disk, UsedInodes(disk));
    var s := DecodeSuper(disk[1]);
    Report(should - UsedBlocks(disk), UsedBlocks(disk) - should,
           UnmarkedBy(disk, Visited(disk)),
           (set i | i in UsedInodes(disk) && i >= FIRST_ORDINARY) - Reachable(disk),
           s.freeBlocks != BlocksCount(disk) - |UsedBlocks(disk)|,
           s.freeInodes != InodesCount(disk) - |UsedInodes(disk)|)
  }

  // ---- repairing ----

  ghost function NewRefs(disk: seq<Block>): set<nat>
    requires Mountable(disk)
  {
    Metadata(disk) + Referenced(disk, Reachable(disk))
  }

  /** A bitmap of `n` bits with exactly the members of `s` set. */
  function BitsOf(s: set<nat>, n: nat, shift: nat): (r: seq<bool>)
    ensures |r| == n
  {
    seq(n, i requires 0 <= i => i + shift in s)
  }

  /** The image with both bitmaps and both free counts replaced. */
  function Rewrite(disk: seq<Block>, refs: set<nat>, keep: set<nat>, freeBlocks: u32, freeInodes: u32): (r: seq<Block>)
    requires Mountable(disk)
    ensures |r| == |disk|
  {
    seq(|disk|, x requires 0 <= x < |disk| => RewriteAt(disk, refs, keep, freeBlocks, freeInodes, x))
  }

  function RewriteAt(disk: seq<Block>, refs: set<nat>, keep: set<nat>, freeBlocks: u32, freeInodes: u32, x: nat): Block
    requires |disk| > 1 && x < |disk|
  {
    var bb := BitmapBlocks(BlocksCount(disk));
    if x == 1 then PutFree(disk[1], freeBlocks, freeInodes)
    else if 2 <= x < 2 + bb then BitmapBlock(BitsOf(refs, bb * 8192, 0), x - 2)
    else if x == 2 + bb then BitmapBlock(BitsOf(keep, 8192, 1), 0)
    else disk[x]
  }

  lemma MetaFits(disk: seq<Block>)
    requires Mountable(disk)
    ensures forall b :: b in NewRefs(disk) ==> b < BlocksCount(disk)
    ensures |NewRefs(disk)| <= BlocksCount(disk) < 0x1_0000_0000
            && |Reachable(disk)| <= InodesCount(disk) < 0x1_0000_0000
  {
    hide Reachable, InodeRefs;
    Cardinality(NewRefs(disk), 0, BlocksCount(disk));
    Cardinality(Reachable(disk), 1, InodesCount(disk));
  }

  /** A set of numbers from an interval has at most as many members. */
  lemma {:induction false} Cardinality(s: set<nat>, lo: nat, n: nat)
    requires forall x :: x in s ==> lo <= x < lo + n
    ensures |s| <= n
    decreases n
  {
    if n == 0 {
      assert s == {};
    } else {
      var t := s - {lo + n - 1};
      Cardinality(t, lo, n - 1);
      assert s <= t + {lo + n - 1};
      assert |s| <= |t| + 1 by {
        if lo + n - 1 in s {
          assert s == t + {lo + n - 1};
        } else {
          assert s == t;
        }
      }
    }
  }

  ghost function NewFreeBlocks(disk: seq<Block>): u32
    requires Mountable(disk)
  {
    MetaFits(disk);
    BlocksCount(disk) - |NewRefs(disk)|
  }

  ghost function NewFreeInodes(disk: seq<Block>): u32
    requires Mountable(disk)
  {
    MetaFits(disk);
    InodesCount(disk) - |Reachable(disk)|
  }

  /** The image after the repair branch: reachable inodes and what they refer to are marked, counts follow. */
  ghost function Repaired(disk: seq<Block>): seq<Block>
    requires Mountable(disk)
  {
    Rewrite(disk, NewRefs(disk), Reachable(disk), NewFreeBlocks(disk), NewFreeInodes(disk))
  }

  // ---- the repaired image ----

  /** No reachable inode refers to a metadata block. */
  ghost predicate NoMetaRefs(disk: seq<Block>)
    requires Mountable(disk)
  {
    forall i :: i in Reachable(disk) ==> InodeRefs(disk, DiskNode(disk, i)) !! Metadata(disk)
  }

  /** `e` is `d` with other bitmaps and free counts: same geometry, same inode table, same data. */
  predicate Rewritten(d: seq<Block>, e: seq<Block>) {
    && Mountable(d) && Mountable(e) && |d| == |e|
    && BlocksCount(e) == BlocksCount(d) && InodesCount(e) == InodesCount(d)
    && (forall x :: InodeTableStart(BlocksCount(d)) <= x < |d| ==> e[x] == d[x])
  }

  lemma PutSuper(b: Block, fb: u32, fi: u32)
    ensures DecodeSuper(PutFree(b, fb, fi)) == DecodeSuper(b).(freeBlocks := fb, freeInodes := fi)
  {
    hide Put32;
    var c := Put32(b, 12, fb);
    var e := Put32(c, 16, fi);
    assert forall k :: 0 <= k < BS && !(12 <= k < 20) ==> e[k] == b[k];
    assert e[28..112] == b[28..112] && e[120..1016] == b[120..1016];
    assert forall k :: 12 <= k < 16 ==> e[k] == c[k];
  }

  lemma RewriteOk(disk: seq<Block>, refs: set<nat>, keep: set<nat>, fb: u32, fi: u32)
    requires Mountable(disk)
    ensures var e := Rewrite(disk, refs, keep, fb, fi);
            Rewritten(disk, e) && DecodeSuper(e[1]) == DecodeSuper(disk[1]).(freeBlocks := fb, freeInodes := fi)
  {
    hide DecodeSuper, BitmapBlock, BitsOf, PutFree;
    PutSuper(disk[1], fb, fi);
  }

  lemma NodeSame(d: seq<Block>, e: seq<Block>, ino: nat)
    requires Rewritten(d, e) && 1 <= ino <= InodesCount(d)
    ensures DiskNode(e, ino) == DiskNode(d, ino)
  {
    hide DecodeSuper, DecodeInode;
    InodeInTable(BlocksCount(d), InodesCount(d), ino);
  }

  lemma RdSame(d: seq<Block>, e: seq<Block>, n: nat)
    requires Rewritten(d, e) && n !in Metadata(d)
    ensures Rd(e, n) == Rd(d, n)
  {
    hide DecodeSuper, Metadata;
    MetaIs(d, n);
  }

  lemma MetaIs(disk: seq<Block>, n: nat)
    requires |disk| > 1
    ensures n in Metadata(disk) <==> n < FirstData(BlocksCount(disk), InodesCount(disk))
  {
  }

  lemma RefsSame(d: seq<Block>, e: seq<Block>, n: Inode)
    requires Rewritten(d, e) && InodeRefs(d, n) !! Metadata(d)
    ensures InodeRefs(e, n) == InodeRefs(d, n)
  {
    hide Rewritten, Metadata, TableRefs, Rd, DirectRefs;
    RewrittenSize(d, e);
    if n.ptrs[12] != 0 {
      assert n.ptrs[12] as nat in InodeRefs(d, n);
      RdSame(d, e, n.ptrs[12]);
    }
    if n.ptrs[13] != 0 {
      assert n.ptrs[13] as nat in InodeRefs(d, n);
      RdSame(d, e, n.ptrs[13]);
      var l1 := Rd(d, n.ptrs[13]);
      forall t | t in TableRefs(l1)
        ensures Rd(e, t) == Rd(d, t)
      {
        assert t in InodeRefs(d, n);
        RdSame(d, e, t);
      }
    }
  }

  lemma RewrittenSize(d: seq<Block>, e: seq<Block>)
    requires Rewritten(d, e)
    ensures |d| > 1 && |e| > 1 && Mountable(d) && Mountable(e)
    ensures BlocksCount(e) == BlocksCount(d) && InodesCount(e) == InodesCount(d) >= ROOT_INODE
  {
  }

  lemma {:induction false} ChildrenFromSame(d: seq<Block>, e: seq<Block>, n: Inode, k: nat, limit: nat)
    requires Rewritten(d, e) && DirectRefs(n) !! Metadata(d)
    ensures ChildrenFrom(e, n, k, limit) == ChildrenFrom(d, n, k, limit)
    decreases NDIRECT - k
  {
    hide Rewritten, Metadata, Rd, BlockChildren;
    RewrittenSize(d, e);
    if k < NDIRECT {
      if n.ptrs[k] != 0 {
        assert n.ptrs[k] as nat in DirectRefs(n);
        RdSame(d, e, n.ptrs[k]);
      }
      ChildrenFromSame(d, e, n, k + 1, limit);
    }
  }

  lemma ChildrenSame(d: seq<Block>, e: seq<Block>, x: nat)
    requires Rewritten(d, e) && 1 <= x <= InodesCount(d) && InodeRefs(d, DiskNode(d, x)) !! Metadata(d)
    ensures Children(e, x) == Children(d, x)
  {
    hide Rewritten, Metadata, DiskNode, DirectRefs, ChildrenFrom, DecodeSuper;
    RewrittenSize(d, e);
    NodeSame(d, e, x);
    assert DirectRefs(DiskNode(d, x)) <= InodeRefs(d, DiskNode(d, x));
    ChildrenFromSame(d, e, DiskNode(d, x), 0, InodesCount(d));
  }

  /** The last inode of a path in the old image. */
  lemma PathReaches(disk: seq<Block>, p: seq<nat>)
    requires Mountable(disk) && IsPath(disk, p)
    ensures p[|p| - 1] in Reachable(disk)
  {
    hide Mountable, Children, InodesCount;
    MountSize(disk);
    assert EndsAt(disk, p, p[|p| - 1]);
  }

  lemma {:induction false} PathSame(d: seq<Block>, e: seq<Block>, p: seq<nat>)
    requires Rewritten(d, e) && Mountable(d) && Mountable(e) && NoMetaRefs(d)
    ensures IsPath(d, p) <==> IsPath(e, p)
    decreases |p|
  {
    hide Rewritten, Mountable, Children, IsDir, InodesCount, Metadata, InodeRefs, IsPath;
    RewrittenSize(d, e);
    if |p| <= 1 {
      ShortPaths(d, p);
      ShortPaths(e, p);
    } else {
      var q := p[..|p| - 1];
      PathSame(d, e, q);
      assert p == q + [p[|p| - 1]];
      StepPath(d, q, p[|p| - 1]);
      StepPath(e, q, p[|p| - 1]);
      if IsPath(d, q) {
        var x := q[|q| - 1];
        PathReaches(d, q);
        ChildrenSame(d, e, x);
        DirSame(d, e, x);
      }
    }
  }

  lemma DirSame(d: seq<Block>, e: seq<Block>, x: nat)
    requires Rewritten(d, e) && Mountable(d) && Mountable(e) && 1 <= x <= InodesCount(d)
    ensures InodesCount(e) == InodesCount(d) && IsDir(e, x) == IsDir(d, x)
  {
    NodeSame(d, e, x);
  }

  lemma ShortPaths(disk: seq<Block>, p: seq<nat>)
    requires Mountable(disk) && |p| <= 1
    ensures IsPath(disk, p) <==> p == [ROOT_INODE]
  {
  }

  /** A path is a shorter one and a step. */
  lemma StepPath(disk: seq<Block>, q: seq<nat>, c: nat)
    requires Mountable(disk) && q != []
    ensures IsPath(disk, q + [c]) <==>
            && IsPath(disk, q) && 1 <= q[|q| - 1] <= InodesCount(disk)
            && (|q| == 1 || IsDir(disk, q[|q| - 1])) && 1 <= c <= InodesCount(disk) && c in Children(disk, q[|q| - 1])
  {
    hide Mountable, Children, IsDir, InodesCount;
    MountSize(disk);
    var p := q + [c];
    assert p[..|p| - 1] == q;
    if IsPath(disk, p) {
      Shorten(disk, p);
    }
    if IsPath(disk, q) && 1 <= c <= InodesCount(disk) && (|q| == 1 || IsDir(disk, q[|q| - 1]))
        && c in Children(disk, q[|q| - 1]) {
      Extend(disk, q, c);
    }
  }

  lemma ReachSame(d: seq<Block>, e: seq<Block>)
    requires Rewritten(d, e) && Mountable(d) && Mountable(e) && NoMetaRefs(d)
    ensures Reachable(e) == Reachable(d)
  {
    hide Rewritten, Mountable, IsPath, InodesCount, NoMetaRefs;
    RewrittenSize(d, e);
    forall p
      ensures IsPath(d, p) <==> IsPath(e, p)
    {
      PathSame(d, e, p);
    }
    forall x
      ensures Reaches(d, x) <==> Reaches(e, x)
    {
      if Reaches(d, x) {
        var p :| EndsAt(d, p, x);
        assert EndsAt(e, p, x);
      }
      if Reaches(e, x) {
        var p :| EndsAt(e, p, x);
        assert EndsAt(d, p, x);
      }
    }
  }

  lemma InodeBits(disk: seq<Block>, refs: set<nat>, keep: set<nat>, fb: u32, fi: u32, ino: nat)
    requires Mountable(disk) && 1 <= ino <= InodesCount(disk)
    ensures var e := Rewrite(disk, refs, keep, fb, fi); |e| > 1 && (InodeUsed(e, ino) <==> ino in keep)
  {
    hide DecodeSuper, BitmapBlock, PutFree, BitOf;
    RewriteOk(disk, refs, keep, fb, fi);
    var e := Rewrite(disk, refs, keep, fb, fi);
    var bits := BitsOf(keep, 8192, 1);
    assert (ino - 1) / 8192 == 0;
    BitmapRoundTrip(bits, e, InodeBitmapBlock(BlocksCount(disk)), ino - 1);
  }

  lemma BlockBits(disk: seq<Block>, refs: set<nat>, keep: set<nat>, fb: u32, fi: u32, b: nat)
    requires Mountable(disk) && b < BlocksCount(disk)
    ensures BlockUsed(Rewrite(disk, refs, keep, fb, fi), b) <==> b in refs
  {
    hide Mountable, BitmapBlock, DiskBit, Rewrite, BitmapBlocks, BlocksCount, BitsOf;
    MountSize(disk);
    var e := Rewrite(disk, refs, keep, fb, fi);
    var bits := BitsOf(refs, BitmapBlocks(BlocksCount(disk)) * 8192, 0);
    BitFits(b, BlocksCount(disk));
    WholeBytes(BitmapBlocks(BlocksCount(disk)));
    MapRewritten(disk, refs, keep, fb, fi, b / 8192);
    BitmapRoundTrip(bits, e, 2, b);
    BitsOfAt(refs, |bits|, b);
  }

  lemma BitsOfAt(s: set<nat>, n: nat, i: nat)
    requires i < n
    ensures BitsOf(s, n, 0)[i] <==> i in s
  {
  }

  lemma BitFits(b: nat, n: nat)
    requires b < n
    ensures b / 8192 < BitmapBlocks(n) && b < BitmapBlocks(n) * 8192
  {
  }

  lemma WholeBytes(q: nat)
    ensures q * 8192 % 8 == 0
  {
    assert q * 8192 == q * 1024 * 8;
  }

  lemma MapRewritten(disk: seq<Block>, refs: set<nat>, keep: set<nat>, fb: u32, fi: u32, i: nat)
    requires Mountable(disk) && i < BitmapBlocks(BlocksCount(disk))
    ensures var bb := BitmapBlocks(BlocksCount(disk)); var e := Rewrite(disk, refs, keep, fb, fi);
            2 + i < |e| && e[2 + i] == BitmapBlock(BitsOf(refs, bb * 8192, 0), i)
  {
    hide DecodeSuper, BitmapBlock, PutFree, BitsOf;
  }

  /** After a rewrite the marked inodes and blocks are exactly the given ones. */
  lemma RewriteMarks(disk: seq<Block>, refs: set<nat>, keep: set<nat>, fb: u32, fi: u32)
    requires Mountable(disk) && (forall i :: i in keep ==> 1 <= i <= InodesCount(disk))
    requires forall b :: b in refs ==> b < BlocksCount(disk)
    ensures var e := Rewrite(disk, refs, keep, fb, fi); |e| > 1 && UsedInodes(e) == keep && UsedBlocks(e) == refs
  {
    hide Mountable, DecodeSuper, BlockUsed, InodeUsed, Rewrite, BlocksCount, InodesCount;
    MountSize(disk);
    RewriteOk(disk, refs, keep, fb, fi);
    var e := Rewrite(disk, refs, keep, fb, fi);
    RewrittenSize(disk, e);
    forall i | 1 <= i <= InodesCount(disk)
      ensures InodeUsed(e, i) <==> i in keep
    {
      InodeBits(disk, refs, keep, fb, fi, i);
    }
    forall b: nat | b < BlocksCount(disk)
      ensures BlockUsed(e, b) <==> b in refs
    {
      BlockBits(disk, refs, keep, fb, fi, b);
    }
  }

  lemma ReferencedSame(d: seq<Block>, e: seq<Block>, inos: set<nat>)
    requires Rewritten(d, e) && Mountable(d) && Mountable(e) && (forall i :: i in inos ==> 1 <= i <= InodesCount(d))
    requires forall i :: i in inos ==> InodeRefs(d, DiskNode(d, i)) !! Metadata(d)
    ensures InodesCount(e) == InodesCount(d) && Referenced(e, inos) == Referenced(d, inos)
  {
    hide Mountable, Rewritten, InodeRefs, DiskNode, Metadata, BlocksCount, InodesCount;
    RewrittenSize(d, e);
    forall i | i in inos
      ensures DiskNode(e, i) == DiskNode(d, i) && InodeRefs(e, DiskNode(e, i)) == InodeRefs(d, DiskNode(d, i))
    {
      NodeSame(d, e, i);
      RefsSame(d, e, DiskNode(d, i));
    }
  }

  /** Metadata blocks depend only on the geometry. */
  lemma MetadataSame(d: seq<Block>, e: seq<Block>)
    requires Rewritten(d, e)
    ensures |d| > 1 && |e| > 1 && Metadata(e) == Metadata(d)
  {
    hide DecodeSuper;
  }

  /** Repairing keeps the tree: what is reachable and what has to be marked are unchanged. */
  lemma RepairKeepsTree(disk: seq<Block>)
    requires Mountable(disk) && NoMetaRefs(disk)
    ensures var e := Repaired(disk);
            && Rewritten(disk, e) && Mountable(e) && Reachable(e) == Reachable(disk) && NewRefs(e) == NewRefs(disk)
            && UsedInodes(e) == Reachable(disk) && UsedBlocks(e) == NewRefs(disk)
            && DecodeSuper(e[1]).freeBlocks == NewFreeBlocks(disk)
            && DecodeSuper(e[1]).freeInodes == NewFreeInodes(disk)
  {
    hide Mountable, DecodeSuper, InodeRefs, Reachable, Metadata, Referenced, Rewrite, Rewritten;
    MountSize(disk);
    MetaFits(disk);
    var refs, keep := NewRefs(disk), Reachable(disk);
    var fb, fi := NewFreeBlocks(disk), NewFreeInodes(disk);
    RewriteOk(disk, refs, keep, fb, fi);
    RewriteMarks(disk, refs, keep, fb, fi);
    var e := Rewrite(disk, refs, keep, fb, fi);
    RewrittenSize(disk, e);
    ReachSame(disk, e);
    MetadataSame(disk, e);
    ReferencedSame(disk, e, keep);
  }

  /** When every reachable inode is marked no entry names an unmarked one. */
  lemma AllMarked(disk: seq<Block>)
    requires Mountable(disk) && UsedInodes(disk) == Reachable(disk)
    ensures UnmarkedBy(disk, Visited(disk)) == {}
  {
    hide Mountable, DecodeSuper, InodeUsed, Reachable, IsDir, Children;
    MountSize(disk);
    forall d, c | d in Visited(disk) && c in Children(disk, d) && c >= 1
      ensures InodeUsed(disk, c)
    {
      ReachChild(disk, d, c);
      assert c in UsedInodes(disk);
    }
  }

  /** The check of a repaired image reports no leaked block, no block in use but free, no unmarked or
      orphaned inode and no wrong free count. */
  lemma RepairClean(disk: seq<Block>)
    requires Mountable(disk) && NoMetaRefs(disk)
    ensures Mountable(Repaired(disk)) && Findings(Repaired(disk)) == CLEAN
  {
    hide Mountable, DecodeSuper, Reachable, Metadata, Referenced, Repaired, Rewritten, UsedBlocks, UsedInodes;
    RepairKeepsTree(disk);
    var e := Repaired(disk);
    MountSize(disk);
    RewrittenSize(disk, e);
    MetadataSame(disk, e);
    assert Findings(e).under == {} && Findings(e).leaked == {};
    AllMarked(e);
    assert Findings(e).orphans == {};
  }

  lemma PutSame(b: Block, off: nat, v: u32)
    requires off + 4 <= BS && Le32(b, off) == v
    ensures Put32(b, off, v) == b
  {
    Bytes32Back(b, off);
    var w := b[off..off + 4];
    assert w[0] == b[off] && w[1] == b[off + 1] && w[2] == b[off + 2] && w[3] == b[off + 3];
  }

  /** Writing the counts a superblock already has changes nothing. */
  lemma PutFreeSame(b: Block)
    ensures PutFree(b, DecodeSuper(b).freeBlocks, DecodeSuper(b).freeInodes) == b
  {
    PutSame(b, 12, Le32(b, 12));
    PutSame(b, 16, Le32(b, 16));
  }

  lemma RewriteTwice(disk: seq<Block>, refs: set<nat>, keep: set<nat>, fb: u32, fi: u32)
    requires Mountable(disk)
    ensures var e := Rewrite(disk, refs, keep, fb, fi); Mountable(e) && Rewrite(e, refs, keep, fb, fi) == e
  {
    hide Mountable, DecodeSuper, BitmapBlock, BitsOf, PutFree, Rewritten;
    MountSize(disk);
    RewriteOk(disk, refs, keep, fb, fi);
    var e := Rewrite(disk, refs, keep, fb, fi);
    RewrittenSize(disk, e);
    PutFreeSame(e[1]);
  }

  /** A second repair changes nothing. */
  lemma RepairIdempotent(disk: seq<Block>)
    requires Mountable(disk) && NoMetaRefs(disk)
    ensures Mountable(Repaired(disk)) && Repaired(Repaired(disk)) == Repaired(disk)
  {
    hide Mountable, DecodeSuper, Reachable, NewRefs, Rewrite, Rewritten;
    RepairKeepsTree(disk);
    MountSize(disk);
    MetaFits(disk);
    var e := Repaired(disk);
    RewrittenSize(disk, e);
    RewriteTwice(disk, NewRefs(disk), Reachable(disk), NewFreeBlocks(disk), NewFreeInodes(disk));
  }

  // ---- the tool ----

  /** The ownership loop: blocks of the inodes in `inos`. */
  method CollectRefs(disk: seq<Block>, inos: set<nat>) returns (refs: set<nat>)
    requires Mountable(disk) && forall i :: i in inos ==> 1 <= i <= InodesCount(disk)
    ensures refs == Referenced(disk, inos)
  {
    hide Mountable, InodesCount, BlocksCount, DiskNode, InodeRefs, Referenced;
    MountSize(disk);
    refs := {};
    var ino := 1;
    ghost var done: set<nat> := {};
    NoRefs(disk);
    while ino <= InodesCount(disk)
      invariant 1 <= ino <= InodesCount(disk) + 1
      invariant done <= inos && forall i :: i in inos ==> (i in done <==> i < ino)
      invariant refs == Referenced(disk, done)
    {
      if ino in inos {
        RefsNext(disk, done, ino);
        var n := DiskNode(disk, ino);
        if ino >= ROOT_INODE && n.mode != 0 {
          refs := refs + set b | b in InodeRefs(disk, n) && b < BlocksCount(disk);
        }
        done := done + {ino};
      }
      ino := ino + 1;
    }
    assert done == inos;
  }

  lemma NoRefs(disk: seq<Block>)
    requires Mountable(disk)
    ensures Referenced(disk, {}) == {}
  {
  }

  lemma RefsNext(disk: seq<Block>, inos: set<nat>, ino: nat)
    requires Mountable(disk) && 1 <= ino <= InodesCount(disk) && forall i :: i in inos ==> 1 <= i <= InodesCount(disk)
    ensures Referenced(disk, inos + {ino}) ==
            if Counts(disk, ino)
            then Referenced(disk, inos) + set b | b in InodeRefs(disk, DiskNode(disk, ino)) && b < BlocksCount(disk)
            else Referenced(disk, inos)
  {
    hide Mountable, InodesCount, BlocksCount, DiskNode, InodeRefs;
    MountSize(disk);
  }

  // ---- blocks with two owners ----

  const SLOTS := 66062   // NDIRECT + 1 + PTRS + 1 + PTRS * (PTRS + 1)

  /** The slots of an inode in the order `inode_blocks` yields them. */
  function SlotAt(k: nat): Slot {
    if k < NDIRECT then Direct(k)
    else if k == NDIRECT then Single
    else if k < NDIRECT + PTRS + 1 then SingleEntry(k - NDIRECT - 1)
    else if k == NDIRECT + PTRS + 1 then Double
    else
      var m := k - NDIRECT - PTRS - 2;
      if m % (PTRS + 1) == 0 then Level2(m / (PTRS + 1)) else Level2Entry(m / (PTRS + 1), m % (PTRS + 1) - 1)
  }

  lemma SlotsDiffer(k: nat, l: nat)
    requires k != l
    ensures SlotAt(k) != SlotAt(l)
  {
  }

  /** Every slot that can hold a pointer has its turn. */
  lemma SlotTurn(n: Inode, disk: seq<Block>, s: Slot) returns (k: nat)
    requires Ref(n, disk, s) != 0
    ensures k < SLOTS && SlotAt(k) == s
  {
    hide Le32;
    match s
    case Direct(i) => k := i;
    case Single => k := NDIRECT;
    case SingleEntry(e) => k := NDIRECT + 1 + e;
    case Double => k := NDIRECT + PTRS + 1;
    case Level2(a) =>
      k := DeepTurn(a, 0);
    case Level2Entry(a, b) =>
      k := DeepTurn(a, b + 1);
  }

  lemma DeepTurn(a: nat, r: nat) returns (k: nat)
    requires a < PTRS && r <= PTRS
    ensures k < SLOTS && SlotAt(k) == if r == 0 then Level2(a) else Level2Entry(a, r - 1)
  {
    k := NDIRECT + PTRS + 2 + a * (PTRS + 1) + r;
  }

  /** A marked inode refers to block `b` through slot `s`. */
  predicate Claims(disk: seq<Block>, i: nat, s: Slot, b: nat)
    requires Mountable(disk)
  {
    && i in UsedInodes(disk) && Counts(disk, i)
    && 0 < b < BlocksCount(disk) && Ref(DiskNode(disk, i), disk, s) == b
  }

  ghost predicate ClaimedTwice(disk: seq<Block>, b: nat)
    requires Mountable(disk)
  {
    exists i: nat, s: Slot, j: nat, t: Slot :: (i != j || s != t) && Claims(disk, i, s, b) && Claims(disk, j, t, b)
  }

  /** The blocks reported as double-allocated. */
  ghost function Doubled(disk: seq<Block>): set<nat>
    requires Mountable(disk)
  {
    set b | 0 <= b < BlocksCount(disk) && ClaimedTwice(disk, b)
  }

  /** The metadata blocks reported as referenced. */
  function MetaRefs(disk: seq<Block>): set<nat>
    requires Mountable(disk)
  {
    Metadata(disk) * Referenced(disk, UsedInodes(disk))
  }

  predicate Earlier(i: nat, k: nat, ino: nat, turn: nat) { i < ino || (i == ino && k < turn) }

  /** Claimed before inode `ino` had turn `turn`. */
  ghost predicate Once(disk: seq<Block>, ino: nat, turn: nat, b: nat)
    requires Mountable(disk)
  {
    exists i: nat, k: nat :: ClaimedAt(disk, ino, turn, b, i, k)
  }

  predicate ClaimedAt(disk: seq<Block>, ino: nat, turn: nat, b: nat, i: nat, k: nat)
    requires Mountable(disk)
  {
    k < SLOTS && Earlier(i, k, ino, turn) && Claims(disk, i, SlotAt(k), b)
  }

  /** Claimed twice before then. */
  ghost predicate Twice(disk: seq<Block>, ino: nat, turn: nat, b: nat)
    requires Mountable(disk)
  {
    exists i: nat, k: nat, j: nat, l: nat ::
      (i != j || k != l) && ClaimedAt(disk, ino, turn, b, i, k) && ClaimedAt(disk, ino, turn, b, j, l)
  }

  lemma NextTurn(disk: seq<Block>, ino: nat, turn: nat, b: nat)
    requires Mountable(disk) && turn < SLOTS
    ensures Once(disk, ino, turn + 1, b) <==> Once(disk, ino, turn, b) || Claims(disk, ino, SlotAt(turn), b)
    ensures Twice(disk, ino, turn + 1, b) <==>
            Twice(disk, ino, turn, b) || (Once(disk, ino, turn, b) && Claims(disk, ino, SlotAt(turn), b))
  {
    hide Claims, SlotAt, Mountable;
    forall i: nat, k: nat
      ensures ClaimedAt(disk, ino, turn + 1, b, i, k) <==>
              ClaimedAt(disk, ino, turn, b, i, k) || (i == ino && k == turn && Claims(disk, i, SlotAt(k), b))
    {
    }
    if Claims(disk, ino, SlotAt(turn), b) {
      assert ClaimedAt(disk, ino, turn + 1, b, ino, turn);
    }
    if Once(disk, ino, turn, b) && Claims(disk, ino, SlotAt(turn), b) {
      var i: nat, k: nat :| ClaimedAt(disk, ino, turn, b, i, k);
      assert ClaimedAt(disk, ino, turn + 1, b, i, k);
    }
  }

  /** After the last turn, or without one for an inode that does not count, the next inode is up. */
  lemma NextInodeTurn(disk: seq<Block>, ino: nat, turn: nat, b: nat)
    requires Mountable(disk) && (turn == SLOTS || forall s: Slot :: !Claims(disk, ino, s, b))
    ensures Once(disk, ino + 1, 0, b) <==> Once(disk, ino, turn, b)
    ensures Twice(disk, ino + 1, 0, b) <==> Twice(disk, ino, turn, b)
  {
    hide Claims, SlotAt, Mountable;
    SameClaims(disk, ino + 1, 0, ino, turn, b);
    SameClaims(disk, ino, turn, ino + 1, 0, b);
  }

  lemma SameClaims(disk: seq<Block>, ino: nat, turn: nat, ino': nat, turn': nat, b: nat)
    requires Mountable(disk)
    requires forall i: nat, k: nat :: k < SLOTS && Earlier(i, k, ino, turn) && Claims(disk, i, SlotAt(k), b) ==>
               Earlier(i, k, ino', turn')
    ensures Once(disk, ino, turn, b) ==> Once(disk, ino', turn', b)
    ensures Twice(disk, ino, turn, b) ==> Twice(disk, ino', turn', b)
  {
    hide Claims, SlotAt, Mountable, Earlier;
    if Once(disk, ino, turn, b) {
      var i: nat, k: nat :| ClaimedAt(disk, ino, turn, b, i, k);
      assert ClaimedAt(disk, ino', turn', b, i, k);
    }
    if Twice(disk, ino, turn, b) {
      var i: nat, k: nat, j: nat, l: nat :|
        (i != j || k != l) && ClaimedAt(disk, ino, turn, b, i, k) && ClaimedAt(disk, ino, turn, b, j, l);
      assert ClaimedAt(disk, ino', turn', b, i, k) && ClaimedAt(disk, ino', turn', b, j, l);
    }
  }

  lemma AllTurns(disk: seq<Block>, b: nat)
    requires Mountable(disk)
    ensures |disk| > 1 && (Twice(disk, InodesCount(disk) + 1, 0, b) <==> ClaimedTwice(disk, b))
  {
    hide SlotAt, Mountable, InodesCount, Claims;
    MountSize(disk);
    var n := InodesCount(disk);
    if Twice(disk, n + 1, 0, b) {
      var i: nat, k: nat, j: nat, l: nat :|
        (i != j || k != l) && ClaimedAt(disk, n + 1, 0, b, i, k) && ClaimedAt(disk, n + 1, 0, b, j, l);
      if k != l {
        SlotsDiffer(k, l);
      }
      assert Claims(disk, i, SlotAt(k), b) && Claims(disk, j, SlotAt(l), b);
    }
    if ClaimedTwice(disk, b) {
      var i: nat, s: Slot, j: nat, t: Slot :|
        (i != j || s != t) && Claims(disk, i, s, b) && Claims(disk, j, t, b);
      var k := ClaimTurn(disk, i, s, b);
      var l := ClaimTurn(disk, j, t, b);
      assert ClaimedAt(disk, n + 1, 0, b, i, k) && ClaimedAt(disk, n + 1, 0, b, j, l);
    }
  }

  lemma ClaimTurn(disk: seq<Block>, i: nat, s: Slot, b: nat) returns (k: nat)
    requires Mountable(disk) && Claims(disk, i, s, b)
    ensures |disk| > 1 && 1 <= i <= InodesCount(disk) && k < SLOTS && SlotAt(k) == s
  {
    hide SlotAt, DiskNode, Ref;
    k := SlotTurn(DiskNode(disk, i), disk, s);
  }

  /** The lists of owners that `check` keeps, as far as inode `ino` and turn `turn`. */
  ghost predicate OwnersOk(disk: seq<Block>, ino: nat, turn: nat, owner: map<nat, seq<nat>>)
    requires Mountable(disk)
  {
    && (forall b: nat :: b in owner <==> Once(disk, ino, turn, b))
    && (forall b: nat :: b in owner ==> owner[b] != [])
    && (forall b: nat :: b in owner && |owner[b]| > 1 <==> Twice(disk, ino, turn, b))
  }

  /** A block with two entries is double-allocated. */
  method CollectTwice(disk: seq<Block>) returns (twice: set<nat>)
    requires Mountable(disk)
    ensures twice == Doubled(disk)
  {
    hide Mountable, InodesCount, BlocksCount, DiskNode, Claims, OwnersOk;
    MountSize(disk);
    var owner: map<nat, seq<nat>> := map[];
    var ino := 1;
    NoTurns(disk);
    while ino <= InodesCount(disk)
      invariant 1 <= ino <= InodesCount(disk) + 1 && OwnersOk(disk, ino, 0, owner)
    {
      if InodeUsed(disk, ino) && Counts(disk, ino) {
        owner := OwnerTurns(disk, ino, owner);
      } else {
        NoClaims(disk, ino, owner);
      }
      ino := ino + 1;
    }
    twice := set b | b in owner && |owner[b]| > 1;
    OwnersTwice(disk, owner);
  }

  lemma OwnersTwice(disk: seq<Block>, owner: map<nat, seq<nat>>)
    requires Mountable(disk) && |disk| > 1 && OwnersOk(disk, InodesCount(disk) + 1, 0, owner)
    ensures (set b | b in owner && |owner[b]| > 1) == Doubled(disk)
  {
    hide Mountable, InodesCount, BlocksCount, Claims, Once, Twice, ClaimedTwice;
    forall b: nat
      ensures b in owner && |owner[b]| > 1 <==> ClaimedTwice(disk, b)
    {
      AllTurns(disk, b);
    }
    TwiceBelow(disk);
  }

  lemma NoTurns(disk: seq<Block>)
    requires Mountable(disk)
    ensures OwnersOk(disk, 1, 0, map[])
  {
    hide Mountable, SlotAt, DiskNode;
    MountSize(disk);
  }

  lemma NoClaims(disk: seq<Block>, ino: nat, owner: map<nat, seq<nat>>)
    requires Mountable(disk) && 1 <= ino <= InodesCount(disk) && !(InodeUsed(disk, ino) && Counts(disk, ino))
    requires OwnersOk(disk, ino, 0, owner)
    ensures OwnersOk(disk, ino + 1, 0, owner)
  {
    hide Mountable, Once, Twice;
    forall b: nat
      ensures Once(disk, ino + 1, 0, b) <==> Once(disk, ino, 0, b)
      ensures Twice(disk, ino + 1, 0, b) <==> Twice(disk, ino, 0, b)
    {
      NextInodeTurn(disk, ino, 0, b);
    }
  }

  lemma TwiceBelow(disk: seq<Block>)
    requires Mountable(disk)
    ensures |disk| > 1 && forall b: nat :: ClaimedTwice(disk, b) ==> b < BlocksCount(disk)
  {
    hide DiskNode, Ref;
  }

  /** One inode's pointers. */
  method OwnerTurns(disk: seq<Block>, ino: nat, owner: map<nat, seq<nat>>) returns (owner': map<nat, seq<nat>>)
    requires Mountable(disk) && 1 <= ino <= InodesCount(disk) && InodeUsed(disk, ino) && Counts(disk, ino)
    requires OwnersOk(disk, ino, 0, owner)
    ensures OwnersOk(disk, ino + 1, 0, owner')
  {
    hide Mountable, InodesCount, BlocksCount, DiskNode, Once, Twice, SlotAt, Ref, Hits;
    MountSize(disk);
    owner' := owner;
    var n := DiskNode(disk, ino);
    var k := 0;
    while k < SLOTS
      invariant 0 <= k <= SLOTS && OwnersOk(disk, ino, k, owner')
    {
      var r := Ref(n, disk, SlotAt(k)) as nat;
      HitIs(disk, ino, k, r);
      TurnIs(disk, ino, k);
      if 0 < r < BlocksCount(disk) {
        owner' := owner'[r := (if r in owner' then owner'[r] else []) + [ino]];
      }
      k := k + 1;
    }
    forall b: nat
      ensures Once(disk, ino + 1, 0, b) <==> Once(disk, ino, SLOTS, b)
      ensures Twice(disk, ino + 1, 0, b) <==> Twice(disk, ino, SLOTS, b)
    {
      NextInodeTurn(disk, ino, SLOTS, b);
    }
  }

  lemma HitIs(disk: seq<Block>, ino: nat, k: nat, r: nat)
    requires Mountable(disk) && 1 <= ino <= InodesCount(disk) && r == Ref(DiskNode(disk, ino), disk, SlotAt(k))
    ensures |disk| > 1 && forall b: nat :: Hits(disk, ino, k, b) <==> b == r && 0 < r < BlocksCount(disk)
  {
    hide DiskNode, SlotAt, Ref;
  }

  lemma TurnIs(disk: seq<Block>, ino: nat, k: nat)
    requires Mountable(disk) && 1 <= ino <= InodesCount(disk) && InodeUsed(disk, ino) && Counts(disk, ino) && k < SLOTS
    ensures forall b: nat :: Once(disk, ino, k + 1, b) <==> Once(disk, ino, k, b) || Hits(disk, ino, k, b)
    ensures forall b: nat ::
              Twice(disk, ino, k + 1, b) <==> Twice(disk, ino, k, b) || (Once(disk, ino, k, b) && Hits(disk, ino, k, b))
  {
    hide Mountable, Once, Twice, DiskNode, SlotAt, Ref;
    MountSize(disk);
    forall b: nat
      ensures Once(disk, ino, k + 1, b) <==> Once(disk, ino, k, b) || Hits(disk, ino, k, b)
      ensures Twice(disk, ino, k + 1, b) <==>
              Twice(disk, ino, k, b) || (Once(disk, ino, k, b) && Hits(disk, ino, k, b))
    {
      NextTurn(disk, ino, k, b);
    }
  }

  /** Turn `k` of inode `ino` yields block `b`. */
  predicate Hits(disk: seq<Block>, ino: nat, k: nat, b: nat)
    requires Mountable(disk) && 1 <= ino <= InodesCount(disk)
  {
    0 < b < BlocksCount(disk) && Ref(DiskNode(disk, ino), disk, SlotAt(k)) == b
  }

  // ---- the findings, told by slots and paths ----

  /** Some marked inode refers to block `b`. */
  ghost predicate Claimed(disk: seq<Block>, b: nat)
    requires Mountable(disk)
  {
    exists i: nat, s: Slot :: Claims(disk, i, s, b)
  }

  /** A listed block is an entry of the table. */
  lemma RefEntry(disk: seq<Block>, t: nat, b: nat) returns (k: nat)
    requires t != 0 && b in TableRefs(Rd(disk, t))
    ensures k < PTRS && TableAt(disk, t, k) == b && b != 0
  {
    k :| 0 <= k < PTRS && Le32(Rd(disk, t), 4 * k) != 0 && b == Le32(Rd(disk, t), 4 * k);
    assert Le32(Zeros(BS), 4 * k) == 0;
  }

  /** What an inode refers to sits in one of its slots. */
  lemma RefSlot(disk: seq<Block>, n: Inode, b: nat) returns (s: Slot)
    requires b in InodeRefs(disk, n)
    ensures b != 0 && Ref(n, disk, s) == b
  {
    hide Le32;
    if b in DirectRefs(n) {
      var k :| 0 <= k < NDIRECT && n.ptrs[k] == b && n.ptrs[k] != 0;
      s := Direct(k);
    } else if n.ptrs[12] != 0 && b == n.ptrs[12] {
      s := Single;
    } else if n.ptrs[12] != 0 && b in TableRefs(Rd(disk, n.ptrs[12])) {
      var k := RefEntry(disk, n.ptrs[12], b);
      s := SingleEntry(k);
    } else if b == n.ptrs[13] {
      s := Double;
    } else if b in TableRefs(Rd(disk, n.ptrs[13])) {
      var a := RefEntry(disk, n.ptrs[13], b);
      s := Level2(a);
    } else {
      var t :| t in TableRefs(Rd(disk, n.ptrs[13])) && b in TableRefs(Rd(disk, t));
      var a := RefEntry(disk, n.ptrs[13], t);
      var k := RefEntry(disk, t, b);
      s := Level2Entry(a, k);
    }
  }

  lemma TableLists(disk: seq<Block>, t: nat, k: nat)
    requires TableAt(disk, t, k) != 0
    ensures t != 0 && TableAt(disk, t, k) as nat in TableRefs(Rd(disk, t))
  {
    assert Le32(disk[t], 4 * k) as nat in TableRefs(disk[t]);
  }

  /** And what sits in a slot is referred to. */
  lemma SlotRef(disk: seq<Block>, n: Inode, s: Slot)
    requires Ref(n, disk, s) != 0
    ensures Ref(n, disk, s) as nat in InodeRefs(disk, n)
  {
    hide Le32;
    match s
    case Direct(i) => assert n.ptrs[i] as nat in DirectRefs(n);
    case Single =>
    case SingleEntry(k) => TableLists(disk, n.ptrs[12], k);
    case Double =>
    case Level2(a) => TableLists(disk, n.ptrs[13], a);
    case Level2Entry(a, b) =>
      var l2 := TableAt(disk, n.ptrs[13], a);
      TableLists(disk, n.ptrs[13], a);
      TableLists(disk, l2, b);
  }

  lemma ReferencedIs(disk: seq<Block>, b: nat)
    requires Mountable(disk)
    ensures |disk| > 1 && (b in Referenced(disk, UsedInodes(disk)) <==> Claimed(disk, b))
  {
    hide DiskNode, InodeRefs, Ref, Mountable, BlocksCount, InodesCount;
    MountSize(disk);
    if b in Referenced(disk, UsedInodes(disk)) {
      var i :| i in UsedInodes(disk) && Counts(disk, i) && b in InodeRefs(disk, DiskNode(disk, i))
               && b < BlocksCount(disk);
      var s := RefSlot(disk, DiskNode(disk, i), b);
      assert Claims(disk, i, s, b);
    }
    if Claimed(disk, b) {
      var i: nat, s: Slot :| Claims(disk, i, s, b);
      SlotRef(disk, DiskNode(disk, i), s);
    }
  }

  /** A directory the walk opens: the root, or one that some path of entries leads to. */
  ghost predicate Opens(disk: seq<Block>, d: nat)
    requires Mountable(disk)
  {
    1 <= d <= InodesCount(disk) && Reaches(disk, d) && (d == ROOT_INODE || IsDir(disk, d))
  }

  /** One of the entries of an opened directory names `c`. */
  ghost predicate Mentions(disk: seq<Block>, d: nat, c: nat)
    requires Mountable(disk)
  {
    Opens(disk, d) && c in Children(disk, d)
  }

  /** What the check reports, block by block and inode by inode: blocks that are marked without an owner, blocks in use
      that are not marked, entries that name unmarked inodes, marked inodes that no path leads to, and counts that are
      not the number of clear bits. */
  lemma FindingsAre(disk: seq<Block>)
    requires Mountable(disk)
    ensures |disk| > 1
    ensures var r := Findings(disk); var first := FirstData(BlocksCount(disk), InodesCount(disk));
            && (forall b: nat :: b in r.leaked <==>
                  first <= b < BlocksCount(disk) && BlockUsed(disk, b) && !Claimed(disk, b))
            && (forall b: nat :: b in r.under <==>
                  b < BlocksCount(disk) && !BlockUsed(disk, b) && (b < first || Claimed(disk, b)))
            && (forall i: nat :: i in r.orphans <==>
                  FIRST_ORDINARY <= i <= InodesCount(disk) && InodeUsed(disk, i) && !Reaches(disk, i))
            && (forall c: nat :: c in r.unmarked <==>
                  c >= 1 && !InodeUsed(disk, c) && exists d: nat :: Mentions(disk, d, c))
            && (r.wrongBlocks <==>
                DecodeSuper(disk[1]).freeBlocks != |set b | 0 <= b < BlocksCount(disk) && !BlockUsed(disk, b)|)
            && (r.wrongInodes <==>
                DecodeSuper(disk[1]).freeInodes != |set i | 1 <= i <= InodesCount(disk) && !InodeUsed(disk, i)|)
  {
    hide Mountable, DecodeSuper, Referenced, Claimed, BlockUsed, InodeUsed, Reaches, IsDir, Children, BlocksCount,
         InodesCount;
    MountSize(disk);
    MetaInside(disk);
    forall b: nat
      ensures b in Referenced(disk, UsedInodes(disk)) <==> Claimed(disk, b)
      ensures Claimed(disk, b) ==> b < BlocksCount(disk)
      ensures b in Metadata(disk) <==> b < FirstData(BlocksCount(disk), InodesCount(disk))
    {
      ReferencedIs(disk, b);
      ClaimedBelow(disk, b);
      MetaIs(disk, b);
    }
    Complement(UsedBlocks(disk), set b | 0 <= b < BlocksCount(disk) && !BlockUsed(disk, b), 0, BlocksCount(disk));
    Complement(UsedInodes(disk), set i | 1 <= i <= InodesCount(disk) && !InodeUsed(disk, i), 1, InodesCount(disk));
    forall c: nat
      ensures c in UnmarkedBy(disk, Visited(disk)) <==>
              c >= 1 && !InodeUsed(disk, c) && exists d: nat :: Mentions(disk, d, c)
    {
      UnmarkedIs(disk, c);
    }
  }

  lemma MetaInside(disk: seq<Block>)
    requires Mountable(disk)
    ensures |disk| > 1 && FirstData(BlocksCount(disk), InodesCount(disk)) <= BlocksCount(disk)
  {
  }

  lemma ClaimedBelow(disk: seq<Block>, b: nat)
    requires Mountable(disk)
    ensures |disk| > 1 && (Claimed(disk, b) ==> 0 < b < BlocksCount(disk))
  {
    hide DiskNode, Ref;
  }

  lemma UnmarkedIs(disk: seq<Block>, c: nat)
    requires Mountable(disk)
    ensures |disk| > 1
    ensures c in UnmarkedBy(disk, Visited(disk)) <==>
            c >= 1 && !InodeUsed(disk, c) && exists d: nat :: Mentions(disk, d, c)
  {
    hide Mountable, InodeUsed, Reaches, IsDir, Children, InodesCount;
    MountSize(disk);
    if c in UnmarkedBy(disk, Visited(disk)) {
      var d :| d in Visited(disk) && c in Children(disk, d);
      assert Mentions(disk, d, c);
    }
    if c >= 1 && !InodeUsed(disk, c) && exists d: nat :: Mentions(disk, d, c) {
      var d: nat :| Mentions(disk, d, c);
      assert d in Visited(disk);
    }
  }

  /** Two sets that split an interval have as many members as it. */
  lemma {:induction false} Complement(s: set<nat>, t: set<nat>, lo: nat, n: nat)
    requires forall x: nat :: lo <= x < lo + n <==> x in s || x in t
    requires s !! t
    ensures |s| + |t| == n
    decreases n
  {
    if n == 0 {
      assert s == {} && t == {};
    } else {
      var x := lo + n - 1;
      Complement(s - {x}, t - {x}, lo, n - 1);
      assert x in s || x in t;
      assert x in s ==> t - {x} == t;
      assert x in t ==> s - {x} == s;
    }
  }

  /** The part of `check` whose findings a repair removes, and the double-allocated and the metadata blocks that it
      can only report. */
  method Check(disk: seq<Block>) returns (r: Report, twice: set<nat>, meta: set<nat>)
    requires Mountable(disk)
    ensures r == Findings(disk) && twice == Doubled(disk) && meta == MetaRefs(disk)
  {
    hide Mountable, DecodeSuper, Reachable, Referenced, UnmarkedBy, Visited, Metadata, UsedBlocks, Doubled;
    MountSize(disk);
    twice := CollectTwice(disk);
    var refs := CollectRefs(disk, UsedInodes(disk));
    meta := Metadata(disk) * refs;
    var should := Metadata(disk) + refs;
    var marked := UsedBlocks(disk);
    var reach, unmarked := Walk(disk);
    var s := DecodeSuper(disk[1]);
    r := Report(should - marked, marked - should, unmarked,
                (set i | i in UsedInodes(disk) && i >= FIRST_ORDINARY) - reach,
                s.freeBlocks != BlocksCount(disk) - |marked|,
                s.freeInodes != InodesCount(disk) - |UsedInodes(disk)|);
  }

  /** Nothing that a check would report, among the kinds modelled here. */
  ghost predicate Spotless(disk: seq<Block>)
    requires Mountable(disk)
  {
    Findings(disk) == CLEAN && Doubled(disk) == {} && MetaRefs(disk) == {}
  }

  /** `ext2_fsck`: with problems found, here or of the kinds not modelled (`other`), `--repair` rewrites
      the image; afterwards a check finds nothing left to repair. */
  method Fsck(disk: seq<Block>, repair: bool, other: bool) returns (disk': seq<Block>)
    requires Mountable(disk)
    ensures !repair ==> disk' == disk
    ensures repair ==> disk' == if Spotless(disk) && !other then disk else Repaired(disk)
    ensures repair && NoMetaRefs(disk) ==> Mountable(disk') && Findings(disk') == CLEAN
  {
    hide Mountable, Reachable, Referenced, Findings, NewRefs, Rewrite, Doubled, MetaRefs;
    var r, twice, meta := Check(disk);
    if (r == CLEAN && twice == {} && meta == {} && !other) || !repair {
      return disk;
    }
    MountSize(disk);
    var keep, _ := Walk(disk);
    MetaFits(disk);
    var refs := CollectRefs(disk, keep);
    refs := Metadata(disk) + refs;
    RefsAre(disk);
    disk' := Rewrite(disk, refs, keep, BlocksCount(disk) - |refs|, InodesCount(disk) - |keep|);
    if NoMetaRefs(disk) {
      RepairClean(disk);
    }
  }

  lemma RefsAre(disk: seq<Block>)
    requires Mountable(disk)
    ensures |disk| > 1 && NewRefs(disk) == Metadata(disk) + Referenced(disk, Reachable(disk))
  {
  }
}
