/** Back from the checker to the kernel: when a repaired image is again a good filesystem. */
module Ext2Repair {
  import opened Bytes
  import opened Bitmaps
  import opened Ext2State
  import opened Ext2Ownership
  import opened Ext2Bmap
  import opened Ext2Disk
  import opened Ext2File
  import opened Ext2DirBlock
  import opened Ext2Dir
  import opened Ext2Tree
  import opened Ext2Names
  import opened Ext2Persist
  import opened Ext2Runs
  import opened Ext2Format
  import opened Ext2Room
  import opened Ext2Outcomes
  import opened Ext2Orphans
  import opened Ext2Fsck
  import opened Ext2Host

  lemma MountFacts(disk: seq<Block>)
    requires Mountable(disk)
    ensures |disk| > 1
    ensures var m := Mount(disk);
            && m.disk == disk && m.sup == DecodeSuper(disk[1]) && |m.inodes| == InodesCount(disk) == m.sup.inodesCount
            && BlocksCount(disk) == m.sup.blocksCount
            && (forall j: nat :: IsInode(m, j) ==> Node(m, j) == DiskNode(disk, j))
            && (forall j: nat :: IsInode(m, j) ==> (Live(m, j) <==> InodeUsed(disk, j)))
            && (forall b: nat :: b < m.sup.blocksCount ==> m.blockBits[b] == BlockUsed(disk, b))
  {
    hide DecodeSuper, DecodeInode, DiskBit;
  }

  // ---- the checker's children are the kernel's entries ----

  ghost predicate Names2(b: Block, o: nat, c: nat) { exists n: Name :: !IsDot(n) && Find(b, o, n) == c }

  /** In a well-formed block the walk follows exactly the entries lookup finds. */
  lemma {:induction false} BlockNamed(b: Block, o: nat, limit: nat, c: nat)
    requires o <= BS && Tiles(b, o) && Distinct(b, o)
    ensures c in BlockChildren(b, o, limit) <==> 1 <= c <= limit && Names2(b, o, c)
    decreases BS - o
  {
    hide Find, CStr;
    if o == BS {
      FindEnd(b);
    } else {
      PopRecord(b, o);
      var nx := o + RecLen(b, o);
      BlockNamed(b, nx, limit, c);
      assert EntryName(b, o) == RecName(b, o);
      if c in BlockChildren(b, o, limit) {
        if Follows(b, o, limit) && c == RecIno(b, o) {
          assert Find(b, o, RecName(b, o)) == c;
        } else {
          var n: Name :| !IsDot(n) && Find(b, nx, n) == c;
          assert Find(b, o, n) == c;
        }
      }
      if 1 <= c <= limit && Names2(b, o, c) {
        var n: Name :| !IsDot(n) && Find(b, o, n) == c;
        if !(RecIno(b, o) != 0 && n == RecName(b, o)) {
          assert Find(b, nx, n) == c;
        }
      }
    }
  }

  lemma {:induction false} ChildrenIn(disk: seq<Block>, n: Inode, k: nat, limit: nat, c: nat)
    ensures c in ChildrenFrom(disk, n, k, limit) <==>
            exists i :: k <= i < NDIRECT && n.ptrs[i] != 0 && c in BlockChildren(Rd(disk, n.ptrs[i]), 0, limit)
    decreases NDIRECT - k
  {
    hide BlockChildren;
    if k < NDIRECT {
      ChildrenIn(disk, n, k + 1, limit, c);
    }
  }

  lemma ChildrenNamed(disk: seq<Block>, d: nat, c: nat)
    requires Mountable(disk) && FsInv(Mount(disk)) && LiveDir(Mount(disk), d)
    ensures 1 <= d <= InodesCount(disk) && (c in Children(disk, d) <==> Named(Mount(disk), d, c))
  {
    hide OwnInv, TreeInv, Mount, Mountable, Entry, BlockChildren, ChildrenFrom, Find, DiskNode, InodesCount;
    MountFacts(disk);
    var m := Mount(disk);
    TreeDir(m, d);
    var node := Node(m, d);
    var limit := InodesCount(disk);
    ChildrenIn(disk, node, 0, limit, c);
    if c in Children(disk, d) {
      var i :| 0 <= i < NDIRECT && node.ptrs[i] != 0 && c in BlockChildren(Rd(disk, node.ptrs[i]), 0, limit);
      BlockIs(m, d, i);
      BlockNamed(DirBlock(m, d, i), 0, limit, c);
      var n: Name :| !IsDot(n) && Find(DirBlock(m, d, i), 0, n) == c;
      FoundHere(m, d, i, n);
    }
    if Named(m, d, c) {
      var n: Name :| !IsDot(n) && Entry(m, d, n) == c != 0;
      EntryLive(m, d, n);
      var i := FoundWhere(m, d, n);
      BlockIs(m, d, i);
      assert Names2(DirBlock(m, d, i), 0, c);
      BlockNamed(DirBlock(m, d, i), 0, limit, c);
    }
  }

  lemma EntryLive(fs: Fs, d: nat, n: Name)
    requires FsInv(fs) && LiveDir(fs, d) && !IsDot(n) && Entry(fs, d, n) != 0
    ensures Live(fs, Entry(fs, d, n))
  {
    hide OwnInv, Entry, DirsOk, OneParent, DotsOk, FilesOk;
  }

  lemma BlockIs(fs: Fs, d: nat, i: nat)
    requires OwnInv(fs) && DirOk(fs, d) && i < NDIRECT && Node(fs, d).ptrs[i] != 0
    ensures Rd(fs.disk, Node(fs, d).ptrs[i]) == DirBlock(fs, d, i) && Tiles(DirBlock(fs, d, i), 0)
            && Distinct(DirBlock(fs, d, i), 0)
  {
    hide Unshared, FreedClear, CountsOk, Tiles, Distinct, Packed, NamesApart, SizeOk;
    assert Own(fs, d, Direct(i)) == Node(fs, d).ptrs[i];
  }

  lemma FoundHere(fs: Fs, d: nat, i: nat, n: Name)
    requires DirOk(fs, d) && i < NDIRECT && Node(fs, d).ptrs[i] != 0 && Find(DirBlock(fs, d, i), 0, n) != 0
    ensures Entry(fs, d, n) == Find(DirBlock(fs, d, i), 0, n)
  {
    hide Find, Tiles, Distinct, Packed, NamesApart, SizeOk, Entry;
    assert Own(fs, d, Direct(i)) != 0;
    assert BlockFind(fs, d, i, n) != 0;
    EntryBlock(fs, d, n);
  }

  lemma FoundWhere(fs: Fs, d: nat, n: Name) returns (i: nat)
    requires DirOk(fs, d) && Entry(fs, d, n) != 0
    ensures i < NDIRECT && Node(fs, d).ptrs[i] != 0 && Find(DirBlock(fs, d, i), 0, n) == Entry(fs, d, n)
  {
    hide Find, Tiles, Distinct, Packed, NamesApart, SizeOk, Entry;
    EntryBlock(fs, d, n);
    i :| BlockFind(fs, d, i, n) == Entry(fs, d, n);
    assert Own(fs, d, Direct(i)) != 0;
  }

  // ---- reachable inodes are live ----

  lemma {:induction false} PathLive(disk: seq<Block>, p: seq<nat>)
    requires Mountable(disk) && FsInv(Mount(disk)) && IsPath(disk, p)
    ensures Live(Mount(disk), p[|p| - 1])
    decreases |p|
  {
    hide OwnInv, TreeInv, Mount, Mountable, Children, IsDir, InodesCount, Entry, IsPath;
    MountSize(disk);
    RootLive(Mount(disk));
    NotEmpty(disk, p);
    if |p| == 1 {
      ShortPaths(disk, p);
    } else {
      var q := p[..|p| - 1];
      assert p == q + [p[|p| - 1]];
      StepPath(disk, q, p[|p| - 1]);
      PathLive(disk, q);
      var d := q[|q| - 1];
      DirIsLive(disk, q);
      ChildrenNamed(disk, d, p[|p| - 1]);
      var n: Name :| !IsDot(n) && Entry(Mount(disk), d, n) == p[|p| - 1] != 0;
      EntryLive(Mount(disk), d, n);
    }
  }

  lemma NotEmpty(disk: seq<Block>, p: seq<nat>)
    requires Mountable(disk) && IsPath(disk, p)
    ensures p != [] && p[0] == ROOT_INODE
  {
  }

  lemma RootLive(fs: Fs)
    requires FsInv(fs)
    ensures LiveDir(fs, ROOT_INODE)
  {
    hide OwnInv, DirsOk, EntriesLive, OneParent, DotsOk, FilesOk;
  }

  lemma DirIsLive(disk: seq<Block>, q: seq<nat>)
    requires Mountable(disk) && FsInv(Mount(disk)) && q != [] && 1 <= q[|q| - 1] <= InodesCount(disk)
             && Live(Mount(disk), q[|q| - 1])
    requires IsPath(disk, q) && (|q| == 1 || IsDir(disk, q[|q| - 1]))
    ensures LiveDir(Mount(disk), q[|q| - 1])
  {
    hide OwnInv, TreeInv, Mount, Mountable, InodesCount, DiskNode, IsPath;
    MountFacts(disk);
    RootLive(Mount(disk));
    if |q| == 1 {
      ShortPaths(disk, q);
    }
  }

  lemma ReachLive(disk: seq<Block>)
    requires Mountable(disk) && FsInv(Mount(disk))
    ensures forall j :: j in Reachable(disk) ==> Live(Mount(disk), j)
  {
    hide OwnInv, TreeInv, Mount, Mountable, IsPath, InodesCount;
    MountSize(disk);
    forall j | j in Reachable(disk)
      ensures Live(Mount(disk), j)
    {
      assert Reaches(disk, j);
      var p :| EndsAt(disk, p, j);
      PathLive(disk, p);
    }
  }

  /** Entries of reachable directories are reachable. */
  lemma ReachEntry(disk: seq<Block>, d: nat, n: Name)
    requires Mountable(disk) && FsInv(Mount(disk)) && d in Reachable(disk) && LiveDir(Mount(disk), d)
    requires !IsDot(n) && Entry(Mount(disk), d, n) != 0
    ensures Entry(Mount(disk), d, n) in Reachable(disk)
  {
    hide OwnInv, TreeInv, Mount, Mountable, Reachable, Children, InodesCount, DiskNode, Entry;
    MountFacts(disk);
    var c := Entry(Mount(disk), d, n);
    assert Named(Mount(disk), d, c);
    ChildrenNamed(disk, d, c);
    ReachChild(disk, d, c);
  }

  // ---- what inodes refer to is what they own ----

  lemma NoMeta(disk: seq<Block>)
    requires Mountable(disk) && FsInv(Mount(disk))
    ensures NoMetaRefs(disk)
  {
    hide FsInv, Mount, Mountable, InodesCount, DiskNode, InodeRefs, Reachable, Metadata;
    MountFacts(disk);
    ReachLive(disk);
    forall i, b | i in Reachable(disk) && b in InodeRefs(disk, DiskNode(disk, i))
      ensures b !in Metadata(disk)
    {
      RefNotMeta(disk, i, b);
    }
  }

  /** A good filesystem has no double-allocated block and no reference to metadata, so the check reports none. */
  lemma NothingShared(disk: seq<Block>)
    requires Mountable(disk) && FsInv(Mount(disk))
    ensures Doubled(disk) == {} && MetaRefs(disk) == {}
  {
    hide TreeInv, Mount, Mountable, InodesCount, BlocksCount, DiskNode, InodeRefs, Own, FreedClear, CountsOk, Metadata,
         Referenced, Claims;
    MountFacts(disk);
    var m := Mount(disk);
    forall b: nat
      ensures !ClaimedTwice(disk, b)
    {
      if ClaimedTwice(disk, b) {
        var i: nat, s: Slot, j: nat, t: Slot :|
          (i != j || s != t) && Claims(disk, i, s, b) && Claims(disk, j, t, b);
        ClaimOwned(disk, i, s, b);
        ClaimOwned(disk, j, t, b);
      }
    }
    forall b | b in Referenced(disk, UsedInodes(disk))
      ensures b !in Metadata(disk)
    {
      MetaUnowned(disk, b);
    }
  }

  lemma ClaimOwned(disk: seq<Block>, i: nat, s: Slot, b: nat)
    requires Mountable(disk) && Claims(disk, i, s, b)
    ensures b != 0 && Own(Mount(disk), i, s) == b
  {
    hide Mount, Mountable, DiskNode, InodeUsed, Ref;
    MountFacts(disk);
  }

  lemma MetaUnowned(disk: seq<Block>, b: nat)
    requires Mountable(disk) && FsInv(Mount(disk))
    ensures b in Referenced(disk, UsedInodes(disk)) ==> b !in Metadata(disk)
  {
    hide FsInv, Mount, Mountable, DiskNode, InodeRefs, Metadata;
    MountFacts(disk);
    if b in Referenced(disk, UsedInodes(disk)) {
      var i :| i in UsedInodes(disk) && Counts(disk, i) && b in InodeRefs(disk, DiskNode(disk, i));
      RefNotMeta(disk, i, b);
    }
  }

  lemma RefNotMeta(disk: seq<Block>, i: nat, b: nat)
    requires Mountable(disk) && FsInv(Mount(disk)) && Live(Mount(disk), i)
    ensures 1 <= i <= InodesCount(disk)
    ensures b in InodeRefs(disk, DiskNode(disk, i)) ==> b !in Metadata(disk)
  {
    hide TreeInv, Mount, Mountable, InodesCount, BlocksCount, DiskNode, InodeRefs, Own, Unshared, FreedClear, CountsOk;
    MountFacts(disk);
    var m := Mount(disk);
    if b in InodeRefs(disk, DiskNode(disk, i)) {
      RefPositive(disk, DiskNode(disk, i), b);
      RefOwned(m, i, b);
      var t: Slot :| Own(m, i, t) == b;
      OwnedAbove(m, i, t);
    }
  }

  lemma RefPositive(disk: seq<Block>, n: Inode, b: nat)
    requires b in InodeRefs(disk, n)
    ensures b != 0
  {
  }

  lemma OwnedAbove(fs: Fs, i: nat, t: Slot)
    requires OwnInv(fs) && Own(fs, i, t) != 0
    ensures Shape(fs) && FirstData(fs.sup.blocksCount, fs.sup.inodesCount) <= Own(fs, i, t) < fs.sup.blocksCount
    ensures fs.blockBits[Own(fs, i, t)]
  {
    hide Own, Unshared, FreedClear, CountsOk;
  }

  // ---- the repaired filesystem ----

  /** Reachable inodes with blocks have a type, and all other slots hold no pointer but perhaps the first, which
      `ext2_create` clears. */
  ghost predicate Recoverable(disk: seq<Block>)
    requires Mountable(disk)
  {
    forall j :: 1 <= j <= InodesCount(disk) ==> SlotRecovers(disk, j)
  }

  ghost predicate SlotRecovers(disk: seq<Block>, j: nat)
    requires Mountable(disk) && 1 <= j <= InodesCount(disk)
  {
    var n := DiskNode(disk, j);
    && (j !in Reachable(disk) ==> forall k :: 1 <= k <= 13 ==> n.ptrs[k] == 0)
    && (j in Reachable(disk) && n.mode == 0 ==> forall k :: 0 <= k <= 13 ==> n.ptrs[k] == 0)
  }

  /** The two mounted filesystems side by side. */
  ghost predicate RepairedTo(disk: seq<Block>, m: Fs, r: Fs)
    requires Mountable(disk)
  {
    && m == Mount(disk) && Shape(m) && Shape(r) && |r.inodes| == |m.inodes| == InodesCount(disk)
    && |r.disk| == |m.disk| && r.sup == m.sup.(freeBlocks := r.sup.freeBlocks, freeInodes := r.sup.freeInodes)
    && (forall j: nat :: IsInode(m, j) ==>
          Node(r, j) == Node(m, j) == DiskNode(disk, j) && (Live(r, j) <==> j in Reachable(disk)))
    && (forall x :: InodeTableStart(m.sup.blocksCount) <= x < |m.disk| ==> r.disk[x] == m.disk[x])
    && (forall b: nat :: b < m.sup.blocksCount ==> (r.blockBits[b] <==> b in NewRefs(disk)))
  }

  lemma IsRepaired(disk: seq<Block>)
    requires Mountable(disk) && FsInv(Mount(disk))
    ensures Mountable(Repaired(disk)) && RepairedTo(disk, Mount(disk), Mount(Repaired(disk)))
            && CountsOk(Mount(Repaired(disk)))
  {
    hide OwnInv, TreeInv, Mount, Mountable, InodesCount, BlocksCount, DiskNode, Reachable, NewRefs, DecodeSuper,
         Repaired, InodeUsed, BlockUsed, NoMetaRefs, ClearCount;
    NoMeta(disk);
    RepairKeepsTree(disk);
    var e := Repaired(disk);
    MountFacts(disk);
    MountFacts(e);
    RewrittenSize(disk, e);
    RepairedSuper(disk);
    forall j: nat | IsInode(Mount(disk), j)
      ensures DiskNode(e, j) == DiskNode(disk, j)
      ensures InodeUsed(e, j) <==> j in Reachable(disk)
    {
      NodeSame(disk, e, j);
      assert InodeUsed(e, j) <==> j in UsedInodes(e);
    }
    forall b: nat | b < BlocksCount(disk)
      ensures BlockUsed(e, b) <==> b in NewRefs(disk)
    {
      assert BlockUsed(e, b) <==> b in UsedBlocks(e);
    }
    RepairedCounts(disk);
  }

  lemma RepairedSuper(disk: seq<Block>)
    requires Mountable(disk)
    ensures |Repaired(disk)| == |disk| > 1
    ensures var s := DecodeSuper(Repaired(disk)[1]);
            s == DecodeSuper(disk[1]).(freeBlocks := s.freeBlocks, freeInodes := s.freeInodes)
  {
    hide DecodeSuper, Rewrite, NewRefs, Reachable;
    RewriteOk(disk, NewRefs(disk), Reachable(disk), NewFreeBlocks(disk), NewFreeInodes(disk));
  }

  lemma {:induction false} CountSet(bits: seq<bool>, s: set<nat>, shift: nat, n: nat)
    requires n <= |bits| && (forall b: nat :: b in s ==> shift <= b < shift + n)
             && forall b: nat :: b < n ==> (bits[b] <==> b + shift in s)
    ensures ClearCount(bits, n) == n - |s|
    decreases n
  {
    if n == 0 {
      assert s == {};
    } else {
      var t := s - {n - 1 + shift};
      CountSet(bits, t, shift, n - 1);
      if n - 1 + shift in s {
        assert s == t + {n - 1 + shift};
      } else {
        assert s == t;
      }
    }
  }

  lemma RepairedCounts(disk: seq<Block>)
    requires Mountable(disk) && NoMetaRefs(disk)
    ensures Mountable(Repaired(disk)) && CountsOk(Mount(Repaired(disk)))
  {
    hide Mount, Mountable, InodesCount, BlocksCount, DiskNode, Reachable, NewRefs, DecodeSuper, Repaired, InodeUsed,
         BlockUsed, NoMetaRefs, ClearCount;
    RepairKeepsTree(disk);
    var e := Repaired(disk);
    MountFacts(e);
    MetaFits(disk);
    RewrittenSize(disk, e);
    var r := Mount(e);
    var n := r.sup.blocksCount;
    forall b: nat | b < n
      ensures r.blockBits[b] <==> b + 0 in NewRefs(disk)
    {
      assert BlockUsed(e, b) <==> b in UsedBlocks(e);
    }
    CountSet(r.blockBits, NewRefs(disk), 0, n);
    var i := r.sup.inodesCount;
    forall b: nat | b < i
      ensures r.inodeBits[b] <==> b + 1 in Reachable(disk)
    {
      assert IsInode(r, b + 1);
      assert InodeUsed(e, b + 1) <==> b + 1 in UsedInodes(e);
    }
    CountSet(r.inodeBits, Reachable(disk), 1, i);
  }

  /** Unreachable slots lose their direct blocks; all else is owned as before. */
  lemma RepairedOwn(disk: seq<Block>, m: Fs, r: Fs, j: nat, t: Slot)
    requires Mountable(disk) && FsInv(m) && RepairedTo(disk, m, r) && forall j :: j in Reachable(disk) ==> Live(m, j)
    ensures Own(r, j, t) == if t.Direct? && j !in Reachable(disk) then 0 else Own(m, j, t)
  {
    hide TreeInv, Mountable, Mount, Reachable, NewRefs, DiskNode, InodesCount, Unshared, FreedClear, CountsOk;
    if IsInode(m, j) {
      var n := Node(m, j);
      assert Own(m, j, Single) == n.ptrs[12];
      assert Own(m, j, Double) == n.ptrs[13];
      if t.Level2Entry? {
        assert Own(m, j, Level2(t.a)) == TableAt(m.disk, n.ptrs[13], t.a);
      }
      RefFrame(n, m.disk, r.disk, t);
    }
  }

  /** Marked blocks of the data area are owned by reachable inodes with a type. */
  lemma MarkedOwner(disk: seq<Block>, m: Fs, b: nat) returns (i: nat, t: Slot)
    requires Mountable(disk) && m == Mount(disk) && FsInv(m) && b in NewRefs(disk) && b >= m.sup.firstData
    ensures i in Reachable(disk) && Live(m, i) && Node(m, i).mode != 0 && Own(m, i, t) == b
  {
    hide OwnInv, TreeInv, Mount, Mountable, Reachable, DiskNode, InodesCount, BlocksCount, InodeRefs, Own;
    MountFacts(disk);
    ReachLive(disk);
    OwnInvShape(m);
    assert b in Referenced(disk, Reachable(disk));
    i :| i in Reachable(disk) && Counts(disk, i) && b in InodeRefs(disk, DiskNode(disk, i));
    RefPositive(disk, DiskNode(disk, i), b);
    RefOwned(m, i, b);
    t :| Own(m, i, t) == b;
  }

  /** A slot that owns a block without being reachable, or without a type, breaks the repaired filesystem. */
  lemma UnmarkedOwner(disk: seq<Block>, m: Fs, r: Fs, j: nat, t: Slot)
    requires Mountable(disk) && FsInv(m) && RepairedTo(disk, m, r) && IsInode(m, j) && Own(m, j, t) == Own(r, j, t) != 0
    requires j !in Reachable(disk) || Node(m, j).mode == 0
    ensures !OwnInv(r)
  {
    hide TreeInv, Mountable, Mount, Reachable, NewRefs, DiskNode, InodesCount, Own, FreedClear, CountsOk;
    if OwnInv(r) {
      var b := Own(r, j, t);
      OwnedAbove(r, j, t);
      var i, u := MarkedOwner(disk, m, b);
      SameOwner(m, i, u, j, t);
    }
  }

  lemma SameOwner(fs: Fs, i: nat, s: Slot, j: nat, t: Slot)
    requires OwnInv(fs) && Own(fs, i, s) == Own(fs, j, t) != 0
    ensures i == j && s == t
  {
    hide Own, Marked, FreedClear, CountsOk;
  }

  /** The kernel finds all its invariants on a repaired image exactly when the image was recoverable. */
  lemma RepairExact(disk: seq<Block>)
    requires Mountable(disk) && FsInv(Mount(disk))
    ensures Mountable(Repaired(disk)) && (FsInv(Mount(Repaired(disk))) <==> Recoverable(disk))
  {
    hide OwnInv, TreeInv, Mount, Mountable, Reachable, NewRefs, DiskNode, InodesCount, Repaired, Own, RepairedTo,
         CountsOk, SlotRecovers;
    MountSize(disk);
    IsRepaired(disk);
    ReachLive(disk);
    var m := Mount(disk);
    var r := Mount(Repaired(disk));
    if Recoverable(disk) {
      RecoveredOwn(disk, m, r);
      RecoveredTree(disk, m, r);
    } else {
      var j :| 1 <= j <= InodesCount(disk) && !SlotRecovers(disk, j);
      NotRecovered(disk, m, r, j);
    }
  }

  lemma NotRecovered(disk: seq<Block>, m: Fs, r: Fs, j: nat)
    requires Mountable(disk) && FsInv(m) && RepairedTo(disk, m, r) && (forall j :: j in Reachable(disk) ==> Live(m, j))
    requires 1 <= j <= InodesCount(disk) && !SlotRecovers(disk, j)
    ensures !OwnInv(r)
  {
    hide OwnInv, TreeInv, Mount, Mountable, Reachable, NewRefs, DiskNode, InodesCount, Own;
    var n := DiskNode(disk, j);
    var k :| 0 <= k <= 13 && n.ptrs[k] != 0 && (j !in Reachable(disk) ==> k >= 1)
        && (j in Reachable(disk) ==> n.mode == 0);
    if k >= NDIRECT || j in Reachable(disk) {
      var t := if k < NDIRECT then Direct(k) else if k == 12 then Single else Double;
      RepairedOwn(disk, m, r, j, t);
      PtrOwned(m, j, k, t);
      UnmarkedOwner(disk, m, r, j, t);
    } else {
      StaleTail(r, j, k);
    }
  }

  lemma PtrOwned(fs: Fs, j: nat, k: nat, t: Slot)
    requires IsInode(fs, j) && k <= 13 && t == if k < NDIRECT then Direct(k) else if k == 12 then Single else Double
    requires k < NDIRECT ==> Live(fs, j)
    ensures Own(fs, j, t) == Node(fs, j).ptrs[k]
  {
  }

  lemma StaleTail(fs: Fs, j: nat, k: nat)
    requires Shape(fs) && IsInode(fs, j) && !Live(fs, j) && 1 <= k < NDIRECT && Node(fs, j).ptrs[k] != 0
    ensures !OwnInv(fs)
  {
    hide Marked, Unshared, CountsOk;
    assert !DirectTailClear(Node(fs, j));
  }

  lemma RecoveredOwn(disk: seq<Block>, m: Fs, r: Fs)
    requires Mountable(disk) && FsInv(m) && RepairedTo(disk, m, r) && (forall j :: j in Reachable(disk) ==> Live(m, j))
    requires Recoverable(disk) && CountsOk(r)
    ensures OwnInv(r) && forall j: nat, t: Slot :: Own(r, j, t) == if j in Reachable(disk) then Own(m, j, t) else 0
  {
    hide OwnInv, TreeInv, Mount, Mountable, Reachable, NewRefs, DiskNode, InodesCount, Own, CountsOk, SlotRecovers;
    forall j: nat, t: Slot
      ensures Own(r, j, t) == if j in Reachable(disk) then Own(m, j, t) else 0
    {
      RepairedOwn(disk, m, r, j, t);
      if j !in Reachable(disk) && !t.Direct? {
        NothingLeft(disk, m, j, t);
      }
    }
    forall j: nat, t: Slot | Own(r, j, t) != 0
      ensures r.sup.firstData <= Own(r, j, t) < r.sup.blocksCount && r.blockBits[Own(r, j, t)]
    {
      OwnedIsMarked(disk, m, j, t);
    }
    forall i: nat, s: Slot, j: nat, t: Slot | Own(r, i, s) != 0 && Own(r, i, s) == Own(r, j, t)
      ensures i == j && s == t
    {
      SameOwner(m, i, s, j, t);
    }
    forall j: nat | IsInode(r, j) && !Live(r, j)
      ensures DirectTailClear(Node(r, j))
    {
      assert SlotRecovers(disk, j);
      TailCleared(disk, j);
    }
    Assembled(r);
  }

  lemma Assembled(r: Fs)
    requires Shape(r) && CountsOk(r) && Marked(r) && Unshared(r) && FreedClear(r)
    ensures OwnInv(r)
  {
  }

  lemma TailCleared(disk: seq<Block>, j: nat)
    requires Mountable(disk) && 1 <= j <= InodesCount(disk) && SlotRecovers(disk, j) && j !in Reachable(disk)
    ensures DirectTailClear(DiskNode(disk, j)) && DiskNode(disk, j).ptrs[12] == 0 && DiskNode(disk, j).ptrs[13] == 0
  {
    hide DiskNode, Reachable, InodesCount, Mountable;
  }

  lemma NothingLeft(disk: seq<Block>, m: Fs, j: nat, t: Slot)
    requires Mountable(disk) && m == Mount(disk) && Recoverable(disk) && j !in Reachable(disk) && !t.Direct?
    ensures Own(m, j, t) == 0
  {
    hide Mount, Mountable, Reachable, DiskNode, InodesCount, SlotRecovers;
    MountFacts(disk);
    if IsInode(m, j) {
      assert SlotRecovers(disk, j);
      TailCleared(disk, j);
    }
  }

  lemma OwnedIsMarked(disk: seq<Block>, m: Fs, j: nat, t: Slot)
    requires Mountable(disk) && m == Mount(disk) && FsInv(m) && Recoverable(disk) && j in Reachable(disk) && Live(m, j)
    requires Own(m, j, t) != 0
    ensures m.sup.firstData <= Own(m, j, t) < m.sup.blocksCount && Own(m, j, t) as nat in NewRefs(disk)
  {
    hide OwnInv, TreeInv, Mount, Mountable, Reachable, DiskNode, InodesCount, BlocksCount, InodeRefs, Own, SlotRecovers;
    MountFacts(disk);
    OwnedAbove(m, j, t);
    OwnedRef(m, j, t);
    assert SlotRecovers(disk, j);
    HasType(disk, m, j, t);
    ReachAboveRoot(disk, m, j);
    assert Own(m, j, t) as nat in Referenced(disk, Reachable(disk));
  }

  lemma HasType(disk: seq<Block>, m: Fs, j: nat, t: Slot)
    requires Mountable(disk) && 1 <= j <= InodesCount(disk) && SlotRecovers(disk, j) && j in Reachable(disk)
    requires IsInode(m, j) && Node(m, j) == DiskNode(disk, j) && Own(m, j, t) != 0
    ensures DiskNode(disk, j).mode != 0
  {
    hide DiskNode, Reachable, InodesCount, Mountable;
  }

  /** Everything reachable is the root or an ordinary inode. */
  lemma ReachAboveRoot(disk: seq<Block>, m: Fs, j: nat)
    requires Mountable(disk) && m == Mount(disk) && FsInv(m) && j in Reachable(disk)
    ensures j >= ROOT_INODE
  {
    hide OwnInv, TreeInv, Mount, Mountable, Children, IsDir, InodesCount, Entry, IsPath, DiskNode;
    MountSize(disk);
    MountFacts(disk);
    assert Reaches(disk, j);
    var p :| EndsAt(disk, p, j);
    NotEmpty(disk, p);
    if |p| > 1 {
      var q := p[..|p| - 1];
      assert p == q + [j];
      StepPath(disk, q, j);
      PathLive(disk, q);
      DirIsLive(disk, q);
      ChildrenNamed(disk, q[|q| - 1], j);
      var n: Name :| !IsDot(n) && Entry(m, q[|q| - 1], n) == j != 0;
      EntryHigh(m, q[|q| - 1], n);
    }
  }

  lemma EntryHigh(fs: Fs, d: nat, n: Name)
    requires FsInv(fs) && LiveDir(fs, d) && !IsDot(n) && Entry(fs, d, n) != 0
    ensures Entry(fs, d, n) > FIRST_FREE_INODE
  {
    hide OwnInv, Entry, DirsOk, OneParent, DotsOk, FilesOk;
  }

  lemma RecoveredTree(disk: seq<Block>, m: Fs, r: Fs)
    requires Mountable(disk) && FsInv(m) && RepairedTo(disk, m, r) && (forall j :: j in Reachable(disk) ==> Live(m, j))
    requires forall j: nat, t: Slot :: Own(r, j, t) == if j in Reachable(disk) then Own(m, j, t) else 0
    ensures TreeInv(r)
  {
    hide OwnInv, TreeInv, Mount, Mountable, Reachable, NewRefs, DiskNode, InodesCount, Own, Entry;
    forall j: nat | Live(r, j)
      ensures Live(m, j) && Untouched(m, r, j)
    {
      forall t: Slot
        ensures SlotData(r, j, t) == SlotData(m, j, t)
      {
        if Own(m, j, t) != 0 {
          OwnedAbove(m, j, t);
        }
      }
    }
    RootLive(m);
    RootReachable(disk);
    forall d: nat, n: Name | LiveDir(r, d) && !IsDot(n) && Entry(m, d, n) != 0
      ensures Live(r, Entry(m, d, n))
    {
      ReachEntry(disk, d, n);
      EntryLive(m, d, n);
    }
    SubTree(m, r);
  }

  /** Keeping a set of inodes that is closed under entries keeps the tree. */
  lemma SubTree(fs: Fs, gs: Fs)
    requires TreeInv(fs) && LiveDir(gs, ROOT_INODE)
    requires forall j: nat :: Live(gs, j) ==> Live(fs, j) && Untouched(fs, gs, j)
    requires forall d: nat, n: Name :: LiveDir(gs, d) && !IsDot(n) && Entry(fs, d, n) != 0 ==> Live(gs, Entry(fs, d, n))
    ensures TreeInv(gs)
  {
    hide Entry, FileOk, DirOk, Untouched, LiveDir, LiveFile, Live;
    KindSplit(gs, ROOT_INODE);
    forall j: nat | Live(gs, j)
      ensures LiveDir(gs, j) <==> LiveDir(fs, j)
      ensures LiveFile(gs, j) <==> LiveFile(fs, j)
      ensures LiveDir(fs, j) ==> DirOk(gs, j) && forall n: Name :: Entry(gs, j, n) == Entry(fs, j, n)
      ensures LiveFile(fs, j) ==> FileOk(gs, j)
    {
      UntouchedView(fs, gs, j);
      KindSplit(fs, j);
      KindSplit(gs, j);
    }
    forall j: nat
      ensures LiveDir(gs, j) ==> Live(gs, j)
      ensures LiveFile(gs, j) ==> Live(gs, j)
    {
      KindSplit(gs, j);
    }
  }

  // ---- unlinked files with tables ----

  lemma {:induction false} FreeDirectsTrees(fs: Fs, t: nat, k: nat)
    requires Shape(fs) && IsInode(fs, t)
    ensures Node(FreeDirects(fs, t, k), t).ptrs[12] == Node(fs, t).ptrs[12]
    decreases NDIRECT - k
  {
    if k < NDIRECT {
      FreeDirectsTrees(FreeDirect(fs, t, k), t, k + 1);
    }
  }

  lemma UnlinkKeepsTable(fs: Fs, p: nat, name: Name)
    requires FsInv(fs) && LiveDir(fs, p) && !IsDot(name) && Entry(fs, p, name) != 0 && LiveFile(fs, Entry(fs, p, name))
    ensures var gs := UnlinkIn(fs, p, name).0; var t := Entry(fs, p, name);
            IsInode(gs, t) && !Live(gs, t) && Node(gs, t).ptrs[12] == Node(fs, t).ptrs[12]
  {
    hide OwnInv, TreeInv, RemoveFrom, Entry, Rebound, Unreferenced, Tiles, BlocksOk, CountUsed, DirOk, Untouched,
         FreeDirects, SyncInode, CommitMaps;
    UnlinkFacts(fs, p, name);
    UnlinkOk(fs, p, name);
    var (f1, t) := RemoveFrom(fs, p, 0, name);
    UntouchedKind(fs, f1, t);
    OwnInvShape(f1);
    FreeDirectsTrees(f1, t, 0);
    var f2 := FreeDirects(f1, t, 0);
    SyncInodeFrame(WithNode(f2, t, Node(f2, t).(links := 0, size := 0, blocks := 0)), t);
  }

  /** Once a file with a single indirect table has been unlinked, the image is no longer recoverable: a repair frees
      the table that the freed slot still points to. */
  lemma UnlinkedTableLost(fs: Fs, p: nat, name: Name)
    requires FsInv(fs) && Synced(fs) && LiveDir(fs, p) && !IsDot(name) && Entry(fs, p, name) != 0
    requires LiveFile(fs, Entry(fs, p, name)) && Node(fs, Entry(fs, p, name)).ptrs[12] != 0
    ensures var gs := UnlinkIn(fs, p, name).0;
            && FsInv(gs) && Synced(gs) && Mountable(gs.disk) && !Recoverable(gs.disk)
            && Mountable(Repaired(gs.disk)) && !FsInv(Mount(Repaired(gs.disk)))
  {
    hide OwnInv, TreeInv, Synced, UnlinkIn, Entry, Mount, Mountable, Reachable, DiskNode, InodesCount, Repaired,
         Untouched, Rebound;
    UnlinkOk(fs, p, name);
    UnlinkSyncs(fs, p, name);
    UnlinkKeepsTable(fs, p, name);
    var gs := UnlinkIn(fs, p, name).0;
    var t := Entry(fs, p, name);
    MountKeepsInv(gs);
    MountRecovers(gs);
    MountFacts(gs.disk);
    ReachLive(gs.disk);
    var n := DiskNode(gs.disk, t);
    assert n.ptrs[12] == Node(gs, t).ptrs[12];
    assert !SlotRecovers(gs.disk, t);
    RepairExact(gs.disk);
  }

  /** A file of 13 blocks made, written and unlinked on a formatted disk of 128 blocks. */
  lemma LostTableWitness(disk: seq<Block>, name: Name) returns (ops: seq<Op>)
    requires |disk| >= 128 && IsName(name) && !IsDot(name)
    ensures Good(Format(128, disk)) && AllAllowed(Format(128, disk), ops)
    ensures var gs := Run(Format(128, disk), ops);
            && FsInv(gs) && Mountable(gs.disk) && Mountable(Repaired(gs.disk)) && !FsInv(Mount(Repaired(gs.disk)))
  {
    hide OwnInv, TreeInv, Synced, CreateIn, Entry, Untouched, DirOk, DirRoom, Format, FreeData, NextInode, Write,
         UnlinkIn, Mount, Mountable, Repaired, Content, NoHoles, IsName, Own, DotsBlock, StopsWell, OthersSame,
         Overlay, ClearIn;
    var f0 := Format(128, disk);
    FormatGood(128, disk);
    FormatRoot(128, disk);
    FreshRoom(f0, |name|);
    MoreRoom(f0, ROOT_INODE, |name|, FreeData(f0) - 1, FreeData(f0));
    ParentIs(f0, ROOT_INODE);
    CreateExact(f0, ROOT_INODE, name, 0);
    CreateOk(f0, ROOT_INODE, name, 0);
    CreatedNumber(f0, ROOT_INODE, name, 0);
    RoomForNew(f0, name);
    var op1 := Create([], name, 0);
    assert Resolve(f0, []) == ROOT_INODE;
    ExecGood(f0, op1);
    var (f1, ino) := CreateIn(f0, ROOT_INODE, name, 0);
    var data := Zeros(13 * BS);
    ContentLength(f1, ino);
    var op2 := WriteAt(ino, 0, data);
    ExecGood(f1, op2);
    OwnInvShape(f1);
    ReboundDir(f0, f1, ROOT_INODE, name, ino);
    var f2 := Write(f1, ino, 0, data).0;
    WrittenTable(f1, ROOT_INODE, ino, name, data);
    var op3 := Unlink([], name);
    assert Resolve(f2, []) == ROOT_INODE;
    ExecGood(f2, op3);
    UnlinkedTableLost(f2, ROOT_INODE, name);
    var f3 := UnlinkIn(f2, ROOT_INODE, name).0;
    ops := [op1] + ([op2] + ([op3] + []));
    Prefixed(f2, op3, []);
    Prefixed(f1, op2, [op3] + []);
    Prefixed(f0, op1, [op2] + ([op3] + []));
  }

  lemma RoomForNew(fs: Fs, name: Name)
    requires ParentOk(fs, ROOT_INODE) && LiveDir(fs, ROOT_INODE) && IsName(name)
             && CreateIn(fs, ROOT_INODE, name, 0).1 != 0
    requires Shape(fs) && FreeData(fs) >= 115
    ensures var gs := CreateIn(fs, ROOT_INODE, name, 0).0; Shape(gs) && FreeData(gs) >= 114
  {
    hide OwnInv, DirOk, NextInode, BlocksOk, AddFrom, FreeData, CreateIn, BornFile, Commit;
    CreateParts(fs, ROOT_INODE, name, 0);
    BornFileFree(fs, 0);
    var ino := NextInode(fs);
    AddUses(BornFile(fs, 0), ROOT_INODE, 0, ino, name, 1);
    var f3 := AddFrom(BornFile(fs, 0), ROOT_INODE, 0, ino, name, 1).0;
    SameFree(f3, Commit(f3, ino));
  }

  /** A new file of up to 13 blocks is written in full, and with more than 12 it has a single indirect table. */
  lemma WrittenTable(fs: Fs, p: nat, ino: nat, name: Name, data: seq<byte>)
    requires FsInv(fs) && LiveFile(fs, ino) && ino < fs.sup.inodesCount && |data| <= 13 * BS && Content(fs, ino) == []
    requires LiveDir(fs, p) && Entry(fs, p, name) == ino && Shape(fs) && FreeData(fs) >= 114
    ensures var gs := Write(fs, ino, 0, data).0;
            && FsInv(gs) && LiveFile(gs, ino) && LiveDir(gs, p) && Entry(gs, p, name) == ino
            && Node(gs, ino).size == |data| && (|data| > 12 * BS ==> Node(gs, ino).ptrs[12] != 0)
  {
    hide OwnInv, TreeInv, Entry, Untouched, Write, Content, NoHoles, OthersSame, FreeData, Own, WriteLoop;
    ContentLength(fs, ino);
    TreeFile(fs, ino);
    WriteRefines(fs, ino, 0, data);
    WriteKeepsInv(fs, ino, 0, data);
    WriteKeepsKind(fs, ino, 0, data);
    var (gs, n) := Write(fs, ino, 0, data);
    WriteUses(fs, ino, 0, data);
    NextBlockExact(gs);
    assert n == |data|;
    ContentLength(gs, ino);
    if |data| > 12 * BS {
      TableThere(gs, ino);
    }
    OthersUntouched(fs, gs, ino, p);
    UntouchedDir(fs, gs, p);
  }

  lemma TableThere(fs: Fs, ino: nat)
    requires Live(fs, ino) && NoHoles(fs, ino) && Node(fs, ino).size > 12 * BS
    ensures Node(fs, ino).ptrs[12] != 0
  {
    assert DataRef(fs, ino, 12) != 0;
    assert DataSlot(12) == SingleEntry(0);
  }
}
