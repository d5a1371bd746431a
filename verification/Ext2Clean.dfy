/** When the checker finds nothing wrong with what the kernel wrote: exactly what it reports of an image, and exactly
    which operations leave something to report. */
module Ext2Clean {
  import opened Bytes
  import opened Bitmaps
  import opened Ext2State
  import opened Ext2Ownership
  import opened Ext2Bmap
  import opened Ext2Disk
  import opened Ext2File
  import opened Ext2DirBlock
  import opened Ext2Dir
  import opened Ext2Tree
  import opened Ext2Names
  import opened Ext2Persist
  import opened Ext2Runs
  import opened Ext2Format
  import opened Ext2Room
  import opened Ext2Outcomes
  import opened Ext2Orphans
  import opened Ext2Places
  import opened Ext2Fsck
  import opened Ext2Repair
  import opened Ext2Tight
  import opened Ext2Ledger

  // ---- chains of names ----

  /** A live directory has an entry for `c`. */
  ghost predicate Leads(fs: Fs, d: nat, c: nat) { LiveDir(fs, d) && Named(fs, d, c) }

  /** A chain of such entries down from the root. */
  ghost predicate Route(fs: Fs, p: seq<nat>)
    decreases |p|
  {
    if |p| <= 1 then p == [ROOT_INODE] else Route(fs, p[..|p| - 1]) && Leads(fs, p[|p| - 2], p[|p| - 1])
  }

  ghost predicate Ends(fs: Fs, p: seq<nat>, j: nat) { p != [] && Route(fs, p) && p[|p| - 1] == j }

  ghost predicate Rooted(fs: Fs, j: nat) { exists p: seq<nat> :: Ends(fs, p, j) }

  /** The walk's paths are the kernel's. */
  lemma {:induction false} PathsAgree(disk: seq<Block>, p: seq<nat>)
    requires Mountable(disk) && FsInv(Mount(disk))
    ensures IsPath(disk, p) <==> Route(Mount(disk), p)
    decreases |p|
  {
    hide FsInv, Mount, Mountable, IsPath, IsDir, Children, InodesCount, Named, DiskNode;
    var m := Mount(disk);
    MountFacts(disk);
    if |p| <= 1 {
      ShortPaths(disk, p);
    } else {
      var q, c := p[..|p| - 1], p[|p| - 1];
      assert p == q + [c];
      PathsAgree(disk, q);
      StepPath(disk, q, c);
      if IsPath(disk, p) {
        PathLive(disk, q);
        DirIsLive(disk, q);
        ChildrenNamed(disk, q[|q| - 1], c);
      }
      if Route(m, p) {
        StepIs(disk, q[|q| - 1], c);
      }
    }
  }

  lemma StepIs(disk: seq<Block>, d: nat, c: nat)
    requires Mountable(disk) && FsInv(Mount(disk)) && Leads(Mount(disk), d, c)
    ensures 1 <= d <= InodesCount(disk) && IsDir(disk, d) && 1 <= c <= InodesCount(disk) && c in Children(disk, d)
    ensures Live(Mount(disk), c)
  {
    hide FsInv, Mount, Mountable, Children, InodesCount, DiskNode, Entry;
    MountFacts(disk);
    ChildrenNamed(disk, d, c);
    var n: Name :| !IsDot(n) && Entry(Mount(disk), d, n) == c != 0;
    EntryLive(Mount(disk), d, n);
  }

  lemma ReachesIs(disk: seq<Block>, j: nat)
    requires Mountable(disk) && FsInv(Mount(disk))
    ensures Reaches(disk, j) <==> Rooted(Mount(disk), j)
  {
    hide FsInv, Mount, Mountable, IsPath, Route;
    if Reaches(disk, j) {
      var p :| EndsAt(disk, p, j);
      PathsAgree(disk, p);
      NotEmpty(disk, p);
      assert Ends(Mount(disk), p, j);
    }
    if Rooted(Mount(disk), j) {
      var p: seq<nat> :| Ends(Mount(disk), p, j);
      PathsAgree(disk, p);
      assert EndsAt(disk, p, j);
    }
  }

  // ---- what the checker says of a good image ----

  /** The checker asks this inode which blocks it uses. */
  predicate Asked(disk: seq<Block>, j: nat)
    requires Mountable(disk)
  {
    j in UsedInodes(disk) && Counts(disk, j)
  }

  /** Block `b` is held by an inode the checker does not ask. */
  ghost predicate Hidden(disk: seq<Block>, j: nat, t: Slot, b: nat)
    requires Mountable(disk)
  {
    b != 0 && Own(Mount(disk), j, t) == b && !Asked(disk, j)
  }

  lemma AskedClaims(disk: seq<Block>, j: nat, t: Slot, b: nat)
    requires Mountable(disk) && OwnInv(Mount(disk)) && Own(Mount(disk), j, t) == b != 0 && Asked(disk, j)
    ensures Claims(disk, j, t, b)
  {
    hide Mountable, Mount, DiskNode, OwnInv, InodeUsed, Ref;
    MountFacts(disk);
    OwnedAbove(Mount(disk), j, t);
  }

  /** Leaked are exactly the blocks held by inodes that are not asked. */
  lemma LeakedHidden(disk: seq<Block>, b: nat)
    requires Mountable(disk) && OwnInv(Mount(disk)) && Tight(Mount(disk))
    ensures b in Findings(disk).leaked <==> exists j: nat, t: Slot :: Hidden(disk, j, t, b)
  {
    hide Mountable, Mount, Own, OwnInv, Findings, Asked, Claims, BlockUsed;
    var m := Mount(disk);
    FindingsAre(disk);
    MountFacts(disk);
    FirstIs(m);
    if b in Findings(disk).leaked {
      assert m.blockBits[b];
      var j: nat, t: Slot :| Own(m, j, t) == b;
      if Asked(disk, j) {
        AskedClaims(disk, j, t, b);
      }
      assert Hidden(disk, j, t, b);
    }
    if j: nat, t: Slot :| Hidden(disk, j, t, b) {
      OwnedAbove(m, j, t);
      if Claimed(disk, b) {
        var i: nat, s: Slot :| Claims(disk, i, s, b);
        ClaimOwned(disk, i, s, b);
        SameOwner(m, i, s, j, t);
        ClaimAsked(disk, i, s, b);
      }
    }
  }

  lemma ClaimAsked(disk: seq<Block>, i: nat, s: Slot, b: nat)
    requires Mountable(disk) && Claims(disk, i, s, b)
    ensures Asked(disk, i)
  {
  }

  lemma FirstIs(fs: Fs)
    requires OwnInv(fs)
    ensures Shape(fs) && fs.sup.firstData == FirstData(fs.sup.blocksCount, fs.sup.inodesCount) > 0
  {
    hide Marked, Unshared, FreedClear, CountsOk;
  }

  /** No block in use is unmarked, no entry names an unmarked inode and both counts are right. */
  lemma NothingElse(disk: seq<Block>)
    requires Mountable(disk) && FsInv(Mount(disk)) && Shape(Mount(disk)) && Tight(Mount(disk))
    ensures var r := Findings(disk); r.under == {} && r.unmarked == {} && !r.wrongBlocks && !r.wrongInodes
  {
    hide Mountable, Mount, OwnInv, TreeInv, Findings, BlockUsed, InodeUsed, Claimed, Mentions, InodesCount, BlocksCount,
         DecodeSuper, Tight;
    FindingsAre(disk);
    MountFacts(disk);
    var m := Mount(disk);
    FirstIs(m);
    forall b: nat | b < BlocksCount(disk) && (b < m.sup.firstData || Claimed(disk, b))
      ensures BlockUsed(disk, b)
    {
      InUseMarked(disk, b);
    }
    forall d: nat, c: nat | Mentions(disk, d, c)
      ensures c >= 1 && InodeUsed(disk, c)
    {
      MentionLive(disk, d, c);
    }
    CountsRight(disk);
  }

  lemma CountsRight(disk: seq<Block>)
    requires Mountable(disk) && FsInv(Mount(disk))
    ensures !Findings(disk).wrongBlocks && !Findings(disk).wrongInodes
  {
    hide Mountable, Mount, FsInv, DecodeSuper, UsedBlocks, UsedInodes, InodesCount, BlocksCount;
    CountsAre(disk);
  }

  lemma InUseMarked(disk: seq<Block>, b: nat)
    requires Mountable(disk) && FsInv(Mount(disk)) && Shape(Mount(disk)) && Tight(Mount(disk)) && b < BlocksCount(disk)
    requires b < Mount(disk).sup.firstData || Claimed(disk, b)
    ensures BlockUsed(disk, b)
  {
    hide Mountable, Mount, OwnInv, TreeInv, BlockUsed, Claims, Own;
    MountFacts(disk);
    if Claimed(disk, b) {
      var i: nat, s: Slot :| Claims(disk, i, s, b);
      ClaimOwned(disk, i, s, b);
      OwnedAbove(Mount(disk), i, s);
    }
  }

  lemma MentionLive(disk: seq<Block>, d: nat, c: nat)
    requires Mountable(disk) && FsInv(Mount(disk)) && Mentions(disk, d, c)
    ensures c >= 1 && InodeUsed(disk, c)
  {
    hide Mountable, Mount, FsInv, InodeUsed, Children, IsPath, InodesCount, DiskNode, Entry;
    MountFacts(disk);
    var m := Mount(disk);
    var p :| EndsAt(disk, p, d);
    PathLive(disk, p);
    RootLive(m);
    ChildrenNamed(disk, d, c);
    var n: Name :| !IsDot(n) && Entry(m, d, n) == c != 0;
    EntryLive(m, d, n);
  }

  lemma CountsAre(disk: seq<Block>)
    requires Mountable(disk) && FsInv(Mount(disk))
    ensures |disk| > 1
    ensures DecodeSuper(disk[1]).freeBlocks == BlocksCount(disk) - |UsedBlocks(disk)|
    ensures DecodeSuper(disk[1]).freeInodes == InodesCount(disk) - |UsedInodes(disk)|
  {
    hide Mountable, Mount, TreeInv, Marked, Unshared, FreedClear, BlockUsed, InodeUsed, InodesCount, BlocksCount,
         DecodeSuper, ClearCount;
    MountFacts(disk);
    var m := Mount(disk);
    CountSet(m.blockBits, UsedBlocks(disk), 0, m.sup.blocksCount);
    forall i: nat | i < m.sup.inodesCount
      ensures m.inodeBits[i] <==> i + 1 in UsedInodes(disk)
    {
      assert IsInode(m, i + 1);
    }
    CountSet(m.inodeBits, UsedInodes(disk), 1, m.sup.inodesCount);
  }

  /** An inode the checker does not ask still holds a block: a free one a table, a marked one of number 1 or without
      a type any block. */
  predicate Hoards(disk: seq<Block>, j: nat)
    requires Mountable(disk)
  {
    && |disk| > 1 && 1 <= j <= InodesCount(disk) && !Asked(disk, j)
    && exists k :: (if InodeUsed(disk, j) then 0 else NDIRECT) <= k < 14 && DiskNode(disk, j).ptrs[k] != 0
  }

  lemma HoardsIs(disk: seq<Block>, j: nat)
    requires Mountable(disk)
    ensures Hoards(disk, j) <==> exists t: Slot, b: nat :: Hidden(disk, j, t, b)
  {
    hide Mountable, Mount, DiskNode, InodeUsed, Asked, InodesCount;
    MountFacts(disk);
    var m := Mount(disk);
    if Hoards(disk, j) {
      var k :| (if InodeUsed(disk, j) then 0 else NDIRECT) <= k < 14 && DiskNode(disk, j).ptrs[k] != 0;
      var t := if k < NDIRECT then Direct(k) else if k == 12 then Single else Double;
      assert Own(m, j, t) == DiskNode(disk, j).ptrs[k];
      assert Hidden(disk, j, t, DiskNode(disk, j).ptrs[k]);
    }
    if t: Slot, b: nat :| Hidden(disk, j, t, b) {
      SlotPointer(m, j, t);
    }
  }

  /** Whatever an inode holds, one of its first 14 pointers leads there. */
  lemma SlotPointer(fs: Fs, j: nat, t: Slot)
    requires Own(fs, j, t) != 0
    ensures IsInode(fs, j)
    ensures exists k :: (if Live(fs, j) then 0 else NDIRECT) <= k < 14 && Node(fs, j).ptrs[k] != 0
  {
    var k := match t
      case Direct(i) => i
      case Single => 12
      case SingleEntry(_) => 12
      case Double => 13
      case Level2(_) => 13
      case Level2Entry(_, _) => 13;
    assert Node(fs, j).ptrs[k] != 0;
  }

  /** The check of a good image whose bitmap is exact finds nothing if and only if no inode it does not ask holds a
      block and every ordinary inode in use has a path of names. */
  lemma CheckExact(disk: seq<Block>)
    requires Mountable(disk) && FsInv(Mount(disk)) && Shape(Mount(disk)) && Tight(Mount(disk))
    ensures |disk| > 1
    ensures Findings(disk) == CLEAN <==>
            && (forall j: nat :: !Hoards(disk, j))
            && (forall j: nat :: FIRST_ORDINARY <= j <= InodesCount(disk) && InodeUsed(disk, j) ==> Reaches(disk, j))
  {
    hide Mountable, Mount, FsInv, Findings, InodeUsed, InodesCount, Hoards, Hidden, Tight;
    NothingElse(disk);
    FindingsAre(disk);
    OwnPart(Mount(disk));
    var r := Findings(disk);
    assert r == CLEAN <==> (forall b: nat :: b !in r.leaked) && (forall j: nat :: j !in r.orphans);
    NoneHoards(disk);
  }

  lemma NoneHoards(disk: seq<Block>)
    requires Mountable(disk) && OwnInv(Mount(disk)) && Tight(Mount(disk))
    ensures (forall b: nat :: b !in Findings(disk).leaked) <==> forall j: nat :: !Hoards(disk, j)
  {
    hide Mountable, Mount, OwnInv, Findings, Hoards, Hidden, Tight;
    var leaked := Findings(disk).leaked;
    if forall j: nat :: !Hoards(disk, j) {
      forall b: nat
        ensures b !in leaked
      {
        LeakedHidden(disk, b);
        if j: nat, t: Slot :| Hidden(disk, j, t, b) {
          HoardsIs(disk, j);
          assert false;
        }
      }
    } else {
      var j: nat :| Hoards(disk, j);
      HoardsIs(disk, j);
      var t: Slot, b: nat :| Hidden(disk, j, t, b);
      LeakedHidden(disk, b);
    }
  }

  lemma OwnPart(fs: Fs)
    requires FsInv(fs)
    ensures OwnInv(fs)
  {
  }

  // ---- the same, of the state in memory ----

  predicate HasTables(n: Inode) { n.ptrs[12] != 0 || n.ptrs[13] != 0 }

  predicate Ordinary(j: nat) { j == ROOT_INODE || j > FIRST_FREE_INODE }

  /** Inodes in use are the root and ordinary ones, and have a type. */
  ghost predicate Typed(fs: Fs) { forall j: nat :: Live(fs, j) ==> Ordinary(j) && Node(fs, j).mode != 0 }

  /** No free inode keeps a table, and every ordinary inode in use has a path of names. */
  ghost predicate Neat(fs: Fs) {
    && (forall j: nat :: IsInode(fs, j) && !Live(fs, j) ==> !HasTables(Node(fs, j)))
    && (forall j: nat :: Live(fs, j) && j >= FIRST_ORDINARY ==> Rooted(fs, j))
  }

  ghost predicate StepsKept(fs: Fs, gs: Fs, t: nat) {
    forall d: nat, c: nat :: Leads(fs, d, c) && c != t ==> Leads(gs, d, c)
  }

  /** Where only steps to `t` are lost, and nothing lies behind `t`, all other routes stay. */
  lemma {:induction false} RouteKept(fs: Fs, gs: Fs, t: nat, p: seq<nat>)
    requires StepsKept(fs, gs, t) && (forall c: nat :: !Leads(fs, t, c)) && p != [] && Route(fs, p) && p[|p| - 1] != t
    ensures Route(gs, p)
    decreases |p|
  {
    hide Leads;
    if |p| > 1 {
      RouteKept(fs, gs, t, p[..|p| - 1]);
    }
  }

  lemma RootedKept(fs: Fs, gs: Fs, t: nat, j: nat)
    requires StepsKept(fs, gs, t) && (forall c: nat :: !Leads(fs, t, c)) && Rooted(fs, j) && j != t
    ensures Rooted(gs, j)
  {
    hide Leads, Route, StepsKept;
    var p: seq<nat> :| Ends(fs, p, j);
    RouteKept(fs, gs, t, p);
    assert Ends(gs, p, j);
  }

  lemma NoStepAtZero(fs: Fs, c: nat)
    ensures !Leads(fs, 0, c) && !Leads(fs, c, 0)
  {
    hide Entry;
  }

  /** With every step kept so is every route. */
  lemma AllKept(fs: Fs, gs: Fs, j: nat)
    requires StepsKept(fs, gs, 0) && Rooted(fs, j)
    ensures Rooted(gs, j)
  {
    hide Leads, Rooted, StepsKept;
    forall c: nat
      ensures !Leads(fs, 0, c) && !Leads(fs, c, 0)
    {
      NoStepAtZero(fs, c);
    }
    if j == 0 {
      RootedNotZero(fs);
    } else {
      RootedKept(fs, gs, 0, j);
    }
  }

  lemma RootedNotZero(fs: Fs)
    ensures !Rooted(fs, 0)
  {
    hide Leads;
    forall p: seq<nat>
      ensures !Ends(fs, p, 0)
    {
      if |p| > 1 {
        NoStepAtZero(fs, p[|p| - 2]);
      }
    }
  }

  /** An untouched directory takes the same steps. */
  lemma UntouchedStep(fs: Fs, gs: Fs, d: nat, c: nat)
    requires TreeInv(fs) && Untouched(fs, gs, d)
    ensures Leads(fs, d, c) <==> Leads(gs, d, c)
  {
    hide TreeInv, Entry, Untouched, DirOk;
    UntouchedView(fs, gs, d);
  }

  lemma UntouchedSteps(fs: Fs, gs: Fs)
    requires TreeInv(fs) && forall j: nat :: Untouched(fs, gs, j)
    ensures StepsKept(fs, gs, 0) && StepsKept(gs, fs, 0)
  {
    hide TreeInv, Untouched, Leads;
    forall d: nat, c: nat
      ensures Leads(fs, d, c) <==> Leads(gs, d, c)
    {
      UntouchedStep(fs, gs, d, c);
    }
  }

  /** With typed inodes the check of the written image finds nothing exactly if the state is neat. */
  lemma CleanIs(fs: Fs)
    requires Good(fs) && Shape(fs) && Tight(fs) && Typed(fs)
    ensures Mountable(fs.disk) && (Findings(fs.disk) == CLEAN <==> Neat(fs))
  {
    hide OwnInv, TreeInv, Synced, Mount, Mountable, Tight, Findings, Hoards, Reaches, Rooted, InodeUsed, InodesCount,
         Untouched, HasTables, Typed;
    MountKeepsInv(fs);
    MountTight(fs);
    MountRecovers(fs);
    var m := Mount(fs.disk);
    MountFacts(fs.disk);
    CheckExact(fs.disk);
    UntouchedSteps(fs, m);
    forall j: nat
      ensures Hoards(fs.disk, j) <==> IsInode(fs, j) && !Live(fs, j) && HasTables(Node(fs, j))
      ensures Live(m, j) <==> Live(fs, j)
      ensures Reaches(fs.disk, j) <==> Rooted(fs, j)
    {
      HoardsInMemory(fs, j);
      UntouchedLive(fs, m, j);
      ReachesIs(fs.disk, j);
      if Rooted(fs, j) {
        AllKept(fs, m, j);
      }
      if Rooted(m, j) {
        AllKept(m, fs, j);
      }
    }
  }

  lemma MountTight(fs: Fs)
    requires FsInv(fs) && Synced(fs) && Shape(fs) && Tight(fs)
    ensures Mountable(fs.disk) && Shape(Mount(fs.disk)) && Tight(Mount(fs.disk))
  {
    hide FsInv, Synced, Mount, Mountable, Tight, Accounts, Untouched;
    MountAccounts(fs);
    MountKeepsInv(fs);
    OwnPart(Mount(fs.disk));
    OwnInvShape(Mount(fs.disk));
    AccountsTight(fs, Mount(fs.disk));
  }

  lemma HoardsInMemory(fs: Fs, j: nat)
    requires FsInv(fs) && Synced(fs) && Mountable(fs.disk) && Typed(fs)
    ensures Hoards(fs.disk, j) <==> IsInode(fs, j) && !Live(fs, j) && HasTables(Node(fs, j))
  {
    hide FsInv, Synced, Mount, Mountable, InodeUsed, DiskNode, InodesCount, Untouched;
    MountRecovers(fs);
    MountFacts(fs.disk);
    if IsInode(fs, j) {
      var n, d := Node(fs, j), DiskNode(fs.disk, j);
      assert d.ptrs[12] == n.ptrs[12] && d.ptrs[13] == n.ptrs[13];
    }
  }

  // ---- one operation ----

  /** Unlinking inode `t` would leave something behind: its tables, or what a directory holds. */
  ghost predicate Leaves(fs: Fs, t: nat) {
    IsInode(fs, t) && (HasTables(Node(fs, t)) || (LiveDir(fs, t) && !EmptyDir(fs, t)))
  }

  ghost predicate Strands(fs: Fs, op: Op) {
    op.Unlink? && Resolve(fs, op.dir) != 0 && Leaves(fs, Entry(fs, Resolve(fs, op.dir), op.name))
  }

  /** Free inodes were free, with the same tables; inodes in use were in use, but for `x`, and have a type. */
  ghost predicate Steady(fs: Fs, gs: Fs, x: nat) {
    && (forall j: nat :: IsInode(gs, j) && !Live(gs, j) ==>
          IsInode(fs, j) && !Live(fs, j) && SameTables(Node(fs, j), Node(gs, j)))
    && (forall j: nat :: Live(gs, j) ==> Ordinary(j) && Node(gs, j).mode != 0 && (j != x ==> Live(fs, j)))
  }

  lemma SteadyNeat(fs: Fs, gs: Fs, x: nat)
    requires Neat(fs) && Steady(fs, gs, x) && StepsKept(fs, gs, 0) && (Live(gs, x) ==> Live(fs, x) || Rooted(gs, x))
    ensures Typed(gs) && Neat(gs)
  {
    hide Rooted, StepsKept;
    forall j: nat | Live(gs, j) && j >= FIRST_ORDINARY
      ensures Rooted(gs, j)
    {
      if Live(fs, j) {
        AllKept(fs, gs, j);
      }
    }
  }

  lemma AlikeNeat(fs: Fs, gs: Fs)
    requires FsInv(fs) && Typed(fs) && Neat(fs) && TablesKept(fs, gs) && forall j: nat :: Untouched(fs, gs, j)
    ensures Typed(gs) && Neat(gs)
  {
    hide OwnInv, TreeInv, Neat, StepsKept, Untouched;
    UntouchedSteps(fs, gs);
    forall j: nat
      ensures Live(gs, j) <==> Live(fs, j)
      ensures Live(fs, j) ==> Node(gs, j) == Node(fs, j)
    {
      UntouchedNode(fs, gs, j);
    }
    SteadyNeat(fs, gs, 0);
  }

  /** A new entry: the old steps and one more. */
  lemma BoundSteps(fs: Fs, gs: Fs, p: nat, name: Name, ino: u32)
    requires TreeInv(fs) && Rebound(fs, gs, p, name, ino) && !Live(fs, ino) && ino != 0 && !IsDot(name)
    requires Entry(fs, p, name) == 0 && forall j: nat :: j != p && j != ino ==> Untouched(fs, gs, j)
    ensures StepsKept(fs, gs, 0) && Leads(gs, p, ino)
  {
    hide TreeInv, Entry, Untouched, DirOk;
    ReboundDir(fs, gs, p, name, ino);
    assert Entry(gs, p, name) == ino;
    forall d: nat, c: nat | Leads(fs, d, c)
      ensures Leads(gs, d, c)
    {
      if d == p {
        var n: Name :| !IsDot(n) && Entry(fs, d, n) == c != 0;
        assert Entry(gs, d, n) == c;
      } else {
        UntouchedStep(fs, gs, d, c);
      }
    }
  }

  lemma RootedStep(fs: Fs, d: nat, c: nat)
    requires Rooted(fs, d) && Leads(fs, d, c)
    ensures Rooted(fs, c)
  {
    hide Leads;
    var p: seq<nat> :| Ends(fs, p, d);
    assert (p + [c])[..|p|] == p;
    assert Ends(fs, p + [c], c);
  }

  lemma RootRooted(fs: Fs)
    ensures Rooted(fs, ROOT_INODE)
  {
    assert Ends(fs, [ROOT_INODE], ROOT_INODE);
  }

  lemma UntouchedNode(fs: Fs, gs: Fs, j: nat)
    requires Untouched(fs, gs, j)
    ensures Live(gs, j) <==> Live(fs, j)
    ensures Live(fs, j) ==> Node(gs, j) == Node(fs, j)
  {
    hide Own, SlotData;
  }

  /** Create and mkdir: what the two have in common. */
  lemma BoundNeat(fs: Fs, gs: Fs, p: nat, name: Name, ino: u32)
    requires FsInv(fs) && FsInv(gs) && Typed(fs) && Neat(fs) && TablesKept(fs, gs) && Rebound(fs, gs, p, name, ino)
    requires !Live(fs, ino) && ino > FIRST_FREE_INODE && Live(gs, ino) && Node(gs, ino).mode != 0
             && Entry(fs, p, name) == 0
    requires forall j: nat :: j != p && j != ino ==> Untouched(fs, gs, j)
    ensures Typed(gs) && Neat(gs)
  {
    hide OwnInv, TreeInv, Untouched, Entry, Rooted, StepsKept, Leads, DirOk, SameTables, HasTables;
    DotTaken(fs, p, name);
    BoundSteps(fs, gs, p, name, ino);
    ReboundDir(fs, gs, p, name, ino);
    forall j: nat | j != ino
      ensures Live(gs, j) <==> Live(fs, j)
      ensures Live(fs, j) ==> Node(gs, j).mode != 0
    {
      if j != p {
        UntouchedNode(fs, gs, j);
      }
    }
    if p >= FIRST_ORDINARY {
      AllKept(fs, gs, p);
    }
    RootRooted(gs);
    RootedStep(gs, p, ino);
    SteadyNeat(fs, gs, ino);
  }

  lemma NeatCreate(fs: Fs, p: nat, name: Name, mode: u16)
    requires FsInv(fs) && ParentOk(fs, p) && IsName(name) && Typed(fs) && Neat(fs)
    ensures var gs := CreateIn(fs, p, name, mode).0; Typed(gs) && Neat(gs)
  {
    hide FsInv, CreateIn, Untouched, Entry, Typed, Neat, TablesKept, DirRoom, FreeData, DirOk, Content, Rebound,
         NextInode;
    CreateOk(fs, p, name, mode);
    CreateLedger(fs, p, name, mode);
    CreateExact(fs, p, name, mode);
    var (gs, ino) := CreateIn(fs, p, name, mode);
    if ino == 0 {
      AlikeNeat(fs, gs);
    } else {
      BoundNeat(fs, gs, p, name, ino);
    }
  }

  lemma NeatMkdir(fs: Fs, p: nat, name: Name, mode: u16)
    requires FsInv(fs) && ParentOk(fs, p) && IsName(name) && Typed(fs) && Neat(fs)
    ensures var gs := MkdirIn(fs, p, name, mode).0; Typed(gs) && Neat(gs)
  {
    hide FsInv, MkdirIn, Untouched, Entry, Typed, Neat, TablesKept, DirRoom, FreeData, DirOk, Rebound, NextInode,
         NextBlock;
    MkdirOk(fs, p, name, mode);
    MkdirLedger(fs, p, name, mode);
    MkdirExact(fs, p, name, mode);
    var (gs, ino) := MkdirIn(fs, p, name, mode);
    if ino == 0 {
      AlikeNeat(fs, gs);
    } else {
      BoundNeat(fs, gs, p, name, ino);
    }
  }

  /** A file changes; nothing else does. */
  lemma FileNeat(fs: Fs, gs: Fs, ino: nat)
    requires FsInv(fs) && Typed(fs) && Neat(fs) && OthersSame(fs, gs, ino) && LiveFile(fs, ino) && LiveFile(gs, ino)
    requires Node(gs, ino).mode == Node(fs, ino).mode
    ensures Typed(gs) && Neat(gs)
  {
    hide OwnInv, TreeInv, StepsKept, Leads, Own, SlotData, HasTables, Rooted;
    forall d: nat, c: nat | Leads(fs, d, c)
      ensures Leads(gs, d, c)
    {
      FileStep(fs, gs, ino, d, c);
    }
    assert StepsKept(fs, gs, 0) by {
      AllSteps(fs, gs);
    }
    SteadyNeat(fs, gs, ino);
  }

  lemma AllSteps(fs: Fs, gs: Fs)
    requires forall d: nat, c: nat :: Leads(fs, d, c) ==> Leads(gs, d, c)
    ensures StepsKept(fs, gs, 0)
  {
    hide Leads;
  }

  lemma FileStep(fs: Fs, gs: Fs, ino: nat, d: nat, c: nat)
    requires TreeInv(fs) && OthersSame(fs, gs, ino) && LiveFile(fs, ino) && Leads(fs, d, c)
    ensures Leads(gs, d, c)
  {
    hide TreeInv, Untouched, OthersSame, Named;
    OthersUntouched(fs, gs, ino, d);
    UntouchedStep(fs, gs, d, c);
  }

  lemma NeatWrite(fs: Fs, ino: nat, off: nat, data: seq<byte>)
    requires FsInv(fs) && LiveFile(fs, ino) && off <= Node(fs, ino).size && Typed(fs) && Neat(fs)
    ensures Shape(fs)
    ensures var gs := Write(fs, ino, off, data).0; Typed(gs) && Neat(gs)
  {
    hide TreeInv, OwnInv, Write, OthersSame, NoHoles, Content, StopsWell, Overlay, Typed, Neat;
    OwnInvShape(fs);
    TreeFile(fs, ino);
    if ino < fs.sup.inodesCount {
      WriteRefines(fs, ino, off, data);
      WriteKeepsKind(fs, ino, off, data);
      WritePays(fs, ino, off, data);
      FileNeat(fs, Write(fs, ino, off, data).0, ino);
    } else {
      WriteRejects(fs, ino, off, data);
    }
  }

  lemma NeatTruncate(fs: Fs, ino: nat)
    requires FsInv(fs) && (ino == 0 || LiveFile(fs, ino)) && Typed(fs) && Neat(fs)
    ensures Shape(fs)
    ensures var gs := Truncate(fs, ino).0; Typed(gs) && Neat(gs)
  {
    hide TreeInv, OwnInv, SyncInode, OthersSame, NoHoles, Content, Typed, Neat;
    OwnInvShape(fs);
    if 0 < ino < fs.sup.inodesCount {
      TruncateOk(fs, ino);
      SyncInodeFrame(WithNode(fs, ino, Node(fs, ino).(size := 0)), ino);
      FileNeat(fs, Truncate(fs, ino).0, ino);
    }
  }

  lemma NeatRemount(fs: Fs)
    requires Good(fs) && Typed(fs) && Neat(fs)
    ensures Mountable(fs.disk)
    ensures var gs := Mount(fs.disk); Typed(gs) && Neat(gs)
  {
    hide TreeInv, OwnInv, Synced, Mount, Mountable, Untouched, Typed, Neat;
    MountKeepsInv(fs);
    MountRecovers(fs);
    AlikeNeat(fs, Mount(fs.disk));
  }

  // ---- unlink ----

  /** Unlink changes no record but that of the inode it frees. */
  lemma UnlinkRecords(fs: Fs, p: nat, name: Name)
    requires FsInv(fs) && LiveDir(fs, p) && !IsDot(name) && Typed(fs)
    ensures var (gs, r) := UnlinkIn(fs, p, name); var t := Entry(fs, p, name);
            && Typed(gs) && |gs.inodes| == |fs.inodes|
            && (r == 0 ==> IsInode(fs, t) && !Live(gs, t) && SameTables(Node(fs, t), Node(gs, t)))
            && (forall j: nat :: Live(gs, j) ==> Live(fs, j))
            && (forall j: nat :: IsInode(fs, j) && j != t ==>
                  (Live(gs, j) <==> Live(fs, j)) && Node(gs, j) == Node(fs, j))
  {
    hide FsInv, UnlinkIn, Entry, PointsAt, InUse;
    UnlinkFrees(fs, p, name);
  }

  /** A name is gone: all steps but those to what it named. */
  lemma UnboundSteps(fs: Fs, gs: Fs, p: nat, name: Name, t: nat)
    requires TreeInv(fs) && Rebound(fs, gs, p, name, 0) && Entry(fs, p, name) == t
    requires (LiveDir(fs, t) ==> EmptyDir(fs, t)) && (forall j: nat :: j != p && j != t ==> Untouched(fs, gs, j))
    ensures StepsKept(fs, gs, t) && (forall c: nat :: !Leads(fs, t, c))
  {
    hide TreeInv, Entry, Untouched, DirOk;
    ReboundDir(fs, gs, p, name, 0);
    forall d: nat, c: nat | Leads(fs, d, c) && c != t
      ensures Leads(gs, d, c)
    {
      if d == p {
        var n: Name :| !IsDot(n) && Entry(fs, d, n) == c != 0;
        assert Entry(gs, d, n) == c;
      } else {
        assert d != t;
        UntouchedStep(fs, gs, d, c);
      }
    }
  }

  /** Unlinking a file without tables or an empty directory leaves nothing behind. */
  lemma UnlinkLeavesNothing(fs: Fs, p: nat, name: Name)
    requires FsInv(fs) && LiveDir(fs, p) && !IsDot(name) && Typed(fs) && Neat(fs) && !Leaves(fs, Entry(fs, p, name))
    ensures Neat(UnlinkIn(fs, p, name).0)
  {
    hide OwnInv, TreeInv, UnlinkIn, Entry, Rebound, Untouched, StepsKept, Leads, Rooted, HasTables, EmptyDir, Refused;
    var (gs, r) := UnlinkIn(fs, p, name);
    var t := Entry(fs, p, name);
    UnlinkOk(fs, p, name);
    UnlinkRecords(fs, p, name);
    if t != 0 {
      UnlinkRefusal(fs, p, name);
      UnboundSteps(fs, gs, p, name, t);
      TablesSame(Node(fs, t), Node(gs, t));
      forall j: nat | Live(gs, j) && j >= FIRST_ORDINARY
        ensures Rooted(gs, j)
      {
        RootedKept(fs, gs, t, j);
      }
    }
  }

  lemma TablesSame(n: Inode, m: Inode)
    requires SameTables(n, m)
    ensures HasTables(n) <==> HasTables(m)
  {
  }

  lemma UnnamedNotRooted(fs: Fs, c: nat)
    requires Unreferenced(fs, c) && c != ROOT_INODE
    ensures !Rooted(fs, c)
  {
    hide Entry;
    forall p: seq<nat>
      ensures !Ends(fs, p, c)
    {
    }
  }

  /** A directory with an entry: refused, it has lost its name; removed, what it held has. */
  lemma UnlinkOrphansSome(fs: Fs, p: nat, name: Name)
    requires FsInv(fs) && LiveDir(fs, p) && !IsDot(name) && LiveDir(fs, Entry(fs, p, name))
    requires !EmptyDir(fs, Entry(fs, p, name))
    ensures !Neat(UnlinkIn(fs, p, name).0)
  {
    hide FsInv, UnlinkIn, Entry, Rebound, Untouched, Rooted, Unreferenced, Refused;
    var (gs, r) := UnlinkIn(fs, p, name);
    var t := Entry(fs, p, name);
    var n: Name :| !IsDot(n) && Entry(fs, t, n) != 0;
    UnlinkOk(fs, p, name);
    UnlinkRefusal(fs, p, name);
    UnlinkOrphans(fs, p, name, n);
    if r == 0 {
      EntryHigh(fs, t, n);
      UnnamedNotRooted(gs, Entry(fs, t, n));
    } else {
      EntryHigh(fs, p, name);
      RefusedUnnamed(fs, gs, p, name);
      UnnamedNotRooted(gs, t);
    }
  }

  lemma RefusedUnnamed(fs: Fs, gs: Fs, p: nat, name: Name)
    requires FsInv(fs) && !IsDot(name) && Rebound(fs, gs, p, name, 0) && Entry(fs, p, name) != 0
    requires forall j: nat :: j != p ==> Untouched(fs, gs, j)
    ensures Unreferenced(gs, Entry(fs, p, name))
  {
    hide OwnInv, Entry, Untouched, DirOk, DirsOk, DotsOk, FilesOk, EntriesLive;
    var t := Entry(fs, p, name);
    forall d: nat, n: Name | LiveDir(gs, d) && !IsDot(n)
      ensures Entry(gs, d, n) != t
    {
      if d != p {
        UntouchedView(fs, gs, d);
      }
    }
  }

  lemma UnlinkTablesStay(fs: Fs, p: nat, name: Name)
    requires FsInv(fs) && LiveDir(fs, p) && !IsDot(name) && Typed(fs)
    requires UnlinkIn(fs, p, name).1 == 0 && IsInode(fs, Entry(fs, p, name)) && HasTables(Node(fs, Entry(fs, p, name)))
    ensures !Neat(UnlinkIn(fs, p, name).0)
  {
    hide FsInv, UnlinkIn, Entry, Rooted;
    UnlinkRecords(fs, p, name);
    TablesSame(Node(fs, Entry(fs, p, name)), Node(UnlinkIn(fs, p, name).0, Entry(fs, p, name)));
  }

  /** Unlink keeps the state neat exactly if what it is to remove has no tables and, if a directory, nothing in it. */
  lemma NeatUnlink(fs: Fs, p: nat, name: Name)
    requires FsInv(fs) && LiveDir(fs, p) && !IsDot(name) && Typed(fs) && Neat(fs)
    ensures var gs := UnlinkIn(fs, p, name).0; Typed(gs) && (Neat(gs) <==> !Leaves(fs, Entry(fs, p, name)))
  {
    hide FsInv, UnlinkIn, Entry, Typed, Neat, HasTables, EmptyDir, Refused;
    UnlinkRecords(fs, p, name);
    var t := Entry(fs, p, name);
    if !Leaves(fs, t) {
      UnlinkLeavesNothing(fs, p, name);
    } else if LiveDir(fs, t) && !EmptyDir(fs, t) {
      UnlinkOrphansSome(fs, p, name);
    } else {
      UnlinkRefusal(fs, p, name);
      EntryLive(fs, p, name);
      UnlinkTablesStay(fs, p, name);
    }
  }

  // ---- all operations, all runs ----

  /** Of all operations only an unlink that leaves something behind ends a neat state. */
  lemma ExecNeat(fs: Fs, op: Op)
    requires Good(fs) && Allowed(fs, op) && Typed(fs) && Neat(fs)
    ensures Typed(Exec(fs, op)) && (Neat(Exec(fs, op)) <==> !Strands(fs, op))
  {
    hide OwnInv, TreeInv, Synced, CreateIn, MkdirIn, UnlinkIn, Write, Resolve, Mount, Mountable, Entry, Truncate, Typed,
         Neat, Leaves;
    OwnInvShape(fs);
    match op
    case Create(dir, name, mode) =>
      ResolveLive(fs, dir);
      if Resolve(fs, dir) != 0 {
        NeatCreate(fs, Resolve(fs, dir), name, mode);
      }
    case Mkdir(dir, name, mode) =>
      ResolveLive(fs, dir);
      if Resolve(fs, dir) != 0 {
        NeatMkdir(fs, Resolve(fs, dir), name, mode);
      }
    case WriteAt(ino, off, data) => NeatWrite(fs, ino, off, data);
    case TruncateTo0(path) => NeatTruncate(fs, Resolve(fs, path));
    case Unlink(dir, name) =>
      if Resolve(fs, dir) != 0 {
        NeatUnlink(fs, Resolve(fs, dir), name);
      }
    case Remount =>
      NeatRemount(fs);
  }

  /** An image the checker passes, after one more operation: it passes again exactly if the operation was not an unlink
      of a file with tables or of a directory with entries. */
  lemma ExecClean(fs: Fs, op: Op)
    requires Good(fs) && Allowed(fs, op) && Shape(fs) && Tight(fs) && Typed(fs)
    requires Mountable(fs.disk) && Findings(fs.disk) == CLEAN
    ensures Mountable(Exec(fs, op).disk) && (Findings(Exec(fs, op).disk) == CLEAN <==> !Strands(fs, op))
  {
    hide FsInv, Synced, Exec, Allowed, Mountable, Findings, Typed, Neat, Tight, Strands;
    CleanIs(fs);
    ExecNeat(fs, op);
    ExecTight(fs, op);
    CleanIs(Exec(fs, op));
  }

  /** The checker passes the image now and after each of the operations. */
  ghost predicate StaysClean(fs: Fs, ops: seq<Op>)
    requires Good(fs) && AllAllowed(fs, ops)
    decreases |ops|
  {
    hide FsInv, Synced, Exec, Allowed, Mountable, Findings;
    && Mountable(fs.disk) && Findings(fs.disk) == CLEAN
    && (ops == [] || (ExecGood(fs, ops[0]); StaysClean(Exec(fs, ops[0]), ops[1..])))
  }

  ghost predicate NeverStrands(fs: Fs, ops: seq<Op>)
    requires Good(fs) && AllAllowed(fs, ops)
    decreases |ops|
  {
    hide FsInv, Synced, Exec, Allowed, Strands;
    ops == [] || (ExecGood(fs, ops[0]); !Strands(fs, ops[0]) && NeverStrands(Exec(fs, ops[0]), ops[1..]))
  }

  lemma {:induction false} RunClean(fs: Fs, ops: seq<Op>)
    requires Good(fs) && AllAllowed(fs, ops) && Shape(fs) && Tight(fs) && Typed(fs) && Neat(fs)
    ensures StaysClean(fs, ops) <==> NeverStrands(fs, ops)
    decreases |ops|
  {
    hide Good, Shape, Exec, Allowed, Strands, Mountable, Findings, Tight, Typed, Neat;
    CleanIs(fs);
    if ops != [] {
      var op := ops[0];
      var gs := Exec(fs, op);
      ExecNeat(fs, op);
      ExecTight(fs, op);
      if Strands(fs, op) {
        CleanIs(gs);
      } else {
        RunClean(gs, ops[1..]);
      }
    }
  }

  lemma FormatNeat(n: u32, disk: seq<Block>)
    requires 8 <= n <= MAX_BLOCKS && n <= |disk|
    ensures Typed(Format(n, disk)) && Neat(Format(n, disk))
  {
    hide Format, Fresh, Entry, DotsBlock, Own, RootInode, Rooted;
    FormatRoot(n, disk);
    FormatFrame(n, disk);
    var fs := Format(n, disk);
    RootHasType(fs.sup.firstData);
    forall j: nat | IsInode(fs, j)
      ensures Live(fs, j) <==> j == ROOT_INODE
      ensures j != ROOT_INODE ==> !HasTables(Node(fs, j))
    {
      if j != ROOT_INODE {
        FreshTables(n, disk, j);
      }
    }
  }

  lemma RootHasType(first: u32)
    ensures RootInode(first).mode != 0
  {
  }

  lemma FreshTables(n: u32, disk: seq<Block>, j: nat)
    requires 8 <= n <= MAX_BLOCKS && n <= |disk| && IsInode(Fresh(n, disk), j) && j != ROOT_INODE
    ensures !HasTables(Node(Fresh(n, disk), j))
  {
    hide Fresh;
    FreshOwn(n, disk, j, Single);
    FreshOwn(n, disk, j, Double);
  }

  /** From a formatted disk on, the checker passes every image of a run if and only if the run never unlinks a file
      with tables or a directory with entries. */
  lemma ReachableClean(n: u32, disk: seq<Block>, ops: seq<Op>)
    requires 8 <= n <= MAX_BLOCKS && n <= |disk|
    requires Good(Format(n, disk)) && AllAllowed(Format(n, disk), ops)
    ensures StaysClean(Format(n, disk), ops) <==> NeverStrands(Format(n, disk), ops)
  {
    hide Good, Format, Tight, Typed, Neat, AllAllowed, StaysClean, NeverStrands;
    FormatTight(n, disk);
    FormatNeat(n, disk);
    RunClean(Format(n, disk), ops);
  }

  // ---- two images ----

  /** A file is made, written and unlinked on a formatted disk of 128 blocks: the checker then passes the image exactly
      if the file fitted in its twelve direct blocks. */
  lemma UnlinkedFile(disk: seq<Block>, name: Name, data: seq<byte>) returns (ops: seq<Op>)
    requires |disk| >= 128 && IsName(name) && !IsDot(name) && |data| <= 13 * BS
    ensures ops == [Create([], name, 0), WriteAt(12, 0, data), Unlink([], name)]
    ensures Good(Format(128, disk)) && AllAllowed(Format(128, disk), ops)
    ensures var gs := Run(Format(128, disk), ops);
            Mountable(gs.disk) && (Findings(gs.disk) == CLEAN <==> |data| <= NDIRECT * BS)
  {
    hide OwnInv, TreeInv, Synced, CreateIn, Entry, Format, FreeData, NextInode, Write, UnlinkIn, Mountable, Content,
         IsName, Typed, Neat, Tight, Findings;
    var f0 := Format(128, disk);
    FormatGood(128, disk);
    FormatTight(128, disk);
    FormatNeat(128, disk);
    FirstCreate(disk, name);
    var op1 := Create([], name, 0);
    assert Resolve(f0, []) == ROOT_INODE;
    StepOn(f0, op1);
    var f1 := Exec(f0, op1);
    ContentLength(f1, 12);
    var op2 := WriteAt(12, 0, data);
    StepOn(f1, op2);
    var f2 := Exec(f1, op2);
    OwnInvShape(f1);
    WrittenTable(f1, ROOT_INODE, 12, name, data);
    if |data| <= NDIRECT * BS {
      ShortWrite(f1, 12, 0, data);
      TablesSame(Node(f1, 12), Node(f2, 12));
    }
    var op3 := Unlink([], name);
    assert Resolve(f2, []) == ROOT_INODE;
    StepOn(f2, op3);
    StrandsFile(f2, name, 12);
    CleanIs(Exec(f2, op3));
    ops := [op1] + ([op2] + ([op3] + []));
    Prefixed(f2, op3, []);
    Prefixed(f1, op2, [op3] + []);
    Prefixed(f0, op1, [op2] + ([op3] + []));
  }

  lemma StepOn(fs: Fs, op: Op)
    requires Good(fs) && Allowed(fs, op) && Shape(fs) && Tight(fs) && Typed(fs) && Neat(fs)
    ensures var gs := Exec(fs, op);
            && Good(gs) && Shape(gs) && Tight(gs) && Typed(gs) && (Neat(gs) <==> !Strands(fs, op))
  {
    hide Good, Shape, Exec, Allowed, Strands, Tight, Typed, Neat;
    ExecNeat(fs, op);
    ExecTight(fs, op);
  }

  lemma StrandsFile(fs: Fs, name: Name, t: nat)
    requires Entry(fs, ROOT_INODE, name) == t && LiveFile(fs, t)
    ensures Strands(fs, Unlink([], name)) <==> HasTables(Node(fs, t))
  {
    hide Entry;
  }

  /** The first file of the disk is inode 12, empty and without tables. */
  lemma FirstCreate(disk: seq<Block>, name: Name)
    requires |disk| >= 128 && IsName(name) && !IsDot(name)
    ensures Good(Format(128, disk)) && Allowed(Format(128, disk), Create([], name, 0))
    ensures var gs := Exec(Format(128, disk), Create([], name, 0));
            && FsInv(gs) && LiveFile(gs, 12) && Content(gs, 12) == [] && !HasTables(Node(gs, 12))
            && LiveDir(gs, ROOT_INODE) && Entry(gs, ROOT_INODE, name) == 12 && 12 < gs.sup.inodesCount
            && Shape(gs) && FreeData(gs) >= 114
  {
    hide OwnInv, TreeInv, Synced, CreateIn, Entry, DirOk, DirRoom, Format, FreeData, NextInode, Content, IsName, Own,
         DotsBlock, Untouched, Neat, TablesKept, SameTables, HasTables;
    var f0 := Format(128, disk);
    FormatGood(128, disk);
    FormatRoot(128, disk);
    FormatNeat(128, disk);
    FreshRoom(f0, |name|);
    FirstInode(f0);
    MoreRoom(f0, ROOT_INODE, |name|, FreeData(f0) - 1, FreeData(f0));
    ParentIs(f0, ROOT_INODE);
    CreateExact(f0, ROOT_INODE, name, 0);
    CreateOk(f0, ROOT_INODE, name, 0);
    CreatedNumber(f0, ROOT_INODE, name, 0);
    CreateLedger(f0, ROOT_INODE, name, 0);
    RoomForNew(f0, name);
    assert Resolve(f0, []) == ROOT_INODE;
    var gs := CreateIn(f0, ROOT_INODE, name, 0).0;
    ReboundDir(f0, gs, ROOT_INODE, name, 12);
    OwnInvShape(gs);
    NoTables12(f0, gs);
  }

  lemma FirstInode(fs: Fs)
    requires Shape(fs) && fs.sup.inodesCount == 32
    requires forall k :: 0 <= k < |fs.inodeBits| ==> fs.inodeBits[k] == (k == 1)
    ensures NextInode(fs) == 12 && IsInode(fs, 12) && !Live(fs, 12)
  {
  }

  lemma NoTables12(fs: Fs, gs: Fs)
    requires Neat(fs) && TablesKept(fs, gs) && IsInode(fs, 12) && !Live(fs, 12)
    ensures IsInode(gs, 12) && !HasTables(Node(gs, 12))
  {
    hide Rooted;
  }
}
