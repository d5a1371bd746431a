/** Which blocks the host tool loses: none, but for the tables that a free inode still held. */
module Ext2HostTight {
  import opened Bytes
  import opened Ext2State
  import opened Ext2Ownership
  import opened Ext2Bmap
  import opened Ext2Disk
  import opened Ext2File
  import opened Ext2DirBlock
  import opened Ext2Dir
  import opened Ext2Tree
  import opened Ext2Names
  import opened Ext2Persist
  import opened Ext2Padding
  import opened Ext2Fsck
  import opened Ext2HostFile
  import opened Ext2HostInstall
  import opened Ext2HostOk
  import opened Ext2Host
  import opened Ext2HostCut
  import opened Ext2HostPut
  import opened Ext2Interop
  import opened Ext2Tight
  import opened Ext2Clean

  /** Same layout, and block `b`, if it is metadata, is marked as it was. */
  ghost predicate MetaKept(fs: Fs, gs: Fs, b: nat)
    requires Shape(fs) && Shape(gs)
  {
    && gs.sup.firstData == fs.sup.firstData && gs.sup.blocksCount == fs.sup.blocksCount
    && (b < fs.sup.firstData ==> gs.blockBits[b] == fs.blockBits[b])
  }

  /** Every block of the run has its slot. */
  lemma RunSlot(n: nat, i: nat) returns (s: Slot)
    requires i < Total(n)
    ensures SlotIndex(n, s) == i
  {
    if i < n {
      s := DataSlot(i);
      DataSlotIndex(n, i);
    } else if i == n {
      s := Single;
    } else if i == n + 1 {
      s := Double;
    } else {
      s := Level2(i - n - 2);
    }
  }

  /** After the installation the run is marked too, `ino` holds it and nothing else, and other inodes hold what they
      held. */
  ghost predicate HoldsRun(fs: Fs, gs: Fs, ino: nat, bits: seq<bool>, all: seq<nat>, n: nat)
    requires Shape(fs) && |bits| == |fs.blockBits|
  {
    && Shape(gs) && gs.sup.firstData == fs.sup.firstData && gs.sup.blocksCount == fs.sup.blocksCount
    && |all| == Total(n) && (forall i :: 0 <= i < |all| ==> fs.sup.firstData <= all[i] < |bits| && !bits[all[i]])
    && |gs.blockBits| == |bits| && (forall b :: 0 <= b < |bits| ==> (gs.blockBits[b] <==> bits[b] || b in all))
    && (forall t: Slot :: Own(gs, ino, t) == RunBlock(all, n, t))
    && (forall j: nat, t: Slot :: j != ino ==> Own(gs, j, t) == Own(fs, j, t))
  }

  lemma InstalledRun(fs: Fs, gs: Fs, ino: nat, bits: seq<bool>, disk: seq<Block>, node: Inode, data: seq<byte>)
    returns (all: seq<nat>)
    requires OwnInv(fs) && Shape(fs) && IsInode(fs, ino) && |bits| == |fs.blockBits| && OnlyOwnCleared(fs, ino, bits)
    requires Installed(fs, gs, ino, bits, disk, node, data)
    ensures HoldsRun(fs, gs, ino, bits, all, DataBlocks(|data|))
  {
    hide OwnInv, Untouched, Own, Laid, RunPtrs, Blank, Reserve, OnlyOwnCleared, Adopted, SlotData, NoPtrs, Total,
         DataBlocks, RunBlock, SyncInode, CountsOk;
    var n0 := Stripped(node);
    BlankOk(fs, ino, n0, bits);
    var z := Blank(fs, ino, n0, bits);
    OwnCounts(z);
    ReserveOk(z, Total(DataBlocks(|data|)));
    var (r, run) := Reserve(z, Total(DataBlocks(|data|)));
    all := run;
    ReserveOwn(z, r, all);
    BlankFacts(fs, ino, n0, bits);
    BlankMaps(fs, ino, n0, bits);
    IsAdopted(fs, r, gs, ino, disk, node, all, data);
    RunIsMarked(z, r, all);
    AdoptedMaps(r, gs, ino, node, all, data);
    forall t: Slot
      ensures Own(gs, ino, t) == RunBlock(all, DataBlocks(|data|), t)
    {
      AdoptedSelf(r, gs, ino, node, all, data, t);
    }
    forall j: nat, t: Slot | j != ino
      ensures Own(gs, j, t) == Own(fs, j, t)
    {
      AdoptedOther(r, gs, ino, node, all, data, j, t);
      BlankOwn(fs, ino, n0, bits, j, t);
    }
  }

  lemma AdoptedMaps(r: Fs, gs: Fs, ino: nat, node: Inode, all: seq<nat>, data: seq<byte>)
    requires Shape(r) && IsInode(r, ino) && Adopted(r, gs, ino, node, all, data)
    ensures Shape(gs) && gs.blockBits == r.blockBits && gs.sup == r.sup && |all| == Total(DataBlocks(|data|))
  {
    hide Laid, RunPtrs;
    LaidTotal(gs.disk, all, data);
  }

  /** What is lost afterwards: what was lost before, and what the inode held without its bit being cleared. */
  lemma InstalledLost(fs: Fs, gs: Fs, ino: nat, bits: seq<bool>, all: seq<nat>, n: nat, b: nat)
    requires OwnInv(fs) && Shape(fs) && |bits| == |fs.blockBits| && OnlyOwnCleared(fs, ino, bits)
    requires HoldsRun(fs, gs, ino, bits, all, n)
    ensures Lost(gs, b) <==> Lost(fs, b) || (0 != b < |bits| && bits[b] && OwnsBlock(fs, ino, b))
    ensures MetaKept(fs, gs, b)
  {
    hide Own, RunBlock, Total, CountsOk, FreedClear, Unshared, Marked;
    FirstPositive(fs);
    MetaUnheld(fs, ino, b);
    RunHeld(fs, gs, ino, bits, all, n, b);
    OthersHeld(fs, gs, ino, bits, all, n, b);
    if Lost(fs, b) {
      assert !OwnsBlock(fs, ino, b);
      NotHeld(fs, gs, ino, bits, all, n, b);
    }
    if 0 != b < |bits| && bits[b] && OwnsBlock(fs, ino, b) {
      var t: Slot :| Own(fs, ino, t) == b;
      OwnedHere(fs, ino, t);
      NotHeld(fs, gs, ino, bits, all, n, b);
    }
  }

  lemma MetaUnheld(fs: Fs, ino: nat, b: nat)
    requires OwnInv(fs) && Shape(fs)
    ensures 0 != b < fs.sup.firstData ==> !OwnsBlock(fs, ino, b)
  {
    hide Own;
    if b != 0 && OwnsBlock(fs, ino, b) {
      var t: Slot :| Own(fs, ino, t) == b;
      OwnedHere(fs, ino, t);
    }
  }

  lemma OwnedHere(fs: Fs, j: nat, t: Slot)
    requires OwnInv(fs) && Shape(fs) && Own(fs, j, t) != 0
    ensures fs.sup.firstData <= Own(fs, j, t) < fs.sup.blocksCount && fs.blockBits[Own(fs, j, t)]
    ensures forall i: nat, s: Slot :: Own(fs, i, s) == Own(fs, j, t) ==> i == j
  {
    hide Own, FreedClear, CountsOk;
  }

  lemma RunHeld(fs: Fs, gs: Fs, ino: nat, bits: seq<bool>, all: seq<nat>, n: nat, b: nat)
    requires Shape(fs) && |bits| == |fs.blockBits| && HoldsRun(fs, gs, ino, bits, all, n)
    ensures b in all ==> Owned(gs, b)
  {
    hide Own, Total, SlotIndex;
    if b in all {
      var i :| 0 <= i < |all| && all[i] == b;
      var s := RunSlot(n, i);
      assert Own(gs, ino, s) == b;
    }
  }

  lemma OthersHeld(fs: Fs, gs: Fs, ino: nat, bits: seq<bool>, all: seq<nat>, n: nat, b: nat)
    requires Shape(fs) && |bits| == |fs.blockBits| && HoldsRun(fs, gs, ino, bits, all, n)
    ensures Owned(fs, b) ==> OwnsBlock(fs, ino, b) || Owned(gs, b)
  {
    hide Own, Total, RunBlock;
    if Owned(fs, b) {
      var j: nat, t: Slot :| Own(fs, j, t) == b;
      if j != ino {
        assert Own(gs, j, t) == b;
      }
    }
  }

  lemma NotHeld(fs: Fs, gs: Fs, ino: nat, bits: seq<bool>, all: seq<nat>, n: nat, b: nat)
    requires Shape(fs) && |bits| == |fs.blockBits| && HoldsRun(fs, gs, ino, bits, all, n)
    requires 0 != b < |bits| && bits[b] && forall j: nat, t: Slot :: Own(fs, j, t) == b ==> j == ino
    ensures !Owned(gs, b)
  {
    hide Own, Total, RunBlock;
    if Owned(gs, b) {
      var j: nat, t: Slot :| Own(gs, j, t) == b;
      if j == ino {
        PlacedInRun(all, n, t);
      }
    }
  }

  /** Overwriting gives back all the inode held. */
  lemma OverwroteLost(fs: Fs, m: Fs, ino: nat, data: seq<byte>, gs: Fs, disk: seq<Block>, node: Inode, b: nat)
    requires FsInv(fs) && Synced(fs) && Live(fs, ino) && ino != ROOT_INODE && Shape(fs)
    requires OverwroteBy(fs, m, ino, data, gs, disk, node)
    ensures Shape(m) && (Lost(m, b) <==> Lost(fs, b)) && MetaKept(fs, m, b)
  {
    hide OwnInv, TreeInv, Synced, Mount, Mountable, Installed, OnlyOwnCleared, CommitMaps, BitsWithout, DataBlocks,
         Lost, HoldsRun, OwnsBlock, Untouched, Content;
    BitsWithoutOwn(fs, ino);
    var bits := BitsWithout(fs, ino);
    var all := InstalledRun(fs, gs, ino, bits, disk, node, data);
    InstalledLost(fs, gs, ino, bits, all, DataBlocks(|data|), b);
    AllCleared(fs, ino, b);
    OverwriteOk(fs, gs, ino, bits, disk, node, data);
    FlushedLost(gs, b);
  }

  lemma AllCleared(fs: Fs, ino: nat, b: nat)
    requires OwnInv(fs) && Shape(fs) && Live(fs, ino)
    ensures 0 != b < |fs.blockBits| && OwnsBlock(fs, ino, b) ==> !BitsWithout(fs, ino)[b]
  {
    hide Own, InodeRefs;
    if 0 != b < |fs.blockBits| && OwnsBlock(fs, ino, b) {
      var t: Slot :| Own(fs, ino, t) == b;
      OwnedHere(fs, ino, t);
      OwnedRef(fs, ino, t);
    }
  }

  lemma FlushedLost(gs: Fs, b: nat)
    requires Shape(gs) && FsInv(CommitMaps(gs)) && Synced(CommitMaps(gs))
    ensures Mountable(CommitMaps(gs).disk) && Shape(Mount(CommitMaps(gs).disk))
    ensures Lost(Mount(CommitMaps(gs).disk), b) <==> Lost(gs, b)
    ensures MetaKept(gs, Mount(CommitMaps(gs).disk), b)
  {
    hide FsInv, Synced, Mount, Mountable, CommitMaps, Owned, Own;
    var hs := CommitMaps(gs);
    MountAccounts(hs);
    FlushOwn(gs, b);
  }

  lemma FlushOwn(gs: Fs, b: nat)
    requires Shape(gs) && FsInv(CommitMaps(gs))
    ensures Owned(CommitMaps(gs), b) <==> Owned(gs, b)
  {
    hide TreeInv, CommitMaps, Marked, Unshared, FreedClear, CountsOk;
    var hs := CommitMaps(gs);
    MetaOwn(hs, gs);
    if Owned(gs, b) {
      var j: nat, t: Slot :| Own(gs, j, t) == b;
      assert Own(hs, j, t) == b;
    }
    if Owned(hs, b) {
      var j: nat, t: Slot :| Own(hs, j, t) == b;
      assert Own(gs, j, t) == b;
    }
  }

  lemma MetaOwn(hs: Fs, gs: Fs)
    requires OwnInv(hs) && gs == hs.(disk := gs.disk) && |gs.disk| == |hs.disk|
    requires forall x :: hs.sup.firstData <= x < |hs.disk| ==> gs.disk[x] == hs.disk[x]
    ensures forall j: nat, t: Slot :: Own(gs, j, t) == Own(hs, j, t)
  {
    hide Own, SlotData, Marked, Unshared, FreedClear, CountsOk;
    MetaFrame(hs, gs);
  }

  /** A new file: the blocks of the tables its inode number still held are lost. */
  lemma AddedLost(fs: Fs, m: Fs, d: nat, name: Name, ino: u32, data: seq<byte>, gs: Fs, disk: seq<Block>, node: Inode,
      b: nat)
    requires FsInv(fs) && Synced(fs) && LiveDir(fs, d) && d < fs.sup.inodesCount && Shape(fs)
    requires IsName(name) && Entry(fs, d, name) == 0 && 0 != ino == NextInode(fs)
    requires AddedBy(fs, m, d, name, ino, data, gs, disk, node)
    ensures Shape(m) && (Lost(m, b) <==> Lost(fs, b) || (b != 0 && OwnsBlock(fs, ino, b))) && MetaKept(fs, m, b)
  {
    hide OwnInv, TreeInv, Synced, Mount, Mountable, Installed, OnlyOwnCleared, CommitMaps, DataBlocks, Lost, HoldsRun,
         OwnsBlock, Untouched, Content, NextInode, Entry, AddFrom, BlocksOk, Rebound, DirOk, Accounts;
    NextInodeFree(fs);
    NothingCleared(fs, ino);
    var all := InstalledRun(fs, gs, ino, fs.blockBits, disk, node, data);
    InstalledLost(fs, gs, ino, fs.blockBits, all, DataBlocks(|data|), b);
    HeldMarked(fs, ino, b);
    EnteredLost(fs, d, name, ino, data, gs, disk, node, b);
  }

  /** Entering the name and writing everything out loses nothing. */
  lemma EnteredLost(fs: Fs, d: nat, name: Name, ino: u32, data: seq<byte>, gs: Fs, disk: seq<Block>, node: Inode,
      b: nat)
    requires FsInv(fs) && Synced(fs) && LiveDir(fs, d) && d < fs.sup.inodesCount && Shape(fs) && IsInode(fs, ino)
    requires IsName(name) && Entry(fs, d, name) == 0 && 0 != ino == NextInode(fs) && Shape(gs) && Live(gs, d)
    requires Installed(fs, gs, ino, fs.blockBits, disk, node, data) && BlocksOk(gs, d)
    requires AddFrom(gs, d, 0, ino, name, 1).1
    ensures var e := CommitMaps(AddFrom(gs, d, 0, ino, name, 1).0).disk;
            Mountable(e) && Shape(Mount(e)) && (Lost(Mount(e), b) <==> Lost(gs, b)) && MetaKept(gs, Mount(e), b)
  {
    hide OwnInv, TreeInv, Synced, Mount, Mountable, Installed, OnlyOwnCleared, CommitMaps, DataBlocks, Lost,
         Untouched, Content, NextInode, Entry, AddFrom, BlocksOk, Rebound, DirOk, Accounts;
    NextInodeFree(fs);
    NothingCleared(fs, ino);
    InstalledSuper(fs, gs, ino, fs.blockBits, disk, node, data);
    BodyOk(fs, gs, ino, fs.blockBits, disk, node, data);
    BodySyncs(fs, gs, ino, fs.blockBits, disk, node, data);
    InstallOk(fs, gs, d, name, ino, disk, node, data);
    DirAsFound(fs, gs, d);
    ParentDir(gs, d);
    var f6 := AddFrom(gs, d, 0, ino, name, 1).0;
    AddFromAccounts(gs, d, 0, ino, name, 1);
    AccountsLost(gs, f6, b);
    UntouchedDir(fs, gs, d);
    AddFromKeeps(gs, d, ino, name);
    FlushedLost(f6, b);
  }

  lemma ParentDir(fs: Fs, d: nat)
    requires ParentOk(fs, d) && LiveDir(fs, d)
    ensures DirOk(fs, d)
  {
  }

  lemma HeldMarked(fs: Fs, ino: nat, b: nat)
    requires OwnInv(fs) && Shape(fs)
    ensures b != 0 && OwnsBlock(fs, ino, b) ==> b < |fs.blockBits| && fs.blockBits[b]
  {
    hide Own;
    if b != 0 && OwnsBlock(fs, ino, b) {
      var t: Slot :| Own(fs, ino, t) == b;
      OwnedHere(fs, ino, t);
    }
  }

  lemma AccountsLost(fs: Fs, gs: Fs, b: nat)
    requires Accounts(fs, gs)
    ensures (Lost(gs, b) <==> Lost(fs, b)) && MetaKept(fs, gs, b)
  {
    hide Owned;
  }

  /** The tool loses no block by overwriting; by adding a file it loses exactly those that the number it takes still
      held, which are tables of a file unlinked before. */
  lemma HostLost(fs: Fs, gs: Fs, d: nat, name: Name, data: seq<byte>, b: nat)
    requires Ready(fs) && Moved(fs, Host(d, name, data), gs)
    ensures Shape(gs) && MetaKept(fs, gs, b)
    ensures Lost(gs, b) <==> Lost(fs, b) || (Entry(fs, d, name) == 0 && b != 0 && OwnsBlock(fs, NextInode(fs), b))
  {
    hide OwnInv, TreeInv, Synced, PadClear, Entry, NextInode, OverwroteBy, AddedBy, Lost, OwnsBlock;
    var e := Entry(fs, d, name);
    if e != 0 {
      NamedLive(fs, d, name);
      var hs, disk, node :| OverwroteBy(fs, gs, e, data, hs, disk, node);
      OverwroteLost(fs, gs, e, data, hs, disk, node, b);
    } else {
      var ino := NextInode(fs);
      var hs, disk, node :| AddedBy(fs, gs, d, name, ino, data, hs, disk, node);
      AddedLost(fs, gs, d, name, ino, data, hs, disk, node, b);
    }
  }

  /** The bitmap is exact if all metadata is marked and nothing is lost. */
  lemma TightIs(fs: Fs)
    requires OwnInv(fs) && Shape(fs)
    ensures Tight(fs) <==> (forall b: nat :: b < fs.sup.firstData ==> fs.blockBits[b]) && forall b: nat :: !Lost(fs, b)
  {
    hide Own, Owned;
    FirstPositive(fs);
    if Tight(fs) {
      forall b: nat
        ensures (b < fs.sup.firstData ==> fs.blockBits[b]) && !Lost(fs, b)
      {
        if b < fs.sup.blocksCount {
          assert fs.blockBits[b] <==> b < fs.sup.firstData || Owned(fs, b);
        }
      }
    }
    if (forall b: nat :: b < fs.sup.firstData ==> fs.blockBits[b]) && forall b: nat :: !Lost(fs, b) {
      forall b | 0 <= b < fs.sup.blocksCount
        ensures fs.blockBits[b] <==> b < fs.sup.firstData || Owned(fs, b)
      {
        OwnedBits(fs, b);
        assert !Lost(fs, b);
      }
    }
  }

  lemma OwnedBits(fs: Fs, b: nat)
    requires OwnInv(fs) && Shape(fs)
    ensures b != 0 && Owned(fs, b) ==> b < |fs.blockBits| && fs.blockBits[b]
  {
    hide Own;
    if b != 0 && Owned(fs, b) {
      var j: nat, t: Slot :| Own(fs, j, t) == b;
      OwnedHere(fs, j, t);
    }
  }

  lemma DeadHolds(fs: Fs, ino: nat)
    requires IsInode(fs, ino) && !Live(fs, ino)
    ensures HasTables(Node(fs, ino)) <==> exists b: nat :: b != 0 && OwnsBlock(fs, ino, b)
  {
    if HasTables(Node(fs, ino)) {
      var t := if Node(fs, ino).ptrs[12] != 0 then Single else Double;
      assert OwnsBlock(fs, ino, Own(fs, ino, t));
    }
    if b: nat :| b != 0 && OwnsBlock(fs, ino, b) {
      var t: Slot :| Own(fs, ino, t) == b;
      SlotPointer(fs, ino, t);
    }
  }

  /** So the bitmap stays exact if and only if the name existed or the number held no table. */
  lemma HostTight(fs: Fs, gs: Fs, d: nat, name: Name, data: seq<byte>)
    requires Ready(fs) && Tight(fs) && Moved(fs, Host(d, name, data), gs)
    ensures Shape(gs) && (Entry(fs, d, name) == 0 ==> IsInode(fs, NextInode(fs)))
    ensures Tight(gs) <==> Entry(fs, d, name) != 0 || !HasTables(Node(fs, NextInode(fs)))
  {
    hide OwnInv, TreeInv, Synced, PadClear, Entry, NextInode, Moved, Lost, OwnsBlock, Holds, Linked, Content, Tight,
         HasTables, Owned;
    var ino := HostMoved(fs, gs, d, name, data);
    HeldLive(fs, gs, ino, data);
    if Entry(fs, d, name) == 0 {
      AddedDead(fs, gs, d, name, data);
      DeadHolds(fs, NextInode(fs));
    }
    TightIs(fs);
    TightIs(gs);
    forall b: nat
      ensures Lost(gs, b) <==> Entry(fs, d, name) == 0 && b != 0 && OwnsBlock(fs, NextInode(fs), b)
      ensures b < gs.sup.firstData ==> gs.blockBits[b]
    {
      HostLost(fs, gs, d, name, data, b);
    }
    assert Tight(gs) <==> forall b: nat :: !Lost(gs, b);
    if Entry(fs, d, name) == 0 && HasTables(Node(fs, NextInode(fs))) {
      var b: nat :| b != 0 && OwnsBlock(fs, NextInode(fs), b);
      assert Lost(gs, b);
    }
  }

  lemma AddedDead(fs: Fs, gs: Fs, d: nat, name: Name, data: seq<byte>)
    requires Ready(fs) && Moved(fs, Host(d, name, data), gs) && Entry(fs, d, name) == 0
    ensures NextInode(fs) != 0 && IsInode(fs, NextInode(fs)) && !Live(fs, NextInode(fs))
  {
    hide OwnInv, TreeInv, Synced, PadClear, Entry, NextInode, Added;
    NextInodeFree(fs);
  }
}
