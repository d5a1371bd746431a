/** What the host tool leaves behind when it gives up: blocks are written as they are filled, the maps only at
    the end. */
module Ext2HostFail {
  import opened Bytes
  import opened Ext2State
  import opened Ext2Ownership
  import opened Ext2Bmap
  import opened Ext2Disk
  import opened Ext2File
  import opened Ext2Tree
  import opened Ext2Persist
  import opened Ext2HostFile
  import opened Ext2HostInstall
  import opened Ext2HostOk

  predicate IsFree(z: Fs, x: nat) { z.sup.firstData <= x < z.sup.blocksCount && x < |z.blockBits| && !z.blockBits[x] }

  /** Only blocks that `z` has free differ. */
  ghost predicate Scribbled(z: Fs, a: seq<Block>, b: seq<Block>) {
    |b| == |a| && forall x :: 0 <= x < |a| && !IsFree(z, x) ==> b[x] == a[x]
  }

  lemma ScribbledTwice(z: Fs, a: seq<Block>, b: seq<Block>, c: seq<Block>)
    requires Scribbled(z, a, b) && Scribbled(z, b, c)
    ensures Scribbled(z, a, c)
  {
    hide IsFree;
  }

  // ---- what survives ----

  /** No block of inode `j` changes. */
  ghost predicate Spares(fs: Fs, e: seq<Block>, j: nat) {
    |e| == |fs.disk| && forall t: Slot :: 0 < Own(fs, j, t) < |e| ==> e[Own(fs, j, t)] == fs.disk[Own(fs, j, t)]
  }

  ghost predicate KeepsOwn(fs: Fs, h: Fs, j: nat) { forall t: Slot :: Own(h, j, t) == Own(fs, j, t) }

  lemma SparedOwn(fs: Fs, h: Fs, j: nat, t: Slot)
    requires Spares(fs, h.disk, j) && h.inodeBits == fs.inodeBits && |h.inodes| == |fs.inodes|
    requires IsInode(fs, j) ==> Node(h, j) == Node(fs, j)
    ensures Own(h, j, t) == Own(fs, j, t)
  {
    if IsInode(fs, j) {
      var n := Node(fs, j);
      assert Own(fs, j, Single) == n.ptrs[12];
      assert Own(fs, j, Double) == n.ptrs[13];
      if t.Level2Entry? {
        assert Own(fs, j, Level2(t.a)) == TableAt(fs.disk, n.ptrs[13], t.a);
      }
      RefFrame(n, fs.disk, h.disk, t);
    }
  }

  lemma SparedUntouched(fs: Fs, h: Fs, j: nat)
    requires Spares(fs, h.disk, j) && h.inodeBits == fs.inodeBits && |h.inodes| == |fs.inodes|
    requires IsInode(fs, j) ==> Node(h, j) == Node(fs, j)
    ensures Untouched(fs, h, j) && KeepsOwn(fs, h, j)
  {
    hide Own;
    forall t: Slot
      ensures Own(h, j, t) == Own(fs, j, t)
    {
      SparedOwn(fs, h, j, t);
    }
  }

  /** On disk as in memory, with the superblock and the bitmaps of `fs`. */
  ghost predicate SameMaps(fs: Fs, m: Fs) {
    Synced(m) && m.sup == fs.sup && m.blockBits == fs.blockBits && m.inodeBits == fs.inodeBits
  }

  /** A disk that carries `h` mounts to a filesystem with the same live inodes. */
  lemma MountSame(h: Fs)
    requires Synced(h)
    ensures Mountable(h.disk) && SameMaps(h, Mount(h.disk)) && forall j: nat :: Untouched(h, Mount(h.disk), j)
  {
    hide Mount, Mountable, Own, InodeSynced, EncodeSuper, BitmapBlock, SameTrees;
    MountRecovers(h);
    var m := Mount(h.disk);
    forall j: nat | IsInode(m, j) && j != 0
      ensures InodeSynced(m, j)
    {
      MountedSynced(h, m, j);
    }
    forall j: nat, t: Slot | Live(h, j)
      ensures Own(m, j, t) == Own(h, j, t)
    {
      LiveOwn(h, m, j, t);
    }
  }

  lemma LiveOwn(h: Fs, m: Fs, j: nat, t: Slot)
    requires Live(h, j) && Live(m, j) && Node(m, j) == Node(h, j) && m.disk == h.disk
    ensures Own(m, j, t) == Own(h, j, t)
  {
  }

  lemma ScribbledSyncs(fs: Fs, z: Fs, e: seq<Block>)
    requires Synced(fs) && z.sup == fs.sup && Scribbled(z, fs.disk, e)
    ensures Synced(fs.(disk := e))
  {
    hide OnDisk, InodeSynced;
    var h := fs.(disk := e);
    assert forall x :: 0 <= x < fs.sup.firstData ==> e[x] == fs.disk[x];
    InodesStay(fs, h, 0);
  }

  /** Giving up before anything of the file is written but free blocks: no harm done. */
  lemma FailedNew(fs: Fs, e: seq<Block>)
    requires FsInv(fs) && Synced(fs) && Scribbled(fs, fs.disk, e)
    ensures Mountable(e)
    ensures var m := Mount(e); FsInv(m) && SameMaps(fs, m) && forall j: nat :: Untouched(fs, m, j)
  {
    hide Mount, Mountable, Own, TreeInv, Untouched, Synced, IsFree, OwnInv;
    var h := fs.(disk := e);
    ScribbledSyncs(fs, fs, e);
    forall j: nat
      ensures Untouched(fs, h, j) && KeepsOwn(fs, h, j)
    {
      MarkedSpared(fs, e, j);
      SparedUntouched(fs, h, j);
    }
    SameOwners(fs, h);
    UntouchedTree(fs, h);
    MountKeepsInv(h);
    MountSame(h);
    forall j: nat
      ensures Untouched(fs, Mount(e), j)
    {
      UntouchedTransitive(fs, h, Mount(e), j);
    }
  }

  lemma MarkedSpared(fs: Fs, e: seq<Block>, j: nat)
    requires OwnInv(fs) && Scribbled(fs, fs.disk, e)
    ensures Spares(fs, e, j)
  {
    hide Own, Unshared, FreedClear, CountsOk;
  }

  /** Giving up while overwriting: all other inodes survive. The file keeps its record; all of it survives exactly
      when no block of its own is written over. */
  lemma FailedOverwrite(fs: Fs, ino: nat, bits: seq<bool>, e: seq<Block>)
    requires FsInv(fs) && Synced(fs) && Live(fs, ino) && OnlyOwnCleared(fs, ino, bits)
    requires Scribbled(fs.(blockBits := bits), fs.disk, e)
    ensures Mountable(e)
    ensures var m := Mount(e);
            && (forall j: nat :: j != ino ==> Untouched(fs, m, j))
            && Live(m, ino) && Node(m, ino) == Node(fs, ino) && SameMaps(fs, m)
            && (Untouched(fs, m, ino) <==> Spares(fs, e, ino))
            && (Spares(fs, e, ino) ==> FsInv(m))
            && (LiveFile(fs, ino) && Node(fs, ino).ptrs[12] == 0 && Node(fs, ino).ptrs[13] == 0 ==> FsInv(m))
  {
    hide Mount, Mountable, Own, TreeInv, Untouched, Synced, OnlyOwnCleared, OwnInv, Spares, IsFree;
    var h := fs.(disk := e);
    ScribbledSyncs(fs, fs.(blockBits := bits), e);
    MountSame(h);
    MountRecovers(h);
    var m := Mount(e);
    forall j: nat | j != ino
      ensures Untouched(fs, h, j) && KeepsOwn(fs, h, j)
    {
      OthersSpared(fs, ino, bits, e, j);
      SparedUntouched(fs, h, j);
    }
    forall j: nat | j != ino || Spares(fs, e, ino)
      ensures Untouched(fs, m, j)
    {
      if j == ino {
        SparedUntouched(fs, h, ino);
      }
      UntouchedTransitive(fs, h, m, j);
    }
    if Untouched(fs, m, ino) {
      UntouchedSpared(fs, m, ino);
    }
    if Spares(fs, e, ino) {
      SparedUntouched(fs, h, ino);
      SameOwners(fs, h);
      UntouchedTree(fs, h);
      MountKeepsInv(h);
    } else if LiveFile(fs, ino) && Node(fs, ino).ptrs[12] == 0 && Node(fs, ino).ptrs[13] == 0 {
      NoTables(fs, h, ino);
      SameOwners(fs, h);
      SameHoles(fs, h, ino);
      FileNotRoot(fs, ino);
      ReplaceKeepsTree(fs, h, ino);
      MountKeepsInv(h);
    }
  }

  /** An inode that reads the same has every block as it was: a table is the numbers in it. */
  lemma UntouchedSpared(fs: Fs, m: Fs, ino: nat)
    requires Live(fs, ino) && Untouched(fs, m, ino) && |m.disk| == |fs.disk|
    ensures Spares(fs, m.disk, ino)
  {
    hide Own, SlotData, Le32;
    forall t: Slot | 0 < Own(fs, ino, t) < |m.disk|
      ensures m.disk[Own(fs, ino, t)] == fs.disk[Own(fs, ino, t)]
    {
      BlockKept(fs, m, ino, t);
    }
  }

  lemma BlockKept(fs: Fs, m: Fs, ino: nat, t: Slot)
    requires Live(fs, ino) && Untouched(fs, m, ino) && |m.disk| == |fs.disk| && 0 < Own(fs, ino, t) < |m.disk|
    ensures m.disk[Own(fs, ino, t)] == fs.disk[Own(fs, ino, t)]
  {
    hide Le32;
    var x := Own(fs, ino, t);
    if IsData(t) {
      assert SlotData(m, ino, t) == SlotData(fs, ino, t);
    } else {
      forall k | 0 <= k < PTRS
        ensures Le32(m.disk[x], 4 * k) == Le32(fs.disk[x], 4 * k)
      {
        var entry := if t.Single? then SingleEntry(k) else if t.Double? then Level2(k) else Level2Entry(t.a, k);
        assert Own(m, ino, t) == x;
        assert Own(m, ino, entry) == Own(fs, ino, entry);
      }
      SameWords(m.disk[x], fs.disk[x]);
    }
  }

  lemma SameWords(a: Block, b: Block)
    requires forall k :: 0 <= k < PTRS ==> Le32(a, 4 * k) == Le32(b, 4 * k)
    ensures a == b
  {
    hide Le32, Bytes32;
    forall i | 0 <= i < BS
      ensures a[i] == b[i]
    {
      var k := i / 4;
      Bytes32Back(a, 4 * k);
      Bytes32Back(b, 4 * k);
      assert a[4 * k..4 * k + 4][i % 4] == a[i] && b[4 * k..4 * k + 4][i % 4] == b[i];
    }
  }

  lemma OthersSpared(fs: Fs, ino: nat, bits: seq<bool>, e: seq<Block>, j: nat)
    requires OwnInv(fs) && OnlyOwnCleared(fs, ino, bits) && Scribbled(fs.(blockBits := bits), fs.disk, e) && j != ino
    ensures Spares(fs, e, j)
  {
    hide Own, OnlyOwnCleared, OwnInv;
    forall t: Slot | 0 < Own(fs, j, t) < |e|
      ensures e[Own(fs, j, t)] == fs.disk[Own(fs, j, t)]
    {
      StillMarked(fs, ino, bits, j, t);
    }
  }

  lemma NoTables(fs: Fs, h: Fs, ino: nat)
    requires Live(fs, ino) && h == fs.(disk := h.disk) && Node(fs, ino).ptrs[12] == 0 && Node(fs, ino).ptrs[13] == 0
    ensures KeepsOwn(fs, h, ino)
  {
  }

  lemma SameOwners(fs: Fs, h: Fs)
    requires OwnInv(fs) && h == fs.(disk := h.disk) && |h.disk| == |fs.disk|
    requires forall j: nat :: KeepsOwn(fs, h, j)
    ensures OwnInv(h)
  {
    hide Own;
    forall j: nat, t: Slot
      ensures Own(h, j, t) == Own(fs, j, t)
    {
      assert KeepsOwn(fs, h, j);
    }
    assert Marked(h) && Unshared(h);
    assert forall j: nat :: IsInode(fs, j) ==> Node(h, j) == Node(fs, j) && (Live(h, j) <==> Live(fs, j));
  }

  lemma SameHoles(fs: Fs, h: Fs, ino: nat)
    requires TreeInv(fs) && LiveFile(fs, ino) && h == fs.(disk := h.disk)
    requires KeepsOwn(fs, h, ino)
    ensures LiveFile(h, ino) && FileOk(h, ino)
  {
    hide Own, DirsOk, EntriesLive, OneParent, DotsOk;
    assert FileOk(fs, ino);
    forall bi: nat | bi * BS < Node(h, ino).size
      ensures DataRef(h, ino, bi) != 0
    {
      assert DataRef(h, ino, bi) == DataRef(fs, ino, bi);
    }
  }

  // ---- failing to link ----

  /** The disk once the inode is written but its name is not, as the old maps describe it. */
  ghost function Unlinked(fs: Fs, gs: Fs, ino: nat, node: Inode): Fs
    requires IsInode(fs, ino)
  {
    fs.(disk := gs.disk, inodes := fs.inodes[ino - 1 := node])
  }

  /** Giving up for want of room in the directory leaves a record with pointers in a free inode slot. Live inodes
      survive, but the ownership invariant holds exactly when the file has at most one block: `ext2_create` will
      clear only the first pointer of that slot. */
  lemma FailedLink(fs: Fs, gs: Fs, ino: nat, disk: seq<Block>, node: Inode, data: seq<byte>)
    requires FsInv(fs) && Synced(fs) && Shape(fs) && ino == NextInode(fs) != 0
    requires Installed(fs, gs, ino, fs.blockBits, disk, node, data)
    ensures Mountable(gs.disk)
    ensures var m := Mount(gs.disk);
            && (forall j: nat :: Untouched(fs, m, j)) && SameMaps(fs, m)
            && (FsInv(m) <==> DataBlocks(|data|) <= 1)
  {
    hide Mount, Mountable, TreeInv, Untouched, Synced, OwnInv, Installed, NextInode, DataBlocks;
    NextInodeFree(fs);
    var h := Unlinked(fs, gs, ino, node);
    UnlinkedOwn(fs, gs, ino, disk, node, data);
    UnlinkedSyncs(fs, gs, ino, disk, node, data);
    MountSame(h);
    var m := Mount(gs.disk);
    forall j: nat
      ensures Untouched(fs, m, j)
    {
      UntouchedTransitive(fs, h, m, j);
    }
    if DataBlocks(|data|) <= 1 {
      UntouchedTree(fs, h);
      MountKeepsInv(h);
    } else {
      StalePointer(fs, gs, ino, disk, node, data);
    }
  }

  /** What the run and the record changed on disk. */
  lemma InstalledDisk(fs: Fs, gs: Fs, ino: nat, disk: seq<Block>, node: Inode, data: seq<byte>)
    requires Shape(fs) && CountsOk(fs) && IsInode(fs, ino) && Installed(fs, gs, ino, fs.blockBits, disk, node, data)
    ensures |gs.disk| == |fs.disk| && Scribbled(fs, fs.disk, disk)
    ensures forall x :: fs.sup.firstData <= x < |fs.disk| ==> gs.disk[x] == disk[x]
    ensures forall k :: 0 <= k < NDIRECT ==> (node.ptrs[k] != 0 <==> k < DataBlocks(|data|))
    ensures DataBlocks(|data|) <= 1 ==> node.ptrs[12] == 0 && node.ptrs[13] == 0
  {
    hide Blank, Reserve, Stripped, CountsOk, DataBlocks;
    var n0 := Stripped(node);
    var z := Blank(fs, ino, n0, fs.blockBits);
    BlankFacts(fs, ino, n0, fs.blockBits);
    BlankCountsMaps(fs, ino, n0);
    var n := DataBlocks(|data|);
    ReserveOk(z, Total(n));
    var (r, all) := Reserve(z, Total(n));
    forall x | 0 <= x < |disk| && x in all
      ensures IsFree(fs, x)
    {
    }
    InodeInTable(fs.sup.blocksCount, fs.sup.inodesCount, ino);
  }

  lemma BlankCountsMaps(fs: Fs, ino: nat, n: Inode)
    requires Shape(fs) && IsInode(fs, ino)
    ensures var z := Blank(fs, ino, n, fs.blockBits); Shape(z) && CountsOk(z) && z.blockBits == fs.blockBits
  {
  }

  lemma UnlinkedOwn(fs: Fs, gs: Fs, ino: nat, disk: seq<Block>, node: Inode, data: seq<byte>)
    requires OwnInv(fs) && Shape(fs) && IsInode(fs, ino) && !Live(fs, ino)
    requires Installed(fs, gs, ino, fs.blockBits, disk, node, data)
    ensures var h := Unlinked(fs, gs, ino, node);
            && (forall j: nat :: Untouched(fs, h, j))
            && (DataBlocks(|data|) <= 1 ==> OwnInv(h))
  {
    hide Installed, Own, DataBlocks;
    InstalledDisk(fs, gs, ino, disk, node, data);
    var h := Unlinked(fs, gs, ino, node);
    forall j: nat | j != ino
      ensures Untouched(fs, h, j) && KeepsOwn(fs, h, j)
    {
      InstalledSpares(fs, disk, gs.disk, j);
      SparedUntouched(fs, h, j);
    }
    assert Untouched(fs, h, ino);
    if DataBlocks(|data|) <= 1 {
      forall t: Slot
        ensures Own(h, ino, t) == 0
      {
        DeadOwnsNothing(h, ino, t);
      }
      OneLess(fs, h, ino);
    }
  }

  lemma InstalledSpares(fs: Fs, disk: seq<Block>, e: seq<Block>, j: nat)
    requires OwnInv(fs) && Scribbled(fs, fs.disk, disk) && |e| == |disk|
    requires forall x :: fs.sup.firstData <= x < |fs.disk| ==> e[x] == disk[x]
    ensures Spares(fs, e, j)
  {
    hide Own, Unshared, FreedClear, CountsOk;
  }

  lemma DeadOwnsNothing(h: Fs, ino: nat, t: Slot)
    requires IsInode(h, ino) && !Live(h, ino) && Node(h, ino).ptrs[12] == 0 && Node(h, ino).ptrs[13] == 0
    ensures Own(h, ino, t) == 0
  {
  }

  lemma OneLess(fs: Fs, h: Fs, ino: nat)
    requires OwnInv(fs) && IsInode(fs, ino) && h == fs.(disk := h.disk, inodes := h.inodes) && |h.inodes| == |fs.inodes|
    requires |h.disk| == |fs.disk| && DirectTailClear(Node(h, ino))
    requires forall j: nat :: IsInode(fs, j) && j != ino ==> Node(h, j) == Node(fs, j)
    requires (forall t: Slot :: Own(h, ino, t) == 0) && forall j: nat :: j != ino ==> KeepsOwn(fs, h, j)
    ensures OwnInv(h)
  {
    hide Own;
    forall j: nat, t: Slot
      ensures Own(h, j, t) == if j == ino then 0 else Own(fs, j, t)
    {
      assert j != ino ==> KeepsOwn(fs, h, j);
    }
    assert Marked(h) && Unshared(h) && FreedClear(h);
  }

  lemma UnlinkedSyncs(fs: Fs, gs: Fs, ino: nat, disk: seq<Block>, node: Inode, data: seq<byte>)
    requires OwnInv(fs) && Synced(fs) && Shape(fs) && IsInode(fs, ino) && !Live(fs, ino)
    requires Installed(fs, gs, ino, fs.blockBits, disk, node, data)
    ensures Synced(Unlinked(fs, gs, ino, node))
  {
    hide Installed, OnDisk, InodeSynced, OwnInv, MapsSynced;
    NothingCleared(fs, ino);
    BodySyncs(fs, gs, ino, fs.blockBits, disk, node, data);
    InstalledMaps(fs, gs, ino, disk, node, data);
    var h := Unlinked(fs, gs, ino, node);
    forall j: nat | IsInode(h, j)
      ensures InodeSynced(h, j)
    {
      assert InodeSynced(gs, j);
      SyncedElsewhere(gs, h, j);
    }
  }

  /** A record that is on disk for one filesystem is so for another with the same disk and record. */
  lemma SyncedElsewhere(gs: Fs, h: Fs, j: nat)
    requires Shape(gs) && Shape(h) && IsInode(gs, j) && IsInode(h, j) && h.disk == gs.disk
    requires h.sup.blocksCount == gs.sup.blocksCount && InodeSynced(gs, j) && Node(h, j) == Node(gs, j)
    requires Live(h, j) ==> Live(gs, j)
    ensures InodeSynced(h, j)
  {
    hide EncodeInode, DecodeInode, RawInode;
    InodeRoundTrip(Node(gs, j));
  }

  lemma InstalledMaps(fs: Fs, gs: Fs, ino: nat, disk: seq<Block>, node: Inode, data: seq<byte>)
    requires Shape(fs) && IsInode(fs, ino) && !Live(fs, ino) && Synced(fs)
    requires Installed(fs, gs, ino, fs.blockBits, disk, node, data) && Shape(gs)
    ensures var h := Unlinked(fs, gs, ino, node);
            && Shape(h) && MapsSynced(h) && |gs.inodes| == |fs.inodes| && gs.sup.blocksCount == fs.sup.blocksCount
            && (forall j: nat :: IsInode(fs, j) ==> Node(h, j) == Node(gs, j) && (Live(h, j) ==> Live(gs, j)))
  {
    hide Laid, RunPtrs, Blank, Reserve, Stripped, CountsOk, DataBlocks, Total, EncodeInode, EncodeSuper, BitmapBlock,
         InodesSynced;
    var n0 := Stripped(node);
    var z := Blank(fs, ino, n0, fs.blockBits);
    BlankFacts(fs, ino, n0, fs.blockBits);
    BlankCountsMaps(fs, ino, n0);
    BlankSame(fs, ino, n0, fs.blockBits);
    var n := DataBlocks(|data|);
    ReserveOk(z, Total(n));
    var (r, all) := Reserve(z, Total(n));
    InodeInTable(fs.sup.blocksCount, fs.sup.inodesCount, ino);
    assert forall x :: 0 <= x < fs.sup.firstData ==> x !in all;
    assert forall x :: 0 <= x < InodeTableStart(fs.sup.blocksCount) ==> gs.disk[x] == fs.disk[x];
  }

  lemma StalePointer(fs: Fs, gs: Fs, ino: nat, disk: seq<Block>, node: Inode, data: seq<byte>)
    requires OwnInv(fs) && Shape(fs) && IsInode(fs, ino) && !Live(fs, ino) && DataBlocks(|data|) > 1
    requires Installed(fs, gs, ino, fs.blockBits, disk, node, data) && Synced(Unlinked(fs, gs, ino, node))
    ensures Mountable(gs.disk) && !OwnInv(Mount(gs.disk))
  {
    hide Installed, Mount, Mountable, Synced, DataBlocks;
    InstalledDisk(fs, gs, ino, disk, node, data);
    var h := Unlinked(fs, gs, ino, node);
    MountRecovers(h);
    var m := Mount(gs.disk);
    assert Node(m, ino).ptrs[1] == node.ptrs[1] != 0;
    assert !DirectTailClear(Node(m, ino));
    assert IsInode(m, ino) && !Live(m, ino);
  }
}
