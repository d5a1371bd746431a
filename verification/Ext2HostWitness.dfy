/** Runs from a formatted disk to where the host tool does harm when it gives up. */
module Ext2HostWitness {
  import opened Bytes
  import opened Ext2State
  import opened Ext2Ownership
  import opened Ext2Bmap
  import opened Ext2Disk
  import opened Ext2File
  import opened Ext2DirBlock
  import opened Ext2Dir
  import opened Ext2Tree
  import opened Ext2Names
  import opened Ext2Persist
  import opened Ext2Runs
  import opened Ext2Format
  import opened Ext2Padding
  import opened Ext2Room
  import opened Ext2Outcomes
  import opened Ext2Orphans
  import opened Ext2Repair
  import opened Ext2HostFile
  import opened Ext2HostFail
  import opened Ext2HostCut
  import opened Ext2HostPut
  import opened Ext2Interop

  // ---- a root directory of one block ----

  /** 128 blocks, the root directory still in its first block, at least `k` inodes free. */
  ghost predicate OneBlockRoot(fs: Fs, k: nat) {
    && Ready(fs) && fs.sup.blocksCount == 128 && fs.sup.inodesCount == 32
    && Node(fs, ROOT_INODE) == RootInode(12) && LiveDir(fs, ROOT_INODE) && FreeData(fs) >= 115
    && ClearIn(fs.inodeBits, FIRST_FREE_INODE, 32) >= k
  }

  lemma FreshRoot(disk: seq<Block>)
    requires |disk| >= 128
    ensures OneBlockRoot(Format(128, disk), 21)
    ensures forall n: Name :: !IsDot(n) ==> Entry(Format(128, disk), ROOT_INODE, n) == 0
    ensures DirGap(Format(128, disk), ROOT_INODE, 1) && NextInode(Format(128, disk)) == 12
  {
    hide OwnInv, TreeInv, Synced, Format, FreeData, ClearIn, Entry, DotsBlock, Own, PadClear, DirRoom, HasGap;
    FormatGood(128, disk);
    FormatRoot(128, disk);
    FormatPads(128, disk);
    FreshRoom(Format(128, disk), 1);
    DotsGap(ROOT_INODE, ROOT_INODE);
    assert GapAt(Format(128, disk), ROOT_INODE, 0, 1);
  }

  /** With a gap in its first block `add_entry_to_dir` rewrites that block and nothing else. */
  lemma GapFirst(fs: Fs, d: nat, ino: u32, name: Name)
    requires Shape(fs) && Live(fs, d) && BlocksOk(fs, d) && IsName(name) && GapAt(fs, d, 0, |name|)
    ensures var r := AddFrom(fs, d, 0, ino, name, 1); r.1 && r.0 == fs.(disk := r.0.disk) && |r.0.disk| == |fs.disk|
  {
    hide Insert, Tiles, Distinct, HasGap, IsName, BlocksOk, WriteSlot;
    InsertExact(DirBlock(fs, d, 0), 0, ino, name, 1);
  }

  lemma RootGap(fs: Fs, len: nat)
    requires Live(fs, ROOT_INODE) && Node(fs, ROOT_INODE) == RootInode(12) && DirGap(fs, ROOT_INODE, len)
    ensures GapAt(fs, ROOT_INODE, 0, len)
  {
    hide HasGap, Tiles;
    var k: nat :| GapAt(fs, ROOT_INODE, k, len);
    assert Own(fs, ROOT_INODE, Direct(k)) == RootInode(12).ptrs[k];
  }

  /** Creating a file where the root has a gap. */
  lemma GapCreate(fs: Fs, n: Name, k: nat)
    requires OneBlockRoot(fs, k + 1) && IsName(n) && Entry(fs, ROOT_INODE, n) == 0 && DirGap(fs, ROOT_INODE, |n|)
    ensures Allowed(fs, Create([], n, 0))
    ensures var gs := Exec(fs, Create([], n, 0)); var ino := NextInode(fs);
            && OneBlockRoot(gs, k) && LiveFile(gs, ino) && Content(gs, ino) == [] && ino != 0
            && (forall m: Name :: Entry(gs, ROOT_INODE, m) == if m == n then ino else Entry(fs, ROOT_INODE, m))
  {
    hide OwnInv, TreeInv, Synced, CreateIn, Entry, Untouched, DirOk, DirRoom, FreeData, NextInode, ClearIn, Content,
         IsName, PadClear, RootInode;
    var op := Create([], n, 0);
    assert Resolve(fs, []) == ROOT_INODE;
    ExecGood(fs, op);
    ExecPads(fs, op);
    ParentIs(fs, ROOT_INODE);
    NextInodeExact(fs);
    GapIsRoom(fs, |n|);
    CreateExact(fs, ROOT_INODE, n, 0);
    CreateOk(fs, ROOT_INODE, n, 0);
    CreatedNumber(fs, ROOT_INODE, n, 0);
    CreateMaps(fs, n);
    var gs := Exec(fs, op);
    PadsClear(fs, gs);
    ReboundDir(fs, gs, ROOT_INODE, n, NextInode(fs));
  }

  lemma GapIsRoom(fs: Fs, len: nat)
    requires IsInode(fs, ROOT_INODE) && Shape(fs) && DirGap(fs, ROOT_INODE, len)
    ensures DirRoom(fs, ROOT_INODE, len, FreeData(fs))
  {
    hide GapAt;
  }

  lemma CreateMaps(fs: Fs, n: Name)
    requires ParentOk(fs, ROOT_INODE) && LiveDir(fs, ROOT_INODE) && IsName(n) && Shape(fs)
    requires CreateIn(fs, ROOT_INODE, n, 0).1 != 0 && Node(fs, ROOT_INODE) == RootInode(12)
    requires DirGap(fs, ROOT_INODE, |n|) && fs.sup.inodesCount == 32
    ensures var gs := CreateIn(fs, ROOT_INODE, n, 0).0;
            && Shape(gs) && FreeData(gs) == FreeData(fs) && LiveDir(gs, ROOT_INODE)
            && Node(gs, ROOT_INODE) == RootInode(12) && NextInode(fs) != 0
            && gs.inodeBits == fs.inodeBits[NextInode(fs) - 1 := true]
  {
    hide OwnInv, DirOk, NextInode, BlocksOk, AddFrom, FreeData, CreateIn, BornFile, Commit, DirGap, GapAt, RootInode,
         Untouched;
    CreateParts(fs, ROOT_INODE, n, 0);
    var f2 := BornFile(fs, 0);
    BornFileFree(fs, 0);
    BornFileMaps(fs, ROOT_INODE, 0);
    BornFileOk(fs, 0);
    SameGap(fs, f2, |n|);
    RootGap(f2, |n|);
    var ino := NextInode(fs);
    GapFirst(f2, ROOT_INODE, ino, n);
    var f3 := AddFrom(f2, ROOT_INODE, 0, ino, n, 1).0;
    var gs := Commit(f3, ino);
    SameBits(f2, gs);
    NextInodeFree(fs);
    RootStays(fs, gs);
  }

  lemma SameGap(fs: Fs, gs: Fs, len: nat)
    requires Live(fs, ROOT_INODE) && Untouched(fs, gs, ROOT_INODE) && DirGap(fs, ROOT_INODE, len)
    ensures DirGap(gs, ROOT_INODE, len)
  {
    hide Untouched, DirGap;
    SameRoom(fs, gs, ROOT_INODE, len, 0);
  }

  lemma RootStays(fs: Fs, gs: Fs)
    requires Shape(fs) && LiveDir(fs, ROOT_INODE) && IsInode(gs, ROOT_INODE) && Shape(gs)
    requires Node(gs, ROOT_INODE) == Node(fs, ROOT_INODE) && NextInode(fs) != 0
    requires gs.inodeBits == fs.inodeBits[NextInode(fs) - 1 := true]
    ensures LiveDir(gs, ROOT_INODE)
  {
    hide NextInode;
  }

  // ---- no room for the name ----

  /** One block holds at most three names of 255 bytes. */
  lemma AtMostThree(fs: Fs, ns: set<Name>, k: nat)
    requires OneBlockRoot(fs, k) && forall n :: n in ns ==> |n| == LONG && Entry(fs, ROOT_INODE, n) != 0
    ensures |ns| != 4
  {
    hide OwnInv, Synced, DirOk, EntriesLive, OneParent, DotsOk, FilesOk, Entry, FreeData, ClearIn, PadClear;
    if |ns| == 4 {
      assert DirOk(fs, ROOT_INODE);
      var x := OneBehind(fs, ROOT_INODE, ns);
      OnlyFirst(fs, x);
      assert false;
    }
  }

  lemma OnlyFirst(fs: Fs, x: Name)
    requires DirOk(fs, ROOT_INODE) && LiveDir(fs, ROOT_INODE) && Node(fs, ROOT_INODE) == RootInode(12)
    requires Entry(fs, ROOT_INODE, x) != 0
    ensures BlockFind(fs, ROOT_INODE, 0, x) != 0
  {
    hide Find, Entry, Tiles, Distinct;
    EntryBlock(fs, ROOT_INODE, x);
    var k: nat :| BlockFind(fs, ROOT_INODE, k, x) == Entry(fs, ROOT_INODE, x);
    assert k < 15 ==> Own(fs, ROOT_INODE, Direct(k)) == if k < NDIRECT then RootInode(12).ptrs[k] else 0;
  }

  /** Create names of `todo` until the block has no gap for one more. */
  lemma {:induction false} FillRoot(fs: Fs, ns: set<Name>, todo: seq<Name>) returns (ops: seq<Op>, x: Name)
    requires OneBlockRoot(fs, |todo|) && |ns| + |todo| == 4
    requires forall n :: n in ns ==> |n| == LONG && Entry(fs, ROOT_INODE, n) != 0
    requires forall i :: 0 <= i < |todo| ==>
               IsName(todo[i]) && |todo[i]| == LONG && Entry(fs, ROOT_INODE, todo[i]) == 0
    requires forall i, j :: 0 <= i < j < |todo| ==> todo[i] != todo[j]
    ensures Good(fs) && AllAllowed(fs, ops)
    ensures var gs := Run(fs, ops);
            && OneBlockRoot(gs, 1) && IsName(x) && |x| == LONG && Entry(gs, ROOT_INODE, x) == 0
            && !DirGap(gs, ROOT_INODE, LONG)
    decreases |todo|
  {
    hide Good, Entry, Allowed, Exec, IsName, DirGap, PadClear, FreeData, ClearIn, Content;
    AtMostThree(fs, ns, |todo|);
    if !DirGap(fs, ROOT_INODE, LONG) {
      ops, x := [], todo[0];
    } else {
      var n := todo[0];
      GapCreate(fs, n, |todo| - 1);
      var op := Create([], n, 0);
      var gs := Exec(fs, op);
      forall i | 0 <= i < |todo[1..]|
        ensures Entry(gs, ROOT_INODE, todo[1..][i]) == 0
      {
        assert todo[1..][i] == todo[i + 1] && todo[0] != todo[i + 1];
      }
      assert n !in ns;
      var rest;
      rest, x := FillRoot(gs, ns + {n}, todo[1..]);
      ops := [op] + rest;
      Prefixed(fs, op, rest);
    }
  }

  lemma WholeBlocks(n: nat)
    ensures DataBlocks(n * BS) == n
  {
  }

  lemma FewFree(fs: Fs, bits: seq<bool>)
    requires Shape(fs) && |bits| == |fs.blockBits|
    ensures FreeUnder(fs, bits) <= fs.sup.blocksCount && (bits == fs.blockBits ==> FreeData(fs) <= fs.sup.blocksCount)
  {
    ClearAtMost(bits, fs.sup.firstData, fs.sup.blocksCount);
  }

  lemma {:induction false} ClearAtMost(bits: seq<bool>, lo: nat, hi: nat)
    requires hi <= |bits|
    ensures ClearIn(bits, lo, hi) <= hi
    decreases hi
  {
    if lo < hi {
      ClearAtMost(bits, lo, hi - 1);
    }
  }

  /** Names of 255 bytes fill the root of a formatted disk; a file that takes all free blocks is then installed
      and cannot be entered. Whatever disk this leaves, a mount finds the ownership invariant broken. */
  lemma LinkWitness(disk: seq<Block>, longs: seq<Name>) returns (ops: seq<Op>, x: Name, data: seq<byte>)
    requires |disk| >= 128
    requires |longs| == 4 && forall i :: 0 <= i < |longs| ==> IsName(longs[i]) && |longs[i]| == LONG
    requires forall i, j :: 0 <= i < j < |longs| ==> longs[i] != longs[j]
    ensures Good(Format(128, disk)) && AllAllowed(Format(128, disk), ops)
    ensures var fs := Run(Format(128, disk), ops);
            && Ready(fs) && LiveDir(fs, ROOT_INODE) && Node(fs, ROOT_INODE).blocks == 2
            && IsName(x) && !IsDot(x) && Entry(fs, ROOT_INODE, x) == 0 && !Accepts(fs, ROOT_INODE, x, |data|)
            && (forall e :: HostFails(fs, ROOT_INODE, x, data, e) ==> Mountable(e) && !FsInv(Mount(e)))
  {
    hide OwnInv, TreeInv, Synced, Entry, Allowed, Exec, Format, IsName, PadClear, FreeData, ClearIn, DirGap, HostFails,
         Mount, Mountable, DataBlocks, NextInode, Accepts, SameMaps;
    FreshRoot(disk);
    ops, x := FillRoot(Format(128, disk), {}, longs);
    var fs := Run(Format(128, disk), ops);
    FewFree(fs, fs.blockBits);
    WholeBlocks(FreeData(fs) - 1);
    data := Zeros((FreeData(fs) - 1) * BS);
    NextInodeExact(fs);
    NoWay(fs, x, data);
    forall e | HostFails(fs, ROOT_INODE, x, data, e)
      ensures Mountable(e) && !FsInv(Mount(e))
    {
      HostFailsOk(fs, ROOT_INODE, x, data, e);
    }
  }

  lemma NoWay(fs: Fs, x: Name, data: seq<byte>)
    requires Shape(fs) && IsInode(fs, ROOT_INODE) && Entry(fs, ROOT_INODE, x) == 0 && !DirGap(fs, ROOT_INODE, |x|)
    requires NDIRECT < DataBlocks(|data|) < FIRST_DOUBLE && FreeData(fs) == DataBlocks(|data|) + 1 && NextInode(fs) != 0
    ensures !Accepts(fs, ROOT_INODE, x, |data|) && Writable(fs, |data|)
  {
    hide DirGap, Entry, FreeUnder, DataBlocks, NextInode;
  }

  // ---- no room for the tables ----

  /** A file that is overwritten with as many blocks as can be had, but not one more for the table: each of its
      blocks holds new bytes, and a table among them no longer holds block numbers. */
  lemma OverwriteLost(fs: Fs, x: nat, v: byte, data: seq<byte>, e: seq<Block>)
    requires FsInv(fs) && Synced(fs) && Shape(fs) && LiveFile(fs, x) && Node(fs, x).size > 0 && v != 0
    requires NDIRECT < FreeUnder(fs, BitsWithout(fs, x)) <= FIRST_DOUBLE && fs.sup.blocksCount < 0x100_0000
    requires |data| == FreeUnder(fs, BitsWithout(fs, x)) * BS && forall i :: 0 <= i < |data| ==> data[i] == v
    requires CutOff(fs, BitsWithout(fs, x), e, data)
    ensures Mountable(e)
    ensures var m := Mount(e);
            IsInode(m, x) && Node(m, x).size > 0 && Content(m, x)[0] == v
            && (Node(fs, x).ptrs[12] != 0 ==> !FsInv(m))
  {
    hide TreeInv, Synced, Untouched, Mount, Mountable, OwnInv, BitsWithout, OldKept, CutOff, FreeUnder, DataBlocks, Own,
         Content;
    WholeBlocks(FreeUnder(fs, BitsWithout(fs, x)));
    OverwriteCut(fs, x, data, e);
    MountedDisk(e);
    var m := Mount(e);
    TreeFile(fs, x);
    FirstByte(fs, m, x, v, data);
    if Node(fs, x).ptrs[12] != 0 {
      TableLost(fs, m, x, v, data);
    }
  }

  lemma MountedDisk(e: seq<Block>)
    requires Mountable(e)
    ensures Mount(e).disk == e
  {
  }

  /** Every block of the file is full of the new byte. */
  lemma NewBytes(fs: Fs, x: nat, v: byte, data: seq<byte>, e: seq<Block>, t: Slot)
    requires OwnInv(fs) && Shape(fs) && Live(fs, x) && Own(fs, x, t) != 0
    requires |data| == FreeUnder(fs, BitsWithout(fs, x)) * BS && forall i :: 0 <= i < |data| ==> data[i] == v
    requires NDIRECT < FreeUnder(fs, BitsWithout(fs, x)) <= FIRST_DOUBLE && CutOff(fs, BitsWithout(fs, x), e, data)
    ensures Own(fs, x, t) < |e| && forall i :: 0 <= i < BS ==> e[Own(fs, x, t)][i] == v
  {
    hide OwnInv, Own, BitsWithout, FreeUnder, DataBlocks, FreeRun;
    var bits := BitsWithout(fs, x);
    WholeBlocks(FreeUnder(fs, bits));
    OwnTaken(fs, x, t);
    var run := FreeRun(fs, bits);
    var i :| 0 <= i < |run| && run[i] == Own(fs, x, t);
    assert CutBlock(e[run[i]], run, data, i);
    assert e[run[i]] == Chunk(data, i);
  }

  lemma FirstByte(fs: Fs, m: Fs, x: nat, v: byte, data: seq<byte>)
    requires OwnInv(fs) && Shape(fs) && LiveFile(fs, x) && Node(fs, x).size > 0 && NoHoles(fs, x)
    requires |data| == FreeUnder(fs, BitsWithout(fs, x)) * BS && forall i :: 0 <= i < |data| ==> data[i] == v
    requires NDIRECT < FreeUnder(fs, BitsWithout(fs, x)) <= FIRST_DOUBLE && CutOff(fs, BitsWithout(fs, x), m.disk, data)
    requires Live(m, x) && Node(m, x) == Node(fs, x)
    ensures Content(m, x)[0] == v
  {
    hide OwnInv, BitsWithout, FreeUnder, CutOff;
    assert DataRef(fs, x, 0) != 0;
    assert DataSlot(0) == Direct(0);
    NewBytes(fs, x, v, data, m.disk, Direct(0));
  }

  lemma TableLost(fs: Fs, m: Fs, x: nat, v: byte, data: seq<byte>)
    requires OwnInv(fs) && Shape(fs) && Live(fs, x) && Node(fs, x).ptrs[12] != 0 && v != 0
    requires |data| == FreeUnder(fs, BitsWithout(fs, x)) * BS && forall i :: 0 <= i < |data| ==> data[i] == v
    requires NDIRECT < FreeUnder(fs, BitsWithout(fs, x)) <= FIRST_DOUBLE && CutOff(fs, BitsWithout(fs, x), m.disk, data)
    requires Live(m, x) && Node(m, x) == Node(fs, x) && m.sup == fs.sup && fs.sup.blocksCount < 0x100_0000
    ensures !OwnInv(m)
  {
    hide BitsWithout, FreeUnder, CutOff, Unshared, FreedClear, CountsOk, Marked;
    assert Own(fs, x, Single) == Node(fs, x).ptrs[12];
    NewBytes(fs, x, v, data, m.disk, Single);
    var b := m.disk[Node(fs, x).ptrs[12]];
    assert Le32(b, 0) >= 0x100_0000;
    assert Own(m, x, SingleEntry(0)) == Le32(b, 0);
    TooBig(m, x, SingleEntry(0));
  }

  lemma TooBig(m: Fs, x: nat, t: Slot)
    requires Own(m, x, t) != 0 && Own(m, x, t) >= m.sup.blocksCount
    ensures !OwnInv(m)
  {
    hide Own, Unshared, FreedClear, CountsOk;
  }

  /** A file of 13 blocks on a formatted disk, overwritten with a file that takes every block there is: the tool
      fails, and afterwards the old file is lost and the ownership invariant broken. */
  lemma OverwriteWitness(disk: seq<Block>, name: Name) returns (ops: seq<Op>, data: seq<byte>)
    requires |disk| >= 128 && IsName(name) && !IsDot(name) && |name| == 1
    ensures Good(Format(128, disk)) && AllAllowed(Format(128, disk), ops)
    ensures var fs := Run(Format(128, disk), ops); var x := Entry(fs, ROOT_INODE, name);
            && Ready(fs) && LiveDir(fs, ROOT_INODE) && Node(fs, ROOT_INODE).blocks == 2 && LiveFile(fs, x)
            && !Accepts(fs, ROOT_INODE, name, |data|)
            && (forall e :: HostFails(fs, ROOT_INODE, name, data, e) ==>
                  && Mountable(e) && !FsInv(Mount(e)) && IsInode(Mount(e), x)
                  && Content(Mount(e), x) != Content(fs, x))
  {
    hide OwnInv, TreeInv, Synced, Entry, Allowed, Exec, Format, IsName, PadClear, FreeData, ClearIn, DirGap, HostFails,
         Mount, Mountable, DataBlocks, NextInode, Accepts, Content, BitsWithout, CutOff, FreeUnder;
    var f0 := Format(128, disk);
    FreshRoot(disk);
    GapCreate(f0, name, 20);
    var op1 := Create([], name, 0);
    var f1 := Exec(f0, op1);
    var x := NextInode(f0);
    var op2 := BigWrite(f1, x, name);
    var fs := Exec(f1, op2);
    ops := [op1] + ([op2] + []);
    Prefixed(f1, op2, []);
    Prefixed(f0, op1, [op2] + []);
    var avail := FreeUnder(fs, BitsWithout(fs, x));
    FewFree(fs, BitsWithout(fs, x));
    MoreFree(fs, x);
    ContentLength(fs, x);
    var v: byte := if Content(fs, x)[0] == 1 then 2 else 1;
    data := seq(avail * BS, _ => v);
    WholeBlocks(avail);
    NoTables13(fs, x, name, data);
    forall e | HostFails(fs, ROOT_INODE, name, data, e)
      ensures Mountable(e) && !FsInv(Mount(e)) && IsInode(Mount(e), x) && Content(Mount(e), x) != Content(fs, x)
    {
      FailsCut(fs, x, name, data, e);
      OverwriteLost(fs, x, v, data, e);
    }
  }

  /** Giving back an inode's blocks leaves no fewer free. */
  lemma MoreFree(fs: Fs, x: nat)
    requires Shape(fs) && IsInode(fs, x)
    ensures FreeUnder(fs, BitsWithout(fs, x)) >= FreeData(fs)
  {
    hide Ext2Fsck.InodeRefs;
    ClearMore(fs.blockBits, BitsWithout(fs, x), fs.sup.firstData, fs.sup.blocksCount);
  }

  lemma {:induction false} ClearMore(a: seq<bool>, b: seq<bool>, lo: nat, hi: nat)
    requires hi <= |a| == |b| && forall k :: 0 <= k < |a| && b[k] ==> a[k]
    ensures ClearIn(b, lo, hi) >= ClearIn(a, lo, hi)
    decreases hi
  {
    if lo < hi {
      ClearMore(a, b, lo, hi - 1);
    }
  }

  /** The write of 13 blocks. */
  lemma BigWrite(fs: Fs, x: nat, name: Name) returns (op: Op)
    requires OneBlockRoot(fs, 20) && LiveFile(fs, x) && Content(fs, x) == [] && Entry(fs, ROOT_INODE, name) == x
    requires x < 32
    ensures Allowed(fs, op) && Good(fs)
    ensures var gs := Exec(fs, op);
            && Ready(gs) && gs.sup.blocksCount == 128 && LiveDir(gs, ROOT_INODE) && Entry(gs, ROOT_INODE, name) == x
            && Node(gs, ROOT_INODE).blocks == 2 && LiveFile(gs, x) && Node(gs, x).ptrs[12] != 0
            && Node(gs, x).size > 0 && FreeData(gs) > NDIRECT
  {
    hide OwnInv, TreeInv, Synced, Entry, Write, PadClear, FreeData, ClearIn, Content, NoHoles, OthersSame, Overlay,
         StopsWell, Untouched;
    var data := Zeros(13 * BS);
    op := WriteAt(x, 0, data);
    ContentLength(fs, x);
    ExecGood(fs, op);
    ExecPads(fs, op);
    var gs := Exec(fs, op);
    PadsClear(fs, gs);
    WrittenTable(fs, ROOT_INODE, x, name, data);
    WriteUses(fs, x, 0, data);
    TreeFile(fs, x);
    WriteRefines(fs, x, 0, data);
    OthersUntouched(fs, gs, x, ROOT_INODE);
    RecordKept(fs, gs, ROOT_INODE);
  }

  lemma NoTables13(fs: Fs, x: nat, name: Name, data: seq<byte>)
    requires Shape(fs) && Entry(fs, ROOT_INODE, name) == x != 0 && IsInode(fs, x) && IsInode(fs, ROOT_INODE)
    requires FreeUnder(fs, BitsWithout(fs, x)) == DataBlocks(|data|) > NDIRECT
    ensures !Accepts(fs, ROOT_INODE, name, |data|)
  {
    hide Entry, BitsWithout, FreeUnder, DataBlocks, DirRoom, FreeData;
  }

  lemma FailsCut(fs: Fs, x: nat, name: Name, data: seq<byte>, e: seq<Block>)
    requires Shape(fs) && Entry(fs, ROOT_INODE, name) == x != 0 && IsName(name)
    requires HostFails(fs, ROOT_INODE, name, data, e)
    requires DataBlocks(|data|) <= MAX_FILE_BLOCKS
    ensures IsInode(fs, x) && CutOff(fs, BitsWithout(fs, x), e, data)
  {
    hide Entry, BitsWithout, FreeUnder, DataBlocks, CutOff, NewFails;
  }
}
