/** What callers see: the directory as a finite map through create, mkdir and
    unlink, and the exact limits of the promises the code documents. */
module Ext2Outcomes {
  import opened Bytes
  import opened Ext2State
  import opened Ext2Ownership
  import opened Ext2Bmap
  import opened Ext2Disk
  import opened Ext2File
  import opened Ext2DirBlock
  import opened Ext2Dir
  import opened Ext2Tree
  import opened Ext2Names
  import opened Ext2Padding

  lemma ReboundMap(fs: Fs, gs: Fs, p: nat, name: Name, v: u32)
    requires DirOk(fs, p) && Rebound(fs, gs, p, name, v)
    ensures BlocksOk(fs, p) && BlocksOk(gs, p)
    ensures DirMap(gs, p) == if v != 0 then DirMap(fs, p)[name := v] else DirMap(fs, p) - {name}
  {
    hide Entry, DirMap, Packed, NamesApart, SizeOk, Tiles, Distinct;
    var m := DirMap(fs, p);
    var e := if v != 0 then m[name := v] else m - {name};
    forall n: Name
      ensures n in DirMap(gs, p) <==> n in e
      ensures n in e ==> DirMap(gs, p)[n] == e[n]
    {
      DirMapEntry(fs, p, n);
      DirMapEntry(gs, p, n);
    }
  }

  lemma UntouchedMap(fs: Fs, gs: Fs, d: nat)
    requires DirOk(fs, d) && Untouched(fs, gs, d)
    ensures BlocksOk(fs, d) && BlocksOk(gs, d) && DirMap(gs, d) == DirMap(fs, d)
  {
    hide Entry, DirMap, Packed, NamesApart, SizeOk, Tiles, Distinct, Own, SlotData;
    UntouchedDir(fs, gs, d);
    forall n: Name
      ensures n in DirMap(gs, d) <==> n in DirMap(fs, d)
      ensures n in DirMap(fs, d) ==> DirMap(gs, d)[n] == DirMap(fs, d)[n]
    {
      DirMapEntry(fs, d, n);
      DirMapEntry(gs, d, n);
    }
  }

  /** Create extends the parent's map by one binding and leaves every other directory's map alone. */
  lemma CreateMap(fs: Fs, p: nat, name: Name, mode: u16, d: nat)
    requires FsInv(fs) && ParentOk(fs, p) && IsName(name) && LiveDir(fs, d)
    ensures var (gs, ino) := CreateIn(fs, p, name, mode);
            && BlocksOk(fs, d) && BlocksOk(gs, d)
            && (ino != 0 && d == p ==>
                  ino < 0x1_0000_0000 && name !in DirMap(fs, p) && DirMap(gs, p) == DirMap(fs, p)[name := ino])
            && (ino == 0 || d != p ==> DirMap(gs, d) == DirMap(fs, d))
  {
    hide OwnInv, TreeInv, CreateIn, Entry, DirOk, Untouched, DirMap, Rebound, Content, BlocksOk;
    CreateOk(fs, p, name, mode);
    TreeDir(fs, d);
    var (gs, ino) := CreateIn(fs, p, name, mode);
    if ino != 0 && d == p {
      ReboundMap(fs, gs, p, name, ino);
      CreateWasAbsent(fs, p, name, mode);
    } else {
      UntouchedMap(fs, gs, d);
    }
  }

  lemma CreateWasAbsent(fs: Fs, p: nat, name: Name, mode: u16)
    requires FsInv(fs) && ParentOk(fs, p) && IsName(name) && LiveDir(fs, p) && CreateIn(fs, p, name, mode).1 != 0
    ensures DirOk(fs, p) && name !in DirMap(fs, p)
  {
    hide OwnInv, TreeInv, Entry, DirOk, DirMap, BornFile, Commit, FindEntry, AddFrom, Ext2State.FreeInode, NextInode,
         Untouched;
    TreeDir(fs, p);
    ParentFacts(fs, p);
    BornFileOk(fs, mode);
    NextInodeFree(fs);
    var f2 := BornFile(fs, mode);
    ParentStays(fs, f2, p);
    ParentFacts(f2, p);
    BornSuper(fs, mode);
    FoundNothing(fs, p, name);
    DirMapEntry(fs, p, name);
  }

  lemma BornSuper(fs: Fs, mode: u16)
    requires Shape(fs) && NextInode(fs) != 0
    ensures BornFile(fs, mode).sup.inodesCount == fs.sup.inodesCount
  {
  }

  /** Unlink deletes the key whenever it was there, whatever it returns. */
  lemma UnlinkMap(fs: Fs, p: nat, name: Name)
    requires FsInv(fs) && LiveDir(fs, p) && !IsDot(name)
    ensures var (gs, r) := UnlinkIn(fs, p, name);
            && BlocksOk(fs, p) && BlocksOk(gs, p)
            && (r == -1 <==> name !in DirMap(fs, p))
            && DirMap(gs, p) == DirMap(fs, p) - {name}
  {
    hide OwnInv, TreeInv, UnlinkIn, Entry, DirOk, Untouched, DirMap, Rebound, BlocksOk;
    UnlinkOk(fs, p, name);
    TreeDir(fs, p);
    DirMapEntry(fs, p, name);
    var (gs, r) := UnlinkIn(fs, p, name);
    if r != -1 {
      ReboundMap(fs, gs, p, name, 0);
    } else {
      DirBlocksOk(fs, p);
      assert DirMap(fs, p) - {name} == DirMap(fs, p);
    }
  }

  lemma DirBlocksOk(fs: Fs, p: nat)
    requires DirOk(fs, p)
    ensures BlocksOk(fs, p)
  {
  }

  // ---- which directories unlink refuses ----

  ghost predicate EmptyDir(fs: Fs, d: nat) { forall n: Name :: !IsDot(n) ==> Entry(fs, d, n) == 0 }

  /** The first block of an empty directory holds at most the two dots. */
  lemma EmptyCount(fs: Fs, d: nat)
    requires DirOk(fs, d) && EmptyDir(fs, d)
    ensures Tiles(DirBlock(fs, d, 0), 0) && CountUsed(DirBlock(fs, d, 0), 0) <= 2
  {
    hide Entry, SizeOk, CountUsed, Names, Find;
    var b := DirBlock(fs, d, 0);
    CountIsNames(b, 0);
    forall n: Name | n in Names(b, 0)
      ensures IsDot(n)
    {
      NamesFind(b, 0, n);
      assert BlockFind(fs, d, 0, n) != 0;
      EntryBlock(fs, d, n);
    }
    assert Names(b, 0) <= {DOT, DOTDOT};
    SubsetCard(Names(b, 0), {DOT, DOTDOT});
  }

  lemma {:induction false} SubsetCard(a: set<Name>, b: set<Name>)
    requires a <= b
    ensures |a| <= |b|
  {
    if a != {} {
      var x :| x in a;
      SubsetCard(a - {x}, b - {x});
    }
  }

  /** More than two entries in the first block of a directory: the only thing the emptiness test looks at. */
  ghost predicate Refused(fs: Fs, t: nat) {
    LiveDir(fs, t) && Tiles(DirBlock(fs, t, 0), 0) && CountUsed(DirBlock(fs, t, 0), 0) > 2
  }

  /** Files and empty directories are always removed. Refused are exactly the directories whose first
      block holds more than two entries, and those are never empty. */
  lemma UnlinkRefusal(fs: Fs, p: nat, name: Name)
    requires FsInv(fs) && LiveDir(fs, p) && !IsDot(name) && Entry(fs, p, name) != 0
    ensures var (gs, r) := UnlinkIn(fs, p, name); var t := Entry(fs, p, name);
            && (LiveFile(fs, t) ==> r == 0)
            && (LiveDir(fs, t) && EmptyDir(fs, t) ==> r == 0)
            && (r == -2 <==> Refused(fs, t))
            && (Refused(fs, t) ==> !EmptyDir(fs, t))
  {
    hide OwnInv, TreeInv, RemoveFrom, Entry, Bury, Rebound, Unreferenced, Tiles, BlocksOk, CountUsed, DirOk,
         Untouched, Own;
    UnlinkFacts(fs, p, name);
    UnlinkOk(fs, p, name);
    var (f1, t) := RemoveFrom(fs, p, 0, name);
    UntouchedKind(fs, f1, t);
    UntouchedBlock(fs, f1, t);
    LiveDirect(f1, t, 0);
    if LiveDir(fs, t) && EmptyDir(fs, t) {
      TreeDir(fs, t);
      UntouchedDir(fs, f1, t);
      EmptyCount(f1, t);
    }
  }

  lemma UntouchedBlock(fs: Fs, gs: Fs, j: nat)
    requires Live(fs, j) && Untouched(fs, gs, j)
    ensures DirBlock(gs, j, 0) == DirBlock(fs, j, 0)
  {
  }

  lemma UntouchedKind(fs: Fs, gs: Fs, j: nat)
    requires Untouched(fs, gs, j)
    ensures LiveFile(gs, j) <==> LiveFile(fs, j)
    ensures LiveDir(gs, j) <==> LiveDir(fs, j)
  {
  }

  /** Unlink fails exactly for absent names and refused directories. It is documented as leaving a refused directory
      in place, but the entry is already gone: the parent's map is unchanged exactly when the name was absent. */
  lemma FailedUnlinkExact(fs: Fs, p: nat, name: Name)
    requires FsInv(fs) && LiveDir(fs, p) && !IsDot(name)
    ensures BlocksOk(fs, p) && BlocksOk(UnlinkIn(fs, p, name).0, p)
    ensures UnlinkIn(fs, p, name).1 < 0 <==> Entry(fs, p, name) == 0 || Refused(fs, Entry(fs, p, name))
    ensures DirMap(UnlinkIn(fs, p, name).0, p) == DirMap(fs, p) <==> Entry(fs, p, name) == 0
  {
    hide OwnInv, TreeInv, UnlinkIn, Entry, DirOk, DirMap, BlocksOk, Refused, Untouched, Rebound;
    UnlinkMap(fs, p, name);
    UnlinkOk(fs, p, name);
    TreeDir(fs, p);
    DirMapEntry(fs, p, name);
    if Entry(fs, p, name) != 0 {
      UnlinkRefusal(fs, p, name);
    }
  }

  /** The test misses entries in later blocks: a directory with an entry is removed exactly when its first block holds
      nothing but the dots. What the entry named then stays allocated, and no directory names it any more. */
  lemma UnlinkOrphans(fs: Fs, p: nat, name: Name, n: Name)
    requires FsInv(fs) && LiveDir(fs, p) && !IsDot(name) && LiveDir(fs, Entry(fs, p, name))
    requires !IsDot(n) && Entry(fs, Entry(fs, p, name), n) != 0
    ensures var (gs, r) := UnlinkIn(fs, p, name); var t := Entry(fs, p, name); var c := Entry(fs, t, n);
            && (r == 0 <==> !Refused(fs, t))
            && (r == 0 ==> Live(fs, c) && Live(gs, c) && Unreferenced(gs, c) && (c != p ==> Untouched(fs, gs, c)))
  {
    hide OwnInv, UnlinkIn, Entry, DirOk, DirsOk, FilesOk, DotsOk, Refused, Untouched;
    UnlinkRefusal(fs, p, name);
    UnlinkOk(fs, p, name);
    var (gs, r) := UnlinkIn(fs, p, name);
    var t := Entry(fs, p, name);
    var c := Entry(fs, t, n);
    if r == 0 {
      assert c != t && Live(fs, c);
      if c != p {
        UntouchedLive(fs, gs, c);
      } else {
        ReboundDir(fs, gs, p, name, 0);
      }
      forall d: nat, m: Name | LiveDir(gs, d) && !IsDot(m)
        ensures Entry(gs, d, m) != c
      {
        if d != p {
          UntouchedKind(fs, gs, d);
          UntouchedDir(fs, gs, d);
        }
      }
    }
  }

  // ---- truncating a directory ----

  /** `ext2_truncate` does not test the type. A truncated directory keeps its records, but lookup
      finds none of them; files are unaffected by this. */
  lemma TruncatedDirIsBlind(fs: Fs, d: nat, n: Name)
    requires OwnInv(fs) && DirOk(fs, d) && d < fs.sup.inodesCount
    ensures var gs := Truncate(fs, d).0;
            IsInode(gs, d) && FindEntry(gs, d, n) == 0 && Entry(gs, d, n) == Entry(fs, d, n)
  {
    hide Own, SlotData, Marked, Unshared, FreedClear, CountsOk, SyncInode, BlockFind, BlocksOk, Packed, NamesApart,
         SizeOk;
    var f1 := WithNode(fs, d, Node(fs, d).(size := 0));
    SyncInodeFrame(f1, d);
    var gs := SyncInode(f1, d);
    MetaFrame(fs, gs);
    BlindFrom(gs, d, 0, n);
    forall i: nat
      ensures BlockFind(gs, d, i, n) == BlockFind(fs, d, i, n)
    {
      SameBlockFind(fs, gs, d, i, n);
    }
    SameBlocksSameEntry(fs, gs, d, 0, n);
  }

  /** Truncating keeps the invariants exactly for files, and for the last inode number, which it rejects. */
  lemma TruncateExact(fs: Fs, ino: nat)
    requires FsInv(fs) && Live(fs, ino)
    ensures Shape(fs) && (FsInv(Truncate(fs, ino).0) <==> LiveFile(fs, ino) || ino >= fs.sup.inodesCount)
  {
    hide OwnInv, SyncInode, EntriesLive, OneParent, DotsOk, FilesOk, Packed, BlocksOk, NamesApart;
    OwnInvShape(fs);
    if LiveFile(fs, ino) {
      TruncateKeepsInv(fs, ino);
    } else if ino < fs.sup.inodesCount {
      var gs := Truncate(fs, ino).0;
      SyncInodeFrame(WithNode(fs, ino, Node(fs, ino).(size := 0)), ino);
      assert LiveDir(gs, ino) && !SizeOk(gs, ino);
    }
  }

  lemma SameBlockFind(fs: Fs, gs: Fs, d: nat, i: nat, n: Name)
    requires Own(gs, d, Direct(i)) == Own(fs, d, Direct(i)) && SlotData(gs, d, Direct(i)) == SlotData(fs, d, Direct(i))
    ensures BlockFind(gs, d, i, n) == BlockFind(fs, d, i, n)
  {
    hide Own, SlotData, Find;
  }

  lemma {:induction false} BlindFrom(fs: Fs, d: nat, k: nat, n: Name)
    requires IsInode(fs, d) && Node(fs, d).size == 0
    ensures LookupFrom(fs, d, k, n) == 0
    decreases NDIRECT - k
  {
    if k < NDIRECT {
      BlindFrom(fs, d, k + 1, n);
    }
  }

  // ---- writing past the end ----

  /** A write of nothing leaves the contents alone exactly when it does not start past the end. */
  lemma EmptyWriteExact(fs: Fs, ino: nat, off: nat)
    requires OwnInv(fs) && LiveFile(fs, ino) && ino < fs.sup.inodesCount && off < 0x1_0000_0000
    ensures var (gs, n) := Write(fs, ino, off, []);
            IsInode(gs, ino) && n == 0 && (Content(gs, ino) == Content(fs, ino) <==> off <= Node(fs, ino).size)
  {
    hide Own, SlotData, Marked, Unshared, FreedClear, CountsOk, Commit, NextBlock;
    WriteTail(fs, ino, off, []);
    var gs := Write(fs, ino, off, []).0;
    assert forall k: nat :: ByteAt(gs, ino, k) == ByteAt(fs, ino, k);
    if off <= Node(fs, ino).size {
      assert Content(gs, ino) == Content(fs, ino);
    }
  }

  /** A write at any offset: the size grows to the end of the accepted bytes, these are in place, and every old byte
      outside them that had a block is as it was. Between the old size and the offset the file shows what its blocks
      happen to hold. */
  lemma WriteAnywhere(fs: Fs, ino: nat, off: nat, data: seq<byte>)
    requires OwnInv(fs) && LiveFile(fs, ino) && ino < fs.sup.inodesCount && off + |data| < 0x1_0000_0000
    ensures var (gs, n) := Write(fs, ino, off, data); var size := Node(fs, ino).size;
            && OwnInv(gs) && OthersSame(fs, gs, ino) && IsInode(gs, ino) && 0 <= n <= |data|
            && StopsWell(gs, off, n, |data|)
            && var c := Content(gs, ino);
               && |c| == (if off + n > size then off + n else size)
               && c[off..off + n] == data[..n]
               && (forall k :: 0 <= k < size && !(off <= k < off + n) && DataRef(fs, ino, k / BS) != 0 ==>
                     c[k] == Content(fs, ino)[k])
  {
    hide Write, WriteLoop, Own, Marked, Unshared, FreedClear, CountsOk, SlotData, NextBlock, OthersSame, ByteAt,
         DataRef, Content;
    LoopStored(fs, ino, off, data);
    WriteTail(fs, ino, off, data);
    var (f1, n) := WriteLoop(fs, ino, off, data);
    var gs := Write(fs, ino, off, data).0;
    SameBytes(f1, gs, ino);
    PlacedBytes(gs, ino, off, data[..n]);
  }

  lemma PlacedBytes(fs: Fs, ino: nat, off: nat, d: seq<byte>)
    requires IsInode(fs, ino) && off + |d| <= Node(fs, ino).size
    requires forall k: nat :: off <= k < off + |d| ==> ByteAt(fs, ino, k) == d[k - off]
    ensures Content(fs, ino)[off..off + |d|] == d
  {
    hide ByteAt;
  }

  // ---- the last inode number ----

  lemma CreatedNumber(fs: Fs, p: nat, name: Name, mode: u16)
    requires ParentOk(fs, p) && IsName(name) && CreateIn(fs, p, name, mode).1 != 0
    ensures Shape(fs) && CreateIn(fs, p, name, mode).1 == NextInode(fs)
    ensures CreateIn(fs, p, name, mode).0.sup.inodesCount == fs.sup.inodesCount
  {
    hide OwnInv;
    OwnInvShape(fs);
    CreatePads(fs, p, name, mode);
  }

  /** A created file can be written exactly when its number is not the last of the table. */
  lemma CreatedUsable(fs: Fs, p: nat, name: Name, mode: u16, data: seq<byte>)
    requires FsInv(fs) && ParentOk(fs, p) && IsName(name) && CreateIn(fs, p, name, mode).1 != 0
    ensures Shape(fs)
    ensures var (gs, ino) := CreateIn(fs, p, name, mode);
            && Shape(gs) && IsInode(gs, ino)
            && (Write(gs, ino, 0, data).1 >= 0 <==> NextInode(fs) < fs.sup.inodesCount)
            && (NextInode(fs) == fs.sup.inodesCount ==> Write(gs, ino, 0, data) == (gs, -1))
  {
    hide OwnInv, TreeInv, CreateIn, NextInode, Untouched, Rebound, NoHoles, Content, OthersSame, StopsWell;
    CreatedNumber(fs, p, name, mode);
    NextInodeFree(fs);
    CreateOk(fs, p, name, mode);
    var (gs, ino) := CreateIn(fs, p, name, mode);
    OwnInvShape(gs);
  }

  /** A directory made under the last number answers no lookup, not even for its dots. */
  lemma MadeDirUsable(fs: Fs, p: nat, name: Name, mode: u16)
    requires FsInv(fs) && ParentOk(fs, p) && IsName(name) && MkdirIn(fs, p, name, mode).1 != 0
    ensures Shape(fs)
    ensures var (gs, ino) := MkdirIn(fs, p, name, mode);
            IsInode(gs, ino) && (FindEntry(gs, ino, DOT) == ino <==> NextInode(fs) < fs.sup.inodesCount)
  {
    hide OwnInv, TreeInv, MkdirIn, NextInode, Untouched, Rebound, Entry, DirOk;
    MadeNumber(fs, p, name, mode);
    NextInodeFree(fs);
    MkdirOk(fs, p, name, mode);
    var (gs, ino) := MkdirIn(fs, p, name, mode);
    TreeDir(gs, ino);
    if ino < gs.sup.inodesCount {
      FindEntryIsEntry(gs, ino, DOT);
    }
  }

  lemma MadeNumber(fs: Fs, p: nat, name: Name, mode: u16)
    requires ParentOk(fs, p) && IsName(name) && MkdirIn(fs, p, name, mode).1 != 0
    ensures Shape(fs) && MkdirIn(fs, p, name, mode).1 == NextInode(fs)
    ensures MkdirIn(fs, p, name, mode).0.sup.inodesCount == fs.sup.inodesCount
  {
    hide OwnInv;
    OwnInvShape(fs);
    MkdirPads(fs, p, name, mode);
  }
}
