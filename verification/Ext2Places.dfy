/** Where in a directory entries are, and of what type: the dots lie in its first block, and the entry of a new inode
    carries its type. */
module Ext2Places {
  import opened Bytes
  import opened Ext2State
  import opened Ext2Ownership
  import opened Ext2Bmap
  import opened Ext2Disk
  import opened Ext2File
  import opened Ext2DirBlock
  import opened Ext2Dir
  import opened Ext2Tree
  import opened Ext2Names
  import opened Ext2Persist
  import opened Ext2Runs
  import opened Ext2Format
  import opened Ext2Room
  import opened Ext2Outcomes
  import opened Ext2Orphans

  const FT_REG_FILE: byte := 1
  const FT_DIR: byte := 2

  // ---- types ----

  /** One of the records from `o` on has this inode, name and type. */
  predicate HasRecord(b: Block, o: nat, ino: u32, name: Name, ftype: byte)
    requires o <= BS && Tiles(b, o)
    decreases BS - o
  {
    o < BS && ((RecIno(b, o) == ino && RecName(b, o) == name && b[o + 7] == ftype)
               || HasRecord(b, o + RecLen(b, o), ino, name, ftype))
  }

  lemma FillType(b: Block, o: nat, len: u16, ino: u32, name: Name, ftype: byte)
    requires o + 8 + |name| <= BS && IsName(name)
    ensures Fill(b, o, len, ino, name, ftype)[o + 7] == ftype
  {
    hide RecBytes;
    RecBytesAt(ino, len, name, ftype);
    assert Fill(b, o, len, ino, name, ftype)[o + 7] == RecBytes(ino, len, name, ftype)[7];
  }

  /** What is inserted has the type asked for. */
  lemma {:induction false} InsertTyped(b: Block, o: nat, ino: u32, name: Name, ftype: byte)
    requires o <= BS && Tiles(b, o) && Distinct(b, o) && IsName(name) && ino != 0 && Find(b, o, name) == 0
    ensures var r := Insert(b, o, ino, name, ftype);
            r.Some? ==> Tiles(r.value, o) && HasRecord(r.value, o, ino, name, ftype)
    decreases BS - o
  {
    hide Find, Distinct, Fill, Space, RecName, RecIno, NameLen, CStr;
    InsertOk(b, o, ino, name, ftype);
    if o < BS {
      PopRecord(b, o);
      var used, len := Space(NameLen(b, o)), RecLen(b, o);
      if RecIno(b, o) == 0 && len >= Space(|name|) {
        FillFields(b, o, len, ino, name, ftype);
        FillType(b, o, len, ino, name, ftype);
      } else if RecIno(b, o) != 0 && len >= used + Space(|name|) {
        SplitTyped(b, o, ino, name, ftype);
      } else {
        InsertTyped(b, o + len, ino, name, ftype);
        InsertOk(b, o + len, ino, name, ftype);
        var r := Insert(b, o + len, ino, name, ftype);
        if r.Some? {
          SameLength(b, r.value, o, o + len);
        }
      }
    }
  }

  lemma SameLength(b: Block, c: Block, o: nat, nx: nat)
    requires o + 8 <= nx <= BS && c[..nx] == b[..nx]
    ensures RecLen(c, o) == RecLen(b, o)
  {
    assert forall k :: 0 <= k < nx ==> c[k] == c[..nx][k] == b[..nx][k] == b[k];
  }

  lemma SplitTyped(b: Block, o: nat, ino: u32, name: Name, ftype: byte)
    requires o < BS && Tiles(b, o) && Distinct(b, o) && IsName(name) && ino != 0 && Find(b, o, name) == 0
    requires RecIno(b, o) != 0 && RecLen(b, o) >= Space(NameLen(b, o)) + Space(|name|)
    ensures var r := Insert(b, o, ino, name, ftype);
            r.Some? && Tiles(r.value, o) && HasRecord(r.value, o, ino, name, ftype)
  {
    hide Find, Distinct, Fill, Space, Put16, RecName, RecLen, RecIno, NameLen, CStr;
    SplitInserts(b, o, ino, name, ftype);
    RecInside(b, o);
    var used := Space(NameLen(b, o));
    var m := Put16(b, o + 4, used);
    var len := RecLen(b, o) - used;
    SplitRoom(b, o, |name|);
    FillFields(m, o + used, len, ino, name, ftype);
    FillType(m, o + used, len, ino, name, ftype);
    SplitFirst(b, m, Fill(m, o + used, len, ino, name, ftype), o);
  }

  /** Some block of directory `d` has this record. */
  ghost predicate TypedEntry(fs: Fs, d: nat, ino: u32, name: Name, ftype: byte) {
    exists k: nat :: TypedIn(fs, d, k, ino, name, ftype)
  }

  ghost predicate TypedIn(fs: Fs, d: nat, k: nat, ino: u32, name: Name, ftype: byte) {
    && k < NDIRECT && Own(fs, d, Direct(k)) != 0 && Tiles(DirBlock(fs, d, k), 0)
    && HasRecord(DirBlock(fs, d, k), 0, ino, name, ftype)
  }

  lemma NewBlockTyped(ino: u32, name: Name, ftype: byte)
    requires IsName(name) && ino != 0
    ensures var c := NewDirBlock(ino, name, ftype); Tiles(c, 0) && HasRecord(c, 0, ino, name, ftype)
  {
    hide Fill, RecName, RecIno, NameLen, CStr, Find;
    NewDirBlockOk(ino, name, ftype);
    FillFields(Zeros(BS), 0, BS, ino, name, ftype);
    FillType(Zeros(BS), 0, BS, ino, name, ftype);
  }

  lemma {:induction false} AddFromTyped(fs: Fs, d: nat, k: nat, ino: u32, name: Name, ftype: byte)
    requires OwnInv(fs) && DirOk(fs, d) && Shape(fs) && Live(fs, d) && BlocksOk(fs, d) && IsName(name) && ino != 0
    requires Entry(fs, d, name) == 0
    ensures var (gs, ok) := AddFrom(fs, d, k, ino, name, ftype); ok ==> TypedEntry(gs, d, ino, name, ftype)
    decreases NDIRECT - k
  {
    hide OwnInv, DirOk, Insert, Tiles, Distinct, BlocksOk, NewDirBlock, AddBlock, WriteSlot, SlotData, Own, HasRecord,
         NextBlock, Shape, Entry, Find;
    if k < NDIRECT {
      LiveDirect(fs, d, k);
      if Node(fs, d).ptrs[k] == 0 {
        if NextBlock(fs) != 0 {
          var c := NewDirBlock(ino, name, ftype);
          NewBlockTyped(ino, name, ftype);
          BlockAdded(fs, d, k, c);
          assert TypedIn(AddBlock(fs, d, k, c), d, k, ino, name, ftype);
        }
      } else {
        DirBlockTiles(fs, d, k);
        BlockDistinct(fs, d, k);
        NotHere(fs, d, k, name);
        InsertTyped(DirBlock(fs, d, k), 0, ino, name, ftype);
        var r := Insert(DirBlock(fs, d, k), 0, ino, name, ftype);
        if r.Some? {
          WriteSlotFrame(fs, d, Direct(k), r.value);
          assert TypedIn(WriteSlot(fs, d, Direct(k), r.value), d, k, ino, name, ftype);
        } else {
          AddFromTyped(fs, d, k + 1, ino, name, ftype);
        }
      }
    }
  }

  lemma NotHere(fs: Fs, d: nat, k: nat, name: Name)
    requires DirOk(fs, d) && Entry(fs, d, name) == 0 && Own(fs, d, Direct(k)) != 0
    ensures Find(DirBlock(fs, d, k), 0, name) == 0
  {
    hide Entry, Own, Find, BlocksOk, Packed, SizeOk;
    EntryBlock(fs, d, name);
    assert BlockFind(fs, d, k, name) == 0;
  }

  /** Records outlast changes of the metadata area. */
  lemma MetaTyped(fs: Fs, gs: Fs, d: nat, ino: u32, name: Name, ftype: byte)
    requires OwnInv(fs) && TypedEntry(fs, d, ino, name, ftype)
    requires gs.sup == fs.sup && gs.blockBits == fs.blockBits && gs.inodeBits == fs.inodeBits
    requires |gs.inodes| == |fs.inodes| && |gs.disk| == |fs.disk|
    requires forall j: nat :: IsInode(fs, j) ==> Node(gs, j).ptrs == Node(fs, j).ptrs
    requires forall x :: fs.sup.firstData <= x < |fs.disk| ==> gs.disk[x] == fs.disk[x]
    ensures TypedEntry(gs, d, ino, name, ftype)
  {
    hide OwnInv, Own, SlotData, Tiles, HasRecord;
    MetaFrame(fs, gs);
    var k: nat :| TypedIn(fs, d, k, ino, name, ftype);
    assert TypedIn(gs, d, k, ino, name, ftype);
  }

  /** A created file is entered as a regular file. */
  lemma CreateTyped(fs: Fs, p: nat, name: Name, mode: u16)
    requires FsInv(fs) && ParentOk(fs, p) && IsName(name)
    ensures var (gs, ino) := CreateIn(fs, p, name, mode);
            ino != 0 ==> ino < 0x1_0000_0000 && TypedEntry(gs, p, ino, name, FT_REG_FILE)
  {
    hide FsInv, CreateIn, BornFile, AddFrom, Commit, NextInode, Untouched, Entry, BlocksOk, TypedEntry, DirRoom,
         FreeData, Content, FileOk, OwnInv, DirOk, Rebound;
    CreateOk(fs, p, name, mode);
    CreateExact(fs, p, name, mode);
    if CreateIn(fs, p, name, mode).1 != 0 {
      CreateParts(fs, p, name, mode);
      CreatedNumber(fs, p, name, mode);
      var f2 := BornFile(fs, mode);
      var ino := NextInode(fs);
      BornFileOk(fs, mode);
      ParentStays(fs, f2, p);
      EnteredTyped(f2, p, ino, name, FT_REG_FILE);
      var f3 := AddFrom(f2, p, 0, ino, name, FT_REG_FILE).0;
      MetaTyped(f3, Commit(f3, ino), p, ino, name, FT_REG_FILE);
    }
  }

  lemma EnteredTyped(fs: Fs, p: nat, ino: u32, name: Name, ftype: byte)
    requires ParentOk(fs, p) && LiveDir(fs, p) && Shape(fs) && BlocksOk(fs, p) && IsName(name) && ino != 0
    requires Entry(fs, p, name) == 0 && AddFrom(fs, p, 0, ino, name, ftype).1
    ensures var gs := AddFrom(fs, p, 0, ino, name, ftype).0; OwnInv(gs) && TypedEntry(gs, p, ino, name, ftype)
  {
    hide AddFrom, Entry, BlocksOk, TypedEntry, OwnInv, DirOk, Shape, OthersSame;
    AddFromTyped(fs, p, 0, ino, name, ftype);
    AddFromOk(fs, p, 0, ino, name, ftype);
  }

  /** A made directory is entered as a directory. */
  lemma MkdirTyped(fs: Fs, p: nat, name: Name, mode: u16)
    requires FsInv(fs) && ParentOk(fs, p) && IsName(name)
    ensures var (gs, ino) := MkdirIn(fs, p, name, mode);
            ino != 0 ==> ino < 0x1_0000_0000 && TypedEntry(gs, p, ino, name, FT_DIR)
  {
    hide FsInv, MkdirIn, BornDir, AddFrom, MkdirCommit, NextInode, NextBlock, Untouched, Entry, BlocksOk, TypedEntry,
         DirRoom, FreeData, OwnInv, DirOk, Rebound;
    MkdirOk(fs, p, name, mode);
    MkdirExact(fs, p, name, mode);
    if MkdirIn(fs, p, name, mode).1 != 0 {
      MkdirParts(fs, p, name, mode);
      MadeNumber(fs, p, name, mode);
      var f3 := BornDir(fs, p, mode);
      var ino := NextInode(fs);
      NotZero(fs, p);
      BornDirOk(fs, p, mode);
      ParentStays(fs, f3, p);
      EnteredTyped(f3, p, ino, name, FT_DIR);
      var f4 := AddFrom(f3, p, 0, ino, name, FT_DIR).0;
      MkdirCommitNodes(f4, p, ino);
      MetaTyped(f4, MkdirCommit(f4, p, ino), p, ino, name, FT_DIR);
    }
  }

  lemma NotZero(fs: Fs, p: nat)
    requires ParentOk(fs, p)
    ensures p != 0
  {
    hide OwnInv, DirOk;
  }

  // ---- the dots ----

  /** Both dots are in the first block. */
  ghost predicate DotsFirst(fs: Fs, d: nat) { BlockFind(fs, d, 0, DOT) != 0 && BlockFind(fs, d, 0, DOTDOT) != 0 }

  ghost predicate AllDotsFirst(fs: Fs) { forall d: nat :: LiveDir(fs, d) ==> DotsFirst(fs, d) }

  /** Unlink refuses exactly the directories with an entry other than the dots in their first block. */
  lemma RefusedIs(fs: Fs, t: nat)
    requires FsInv(fs) && LiveDir(fs, t) && DotsFirst(fs, t)
    ensures Refused(fs, t) <==> exists n: Name :: !IsDot(n) && BlockFind(fs, t, 0, n) != 0
  {
    hide OwnInv, Entry, CountUsed, Names, Find, Packed, NamesApart, SizeOk, EntriesLive, OneParent, DotsOk, FilesOk;
    var b := DirBlock(fs, t, 0);
    CountIsNames(b, 0);
    forall n: Name
      ensures n in Names(b, 0) <==> BlockFind(fs, t, 0, n) != 0
    {
      NamesFind(b, 0, n);
    }
    DotNames();
    if n: Name :| !IsDot(n) && BlockFind(fs, t, 0, n) != 0 {
      SubsetCard({DOT, DOTDOT, n}, Names(b, 0));
    } else {
      SubsetCard(Names(b, 0), {DOT, DOTDOT});
    }
  }

  lemma {:induction false} AddKeepsPlaces(fs: Fs, d: nat, k: nat, ino: u32, name: Name, ftype: byte, m: Name)
    requires OwnInv(fs) && DirOk(fs, d) && Shape(fs) && Live(fs, d) && BlocksOk(fs, d) && IsName(name) && ino != 0
    requires Entry(fs, d, name) == 0 && m != name && Own(fs, d, Direct(0)) != 0
    ensures BlockFind(AddFrom(fs, d, k, ino, name, ftype).0, d, 0, m) == BlockFind(fs, d, 0, m)
    decreases NDIRECT - k
  {
    hide OwnInv, DirOk, Insert, Tiles, Distinct, BlocksOk, NewDirBlock, AddBlock, WriteSlot, SlotData, Own, NextBlock,
         Shape, Entry, Find;
    if k < NDIRECT {
      LiveDirect(fs, d, k);
      if Node(fs, d).ptrs[k] == 0 {
        if NextBlock(fs) != 0 {
          BlockAdded(fs, d, k, NewDirBlock(ino, name, ftype));
        }
      } else {
        DirBlockTiles(fs, d, k);
        BlockDistinct(fs, d, k);
        NotHere(fs, d, k, name);
        InsertOk(DirBlock(fs, d, k), 0, ino, name, ftype);
        var r := Insert(DirBlock(fs, d, k), 0, ino, name, ftype);
        if r.Some? {
          SlotPlaces(fs, d, k, r.value, m);
        } else {
          AddKeepsPlaces(fs, d, k + 1, ino, name, ftype, m);
        }
      }
    }
  }

  /** Entering another name leaves the dots where they are. */
  lemma AddKeepsDots(fs: Fs, p: nat, ino: u32, name: Name, ftype: byte)
    requires ParentOk(fs, p) && LiveDir(fs, p) && Shape(fs) && BlocksOk(fs, p) && IsName(name) && ino != 0
    requires Entry(fs, p, name) == 0 && !IsDot(name) && DotsFirst(fs, p) && AddFrom(fs, p, 0, ino, name, ftype).1
    ensures var gs := AddFrom(fs, p, 0, ino, name, ftype).0; OwnInv(gs) && DotsFirst(gs, p) && OthersSame(fs, gs, p)
  {
    hide AddFrom, Entry, BlocksOk, OwnInv, DirOk, Shape, OthersSame, Find, Own;
    AddKeepsPlaces(fs, p, 0, ino, name, ftype, DOT);
    AddKeepsPlaces(fs, p, 0, ino, name, ftype, DOTDOT);
    AddFromOk(fs, p, 0, ino, name, ftype);
  }

  lemma MetaDots(fs: Fs, gs: Fs, d: nat)
    requires OwnInv(fs) && DotsFirst(fs, d)
    requires gs.sup == fs.sup && gs.blockBits == fs.blockBits && gs.inodeBits == fs.inodeBits
    requires |gs.inodes| == |fs.inodes| && |gs.disk| == |fs.disk|
    requires forall j: nat :: IsInode(fs, j) ==> Node(gs, j).ptrs == Node(fs, j).ptrs
    requires forall x :: fs.sup.firstData <= x < |fs.disk| ==> gs.disk[x] == fs.disk[x]
    ensures DotsFirst(gs, d)
  {
    hide OwnInv, Own, SlotData, Find;
    MetaFrame(fs, gs);
  }

  lemma UntouchedDots(fs: Fs, gs: Fs, d: nat)
    requires TreeInv(fs) && Untouched(fs, gs, d) && (LiveDir(fs, d) ==> DotsFirst(fs, d))
    ensures LiveDir(gs, d) ==> DotsFirst(gs, d)
  {
    hide TreeInv, Untouched, BlockFind;
    UntouchedView(fs, gs, d);
    if LiveDir(fs, d) {
      UntouchedPlaces(fs, gs, d, DOT);
      UntouchedPlaces(fs, gs, d, DOTDOT);
    }
  }

  lemma AllUntouchedDots(fs: Fs, gs: Fs)
    requires TreeInv(fs) && AllDotsFirst(fs) && forall j: nat :: Untouched(fs, gs, j)
    ensures AllDotsFirst(gs)
  {
    hide TreeInv, Untouched, DotsFirst;
    forall d: nat
      ensures LiveDir(gs, d) ==> DotsFirst(gs, d)
    {
      UntouchedDots(fs, gs, d);
    }
  }

  lemma CreateDots(fs: Fs, p: nat, name: Name, mode: u16)
    requires FsInv(fs) && ParentOk(fs, p) && IsName(name) && AllDotsFirst(fs)
    ensures AllDotsFirst(CreateIn(fs, p, name, mode).0)
  {
    hide TreeInv, OwnInv, CreateIn, Untouched, Entry, DotsFirst, Content, Rebound, DirRoom, FreeData, DirOk, NextInode;
    CreateOk(fs, p, name, mode);
    CreateExact(fs, p, name, mode);
    var (gs, ino) := CreateIn(fs, p, name, mode);
    if ino == 0 {
      AllUntouchedDots(fs, gs);
    } else {
      CreateDotsAt(fs, p, name, mode);
      forall d: nat
        ensures LiveDir(gs, d) ==> DotsFirst(gs, d)
      {
        if d != p && d != ino {
          UntouchedDots(fs, gs, d);
        }
      }
    }
  }

  lemma CreateDotsAt(fs: Fs, p: nat, name: Name, mode: u16)
    requires FsInv(fs) && ParentOk(fs, p) && LiveDir(fs, p) && IsName(name) && DotsFirst(fs, p)
    requires CreateIn(fs, p, name, mode).1 != 0 && Entry(fs, p, name) == 0
    ensures DotsFirst(CreateIn(fs, p, name, mode).0, p)
  {
    hide TreeInv, OwnInv, CreateIn, BornFile, AddFrom, Commit, NextInode, Untouched, Entry, BlocksOk, DotsFirst,
         Content, FileOk, DirOk, OthersSame;
    DotTaken(fs, p, name);
    CreateParts(fs, p, name, mode);
    var f2 := BornFile(fs, mode);
    var ino := NextInode(fs);
    BornFileOk(fs, mode);
    ParentStays(fs, f2, p);
    UntouchedDots(fs, f2, p);
    AddKeepsDots(f2, p, ino, name, FT_REG_FILE);
    var f3 := AddFrom(f2, p, 0, ino, name, FT_REG_FILE).0;
    MetaDots(f3, Commit(f3, ino), p);
  }

  /** The dots are names already. */
  lemma DotTaken(fs: Fs, d: nat, n: Name)
    requires TreeInv(fs) && LiveDir(fs, d) && Entry(fs, d, n) == 0
    ensures !IsDot(n)
  {
    hide Entry, DirsOk, EntriesLive, OneParent, FilesOk;
  }

  lemma MkdirDots(fs: Fs, p: nat, name: Name, mode: u16)
    requires FsInv(fs) && ParentOk(fs, p) && IsName(name) && AllDotsFirst(fs)
    ensures AllDotsFirst(MkdirIn(fs, p, name, mode).0)
  {
    hide TreeInv, OwnInv, MkdirIn, Untouched, Entry, DotsFirst, Rebound, DirRoom, FreeData, DirOk, NextInode;
    MkdirOk(fs, p, name, mode);
    MkdirExact(fs, p, name, mode);
    var (gs, ino) := MkdirIn(fs, p, name, mode);
    if ino == 0 {
      AllUntouchedDots(fs, gs);
    } else {
      MadeNumber(fs, p, name, mode);
      MkdirDotsAt(fs, p, name, mode);
      forall d: nat
        ensures LiveDir(gs, d) ==> DotsFirst(gs, d)
      {
        if d != p && d != ino {
          UntouchedDots(fs, gs, d);
        }
      }
    }
  }

  lemma MkdirDotsAt(fs: Fs, p: nat, name: Name, mode: u16)
    requires FsInv(fs) && ParentOk(fs, p) && LiveDir(fs, p) && IsName(name) && DotsFirst(fs, p) && Shape(fs)
    requires MkdirIn(fs, p, name, mode).1 != 0 && Entry(fs, p, name) == 0
    ensures var gs := MkdirIn(fs, p, name, mode).0; DotsFirst(gs, p) && DotsFirst(gs, NextInode(fs))
  {
    hide TreeInv, OwnInv, MkdirIn, BornDir, AddFrom, MkdirCommit, NextInode, Untouched, Entry, BlocksOk, DotsFirst,
         DirOk, OthersSame, NextBlock;
    DotTaken(fs, p, name);
    MkdirParts(fs, p, name, mode);
    NotZero(fs, p);
    var f3 := BornDir(fs, p, mode);
    var ino := NextInode(fs);
    BornDirOk(fs, p, mode);
    BornDirDots(fs, p, mode);
    ParentStays(fs, f3, p);
    UntouchedDots(fs, f3, p);
    AddKeepsDots(f3, p, ino, name, FT_DIR);
    var f4 := AddFrom(f3, p, 0, ino, name, FT_DIR).0;
    OthersDots(f3, f4, p, ino);
    MkdirCommitNodes(f4, p, ino);
    MetaDots(f4, MkdirCommit(f4, p, ino), p);
    MetaDots(f4, MkdirCommit(f4, p, ino), ino);
  }

  lemma OthersDots(fs: Fs, gs: Fs, p: nat, d: nat)
    requires OthersSame(fs, gs, p) && d != p && DotsFirst(fs, d)
    ensures DotsFirst(gs, d)
  {
    hide Own, SlotData, Find;
    assert SlotData(gs, d, Direct(0)) == SlotData(fs, d, Direct(0));
  }

  lemma BornDirDots(fs: Fs, p: u32, mode: u16)
    requires OwnInv(fs) && NextInode(fs) != 0 && NextBlock(fs) != 0 && p != 0
    ensures DotsFirst(BornDir(fs, p, mode), NextInode(fs))
  {
    hide OwnInv, BornDir, NextInode, NextBlock, Untouched, Entry, Find, Own;
    OwnInvShape(fs);
    BornDirOk(fs, p, mode);
    BornDirMaps(fs, p, mode);
    var gs := BornDir(fs, p, mode);
    var ino := NextInode(fs);
    OnlyFirst(gs, ino, DOT);
    OnlyFirst(gs, ino, DOTDOT);
  }

  /** With one block a name can only be there. */
  lemma OnlyFirst(fs: Fs, d: nat, n: Name)
    requires DirOk(fs, d) && Entry(fs, d, n) != 0 && IsInode(fs, d) && Live(fs, d)
    requires forall i :: 1 <= i < NDIRECT ==> Node(fs, d).ptrs[i] == 0
    ensures BlockFind(fs, d, 0, n) != 0
  {
    hide Entry, Find, BlocksOk, Packed, NamesApart, SizeOk;
    EntryBlock(fs, d, n);
    var k: nat :| BlockFind(fs, d, k, n) == Entry(fs, d, n);
    assert Own(fs, d, Direct(k)) != 0;
  }

  lemma FileDots(fs: Fs, gs: Fs, ino: nat)
    requires TreeInv(fs) && AllDotsFirst(fs) && OthersSame(fs, gs, ino) && LiveFile(gs, ino)
    ensures AllDotsFirst(gs)
  {
    hide TreeInv, Untouched, DotsFirst, OthersSame;
    forall d: nat
      ensures LiveDir(gs, d) ==> DotsFirst(gs, d)
    {
      if d != ino {
        OthersUntouched(fs, gs, ino, d);
        UntouchedDots(fs, gs, d);
      }
    }
  }

  lemma WriteDots(fs: Fs, ino: nat, off: nat, data: seq<byte>)
    requires FsInv(fs) && LiveFile(fs, ino) && off <= Node(fs, ino).size && AllDotsFirst(fs)
    ensures Shape(fs) && AllDotsFirst(Write(fs, ino, off, data).0)
  {
    hide TreeInv, OwnInv, Write, OthersSame, NoHoles, Content, StopsWell, Overlay, AllDotsFirst;
    OwnInvShape(fs);
    TreeFile(fs, ino);
    if ino < fs.sup.inodesCount {
      WriteRefines(fs, ino, off, data);
      WriteKeepsKind(fs, ino, off, data);
      FileDots(fs, Write(fs, ino, off, data).0, ino);
    } else {
      WriteRejects(fs, ino, off, data);
    }
  }

  lemma TruncateDots(fs: Fs, ino: nat)
    requires FsInv(fs) && (ino == 0 || LiveFile(fs, ino)) && AllDotsFirst(fs)
    ensures Shape(fs) && AllDotsFirst(Truncate(fs, ino).0)
  {
    hide TreeInv, OwnInv, SyncInode, OthersSame, NoHoles, Content, AllDotsFirst;
    OwnInvShape(fs);
    if 0 < ino < fs.sup.inodesCount {
      TruncateOk(fs, ino);
      FileDots(fs, Truncate(fs, ino).0, ino);
    }
  }

  lemma UnlinkDots(fs: Fs, p: nat, name: Name)
    requires FsInv(fs) && LiveDir(fs, p) && !IsDot(name) && AllDotsFirst(fs)
    ensures AllDotsFirst(UnlinkIn(fs, p, name).0)
  {
    hide TreeInv, OwnInv, UnlinkIn, Untouched, Entry, BlockFind, Rebound;
    UnlinkOk(fs, p, name);
    UnlinkKeepsPlaces(fs, p, name, DOT);
    UnlinkKeepsPlaces(fs, p, name, DOTDOT);
    var (gs, r) := UnlinkIn(fs, p, name);
    forall d: nat
      ensures LiveDir(gs, d) ==> DotsFirst(gs, d)
    {
      if d != p && r != -1 && (d != Entry(fs, p, name) || r == -2) {
        UntouchedDots(fs, gs, d);
      }
    }
  }

  lemma ExecDots(fs: Fs, op: Op)
    requires Good(fs) && Allowed(fs, op) && AllDotsFirst(fs)
    ensures AllDotsFirst(Exec(fs, op))
  {
    hide OwnInv, TreeInv, Synced, CreateIn, MkdirIn, UnlinkIn, Write, Resolve, Mount, Mountable, Entry, Truncate,
         AllDotsFirst, Untouched;
    OwnInvShape(fs);
    match op
    case Create(dir, name, mode) =>
      ResolveLive(fs, dir);
      if Resolve(fs, dir) != 0 {
        CreateDots(fs, Resolve(fs, dir), name, mode);
      }
    case Mkdir(dir, name, mode) =>
      ResolveLive(fs, dir);
      if Resolve(fs, dir) != 0 {
        MkdirDots(fs, Resolve(fs, dir), name, mode);
      }
    case WriteAt(ino, off, data) => WriteDots(fs, ino, off, data);
    case TruncateTo0(path) => TruncateDots(fs, Resolve(fs, path));
    case Unlink(dir, name) =>
      if Resolve(fs, dir) != 0 {
        UnlinkDots(fs, Resolve(fs, dir), name);
      }
    case Remount =>
      MountKeepsInv(fs);
      AllUntouchedDots(fs, Mount(fs.disk));
  }

  lemma {:induction false} RunDots(fs: Fs, ops: seq<Op>)
    requires Good(fs) && AllAllowed(fs, ops) && AllDotsFirst(fs)
    ensures AllDotsFirst(Run(fs, ops))
    decreases |ops|
  {
    hide Good, Exec, Allowed, AllDotsFirst;
    if ops != [] {
      ExecGood(fs, ops[0]);
      ExecDots(fs, ops[0]);
      RunDots(Exec(fs, ops[0]), ops[1..]);
    }
  }

  /** In every state a run from a formatted disk can reach, unlink refuses a directory if and only if its first block
      has an entry other than the dots. */
  lemma ReachableRefusal(n: u32, disk: seq<Block>, ops: seq<Op>, t: nat)
    requires 8 <= n <= MAX_BLOCKS && n <= |disk|
    requires Good(Format(n, disk)) && AllAllowed(Format(n, disk), ops) && LiveDir(Run(Format(n, disk), ops), t)
    ensures var fs := Run(Format(n, disk), ops);
            Refused(fs, t) <==> exists m: Name :: !IsDot(m) && BlockFind(fs, t, 0, m) != 0
  {
    hide OwnInv, TreeInv, Synced, Format, DotsFirst, Refused, BlockFind, Entry, DotsBlock;
    var f0 := Format(n, disk);
    FormatRoot(n, disk);
    FormatDots(n, disk);
    RunGood(f0, ops);
    RunDots(f0, ops);
    RefusedIs(Run(f0, ops), t);
  }

  lemma FormatDots(n: u32, disk: seq<Block>)
    requires 8 <= n <= MAX_BLOCKS && n <= |disk|
    ensures AllDotsFirst(Format(n, disk))
  {
    hide Format, Entry, DotsBlock, Own, Find;
    FormatRoot(n, disk);
    FirstFits(n);
    DotsBlockOk(ROOT_INODE, ROOT_INODE);
  }
}
