/** A run from a formatted disk that ends with a non-empty directory unlinked: names that fill more than the first
    block of a directory, then unlinking all but one that lies behind it. */
module Ext2Orphans {
  import opened Bytes
  import opened Ext2State
  import opened Ext2Ownership
  import opened Ext2Bmap
  import opened Ext2File
  import opened Ext2DirBlock
  import opened Ext2Dir
  import opened Ext2Tree
  import opened Ext2Names
  import opened Ext2Persist
  import opened Ext2Runs
  import opened Ext2Format
  import opened Ext2Padding
  import opened Ext2Room
  import opened Ext2Outcomes

  const LONG := 255

  // ---- how many long names a block holds ----

  /** Names of 255 bytes need 264 bytes each. */
  lemma {:induction false} LongFit(b: Block, o: nat, s: set<Name>)
    requires o <= BS && Tiles(b, o) && s <= Names(b, o) && forall n :: n in s ==> |n| == LONG
    ensures 264 * |s| <= BS - o
    decreases BS - o
  {
    hide CStr, RecIno, RecName, RecLen, NameLen, RecOk;
    if o < BS {
      var n := RecName(b, o);
      LongRecord(b, o);
      var nx := o + RecLen(b, o);
      if RecIno(b, o) != 0 && n in s {
        LongFit(b, nx, s - {n});
        assert s == (s - {n}) + {n};
      } else {
        LongFit(b, nx, s);
      }
    }
  }

  lemma LongRecord(b: Block, o: nat)
    requires o + 8 <= BS && RecOk(b, o)
    ensures 8 <= RecLen(b, o) && o + RecLen(b, o) <= BS
    ensures RecIno(b, o) != 0 && |RecName(b, o)| == LONG ==> RecLen(b, o) >= 264
  {
    hide CStr;
  }

  /** Of four long names in a directory one lies behind the first block. */
  lemma OneBehind(fs: Fs, d: nat, s: set<Name>) returns (x: Name)
    requires DirOk(fs, d) && |s| == 4 && forall n :: n in s ==> |n| == LONG && Entry(fs, d, n) != 0
    ensures x in s && BlockFind(fs, d, 0, x) == 0
  {
    hide Entry, Names, Find, CountUsed, SizeOk, NamesApart;
    if forall n :: n in s ==> BlockFind(fs, d, 0, n) != 0 {
      var b := DirBlock(fs, d, 0);
      forall n | n in s
        ensures n in Names(b, 0)
      {
        assert BlockFind(fs, d, 0, n) != 0;
        NamesFind(b, 0, n);
      }
      LongFit(b, 0, s);
    }
    x :| x in s && BlockFind(fs, d, 0, x) == 0;
  }

  // ---- what create uses up ----

  /** At least `k` more files can be created in directory `t`. */
  ghost predicate Roomy(fs: Fs, t: nat, k: nat) {
    && Shape(fs) && IsInode(fs, t) && k <= NDIRECT && fs.sup.inodesCount > FIRST_FREE_INODE
    && ClearIn(fs.inodeBits, FIRST_FREE_INODE, fs.sup.inodesCount) >= k && FreeData(fs) >= k
    && (forall i :: NDIRECT - k <= i < NDIRECT ==> Node(fs, t).ptrs[i] == 0)
  }

  lemma NextInodeExact(fs: Fs)
    requires Shape(fs) && fs.sup.inodesCount > FIRST_FREE_INODE
    ensures NextInode(fs) == 0 <==> ClearIn(fs.inodeBits, FIRST_FREE_INODE, fs.sup.inodesCount) == 0
    ensures NextInode(fs) != 0 ==>
              ClearIn(fs.inodeBits[NextInode(fs) - 1 := true], FIRST_FREE_INODE, fs.sup.inodesCount) ==
              ClearIn(fs.inodeBits, FIRST_FREE_INODE, fs.sup.inodesCount) - 1
  {
    ClearInNone(fs.inodeBits, FIRST_FREE_INODE, fs.sup.inodesCount);
    if NextInode(fs) != 0 {
      ClearInUpdate(fs.inodeBits, FIRST_FREE_INODE, fs.sup.inodesCount, NextInode(fs) - 1);
    }
  }

  /** One block at most, and the first free pointer. */
  ghost predicate UsesOne(fs: Fs, gs: Fs, d: nat, k: nat)
    requires Shape(fs) && Shape(gs) && IsInode(fs, d) && IsInode(gs, d)
  {
    && gs.inodeBits == fs.inodeBits && gs.sup.inodesCount == fs.sup.inodesCount && FreeData(gs) + 1 >= FreeData(fs)
    && (forall j: nat :: j != d && IsInode(fs, j) ==> IsInode(gs, j) && Node(gs, j) == Node(fs, j))
    && (forall z, i :: k <= z < i < NDIRECT && Node(fs, d).ptrs[z] == 0 ==> Node(gs, d).ptrs[i] == Node(fs, d).ptrs[i])
  }

  lemma {:induction false} AddUses(fs: Fs, d: nat, k: nat, ino: u32, name: Name, ftype: byte)
    requires Shape(fs) && Live(fs, d) && BlocksOk(fs, d) && IsName(name)
    ensures UsesOne(fs, AddFrom(fs, d, k, ino, name, ftype).0, d, k)
    decreases NDIRECT - k
  {
    hide Insert, Tiles, Distinct, AddBlock, NewDirBlock, NextBlock, Own, SlotData, WriteSlot, IsName, BlocksOk,
         FreeData;
    if k < NDIRECT {
      if Node(fs, d).ptrs[k] == 0 {
        if NextBlock(fs) != 0 {
          AddBlockUses(fs, d, k, NewDirBlock(ino, name, ftype));
        }
      } else {
        DirBlockTiles(fs, d, k);
        var r := Insert(DirBlock(fs, d, k), 0, ino, name, ftype);
        if r.Some? {
          WriteSlotUses(fs, d, k, r.value);
        } else {
          AddUses(fs, d, k + 1, ino, name, ftype);
        }
      }
    }
  }

  lemma WriteSlotUses(fs: Fs, d: nat, k: nat, b: Block)
    requires Shape(fs) && IsInode(fs, d)
    ensures var gs := WriteSlot(fs, d, Direct(k), b); Shape(gs) && IsInode(gs, d) && UsesOne(fs, gs, d, k)
  {
    hide Own, ClearIn;
  }

  lemma AddBlockUses(fs: Fs, d: nat, k: nat, blk: Block)
    requires Shape(fs) && Live(fs, d) && k < NDIRECT && Node(fs, d).ptrs[k] == 0 && NextBlock(fs) != 0
    ensures UsesOne(fs, AddBlock(fs, d, k, blk), d, k)
  {
    hide NextBlock, Own, ClearIn;
    NextBlockExact(fs);
    GrowDirectSize(fs, d, k);
    var f1 := GrowDirect(fs, d, k).0;
    var f2 := WithNode(f1, d, Node(f1, d).(size := Add32(Node(f1, d).size, BS)));
    SyncInodeFrame(WriteSlot(f2, d, Direct(k), blk), d);
  }

  lemma CreateUses(fs: Fs, p: nat, name: Name, mode: u16, k: nat)
    requires ParentOk(fs, p) && LiveDir(fs, p) && IsName(name) && CreateIn(fs, p, name, mode).1 != 0
             && Roomy(fs, p, k + 1)
    ensures Roomy(CreateIn(fs, p, name, mode).0, p, k)
  {
    hide OwnInv, DirOk, NextInode, BlocksOk, AddFrom, FreeData, ClearIn, CreateIn, BornFile, Commit, UsesOne;
    ParentFacts(fs, p);
    CreateParts(fs, p, name, mode);
    var f2 := BornFile(fs, mode);
    NextInodeExact(fs);
    BornFileFree(fs, mode);
    BornFileMaps(fs, p, mode);
    var ino := NextInode(fs);
    AddUses(f2, p, 0, ino, name, 1);
    var f3 := AddFrom(f2, p, 0, ino, name, 1).0;
    RoomAfter(f2, f3, p, k);
    SameFree(f3, Commit(f3, ino));
    var gs := Commit(f3, ino);
    assert gs == CreateIn(fs, p, name, mode).0 && gs.inodeBits == fs.inodeBits[ino - 1 := true];
    assert IsInode(gs, p) && Node(gs, p) == Node(f3, p);
  }

  /** What a successful create is made of. */
  lemma CreateParts(fs: Fs, p: nat, name: Name, mode: u16)
    requires ParentOk(fs, p) && LiveDir(fs, p) && IsName(name) && CreateIn(fs, p, name, mode).1 != 0
    ensures Shape(fs) && NextInode(fs) != 0 && p != NextInode(fs)
    ensures var f2 := BornFile(fs, mode); var ino := NextInode(fs);
            && Live(f2, p) && BlocksOk(f2, p) && ino < 0x1_0000_0000
            && var (f3, ok) := AddFrom(f2, p, 0, ino, name, 1);
               ok && IsInode(f3, ino) && CreateIn(fs, p, name, mode).0 == Commit(f3, ino)
  {
    hide OwnInv, DirOk, FindEntry, NextInode, Untouched, BlocksOk, AddFrom, BornFile, Commit;
    ParentFacts(fs, p);
    BornFileOk(fs, mode);
    NextInodeFree(fs);
    var f2 := BornFile(fs, mode);
    ParentStays(fs, f2, p);
    ParentFacts(f2, p);
  }

  lemma BornFileMaps(fs: Fs, p: nat, mode: u16)
    requires Shape(fs) && NextInode(fs) != 0 && IsInode(fs, p) && p != NextInode(fs)
    ensures var f2 := BornFile(fs, mode);
            f2.inodeBits == fs.inodeBits[NextInode(fs) - 1 := true] && IsInode(f2, p) && Node(f2, p) == Node(fs, p)
  {
  }

  lemma SameFree(fs: Fs, gs: Fs)
    requires Shape(fs) && gs == fs.(disk := gs.disk) && |gs.disk| == |fs.disk|
    ensures Shape(gs) && FreeData(gs) == FreeData(fs)
  {
    hide ClearIn;
  }

  lemma RoomAfter(fs: Fs, gs: Fs, p: nat, k: nat)
    requires Shape(fs) && Shape(gs) && IsInode(fs, p) && IsInode(gs, p) && UsesOne(fs, gs, p, 0) && k < NDIRECT
    requires FreeData(fs) >= k + 1
    requires forall i :: NDIRECT - k - 1 <= i < NDIRECT ==> Node(fs, p).ptrs[i] == 0
    ensures FreeData(gs) >= k && gs.inodeBits == fs.inodeBits && gs.sup.inodesCount == fs.sup.inodesCount
    ensures forall i :: NDIRECT - k <= i < NDIRECT ==> Node(gs, p).ptrs[i] == 0
  {
    hide FreeData;
    assert Node(fs, p).ptrs[NDIRECT - k - 1] == 0;
  }

  // ---- unlinking keeps names in their blocks ----

  lemma {:induction false} RemoveKeepsPlaces(fs: Fs, d: nat, k: nat, name: Name, m: Name)
    requires OwnInv(fs) && Shape(fs) && DirOk(fs, d) && Live(fs, d) && BlocksOk(fs, d) && m != name
    ensures BlockFind(RemoveFrom(fs, d, k, name).0, d, 0, m) == BlockFind(fs, d, 0, m)
    decreases NDIRECT - k
  {
    hide OwnInv, BlocksOk, Packed, NamesApart, SlotData, WriteSlot, Remove, EntryFrom, Find, DirOk, Tiles, Distinct;
    if k < NDIRECT {
      if Node(fs, d).ptrs[k] == 0 {
        RemoveKeepsPlaces(fs, d, k + 1, name, m);
      } else {
        assert Own(fs, d, Direct(k)) != 0;
        DirBlockTiles(fs, d, k);
        BlockDistinct(fs, d, k);
        RemoveOk(DirBlock(fs, d, k), name);
        var r := Remove(DirBlock(fs, d, k), name);
        if r.Gone? {
          SlotPlaces(fs, d, k, r.block, m);
        } else {
          RemoveKeepsPlaces(fs, d, k + 1, name, m);
        }
      }
    }
  }

  lemma BlockDistinct(fs: Fs, d: nat, k: nat)
    requires BlocksOk(fs, d) && Own(fs, d, Direct(k)) != 0
    ensures Tiles(DirBlock(fs, d, k), 0) && Distinct(DirBlock(fs, d, k), 0)
  {
  }

  lemma SlotPlaces(fs: Fs, d: nat, k: nat, b: Block, m: Name)
    requires OwnInv(fs) && Live(fs, d) && Own(fs, d, Direct(k)) != 0 && Find(b, 0, m) == Find(DirBlock(fs, d, k), 0, m)
    ensures BlockFind(WriteSlot(fs, d, Direct(k), b), d, 0, m) == BlockFind(fs, d, 0, m)
  {
    hide Find, FreedClear, CountsOk;
    var gs := WriteSlot(fs, d, Direct(k), b);
    assert Own(gs, d, Direct(0)) == Own(fs, d, Direct(0));
    assert k != 0 && Own(fs, d, Direct(0)) != 0 ==> Own(fs, d, Direct(0)) != Own(fs, d, Direct(k));
  }

  lemma UnlinkKeepsPlaces(fs: Fs, p: nat, name: Name, m: Name)
    requires FsInv(fs) && LiveDir(fs, p) && !IsDot(name) && m != name
    ensures BlockFind(UnlinkIn(fs, p, name).0, p, 0, m) == BlockFind(fs, p, 0, m)
  {
    hide OwnInv, TreeInv, RemoveFrom, Entry, Bury, Rebound, Unreferenced, Tiles, BlocksOk, BlockFind, CountUsed,
         DirOk, Untouched;
    UnlinkFacts(fs, p, name);
    TreeDir(fs, p);
    RemoveKeepsPlaces(fs, p, 0, name, m);
    var (f1, t) := RemoveFrom(fs, p, 0, name);
    if t != 0 {
      BuryOk(f1, t);
      ReboundDir(fs, f1, p, name, 0);
      UntouchedPlaces(f1, Bury(f1, t), p, m);
    }
  }

  lemma UntouchedPlaces(fs: Fs, gs: Fs, p: nat, m: Name)
    requires Live(fs, p) && Untouched(fs, gs, p)
    ensures BlockFind(gs, p, 0, m) == BlockFind(fs, p, 0, m)
  {
    hide Own, SlotData, Find;
    assert SlotData(gs, p, Direct(0)) == SlotData(fs, p, Direct(0));
  }

  // ---- the run ----

  /** Directory `t`, entered as `name` in the root, holds exactly the files `ns` and has room for `k` more. */
  ghost predicate Setting(fs: Fs, name: Name, t: nat, ns: set<Name>, k: nat) {
    && Good(fs) && Entry(fs, ROOT_INODE, name) == t && LiveDir(fs, t) && t != ROOT_INODE && t < fs.sup.inodesCount
    && ROOT_INODE < fs.sup.inodesCount
    && (forall n: Name :: Entry(fs, t, n) != 0 <==> IsDot(n) || n in ns)
    && (forall n :: n in ns ==> !IsDot(n) && LiveFile(fs, Entry(fs, t, n))) && Roomy(fs, t, k)
  }

  lemma Resolved(fs: Fs, name: Name)
    requires FsInv(fs) && ROOT_INODE < fs.sup.inodesCount
    ensures Resolve(fs, [name]) == Entry(fs, ROOT_INODE, name)
  {
    hide OwnInv, Entry, FindEntry, DirOk;
    TreeDir(fs, ROOT_INODE);
    FindEntryIsEntry(fs, ROOT_INODE, name);
    RootIsInode(fs);
    var next := FindEntry(fs, ROOT_INODE, name);
    assert [name][1..] == [] && [name][0] == name;
    assert LookupPath(fs, next, []) == next;
  }

  lemma RootIsInode(fs: Fs)
    requires FsInv(fs)
    ensures IsInode(fs, ROOT_INODE)
  {
    hide OwnInv, DirsOk, EntriesLive, OneParent, DotsOk, FilesOk;
  }

  lemma AddName(fs: Fs, name: Name, t: nat, ns: set<Name>, k: nat, n: Name)
    requires Setting(fs, name, t, ns, k + 1) && IsName(n) && !IsDot(n) && n !in ns
    ensures Allowed(fs, Create([name], n, 0)) && Setting(Exec(fs, Create([name], n, 0)), name, t, ns + {n}, k)
  {
    hide OwnInv, TreeInv, Synced, CreateIn, Resolve, Entry, Untouched, DirOk, Content, Roomy, DirRoom;
    var op := Create([name], n, 0);
    Resolved(fs, name);
    ExecGood(fs, op);
    ParentIs(fs, t);
    RoomyCreates(fs, t, n, k);
    CreateExact(fs, t, n, 0);
    CreateOk(fs, t, n, 0);
    CreatedNumber(fs, t, n, 0);
    CreateUses(fs, t, n, 0, k);
    var (gs, ino) := CreateIn(fs, t, n, 0);
    ReboundDir(fs, gs, t, n, ino);
    RootKept(fs, gs, t, ino);
    forall m | m in ns + {n}
      ensures LiveFile(gs, Entry(gs, t, m))
    {
      if m != n {
        NotParent(fs, t, m);
        UntouchedKind(fs, gs, Entry(fs, t, m));
      }
    }
  }

  lemma ParentIs(fs: Fs, t: nat)
    requires FsInv(fs) && LiveDir(fs, t)
    ensures ParentOk(fs, t) && Shape(fs)
  {
    hide OwnInv, DirOk, EntriesLive, OneParent, DotsOk, FilesOk;
    OwnInvShape(fs);
  }

  lemma NotParent(fs: Fs, t: nat, m: Name)
    requires LiveDir(fs, t) && LiveFile(fs, Entry(fs, t, m))
    ensures Entry(fs, t, m) != t
  {
  }

  lemma RoomyCreates(fs: Fs, t: nat, n: Name, k: nat)
    requires Roomy(fs, t, k + 1)
    ensures NextInode(fs) != 0 && DirRoom(fs, t, |n|, FreeData(fs))
  {
    hide ClearIn, FreeData, NextInode, DirGap;
    NextInodeExact(fs);
  }

  /** The root keeps its entries through operations on other inodes. */
  lemma RootKept(fs: Fs, gs: Fs, t: nat, c: nat)
    requires FsInv(fs) && t != ROOT_INODE && c > FIRST_FREE_INODE
             && forall j: nat :: j != t && j != c ==> Untouched(fs, gs, j)
    ensures forall n: Name :: Entry(gs, ROOT_INODE, n) == Entry(fs, ROOT_INODE, n)
  {
    hide OwnInv, Untouched, Entry, DirOk, DirsOk, EntriesLive, OneParent, DotsOk, FilesOk;
    UntouchedDir(fs, gs, ROOT_INODE);
  }

  lemma DropName(fs: Fs, name: Name, t: nat, ns: set<Name>, k: nat, n: Name, x: Name)
    requires Setting(fs, name, t, ns, k) && n in ns && !IsDot(n) && x != n
    ensures Allowed(fs, Unlink([name], n))
    ensures var gs := Exec(fs, Unlink([name], n));
            Setting(gs, name, t, ns - {n}, 0) && BlockFind(gs, t, 0, x) == BlockFind(fs, t, 0, x)
  {
    hide OwnInv, TreeInv, Synced, UnlinkIn, Resolve, Entry, Untouched, DirOk, BlockFind, Unreferenced;
    var op := Unlink([name], n);
    Resolved(fs, name);
    ExecGood(fs, op);
    UnlinkOk(fs, t, n);
    UnlinkPads(fs, t, n);
    UnlinkKeepsPlaces(fs, t, n, x);
    EntryAbove(fs, t, n);
    var (gs, r) := UnlinkIn(fs, t, n);
    ReboundDir(fs, gs, t, n, 0);
    RootKept(fs, gs, t, Entry(fs, t, n));
    OwnInvShape(gs);
    forall m | m in ns - {n}
      ensures LiveFile(gs, Entry(gs, t, m))
    {
      NotParent(fs, t, m);
      OtherEntry(fs, t, n, m);
      UntouchedKind(fs, gs, Entry(fs, t, m));
    }
  }

  lemma EntryAbove(fs: Fs, t: nat, n: Name)
    requires FsInv(fs) && LiveDir(fs, t) && !IsDot(n) && Entry(fs, t, n) != 0
    ensures Entry(fs, t, n) > FIRST_FREE_INODE
  {
    hide OwnInv, Entry, DirsOk, OneParent, DotsOk, FilesOk;
  }

  lemma OtherEntry(fs: Fs, t: nat, n: Name, m: Name)
    requires FsInv(fs) && LiveDir(fs, t) && !IsDot(n) && !IsDot(m) && n != m && Entry(fs, t, n) != 0
    ensures Entry(fs, t, m) != Entry(fs, t, n)
  {
    hide OwnInv, Entry, DirsOk, EntriesLive, DotsOk, FilesOk;
  }

  /** Drop everything but `x`. */
  lemma {:induction false} DropAll(fs: Fs, name: Name, t: nat, ns: set<Name>, k: nat, x: Name) returns (ops: seq<Op>)
    requires Setting(fs, name, t, ns, k) && x in ns
    ensures Good(fs) && AllAllowed(fs, ops)
    ensures Setting(Run(fs, ops), name, t, {x}, 0) && BlockFind(Run(fs, ops), t, 0, x) == BlockFind(fs, t, 0, x)
    decreases |ns|
  {
    hide Good, Entry, BlockFind, Allowed, Exec;
    SettingGood(fs, name, t, ns, k);
    if ns == {x} {
      ops := [];
      LessRoom(fs, name, t, ns, k);
    } else {
      assert ns == (ns - {x}) + {x};
      var n :| n in ns - {x};
      DropName(fs, name, t, ns, k, n, x);
      var op := Unlink([name], n);
      var rest := DropAll(Exec(fs, op), name, t, ns - {n}, 0, x);
      ops := [op] + rest;
      Prefixed(fs, op, rest);
    }
  }

  lemma SettingGood(fs: Fs, name: Name, t: nat, ns: set<Name>, k: nat)
    requires Setting(fs, name, t, ns, k)
    ensures Good(fs)
  {
  }

  lemma LessRoom(fs: Fs, name: Name, t: nat, ns: set<Name>, k: nat)
    requires Setting(fs, name, t, ns, k)
    ensures Setting(fs, name, t, ns, 0)
  {
    hide Good, Entry, ClearIn, FreeData;
  }

  lemma Prefixed(fs: Fs, op: Op, rest: seq<Op>)
    requires Good(fs) && Allowed(fs, op) && Good(Exec(fs, op)) && AllAllowed(Exec(fs, op), rest)
    ensures AllAllowed(fs, [op] + rest) && Run(fs, [op] + rest) == Run(Exec(fs, op), rest)
  {
    hide Good, Allowed, Exec;
    assert ([op] + rest)[1..] == rest;
  }

  /** Create the names of `todo`, then drop all names but one behind the first block. */
  lemma {:induction false} Fill4(fs: Fs, name: Name, t: nat, ns: set<Name>, todo: seq<Name>)
    returns (ops: seq<Op>, x: Name)
    requires Setting(fs, name, t, ns, |todo|) && |ns| + |todo| == 4 && (forall n :: n in ns ==> |n| == LONG)
    requires forall i :: 0 <= i < |todo| ==> IsName(todo[i]) && |todo[i]| == LONG && todo[i] !in ns
    requires forall i, j :: 0 <= i < j < |todo| ==> todo[i] != todo[j]
    ensures Good(fs) && AllAllowed(fs, ops)
    ensures Setting(Run(fs, ops), name, t, {x}, 0) && BlockFind(Run(fs, ops), t, 0, x) == 0
    decreases |todo|
  {
    hide Good, Entry, BlockFind, Allowed, Exec, Roomy, IsName;
    SettingGood(fs, name, t, ns, |todo|);
    if todo == [] {
      SettingDir(fs, name, t, ns, |todo|);
      x := OneBehind(fs, t, ns);
      ops := DropAll(fs, name, t, ns, 0, x);
    } else {
      var n := todo[0];
      AddName(fs, name, t, ns, |todo| - 1, n);
      var op := Create([name], n, 0);
      var rest;
      rest, x := Fill4(Exec(fs, op), name, t, ns + {n}, todo[1..]);
      ops := [op] + rest;
      Prefixed(fs, op, rest);
    }
  }

  lemma SettingDir(fs: Fs, name: Name, t: nat, ns: set<Name>, k: nat)
    requires Setting(fs, name, t, ns, k)
    ensures DirOk(fs, t)
  {
    hide OwnInv, Entry, DirOk, Roomy, EntriesLive, OneParent, DotsOk, FilesOk;
  }

  // ---- the first step ----

  lemma {:induction false} ClearRange(bits: seq<bool>, lo: nat, from: nat, hi: nat)
    requires lo <= from <= hi <= |bits| && forall k :: from <= k < hi ==> !bits[k]
    ensures ClearIn(bits, lo, hi) >= hi - from
    decreases hi
  {
    if from < hi {
      ClearRange(bits, lo, from, hi - 1);
    }
  }

  lemma MkdirUses(fs: Fs, p: nat, name: Name, mode: u16, k: nat)
    requires ParentOk(fs, p) && LiveDir(fs, p) && IsName(name) && MkdirIn(fs, p, name, mode).1 != 0 && Shape(fs)
    requires k < NDIRECT && FreeData(fs) >= k + 2 && fs.sup.inodesCount > FIRST_FREE_INODE
    requires ClearIn(fs.inodeBits, FIRST_FREE_INODE, fs.sup.inodesCount) >= k + 1
    ensures Roomy(MkdirIn(fs, p, name, mode).0, NextInode(fs), k)
  {
    hide OwnInv, DirOk, NextInode, BlocksOk, AddFrom, FreeData, ClearIn, MkdirIn, BornDir, MkdirCommit, UsesOne;
    MkdirParts(fs, p, name, mode);
    var f3 := BornDir(fs, p, mode);
    var ino := NextInode(fs);
    NextInodeExact(fs);
    BornDirFree(fs, p, mode);
    BornDirMaps(fs, p, mode);
    AddUses(f3, p, 0, ino, name, 2);
    var f4 := AddFrom(f3, p, 0, ino, name, 2).0;
    OtherNode(f3, f4, p, ino);
    MkdirCommitNodes(f4, p, ino);
    var gs := MkdirCommit(f4, p, ino);
    SameFreeNodes(f4, gs);
    assert gs == MkdirIn(fs, p, name, mode).0 && Node(gs, ino) == Node(f3, ino);
  }

  lemma OtherNode(fs: Fs, gs: Fs, p: nat, j: nat)
    requires Shape(fs) && Shape(gs) && IsInode(fs, p) && IsInode(gs, p) && UsesOne(fs, gs, p, 0) && j != p
             && IsInode(fs, j)
    ensures IsInode(gs, j) && Node(gs, j) == Node(fs, j) && FreeData(gs) + 1 >= FreeData(fs)
    ensures gs.inodeBits == fs.inodeBits && gs.sup.inodesCount == fs.sup.inodesCount
  {
    hide FreeData;
  }

  lemma SameFreeNodes(fs: Fs, gs: Fs)
    requires Shape(fs) && gs == fs.(disk := gs.disk, inodes := gs.inodes) && |gs.disk| == |fs.disk|
             && |gs.inodes| == |fs.inodes|
    ensures Shape(gs) && FreeData(gs) == FreeData(fs)
  {
    hide ClearIn;
  }

  lemma MkdirParts(fs: Fs, p: nat, name: Name, mode: u16)
    requires ParentOk(fs, p) && LiveDir(fs, p) && IsName(name) && MkdirIn(fs, p, name, mode).1 != 0
    ensures Shape(fs) && NextInode(fs) != 0 && NextBlock(fs) != 0 && p != NextInode(fs) && p < 0x1_0000_0000
    ensures var f3 := BornDir(fs, p, mode); var ino := NextInode(fs);
            && Live(f3, p) && BlocksOk(f3, p) && ino < 0x1_0000_0000 && IsInode(f3, ino)
            && var (f4, ok) := AddFrom(f3, p, 0, ino, name, 2);
               ok && IsInode(f4, p) && IsInode(f4, ino) && MkdirIn(fs, p, name, mode).0 == MkdirCommit(f4, p, ino)
  {
    hide OwnInv, DirOk, FindEntry, NextInode, Untouched, BlocksOk, AddFrom, BornDir, MkdirCommit, NextBlock, Entry;
    ParentFacts(fs, p);
    BornDirOk(fs, p, mode);
    NextInodeFree(fs);
    var f3 := BornDir(fs, p, mode);
    ParentStays(fs, f3, p);
    ParentFacts(f3, p);
  }

  lemma BornDirMaps(fs: Fs, p: u32, mode: u16)
    requires OwnInv(fs) && NextInode(fs) != 0 && NextBlock(fs) != 0
    ensures var f3 := BornDir(fs, p, mode); var ino := NextInode(fs);
            && f3.inodeBits == fs.inodeBits[ino - 1 := true] && IsInode(f3, ino)
            && (forall i :: 1 <= i < NDIRECT ==> Node(f3, ino).ptrs[i] == 0)
  {
    hide Marked, Unshared, CountsOk, BornDir, NextInode, NextBlock, DotsBlock;
    BornDirState(fs, p, mode);
    NextInodeFree(fs);
    var ino := NextInode(fs);
    assert DirectTailClear(Node(fs, ino));
  }

  /** A fresh directory in the root of a formatted disk of 128 blocks. */
  lemma Start(disk: seq<Block>, name: Name) returns (t: nat)
    requires |disk| >= 128 && IsName(name) && !IsDot(name)
    ensures Good(Format(128, disk)) && Allowed(Format(128, disk), Mkdir([], name, 0))
    ensures Setting(Exec(Format(128, disk), Mkdir([], name, 0)), name, t, {}, 4)
  {
    hide OwnInv, TreeInv, Synced, MkdirIn, Entry, Untouched, DirOk, Roomy, DirRoom, Format, FreeData, NextInode,
         FindEntry, ClearIn, DotsBlock, Own;
    var fs := Format(128, disk);
    var op := Mkdir([], name, 0);
    FormatGood(128, disk);
    FormatRoot(128, disk);
    assert Resolve(fs, []) == ROOT_INODE;
    ExecGood(fs, op);
    ParentIs(fs, ROOT_INODE);
    FreshRoom(fs, |name|);
    MkdirExact(fs, ROOT_INODE, name, 0);
    MkdirOk(fs, ROOT_INODE, name, 0);
    MadeNumber(fs, ROOT_INODE, name, 0);
    MkdirUses(fs, ROOT_INODE, name, 0, 4);
    t := NextInode(fs);
  }

  lemma FreshRoom(fs: Fs, len: nat)
    requires Shape(fs) && fs.sup.blocksCount == 128 && fs.sup.inodesCount == 32 && fs.sup.firstData == 12
    requires LiveDir(fs, ROOT_INODE) && Node(fs, ROOT_INODE) == RootInode(12)
    requires forall k :: 0 <= k < |fs.blockBits| ==> fs.blockBits[k] == (k <= 12)
    requires forall k :: 0 <= k < |fs.inodeBits| ==> fs.inodeBits[k] == (k == ROOT_INODE - 1)
    ensures FreeData(fs) >= 115 && ClearIn(fs.inodeBits, FIRST_FREE_INODE, fs.sup.inodesCount) >= 21
    ensures NextInode(fs) == 12 && DirRoom(fs, ROOT_INODE, len, FreeData(fs) - 1)
  {
    hide ClearIn, DirGap;
    ClearRange(fs.blockBits, 12, 13, 128);
    ClearRange(fs.inodeBits, FIRST_FREE_INODE, 11, 32);
  }

  /** There is a run from a formatted disk after which a directory with an entry is unlinked with result 0, and what
      the entry named is live but named by no directory. */
  lemma OrphanWitness(disk: seq<Block>, name: Name, longs: seq<Name>) returns (ops: seq<Op>, x: Name)
    requires |disk| >= 128 && IsName(name) && !IsDot(name)
    requires |longs| == 4 && forall i :: 0 <= i < |longs| ==> IsName(longs[i]) && |longs[i]| == LONG
    requires forall i, j :: 0 <= i < j < |longs| ==> longs[i] != longs[j]
    ensures Good(Format(128, disk)) && AllAllowed(Format(128, disk), ops)
    ensures var fs := Run(Format(128, disk), ops); var t := Entry(fs, ROOT_INODE, name);
            && FsInv(fs) && LiveDir(fs, ROOT_INODE) && LiveDir(fs, t) && !IsDot(x) && Entry(fs, t, x) != 0
            && var (gs, r) := UnlinkIn(fs, ROOT_INODE, name);
               r == 0 && Live(gs, Entry(fs, t, x)) && Unreferenced(gs, Entry(fs, t, x))
  {
    hide OwnInv, TreeInv, Synced, Entry, BlockFind, Allowed, Exec, Roomy, Format, IsName, UnlinkIn, Unreferenced,
         Refused, Untouched;
    var f0 := Format(128, disk);
    var t := Start(disk, name);
    var op := Mkdir([], name, 0);
    var rest;
    rest, x := Fill4(Exec(f0, op), name, t, {}, longs);
    ops := [op] + rest;
    Prefixed(f0, op, rest);
    var fs := Run(f0, ops);
    RootIsDir(fs);
    OnlyDots(fs, name, t, x);
    UnlinkOrphans(fs, ROOT_INODE, name, x);
  }

  lemma RootIsDir(fs: Fs)
    requires FsInv(fs)
    ensures LiveDir(fs, ROOT_INODE)
  {
    hide OwnInv, DirsOk, EntriesLive, OneParent, DotsOk, FilesOk;
  }

  /** The one name left is not in the first block, so the dots are alone there. */
  lemma OnlyDots(fs: Fs, name: Name, t: nat, x: Name)
    requires Setting(fs, name, t, {x}, 0) && BlockFind(fs, t, 0, x) == 0
    ensures !Refused(fs, t)
  {
    hide Good, Entry, CountUsed, Names, Find, Roomy, SizeOk;
    SettingDir(fs, name, t, {x}, 0);
    var b := DirBlock(fs, t, 0);
    CountIsNames(b, 0);
    forall n: Name | n in Names(b, 0)
      ensures IsDot(n)
    {
      NamesFind(b, 0, n);
      assert BlockFind(fs, t, 0, n) != 0;
      EntryBlock(fs, t, n);
    }
    SubsetCard(Names(b, 0), {DOT, DOTDOT});
  }

  // ---- truncating a directory ----

  /** Truncating the root of a formatted disk breaks the invariants. */
  lemma TruncatedRoot(n: u32, disk: seq<Block>)
    requires 12 <= n <= MAX_BLOCKS && n <= |disk|
    ensures var fs := Format(n, disk);
            FsInv(fs) && Shape(fs) && IsInode(fs, ROOT_INODE) && !FsInv(Truncate(fs, ROOT_INODE).0)
  {
    hide OwnInv, TreeInv, Synced, Format, Truncate, Entry, DotsBlock, Own;
    FormatGood(n, disk);
    FormatRoot(n, disk);
    TruncateExact(Format(n, disk), ROOT_INODE);
  }
}
