/** Host and guest together: what the host tool installs the kernel reads, and runs that use both. */
module Ext2Interop {
  import opened Numbers
  import opened Bytes
  import opened Ext2State
  import opened Ext2Ownership
  import opened Ext2Disk
  import opened Ext2File
  import opened Ext2DirBlock
  import opened Ext2Dir
  import opened Ext2Tree
  import opened Ext2Names
  import opened Ext2Persist
  import opened Ext2Runs
  import opened Ext2Format
  import opened Ext2Padding
  import opened Ext2Outcomes
  import opened Ext2Room
  import opened Ext2Kernel
  import opened Ext2HostFile
  import opened Ext2HostOk
  import opened Ext2Host
  import opened Ext2HostCut
  import opened Ext2HostPut

  /** The inode number the tool uses. */
  function Target(fs: Fs, d: nat, name: Name): nat
    requires Shape(fs)
  {
    if Entry(fs, d, name) != 0 then Entry(fs, d, name) else NextInode(fs)
  }

  /** Install a file with the host tool, mount the image in the kernel, read any range. The tool succeeds exactly
      when it has what it needs. The read then succeeds exactly when the inode is not the last one of the table,
      and the bytes read are exactly that range of the installed data, wherever it lies in the direct, single or
      double indirect area. */
  method PutMountRead(img: Image, d: nat, name: Name, data: seq<byte>, off: nat, size: nat, ghost fs: Fs)
    returns (ok: bool, buffer: seq<byte>, n: int)
    requires img.Mirrors(fs) && FsInv(fs) && Synced(fs) && PadClear(fs) && LiveDir(fs, d) && d < fs.sup.inodesCount
    requires IsName(name) && !IsDot(name) && Node(fs, d).blocks + 2 < 0x1_0000_0000
    modifies img
    ensures Entry(fs, d, name) != 0 ==> IsInode(fs, Entry(fs, d, name))
    ensures Shape(fs) && (ok <==> Accepts(fs, d, name, |data|))
    ensures ok ==> (n >= 0 <==> Target(fs, d, name) < fs.sup.inodesCount)
    ensures ok && n >= 0 ==> n == |buffer| && buffer == if off >= |data| then [] else data[off..Min(off + size, |data|)]
  {
    hide OwnInv, TreeInv, Untouched, Content, NoHoles, Mount, Mountable, Synced, PadClear, Entry, ReadOk, Accepts,
         NextInode, HostPuts, Linked, OldAfter, HostFails;
    buffer, n := [], -1;
    var ino;
    ok, ino := Put(img, d, name, data, fs);
    if !ok {
      return;
    }
    var kernel := new Filesystem(img.disk);
    NoHolesReadSafe(kernel.State(), ino);
    buffer, n := kernel.Read(ino, off, size);
    if ino < kernel.sup.inodesCount {
      ReadIsSlice(kernel.State(), ino, off, size, buffer, n);
    }
  }

  // ---- the last inode number ----

  /** On a disk of 48 blocks the first number handed out is the last of the table: the tool accepts a file there and
      `ext2_create` makes one, which the kernel refuses to write, as `Read` refuses to read it. */
  lemma LastInodeWitness(disk: seq<Block>, name: Name, mode: u16, off: nat, data: seq<byte>)
    requires |disk| >= 48 && |name| == 1 && IsName(name) && !IsDot(name)
    ensures var fs := Format(48, disk);
            && FsInv(fs) && Shape(fs) && ParentOk(fs, ROOT_INODE) && NextInode(fs) == 12 == fs.sup.inodesCount
            && Entry(fs, ROOT_INODE, name) == 0 && Accepts(fs, ROOT_INODE, name, 1)
            && var (gs, ino) := CreateIn(fs, ROOT_INODE, name, mode);
               ino == 12 && Shape(gs) && IsInode(gs, ino) && Write(gs, ino, off, data) == (gs, -1)
  {
    hide OwnInv, TreeInv, Synced, Format, Entry, CreateIn, DirRoom, FreeData, Write, NextInode, Untouched, Rebound,
         Content;
    var fs := Format(48, disk);
    FormatGood(48, disk);
    TreeShape(fs);
    RootRoom(disk, name);
    TreeParent(fs, ROOT_INODE);
    assert Total(DataBlocks(1)) == 1;
    CreateExact(fs, ROOT_INODE, name, mode);
    CreateOk(fs, ROOT_INODE, name, mode);
    CreatedNumber(fs, ROOT_INODE, name, mode);
    var (gs, ino) := CreateIn(fs, ROOT_INODE, name, mode);
    TreeShape(gs);
    WriteRejects(gs, ino, off, data);
  }

  /** The freshly formatted disk of 48 blocks. */
  lemma RootRoom(disk: seq<Block>, name: Name)
    requires |disk| >= 48 && |name| == 1 && IsName(name) && !IsDot(name)
    ensures var fs := Format(48, disk);
            && Shape(fs) && LiveDir(fs, ROOT_INODE) && NextInode(fs) == 12 == fs.sup.inodesCount && FreeData(fs) > 0
            && Entry(fs, ROOT_INODE, name) == 0 && (forall b: int :: DirRoom(fs, ROOT_INODE, 1, b))
  {
    hide Format, Entry, Own, DotsBlock, HasGap, ClearIn;
    var fs := Format(48, disk);
    FormatRoot(48, disk);
    ClearInNone(fs.blockBits, fs.sup.firstData, fs.sup.blocksCount);
    assert !fs.blockBits[8];
    DotsGap(ROOT_INODE, ROOT_INODE);
    assert GapAt(fs, ROOT_INODE, 0, 1);
  }

  lemma DotsGap(self: u32, parent: u32)
    requires self != 0 && parent != 0
    ensures Tiles(DotsBlock(self, parent), 0) && HasGap(DotsBlock(self, parent), 0, 1)
  {
    hide Fill, CStr;
    DotNames();
    var b := Fill(Zeros(BS), 0, 12, self, DOT, 2);
    FillFields(Zeros(BS), 0, 12, self, DOT, 2);
    var c := DotsBlock(self, parent);
    FillFields(b, 12, BS - 12, parent, DOTDOT, 2);
    FirstDot(b, c, self);
    DotsBlockOk(self, parent);
  }

  // ---- overwriting a directory ----

  /** The tool overwrites whatever has the name. Every inode that had a name still has one exactly if that was a
      file or an empty directory; what another directory held stays live without a name. */
  lemma OverwrittenDir(fs: Fs, m: Fs, ino: nat)
    requires TreeInv(fs) && Live(fs, ino) && LiveFile(m, ino) && forall j: nat :: j != ino ==> Untouched(fs, m, j)
    ensures forall n: Name :: LiveDir(fs, ino) && !IsDot(n) && Entry(fs, ino, n) != 0 ==>
              Live(m, Entry(fs, ino, n)) && Unreferenced(m, Entry(fs, ino, n))
    ensures (forall c: nat :: c != 0 && !Unreferenced(fs, c) ==> !Unreferenced(m, c)) <==>
            LiveFile(fs, ino) || EmptyDir(fs, ino)
  {
    hide Untouched, Entry, Unreferenced, FilesOk, DotsOk, DirOk;
    forall n: Name | LiveDir(fs, ino) && !IsDot(n) && Entry(fs, ino, n) != 0
      ensures Live(m, Entry(fs, ino, n)) && Unreferenced(m, Entry(fs, ino, n)) && !Unreferenced(fs, Entry(fs, ino, n))
    {
      Dropped(fs, m, ino, n);
    }
    if LiveFile(fs, ino) || EmptyDir(fs, ino) {
      forall c: nat | c != 0 && !Unreferenced(fs, c)
        ensures !Unreferenced(m, c)
      {
        StillNamed(fs, m, ino, c);
      }
    }
  }

  lemma Dropped(fs: Fs, m: Fs, ino: nat, n: Name)
    requires TreeInv(fs) && LiveDir(fs, ino) && LiveFile(m, ino) && forall j: nat :: j != ino ==> Untouched(fs, m, j)
    requires !IsDot(n) && Entry(fs, ino, n) != 0
    ensures var c := Entry(fs, ino, n); Live(m, c) && Unreferenced(m, c) && !Unreferenced(fs, c)
  {
    hide Untouched, Entry, FilesOk, DotsOk, DirOk;
    var c := Entry(fs, ino, n);
    UntouchedKind(fs, m, c);
    forall d: nat, k: Name | LiveDir(m, d) && !IsDot(k)
      ensures Entry(m, d, k) != c
    {
      UntouchedKind(fs, m, d);
      UntouchedDir(fs, m, d);
    }
  }

  lemma StillNamed(fs: Fs, m: Fs, ino: nat, c: nat)
    requires TreeInv(fs) && (LiveFile(fs, ino) || EmptyDir(fs, ino)) && c != 0 && !Unreferenced(fs, c)
    requires forall j: nat :: j != ino ==> Untouched(fs, m, j)
    ensures !Unreferenced(m, c)
  {
    hide Untouched, Entry, EntriesLive, OneParent, FilesOk, DotsOk, DirOk;
    var d: nat, n: Name :| LiveDir(fs, d) && !IsDot(n) && Entry(fs, d, n) == c;
    UntouchedKind(fs, m, d);
    UntouchedDir(fs, m, d);
    assert LiveDir(m, d) && Entry(m, d, n) == c;
  }

  // ---- runs of kernel operations and host installations ----

  datatype Move =
    | Kernel(op: Op)
    | Host(d: nat, name: Name, data: seq<byte>)
    | Failed(d: nat, name: Name, data: seq<byte>)

  /** Good, and with clear bitmap padding. */
  ghost predicate Ready(fs: Fs) { Good(fs) && Shape(fs) && PadClear(fs) }

  /** The tool gave up and left the disk `e`, in one of the ways that do no harm. */
  ghost predicate FailsQuietly(fs: Fs, d: nat, name: Name, data: seq<byte>, e: seq<Block>)
    requires Shape(fs) && IsName(name)
  {
    var n := DataBlocks(|data|);
    var x := Entry(fs, d, name);
    && HostFails(fs, d, name, data, e)
    && (n <= MAX_FILE_BLOCKS ==> if x != 0 then OldKept(fs, x, data) else !Writable(fs, |data|) || n <= 1)
  }

  /** One move: an allowed kernel operation, a successful run of the tool and a mount, or a failed one that does no
      harm. */
  ghost predicate Moved(fs: Fs, move: Move, gs: Fs)
    requires Ready(fs)
  {
    match move
    case Kernel(op) => Allowed(fs, op) && gs == Exec(fs, op)
    case Host(d, name, data) =>
      LiveDir(fs, d) && d < fs.sup.inodesCount && IsName(name) && !IsDot(name) && HostPuts(fs, gs, d, name, data)
    case Failed(d, name, data) =>
      && LiveDir(fs, d) && IsName(name) && !IsDot(name)
      && exists e :: FailsQuietly(fs, d, name, data, e) && Mountable(e) && gs == Mount(e)
  }

  /** A host move is what `Put` does. */
  lemma HostMoved(fs: Fs, gs: Fs, d: nat, name: Name, data: seq<byte>) returns (ino: u32)
    requires Ready(fs) && Moved(fs, Host(d, name, data), gs)
    ensures Holds(fs, gs, ino, data) && LiveFile(gs, ino)
    ensures if Entry(fs, d, name) != 0
            then ino == Entry(fs, d, name) && forall j: nat :: j != ino ==> Untouched(fs, gs, j)
            else ino == NextInode(fs) && Linked(fs, gs, d, name, ino)
  {
    hide OwnInv, TreeInv, Synced, PadClear, Holds, Linked, Entry, NextInode, OverwroteBy, AddedBy, Untouched;
    var e := Entry(fs, d, name);
    if e != 0 {
      ino := e;
      NamedLive(fs, d, name);
      var hs, disk, node :| OverwroteBy(fs, gs, e, data, hs, disk, node);
      OverwroteOk(fs, gs, e, data, hs, disk, node);
    } else {
      ino := NextInode(fs);
      var hs, disk, node :| AddedBy(fs, gs, d, name, ino, data, hs, disk, node);
      AddedOk(fs, gs, d, name, ino, data, hs, disk, node);
    }
    HeldLive(fs, gs, ino, data);
  }

  /** A failed move changes nothing a kernel can see. */
  lemma FailedMoved(fs: Fs, gs: Fs, d: nat, name: Name, data: seq<byte>)
    requires Ready(fs) && Moved(fs, Failed(d, name, data), gs)
    ensures Ready(gs) && forall j: nat :: Untouched(fs, gs, j)
  {
    hide OwnInv, TreeInv, Synced, PadClear, Entry, NextInode, HostFails, Writable, OldKept, Untouched, Mount, Mountable,
         DataBlocks;
    var e :| FailsQuietly(fs, d, name, data, e) && Mountable(e) && gs == Mount(e);
    HostFailsOk(fs, d, name, data, e);
    NoInodeZero(fs, gs);
    OwnInvShape(gs);
    SamePads(fs, gs);
    PadsClear(fs, gs);
  }

  lemma NoInodeZero(fs: Fs, gs: Fs)
    ensures Untouched(fs, gs, 0)
  {
  }

  lemma HeldLive(fs: Fs, m: Fs, ino: nat, data: seq<byte>)
    requires Holds(fs, m, ino, data)
    ensures Ready(m) && LiveFile(m, ino) && Content(m, ino) == data
  {
    hide OwnInv, TreeInv, Synced, PadClear, Content, NoHoles;
    OwnInvShape(m);
  }

  lemma MovedReady(fs: Fs, move: Move, gs: Fs)
    requires Ready(fs) && Moved(fs, move, gs)
    ensures Ready(gs)
  {
    hide OwnInv, TreeInv, Synced, PadClear, Holds, Linked, Entry, NextInode, Exec, Allowed, HostPuts, Content,
         Untouched, FailsQuietly, Mount, Mountable;
    match move
    case Kernel(op) =>
      ExecGood(fs, op);
      ExecPads(fs, op);
      PadsClear(fs, gs);
    case Host(d, name, data) =>
      var ino := HostMoved(fs, gs, d, name, data);
      HeldLive(fs, gs, ino, data);
    case Failed(d, name, data) =>
      FailedMoved(fs, gs, d, name, data);
  }

  /** The states of a run, one more than its moves. */
  ghost predicate IsTrace(states: seq<Fs>, moves: seq<Move>)
    requires |states| == |moves| + 1 && Ready(states[0])
    decreases |moves|
  {
    hide Ready, Moved;
    moves == [] || (Moved(states[0], moves[0], states[1]) &&
                    (MovedReady(states[0], moves[0], states[1]); IsTrace(states[1..], moves[1..])))
  }

  /** Whatever mix of kernel operations and host installations, every state satisfies all invariants. */
  lemma {:induction false} TraceReady(states: seq<Fs>, moves: seq<Move>, i: nat)
    requires |states| == |moves| + 1 && Ready(states[0]) && IsTrace(states, moves) && i <= |moves|
    ensures Ready(states[i])
    decreases |moves|
  {
    hide Ready, Moved;
    if i > 0 {
      MovedReady(states[0], moves[0], states[1]);
      TraceReady(states[1..], moves[1..], i - 1);
    }
  }

  /** What a move does to the bytes `c` of file `f`. */
  ghost function MoveEffect(fs: Fs, move: Move, f: nat, c: seq<byte>): seq<byte>
    requires Shape(fs)
  {
    match move
    case Kernel(op) => Effect(fs, op, f, c)
    case Host(d, name, data) => if f != 0 && Entry(fs, d, name) == f then data else c
    case Failed(_, _, _) => c
  }

  lemma MovedContent(fs: Fs, move: Move, gs: Fs, f: nat)
    requires Ready(fs) && Moved(fs, move, gs) && LiveFile(fs, f) && Live(gs, f)
    ensures LiveFile(gs, f) && Content(gs, f) == MoveEffect(fs, move, f, Content(fs, f))
  {
    hide OwnInv, TreeInv, Synced, PadClear, Holds, Entry, NextInode, Exec, Allowed, HostPuts, Content, Untouched,
         Effect, FailsQuietly, Mount, Mountable;
    match move
    case Kernel(op) =>
      ExecContent(fs, op, f);
    case Host(d, name, data) =>
      var ino := HostMoved(fs, gs, d, name, data);
      HeldLive(fs, gs, ino, data);
      if ino != f {
        assert f != d;
        UntouchedContent(fs, gs, f);
      }
    case Failed(d, name, data) =>
      FailedMoved(fs, gs, d, name, data);
      UntouchedContent(fs, gs, f);
  }

  ghost function ReplayMoves(states: seq<Fs>, moves: seq<Move>, f: nat, c: seq<byte>): seq<byte>
    requires |states| == |moves| + 1 && Ready(states[0]) && IsTrace(states, moves)
    decreases |moves|
  {
    hide Good, PadClear, Moved, MoveEffect;
    if moves == [] then c
    else
      MovedReady(states[0], moves[0], states[1]);
      ReplayMoves(states[1..], moves[1..], f, MoveEffect(states[0], moves[0], f, c))
  }

  /** A file that stays allocated holds exactly the replay of what was written to it, by the kernel or from the host. */
  lemma {:induction false} TraceContent(states: seq<Fs>, moves: seq<Move>, f: nat)
    requires |states| == |moves| + 1 && Ready(states[0]) && IsTrace(states, moves) && LiveFile(states[0], f)
    requires forall i :: 0 <= i < |states| ==> Live(states[i], f)
    ensures LiveFile(states[|moves|], f)
    ensures Content(states[|moves|], f) == ReplayMoves(states, moves, f, Content(states[0], f))
    decreases |moves|
  {
    hide Ready, Moved, MoveEffect, Content, LiveFile, Live;
    if moves != [] {
      MovedReady(states[0], moves[0], states[1]);
      MovedContent(states[0], moves[0], states[1], f);
      TraceContent(states[1..], moves[1..], f);
    }
  }
}
