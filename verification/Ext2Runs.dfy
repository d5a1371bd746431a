/** Path lookup, and what holds in every state reachable from a formatted disk by
    any run of create, mkdir, write, truncate, unlink and remount. */
module Ext2Runs {
  import opened Bytes
  import opened Ext2State
  import opened Ext2Ownership
  import opened Ext2Disk
  import opened Ext2File
  import opened Ext2DirBlock
  import opened Ext2Dir
  import opened Ext2Tree
  import opened Ext2Names
  import opened Ext2Persist

  // ---- path lookup ----

  /** `ext2_lookup_inode` on a path split into components, starting from inode `cur`. */
  function LookupPath(fs: Fs, cur: nat, path: seq<Name>): nat
    decreases |path|
  {
    if path == [] then cur
    else if !IsInode(fs, cur) then 0
    else
      var next := FindEntry(fs, cur, path[0]);
      if next == 0 then 0 else LookupPath(fs, next, path[1..])
  }

  function Resolve(fs: Fs, path: seq<Name>): nat { LookupPath(fs, ROOT_INODE, path) }

  /** An entry of `d` other than the dots names `c`. */
  ghost predicate Named(fs: Fs, d: nat, c: nat) { exists n: Name :: !IsDot(n) && Entry(fs, d, n) == c != 0 }

  /** A chain of directories from the root down to `cur`. */
  ghost predicate Chain(fs: Fs, ch: seq<nat>, cur: nat) {
    && |ch| > 0 && ch[0] == ROOT_INODE && ch[|ch| - 1] == cur
    && (forall i :: 0 <= i < |ch| ==> LiveDir(fs, ch[i]))
    && (forall i :: 0 < i < |ch| ==> Named(fs, ch[i - 1], ch[i]))
  }

  /** The directory a component leads to is live, and again hangs off the root. */
  lemma ChainStep(fs: Fs, ch: seq<nat>, cur: nat, n: Name) returns (next: seq<nat>)
    requires TreeInv(fs) && Chain(fs, ch, cur) && Entry(fs, cur, n) != 0
    ensures Live(fs, Entry(fs, cur, n))
    ensures LiveDir(fs, Entry(fs, cur, n)) ==> Chain(fs, next, Entry(fs, cur, n))
  {
    hide Entry, FilesOk, OneParent, DirsOk;
    var c := Entry(fs, cur, n);
    next := ch;
    if n == DOTDOT {
      if |ch| > 1 {
        var up := ch[|ch| - 2];
        assert Named(fs, up, ch[|ch| - 1]);
        var m: Name :| !IsDot(m) && Entry(fs, up, m) == cur;
        assert c == up;
        next := ch[..|ch| - 1];
      }
    } else if n != DOT {
      assert Named(fs, cur, c);
      next := ch + [c];
    }
  }

  lemma {:induction false} LookupLive(fs: Fs, ch: seq<nat>, cur: nat, path: seq<Name>)
    requires FsInv(fs) && Live(fs, cur) && (LiveDir(fs, cur) ==> Chain(fs, ch, cur))
    ensures LookupPath(fs, cur, path) != 0 ==> Live(fs, LookupPath(fs, cur, path))
    decreases |path|
  {
    hide Entry, OwnInv, FindEntry, Chain;
    if path != [] {
      var next := FindEntry(fs, cur, path[0]);
      if next != 0 {
        FoundEntry(fs, cur, path[0]);
        var ch2 := ChainStep(fs, ch, cur, path[0]);
        LookupLive(fs, ch2, next, path[1..]);
      }
    }
  }

  lemma FoundEntry(fs: Fs, d: nat, n: Name)
    requires FsInv(fs) && Live(fs, d) && FindEntry(fs, d, n) != 0
    ensures LiveDir(fs, d) && FindEntry(fs, d, n) == Entry(fs, d, n)
  {
    hide Entry, OwnInv, LookupFrom;
    FindEntryIsEntry(fs, d, n);
  }

  /** Every path resolves to nothing or to a live inode, `.` and `..` included. */
  lemma ResolveLive(fs: Fs, path: seq<Name>)
    requires FsInv(fs)
    ensures Resolve(fs, path) != 0 ==> Live(fs, Resolve(fs, path)) && ParentOk(fs, Resolve(fs, path))
  {
    hide OwnInv, Entry, LookupPath, DirOk, FilesOk, DotsOk, OneParent, EntriesLive;
    assert Chain(fs, [ROOT_INODE], ROOT_INODE);
    LookupLive(fs, [ROOT_INODE], ROOT_INODE, path);
  }

  /** Lookup one level at a time from the far end. */
  lemma {:induction false} LookupSnoc(fs: Fs, cur: nat, path: seq<Name>, n: Name)
    ensures var d := LookupPath(fs, cur, path);
            LookupPath(fs, cur, path + [n]) == if !IsInode(fs, d) then 0 else FindEntry(fs, d, n)
    decreases |path|
  {
    hide FindEntry;
    if path == [] {
      assert (path + [n])[1..] == [] && (path + [n])[0] == n;
    } else {
      assert (path + [n])[0] == path[0] && (path + [n])[1..] == path[1..] + [n];
      if IsInode(fs, cur) && FindEntry(fs, cur, path[0]) != 0 {
        LookupSnoc(fs, FindEntry(fs, cur, path[0]), path[1..], n);
      }
    }
  }

  /** A directory the kernel answers lookups in. */
  ghost predicate Searchable(fs: Fs, d: nat) { LiveDir(fs, d) && d < fs.sup.inodesCount }

  /** A path names what its last component is entered as in the directory the rest of it names. */
  lemma ResolveSnoc(fs: Fs, path: seq<Name>, n: Name)
    requires FsInv(fs)
    ensures Resolve(fs, []) == ROOT_INODE
    ensures var d := Resolve(fs, path); Resolve(fs, path + [n]) == if Searchable(fs, d) then Entry(fs, d, n) else 0
  {
    hide OwnInv, TreeInv, Entry, LookupPath, FindEntry, DirOk;
    LookupSnoc(fs, ROOT_INODE, path, n);
    NoComponents(fs);
    ResolveLive(fs, path);
    var d := Resolve(fs, path);
    if d != 0 {
      FoundIn(fs, d, n);
    }
  }

  lemma NoComponents(fs: Fs)
    ensures LookupPath(fs, ROOT_INODE, []) == ROOT_INODE
  {
  }

  lemma FoundIn(fs: Fs, d: nat, n: Name)
    requires FsInv(fs) && Live(fs, d)
    ensures FindEntry(fs, d, n) == if Searchable(fs, d) then Entry(fs, d, n) else 0
  {
    hide OwnInv, Entry, LookupFrom, FilesOk, DotsOk, OneParent, EntriesLive;
    if Searchable(fs, d) {
      TreeDir(fs, d);
      FindEntryIsEntry(fs, d, n);
    }
  }

  /** The inodes a path leads through, from the root on, each entered in the one before. */
  ghost predicate LeadsThrough(fs: Fs, path: seq<Name>, c: seq<nat>) {
    |c| == |path| + 1 && c[0] == ROOT_INODE && forall i :: 0 <= i < |path| ==> Enters(fs, c[i], path[i], c[i + 1])
  }

  ghost predicate Enters(fs: Fs, d: nat, n: Name, x: nat) { Searchable(fs, d) && Entry(fs, d, n) == x != 0 }

  /** A path resolves to an inode exactly when a chain of entries from the root ends there. */
  lemma {:induction false} ResolveIs(fs: Fs, path: seq<Name>, x: nat)
    requires FsInv(fs)
    ensures Resolve(fs, path) == x != 0 <==> exists c :: LeadsThrough(fs, path, c) && c[|path|] == x
    decreases |path|
  {
    hide OwnInv, TreeInv, Entry, LookupPath, Searchable, Resolve;
    if path == [] {
      ResolveSnoc(fs, [], DOT);
      assert LeadsThrough(fs, [], [ROOT_INODE]);
    } else {
      var p, n := path[..|path| - 1], path[|path| - 1];
      assert path == p + [n];
      ResolveSnoc(fs, p, n);
      var d := Resolve(fs, p);
      ResolveIs(fs, p, d);
      if Resolve(fs, path) == x != 0 {
        NotSearchable(fs);
        var c :| LeadsThrough(fs, p, c) && c[|p|] == d;
        Longer(fs, p, c, n, x);
      }
      if exists c :: LeadsThrough(fs, path, c) && c[|path|] == x {
        var c :| LeadsThrough(fs, path, c) && c[|path|] == x;
        Shorter(fs, p, c, n);
        ResolveIs(fs, p, c[|p|]);
      }
    }
  }

  lemma NotSearchable(fs: Fs)
    ensures !Searchable(fs, 0)
  {
  }

  lemma Longer(fs: Fs, p: seq<Name>, c: seq<nat>, n: Name, x: nat)
    requires LeadsThrough(fs, p, c) && Enters(fs, c[|p|], n, x)
    ensures LeadsThrough(fs, p + [n], c + [x]) && (c + [x])[|p + [n]|] == x
  {
    hide Enters;
    assert (p + [n])[|p|] == n;
  }

  lemma Shorter(fs: Fs, p: seq<Name>, c: seq<nat>, n: Name)
    requires LeadsThrough(fs, p + [n], c)
    ensures LeadsThrough(fs, p, c[..|p| + 1]) && c[..|p| + 1][|p|] == c[|p|] != 0
    ensures Enters(fs, c[|p|], n, c[|p| + 1])
  {
    hide Entry;
    assert (p + [n])[|p|] == n;
    assert forall i :: 0 <= i < |p| ==> (p + [n])[i] == p[i];
    if |p| > 0 {
      assert Enters(fs, c[|p| - 1], p[|p| - 1], c[|p|]);
    }
  }

  // ---- operations and runs ----

  datatype Op =
    | Create(dir: seq<Name>, name: Name, mode: u16)
    | Mkdir(dir: seq<Name>, name: Name, mode: u16)
    | WriteAt(ino: nat, off: nat, data: seq<byte>)
    | TruncateTo0(path: seq<Name>)
    | Unlink(dir: seq<Name>, name: Name)
    | Remount

  /** What the kernel asks of its callers. Writes go to open files and start at or before the end;
      truncate is for files; unlink is given a directory and not `.` or `..`. */
  ghost predicate Allowed(fs: Fs, op: Op) {
    match op
    case Create(_, name, _) => IsName(name)
    case Mkdir(_, name, _) => IsName(name)
    case WriteAt(ino, off, _) => LiveFile(fs, ino) && off <= Node(fs, ino).size
    case TruncateTo0(path) => Resolve(fs, path) == 0 || LiveFile(fs, Resolve(fs, path))
    case Unlink(dir, name) => !IsDot(name) && (Resolve(fs, dir) == 0 || LiveDir(fs, Resolve(fs, dir)))
    case Remount => true
  }

  ghost predicate Good(fs: Fs) { FsInv(fs) && Synced(fs) }

  /** The state after an operation. */
  ghost function Exec(fs: Fs, op: Op): Fs
    requires Good(fs) && Allowed(fs, op)
  {
    hide OwnInv, TreeInv, Synced, CreateIn, MkdirIn, UnlinkIn, Write, Truncate, Resolve, Mount, Mountable;
    OwnInvShape(fs);
    match op
    case Create(dir, name, mode) =>
      ResolveLive(fs, dir);
      var p := Resolve(fs, dir);
      if p == 0 then fs else CreateIn(fs, p, name, mode).0
    case Mkdir(dir, name, mode) =>
      ResolveLive(fs, dir);
      var p := Resolve(fs, dir);
      if p == 0 then fs else MkdirIn(fs, p, name, mode).0
    case WriteAt(ino, off, data) => Write(fs, ino, off, data).0
    case TruncateTo0(path) => Truncate(fs, Resolve(fs, path)).0
    case Unlink(dir, name) =>
      var p := Resolve(fs, dir);
      if p == 0 then fs else UnlinkIn(fs, p, name).0
    case Remount =>
      MountKeepsInv(fs);
      Mount(fs.disk)
  }

  /** Every allowed operation keeps ownership, the tree and persistence. */
  lemma ExecGood(fs: Fs, op: Op)
    requires Good(fs) && Allowed(fs, op)
    ensures Good(Exec(fs, op))
  {
    hide OwnInv, TreeInv, Synced, CreateIn, MkdirIn, UnlinkIn, Write, Resolve, Mount, Mountable, Untouched, Rebound,
         Entry;
    OwnInvShape(fs);
    match op
    case Create(dir, name, mode) =>
      ResolveLive(fs, dir);
      var p := Resolve(fs, dir);
      if p != 0 {
        CreateOk(fs, p, name, mode);
        CreateSyncs(fs, p, name, mode);
      }
    case Mkdir(dir, name, mode) =>
      ResolveLive(fs, dir);
      var p := Resolve(fs, dir);
      if p != 0 {
        MkdirOk(fs, p, name, mode);
        MkdirSyncs(fs, p, name, mode);
      }
    case WriteAt(ino, off, data) =>
      WriteKeepsInv(fs, ino, off, data);
      WriteSyncs(fs, ino, off, data);
    case TruncateTo0(path) =>
      if Resolve(fs, path) != 0 {
        TruncateKeepsInv(fs, Resolve(fs, path));
        TruncateSyncs(fs, Resolve(fs, path));
      }
    case Unlink(dir, name) =>
      var p := Resolve(fs, dir);
      if p != 0 {
        UnlinkOk(fs, p, name);
        UnlinkSyncs(fs, p, name);
      }
    case Remount =>
      MountKeepsInv(fs);
  }

  ghost predicate AllAllowed(fs: Fs, ops: seq<Op>)
    requires Good(fs)
    decreases |ops|
  {
    hide FsInv, Synced, Exec, Allowed;
    ops == [] || (Allowed(fs, ops[0]) && (ExecGood(fs, ops[0]); AllAllowed(Exec(fs, ops[0]), ops[1..])))
  }

  ghost function Run(fs: Fs, ops: seq<Op>): Fs
    requires Good(fs) && AllAllowed(fs, ops)
    decreases |ops|
  {
    hide FsInv, Synced, Exec, Allowed;
    if ops == [] then fs
    else
      ExecGood(fs, ops[0]);
      Run(Exec(fs, ops[0]), ops[1..])
  }

  /** Safety over whole runs: in every reachable state no block is owned twice, every owned block is
      marked in use and lies in the data area, both free counters are exact, the tree is intact, and
      the disk holds it all. */
  lemma {:induction false} RunGood(fs: Fs, ops: seq<Op>)
    requires Good(fs) && AllAllowed(fs, ops)
    ensures Good(Run(fs, ops))
    decreases |ops|
  {
    hide FsInv, Synced, Exec, Allowed;
    if ops != [] {
      ExecGood(fs, ops[0]);
      RunGood(Exec(fs, ops[0]), ops[1..]);
    }
  }

  // ---- a file over a whole run ----

  /** What an operation does to the bytes `c` of file `f`: a write to it stores the accepted bytes, a
      truncate of it leaves nothing, and every other operation is invisible. */
  ghost function Effect(fs: Fs, op: Op, f: nat, c: seq<byte>): seq<byte>
    requires Shape(fs)
  {
    match op
    case WriteAt(ino, off, data) =>
      if ino == f && IsInode(fs, f) && f < fs.sup.inodesCount && off <= |c| then
        var n := Write(fs, ino, off, data).1;
        if 0 <= n <= |data| then Overlay(c, off, data[..n]) else c
      else c
    case TruncateTo0(path) => if Resolve(fs, path) == f && f < fs.sup.inodesCount then [] else c
    case _ => c
  }

  lemma WriteContent(fs: Fs, op: Op, f: nat)
    requires Good(fs) && op.WriteAt? && Allowed(fs, op) && LiveFile(fs, f)
    ensures Shape(fs) && LiveFile(Exec(fs, op), f) && Content(Exec(fs, op), f) == Effect(fs, op, f, Content(fs, f))
  {
    hide OwnInv, TreeInv, Synced, Write, NoHoles, OthersSame, StopsWell, Content;
    OwnInvShape(fs);
    var gs := Write(fs, op.ino, op.off, op.data).0;
    if op.ino >= fs.sup.inodesCount {
      WriteRejects(fs, op.ino, op.off, op.data);
    } else {
      TreeFile(fs, op.ino);
      WriteRefines(fs, op.ino, op.off, op.data);
      WriteKeepsKind(fs, op.ino, op.off, op.data);
      if f != op.ino {
        OthersContent(fs, gs, op.ino, f);
        OthersUntouched(fs, gs, op.ino, f);
      } else {
        ContentLength(fs, f);
      }
    }
  }

  lemma ContentLength(fs: Fs, f: nat)
    requires IsInode(fs, f)
    ensures |Content(fs, f)| == Node(fs, f).size
  {
  }

  lemma TruncateContent(fs: Fs, op: Op, f: nat)
    requires Good(fs) && op.TruncateTo0? && Allowed(fs, op) && LiveFile(fs, f)
    ensures Shape(fs) && LiveFile(Exec(fs, op), f) && Content(Exec(fs, op), f) == Effect(fs, op, f, Content(fs, f))
  {
    hide OwnInv, TreeInv, Synced, NoHoles, OthersSame, Content, Resolve, SyncInode;
    OwnInvShape(fs);
    var t := Resolve(fs, op.path);
    var gs := Truncate(fs, t).0;
    if t != 0 && t < fs.sup.inodesCount {
      TruncateOk(fs, t);
      if f != t {
        OthersContent(fs, gs, t, f);
        OthersUntouched(fs, gs, t, f);
      }
    }
  }

  lemma NamesContent(fs: Fs, op: Op, f: nat)
    requires Good(fs) && !op.WriteAt? && !op.TruncateTo0? && Allowed(fs, op) && LiveFile(fs, f) && Live(Exec(fs, op), f)
    ensures Untouched(fs, Exec(fs, op), f)
  {
    hide OwnInv, TreeInv, Synced, CreateIn, MkdirIn, UnlinkIn, Resolve, Mount, Mountable, Untouched, Entry, Content,
         DirOk;
    OwnInvShape(fs);
    UntouchedRefl(fs);
    match op
    case Create(dir, name, mode) =>
      ResolveLive(fs, dir);
      var p := Resolve(fs, dir);
      if p != 0 {
        CreateOk(fs, p, name, mode);
      }
    case Mkdir(dir, name, mode) =>
      ResolveLive(fs, dir);
      var p := Resolve(fs, dir);
      if p != 0 {
        MkdirOk(fs, p, name, mode);
      }
    case Unlink(dir, name) =>
      var p := Resolve(fs, dir);
      if p != 0 {
        UnlinkOk(fs, p, name);
      }
    case Remount =>
      MountKeepsInv(fs);
  }

  /** One operation acts on every surviving file exactly as `Effect` says. */
  lemma ExecContent(fs: Fs, op: Op, f: nat)
    requires Good(fs) && Allowed(fs, op) && LiveFile(fs, f) && Live(Exec(fs, op), f)
    ensures Shape(fs) && LiveFile(Exec(fs, op), f) && Content(Exec(fs, op), f) == Effect(fs, op, f, Content(fs, f))
  {
    hide OwnInv, TreeInv, Synced, Allowed, Exec, Content, Untouched, Write;
    OwnInvShape(fs);
    if op.WriteAt? {
      WriteContent(fs, op, f);
    } else if op.TruncateTo0? {
      TruncateContent(fs, op, f);
    } else {
      NamesContent(fs, op, f);
      UntouchedContent(fs, Exec(fs, op), f);
    }
  }

  /** `f` stays allocated throughout the run. */
  ghost predicate Survives(fs: Fs, ops: seq<Op>, f: nat)
    requires Good(fs) && AllAllowed(fs, ops)
    decreases |ops|
  {
    hide FsInv, Synced, Exec, Allowed, Live;
    Live(fs, f) && (ops == [] || (ExecGood(fs, ops[0]); Survives(Exec(fs, ops[0]), ops[1..], f)))
  }

  /** Replay the operations on a plain byte sequence. */
  ghost function Replay(fs: Fs, ops: seq<Op>, f: nat, c: seq<byte>): seq<byte>
    requires Good(fs) && AllAllowed(fs, ops)
    decreases |ops|
  {
    hide OwnInv, TreeInv, Synced, Exec, Allowed, Effect;
    OwnInvShape(fs);
    if ops == [] then c
    else
      ExecGood(fs, ops[0]);
      Replay(Exec(fs, ops[0]), ops[1..], f, Effect(fs, ops[0], f, c))
  }

  /** Refinement over whole runs: a file that survives a run holds exactly the bytes obtained by
      replaying the run on a byte sequence, whatever the other operations did in between. */
  lemma {:induction false} RunContent(fs: Fs, ops: seq<Op>, f: nat)
    requires Good(fs) && AllAllowed(fs, ops) && LiveFile(fs, f) && Survives(fs, ops, f)
    ensures LiveFile(Run(fs, ops), f) && Content(Run(fs, ops), f) == Replay(fs, ops, f, Content(fs, f))
    decreases |ops|
  {
    hide FsInv, Synced, Exec, Allowed, Live, Content, Effect;
    if ops != [] {
      ExecGood(fs, ops[0]);
      SurvivesNext(fs, ops, f);
      ExecContent(fs, ops[0], f);
      RunContent(Exec(fs, ops[0]), ops[1..], f);
    }
  }

  lemma SurvivesNext(fs: Fs, ops: seq<Op>, f: nat)
    requires Good(fs) && AllAllowed(fs, ops) && ops != [] && Survives(fs, ops, f)
    ensures Good(Exec(fs, ops[0])) && AllAllowed(Exec(fs, ops[0]), ops[1..])
    ensures Live(Exec(fs, ops[0]), f) && Survives(Exec(fs, ops[0]), ops[1..], f)
  {
    hide FsInv, Synced, Exec, Allowed, Live;
    ExecGood(fs, ops[0]);
    assert Survives(Exec(fs, ops[0]), ops[1..], f);
  }
}
