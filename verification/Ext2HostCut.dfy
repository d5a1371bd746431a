/** Running out of blocks in the middle of a file: what the host tool has written by then, and what that does to
    the file it was overwriting. */
module Ext2HostCut {
  import opened Numbers
  import opened Bytes
  import opened Ext2State
  import opened Ext2Ownership
  import opened Ext2Disk
  import opened Ext2Tree
  import opened Ext2Persist
  import opened Ext2Room
  import opened Ext2Fsck
  import opened Ext2HostFile
  import opened Ext2HostInstall
  import opened Ext2HostFail
  import opened Ext2Host

  /** What is left on disk when the blocks of `run` do not suffice: the data on the first of them, then as many
      tables as were begun, except that the L1 table is written last. All else is as on `d`. */
  ghost predicate CutShort(d: seq<Block>, e: seq<Block>, run: seq<nat>, data: seq<byte>) {
    var n := DataBlocks(|data|);
    && n <= |run| < Total(n) && |e| == |d| && (forall i :: 0 <= i < |run| ==> run[i] < |d|)
    && (forall i :: 0 <= i < |run| ==> CutBlock(e[run[i]], run, data, i))
    && (forall x :: 0 <= x < |d| && (x !in run || (n + 1 < |run| && x == run[n + 1])) ==> e[x] == d[x])
  }

  /** `b` is what is written to the `i`-th block of the run. */
  predicate CutBlock(b: Block, run: seq<nat>, data: seq<byte>, i: nat)
    requires i < |run| && DataBlocks(|data|) <= |run| < Total(DataBlocks(|data|))
  {
    var n := DataBlocks(|data|);
    if i < n then i * BS < |data| && b == Chunk(data, i)
    else if i == n then TableIs(b, run[NDIRECT..Min(n, FIRST_DOUBLE)])
    else if i == n + 1 then true
    else GroupInRange(n, i - n - 2, |run|); TableIs(b, Group(run, n, i - n - 2))
  }

  /** The disk after the tool ran out of blocks with the block bits `bits`: it takes all data blocks before it writes
      any of them, so nothing is written when these do not fit. */
  ghost predicate CutOff(fs: Fs, bits: seq<bool>, e: seq<Block>, data: seq<byte>)
    requires Shape(fs) && |bits| == |fs.blockBits|
  {
    var n := DataBlocks(|data|);
    if n > FreeUnder(fs, bits) then e == fs.disk else CutShort(fs.disk, e, FreeRun(fs, bits), data)
  }

  /** All blocks free under `bits`, lowest first. */
  function FreeRun(fs: Fs, bits: seq<bool>): (run: seq<nat>)
    requires Shape(fs) && |bits| == |fs.blockBits|
    ensures |run| == FreeUnder(fs, bits) && forall i :: 0 <= i < |run| ==> 0 < run[i] < |fs.disk|
  {
    var z := fs.(blockBits := bits);
    ReserveAll(z);
    Reserve(z, FreeData(z)).1
  }

  lemma GroupInRange(n: nat, g: nat, len: nat)
    requires n + 2 + g < len < Total(n)
    ensures g < Groups(n)
  {
  }

  // ---- the free blocks ----

  /** Taking a run uses up that many free blocks. */
  lemma {:induction false} ReserveFree(z: Fs, m: nat)
    requires Shape(z)
    ensures FreeData(Reserve(z, m).0) == FreeData(z) - |Reserve(z, m).1|
    decreases m
  {
    hide NextBlock, MarkBlock, FreeData;
    NextBlockExact(z);
    if m > 0 && NextBlock(z) != 0 {
      ReserveFree(MarkBlock(z, NextBlock(z)), m - 1);
    }
  }

  lemma ReserveAll(z: Fs)
    requires Shape(z)
    ensures var run := Reserve(z, FreeData(z)).1;
            |run| == FreeData(z) && forall i :: 0 <= i < |run| ==> 0 < run[i] < |z.disk|
  {
    hide Reserve, FreeData;
    ReserveFree(z, FreeData(z));
    ReserveTakes(z, FreeData(z));
    ReserveShort(z, FreeData(z));
    NextBlockExact(Reserve(z, FreeData(z)).0);
    var run := Reserve(z, FreeData(z)).1;
    assert forall i :: 0 <= i < |run| ==> run[i] in run && IsFree(z, run[i]);
  }

  lemma {:induction false} ReserveShort(z: Fs, m: nat)
    requires Shape(z)
    ensures |Reserve(z, m).1| <= m && (|Reserve(z, m).1| < m ==> NextBlock(Reserve(z, m).0) == 0)
    decreases m
  {
    hide NextBlock;
    if m > 0 && NextBlock(z) != 0 {
      ReserveShort(MarkBlock(z, NextBlock(z)), m - 1);
    }
  }

  /** Taking as many blocks as there are takes every free one, and only these. */
  lemma {:induction false} ReserveTakes(z: Fs, m: nat)
    requires Shape(z)
    ensures forall x: nat :: x in Reserve(z, m).1 ==> IsFree(z, x)
    ensures m >= FreeData(z) ==> forall x: nat :: IsFree(z, x) ==> x in Reserve(z, m).1
    decreases m
  {
    hide NextBlock, FreeData;
    NextBlockExact(z);
    if m > 0 && NextBlock(z) != 0 {
      var nb := NextBlock(z);
      var z1 := MarkBlock(z, nb);
      ReserveTakes(z1, m - 1);
      assert forall x: nat :: IsFree(z, x) <==> x == nb || IsFree(z1, x);
      assert Reserve(z, m).1 == [nb] + Reserve(z1, m - 1).1;
    }
  }

  lemma RunIsFree(fs: Fs, bits: seq<bool>)
    requires Shape(fs) && |bits| == |fs.blockBits|
    ensures forall x: nat :: x in FreeRun(fs, bits) <==> IsFree(fs.(blockBits := bits), x)
  {
    hide Reserve, IsFree;
    var z := fs.(blockBits := bits);
    assert FreeData(z) == FreeUnder(fs, bits);
    ReserveTakes(z, FreeUnder(fs, bits));
  }

  lemma CutScribbles(fs: Fs, bits: seq<bool>, e: seq<Block>, data: seq<byte>)
    requires Shape(fs) && |bits| == |fs.blockBits| && CutOff(fs, bits, e, data)
    ensures Scribbled(fs.(blockBits := bits), fs.disk, e)
  {
    hide FreeRun, IsFree, CutBlock, DataBlocks, Total;
    RunIsFree(fs, bits);
  }

  // ---- the file that was being overwritten ----

  /** The block bits once everything the inode refers to is given back. */
  function BitsWithout(fs: Fs, ino: nat): (bits: seq<bool>)
    requires Shape(fs) && IsInode(fs, ino)
    ensures |bits| == |fs.blockBits|
  {
    Cleared(fs.blockBits, InodeRefs(fs.disk, Node(fs, ino)), fs.sup.blocksCount)
  }

  lemma BitsWithoutOwn(fs: Fs, ino: nat)
    requires Shape(fs) && Live(fs, ino)
    ensures OnlyOwnCleared(fs, ino, BitsWithout(fs, ino))
  {
    hide OnlyOwnCleared, Cleared, InodeRefs;
    RefsOwned(fs, ino);
  }

  /** Whatever is written to a block of the inode is already there. */
  ghost predicate AlreadyThere(fs: Fs, ino: nat, data: seq<byte>, run: seq<nat>)
    requires DataBlocks(|data|) <= |run| < Total(DataBlocks(|data|))
    requires forall i :: 0 <= i < |run| ==> run[i] < |fs.disk|
  {
    forall i :: 0 <= i < |run| && OwnsBlock(fs, ino, run[i]) ==> CutBlock(fs.disk[run[i]], run, data, i)
  }

  /** The data alone does not fit, or it is there already. */
  ghost predicate OldKept(fs: Fs, ino: nat, data: seq<byte>)
    requires Shape(fs) && IsInode(fs, ino) && Total(DataBlocks(|data|)) > FreeUnder(fs, BitsWithout(fs, ino))
  {
    var bits := BitsWithout(fs, ino);
    DataBlocks(|data|) > FreeUnder(fs, bits) || AlreadyThere(fs, ino, data, FreeRun(fs, bits))
  }

  /** An overwrite that runs out of blocks. If the data alone does not fit, nothing is written. Otherwise the old
      file survives exactly when each of its blocks already holds what is put there: all of them are in the run. */
  lemma OverwriteCut(fs: Fs, ino: nat, data: seq<byte>, e: seq<Block>)
    requires FsInv(fs) && Synced(fs) && Live(fs, ino) && Shape(fs)
    requires Total(DataBlocks(|data|)) > FreeUnder(fs, BitsWithout(fs, ino))
    requires CutOff(fs, BitsWithout(fs, ino), e, data)
    ensures Mountable(e)
    ensures var m := Mount(e);
            && (forall j: nat :: j != ino ==> Untouched(fs, m, j))
            && Live(m, ino) && Node(m, ino) == Node(fs, ino) && SameMaps(fs, m)
            && (Untouched(fs, m, ino) <==> OldKept(fs, ino, data))
            && (Untouched(fs, m, ino) ==> FsInv(m))
            && (LiveFile(fs, ino) && Node(fs, ino).ptrs[12] == 0 && Node(fs, ino).ptrs[13] == 0 ==> FsInv(m))
  {
    hide Mount, Mountable, Untouched, Synced, OnlyOwnCleared, OwnInv, TreeInv, BitsWithout, FreeRun, CutShort,
         Scribbled, AlreadyThere, DataBlocks, FreeUnder, Spares, Total, SameMaps;
    var bits := BitsWithout(fs, ino);
    BitsWithoutOwn(fs, ino);
    CutScribbles(fs, bits, e, data);
    FailedOverwrite(fs, ino, bits, e);
    if DataBlocks(|data|) > FreeUnder(fs, bits) {
      SameDiskSpares(fs, ino);
    } else {
      RunIsFree(fs, bits);
      SparesExact(fs, ino, e, FreeRun(fs, bits), data);
    }
  }

  lemma SameDiskSpares(fs: Fs, ino: nat)
    ensures Spares(fs, fs.disk, ino)
  {
  }

  lemma SparesExact(fs: Fs, ino: nat, e: seq<Block>, run: seq<nat>, data: seq<byte>)
    requires CutShort(fs.disk, e, run, data) && 0 !in run
    ensures Spares(fs, e, ino) <==> AlreadyThere(fs, ino, data, run)
  {
    hide CutBlock, Own, DataBlocks, Total;
    if AlreadyThere(fs, ino, data, run) {
      forall t: Slot | 0 < Own(fs, ino, t) < |e|
        ensures e[Own(fs, ino, t)] == fs.disk[Own(fs, ino, t)]
      {
        var x := Own(fs, ino, t);
        if x in run {
          var i :| 0 <= i < |run| && run[i] == x;
          assert OwnsBlock(fs, ino, run[i]);
          if i != DataBlocks(|data|) + 1 {
            CutUnique(e[x], fs.disk[x], run, data, i);
          }
        }
      }
    }
    if Spares(fs, e, ino) {
      forall i | 0 <= i < |run| && OwnsBlock(fs, ino, run[i])
        ensures CutBlock(fs.disk[run[i]], run, data, i)
      {
        var t: Slot :| Own(fs, ino, t) == run[i];
        assert run[i] in run;
        assert e[Own(fs, ino, t)] == fs.disk[Own(fs, ino, t)];
      }
    }
  }

  /** What is put into a block determines it. */
  lemma CutUnique(a: Block, b: Block, run: seq<nat>, data: seq<byte>, i: nat)
    requires i < |run| && DataBlocks(|data|) <= |run| < Total(DataBlocks(|data|)) && i != DataBlocks(|data|) + 1
    requires CutBlock(a, run, data, i) && CutBlock(b, run, data, i)
    ensures a == b
  {
    hide Chunk, DataBlocks, Group, Le32;
    if i >= DataBlocks(|data|) {
      SameWords(a, b);
    }
  }

  /** All blocks of the file are among those that are taken. */
  lemma OwnTaken(fs: Fs, ino: nat, t: Slot)
    requires OwnInv(fs) && Shape(fs) && Live(fs, ino) && Own(fs, ino, t) != 0
    ensures Own(fs, ino, t) in FreeRun(fs, BitsWithout(fs, ino))
  {
    hide InodeRefs, FreeRun, Own, Unshared, FreedClear, CountsOk;
    RunIsFree(fs, BitsWithout(fs, ino));
    OwnedRef(fs, ino, t);
  }
}
