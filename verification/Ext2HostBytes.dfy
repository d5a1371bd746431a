/** Byte-level facts behind the host tool: it patches raw inodes and the raw superblock in place, where the
    kernel encodes whole records. */
module Ext2HostBytes {
  import opened Bytes
  import opened Bitmaps
  import opened Ext2State
  import opened Ext2Disk

  /** The pointers found in a stretch of bytes encode to that stretch. */
  lemma {:induction false} PtrBytesBack(raw: seq<byte>, off: nat, ptrs: seq<u32>)
    requires off + 4 * |ptrs| <= |raw| && forall i :: 0 <= i < |ptrs| ==> ptrs[i] == Le32(raw, off + 4 * i)
    ensures PtrBytes(ptrs) == raw[off..off + 4 * |ptrs|]
    decreases |ptrs|
  {
    if ptrs != [] {
      Bytes32Back(raw, off);
      var rest := ptrs[1..];
      forall i | 0 <= i < |rest|
        ensures rest[i] == Le32(raw, off + 4 + 4 * i)
      {
        assert rest[i] == ptrs[i + 1];
      }
      PtrBytesBack(raw, off + 4, rest);
      assert raw[off..off + 4] + raw[off + 4..off + 4 * |ptrs|] == raw[off..off + 4 * |ptrs|];
    }
  }

  lemma HeadBack(raw: seq<byte>)
    requires |raw| == 256
    ensures InodeHead(DecodeInode(raw)) == raw[..40]
  {
    Bytes16Back(raw, 0);
    Bytes16Back(raw, 2);
    Bytes32Back(raw, 4);
    Bytes16Back(raw, 24);
    Bytes16Back(raw, 26);
    Bytes32Back(raw, 28);
    assert raw[..40] == raw[0..2] + raw[2..4] + raw[4..8] + raw[8..24] + raw[24..26] + raw[26..28]
                        + raw[28..32] + raw[32..40];
  }

  /** Decoding and encoding an inode is the identity on bytes, too. */
  lemma EncodeDecoded(raw: seq<byte>)
    requires |raw| == 256
    ensures EncodeInode(DecodeInode(raw)) == raw
  {
    hide InodeHead, PtrBytes, DecodeInode;
    HeadBack(raw);
    DecodedTail(raw);
    PtrBytesBack(raw, 40, DecodeInode(raw).ptrs);
    assert raw == raw[..40] + raw[40..100] + raw[100..];
  }

  lemma DecodedTail(raw: seq<byte>)
    requires |raw| == 256
    ensures DecodeInode(raw).tail == raw[100..]
    ensures forall i :: 0 <= i < 15 ==> DecodeInode(raw).ptrs[i] == Le32(raw, 40 + 4 * i)
  {
  }

  /** Patching a field of the raw bytes is the field update on the record. */
  lemma PatchPtr(raw: seq<byte>, k: nat, v: u32)
    requires |raw| == 256 && k < 15
    ensures DecodeInode(Put32(raw, 40 + 4 * k, v)) == DecodeInode(raw).(ptrs := DecodeInode(raw).ptrs[k := v])
  {
    hide Put32;
    var c := Put32(raw, 40 + 4 * k, v);
    assert c[8..24] == raw[8..24] && c[32..40] == raw[32..40] && c[100..] == raw[100..];
    forall i | 0 <= i < 15
      ensures Le32(c, 40 + 4 * i) == if i == k then v else Le32(raw, 40 + 4 * i)
    {
    }
    assert DecodeInode(c).ptrs == DecodeInode(raw).ptrs[k := v];
  }

  lemma PatchSize(raw: seq<byte>, v: u32)
    requires |raw| == 256
    ensures DecodeInode(Put32(raw, 4, v)) == DecodeInode(raw).(size := v)
  {
    hide Put32;
    var c := Put32(raw, 4, v);
    assert c[8..24] == raw[8..24] && c[32..40] == raw[32..40] && c[100..] == raw[100..];
    assert DecodeInode(c).ptrs == DecodeInode(raw).ptrs;
  }

  lemma PatchBlocks(raw: seq<byte>, v: u32)
    requires |raw| == 256
    ensures DecodeInode(Put32(raw, 28, v)) == DecodeInode(raw).(blocks := v)
  {
    hide Put32;
    var c := Put32(raw, 28, v);
    assert c[8..24] == raw[8..24] && c[32..40] == raw[32..40] && c[100..] == raw[100..];
    assert DecodeInode(c).ptrs == DecodeInode(raw).ptrs;
  }

  lemma PatchMode(raw: seq<byte>, v: u16)
    requires |raw| == 256
    ensures DecodeInode(Put16(raw, 0, v)) == DecodeInode(raw).(mode := v)
  {
    hide Put16;
    var c := Put16(raw, 0, v);
    assert c[8..24] == raw[8..24] && c[32..40] == raw[32..40] && c[100..] == raw[100..];
    assert DecodeInode(c).ptrs == DecodeInode(raw).ptrs;
  }

  lemma PatchLinks(raw: seq<byte>, v: u16)
    requires |raw| == 256
    ensures DecodeInode(Put16(raw, 26, v)) == DecodeInode(raw).(links := v)
  {
    hide Put16;
    var c := Put16(raw, 26, v);
    assert c[8..24] == raw[8..24] && c[32..40] == raw[32..40] && c[100..] == raw[100..];
    assert DecodeInode(c).ptrs == DecodeInode(raw).ptrs;
  }

  // ---- superblock ----

  /** The superblock with both free counts replaced. */
  function PutFree(b: Block, freeBlocks: u32, freeInodes: u32): Block
  {
    Put32(Put32(b, 12, freeBlocks), 16, freeInodes)
  }

  /** Patching the counts in an encoded superblock encodes the superblock with those counts. */
  lemma PatchSuper(s: Super, fb: u32, fi: u32)
    ensures PutFree(EncodeSuper(s), fb, fi) == EncodeSuper(s.(freeBlocks := fb, freeInodes := fi))
  {
    hide Put32, PtrBytes;
    var b := EncodeSuper(s);
    var t := s.(freeBlocks := fb, freeInodes := fi);
    var c := PutFree(b, fb, fi);
    var e := EncodeSuper(t);
    CountWords(s, b);
    CountWords(t, e);
    forall k | 28 <= k < BS
      ensures c[k] == e[k]
    {
      assert b[k] == b[28..][k - 28] && e[k] == e[28..][k - 28];
    }
    forall i | 0 <= i < 7
      ensures Le32(c, 4 * i) == Le32(e, 4 * i)
    {
      CountWord(s, b, i);
      CountWord(t, e, i);
      FreeWord(b, fb, fi, i);
    }
    SameWords(c, e);
  }

  /** Everything after the counts, and the counts themselves. */
  lemma CountWords(s: Super, b: Block)
    requires b == EncodeSuper(s)
    ensures b[..28] == SuperCounts(s) && b[28..] == s.mid + Bytes32(BS) + Bytes32(1) + s.tail + Zeros(8)
  {
    hide SuperCounts;
  }

  function Counts(s: Super): seq<u32> {
    [s.inodesCount, s.blocksCount, s.reserved, s.freeBlocks, s.freeInodes, s.firstData, s.logBlockSize]
  }

  lemma CountWord(s: Super, b: Block, i: nat)
    requires b == EncodeSuper(s) && i < 7
    ensures Le32(b, 4 * i) == Counts(s)[i]
  {
    hide PtrBytes;
    CountWords(s, b);
    PtrBytesAt(Counts(s), i);
    assert forall k :: 0 <= k < 28 ==> b[k] == b[..28][k];
  }

  lemma FreeWord(b: Block, fb: u32, fi: u32, i: nat)
    requires i < 7
    ensures Le32(PutFree(b, fb, fi), 4 * i) == if i == 3 then fb else if i == 4 then fi else Le32(b, 4 * i)
  {
    hide Put32;
  }

  lemma SameWords(c: Block, e: Block)
    requires (forall i :: 0 <= i < 7 ==> Le32(c, 4 * i) == Le32(e, 4 * i)) && forall k :: 28 <= k < BS ==> c[k] == e[k]
    ensures c == e
  {
    forall k | 0 <= k < 28
      ensures c[k] == e[k]
    {
      var i := k / 4;
      Bytes32Back(c, 4 * i);
      Bytes32Back(e, 4 * i);
      assert c[4 * i..4 * i + 4][k - 4 * i] == e[4 * i..4 * i + 4][k - 4 * i];
    }
  }

  // ---- counting ----

  /** Number of set bits among the first `n`. */
  function SetCount(bits: seq<bool>, n: nat): nat
    requires n <= |bits|
  {
    if n == 0 then 0 else SetCount(bits, n - 1) + if bits[n - 1] then 1 else 0
  }

  lemma {:induction false} SetAndClear(bits: seq<bool>, n: nat)
    requires n <= |bits|
    ensures SetCount(bits, n) + ClearCount(bits, n) == n
  {
    if n > 0 {
      SetAndClear(bits, n - 1);
    }
  }

  lemma {:induction false} PaddingClear(bits: seq<bool>, n: nat, m: nat)
    requires n <= m <= |bits| && forall k :: n <= k < m ==> !bits[k]
    ensures SetCount(bits, m) == SetCount(bits, n)
    decreases m - n
  {
    if n < m {
      PaddingClear(bits, n, m - 1);
    }
  }

  /** Recounting over whole bytes gives the number of free items exactly when the padding bits are clear. */
  lemma {:induction false} Recount(bits: seq<bool>, n: nat, m: nat)
    requires n <= m <= |bits|
    ensures n - SetCount(bits, m) == ClearCount(bits, n) <==> forall k :: n <= k < m ==> !bits[k]
    decreases m - n
  {
    SetAndClear(bits, n);
    if forall k :: n <= k < m ==> !bits[k] {
      PaddingClear(bits, n, m);
    } else {
      var k :| n <= k < m && bits[k];
      SetMore(bits, n, m, k);
    }
  }

  lemma {:induction false} SetMore(bits: seq<bool>, n: nat, m: nat, k: nat)
    requires n <= k < m <= |bits| && bits[k]
    ensures SetCount(bits, m) > SetCount(bits, n)
    decreases m
  {
    SetMonotone(bits, n, k);
    SetMonotone(bits, k + 1, m);
  }

  lemma {:induction false} SetMonotone(bits: seq<bool>, n: nat, m: nat)
    requires n <= m <= |bits|
    ensures SetCount(bits, n) <= SetCount(bits, m)
    decreases m - n
  {
    if n < m {
      SetMonotone(bits, n, m - 1);
    }
  }
}
