/** Little-endian integers inside byte sequences, and allocation bitmaps. */
module Bytes {

  type byte = x: int | 0 <= x < 0x100
  type u16 = x: int | 0 <= x < 0x1_0000
  type u32 = x: int | 0 <= x < 0x1_0000_0000

  function Le16(s: seq<byte>, off: nat): u16
    requires off + 2 <= |s|
  {
    (s[off] as int) + 0x100 * (s[off + 1] as int)
  }

  function Le32(s: seq<byte>, off: nat): u32
    requires off + 4 <= |s|
  {
    (s[off] as int) + 0x100 * (s[off + 1] as int) + 0x1_0000 * (s[off + 2] as int) + 0x100_0000 * (s[off + 3] as int)
  }

  lemma Le32Left(a: seq<byte>, b: seq<byte>, off: nat)
    requires off + 4 <= |a|
    ensures Le32(a + b, off) == Le32(a, off)
  {
  }

  lemma Le32Right(a: seq<byte>, b: seq<byte>, off: nat)
    requires off + 4 <= |b|
    ensures Le32(a + b, |a| + off) == Le32(b, off)
  {
  }

  /** The bytes of a 16-bit (32-bit) integer as the machine stores it. */
  function Bytes16(v: u16): (r: seq<byte>)
    ensures |r| == 2 && Le16(r, 0) == v
  {
    [v % 0x100, v / 0x100]
  }

  function Bytes32(v: u32): (r: seq<byte>)
    ensures |r| == 4 && Le32(r, 0) == v
  {
    ByteSum(v);
    [v % 0x100, v / 0x100 % 0x100, v / 0x1_0000 % 0x100, v / 0x100_0000]
  }

  lemma ByteSum(v: nat)
    ensures v % 0x100 + 0x100 * (v / 0x100 % 0x100) + 0x1_0000 * (v / 0x1_0000 % 0x100) + 0x100_0000 * (v / 0x100_0000)
            == v
  {
    var b := v / 0x100;
    var c := b / 0x100;
    assert v / 0x1_0000 == c && v / 0x100_0000 == c / 0x100;
  }

  /** The value of two (four) bytes encodes back to those bytes. */
  lemma Bytes16Back(raw: seq<byte>, off: nat)
    requires off + 2 <= |raw|
    ensures Bytes16(Le16(raw, off)) == raw[off..off + 2]
  {
  }

  lemma Bytes32Back(raw: seq<byte>, off: nat)
    requires off + 4 <= |raw|
    ensures Bytes32(Le32(raw, off)) == raw[off..off + 4]
  {
    var a, b, c, d := raw[off] as int, raw[off + 1] as int, raw[off + 2] as int, raw[off + 3] as int;
    Digits(a, b, c, d);
  }

  lemma Digits(a: int, b: int, c: int, d: int)
    requires 0 <= a < 256 && 0 <= b < 256 && 0 <= c < 256 && 0 <= d < 256
    ensures var v := a + 0x100 * b + 0x1_0000 * c + 0x100_0000 * d;
            v % 0x100 == a && v / 0x100 % 0x100 == b && v / 0x1_0000 % 0x100 == c && v / 0x100_0000 == d
  {
    Digit(a, b + 0x100 * c + 0x1_0000 * d);
    Digit(b, c + 0x100 * d);
    Digit(c, d);
    var v := a + 0x100 * b + 0x1_0000 * c + 0x100_0000 * d;
    assert v / 0x1_0000 == v / 0x100 / 0x100 && v / 0x100_0000 == v / 0x1_0000 / 0x100;
  }

  lemma Digit(a: int, r: int)
    requires 0 <= a < 0x100
    ensures (a + 0x100 * r) % 0x100 == a && (a + 0x100 * r) / 0x100 == r
  {
  }

  function Put16(s: seq<byte>, off: nat, v: u16): (r: seq<byte>)
    requires off + 2 <= |s|
    ensures |r| == |s| && Le16(r, off) == v
    ensures forall k :: 0 <= k < |s| && !(off <= k < off + 2) ==> r[k] == s[k]
  {
    s[off := v % 0x100][off + 1 := v / 0x100]
  }

  function Put32(s: seq<byte>, off: nat, v: u32): (r: seq<byte>)
    requires off + 4 <= |s|
    ensures |r| == |s| && Le32(r, off) == v
    ensures forall k :: 0 <= k < |s| && !(off <= k < off + 4) ==> r[k] == s[k]
  {
    var b := Bytes32(v);
    s[off := b[0]][off + 1 := b[1]][off + 2 := b[2]][off + 3 := b[3]]
  }

  /** Overwrite `s` from offset `off` with `d`. */
  function Splice(s: seq<byte>, off: nat, d: seq<byte>): (r: seq<byte>)
    requires off + |d| <= |s|
    ensures |r| == |s|
    ensures forall k :: 0 <= k < |s| ==> r[k] == if off <= k < off + |d| then d[k - off] else s[k]
  {
    s[..off] + d + s[off + |d|..]
  }

  function Zeros(n: nat): (r: seq<byte>)
    ensures |r| == n && forall k :: 0 <= k < n ==> r[k] == 0
  {
    seq(n, _ => 0)
  }
}

/** Allocation bitmaps: bit `i` is set exactly when item `i` is in use. */
module Bitmaps {

  /** Index of the lowest clear bit in `[lo, hi)`, or `hi` when all are set. */
  function FirstClear(bits: seq<bool>, lo: nat, hi: nat): (r: nat)
    requires lo <= hi <= |bits|
    ensures lo <= r <= hi
    ensures r < hi ==> !bits[r]
    ensures forall k :: lo <= k < r ==> bits[k]
    decreases hi - lo
  {
    if lo == hi then hi
    else if !bits[lo] then lo
    else FirstClear(bits, lo + 1, hi)
  }

  /** Number of clear bits among the first `n`. */
  function ClearCount(bits: seq<bool>, n: nat): (r: nat)
    requires n <= |bits|
    ensures r <= n
  {
    if n == 0 then 0 else ClearCount(bits, n - 1) + if bits[n - 1] then 0 else 1
  }

  /** Flipping one bit inside the counted range moves the count by exactly one. */
  lemma {:induction false} ClearCountUpdate(bits: seq<bool>, n: nat, i: nat, v: bool)
    requires n <= |bits| && i < |bits|
    ensures ClearCount(bits[i := v], n) ==
            if i < n && bits[i] != v then ClearCount(bits, n) + (if v then -1 else 1) else ClearCount(bits, n)
  {
    if n > 0 {
      ClearCountUpdate(bits, n - 1, i, v);
    }
  }

  /** The count only depends on the counted bits. */
  lemma {:induction false} ClearCountExt(a: seq<bool>, b: seq<bool>, n: nat)
    requires n <= |a| && n <= |b| && forall k :: 0 <= k < n ==> a[k] == b[k]
    ensures ClearCount(a, n) == ClearCount(b, n)
  {
    if n > 0 {
      ClearCountExt(a, b, n - 1);
    }
  }

  lemma {:induction false} ClearCountPositive(bits: seq<bool>, n: nat, i: nat)
    requires i < n <= |bits| && !bits[i]
    ensures ClearCount(bits, n) > 0
  {
    if i < n - 1 {
      ClearCountPositive(bits, n - 1, i);
    }
  }
}
