/** One directory block: variable-length records packed end to end, walked by
    `rec_len`. Lookup, insertion (slot reuse or split) and removal (merge into
    the previous record, or a zeroed first record). */
module Ext2DirBlock {
  import opened Bytes
  import opened Ext2State

  type Name = seq<byte>

  const MAX_NAME := 255
  const DOT: Name := [46]
  const DOTDOT: Name := [46, 46]

  /** What `strcmp` sees of a byte string: everything before the first NUL. */
  function CStr(s: seq<byte>): seq<byte> {
    if s == [] || s[0] == 0 then [] else [s[0]] + CStr(s[1..])
  }

  /** A path component: 1 to 255 bytes, no NUL. */
  predicate IsName(n: Name) { 0 < |n| <= MAX_NAME && CStr(n) == n }

  // ---- fields of the record at offset o ----

  function RecIno(b: Block, o: nat): u32
    requires o + 8 <= BS
  {
    Le32(b, o)
  }

  function RecLen(b: Block, o: nat): u16
    requires o + 8 <= BS
  {
    Le16(b, o + 4)
  }

  function NameLen(b: Block, o: nat): byte
    requires o + 8 <= BS
  {
    b[o + 6]
  }

  function RecName(b: Block, o: nat): Name
    requires o + 8 <= BS
  {
    if o + 8 + NameLen(b, o) <= BS then b[o + 8..o + 8 + NameLen(b, o)] else b[o + 8..]
  }

  /** `(8 + len + 3) & ~3`: the space a record with this name needs. */
  function Space(len: nat): (r: nat)
    ensures r % 4 == 0 && 8 + len <= r < 12 + len
  {
    (8 + len + 3) / 4 * 4
  }

  // ---- well-formed chains ----

  predicate RecOk(b: Block, o: nat)
    requires o + 8 <= BS
  {
    && 8 <= RecLen(b, o) && RecLen(b, o) % 4 == 0 && o + RecLen(b, o) <= BS
    && (RecIno(b, o) != 0 ==> NameLen(b, o) > 0 && Space(NameLen(b, o)) <= RecLen(b, o)
                              && CStr(RecName(b, o)) == RecName(b, o))
  }

  /** From offset `o` on, records tile the block exactly. */
  predicate Tiles(b: Block, o: nat)
    requires o <= BS
    decreases BS - o
  {
    o == BS || (o + 8 <= BS && RecOk(b, o) && Tiles(b, o + RecLen(b, o)))
  }

  /** The test `find_entry_in_dir` makes on a record. */
  predicate Matches(b: Block, o: nat, n: Name)
    requires o + 8 <= BS
  {
    RecIno(b, o) != 0 && NameLen(b, o) > 0 && CStr(RecName(b, o)) == n
  }

  /** Inode of the first record from `o` on that carries name `n`, or 0; the walk stops at `lim`. */
  function FindUpTo(b: Block, o: nat, lim: nat, n: Name): u32
    decreases BS - o
  {
    if o >= lim || o + 8 > BS then 0
    else if Matches(b, o, n) then RecIno(b, o)
    else if RecLen(b, o) == 0 then 0
    else FindUpTo(b, o + RecLen(b, o), lim, n)
  }

  function Find(b: Block, o: nat, n: Name): u32 { FindUpTo(b, o, BS, n) }

  /** No two records from `o` on carry the same name. */
  predicate Distinct(b: Block, o: nat)
    requires o <= BS && Tiles(b, o)
    decreases BS - o
  {
    o == BS || ((RecIno(b, o) != 0 ==> Find(b, o + RecLen(b, o), RecName(b, o)) == 0)
                && Distinct(b, o + RecLen(b, o)))
  }

  lemma FindEnd(b: Block)
    ensures forall n: Name :: Find(b, BS, n) == 0
  {
  }

  lemma RecInside(b: Block, o: nat)
    requires o + 8 <= BS && RecOk(b, o)
    ensures 8 <= RecLen(b, o) && o + RecLen(b, o) <= BS
  {
  }

  lemma FindStep(b: Block, o: nat, n: Name)
    requires o < BS && Tiles(b, o)
    ensures Find(b, o, n) == if Matches(b, o, n) then RecIno(b, o) else Find(b, o + RecLen(b, o), n)
  {
  }

  /** Everything about the chain from `o` on is determined by the bytes from `o` on. */
  lemma {:induction false} ChainFrame(b: Block, c: Block, o: nat)
    requires o <= BS && Tiles(b, o) && b[o..] == c[o..]
    ensures Tiles(c, o) && (Distinct(c, o) <==> Distinct(b, o))
    ensures forall n: Name :: Find(c, o, n) == Find(b, o, n)
    decreases BS - o
  {
    hide Find, RecName, RecLen, RecIno, NameLen, RecOk;
    if o == BS {
      FindEnd(b);
      FindEnd(c);
    } else {
      assert forall k :: o <= k < BS ==> b[k] == b[o..][k - o] == c[o..][k - o] == c[k];
      RecInside(b, o);
      SameRecord(b, c, o);
      var nx := o + RecLen(b, o);
      assert b[nx..] == c[nx..];
      ChainFrame(b, c, nx);
      forall n: Name
        ensures Find(c, o, n) == Find(b, o, n)
      {
        FindStep(b, o, n);
        FindStep(c, o, n);
      }
    }
  }

  lemma SameRecord(b: Block, c: Block, o: nat)
    requires o + 8 <= BS && RecOk(b, o) && forall k :: o <= k < o + RecLen(b, o) ==> b[k] == c[k]
    ensures RecLen(c, o) == RecLen(b, o) && RecIno(c, o) == RecIno(b, o) && NameLen(c, o) == NameLen(b, o)
    ensures RecIno(b, o) != 0 ==> RecName(c, o) == RecName(b, o)
    ensures RecOk(c, o) && forall n: Name :: Matches(c, o, n) <==> Matches(b, o, n)
  {
    assert RecLen(c, o) == RecLen(b, o) && RecIno(c, o) == RecIno(b, o) && NameLen(c, o) == NameLen(b, o);
    if RecIno(b, o) != 0 {
      assert RecName(c, o) == RecName(b, o);
    }
  }

  // ---- insertion ----

  datatype Option<T> = None | Some(value: T)

  /** The bytes of a record header and name. */
  function RecBytes(ino: u32, len: u16, name: Name, ftype: byte): (r: seq<byte>)
    requires |name| <= MAX_NAME
    ensures |r| == 8 + |name|
  {
    Bytes32(ino) + Bytes16(len) + [|name|, ftype] + name
  }

  /** Put a record of length `len` at `o`. */
  function Fill(b: Block, o: nat, len: u16, ino: u32, name: Name, ftype: byte): Block
    requires o + 8 + |name| <= BS && |name| <= MAX_NAME
  {
    Splice(b, o, RecBytes(ino, len, name, ftype))
  }

  /** The insertion walk of `add_entry_to_dir` inside one block: reuse a free record that is long
      enough, or split a used one with enough slack. */
  function Insert(b: Block, o: nat, ino: u32, name: Name, ftype: byte): Option<Block>
    requires o <= BS && Tiles(b, o) && IsName(name)
    decreases BS - o
  {
    if o == BS then None
    else
      var used := Space(NameLen(b, o));
      var len := RecLen(b, o);
      if RecIno(b, o) == 0 && len >= Space(|name|) then
        Some(Fill(b, o, len, ino, name, ftype))
      else if RecIno(b, o) != 0 && len >= used + Space(|name|) then
        Some(Fill(Put16(b, o + 4, used), o + used, len - used, ino, name, ftype))
      else Insert(b, o + len, ino, name, ftype)
  }

  lemma FillFields(b: Block, o: nat, len: u16, ino: u32, name: Name, ftype: byte)
    requires o + 8 + |name| <= BS && IsName(name)
    ensures var c := Fill(b, o, len, ino, name, ftype);
            && RecIno(c, o) == ino && RecLen(c, o) == len && NameLen(c, o) == |name| && RecName(c, o) == name
            && (forall k :: 0 <= k < BS && !(o <= k < o + 8 + |name|) ==> c[k] == b[k])
  {
    hide RecBytes, CStr;
    var c := Fill(b, o, len, ino, name, ftype);
    var r := RecBytes(ino, len, name, ftype);
    RecBytesAt(ino, len, name, ftype);
    assert forall k :: 0 <= k < |r| ==> c[o + k] == r[k];
    assert c[o + 0] == r[0] && c[o + 1] == r[1] && c[o + 2] == r[2] && c[o + 3] == r[3];
    assert c[o + 4] == r[4] && c[o + 5] == r[5] && c[o + 6] == r[6];
    assert c[o + 8..o + 8 + |name|] == r[8..];
  }

  /** The fields of an encoded record. */
  lemma RecBytesAt(ino: u32, len: u16, name: Name, ftype: byte)
    requires |name| <= MAX_NAME
    ensures var r := RecBytes(ino, len, name, ftype);
            Le32(r, 0) == ino && Le16(r, 4) == len && r[6] == |name| && r[7] == ftype && r[8..] == name
    ensures var r := RecBytes(ino, len, name, ftype); r[..4] == Bytes32(ino) && r[4..6] == Bytes16(len)
  {
    var r := RecBytes(ino, len, name, ftype);
    var w, h := Bytes32(ino), Bytes16(len);
    assert r[..4] == w && r[4..6] == h;
    assert r[0] == w[0] && r[1] == w[1] && r[2] == w[2] && r[3] == w[3] && r[4] == h[0] && r[5] == h[1];
  }

  /** The chain gained exactly the entry `name -> ino`; bytes before `o` are untouched. */
  ghost predicate Inserted(b: Block, c: Block, o: nat, ino: u32, name: Name)
    requires o <= BS && Tiles(b, o)
  {
    && c[..o] == b[..o]
    && Tiles(c, o) && Distinct(c, o)
    && Find(c, o, name) == ino
    && (forall n: Name :: n != name ==> Find(c, o, n) == Find(b, o, n))
  }

  /** Putting a well-formed record in front of a chain that lacks its name. */
  lemma PushRecord(c: Block, o: nat)
    requires o + 8 <= BS && RecOk(c, o) && Tiles(c, o + RecLen(c, o)) && Distinct(c, o + RecLen(c, o))
    requires RecIno(c, o) != 0 ==> Find(c, o + RecLen(c, o), RecName(c, o)) == 0
    ensures Tiles(c, o) && Distinct(c, o)
    ensures forall n: Name :: Find(c, o, n) ==
              if RecIno(c, o) != 0 && n == RecName(c, o) then RecIno(c, o) else Find(c, o + RecLen(c, o), n)
  {
    forall n: Name
      ensures Find(c, o, n) ==
              if RecIno(c, o) != 0 && n == RecName(c, o) then RecIno(c, o) else Find(c, o + RecLen(c, o), n)
    {
      FindStep(c, o, n);
    }
  }

  /** The chain behind the record at `o`, seen from the record. */
  lemma PopRecord(b: Block, o: nat)
    requires o < BS && Tiles(b, o) && Distinct(b, o)
    ensures o + 8 <= BS && RecOk(b, o) && Tiles(b, o + RecLen(b, o)) && Distinct(b, o + RecLen(b, o))
    ensures RecIno(b, o) != 0 ==> Find(b, o + RecLen(b, o), RecName(b, o)) == 0
    ensures forall n: Name :: Find(b, o, n) ==
              if RecIno(b, o) != 0 && n == RecName(b, o) then RecIno(b, o) else Find(b, o + RecLen(b, o), n)
  {
    PushRecord(b, o);
  }

  /** Reusing a free record. */
  lemma ReuseInserts(b: Block, o: nat, ino: u32, name: Name, ftype: byte)
    requires o < BS && Tiles(b, o) && Distinct(b, o) && IsName(name) && ino != 0 && Find(b, o, name) == 0
    requires RecIno(b, o) == 0 && RecLen(b, o) >= Space(|name|)
    ensures Inserted(b, Fill(b, o, RecLen(b, o), ino, name, ftype), o, ino, name)
  {
    hide Find, Distinct, Fill, RecName, RecLen, RecIno, NameLen;
    PopRecord(b, o);
    var c := Fill(b, o, RecLen(b, o), ino, name, ftype);
    FillFields(b, o, RecLen(b, o), ino, name, ftype);
    var nx := o + RecLen(b, o);
    assert b[nx..] == c[nx..];
    ChainFrame(b, c, nx);
    PushRecord(c, o);
    assert c[..o] == b[..o];
  }

  /** Splitting a used record. */
  lemma SplitInserts(b: Block, o: nat, ino: u32, name: Name, ftype: byte)
    requires o < BS && Tiles(b, o) && Distinct(b, o) && IsName(name) && ino != 0 && Find(b, o, name) == 0
    requires RecIno(b, o) != 0 && RecLen(b, o) >= Space(NameLen(b, o)) + Space(|name|)
    ensures var used := Space(NameLen(b, o));
            Inserted(b, Fill(Put16(b, o + 4, used), o + used, RecLen(b, o) - used, ino, name, ftype), o, ino, name)
  {
    hide Find, Distinct, Fill, Space, Put16, RecName, RecLen, RecIno, NameLen, RecOk, Tiles, CStr;
    PopRecord(b, o);
    RecInside(b, o);
    var used := Space(NameLen(b, o));
    var m := Put16(b, o + 4, used);
    var len := RecLen(b, o) - used;
    var c := Fill(m, o + used, len, ino, name, ftype);
    SplitRoom(b, o, |name|);
    FillFields(m, o + used, len, ino, name, ftype);
    FilledOk(c, o + used, name);
    var nx := o + RecLen(b, o);
    SplitFirst(b, m, c, o);
    assert b[nx..] == c[nx..];
    ChainFrame(b, c, nx);
    PushRecord(c, o + used);
    PushRecord(c, o);
    assert c[..o] == b[..o];
  }

  lemma SplitRoom(b: Block, o: nat, n: nat)
    requires o + 8 <= BS && RecOk(b, o) && RecLen(b, o) >= Space(NameLen(b, o)) + Space(n)
    ensures var used := Space(NameLen(b, o));
            && o + RecLen(b, o) <= BS && (RecLen(b, o) - used) % 4 == 0 && RecLen(b, o) - used >= Space(n) >= 8 + n
            && used >= 8
  {
  }

  /** A record with room for its name is well formed. */
  lemma FilledOk(c: Block, o: nat, name: Name)
    requires o + 8 <= BS && IsName(name) && RecName(c, o) == name && NameLen(c, o) == |name|
    requires RecLen(c, o) % 4 == 0 && RecLen(c, o) >= Space(|name|) && o + RecLen(c, o) <= BS
    ensures RecOk(c, o)
  {
    hide CStr;
  }

  /** The first half of a split keeps its name and inode. */
  lemma SplitFirst(b: Block, m: Block, c: Block, o: nat)
    requires o + 8 <= BS && RecOk(b, o) && RecIno(b, o) != 0
    requires m == Put16(b, o + 4, Space(NameLen(b, o)))
    requires forall k :: 0 <= k < o + Space(NameLen(b, o)) ==> c[k] == m[k]
    ensures RecIno(c, o) == RecIno(b, o) && NameLen(c, o) == NameLen(b, o) && RecLen(c, o) == Space(NameLen(b, o))
    ensures RecName(c, o) == RecName(b, o) && RecOk(c, o)
  {
    assert RecIno(c, o) == RecIno(b, o) && NameLen(c, o) == NameLen(b, o);
    assert RecLen(c, o) == Le16(m, o + 4);
    assert RecName(c, o) == RecName(b, o);
  }

  /** Whenever the walk finds room, the block gains exactly the new entry. */
  lemma {:induction false} InsertOk(b: Block, o: nat, ino: u32, name: Name, ftype: byte)
    requires o <= BS && Tiles(b, o) && Distinct(b, o) && IsName(name) && ino != 0 && Find(b, o, name) == 0
    ensures var r := Insert(b, o, ino, name, ftype);
            r.Some? ==> Inserted(b, r.value, o, ino, name)
    decreases BS - o
  {
    var r := Insert(b, o, ino, name, ftype);
    if o < BS && r.Some? {
      var len := RecLen(b, o);
      if RecIno(b, o) == 0 && len >= Space(|name|) {
        ReuseInserts(b, o, ino, name, ftype);
      } else if RecIno(b, o) != 0 && len >= Space(NameLen(b, o)) + Space(|name|) {
        SplitInserts(b, o, ino, name, ftype);
      } else {
        FindStep(b, o, name);
        InsertOk(b, o + len, ino, name, ftype);
        InsertedBelow(b, r.value, o, ino, name);
      }
    }
  }

  /** An insertion further down the chain is an insertion into the chain. */
  lemma InsertedBelow(b: Block, c: Block, o: nat, ino: u32, name: Name)
    requires o < BS && Tiles(b, o) && Distinct(b, o) && Find(b, o, name) == 0 && ino != 0
    requires Inserted(b, c, o + RecLen(b, o), ino, name)
    ensures Inserted(b, c, o, ino, name)
  {
    var nx := o + RecLen(b, o);
    assert forall k :: 0 <= k < nx ==> c[k] == c[..nx][k] == b[..nx][k] == b[k];
    SameRecord(b, c, o);
    FindStep(b, o, name);
    assert RecIno(b, o) != 0 ==> RecName(b, o) != name;
    forall n: Name
      ensures Find(c, o, n) == if n == name then ino else Find(b, o, n)
    {
      FindStep(b, o, n);
      FindStep(c, o, n);
    }
    assert c[..o] == b[..o];
  }

  // ---- removal ----

  datatype Removal = Absent | Gone(block: Block, ino: u32)

  /** The test `ext2_unlink` makes on a record. */
  predicate SameName(b: Block, o: nat, n: Name)
    requires o + 8 <= BS
  {
    RecIno(b, o) != 0 && RecName(b, o) == n
  }

  /** The unlink walk once the record at `o` is known not to match: merge the first matching record
      into its predecessor. Returns the new block and the inode the record named. */
  function RemoveAfter(b: Block, o: nat, n: Name): Removal
    requires o < BS && Tiles(b, o)
    decreases BS - o
  {
    var nx := o + RecLen(b, o);
    assert Tiles(b, nx);
    if nx == BS then Absent
    else if SameName(b, nx, n) then Gone(Put16(b, o + 4, RecLen(b, o) + RecLen(b, nx)), RecIno(b, nx))
    else RemoveAfter(b, nx, n)
  }

  /** The unlink walk over one block; a matching first record has its inode zeroed. */
  function Remove(b: Block, n: Name): Removal
    requires Tiles(b, 0)
  {
    if SameName(b, 0, n) then Gone(Put32(b, 0, 0), RecIno(b, 0)) else RemoveAfter(b, 0, n)
  }

  /** The chain lost exactly the entry `name -> ino`. */
  ghost predicate Removed(b: Block, c: Block, o: nat, ino: u32, name: Name)
    requires o <= BS && Tiles(b, o)
  {
    && c[..o] == b[..o]
    && Tiles(c, o) && Distinct(c, o)
    && ino != 0 && Find(b, o, name) == ino && Find(c, o, name) == 0
    && (forall n: Name :: n != name ==> Find(c, o, n) == Find(b, o, n))
  }

  /** Merging the record at `nx` into the one before it. */
  lemma MergeRemoves(b: Block, o: nat, name: Name)
    requires o < BS && Tiles(b, o) && Distinct(b, o) && !SameName(b, o, name)
    requires o + RecLen(b, o) < BS && Tiles(b, o + RecLen(b, o)) && SameName(b, o + RecLen(b, o), name)
    ensures var nx := o + RecLen(b, o);
            Removed(b, Put16(b, o + 4, RecLen(b, o) + RecLen(b, nx)), o, RecIno(b, nx), name)
  {
    hide Find, Distinct, Put16, RecName, RecLen, RecIno, NameLen;
    var nx := o + RecLen(b, o);
    PopRecord(b, o);
    PopRecord(b, nx);
    var c := Put16(b, o + 4, RecLen(b, o) + RecLen(b, nx));
    LengthenRecord(b, o, RecLen(b, nx));
    var nn := nx + RecLen(b, nx);
    assert b[nn..] == c[nn..];
    ChainFrame(b, c, nn);
    PushRecord(c, o);
    assert c[..o] == b[..o];
  }

  lemma LengthenRecord(b: Block, o: nat, more: u16)
    requires o + 8 <= BS && RecOk(b, o) && more % 4 == 0 && o + RecLen(b, o) + more <= BS
    ensures var c := Put16(b, o + 4, RecLen(b, o) + more);
            && RecLen(c, o) == RecLen(b, o) + more && RecIno(c, o) == RecIno(b, o) && NameLen(c, o) == NameLen(b, o)
            && RecName(c, o) == RecName(b, o) && RecOk(c, o)
            && (forall k :: 0 <= k < BS && !(o <= k < o + 8) ==> c[k] == b[k])
  {
    var c := Put16(b, o + 4, RecLen(b, o) + more);
    assert RecIno(c, o) == RecIno(b, o) && NameLen(c, o) == NameLen(b, o);
    assert RecName(c, o) == RecName(b, o);
  }

  /** Zeroing the inode of the first record. */
  lemma ZeroRemoves(b: Block, name: Name)
    requires Tiles(b, 0) && Distinct(b, 0) && SameName(b, 0, name)
    ensures Removed(b, Put32(b, 0, 0), 0, RecIno(b, 0), name)
  {
    PopRecord(b, 0);
    var c := Put32(b, 0, 0);
    var nx := RecLen(b, 0);
    assert RecIno(c, 0) == 0 && RecLen(c, 0) == RecLen(b, 0) && NameLen(c, 0) == NameLen(b, 0);
    assert RecOk(c, 0);
    assert b[nx..] == c[nx..];
    ChainFrame(b, c, nx);
    PushRecord(c, 0);
  }

  lemma {:induction false} RemoveAfterOk(b: Block, o: nat, name: Name)
    requires o < BS && Tiles(b, o) && Distinct(b, o) && !SameName(b, o, name)
    ensures var r := RemoveAfter(b, o, name);
            if r.Gone? then Removed(b, r.block, o, r.ino, name) else Find(b, o, name) == 0
    decreases BS - o
  {
    PopRecord(b, o);
    var nx := o + RecLen(b, o);
    if nx < BS {
      if SameName(b, nx, name) {
        MergeRemoves(b, o, name);
      } else {
        RemoveAfterOk(b, nx, name);
        var r := RemoveAfter(b, nx, name);
        if r.Gone? {
          RemovedBelow(b, r.block, o, r.ino, name);
        }
      }
    }
  }

  lemma RemovedBelow(b: Block, c: Block, o: nat, ino: u32, name: Name)
    requires o < BS && Tiles(b, o) && Distinct(b, o) && !SameName(b, o, name)
    requires Removed(b, c, o + RecLen(b, o), ino, name)
    ensures Removed(b, c, o, ino, name)
  {
    hide Find, Distinct, RecName, RecLen, RecIno, NameLen;
    PopRecord(b, o);
    var nx := o + RecLen(b, o);
    assert forall k :: 0 <= k < nx ==> c[k] == c[..nx][k] == b[..nx][k] == b[k];
    SameRecord(b, c, o);
    PushRecord(c, o);
    assert c[..o] == b[..o];
  }

  /** Unlink finds the entry exactly when lookup does, and removes it and nothing else. */
  lemma RemoveOk(b: Block, name: Name)
    requires Tiles(b, 0) && Distinct(b, 0)
    ensures var r := Remove(b, name);
            if r.Gone? then Removed(b, r.block, 0, r.ino, name) else Find(b, 0, name) == 0
  {
    if SameName(b, 0, name) {
      ZeroRemoves(b, name);
    } else {
      RemoveAfterOk(b, 0, name);
    }
  }

  // ---- the entries of a block ----

  /** The names in use from `o` on. */
  function Names(b: Block, o: nat): set<Name>
    requires o <= BS && Tiles(b, o)
    decreases BS - o
  {
    if o == BS then {}
    else (if RecIno(b, o) != 0 then {RecName(b, o)} else {}) + Names(b, o + RecLen(b, o))
  }

  lemma {:induction false} NamesFind(b: Block, o: nat, n: Name)
    requires o <= BS && Tiles(b, o)
    ensures n in Names(b, o) <==> Find(b, o, n) != 0
    decreases BS - o
  {
    if o < BS {
      FindStep(b, o, n);
      NamesFind(b, o + RecLen(b, o), n);
    }
  }

  /** Number of records in use, as the emptiness test of `ext2_unlink` counts them. */
  function CountUsed(b: Block, o: nat): nat
    requires o <= BS && Tiles(b, o)
    decreases BS - o
  {
    if o == BS then 0 else (if RecIno(b, o) != 0 then 1 else 0) + CountUsed(b, o + RecLen(b, o))
  }

  lemma {:induction false} CountIsNames(b: Block, o: nat)
    requires o <= BS && Tiles(b, o) && Distinct(b, o)
    ensures CountUsed(b, o) == |Names(b, o)|
    decreases BS - o
  {
    if o < BS {
      var nx := o + RecLen(b, o);
      CountIsNames(b, nx);
      NamesFind(b, nx, RecName(b, o));
    }
  }
}
