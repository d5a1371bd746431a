/** The text editor's document: lines with a cursor, and the flat text with an offset it stands for. */
module EditorText {
  const MAX_LINES := 256
  const MAX_LINE_LEN := 160
  const SCREEN_ROWS := 22
  const BUFFER := 40960    // MAX_LINES * MAX_LINE_LEN

  datatype Doc = Doc(lines: seq<string>, row: nat, col: nat)

  /** What may stand in a line. */
  predicate PlainLine(s: string) { |s| < MAX_LINE_LEN && '\n' !in s && '\r' !in s }

  predicate LinesOk(ls: seq<string>) { 1 <= |ls| < MAX_LINES && forall i :: 0 <= i < |ls| ==> PlainLine(ls[i]) }

  predicate Ok(d: Doc) { LinesOk(d.lines) && d.row < |d.lines| && d.col <= |d.lines[d.row]| }

  // ---- the flat text ----

  /** The lines joined by newlines. */
  function Join(ls: seq<string>): string {
    if ls == [] then "" else if |ls| == 1 then ls[0] else ls[0] + "\n" + Join(ls[1..])
  }

  /** Lines each followed (preceded) by a newline. */
  function Before(ls: seq<string>): string { if ls == [] then "" else Before(ls[..|ls| - 1]) + ls[|ls| - 1] + "\n" }
  function After(ls: seq<string>): string { if ls == [] then "" else "\n" + ls[0] + After(ls[1..]) }

  function Flat(d: Doc): string { Join(d.lines) }

  /** The cursor's offset in the flat text. */
  function Offset(d: Doc): (p: nat)
    requires Ok(d)
    ensures p <= |Flat(d)|
  {
    JoinAt(d.lines, d.row);
    |Before(d.lines[..d.row])| + d.col
  }

  lemma {:induction false} JoinFirst(ls: seq<string>)
    requires ls != []
    ensures Join(ls) == ls[0] + After(ls[1..])
    decreases |ls|
  {
    if |ls| > 1 {
      JoinFirst(ls[1..]);
    } else {
      assert ls[1..] == [];
    }
  }

  /** Around any line, the flat text is what comes before, the line, and what comes after. */
  lemma {:induction false} JoinAt(ls: seq<string>, r: nat)
    requires r < |ls|
    ensures Join(ls) == Before(ls[..r]) + ls[r] + After(ls[r + 1..])
    decreases r
  {
    if r == 0 {
      JoinFirst(ls);
    } else {
      JoinAt(ls, r - 1);
      BeforeNext(ls, r - 1);
      AfterNext(ls, r);
      var b, a := Before(ls[..r - 1]), After(ls[r + 1..]);
      assert b + ls[r - 1] + ("\n" + ls[r] + a) == b + ls[r - 1] + "\n" + ls[r] + a;
    }
  }

  lemma BeforeNext(ls: seq<string>, r: nat)
    requires r < |ls|
    ensures Before(ls[..r + 1]) == Before(ls[..r]) + ls[r] + "\n"
  {
    assert ls[..r + 1][..r] == ls[..r];
  }

  lemma AfterNext(ls: seq<string>, r: nat)
    requires r < |ls|
    ensures After(ls[r..]) == "\n" + ls[r] + After(ls[r + 1..])
  {
    assert ls[r..][1..] == ls[r + 1..];
  }

  /** The flat text split at the cursor. */
  function LeftOf(d: Doc): string
    requires Ok(d)
  {
    Before(d.lines[..d.row]) + d.lines[d.row][..d.col]
  }

  function RightOf(d: Doc): string
    requires Ok(d)
  {
    d.lines[d.row][d.col..] + After(d.lines[d.row + 1..])
  }

  lemma SplitFlat(d: Doc)
    requires Ok(d)
    ensures Flat(d) == LeftOf(d) + RightOf(d) && |LeftOf(d)| == Offset(d)
  {
    JoinAt(d.lines, d.row);
    var l := d.lines[d.row];
    assert l == l[..d.col] + l[d.col..];
    assert Flat(d) == LeftOf(d) + RightOf(d);
  }

  // ---- editing ----

  /** Replace `n` lines from `r` on. */
  function Put(ls: seq<string>, r: nat, n: nat, mid: seq<string>): seq<string>
    requires r + n <= |ls|
  {
    ls[..r] + mid + ls[r + n..]
  }

  function InsertChar(d: Doc, c: char): Doc
    requires Ok(d)
  {
    var l := d.lines[d.row];
    if |l| >= MAX_LINE_LEN - 1 then d
    else d.(lines := Put(d.lines, d.row, 1, [l[..d.col] + [c] + l[d.col..]]), col := d.col + 1)
  }

  function InsertNewline(d: Doc): Doc
    requires Ok(d)
  {
    var l := d.lines[d.row];
    if |d.lines| >= MAX_LINES - 1 then d
    else Doc(Put(d.lines, d.row, 1, [l[..d.col], l[d.col..]]), d.row + 1, 0)
  }

  function DeleteBackward(d: Doc): Doc
    requires Ok(d)
  {
    var l := d.lines[d.row];
    if d.col > 0 then d.(lines := Put(d.lines, d.row, 1, [l[..d.col - 1] + l[d.col..]]), col := d.col - 1)
    else if d.row > 0 && |d.lines[d.row - 1]| + |l| < MAX_LINE_LEN - 1 then
      var p := d.lines[d.row - 1];
      Doc(Put(d.lines, d.row - 1, 2, [p + l]), d.row - 1, |p|)
    else d
  }

  function DeleteForward(d: Doc): Doc
    requires Ok(d)
  {
    var l := d.lines[d.row];
    if d.col < |l| then d.(lines := Put(d.lines, d.row, 1, [l[..d.col] + l[d.col + 1..]]))
    else if d.row + 1 < |d.lines| && |l| + |d.lines[d.row + 1]| < MAX_LINE_LEN - 1 then
      d.(lines := Put(d.lines, d.row, 2, [l + d.lines[d.row + 1]]))
    else d
  }

  /** Ctrl+K. */
  function KillLine(d: Doc): Doc
    requires Ok(d)
  {
    d.(lines := Put(d.lines, d.row, 1, [d.lines[d.row][..d.col]]))
  }

  // ---- moving ----

  function ToRow(d: Doc, r: nat): Doc
    requires r < |d.lines|
  {
    d.(row := r, col := if d.col > |d.lines[r]| then |d.lines[r]| else d.col)
  }

  datatype Key =
    | Type(c: char) | Enter | Backspace | Delete | Kill | Tab
    | Up | Down | Left | Right | Home | End | PageUp | PageDown

  predicate Typable(k: Key) { k.Type? ==> ' ' <= k.c <= '~' }

  /** The document after one key. */
  function Press(d: Doc, k: Key): Doc
    requires Ok(d) && Typable(k)
  {
    match k
    case Type(c) => InsertChar(d, c)
    case Enter => InsertNewline(d)
    case Backspace => DeleteBackward(d)
    case Delete => DeleteForward(d)
    case Kill => KillLine(d)
    case Tab => Spaces(d, 4)
    case Up => if d.row > 0 then ToRow(d, d.row - 1) else d
    case Down => if d.row + 1 < |d.lines| then ToRow(d, d.row + 1) else d
    case Left =>
      if d.col > 0 then d.(col := d.col - 1)
      else if d.row > 0 then d.(row := d.row - 1, col := |d.lines[d.row - 1]|)
      else d
    case Right =>
      if d.col < |d.lines[d.row]| then d.(col := d.col + 1)
      else if d.row + 1 < |d.lines| then d.(row := d.row + 1, col := 0)
      else d
    case Home => d.(col := 0)
    case End => d.(col := |d.lines[d.row]|)
    case PageUp => ToRow(d, if d.row < SCREEN_ROWS then 0 else d.row - SCREEN_ROWS)
    case PageDown => ToRow(d, if d.row + SCREEN_ROWS >= |d.lines| then |d.lines| - 1 else d.row + SCREEN_ROWS)
  }

  function Spaces(d: Doc, n: nat): Doc
    requires Ok(d)
    decreases n
  {
    if n == 0 then d else InsertCharOk(d, ' '); Spaces(InsertChar(d, ' '), n - 1)
  }

  lemma PutOk(ls: seq<string>, r: nat, n: nat, mid: seq<string>)
    requires LinesOk(ls) && r + n <= |ls| && mid != [] && |ls| - n + |mid| < MAX_LINES
    requires forall i :: 0 <= i < |mid| ==> PlainLine(mid[i])
    ensures LinesOk(Put(ls, r, n, mid)) && |Put(ls, r, n, mid)| == |ls| - n + |mid|
    ensures forall i :: 0 <= i < |mid| ==> Put(ls, r, n, mid)[r + i] == mid[i]
    ensures Put(ls, r, n, mid)[..r] == ls[..r] && Put(ls, r, n, mid)[r + |mid|..] == ls[r + n..]
  {
    hide PlainLine;
  }

  lemma InsertCharOk(d: Doc, c: char)
    requires Ok(d) && c != '\n' && c != '\r'
    ensures Ok(InsertChar(d, c))
    ensures var l := d.lines[d.row]; var e := InsertChar(d, c);
            if |l| >= MAX_LINE_LEN - 1 then e == d
            else Flat(e) == Flat(d)[..Offset(d)] + [c] + Flat(d)[Offset(d)..] && Offset(e) == Offset(d) + 1
  {
    hide Before, After, Join;
    var l := d.lines[d.row];
    if |l| < MAX_LINE_LEN - 1 {
      PutOk(d.lines, d.row, 1, [l[..d.col] + [c] + l[d.col..]]);
      var e := InsertChar(d, c);
      SplitFlat(d);
      SplitFlat(e);
      assert LeftOf(e) == LeftOf(d) + [c];
      assert RightOf(e) == RightOf(d);
    }
  }

  lemma InsertNewlineOk(d: Doc)
    requires Ok(d)
    ensures Ok(InsertNewline(d))
    ensures var e := InsertNewline(d);
            if |d.lines| >= MAX_LINES - 1 then e == d
            else Flat(e) == Flat(d)[..Offset(d)] + "\n" + Flat(d)[Offset(d)..] && Offset(e) == Offset(d) + 1
  {
    hide Before, After, Join;
    var l := d.lines[d.row];
    if |d.lines| < MAX_LINES - 1 {
      PutOk(d.lines, d.row, 1, [l[..d.col], l[d.col..]]);
      var e := InsertNewline(d);
      SplitFlat(d);
      SplitFlat(e);
      BeforeNext(e.lines, d.row);
      assert e.lines[d.row] == l[..d.col] && e.lines[d.row + 1] == l[d.col..];
      assert LeftOf(e) == LeftOf(d) + "\n";
      assert RightOf(e) == RightOf(d);
    }
  }

  /** Backspace removes the character before the cursor; it does nothing at the start of the text and where
      joining two lines would not fit. */
  lemma DeleteBackwardOk(d: Doc)
    requires Ok(d)
    ensures Ok(DeleteBackward(d))
    ensures var e := DeleteBackward(d); var p := Offset(d);
            if d.col > 0 || (d.row > 0 && |d.lines[d.row - 1]| + |d.lines[d.row]| < MAX_LINE_LEN - 1)
            then p > 0 && Flat(e) == Flat(d)[..p - 1] + Flat(d)[p..] && Offset(e) == p - 1
            else e == d
  {
    hide Before, After, Join;
    var l := d.lines[d.row];
    if d.col > 0 {
      PutOk(d.lines, d.row, 1, [l[..d.col - 1] + l[d.col..]]);
      var e := DeleteBackward(d);
      SplitFlat(d);
      SplitFlat(e);
      assert LeftOf(d) == LeftOf(e) + [l[d.col - 1]];
      assert RightOf(e) == RightOf(d);
    } else if d.row > 0 && |d.lines[d.row - 1]| + |l| < MAX_LINE_LEN - 1 {
      var p := d.lines[d.row - 1];
      PutOk(d.lines, d.row - 1, 2, [p + l]);
      var e := DeleteBackward(d);
      SplitFlat(d);
      SplitFlat(e);
      BeforeNext(d.lines, d.row - 1);
      assert LeftOf(d) == LeftOf(e) + "\n";
      assert RightOf(e) == RightOf(d);
    }
  }

  /** Delete removes the character at the cursor; it does nothing at the end of the text and where joining
      two lines would not fit. */
  lemma DeleteForwardOk(d: Doc)
    requires Ok(d)
    ensures Ok(DeleteForward(d))
    ensures var e := DeleteForward(d); var p := Offset(d);
            if d.col < |d.lines[d.row]|
               || (d.row + 1 < |d.lines| && |d.lines[d.row]| + |d.lines[d.row + 1]| < MAX_LINE_LEN - 1)
            then p < |Flat(d)| && Flat(e) == Flat(d)[..p] + Flat(d)[p + 1..] && Offset(e) == p
            else e == d
  {
    hide Before, After, Join, DeleteForward;
    var l := d.lines[d.row];
    if d.col < |l| {
      DeleteHere(d);
    } else if d.row + 1 < |d.lines| && |l| + |d.lines[d.row + 1]| < MAX_LINE_LEN - 1 {
      JoinNext(d);
    } else {
      NothingToDelete(d);
    }
  }

  lemma NothingToDelete(d: Doc)
    requires Ok(d) && d.col == |d.lines[d.row]|
    requires d.row + 1 < |d.lines| ==> |d.lines[d.row]| + |d.lines[d.row + 1]| >= MAX_LINE_LEN - 1
    ensures DeleteForward(d) == d
  {
  }

  lemma DeleteHere(d: Doc)
    requires Ok(d) && d.col < |d.lines[d.row]|
    ensures var e := DeleteForward(d); var p := Offset(d);
            Ok(e) && p < |Flat(d)| && Flat(e) == Flat(d)[..p] + Flat(d)[p + 1..] && Offset(e) == p
  {
    hide Before, After, Join;
    var l := d.lines[d.row];
    PutOk(d.lines, d.row, 1, [l[..d.col] + l[d.col + 1..]]);
    var e := DeleteForward(d);
    SplitFlat(d);
    SplitFlat(e);
    assert RightOf(d) == [l[d.col]] + RightOf(e);
    assert LeftOf(e) == LeftOf(d);
  }

  lemma JoinNext(d: Doc)
    requires Ok(d) && d.col == |d.lines[d.row]|
    requires d.row + 1 < |d.lines| && |d.lines[d.row]| + |d.lines[d.row + 1]| < MAX_LINE_LEN - 1
    ensures var e := DeleteForward(d); var p := Offset(d);
            Ok(e) && p < |Flat(d)| && Flat(e) == Flat(d)[..p] + Flat(d)[p + 1..] && Offset(e) == p
  {
    hide Before, After, Join;
    var l := d.lines[d.row];
    PutOk(d.lines, d.row, 2, [l + d.lines[d.row + 1]]);
    var e := DeleteForward(d);
    SplitFlat(d);
    SplitFlat(e);
    AfterNext(d.lines, d.row + 1);
    assert RightOf(d) == "\n" + RightOf(e);
    assert LeftOf(e) == LeftOf(d);
  }

  /** Ctrl+K removes everything up to the next newline. */
  lemma KillLineOk(d: Doc)
    requires Ok(d)
    ensures Ok(KillLine(d))
    ensures var e := KillLine(d); var n := |d.lines[d.row]| - d.col;
            && Offset(d) + n <= |Flat(d)| && Flat(e) == Flat(d)[..Offset(d)] + Flat(d)[Offset(d) + n..]
            && Offset(e) == Offset(d)
            && '\n' !in Flat(d)[Offset(d)..Offset(d) + n]
            && (Offset(d) + n < |Flat(d)| ==> Flat(d)[Offset(d) + n] == '\n')
  {
    hide Before, Join;
    var l := d.lines[d.row];
    PutOk(d.lines, d.row, 1, [l[..d.col]]);
    var e := KillLine(d);
    SplitFlat(d);
    SplitFlat(e);
    var n := |l| - d.col;
    assert RightOf(d) == l[d.col..] + RightOf(e);
    assert LeftOf(e) == LeftOf(d);
    assert Flat(d)[Offset(d)..Offset(d) + n] == l[d.col..];
    assert RightOf(e) == After(d.lines[d.row + 1..]);
  }

  /** Left and Right move the offset by one and stop at the ends of the text. */
  lemma SidewaysOk(d: Doc)
    requires Ok(d)
    ensures Ok(Press(d, Left)) && Ok(Press(d, Right))
    ensures Offset(Press(d, Left)) == if Offset(d) > 0 then Offset(d) - 1 else 0
    ensures Offset(Press(d, Right)) == if Offset(d) < |Flat(d)| then Offset(d) + 1 else |Flat(d)|
  {
    hide Before, After, Join;
    SplitFlat(d);
    if d.row > 0 {
      BeforeNext(d.lines, d.row - 1);
    } else {
      assert d.lines[..d.row] == [];
      NoneBefore();
    }
    if d.row + 1 < |d.lines| {
      BeforeNext(d.lines, d.row);
      AfterNext(d.lines, d.row + 1);
    } else {
      assert d.lines[d.row + 1..] == [];
      NoneBefore();
    }
  }

  lemma NoneBefore()
    ensures Before([]) == "" && After([]) == ""
  {
  }

  // ---- keys ----

  predicate Moves(k: Key) {
    k.Up? || k.Down? || k.Left? || k.Right? || k.Home? || k.End? || k.PageUp? || k.PageDown?
  }

  function Blanks(n: nat): string { seq(n, _ => ' ') }

  /** Typing `n` blanks inserts as many as the line has room for. */
  lemma {:induction false} SpacesOk(d: Doc, n: nat)
    requires Ok(d)
    ensures Ok(Spaces(d, n))
    ensures var e := Spaces(d, n); var m := BlanksFit(d, n);
            Flat(e) == Flat(d)[..Offset(d)] + Blanks(m) + Flat(d)[Offset(d)..] && Offset(e) == Offset(d) + m
    decreases n
  {
    hide Join, Before, After, PlainLine;
    if n == 0 || |d.lines[d.row]| >= MAX_LINE_LEN - 1 {
      assert Flat(d) == Flat(d)[..Offset(d)] + Blanks(0) + Flat(d)[Offset(d)..];
      if n > 0 {
        InsertCharOk(d, ' ');
        SpacesOk(d, n - 1);
      }
    } else {
      InsertCharOk(d, ' ');
      var e := InsertChar(d, ' ');
      OneLonger(d);
      SpacesOk(e, n - 1);
      var m := BlanksFit(e, n - 1);
      var p := Offset(d);
      assert Flat(e)[..p + 1] == Flat(d)[..p] + [' '] && Flat(e)[p + 1..] == Flat(d)[p..];
      assert [' '] + Blanks(m) == Blanks(m + 1);
      assert Flat(d)[..p] + [' '] + Blanks(m) + Flat(d)[p..] == Flat(d)[..p] + ([' '] + Blanks(m)) + Flat(d)[p..];
    }
  }

  function BlanksFit(d: Doc, n: nat): nat
    requires Ok(d)
  {
    var room := MAX_LINE_LEN - 1 - |d.lines[d.row]|;
    if n < room then n else room
  }

  lemma OneLonger(d: Doc)
    requires Ok(d) && |d.lines[d.row]| < MAX_LINE_LEN - 1
    ensures var e := InsertChar(d, ' '); e.row < |e.lines| && |e.lines[e.row]| == |d.lines[d.row]| + 1
  {
    hide PlainLine;
  }

  lemma FourSpaces(d: Doc)
    requires Ok(d)
    ensures Ok(InsertChar(d, ' ')) && Ok(InsertChar(InsertChar(d, ' '), ' '))
    ensures var e := InsertChar(InsertChar(d, ' '), ' ');
            Ok(InsertChar(e, ' ')) && Spaces(d, 4) == InsertChar(InsertChar(e, ' '), ' ')
  {
    hide InsertChar;
    InsertCharOk(d, ' ');
    var d1 := InsertChar(d, ' ');
    InsertCharOk(d1, ' ');
    var d2 := InsertChar(d1, ' ');
    InsertCharOk(d2, ' ');
    var d3 := InsertChar(d2, ' ');
    InsertCharOk(d3, ' ');
    var d4 := InsertChar(d3, ' ');
    assert Spaces(d4, 0) == d4;
    assert Spaces(d3, 1) == d4;
    assert Spaces(d2, 2) == d4;
    assert Spaces(d1, 3) == d4;
  }

  /** Tab inserts four blanks, or as many as the line has room for. */
  lemma TabOk(d: Doc)
    requires Ok(d)
    ensures Ok(Press(d, Tab))
    ensures var e := Press(d, Tab); var m := BlanksFit(d, 4);
            Flat(e) == Flat(d)[..Offset(d)] + Blanks(m) + Flat(d)[Offset(d)..] && Offset(e) == Offset(d) + m
  {
    SpacesOk(d, 4);
  }

  // ---- where the cursor goes ----

  function Newlines(s: string): nat {
    if s == "" then 0 else (if s[|s| - 1] == '\n' then 1 else 0) + Newlines(s[..|s| - 1])
  }

  lemma {:induction false} NewlinesAdd(s: string, t: string)
    ensures Newlines(s + t) == Newlines(s) + Newlines(t)
    decreases |t|
  {
    if t == "" {
      assert s + t == s;
    } else {
      assert (s + t)[..|s + t| - 1] == s + t[..|t| - 1];
      NewlinesAdd(s, t[..|t| - 1]);
    }
  }

  lemma {:induction false} NoNewlines(s: string)
    requires '\n' !in s
    ensures Newlines(s) == 0
    decreases |s|
  {
    if s != "" {
      NoNewlines(s[..|s| - 1]);
    }
  }

  lemma {:induction false} BeforeCount(ls: seq<string>)
    requires forall i :: 0 <= i < |ls| ==> '\n' !in ls[i]
    ensures Newlines(Before(ls)) == |ls|
    decreases |ls|
  {
    if ls != [] {
      var n := |ls| - 1;
      BeforeCount(ls[..n]);
      NewlinesAdd(Before(ls[..n]), ls[n]);
      NoNewlines(ls[n]);
      NewlinesAdd(Before(ls[..n]) + ls[n], "\n");
      assert "\n"[..0] == "";
    }
  }

  /** The offset determines the cursor: its row is the number of newlines before it, its column the distance to the
      last of them. */
  lemma CursorIs(d: Doc)
    requires Ok(d)
    ensures Newlines(Flat(d)[..Offset(d)]) == d.row
    ensures d.col <= Offset(d) && '\n' !in Flat(d)[Offset(d) - d.col..Offset(d)]
    ensures d.col < Offset(d) ==> Flat(d)[Offset(d) - d.col - 1] == '\n'
  {
    hide Join, After;
    SplitFlat(d);
    var b, l := Before(d.lines[..d.row]), d.lines[d.row];
    BeforeCount(d.lines[..d.row]);
    NewlinesAdd(b, l[..d.col]);
    NoNewlines(l[..d.col]);
    assert Flat(d)[..Offset(d)] == LeftOf(d);
    assert Flat(d)[Offset(d) - d.col..Offset(d)] == l[..d.col];
    if d.row > 0 {
      BeforeNext(d.lines, d.row - 1);
      assert b[|b| - 1] == '\n';
    }
  }

  /** Home goes back to the start of the line, End forward to its end; neither crosses a newline. */
  lemma HomeEndOk(d: Doc)
    requires Ok(d)
    ensures Ok(Press(d, Home)) && Ok(Press(d, End))
    ensures var p := Offset(Press(d, Home));
            p <= Offset(d) && '\n' !in Flat(d)[p..Offset(d)] && (p > 0 ==> Flat(d)[p - 1] == '\n')
    ensures var p := Offset(Press(d, End));
            Offset(d) <= p && '\n' !in Flat(d)[Offset(d)..p] && (p < |Flat(d)| ==> Flat(d)[p] == '\n')
  {
    hide Join, Before;
    CursorIs(d);
    KillLineOk(d);
  }

  /** The row a vertical key asks for, within the text. */
  function TargetRow(d: Doc, k: Key): int
    requires d.lines != [] && (k.Up? || k.Down? || k.PageUp? || k.PageDown?)
  {
    var want := if k.Up? then d.row - 1 else if k.Down? then d.row + 1
                else if k.PageUp? then d.row - SCREEN_ROWS else d.row + SCREEN_ROWS;
    if want < 0 then 0 else if want >= |d.lines| then |d.lines| - 1 else want
  }

  /** A vertical key moves that many newlines up or down, as far as there are any, and keeps the column unless the line
      it reaches is shorter; at the first or last line Up and Down do nothing. */
  lemma VerticalOk(d: Doc, k: Key)
    requires Ok(d) && (k.Up? || k.Down? || k.PageUp? || k.PageDown?)
    ensures Ok(Press(d, k)) && Flat(Press(d, k)) == Flat(d)
    ensures var e := Press(d, k);
            && Newlines(Flat(d)[..Offset(e)]) == TargetRow(d, k)
            && e.col <= d.col && (e.col < d.col ==> Offset(e) < |Flat(d)| ==> Flat(d)[Offset(e)] == '\n')
            && (e.row == d.row ==> e == d)
  {
    hide Join, Before;
    var e := Press(d, k);
    CursorIs(e);
    if e.col < d.col {
      KillLineOk(e);
    }
  }

  /** Every key keeps the bounds, and a cursor key leaves the text alone. */
  lemma PressOk(d: Doc, k: Key)
    requires Ok(d) && Typable(k)
    ensures Ok(Press(d, k))
    ensures Moves(k) ==> Flat(Press(d, k)) == Flat(d)
  {
    hide InsertChar, InsertNewline, DeleteBackward, DeleteForward, KillLine, Spaces;
    match k
    case Type(c) => InsertCharOk(d, c);
    case Enter => InsertNewlineOk(d);
    case Backspace => DeleteBackwardOk(d);
    case Delete => DeleteForwardOk(d);
    case Kill => KillLineOk(d);
    case Tab => SpacesOk(d, 4);
    case _ =>
  }

  function Keys(d: Doc, ks: seq<Key>): Doc
    requires Ok(d) && forall i :: 0 <= i < |ks| ==> Typable(ks[i])
    decreases |ks|
  {
    if ks == [] then d else PressOk(d, ks[0]); Keys(Press(d, ks[0]), ks[1..])
  }

  /** Over any editing session the document stays within its bounds: at most 255 lines of at most 159
      characters, the cursor on one of them. */
  lemma {:induction false} SessionOk(d: Doc, ks: seq<Key>)
    requires Ok(d) && forall i :: 0 <= i < |ks| ==> Typable(ks[i])
    ensures Ok(Keys(d, ks))
    decreases |ks|
  {
    hide Press;
    if ks != [] {
      PressOk(d, ks[0]);
      SessionOk(Press(d, ks[0]), ks[1..]);
    }
  }
}
