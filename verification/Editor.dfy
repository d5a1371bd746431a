/** The editor's line table and its in-place operations. */
module Editor {
  import opened EditorText
  import opened EditorFile

  const NUL := '\0'

  class Editor {
    const grid: array2<char>
    const lens: array<int>
    var numLines: int
    var curLine: int
    var curCol: int
    ghost var doc: Doc

    ghost predicate Sized() { grid.Length0 == MAX_LINES && grid.Length1 == MAX_LINE_LEN && lens.Length == MAX_LINES }

    /** Row `i` holds the line `s`. */
    ghost predicate RowIs(i: int, s: string)
      requires Sized()
      reads grid, lens
    {
      0 <= i < MAX_LINES && |s| < MAX_LINE_LEN && lens[i] == |s| && forall j :: 0 <= j < |s| ==> grid[i, j] == s[j]
    }

    ghost predicate Rows(ls: seq<string>)
      requires Sized()
      reads grid, lens
    {
      forall i :: 0 <= i < |ls| ==> RowIs(i, ls[i])
    }

    ghost predicate Valid()
      reads this, grid, lens
    {
      && Sized() && Ok(doc) && Rows(doc.lines)
      && numLines == |doc.lines| && curLine == doc.row && curCol == doc.col
    }

    /** An empty document. */
    constructor ()
      ensures Valid() && doc == Doc([""], 0, 0)
    {
      grid := new char[MAX_LINES, MAX_LINE_LEN]((_, _) => NUL);
      lens := new int[MAX_LINES](_ => 0);
      numLines, curLine, curCol := 1, 0, 0;
      doc := Doc([""], 0, 0);
    }

    /** Make room at column `at` of a row. */
    method OpenGap(r: int, at: nat, ghost s: string)
      requires Sized() && RowIs(r, s) && at <= |s| < MAX_LINE_LEN - 1
      modifies grid
      ensures forall j :: 0 <= j < at ==> grid[r, j] == s[j]
      ensures forall j :: at < j <= |s| ==> grid[r, j] == s[j - 1]
      ensures forall i, j :: 0 <= i < MAX_LINES && 0 <= j < MAX_LINE_LEN && i != r ==> grid[i, j] == old(grid[i, j])
    {
      var i := lens[r];
      while i > at
        invariant at <= i <= |s|
        invariant forall j :: 0 <= j < i ==> grid[r, j] == s[j]
        invariant forall j :: i < j <= |s| ==> grid[r, j] == s[j - 1]
        invariant forall k, j :: 0 <= k < MAX_LINES && 0 <= j < MAX_LINE_LEN && k != r ==> grid[k, j] == old(grid[k, j])
      {
        grid[r, i] := grid[r, i - 1];
        i := i - 1;
      }
    }

    /** `insert_char`. */
    method InsertChar(c: char)
      requires Valid() && c != '\n' && c != '\r'
      modifies this, grid, lens
      ensures Valid() && doc == EditorText.InsertChar(old(doc), c)
    {
      hide PlainLine, Put, Join, Offset;
      var r := curLine;
      ghost var s := doc.lines[r];
      InsertCharOk(doc, c);
      if lens[r] >= MAX_LINE_LEN - 1 {
        return;
      }
      OpenGap(r, curCol, s);
      grid[r, curCol] := c;
      lens[r] := lens[r] + 1;
      grid[r, lens[r]] := NUL;
      assert RowIs(r, s[..curCol] + [c] + s[curCol..]);
      PutOne(doc.lines, r, s[..curCol] + [c] + s[curCol..]);
      curCol := curCol + 1;
      doc := EditorText.InsertChar(doc, c);
      assert forall i :: 0 <= i < |doc.lines| && i != r ==> RowIs(i, doc.lines[i]);
    }

    /** Close the gap at column `at`: the rest of the row moves left. */
    method CloseGap(r: int, at: nat, ghost s: string)
      requires Sized() && RowIs(r, s) && at < |s|
      modifies grid, lens
      ensures RowIs(r, s[..at] + s[at + 1..])
      ensures forall k, j :: 0 <= k < MAX_LINES && 0 <= j < MAX_LINE_LEN && k != r ==> grid[k, j] == old(grid[k, j])
      ensures forall k :: 0 <= k < MAX_LINES && k != r ==> lens[k] == old(lens[k])
    {
      var i := at;
      while i < lens[r]
        invariant at <= i <= |s| && lens[r] == |s|
        invariant forall k :: 0 <= k < MAX_LINES ==> lens[k] == old(lens[k])
        invariant forall j :: 0 <= j < at ==> grid[r, j] == s[j]
        invariant forall j :: at <= j < i && j + 1 < |s| ==> grid[r, j] == s[j + 1]
        invariant forall j :: i <= j < |s| ==> grid[r, j] == s[j]
        invariant forall k, j :: 0 <= k < MAX_LINES && 0 <= j < MAX_LINE_LEN && k != r ==> grid[k, j] == old(grid[k, j])
      {
        grid[r, i] := grid[r, i + 1];
        i := i + 1;
      }
      lens[r] := lens[r] - 1;
    }

    /** Copy one row over another, terminator included. */
    method CopyRow(dst: int, src: int, ghost s: string)
      requires Sized() && RowIs(src, s) && 0 <= dst < MAX_LINES && dst != src
      modifies grid, lens
      ensures RowIs(dst, s)
      ensures forall k, j :: 0 <= k < MAX_LINES && 0 <= j < MAX_LINE_LEN && k != dst ==> grid[k, j] == old(grid[k, j])
      ensures forall k :: 0 <= k < MAX_LINES && k != dst ==> lens[k] == old(lens[k])
    {
      var j := 0;
      while j <= lens[src]
        invariant 0 <= j <= |s| + 1
        invariant forall k :: 0 <= k < MAX_LINES ==> lens[k] == old(lens[k])
        invariant forall x :: 0 <= x < j && x < |s| ==> grid[dst, x] == s[x]
        invariant forall k, x :: 0 <= k < MAX_LINES && 0 <= x < MAX_LINE_LEN && k != dst ==>
                  grid[k, x] == old(grid[k, x])
      {
        grid[dst, j] := grid[src, j];
        j := j + 1;
      }
      lens[dst] := lens[src];
    }

    /** Append one row to another. */
    method AppendRow(dst: int, src: int, ghost a: string, ghost b: string)
      requires Sized() && RowIs(dst, a) && RowIs(src, b) && dst != src && |a| + |b| < MAX_LINE_LEN - 1
      modifies grid, lens
      ensures RowIs(dst, a + b)
      ensures forall k, j :: 0 <= k < MAX_LINES && 0 <= j < MAX_LINE_LEN && k != dst ==> grid[k, j] == old(grid[k, j])
      ensures forall k :: 0 <= k < MAX_LINES && k != dst ==> lens[k] == old(lens[k])
    {
      var plen, clen := lens[dst], lens[src];
      var i := 0;
      while i < clen
        invariant 0 <= i <= clen
        invariant forall k :: 0 <= k < MAX_LINES ==> lens[k] == old(lens[k])
        invariant forall x :: 0 <= x < |a| ==> grid[dst, x] == a[x]
        invariant forall x :: |a| <= x < |a| + i ==> grid[dst, x] == b[x - |a|]
        invariant forall k, x :: 0 <= k < MAX_LINES && 0 <= x < MAX_LINE_LEN && k != dst ==>
                  grid[k, x] == old(grid[k, x])
      {
        grid[dst, plen + i] := grid[src, i];
        i := i + 1;
      }
      grid[dst, plen + clen] := NUL;
      lens[dst] := plen + clen;
    }

    /** Move the rows from `from` on down by one, last line first; `ns` is the list meant. */
    method ShiftDown(from: int, ghost ls: seq<string>, ghost ns: seq<string>)
      requires Sized() && Rows(ls) && numLines == |ls| < MAX_LINES - 1 && 0 < from <= |ls|
      requires |ns| == |ls| + 1 && forall k :: from < k < |ns| ==> ns[k] == ls[k - 1]
      modifies grid, lens
      ensures forall k :: 0 <= k < from ==> RowIs(k, ls[k])
      ensures forall k :: from < k < |ns| ==> RowIs(k, ns[k])
    {
      var i := numLines;
      while i > from
        invariant from <= i <= |ls|
        invariant forall k :: 0 <= k < i ==> RowIs(k, ls[k])
        invariant forall k :: i < k < |ns| ==> RowIs(k, ns[k])
      {
        CopyRow(i, i - 1, ls[i - 1]);
        assert ns[i] == ls[i - 1];
        i := i - 1;
      }
    }

    /** Move the rows after `from` up by one; `ns` is the list meant. */
    method ShiftUp(from: int, ghost ls: seq<string>, ghost ns: seq<string>)
      requires Sized() && numLines == |ls| < MAX_LINES && 0 < from < |ls|
      requires forall k :: 0 <= k < |ls| && k != from ==> RowIs(k, ls[k])
      requires |ns| == |ls| - 1 && forall k :: from <= k < |ns| ==> ns[k] == ls[k + 1]
      modifies grid, lens
      ensures forall k :: 0 <= k < from ==> RowIs(k, ls[k])
      ensures forall k :: from <= k < |ns| ==> RowIs(k, ns[k])
    {
      var i := from;
      while i < numLines - 1
        invariant from <= i <= |ls| - 1
        invariant forall k :: 0 <= k < from ==> RowIs(k, ls[k])
        invariant forall k :: from <= k < i ==> RowIs(k, ns[k])
        invariant forall k :: i < k < |ls| ==> RowIs(k, ls[k])
      {
        CopyRow(i, i + 1, ls[i + 1]);
        assert ns[i] == ls[i + 1];
        i := i + 1;
      }
    }

    /** Copy the tail of row `r` from column `split` on into the row below, then cut row `r` there. */
    method SplitRow(r: int, split: nat, ghost s: string)
      requires Sized() && RowIs(r, s) && r + 1 < MAX_LINES && split <= |s|
      modifies grid, lens
      ensures RowIs(r, s[..split]) && RowIs(r + 1, s[split..])
      ensures forall k, j :: 0 <= k < MAX_LINES && 0 <= j < MAX_LINE_LEN && k != r && k != r + 1 ==>
              grid[k, j] == old(grid[k, j])
      ensures forall k :: 0 <= k < MAX_LINES && k != r && k != r + 1 ==> lens[k] == old(lens[k])
    {
      var newLen := lens[r] - split;
      var i := 0;
      while i < newLen
        invariant 0 <= i <= newLen
        invariant forall k :: 0 <= k < MAX_LINES ==> lens[k] == old(lens[k])
        invariant forall x :: 0 <= x < i ==> grid[r + 1, x] == s[split..][x]
        invariant forall k, x :: 0 <= k < MAX_LINES && 0 <= x < MAX_LINE_LEN && k != r + 1 ==>
                  grid[k, x] == old(grid[k, x])
      {
        grid[r + 1, i] := grid[r, split + i];
        i := i + 1;
      }
      grid[r + 1, newLen] := NUL;
      lens[r + 1] := newLen;
      grid[r, split] := NUL;
      lens[r] := split;
    }

    /** `insert_newline`. */
    method InsertNewline()
      requires Valid()
      modifies this, grid, lens
      ensures Valid() && doc == EditorText.InsertNewline(old(doc))
    {
      hide PlainLine, Put;
      ghost var d, r := doc, curLine;
      InsertNewlineOk(d);
      if numLines >= MAX_LINES - 1 {
        return;
      }
      ghost var s := d.lines[r];
      ghost var e := EditorText.InsertNewline(d);
      PutTwo(d.lines, r, s[..curCol], s[curCol..]);
      ShiftDown(curLine + 1, d.lines, e.lines);
      SplitRow(curLine, curCol, s);
      numLines := numLines + 1;
      curLine := curLine + 1;
      curCol := 0;
      doc := e;
      assert forall i :: 0 <= i < |e.lines| && i != r && i != r + 1 ==> RowIs(i, e.lines[i]);
    }

    /** Join row `r` with the one below and close up the rows after it. */
    method JoinRows(r: nat)
      requires Valid() && r + 1 < |doc.lines| && |doc.lines[r]| + |doc.lines[r + 1]| < MAX_LINE_LEN - 1
      modifies grid, lens
      ensures Rows(Put(doc.lines, r, 2, [doc.lines[r] + doc.lines[r + 1]]))
    {
      hide PlainLine, Put;
      ghost var ls := doc.lines;
      ghost var ns := Put(ls, r, 2, [ls[r] + ls[r + 1]]);
      PutJoined(ls, r, ls[r] + ls[r + 1]);
      AppendRow(r, r + 1, ls[r], ls[r + 1]);
      ghost var mid := ls[r := ls[r] + ls[r + 1]];
      ShiftUp(r + 1, mid, ns);
      assert forall k :: 0 <= k <= r ==> ns[k] == mid[k];
    }

    /** `delete_backward`. */
    method DeleteBackward()
      requires Valid()
      modifies this, grid, lens
      ensures Valid() && doc == EditorText.DeleteBackward(old(doc))
    {
      hide PlainLine;
      ghost var d := doc;
      DeleteBackwardOk(d);
      ghost var s := d.lines[curLine];
      if curCol > 0 {
        CloseGap(curLine, curCol - 1, s);
        curCol := curCol - 1;
        doc := EditorText.DeleteBackward(d);
        PutOne(d.lines, d.row, s[..d.col - 1] + s[d.col..]);
        assert forall i :: 0 <= i < |d.lines| && i != d.row ==> RowIs(i, d.lines[i]);
      } else if curLine > 0 && lens[curLine - 1] + lens[curLine] < MAX_LINE_LEN - 1 {
        var plen := lens[curLine - 1];
        JoinRows(curLine - 1);
        numLines := numLines - 1;
        curLine := curLine - 1;
        curCol := plen;
        doc := EditorText.DeleteBackward(d);
      }
    }

    /** `delete_forward`. */
    method DeleteForward()
      requires Valid()
      modifies this, grid, lens
      ensures Valid() && doc == EditorText.DeleteForward(old(doc))
    {
      hide PlainLine;
      ghost var d := doc;
      DeleteForwardOk(d);
      ghost var s := d.lines[curLine];
      if curCol < lens[curLine] {
        CloseGap(curLine, curCol, s);
        doc := EditorText.DeleteForward(d);
        PutOne(d.lines, d.row, s[..d.col] + s[d.col + 1..]);
        assert forall i :: 0 <= i < |d.lines| && i != d.row ==> RowIs(i, d.lines[i]);
      } else if curLine < numLines - 1 && lens[curLine] + lens[curLine + 1] < MAX_LINE_LEN - 1 {
        JoinRows(curLine);
        numLines := numLines - 1;
        doc := EditorText.DeleteForward(d);
      }
    }

    /** The tab key: four blanks, one after the other. */
    method Tab()
      requires Valid()
      modifies this, grid, lens
      ensures Valid() && doc == Press(old(doc), Key.Tab)
    {
      hide EditorText.InsertChar, PlainLine;
      ghost var d := doc;
      InsertCharOk(d, ' ');
      InsertChar(' ');
      InsertCharOk(doc, ' ');
      InsertChar(' ');
      InsertCharOk(doc, ' ');
      InsertChar(' ');
      InsertCharOk(doc, ' ');
      InsertChar(' ');
      FourSpaces(d);
    }

    /** Ctrl+K. */
    method KillLine()
      requires Valid()
      modifies this, grid, lens
      ensures Valid() && doc == EditorText.KillLine(old(doc))
    {
      hide PlainLine;
      ghost var d := doc;
      KillLineOk(d);
      PutOne(d.lines, d.row, d.lines[d.row][..d.col]);
      lens[curLine] := curCol;
      grid[curLine, curCol] := NUL;
      doc := EditorText.KillLine(d);
      assert forall i :: 0 <= i < |d.lines| && i != d.row ==> RowIs(i, d.lines[i]);
    }

    /** `clamp_col`. */
    method ClampCol()
      requires Sized() && 0 <= curLine < MAX_LINES
      modifies this`curCol
      ensures curCol == if old(curCol) > lens[curLine] then lens[curLine] else old(curCol)
    {
      if curCol > lens[curLine] {
        curCol := lens[curLine];
      }
    }

    /** Up, Down, PageUp and PageDown. */
    method MoveVertically(k: Key)
      requires Valid() && (k.Up? || k.Down? || k.PageUp? || k.PageDown?)
      modifies this
      ensures Valid() && doc == Press(old(doc), k)
    {
      hide PlainLine, Join, EditorText.InsertChar, EditorText.InsertNewline, EditorText.DeleteBackward,
           EditorText.DeleteForward, EditorText.KillLine, Spaces;
      PressOk(doc, k);
      match k {
        case Up =>
          if curLine > 0 {
            curLine := curLine - 1;
            ClampCol();
          }
        case Down =>
          if curLine < numLines - 1 {
            curLine := curLine + 1;
            ClampCol();
          }
        case PageUp =>
          curLine := curLine - SCREEN_ROWS;
          if curLine < 0 {
            curLine := 0;
          }
          ClampCol();
        case PageDown =>
          curLine := curLine + SCREEN_ROWS;
          if curLine >= numLines {
            curLine := numLines - 1;
          }
          ClampCol();
      }
      doc := Press(doc, k);
    }

    /** Left, Right, Home and End. */
    method MoveSideways(k: Key)
      requires Valid() && (k.Left? || k.Right? || k.Home? || k.End?)
      modifies this
      ensures Valid() && doc == Press(old(doc), k)
    {
      hide PlainLine, Join, EditorText.InsertChar, EditorText.InsertNewline, EditorText.DeleteBackward,
           EditorText.DeleteForward, EditorText.KillLine, Spaces;
      PressOk(doc, k);
      match k {
        case Left =>
          if curCol > 0 {
            curCol := curCol - 1;
          } else if curLine > 0 {
            curLine := curLine - 1;
            curCol := lens[curLine];
          }
        case Right =>
          if curCol < lens[curLine] {
            curCol := curCol + 1;
          } else if curLine < numLines - 1 {
            curLine := curLine + 1;
            curCol := 0;
          }
        case Home =>
          curCol := 0;
        case End =>
          curCol := lens[curLine];
      }
      doc := Press(doc, k);
    }

    /** The text `save_file` writes: no guard on the buffer ever cuts it short. */
    method SaveText() returns (out: string)
      requires Valid()
      ensures out == Flat(doc)
    {
      hide PlainLine, Before, After, Join, Ok;
      ghost var ls := doc.lines;
      LinesHere(doc);
      SaveFits(ls);
      NoneBefore();
      out := "";
      assert ls[..0] == [];
      var i := 0;
      while i < numLines
        invariant 0 <= i <= |ls|
        invariant out == if i < |ls| then Before(ls[..i]) else Join(ls)
      {
        JoinAt(ls, i);
        var j := 0;
        while j < lens[i]
          invariant 0 <= j <= |ls[i]| && out == Before(ls[..i]) + ls[i][..j]
        {
          if |out| < BUFFER - 1 {
            out := out + [grid[i, j]];
          }
          assert ls[i][..j + 1] == ls[i][..j] + [ls[i][j]];
          j := j + 1;
        }
        assert ls[i][..j] == ls[i];
        if i < numLines - 1 {
          AfterNext(ls, i + 1);
          BeforeNext(ls, i);
        } else {
          assert ls[i + 1..] == [];
        }
        if i < numLines - 1 && |out| < BUFFER - 1 {
          out := out + ['\n'];
        }
        i := i + 1;
      }
    }

    /** `load_file` for a file that could be opened, with the cursor still at the top. */
    method LoadText(file: string)
      requires Sized() && curLine == 0 && curCol == 0
      modifies this, grid, lens
      ensures Valid() && doc == Doc(Load(file), 0, 0)
    {
      hide PlainLine, Scan;
      LoadOk(file);
      var text := if |file| > BUFFER - 1 then file[..BUFFER - 1] else file;
      if |text| == 0 {
        numLines := 1;
        lens[0] := 0;
        grid[0, 0] := NUL;
        assert text == "";
        ScanEnd([], "");
        assert Load(file) == [""];
        doc := Doc([""], 0, 0);
        return;
      }
      var col, done, cur := ScanText(text);
      if col > 0 || numLines == 0 {
        numLines := numLines + 1;
      }
      doc := Doc(Load(file), 0, 0);
      assert forall k :: 0 <= k < |doc.lines| ==> RowIs(k, doc.lines[k]);
    }

    /** The loop of `load_file`: complete lines in their rows, the unfinished one in the next. */
    method ScanText(text: string) returns (col: nat, ghost done: seq<string>, ghost cur: string)
      requires Sized()
      modifies this`numLines, grid, lens
      ensures (done, cur) == Scan(text, [], "") && |done| == numLines < MAX_LINES
      ensures Rows(done) && RowIs(numLines, cur) && col == |cur|
    {
      hide PlainLine, Scan;
      numLines := 0;
      var i := 0;
      col := 0;
      done, cur := [], "";
      assert text[0..] == text;
      while i < |text| && numLines < MAX_LINES - 1
        invariant 0 <= i <= |text| && |done| == numLines < MAX_LINES && 0 <= col == |cur| < MAX_LINE_LEN
        invariant Scan(text[i..], done, cur) == Scan(text, [], "")
        invariant Rows(done) && forall j :: 0 <= j < col ==> grid[numLines, j] == cur[j]
      {
        var c := text[i];
        ScanStep(text, i, done, cur);
        if c == '\n' {
          grid[numLines, col] := NUL;
          lens[numLines] := col;
          assert RowIs(numLines, cur);
          assert forall k :: 0 <= k < |done| ==> RowIs(k, done[k]);
          done, cur := done + [cur], "";
          numLines := numLines + 1;
          col := 0;
        } else if c != '\r' && col < MAX_LINE_LEN - 1 {
          grid[numLines, col] := c;
          cur := cur + [c];
          col := col + 1;
          assert forall k :: 0 <= k < |done| ==> RowIs(k, done[k]);
        }
        i := i + 1;
      }
      ScanStop(text, i, done, cur);
      grid[numLines, col] := NUL;
      lens[numLines] := col;
      assert forall k :: 0 <= k < |done| ==> RowIs(k, done[k]);
    }
  }

  lemma LinesHere(d: Doc)
    requires Ok(d)
    ensures LinesOk(d.lines)
  {
  }

  lemma ScanStep(text: string, i: nat, done: seq<string>, cur: string)
    requires i < |text| && |done| < MAX_LINES - 1
    ensures var rest := text[i + 1..];
            Scan(text[i..], done, cur) ==
            if text[i] == '\n' then Scan(rest, done + [cur], "")
            else if text[i] != '\r' && |cur| < MAX_LINE_LEN - 1 then Scan(rest, done, cur + [text[i]])
            else Scan(rest, done, cur)
  {
    assert text[i..][1..] == text[i + 1..];
  }

  lemma ScanStop(text: string, i: nat, done: seq<string>, cur: string)
    requires i <= |text| && (i == |text| || |done| >= MAX_LINES - 1)
    ensures Scan(text[i..], done, cur) == (done, cur)
  {
  }

  lemma PutOne(ls: seq<string>, r: nat, s: string)
    requires r < |ls|
    ensures Put(ls, r, 1, [s]) == ls[r := s]
  {
  }

  lemma PutTwo(ls: seq<string>, r: nat, a: string, b: string)
    requires r < |ls|
    ensures var ns := Put(ls, r, 1, [a, b]);
            && |ns| == |ls| + 1 && ns[r] == a && ns[r + 1] == b
            && (forall k :: 0 <= k < r ==> ns[k] == ls[k]) && (forall k :: r + 1 < k < |ns| ==> ns[k] == ls[k - 1])
  {
  }

  lemma PutJoined(ls: seq<string>, r: nat, a: string)
    requires r + 1 < |ls|
    ensures var ns := Put(ls, r, 2, [a]);
            && |ns| == |ls| - 1 && ns[r] == a
            && (forall k :: 0 <= k < r ==> ns[k] == ls[k]) && (forall k :: r < k < |ns| ==> ns[k] == ls[k + 1])
  {
  }
}
