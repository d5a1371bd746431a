/** Loading and saving: what the editor reads from a file and writes back. */
module EditorFile {
  import opened EditorText

  /** The scan of `load_file` from a partly filled line on; it stops when 255 lines are complete. */
  function Scan(text: string, done: seq<string>, cur: string): (r: (seq<string>, string))
    decreases |text|
  {
    if text == "" || |done| >= MAX_LINES - 1 then (done, cur)
    else if text[0] == '\n' then Scan(text[1..], done + [cur], "")
    else if text[0] != '\r' && |cur| < MAX_LINE_LEN - 1 then Scan(text[1..], done, cur + [text[0]])
    else Scan(text[1..], done, cur)
  }

  /** The unfinished last line counts unless it is empty and other lines exist. */
  function Close(r: (seq<string>, string)): seq<string> { if r.1 != "" || r.0 == [] then r.0 + [r.1] else r.0 }

  /** The lines of a file; at most the buffer less one byte is read. */
  function Load(file: string): seq<string> {
    var text := if |file| > BUFFER - 1 then file[..BUFFER - 1] else file;
    Close(Scan(text, [], ""))
  }

  predicate ScanOk(done: seq<string>, cur: string) {
    |done| < MAX_LINES && PlainLine(cur) && (forall i :: 0 <= i < |done| ==> PlainLine(done[i]))
        && (|done| == MAX_LINES - 1 ==> cur == "")
  }

  lemma {:induction false} ScanKeeps(text: string, done: seq<string>, cur: string)
    requires ScanOk(done, cur)
    ensures var r := Scan(text, done, cur); ScanOk(r.0, r.1)
    decreases |text|
  {
    if text != "" && |done| < MAX_LINES - 1 {
      if text[0] == '\n' {
        ScanKeeps(text[1..], done + [cur], "");
      } else if text[0] != '\r' && |cur| < MAX_LINE_LEN - 1 {
        ScanKeeps(text[1..], done, cur + [text[0]]);
      } else {
        ScanKeeps(text[1..], done, cur);
      }
    }
  }

  /** Whatever the file holds, loading gives lines within the editor's bounds. */
  lemma LoadOk(file: string)
    ensures LinesOk(Load(file))
  {
    var text := if |file| > BUFFER - 1 then file[..BUFFER - 1] else file;
    ScanKeeps(text, [], "");
  }

  // ---- saving ----

  /** The flat text always fits the buffer, so saving never cuts anything off. */
  lemma SaveFits(ls: seq<string>)
    requires LinesOk(ls)
    ensures |Join(ls)| < BUFFER - 1
  {
    JoinLength(ls);
  }

  lemma {:induction false} JoinLength(ls: seq<string>)
    requires ls != [] && forall i :: 0 <= i < |ls| ==> |ls[i]| < MAX_LINE_LEN
    ensures |Join(ls)| <= MAX_LINE_LEN * |ls| - 1
    decreases |ls|
  {
    if |ls| > 1 {
      JoinLength(ls[1..]);
    }
  }

  // ---- round trip ----

  /** A trailing empty line is not loaded back. */
  function DropTrailing(ls: seq<string>): seq<string>
    requires ls != []
  {
    if |ls| > 1 && ls[|ls| - 1] == "" then ls[..|ls| - 1] else ls
  }

  /** Scanning the characters of a line collects them. */
  lemma {:induction false} ScanLine(s: string, rest: string, done: seq<string>, cur: string)
    requires |cur| + |s| < MAX_LINE_LEN && '\n' !in s && '\r' !in s && |done| < MAX_LINES - 1
    ensures Scan(s + rest, done, cur) == Scan(rest, done, cur + s)
    decreases |s|
  {
    if s == "" {
      assert s + rest == rest && cur + s == cur;
    } else {
      assert (s + rest)[1..] == s[1..] + rest;
      assert cur + [s[0]] + s[1..] == cur + s;
      ScanLine(s[1..], rest, done, cur + [s[0]]);
    }
  }

  lemma {:induction false} ScanJoin(ls: seq<string>, done: seq<string>)
    requires ls != [] && |done| + |ls| < MAX_LINES && forall i :: 0 <= i < |ls| ==> PlainLine(ls[i])
    ensures Scan(Join(ls), done, "") == (done + ls[..|ls| - 1], ls[|ls| - 1])
    decreases |ls|
  {
    hide Scan, Join;
    JoinStep(ls);
    assert "" + ls[0] == ls[0];
    if |ls| == 1 {
      assert ls[0] + "" == ls[0];
      ScanLine(ls[0], "", done, "");
      ScanEnd(done, ls[0]);
      assert done + ls[..0] == done;
    } else {
      var rest := Join(ls[1..]);
      ScanLine(ls[0], "\n" + rest, done, "");
      ScanNewline(rest, done, ls[0]);
      ScanJoin(ls[1..], done + [ls[0]]);
      assert done + [ls[0]] + ls[1..][..|ls| - 2] == done + ls[..|ls| - 1];
    }
  }

  lemma JoinStep(ls: seq<string>)
    requires ls != []
    ensures Join(ls) == if |ls| == 1 then ls[0] else ls[0] + ("\n" + Join(ls[1..]))
  {
  }

  lemma ScanEnd(done: seq<string>, cur: string)
    ensures Scan("", done, cur) == (done, cur)
  {
  }

  lemma ScanNewline(rest: string, done: seq<string>, cur: string)
    requires |done| < MAX_LINES - 1
    ensures Scan("\n" + rest, done, cur) == Scan(rest, done + [cur], "")
  {
    assert ("\n" + rest)[1..] == rest;
  }

  /** Loading what was saved gives the same document, except that a trailing empty line is dropped. */
  lemma LoadSaved(ls: seq<string>)
    requires LinesOk(ls)
    ensures Load(Join(ls)) == DropTrailing(ls)
  {
    hide Join, Scan, PlainLine;
    SaveFits(ls);
    ScanJoin(ls, []);
    assert [] + ls[..|ls| - 1] == ls[..|ls| - 1];
    assert ls[..|ls| - 1] + [ls[|ls| - 1]] == ls;
  }

  /** The round trip is exact precisely when the document does not end in an empty line of its own. */
  lemma RoundTripExact(ls: seq<string>)
    requires LinesOk(ls)
    ensures Load(Join(ls)) == ls <==> |ls| == 1 || ls[|ls| - 1] != ""
  {
    LoadSaved(ls);
  }

  // ---- opening and saving unedited ----

  /** The lines of any text: the pieces between its newlines. */
  function Split(text: string): (ls: seq<string>)
    ensures ls != []
    decreases |text|
  {
    if text == "" then [""]
    else
      var rest := Split(text[1..]);
      if text[0] == '\n' then [""] + rest else [[text[0]] + rest[0]] + rest[1..]
  }

  lemma {:induction false} SplitJoins(text: string)
    ensures Join(Split(text)) == text && forall i :: 0 <= i < |Split(text)| ==> '\n' !in Split(text)[i]
    decreases |text|
  {
    if text != "" {
      var rest := Split(text[1..]);
      SplitJoins(text[1..]);
      var ls := Split(text);
      if text[0] == '\n' {
        assert ls[1..] == rest;
        assert ls[0] + "\n" + Join(rest) == text;
      } else {
        assert |ls| == |rest| && ls[1..] == rest[1..];
        FirstGrows(rest, text[0]);
        assert ls == [[text[0]] + rest[0]] + rest[1..];
        assert [text[0]] + text[1..] == text;
      }
    }
  }

  lemma FirstGrows(ls: seq<string>, c: char)
    requires ls != []
    ensures Join([[c] + ls[0]] + ls[1..]) == [c] + Join(ls)
  {
    var ms := [[c] + ls[0]] + ls[1..];
    assert ms[1..] == ls[1..];
    if |ls| > 1 {
      assert [c] + ls[0] + "\n" + Join(ls[1..]) == [c] + (ls[0] + "\n" + Join(ls[1..]));
    }
  }

  lemma {:induction false} JoinSplits(ls: seq<string>)
    requires ls != [] && forall i :: 0 <= i < |ls| ==> '\n' !in ls[i]
    ensures Split(Join(ls)) == ls
    decreases |ls|, |ls[0]|
  {
    JoinStep(ls);
    if ls[0] == "" {
      if |ls| > 1 {
        assert Join(ls)[1..] == Join(ls[1..]);
        JoinSplits(ls[1..]);
        assert ls == [""] + ls[1..];
      }
    } else {
      var c, ms := ls[0][0], [ls[0][1..]] + ls[1..];
      assert [c] + ms[0] == ls[0];
      FirstGrows(ms, c);
      assert [[c] + ms[0]] + ms[1..] == ls;
      assert Join(ls)[1..] == Join(ms);
      JoinSplits(ms);
    }
  }

  /** Few enough and short enough lines, no carriage return, no newline at the end. */
  predicate Editable(file: string) {
    && |Split(file)| < MAX_LINES && (forall i :: 0 <= i < |Split(file)| ==> |Split(file)[i]| < MAX_LINE_LEN)
    && '\r' !in file && (file != "" ==> file[|file| - 1] != '\n')
  }

  /** Opening a file and saving it unedited keeps it exactly when it is editable; otherwise something is lost. */
  lemma OpenSaveExact(file: string)
    ensures Join(Load(file)) == file <==> Editable(file)
  {
    hide Load, Join, Split, PlainLine;
    LoadOk(file);
    SplitJoins(file);
    if Join(Load(file)) == file {
      var ls := Load(file);
      LinesPlain(ls);
      JoinSplits(ls);
      RoundTripExact(ls);
      NoReturns(ls);
      LastNewline(ls);
    }
    if Editable(file) {
      var ls := Split(file);
      PiecesPlain(file);
      LastNewline(ls);
      RoundTripExact(ls);
    }
  }

  lemma LinesPlain(ls: seq<string>)
    requires LinesOk(ls)
    ensures |ls| < MAX_LINES && forall i :: 0 <= i < |ls| ==> '\n' !in ls[i] && '\r' !in ls[i] && |ls[i]| < MAX_LINE_LEN
  {
  }

  lemma PiecesPlain(file: string)
    requires Editable(file) && Join(Split(file)) == file
             && forall i :: 0 <= i < |Split(file)| ==> '\n' !in Split(file)[i]
    ensures LinesOk(Split(file))
  {
    hide Join, Split;
    NoReturns(Split(file));
  }

  lemma {:induction false} NoReturns(ls: seq<string>)
    ensures '\r' !in Join(ls) <==> forall i :: 0 <= i < |ls| ==> '\r' !in ls[i]
    decreases |ls|
  {
    if |ls| > 1 {
      NoReturns(ls[1..]);
      assert forall i :: 1 <= i < |ls| ==> ls[i] == ls[1..][i - 1];
      assert '\r' in Join(ls) <==> '\r' in ls[0] || '\r' in Join(ls[1..]);
    }
  }

  /** The text ends in a newline exactly when there are several lines and the last is empty. */
  lemma {:induction false} LastNewline(ls: seq<string>)
    requires ls != [] && forall i :: 0 <= i < |ls| ==> '\n' !in ls[i]
    ensures (Join(ls) != "" && Join(ls)[|Join(ls)| - 1] == '\n') <==> |ls| > 1 && ls[|ls| - 1] == ""
    decreases |ls|
  {
    if |ls| > 1 {
      LastNewline(ls[1..]);
    }
  }
}
