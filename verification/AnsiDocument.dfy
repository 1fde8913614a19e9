/** Wrapping a whole text, twice. */
module AnsiDocument {
  import opened Wrappers
  import opened Text
  import opened AnsiText
  import opened AnsiWrap
  import opened AnsiFill
  import opened AnsiOutput

  // ---- No line end ever gets into a line --------------------------------------------------------------------

  predicate Free(s: string, c: char) { forall i :: 0 <= i < |s| ==> s[i] != c }

  predicate AllFree(ss: seq<string>, c: char) { forall i :: 0 <= i < |ss| ==> Free(ss[i], c) }

  predicate FreeColour(active: Option<string>, c: char) { active.Some? ==> Free(active.value, c) }

  lemma {:induction false} ScanIsFree(s: string, t: Tok, c: char)
    requires Free(s, c) && AllFree(t.words, c) && Free(t.current, c)
    ensures AllFree(Scan(s, t).words, c) && Free(Scan(s, t).current, c)
    decreases |s|
  {
    if s != "" {
      var n := Unit(s);
      ScanIsFree(s[n..], if !StartsCsi(s) && IsWhitespace(s[0]) then Flush(t) else Tok(t.words, t.current + s[..n]), c);
    }
  }

  lemma {:induction false} ActiveIsFree(s: string, active: Option<string>, c: char)
    requires Free(s, c) && FreeColour(active, c)
    ensures FreeColour(Active(s, active), c)
    decreases |s|
  {
    hide IsReset;
    if s != "" {
      ActiveIsFree(s[Unit(s)..], AfterUnit(s[..Unit(s)], active), c);
    }
  }

  predicate FreePage(p: Page, c: char) { AllFree(p.lines, c) && Free(p.stem, c) && Free(p.last, c) && FreeColour(p.active, c) }

  lemma {:induction false} FillIsFree(words: seq<string>, n: nat, indent: nat, hang: nat, limit: nat, w: CellWidth, c: char)
    requires n <= |words| && AllFree(words, c) && IsEol(c)
    ensures FreePage(Fill(words, n, indent, hang, limit, w), c)
  {
    hide FreePage, Place;
    if n > 0 {
      FillIsFree(words, n - 1, indent, hang, limit, w, c);
      PlaceIsFree(Fill(words, n - 1, indent, hang, limit, w), words[n - 1], hang, limit, w, c);
    } else {
      StartIsFree(indent, c);
    }
  }

  lemma StartIsFree(indent: nat, c: char)
    requires IsEol(c)
    ensures FreePage(Start(indent), c)
  {
  }

  lemma PlaceIsFree(p: Page, word: string, hang: nat, limit: nat, w: CellWidth, c: char)
    requires FreePage(p, c) && Free(word, c) && IsEol(c)
    ensures FreePage(Place(p, word, hang, limit, w), c)
  {
    hide Active, Width;
    ActiveIsFree(word, p.active, c);
  }

  lemma RowsAreFree(line: string, width: nat, w: CellWidth, c: char)
    requires Free(line, c) && IsEol(c)
    ensures AllFree(WrapRows(line, width, w), c)
    ensures line != "" ==> var rows := WrapRows(line, width, w); rows[|rows| - 1] != ""
    ensures WrapRows(line, width, w) != []
  {
    hide Scan, Strip, Fill, Width, Hang, Solid, Closed, Laid;
    var rest := line[IndentOf(line)..];
    var words := Words(rest);
    ScanIsFree(rest, TOK0, c);
    if !(Width(line, w) <= Clamp(width) || |words| <= 1) {
      FillIsFree(words, |words|, IndentOf(line), Hang(line), Clamp(width), w, c);
      WordsAreWords(rest);
      FillIsLaid(words, |words|, IndentOf(line), Hang(line), Clamp(width), w);
    }
  }

  // ---- Lines and texts ----------------------------------------------------------------------------------------

  /** The text with these lines; `closed` says whether the last one has its `\n`. */
  function Unlines(rows: seq<string>, closed: bool): string { Joined(rows) + (if closed then "\n" else "") }

  predicate EndsInNewline(s: string) { s != "" && s[|s| - 1] == '\n' }

  function Terminators(rows: seq<string>, closed: bool): (r: seq<string>)
    ensures |r| == |rows|
    ensures forall i :: 0 <= i < |r| ==> r[i] == if i < |rows| - 1 || closed then rows[i] + "\n" else rows[i]
  {
    seq(|rows|, i requires 0 <= i < |rows| => if i < |rows| - 1 || closed then rows[i] + "\n" else rows[i])
  }

  lemma TerminatorsSnoc(front: seq<string>, last: string, closed: bool)
    ensures Terminators(front + [last], closed) == Terminators(front, true) + [if closed then last + "\n" else last]
  {
  }

  lemma {:induction false} UnlinesIsConcat(rows: seq<string>, closed: bool)
    requires rows != []
    ensures Unlines(rows, closed) == Concat(Terminators(rows, closed))
    decreases |rows|
  {
    hide Joined, Concat, Terminators;
    var front, last := rows[..|rows| - 1], rows[|rows| - 1];
    var end := if closed then last + "\n" else last;
    assert rows == front + [last];
    TerminatorsSnoc(front, last, closed);
    ConcatOne(Terminators(front, true), end);
    if front == [] {
      NothingConcat(Terminators(front, true), end);
      JoinedOne(last);
    } else {
      UnlinesIsConcat(front, true);
      JoinedSnoc(front, last);
      JoinEnds(Joined(front), last, closed);
    }
  }

  lemma JoinEnds(a: string, last: string, closed: bool)
    ensures (a + "\n" + last) + (if closed then "\n" else "") == (a + "\n") + (if closed then last + "\n" else last)
  {
  }

  lemma NothingConcat(t: seq<string>, end: string)
    requires t == []
    ensures Concat(t) + end == end
  {
  }

  lemma ConcatOne(t: seq<string>, end: string)
    ensures Concat(t + [end]) == Concat(t) + end
  {
    hide Concat;
    ConcatSnoc(t + [end], |t|);
    assert (t + [end])[..|t|] == t && (t + [end])[..|t| + 1] == t + [end];
  }

  predicate EndsInReturn(s: string) { s != "" && s[|s| - 1] == '\r' }

  /** `lines()` takes a `\r` in front of a newline for part of the line end. */
  function DropReturn(s: string): string { if EndsInReturn(s) then s[..|s| - 1] else s }

  /** Whether the `i`-th row has a newline behind it. */
  predicate Followed(rows: seq<string>, closed: bool, i: nat) { i < |rows| - 1 || closed }

  /** What reading the text back makes of its rows. */
  function ReadBack(rows: seq<string>, closed: bool): (r: seq<string>)
    ensures |r| == |rows|
    ensures forall i :: 0 <= i < |r| ==> r[i] == if Followed(rows, closed, i) then DropReturn(rows[i]) else rows[i]
  {
    seq(|rows|, i requires 0 <= i < |rows| => if Followed(rows, closed, i) then DropReturn(rows[i]) else rows[i])
  }

  lemma TerminatorAt(rows: seq<string>, closed: bool, i: nat)
    requires i < |rows| && AllFree(rows, '\n') && (!closed ==> rows[|rows| - 1] != "")
    ensures var l := Terminators(rows, closed)[i];
      IsLine(l) && (Followed(rows, closed, i) <==> Terminated(l)) && StripEol(l) == ReadBack(rows, closed)[i]
  {
    hide DropReturn, IsLine, Terminated, StripEol;
    assert Free(rows[i], '\n');
    RowStrips(rows[i], Followed(rows, closed, i));
  }

  lemma LinesOfUnlines(rows: seq<string>, closed: bool)
    requires rows != [] && AllFree(rows, '\n') && (!closed ==> rows[|rows| - 1] != "")
    ensures Lines(Unlines(rows, closed)) == ReadBack(rows, closed)
    ensures EndsInNewline(Unlines(rows, closed)) <==> closed
  {
    hide Joined, Concat, SplitInclusive, DropReturn, Terminators, ReadBack, IsLine, StripEol, StripAll, AllFree;
    var t := Terminators(rows, closed);
    UnlinesIsConcat(rows, closed);
    forall i | 0 <= i < |t|
      ensures IsLine(t[i]) && (Followed(rows, closed, i) <==> Terminated(t[i])) && StripEol(t[i]) == ReadBack(rows, closed)[i]
    {
      TerminatorAt(rows, closed, i);
    }
    SplitOfConcat(t);
    assert StripAll(t) == ReadBack(rows, closed);
    LineNotEmpty(t[|t| - 1]);
    LastChar(t);
  }

  lemma LineNotEmpty(l: string)
    requires IsLine(l)
    ensures l != ""
  {
  }

  lemma RowStrips(row: string, closed: bool)
    requires Free(row, '\n') && (closed || row != "")
    ensures var l := if closed then row + "\n" else row;
      IsLine(l) && (closed <==> Terminated(l)) && StripEol(l) == if closed then DropReturn(row) else row
  {
    var l := if closed then row + "\n" else row;
    if closed {
      assert l[..|l| - 1] == row;
      assert |row| > 0 ==> l[..|l| - 2] == row[..|row| - 1];
    }
  }

  /** The lines of a text. */
  lemma LinesAreFree(text: string)
    requires text != ""
    ensures var ls := Lines(text);
      ls != [] && AllFree(ls, '\n') && (!EndsInNewline(text) ==> ls[|ls| - 1] != "")
  {
    hide Concat;
    var t, ls := SplitInclusive(text), Lines(text);
    SplitIsSplit(text);
    ConcatOfSplit(text);
    assert t != [];
    LastChar(t);
    forall i | 0 <= i < |t|
      ensures Free(ls[i], '\n')
    {
      LineStrips(t[i]);
    }
  }

  lemma LineStrips(l: string)
    requires IsLine(l)
    ensures Free(StripEol(l), '\n')
  {
    forall k | 0 <= k < |StripEol(l)|
      ensures StripEol(l)[k] != '\n'
    {
      assert StripEol(l)[k] == l[k];
      if k < |l| - 1 {
        assert l[k] in l[..|l| - 1];
      }
    }
  }

  lemma LastChar(t: seq<string>)
    requires t != [] && t[|t| - 1] != ""
    ensures var all := Concat(t);
      all != "" && all[|all| - 1] == t[|t| - 1][|t[|t| - 1]| - 1]
  {
    hide Concat;
    ConcatSnoc(t, |t| - 1);
    assert t[..|t|] == t;
  }

  // ---- The whole text ---------------------------------------------------------------------------------------------

  function AllRows(lines: seq<string>, width: nat, w: CellWidth): seq<string> {
    if lines == [] then []
    else AllRows(lines[..|lines| - 1], width, w) + WrapRows(lines[|lines| - 1], width, w)
  }

  function Wrapped(text: string, width: nat, w: CellWidth): string {
    Unlines(AllRows(Lines(text), width, w), EndsInNewline(text))
  }

  lemma {:induction false} JoinedAppend(a: seq<string>, b: seq<string>)
    requires a != [] && b != []
    ensures Joined(a + b) == Joined(a) + "\n" + Joined(b)
  {
    var front, last := b[..|b| - 1], b[|b| - 1];
    assert b == front + [last];
    if front == [] {
      assert a + b == a + [last];
      JoinedSnoc(a, last);
    } else {
      JoinedAppend(a, front);
      assert a + b == (a + front) + [last];
      JoinedSnoc(a + front, last);
      JoinedSnoc(front, last);
    }
  }

  lemma AllRowsStep(lines: seq<string>, i: nat, width: nat, w: CellWidth)
    requires i < |lines|
    ensures AllRows(lines[..i + 1], width, w) == AllRows(lines[..i], width, w) + WrapRows(lines[i], width, w)
  {
    assert lines[..i + 1][..i] == lines[..i];
  }

  lemma {:induction false} AllRowsExist(lines: seq<string>, width: nat, w: CellWidth)
    ensures AllRows(lines, width, w) != [] <==> lines != []
  {
    if lines != [] {
      WrapFitsAndShowsAllWords(lines[|lines| - 1], width, w);
    }
  }

  /** `wrap_human_text_for_width`. */
  method WrapText(text: string, width: nat, w: CellWidth) returns (out: string)
    ensures out == Wrapped(text, width, w)
  {
    hide Joined, WrapRows, Lines, AllRows;
    out := "";
    var lines := Lines(text);
    NoRows(width, w);
    assert lines[..0] == [];
    for i := 0 to |lines|
      invariant out == Joined(AllRows(lines[..i], width, w))
    {
      ghost var rows := AllRows(lines[..i], width, w);
      AllRowsExist(lines[..i], width, w);
      AllRowsStep(lines, i, width, w);
      WrapFitsAndShowsAllWords(lines[i], width, w);
      if i > 0 {
        out := out + "\n";
        JoinedAppend(rows, WrapRows(lines[i], width, w));
      } else {
        assert rows == [];
        assert [] + WrapRows(lines[i], width, w) == WrapRows(lines[i], width, w);
      }
      var piece := WrapLine(lines[i], width, w);
      out := out + piece;
    }
    assert lines[..|lines|] == lines;
    if EndsInNewline(text) {
      out := out + "\n";
    } else {
      assert out + "" == out;
    }
  }

  lemma NoRows(width: nat, w: CellWidth)
    ensures AllRows([], width, w) == [] && Joined([]) == ""
  {
  }

  lemma {:induction false} AllRowsAreFree(lines: seq<string>, width: nat, w: CellWidth, c: char)
    requires AllFree(lines, c) && IsEol(c)
    ensures AllFree(AllRows(lines, width, w), c)
  {
    hide WrapRows;
    if lines != [] {
      AllRowsAreFree(lines[..|lines| - 1], width, w, c);
      RowsAreFree(lines[|lines| - 1], width, w, c);
    }
  }

  /** A wrap at this width leaves the line alone. */
  predicate Settles(row: string, width: nat, w: CellWidth) { Width(row, w) <= Clamp(width) || |Words(row)| <= 1 }

  predicate AllSettle(rows: seq<string>, width: nat, w: CellWidth) {
    forall i :: 0 <= i < |rows| ==> Settles(rows[i], width, w)
  }

  lemma SettledIsFixed(row: string, width: nat, w: CellWidth)
    requires Settles(row, width, w)
    ensures WrapRows(row, width, w) == [row]
  {
    hide Scan, Strip, Fill, Width, Hang, Words, Styled;
    WordsAfterIndent(row);
  }

  /** Lines that a wrap leaves alone are left alone together. */
  lemma {:induction false} SettledRows(rows: seq<string>, width: nat, w: CellWidth)
    requires AllSettle(rows, width, w)
    ensures AllRows(rows, width, w) == rows
  {
    hide WrapRows, Settles;
    if rows != [] {
      SettledRows(rows[..|rows| - 1], width, w);
      assert Settles(rows[|rows| - 1], width, w);
      SettledIsFixed(rows[|rows| - 1], width, w);
      assert rows == rows[..|rows| - 1] + [rows[|rows| - 1]];
    }
  }

  lemma {:induction false} AllRowsSettle(lines: seq<string>, width: nat, w: CellWidth)
    ensures AllSettle(AllRows(lines, width, w), width, w)
  {
    hide WrapRows, Width, Words;
    if lines != [] {
      AllRowsSettle(lines[..|lines| - 1], width, w);
      WrapFitsAndShowsAllWords(lines[|lines| - 1], width, w);
    }
  }

  lemma {:induction false} LastRowOf(lines: seq<string>, width: nat, w: CellWidth)
    requires lines != [] && AllFree(lines, '\n') && lines[|lines| - 1] != ""
    ensures var rows := AllRows(lines, width, w); rows != [] && rows[|rows| - 1] != ""
  {
    hide WrapRows;
    RowsAreFree(lines[|lines| - 1], width, w, '\n');
  }

  /** The printed rows of a text that is not empty. */
  lemma PrintedRows(text: string, width: nat, w: CellWidth)
    requires text != ""
    ensures var rows, closed := AllRows(Lines(text), width, w), EndsInNewline(text);
      && rows != [] && AllFree(rows, '\n') && (!closed ==> rows[|rows| - 1] != "")
      && AllSettle(rows, width, w)
      && Lines(Wrapped(text, width, w)) == ReadBack(rows, closed)
      && (EndsInNewline(Wrapped(text, width, w)) <==> closed)
  {
    hide WrapRows, Joined, Lines, AllRows, Unlines;
    var ls, closed := Lines(text), EndsInNewline(text);
    var rows := AllRows(ls, width, w);
    LinesAreFree(text);
    AllRowsAreFree(ls, width, w, '\n');
    AllRowsExist(ls, width, w);
    AllRowsSettle(ls, width, w);
    if !closed {
      LastRowOf(ls, width, w);
    }
    LinesOfUnlines(rows, closed);
  }

  lemma EmptyText(width: nat, w: CellWidth)
    ensures Lines("") == [] && Wrapped("", width, w) == ""
  {
    NoRows(width, w);
  }
}
