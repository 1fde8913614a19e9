/** Colours across the lines of a whole text. Within a line every colour is kept, whatever colour runs
    into it; but a line that is split is closed at its end, so a colour that runs on is lost there. */
module AnsiColours {
  import opened Wrappers
  import opened Text
  import opened AnsiText
  import opened AnsiWrap
  import opened AnsiFill
  import opened AnsiStyle
  import opened AnsiOutput
  import opened AnsiDocument

  // ---- What a colour from before can do to a text -----------------------------------------------------------

  predicate SetsColour(s: string)
    requires s != ""
  {
    StartsCsi(s) && s[Unit(s) - 1] == 'm'
  }

  /** Some sequence of the text sets or resets the colour. */
  predicate HasColour(s: string)
    decreases |s|
  {
    s != "" && (SetsColour(s) || HasColour(s[Unit(s)..]))
  }

  /** The text shows a character before any such sequence. */
  predicate ShowsPlain(s: string)
    decreases |s|
  {
    s != "" && !SetsColour(s) && (Ink(s, None) != [] || ShowsPlain(s[Unit(s)..]))
  }

  lemma UnitColour(s: string, a: Option<string>)
    requires s != ""
    ensures SetsColour(s) ==> AfterUnit(s[..Unit(s)], a) == AfterUnit(s[..Unit(s)], None)
    ensures !SetsColour(s) ==> AfterUnit(s[..Unit(s)], a) == a
    ensures SetsColour(s) ==> Ink(s, a) == []
    ensures |Ink(s, a)| == |Ink(s, None)| && (Ink(s, None) != [] ==> Ink(s, a)[0].1 == a)
  {
    var u := s[..Unit(s)];
    assert u[|u| - 1] == s[Unit(s) - 1];
    if StartsCsi(s) {
      assert StartsCsi(u);
    }
  }

  /** Where two colours from before make a difference, and where they do not. */
  lemma {:induction false} ColourMatters(s: string, a: Option<string>, b: Option<string>)
    requires a != b
    ensures |Styled(s, a)| == |Styled(s, b)|
    ensures Styled(s, a) == Styled(s, b) <==> !ShowsPlain(s)
    ensures Active(s, a) == Active(s, b) <==> HasColour(s)
    decreases |s|
  {
    if s != "" {
      hide Styled, Unit, Ink, AfterUnit, SetsColour;
      var rest, x, y := s[Unit(s)..], AfterUnit(s[..Unit(s)], a), AfterUnit(s[..Unit(s)], b);
      UnitColour(s, a);
      UnitColour(s, b);
      StyledUnfolds(s, a);
      StyledUnfolds(s, b);
      if x != y {
        ColourMatters(rest, x, y);
        if Ink(s, None) != [] {
          assert Styled(s, a)[0] == Ink(s, a)[0] && Styled(s, b)[0] == Ink(s, b)[0];
        } else {
          assert [] + Styled(rest, x) == Styled(rest, x) && [] + Styled(rest, y) == Styled(rest, y);
        }
      }
    } else {
      assert Styled(s, a) == [] && Styled(s, b) == [];
    }
  }

  /** A colour the text itself leaves active does not depend on the one before. */
  lemma OwnColourWins(s: string, b: Option<string>)
    ensures Active(s, None).Some? ==> Active(s, b) == Active(s, None) && HasColour(s)
  {
    hide Active, HasColour;
    if b != None {
      ColourMatters(s, b, None);
      if !HasColour(s) {
        NoColourKeeps(s, None);
      }
    } else if !HasColour(s) {
      NoColourKeeps(s, None);
    }
  }

  lemma {:induction false} NoColourKeeps(s: string, a: Option<string>)
    requires !HasColour(s)
    ensures Active(s, a) == a
    decreases |s|
  {
    if s != "" {
      UnitColour(s, a);
      NoColourKeeps(s[Unit(s)..], a);
    }
  }

  // ---- Lists of texts -------------------------------------------------------------------------------------------

  lemma {:induction false} OverAppend(xs: seq<string>, ys: seq<string>, a: Option<string>)
    ensures ActiveOver(xs + ys, a) == ActiveOver(ys, ActiveOver(xs, a))
    ensures StyledOver(xs + ys, a) == StyledOver(xs, a) + StyledOver(ys, ActiveOver(xs, a))
  {
    hide Active, Styled;
    if ys == [] {
      assert xs + ys == xs;
      assert StyledOver(xs, a) + [] == StyledOver(xs, a);
    } else {
      var front, last := ys[..|ys| - 1], ys[|ys| - 1];
      OverAppend(xs, front, a);
      assert xs + ys == (xs + front) + [last] && ys == front + [last];
      OverSnoc(xs + front, last, a);
      Associates(StyledOver(xs, a), StyledOver(front, ActiveOver(xs, a)), Styled(last, ActiveOver(xs + front, a)));
    }
  }

  lemma OverOne(x: string, a: Option<string>)
    ensures ActiveOver([x], a) == Active(x, a) && StyledOver([x], a) == Styled(x, a)
  {
    hide Active, Styled;
    OverSnoc([], x, a);
    assert [] + [x] == [x] && [] + Styled(x, a) == Styled(x, a);
  }

  lemma OverCons(x: string, ys: seq<string>, a: Option<string>)
    ensures ActiveOver([x] + ys, a) == ActiveOver(ys, Active(x, a))
    ensures StyledOver([x] + ys, a) == Styled(x, a) + StyledOver(ys, Active(x, a))
  {
    hide Active, Styled, ActiveOver, StyledOver;
    OverAppend([x], ys, a);
    OverOne(x, a);
  }

  /** The lines show a character before any of them sets a colour. */
  predicate ShowsPlainFirst(ls: seq<string>) {
    ls != [] && (ShowsPlain(ls[0]) || (!HasColour(ls[0]) && ShowsPlainFirst(ls[1..])))
  }

  // ---- One line, whatever colour runs into it ---------------------------------------------------------------------

  /** The rows so far read as the words so far, in text and in colour. */
  ghost predicate ReadsAs(p: Page, placed: seq<string>, b: Option<string>) {
    && Closed(p.stem) && EndsClean(p.stem) && Closed(p.last) && Closed(p.stem + p.last) && IsColour(p.active)
    && p.active == ActiveOver(placed, None)
    && ActiveOver(p.lines + [p.stem + p.last], b) == ActiveOver(placed, b)
    && StyledOver(p.lines + [p.stem + p.last], b) == StyledOver(placed, b)
  }

  lemma {:induction false} OwnColourWinsOver(ws: seq<string>, b: Option<string>)
    ensures ActiveOver(ws, None).Some? ==> ActiveOver(ws, b) == ActiveOver(ws, None)
    ensures ActiveOver(ws, b) == ActiveOver(ws, None) || (ActiveOver(ws, None) == None && ActiveOver(ws, b) == b)
  {
    hide Active;
    if ws != [] {
      var front, last := ws[..|ws| - 1], ws[|ws| - 1];
      OwnColourWinsOver(front, b);
      if ActiveOver(front, b) != ActiveOver(front, None) {
        OwnColourWins(last, b);
        if !HasColour(last) {
          NoColourKeeps(last, b);
          NoColourKeeps(last, None);
        } else if b != None {
          ColourMatters(last, b, None);
        }
      }
    }
  }

  /** Closing the current row shows nothing and leaves no colour of the line's own active. */
  lemma ClosingReads(lines: seq<string>, line: string, active: Option<string>, b: Option<string>)
    requires Closed(line)
    ensures Closed(line + Close(active)) && StyledOver(lines + [line + Close(active)], b) == StyledOver(lines + [line], b)
    ensures ActiveOver(lines + [line + Close(active)], b) == if active.Some? then None else ActiveOver(lines + [line], b)
  {
    hide Closed, Active, Styled, ActiveOver, StyledOver;
    if active.Some? {
      ResetIsSequence();
      SequenceFacts(RESET, ActiveOver(lines + [line], b));
      ClosedConcat(line, RESET);
      OverLonger(lines, line, RESET, b);
      assert StyledOver(lines + [line], b) + [] == StyledOver(lines + [line], b);
    } else {
      assert line + "" == line;
    }
  }

  /** The stem behind a break restores the colour that was closed before it. */
  lemma StemReads(lines: seq<string>, hang: nat, active: Option<string>, b: Option<string>)
    requires IsColour(active)
    ensures var stem := Spaces(hang) + Open(active);
      && Closed(stem) && EndsClean(stem)
      && StyledOver(lines + [stem], b) == StyledOver(lines, b)
      && ActiveOver(lines + [stem], b) == if active.Some? then active else ActiveOver(lines, b)
  {
    hide Closed, Active, Styled, ActiveOver, StyledOver, Solid, Strip, Scan;
    var pad, o, a := Spaces(hang), Open(active), ActiveOver(lines, b);
    SpacesFacts(hang, TOK0);
    CleanJoins(pad, o);
    OpenReads(active, a);
    ClosedConcat(pad, o);
    ActiveConcat(pad, o, a);
    StyledConcat(pad, o, a);
    OverSnoc(lines, pad + o, b);
    assert StyledOver(lines, b) + [] == StyledOver(lines, b) && [] + [] == Styled(pad, a) + Styled(o, a);
    assert EndsClean(pad + o);
  }

  lemma OpenReads(active: Option<string>, a: Option<string>)
    requires IsColour(active)
    ensures var o := Open(active);
      && Closed(o) && EndsClean(o) && Styled(o, a) == [] && Active(o, a) == if active.Some? then active else a
  {
    if active.Some? {
      SequenceFacts(active.value, a);
    }
  }

  lemma {:induction false} PlaceReads(p: Page, placed: seq<string>, word: string, hang: nat, limit: nat, w: CellWidth, b: Option<string>)
    requires ReadsAs(p, placed, b) && Closed(word) && (p.count == 0 ==> p.last == "")
    ensures ReadsAs(Place(p, word, hang, limit, w), placed + [word], b)
  {
    hide Closed, Active, Styled, ActiveOver, StyledOver, IsColour, Width, Spaces;
    var line := p.stem + p.last;
    OverSnoc(placed, word, None);
    OverSnoc(placed, word, b);
    ActiveIsColour(word, p.active);
    OwnColourWinsOver(placed, b);
    if Breaks(p, word, limit, w) {
      var closed, stem := p.lines + [line + Close(p.active)], Spaces(hang) + Open(p.active);
      ClosingReads(p.lines, line, p.active, b);
      StemReads(closed, hang, p.active, b);
      WordReads(closed, stem, word, b);
    } else if p.count > 0 {
      SpaceReads(p.lines, line, b);
      WordReads(p.lines, line + " ", word, b);
    } else {
      assert p.stem + "" == p.stem;
      WordReads(p.lines, p.stem, word, b);
    }
  }

  lemma WordReads(lines: seq<string>, stem: string, word: string, b: Option<string>)
    requires Closed(stem) && EndsClean(stem) && Closed(word)
    ensures Closed(stem + word)
    ensures ActiveOver(lines + [stem + word], b) == Active(word, ActiveOver(lines + [stem], b))
    ensures StyledOver(lines + [stem + word], b) == StyledOver(lines + [stem], b) + Styled(word, ActiveOver(lines + [stem], b))
  {
    hide Closed, Active, Styled, ActiveOver, StyledOver;
    CleanJoins(stem, word);
    ClosedConcat(stem, word);
    OverLonger(lines, stem, word, b);
  }

  lemma SpaceReads(lines: seq<string>, line: string, b: Option<string>)
    requires Closed(line)
    ensures Closed(line + " ") && EndsClean(line + " ")
    ensures ActiveOver(lines + [line + " "], b) == ActiveOver(lines + [line], b)
    ensures StyledOver(lines + [line + " "], b) == StyledOver(lines + [line], b)
  {
    hide Closed, Active, Styled, ActiveOver, StyledOver;
    SpaceFacts(TOK0);
    ClosedConcat(line, " ");
    OverLonger(lines, line, " ", b);
    assert StyledOver(lines + [line], b) + [] == StyledOver(lines + [line], b);
  }

  lemma StartReads(indent: nat, b: Option<string>)
    ensures ReadsAs(Start(indent), [], b)
  {
    hide Active, Styled, Closed;
    SpacesFacts(indent, TOK0);
    var pad := Spaces(indent);
    assert pad + "" == pad && [] + [pad] == [pad];
    OverOne(pad, b);
    EmptyIsOpener();
  }

  lemma {:induction false} FillReads(words: seq<string>, n: nat, indent: nat, hang: nat, limit: nat, w: CellWidth, b: Option<string>)
    requires n <= |words| && AllClosed(words)
    ensures var p := Fill(words, n, indent, hang, limit, w);
      ReadsAs(p, words[..n], b) && (p.count == 0 ==> p.last == "")
  {
    hide ReadsAs, Closed, Width, Active;
    if n == 0 {
      StartReads(indent, b);
      assert words[..0] == [];
    } else {
      FillReads(words, n - 1, indent, hang, limit, w, b);
      PlaceReads(Fill(words, n - 1, indent, hang, limit, w), words[..n - 1], words[n - 1], hang, limit, w, b);
      assert words[..n - 1] + [words[n - 1]] == words[..n];
    }
  }

  /** The line is split. */
  predicate Splits(line: string, width: nat, w: CellWidth) { !Settles(line, width, w) }

  /** The line is split and leaves a colour active: its last row closes it. */
  predicate Loses(line: string, width: nat, w: CellWidth) { Splits(line, width, w) && Active(line, None).Some? }

  /** MAIN: whatever colour runs into a line, its rows show its characters in their colours; behind the
      last row the colour is the line's, unless the line was split and left a colour of its own active. */
  lemma RowsRead(line: string, width: nat, w: CellWidth, b: Option<string>)
    requires Closed(line)
    ensures var rows := WrapRows(line, width, w);
      && StyledOver(rows, b) == Styled(line, b)
      && ActiveOver(rows, b) == if Loses(line, width, w) then None else Active(line, b)
  {
    hide Closed, Strip, Scan, Words, Fill, Width, Hang, Styled, Active, StyledOver, ActiveOver, Solid;
    WordsAfterIndent(line);
    WordsRead(line, b);
    WordsRead(line, None);
    OverOne(line, b);
    var words := Words(line[IndentOf(line)..]);
    WordsAreWords(line[IndentOf(line)..]);
    if Splits(line, width, w) {
      var p := Fill(words, |words|, IndentOf(line), Hang(line), Clamp(width), w);
      FillReads(words, |words|, IndentOf(line), Hang(line), Clamp(width), w, b);
      assert words[..|words|] == words;
      ClosingReads(p.lines, p.stem + p.last, p.active, b);
    }
  }

  // ---- Whole texts ------------------------------------------------------------------------------------------------

  lemma {:induction false} AllRowsAppend(xs: seq<string>, ys: seq<string>, width: nat, w: CellWidth)
    ensures AllRows(xs + ys, width, w) == AllRows(xs, width, w) + AllRows(ys, width, w)
  {
    hide WrapRows;
    if ys == [] {
      assert xs + ys == xs;
    } else {
      AllRowsAppend(xs, ys[..|ys| - 1], width, w);
      assert (xs + ys)[..|xs + ys| - 1] == xs + ys[..|ys| - 1];
    }
  }

  lemma AllRowsCons(l: string, ls: seq<string>, width: nat, w: CellWidth)
    ensures AllRows([l] + ls, width, w) == WrapRows(l, width, w) + AllRows(ls, width, w)
  {
    hide WrapRows;
    AllRowsAppend([l], ls, width, w);
    assert [l][..0] == [];
    assert AllRows([], width, w) + WrapRows(l, width, w) == WrapRows(l, width, w);
  }

  ghost predicate NothingLost(ls: seq<string>, width: nat, w: CellWidth) {
    forall i :: 0 <= i < |ls| && Loses(ls[i], width, w) ==> !ShowsPlainFirst(ls[i + 1..])
  }

  lemma NothingLostCons(l: string, ls: seq<string>, width: nat, w: CellWidth)
    ensures NothingLost([l] + ls, width, w) <==> (Loses(l, width, w) ==> !ShowsPlainFirst(ls)) && NothingLost(ls, width, w)
  {
    hide Loses, ShowsPlainFirst;
    var all := [l] + ls;
    assert all[1..] == ls;
    if NothingLost(all, width, w) {
      assert all[0] == l && all[0 + 1..] == ls;
      forall i | 0 <= i < |ls| && Loses(ls[i], width, w)
        ensures !ShowsPlainFirst(ls[i + 1..])
      {
        assert all[i + 1] == ls[i] && all[i + 2..] == ls[i + 1..];
      }
    }
    if (Loses(l, width, w) ==> !ShowsPlainFirst(ls)) && NothingLost(ls, width, w) {
      forall i | 0 <= i < |all| && Loses(all[i], width, w)
        ensures !ShowsPlainFirst(all[i + 1..])
      {
        if i > 0 {
          assert all[i] == ls[i - 1] && all[i + 1..] == ls[i..];
        }
      }
    }
  }

  lemma SameConcat<T>(x: seq<T>, y: seq<T>, u: seq<T>, v: seq<T>)
    requires |x| == |u|
    ensures x + y == u + v <==> x == u && y == v
  {
    if x + y == u + v {
      assert (x + y)[..|x|] == x && (u + v)[..|u|] == u;
      assert (x + y)[|x|..] == y && (u + v)[|u|..] == v;
    }
  }

  /** The lines read from colour `a`, their rows from colour `b`. */
  lemma {:induction false} RowsReadAlike(ls: seq<string>, width: nat, w: CellWidth, a: Option<string>, b: Option<string>)
    requires AllClosed(ls)
    ensures |StyledOver(AllRows(ls, width, w), b)| == |StyledOver(ls, a)|
    ensures StyledOver(AllRows(ls, width, w), b) == StyledOver(ls, a)
      <==> (a == b || !ShowsPlainFirst(ls)) && NothingLost(ls, width, w)
    decreases |ls|
  {
    hide Closed, Active, Styled, ActiveOver, StyledOver, WrapRows, Loses, HasColour, ShowsPlain, AllRows;
    if ls == [] {
      NoRows(width, w);
      NothingOver(a);
      NothingOver(b);
    } else {
      var l, rest := ls[0], ls[1..];
      var rows, more := WrapRows(l, width, w), AllRows(rest, width, w);
      assert ls == [l] + rest;
      AllRowsCons(l, rest, width, w);
      OverCons(l, rest, a);
      OverAppend(rows, more, b);
      RowsRead(l, width, w, b);
      var x := Active(l, a);
      var y := if Loses(l, width, w) then None else Active(l, b);
      RowsReadAlike(rest, width, w, x, y);
      NothingLostCons(l, rest, width, w);
      LineMatters(l, width, w, a, b);
      SameConcat(Styled(l, b), StyledOver(more, y), Styled(l, a), StyledOver(rest, x));
    }
  }

  lemma LineMatters(l: string, width: nat, w: CellWidth, a: Option<string>, b: Option<string>)
    ensures |Styled(l, a)| == |Styled(l, b)|
    ensures Styled(l, a) == Styled(l, b) <==> a == b || !ShowsPlain(l)
    ensures Loses(l, width, w) ==> Active(l, a) == Active(l, None) && Active(l, None).Some? && HasColour(l)
    ensures Active(l, a) == Active(l, b) <==> a == b || HasColour(l)
  {
    hide Active, Styled, HasColour, ShowsPlain, Width, Words;
    OwnColourWins(l, a);
    if a != b {
      ColourMatters(l, a, b);
    }
  }

  // ---- From lists of lines to the text -----------------------------------------------------------------------------

  /** Pieces that can be read one after the other. */
  predicate Readable(ts: seq<string>) {
    forall i :: 0 <= i < |ts| ==> Closed(ts[i]) && (i < |ts| - 1 ==> EndsClean(ts[i]))
  }

  lemma {:induction false} ReadThrough(ts: seq<string>, a: Option<string>)
    requires Readable(ts)
    ensures Closed(Concat(ts)) && Styled(Concat(ts), a) == StyledOver(ts, a) && Active(Concat(ts), a) == ActiveOver(ts, a)
    ensures (forall i :: 0 <= i < |ts| ==> EndsClean(ts[i])) ==> EndsClean(Concat(ts))
  {
    hide Closed, Active, Styled, ActiveOver, StyledOver, Concat, EndsClean;
    if ts == [] {
      NothingToRead(a);
    } else {
      var front, last := ts[..|ts| - 1], ts[|ts| - 1];
      assert ts == front + [last];
      ReadThrough(front, a);
      ConcatOne(front, last);
      CleanJoins(Concat(front), last);
      ClosedConcat(Concat(front), last);
      ActiveConcat(Concat(front), last, a);
      StyledConcat(Concat(front), last, a);
      OverSnoc(front, last, a);
      CleanEnds(Concat(front), last);
    }
  }

  lemma NothingToRead(a: Option<string>)
    ensures Concat([]) == "" && Closed("") && Styled("", a) == [] && Active("", a) == a && EndsClean("")
    ensures ActiveOver([], a) == a && StyledOver([], a) == []
  {
  }

  lemma CleanEnds(x: string, y: string)
    ensures EndsClean(x) && EndsClean(y) ==> EndsClean(x + y)
  {
    assert y != "" ==> (x + y)[|x + y| - 1] == y[|y| - 1];
    assert y == "" ==> x + y == x;
  }

  /** White space at the end of a line shows nothing and changes no colour. */
  predicate IsEnd(e: string) { e == "" || e == "\n" || e == "\r\n" }

  lemma EndFacts(e: string, a: Option<string>)
    requires IsEnd(e)
    ensures Closed(e) && Styled(e, a) == [] && Active(e, a) == a && (e != "" ==> e[0] != '[' && EndsClean(e))
  {
    assert "\r\n"[1..] == "\n" && "\n"[1..] == "";
  }

  lemma EndReads(l: string, e: string, a: Option<string>)
    requires Closed(l) && IsEnd(e)
    ensures Closed(l + e) && Styled(l + e, a) == Styled(l, a) && Active(l + e, a) == Active(l, a)
    ensures e != "" ==> EndsClean(l + e)
  {
    hide Closed, Active, Styled;
    EndFacts(e, a);
    EndFacts(e, Active(l, a));
    ClosedConcat(l, e);
    ActiveConcat(l, e, a);
    StyledConcat(l, e, a);
    assert Styled(l, a) + [] == Styled(l, a);
  }

  /** The lines with their ends; only the last one may have none. */
  ghost predicate Ended(ls: seq<string>, ts: seq<string>) {
    |ts| == |ls| && forall i :: 0 <= i < |ls| ==> HasEnd(ts[i], ls[i]) && (i < |ls| - 1 ==> ts[i] != ls[i])
  }

  lemma EndedFront(ls: seq<string>, ts: seq<string>)
    requires Ended(ls, ts) && ls != []
    ensures Ended(ls[..|ls| - 1], ts[..|ts| - 1])
  {
    hide HasEnd;
  }

  /** Lines with their ends read as the lines do. */
  lemma {:induction false} LinesRead(ls: seq<string>, ts: seq<string>, a: Option<string>)
    requires AllClosed(ls) && Ended(ls, ts)
    ensures Readable(ts) && StyledOver(ts, a) == StyledOver(ls, a) && ActiveOver(ts, a) == ActiveOver(ls, a)
  {
    hide Closed, Active, Styled;
    forall i | 0 <= i < |ts|
      ensures Closed(ts[i]) && (i < |ts| - 1 ==> EndsClean(ts[i]))
    {
      var e :| IsEnd(e) && ts[i] == ls[i] + e;
      assert e == "" ==> ts[i] == ls[i];
      EndReads(ls[i], e, a);
    }
    if ls != [] {
      var front := ls[..|ls| - 1];
      EndedFront(ls, ts);
      LinesRead(front, ts[..|ts| - 1], a);
      var e :| IsEnd(e) && ts[|ts| - 1] == ls[|ls| - 1] + e;
      EndReads(ls[|ls| - 1], e, ActiveOver(front, a));
    }
  }

  ghost predicate HasEnd(t: string, l: string) { exists e :: IsEnd(e) && t == l + e }

  lemma StrippedHasEnd(t: string)
    ensures HasEnd(t, StripEol(t)) && (Terminated(t) ==> t != StripEol(t))
  {
    if !Terminated(t) {
      assert t == StripEol(t) + "" && IsEnd("");
    } else if |t| >= 2 && t[|t| - 2] == '\r' {
      assert t == StripEol(t) + "\r\n" && IsEnd("\r\n");
    } else {
      assert t == StripEol(t) + "\n" && IsEnd("\n");
    }
  }

  lemma TextReads(text: string)
    requires AllClosed(Lines(text))
    ensures Styled(text, None) == StyledOver(Lines(text), None)
  {
    hide Closed, Active, Styled, ActiveOver, StyledOver, Concat, SplitInclusive, HasEnd;
    ConcatOfSplit(text);
    TextEnds(text);
    LinesRead(Lines(text), SplitInclusive(text), None);
    ReadThrough(SplitInclusive(text), None);
  }

  lemma TextEnds(text: string)
    ensures Ended(Lines(text), SplitInclusive(text))
  {
    hide SplitInclusive, HasEnd, StripEol;
    var ts := SplitInclusive(text);
    SplitIsSplit(text);
    forall i | 0 <= i < |ts|
      ensures HasEnd(ts[i], Lines(text)[i]) && (i < |ts| - 1 ==> ts[i] != Lines(text)[i])
    {
      StrippedHasEnd(ts[i]);
    }
  }

  lemma UnlinesReads(rows: seq<string>, closed: bool)
    requires AllClosed(rows) && rows != []
    ensures Styled(Unlines(rows, closed), None) == StyledOver(rows, None)
  {
    hide Closed, Active, Styled, ActiveOver, StyledOver, Concat, Joined, HasEnd;
    UnlinesIsConcat(rows, closed);
    RowsEnd(rows, closed);
    LinesRead(rows, Terminators(rows, closed), None);
    ReadThrough(Terminators(rows, closed), None);
  }

  lemma RowsEnd(rows: seq<string>, closed: bool)
    ensures Ended(rows, Terminators(rows, closed))
  {
    hide HasEnd;
    forall i | 0 <= i < |rows|
      ensures var t := Terminators(rows, closed)[i]; HasEnd(t, rows[i]) && (i < |rows| - 1 ==> t != rows[i])
    {
      RowHasEnd(rows[i], i < |rows| - 1 || closed);
    }
  }

  lemma RowHasEnd(row: string, closed: bool)
    ensures HasEnd(if closed then row + "\n" else row, row) && row + "\n" != row
  {
    assert IsEnd("\n") && IsEnd("") && row == row + "";
    assert |row + "\n"| == |row| + 1;
  }

  lemma {:induction false} AllRowsAreClosed(ls: seq<string>, width: nat, w: CellWidth)
    requires AllClosed(ls)
    ensures AllClosed(AllRows(ls, width, w))
  {
    hide WrapRows, Closed;
    if ls != [] {
      AllRowsAreClosed(ls[..|ls| - 1], width, w);
      RowsAreClosed(ls[|ls| - 1], width, w);
    }
  }

  /** MAIN: a wrapped text shows every character in the colour it had exactly when no split line leaves a
      colour active that a character behind it would still have shown. */
  lemma TextKeepsStyle(text: string, width: nat, w: CellWidth)
    requires AllClosed(Lines(text))
    ensures Styled(Wrapped(text, width, w), None) == Styled(text, None) <==> NothingLost(Lines(text), width, w)
  {
    hide Closed, Active, Styled, ActiveOver, StyledOver, WrapRows, Joined, Lines, AllRows, NothingLost, Unlines;
    var ls := Lines(text);
    TextReads(text);
    RowsReadAlike(ls, width, w, None, None);
    if text == "" {
      EmptyText(width, w);
      NothingToLose(width, w);
    } else {
      AllRowsAreClosed(ls, width, w);
      LinesAreFree(text);
      AllRowsExist(ls, width, w);
      UnlinesReads(AllRows(ls, width, w), EndsInNewline(text));
    }
  }

  lemma NothingToLose(width: nat, w: CellWidth)
    ensures NothingLost([], width, w)
  {
  }

  // ---- The words of a whole text -------------------------------------------------------------------------------------

  /** Read to its end, no word is under way. */
  predicate Flushed(s: string) { Closed(s) && EndsClean(s) && Scan(s, TOK0).current == "" }

  lemma FlushedThen(s: string, t: string)
    requires Flushed(s)
    ensures VisibleWords(s + t) == VisibleWords(s) + VisibleWords(t)
    ensures Flushed(t) ==> Flushed(s + t)
  {
    hide Closed, Strip, Scan;
    CleanJoins(s, t);
    ScanConcat(s, t, TOK0);
    var f, r := Scan(s, TOK0), Scan(t, TOK0);
    ScanPrefix(t, TOK0, f.words);
    assert f.words + [] == f.words;
    VisibleConcat(f.words, Flush(r).words);
    assert Flush(Tok(f.words + r.words, r.current)).words == f.words + Flush(r).words;
    if Flushed(t) {
      ClosedConcat(s, t);
      CleanEnds(s, t);
    }
  }

  lemma EndFlushes(e: string, t: Tok)
    requires IsEnd(e) && e != ""
    ensures Scan(e, t) == Flush(t)
  {
    assert "\r\n"[1..] == "\n" && "\n"[1..] == "";
  }

  lemma EndShows(l: string, e: string)
    requires Closed(l) && IsEnd(e)
    ensures VisibleWords(l + e) == VisibleWords(l) && (e != "" ==> Flushed(l + e))
  {
    hide Closed, Strip, Scan;
    EndFacts(e, None);
    if e != "" {
      EndReads(l, e, None);
      ScanConcat(l, e, TOK0);
      EndFlushes(e, Scan(l, TOK0));
    } else {
      assert l + e == l;
    }
  }

  lemma {:induction false} WordsThrough(ls: seq<string>, ts: seq<string>)
    requires AllClosed(ls) && Ended(ls, ts)
    ensures VisibleWords(Concat(ts)) == LinesVisible(ls)
    ensures (ts == [] || ts[|ts| - 1] != ls[|ls| - 1]) ==> Flushed(Concat(ts))
  {
    hide Closed, VisibleWords, Flushed, Concat, IsEnd;
    if ls == [] {
      NothingRead();
    } else {
      var front, last := ts[..|ts| - 1], ts[|ts| - 1];
      EndedFront(ls, ts);
      WordsThrough(ls[..|ls| - 1], front);
      var e :| IsEnd(e) && last == ls[|ls| - 1] + e;
      EndShows(ls[|ls| - 1], e);
      assert e == "" ==> last == ls[|ls| - 1];
      assert ts == front + [last];
      ConcatOne(front, last);
      FlushedThen(Concat(front), last);
    }
  }

  lemma NothingRead()
    ensures VisibleWords(Concat([])) == [] && Flushed(Concat([]))
  {
  }

  lemma {:induction false} VisibleAppend(xs: seq<string>, ys: seq<string>)
    ensures LinesVisible(xs + ys) == LinesVisible(xs) + LinesVisible(ys)
  {
    hide VisibleWords;
    if ys == [] {
      assert xs + ys == xs;
    } else {
      assert (xs + ys)[..|xs + ys| - 1] == xs + ys[..|ys| - 1];
      VisibleAppend(xs, ys[..|ys| - 1]);
    }
  }

  lemma {:induction false} AllRowsShow(ls: seq<string>, width: nat, w: CellWidth)
    ensures LinesVisible(AllRows(ls, width, w)) == LinesVisible(ls)
  {
    hide WrapRows, VisibleWords;
    if ls != [] {
      AllRowsShow(ls[..|ls| - 1], width, w);
      WrapFitsAndShowsAllWords(ls[|ls| - 1], width, w);
      VisibleAppend(AllRows(ls[..|ls| - 1], width, w), WrapRows(ls[|ls| - 1], width, w));
    }
  }

  /** A wrapped text has the visible words of the text, in order. */
  lemma TextKeepsWords(text: string, width: nat, w: CellWidth)
    requires AllClosed(Lines(text))
    ensures VisibleWords(Wrapped(text, width, w)) == VisibleWords(text)
  {
    hide Closed, WrapRows, Joined, Lines, AllRows, VisibleWords, SplitInclusive, Concat, Ended;
    var ls := Lines(text);
    ConcatOfSplit(text);
    TextEnds(text);
    WordsThrough(ls, SplitInclusive(text));
    if text == "" {
      EmptyText(width, w);
    } else {
      var rows, closed := AllRows(ls, width, w), EndsInNewline(text);
      AllRowsShow(ls, width, w);
      AllRowsAreClosed(ls, width, w);
      LinesAreFree(text);
      AllRowsExist(ls, width, w);
      UnlinesIsConcat(rows, closed);
      RowsEnd(rows, closed);
      WordsThrough(rows, Terminators(rows, closed));
    }
  }

  // ---- A colour that runs on is lost ---------------------------------------------------------------------------------

  /** Behind a split line that leaves a colour active, a plain line changes its colour. */
  lemma RunOnColourIsLost(l: string, width: nat, w: CellWidth)
    requires Closed(l) && Free(l, '\n') && !EndsInReturn(l) && Loses(l, width, w)
    ensures var text := l + "\n" + "x"; Styled(Wrapped(text, width, w), None) != Styled(text, None)
  {
    hide Closed, Active, Styled, WrapRows, Joined, AllRows, Wrapped, Loses, SplitInclusive, Concat, Free;
    var text := l + "\n" + "x";
    LinesOfTwo(l);
    PlainX();
    var ls := Lines(text);
    assert ls[0 + 1..] == ["x"];
    TextKeepsStyle(text, width, w);
  }

  lemma PlainX()
    ensures Closed("x") && ShowsPlain("x") && ShowsPlainFirst(["x"])
  {
    assert "x"[0] == 'x' && "x"[1..] == "";
  }

  lemma LinesOfTwo(l: string)
    requires Free(l, '\n') && !EndsInReturn(l)
    ensures Lines(l + "\n" + "x") == [l, "x"]
  {
    hide Concat, SplitInclusive, StripEol, IsLine, Terminated;
    var rows := [l, "x"];
    assert Joined(rows) == l + "\n" + "x" by {
      JoinedOne(l);
      JoinedSnoc([l], "x");
      assert [l] + ["x"] == rows;
    }
    assert Unlines(rows, false) == l + "\n" + "x" + "";
    assert l + "\n" + "x" + "" == l + "\n" + "x";
    assert Free("x", '\n');
    LinesOfUnlines(rows, false);
    assert ReadBack(rows, false) == rows;
  }

  lemma {:induction false} PlainText(s: string)
    requires ESC !in s
    ensures Closed(s) && Strip(s) == s && !HasColour(s)
    decreases |s|
  {
    if s != "" {
      assert s[0] in s;
      PlainText(s[1..]);
      assert s == [s[0]] + s[1..];
    }
  }

  const RED := [ESC, '[', '3', '1', 'm']

  function Long(n: nat): string { seq(n, _ => 'a') }

  /** A red line of 43 cells without a reset. */
  function RedLine(): string { RED + Long(41) + " b" }

  lemma RedIsSequence()
    ensures IsSequence(RED) && AfterUnit(RED, None) == Some(RED)
  {
    assert RED[2..] == "31m" && "31m"[1..] == "1m" && "1m"[1..] == "m" && "m"[1..] == "";
    assert ToLetter("m") == 1 && ToLetter("1m") == 2 && ToLetter("31m") == 3;
    assert IsLetter(RED[2..][2]);
    assert TrimOpeners("31m") == "31m" && TrimOpeners(RED) == "31m";
    assert "0;"[0] != "31m"[0];
  }

  function Ones(): CellWidth { (c: char) => 1 }

  lemma {:induction false} OnesCount(s: string)
    ensures Cells(s, Ones()) == |s|
  {
    if s != "" {
      OnesCount(s[1..]);
    }
  }

  lemma {:induction false} LongIsSolid(s: string)
    requires ESC !in s && forall i :: 0 <= i < |s| ==> !IsWhitespace(s[i])
    ensures Solid(s)
    decreases |s|
  {
    if s != "" {
      assert s[0] in s;
      LongIsSolid(s[1..]);
    }
  }

  lemma RedLineLoses()
    ensures var l := RedLine(); Closed(l) && Free(l, '\n') && !EndsInReturn(l) && Loses(l, 40, Ones())
  {
    hide Closed, Active, Strip, Scan, Solid, Cells, HasColour;
    var word, l := RED + Long(41), RedLine();
    var tail := Long(41) + " b";
    assert l == RED + tail && l == word + " b";
    RedIsSequence();
    SequenceFacts(RED, None);
    PlainText(tail);
    ClosedConcat(RED, tail);
    ActiveConcat(RED, tail, None);
    NoColourKeeps(tail, Some(RED));
    StripConcat(RED, tail);
    assert "" + tail == tail;
    OnesCount(tail);
    RedWords(word);
  }

  lemma RedWords(word: string)
    requires word == RED + Long(41)
    ensures |Words(word + " b")| == 2
  {
    hide Closed, Strip, Solid, Scan, IsSequence, RED, Long;
    assert word != "" && ESC !in Long(41) && (forall i :: 0 <= i < 41 ==> Long(41)[i] == 'a') && |Long(41)| == 41 by { LongLetters(); }
    RedIsSequence();
    SequenceFacts(RED, None);
    PlainText(Long(41));
    LongIsSolid(Long(41));
    assert Joins(RED, Long(41));
    SolidConcat(RED, Long(41));
    ClosedConcat(RED, Long(41));
    TwoWords(word);
  }

  lemma LongLetters()
    ensures |Long(41)| == 41 && (forall i :: 0 <= i < 41 ==> Long(41)[i] == 'a') && ESC !in Long(41)
  {
  }

  lemma TwoWords(word: string)
    requires word != "" && Closed(word) && Solid(word)
    ensures |Words(word + " b")| == 2
  {
    hide Closed, Solid, Scan;
    ScanSolid(word, TOK0);
    ScanConcat(word, " b", TOK0);
    assert "" + word == word;
    SpaceB(Tok([], word));
  }

  lemma SpaceB(t: Tok)
    requires t.current != ""
    ensures Scan(" b", t) == Tok(t.words + [t.current], "b")
  {
    hide Scan;
    ScanUnfolds(" b", t);
    ScanUnfolds("b", Flush(t));
    ScanUnfolds("", Tok(t.words + [t.current], "b"));
    assert " b"[1..] == "b" && "b"[1..] == "" && "b"[..1] == "b" && "" + "b" == "b";
  }

  /** MAIN: so the colours of a whole text can change. */
  lemma ColoursCanChange()
    ensures var text := RedLine() + "\n" + "x"; Styled(Wrapped(text, 40, Ones()), None) != Styled(text, None)
  {
    hide RedLine, Closed, Free, Loses, Styled, Wrapped;
    RedLineLoses();
    RunOnColourIsLost(RedLine(), 40, Ones());
  }
}
