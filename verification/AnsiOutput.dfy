/** Wrapping a line and a whole text: the loops, and what can be said about what they print. */
module AnsiOutput {
  import opened Wrappers
  import opened Text
  import opened AnsiText
  import opened AnsiWrap
  import opened AnsiFill
  import opened AnsiStyle
  import opened AnsiLines

  /** Lines separated by `\n`. */
  function Joined(lines: seq<string>): string {
    if lines == [] then ""
    else if |lines| == 1 then lines[0]
    else Joined(lines[..|lines| - 1]) + "\n" + lines[|lines| - 1]
  }

  lemma JoinedSnoc(lines: seq<string>, line: string)
    requires lines != []
    ensures Joined(lines + [line]) == Joined(lines) + "\n" + line
  {
    assert (lines + [line])[..|lines|] == lines;
  }

  lemma JoinedLonger(lines: seq<string>, line: string, x: string)
    ensures Joined(lines + [line]) + x == Joined(lines + [line + x])
  {
    if lines != [] {
      JoinedSnoc(lines, line);
      JoinedSnoc(lines, line + x);
    } else {
      assert lines + [line] == [line] && lines + [line + x] == [line + x];
    }
  }

  // ---- One line --------------------------------------------------------------------------------------------

  /** `wrap_ansi_line_for_width`. */
  method WrapLine(line: string, width: nat, w: CellWidth) returns (out: string)
    ensures out == Joined(WrapRows(line, width, w))
  {
    hide Words, Scan, Strip, Active, Hang, Fill, Joined;
    var limit := Clamp(width);
    var plain := StripAnsi(line);
    JoinedOne(line);
    if Cells(plain, w) <= limit {
      return line;
    }
    var indent, hang := IndentOf(line), Hang(line);
    var words := AnsiWords(line[indent..]);
    if |words| <= 1 {
      return line;
    }

    out := Spaces(indent);
    var lineWidth := indent;
    var active: Option<string> := None;
    var wroteWord := false;
    ghost var p := Start(indent);
    FillStarts(words, indent, hang, limit, w);
    assert Spaces(indent) + "" == Spaces(indent);
    JoinedOne(out);
    for i := 0 to |words|
      invariant p == Fill(words, i, indent, hang, limit, w)
      invariant out == Joined(p.lines + [p.stem + p.last])
      invariant lineWidth == p.width && active == p.active && (wroteWord <==> p.count > 0)
      invariant p.count == 0 ==> p.last == ""
    {
      var word := words[i];
      var visible := StripAnsi(word);
      var wordWidth := Cells(visible, w);
      ghost var before := p;
      p := Place(p, word, hang, limit, w);
      FillStep(words, i, indent, hang, limit, w);
      if wroteWord && lineWidth + 1 + wordWidth > limit {
        BreakText(before, word, hang, limit, w);
        out := out + Close(active) + "\n" + Spaces(hang) + Open(active);
        lineWidth := hang;
        wroteWord := false;
      } else {
        StayText(before, word, hang, limit, w);
      }
      if wroteWord {
        out := out + " ";
        lineWidth := lineWidth + 1;
      }
      out := out + word;
      lineWidth := lineWidth + wordWidth;
      active := UpdateActive(word, active);
      wroteWord := true;
    }
    JoinedLonger(p.lines, p.stem + p.last, Close(active));
    if active.Some? {
      out := out + RESET;
    } else {
      assert out + "" == out;
    }
  }

  lemma JoinedOne(line: string)
    ensures Joined([line]) == line && [] + [line] == [line]
  {
  }

  lemma FillStarts(words: seq<string>, indent: nat, hang: nat, limit: nat, w: CellWidth)
    ensures Fill(words, 0, indent, hang, limit, w) == Start(indent)
  {
  }

  lemma FillStep(words: seq<string>, i: nat, indent: nat, hang: nat, limit: nat, w: CellWidth)
    requires i < |words|
    ensures Fill(words, i + 1, indent, hang, limit, w) == Place(Fill(words, i, indent, hang, limit, w), words[i], hang, limit, w)
  {
  }

  lemma BreakText(p: Page, word: string, hang: nat, limit: nat, w: CellWidth)
    requires Breaks(p, word, limit, w)
    ensures var q := Place(p, word, hang, limit, w);
      Joined(q.lines + [q.stem + q.last])
        == Joined(p.lines + [p.stem + p.last]) + Close(p.active) + "\n" + Spaces(hang) + Open(p.active) + word
  {
    hide Joined, Width, Active;
    var line := p.stem + p.last;
    var next := Spaces(hang) + Open(p.active) + word;
    JoinedLonger(p.lines, line, Close(p.active));
    JoinedSnoc(p.lines + [line + Close(p.active)], next);
    var head := Joined(p.lines + [line]) + Close(p.active) + "\n";
    assert head + next == head + Spaces(hang) + Open(p.active) + word;
  }

  lemma StayText(p: Page, word: string, hang: nat, limit: nat, w: CellWidth)
    requires !Breaks(p, word, limit, w) && (p.count == 0 ==> p.last == "")
    ensures var q := Place(p, word, hang, limit, w);
      Joined(q.lines + [q.stem + q.last])
        == if p.count > 0 then Joined(p.lines + [p.stem + p.last]) + " " + word else Joined(p.lines + [p.stem + p.last]) + word
  {
    hide Joined, Width, Active;
    var line := p.stem + p.last;
    if p.count > 0 {
      JoinedLonger(p.lines, line, " ");
      JoinedLonger(p.lines, line + " ", word);
    } else {
      assert line == p.stem;
      JoinedLonger(p.lines, line, word);
    }
  }

  /** Leading spaces hold no words. */
  lemma WordsAfterIndent(line: string)
    ensures Words(line[IndentOf(line)..]) == Words(line)
    ensures Closed(line[IndentOf(line)..]) <==> Closed(line)
    ensures forall active :: Styled(line[IndentOf(line)..], active) == Styled(line, active)
  {
    hide Closed, Strip, Scan, Styled;
    var n := IndentOf(line);
    var pad, rest := Spaces(n), line[n..];
    assert line == pad + rest;
    SpacesFacts(n, TOK0);
    PadScans(n);
    CleanJoins(pad, rest);
    ScanConcat(pad, rest, TOK0);
    ClosedConcat(pad, rest);
    forall active
      ensures Styled(rest, active) == Styled(line, active)
    {
      StyledConcat(pad, rest, active);
      assert [] + Styled(rest, active) == Styled(rest, active);
    }
  }

  /** The words of a line, one after the other, show its characters in its colours and leave its colour. */
  lemma WordsRead(line: string, b: Option<string>)
    ensures var words := Words(line[IndentOf(line)..]);
      StyledOver(words, b) == Styled(line, b) && ActiveOver(words, b) == Active(line, b)
  {
    hide Closed, Strip, Scan, Styled, Active, ActiveOver, StyledOver, Solid;
    var n := IndentOf(line);
    var pad, rest := Spaces(n), line[n..];
    assert line == pad + rest;
    SpacesFacts(n, TOK0);
    CleanJoins(pad, rest);
    ActiveConcat(pad, rest, b);
    WordsAfterIndent(line);
    var r := Scan(rest, TOK0);
    ScanKeepsStyle(rest, TOK0, b) by { EmptyIsOpener(); }
    EmptyWordAddsNothing([], b);
    NothingOver(b);
    assert [] + [""] == [""];
    if r.current == "" {
      EmptyWordAddsNothing(r.words, b);
    }
    assert [] + Styled(rest, b) == Styled(rest, b);
  }

  lemma NothingOver(b: Option<string>)
    ensures ActiveOver([], b) == b && StyledOver([], b) == []
  {
  }

  /** MAIN: every printed line fits the clamped width or holds at most one word, and the lines
      together show the words of the input in order. */
  lemma WrapFitsAndShowsAllWords(line: string, width: nat, w: CellWidth)
    ensures var rows := WrapRows(line, width, w);
      && rows != []
      && (forall i :: 0 <= i < |rows| ==> Width(rows[i], w) <= Clamp(width) || |Words(rows[i])| <= 1)
      && (rows != [line] ==> forall i :: 0 <= i < |rows| ==> Fits(rows[i], Clamp(width), w))
      && (forall i :: 0 <= i < |rows| - 1 ==> Closed(rows[i]))
      && LinesVisible(rows) == VisibleWords(line)
  {
    hide Closed, Strip, Scan, Words, Fill, Width, Hang;
    WordsAfterIndent(line);
    var words := Words(line[IndentOf(line)..]);
    WordsAreWords(line[IndentOf(line)..]);
    assert LinesVisible([line]) == VisibleWords(line) by {
      LinesVisibleSnoc([], line);
      assert [] + [line] == [line] && [] + VisibleWords(line) == VisibleWords(line);
    }
    if !(Width(line, w) <= Clamp(width) || |words| <= 1) {
      FinishedLines(words, IndentOf(line), Hang(line), Clamp(width), w);
    }
  }

  /** MAIN: every visible character of a line is printed under the very colour sequence it had in the
      input, and each printed line of a rewritten line ends with no colour active, but for the last one
      if the input ends inside a control sequence. */
  lemma WrapKeepsStyle(line: string, width: nat, w: CellWidth)
    ensures var rows := WrapRows(line, width, w);
      && (forall i :: 0 <= i < |rows| - 1 ==> Active(rows[i], None) == None)
      && (rows != [line] && Closed(line) ==> Active(rows[|rows| - 1], None) == None)
      && StyledLines(rows) == Styled(line, None)
  {
    hide Closed, Strip, Scan, Words, Fill, Width, Hang, Styled, Active, StyledOver, Solid;
    WordsAfterIndent(line);
    WrapFitsAndShowsAllWords(line, width, w);
    var rest := line[IndentOf(line)..];
    var words := Words(rest);
    WordsAreWords(rest);
    WordsKeepStyle(rest);
    assert StyledLines([line]) == Styled(line, None) by {
      StyledLinesSnoc([], line);
      assert [] + [line] == [line] && [] + Styled(line, None) == Styled(line, None);
    }
    if !(Width(line, w) <= Clamp(width) || |words| <= 1) {
      FinishedStyle(words, IndentOf(line), Hang(line), Clamp(width), w);
    }
  }

  // ---- The printed text as a whole ----------------------------------------------------------------------------

  /** Reading the joined lines is reading them one after the other. */
  lemma {:induction false} JoinedShows(lines: seq<string>)
    requires forall i :: 0 <= i < |lines| - 1 ==> Closed(lines[i])
    ensures VisibleWords(Joined(lines)) == LinesVisible(lines)
    ensures lines != [] && Closed(lines[|lines| - 1]) ==> Closed(Joined(lines))
  {
    hide Closed, Strip, Scan, VisibleWords;
    if lines == [] {
      NothingShown();
    } else {
      var front, last := lines[..|lines| - 1], lines[|lines| - 1];
      assert lines == front + [last];
      JoinedShows(front);
      LinesVisibleSnoc(front, last);
      if front == [] {
        JoinedOne(last);
        assert front + [last] == [last];
        assert LinesVisible([]) + VisibleWords(last) == VisibleWords(last);
      } else {
        JoinedSnoc(front, last);
        NewlineBetween(Joined(front), last);
      }
    }
  }

  lemma NothingShown()
    ensures VisibleWords("") == [] && Closed("")
  {
  }

  lemma NewlineFacts(t: Tok)
    ensures Closed("\n") && Scan("\n", t) == Flush(t)
    ensures forall active :: Active("\n", active) == active && Styled("\n", active) == []
  {
    assert "\n"[1..] == "";
  }

  lemma {:induction false} ScanPrefix(s: string, t: Tok, done: seq<string>)
    ensures Scan(s, Tok(done + t.words, t.current)) == Tok(done + Scan(s, t).words, Scan(s, t).current)
    decreases |s|
  {
    if s != "" {
      var n := Unit(s);
      if !StartsCsi(s) && IsWhitespace(s[0]) {
        assert done + (t.words + [t.current]) == done + t.words + [t.current];
        ScanPrefix(s[n..], Flush(t), done);
      } else {
        ScanPrefix(s[n..], Tok(t.words, t.current + s[..n]), done);
      }
    }
  }

  lemma NewlineBetween(a: string, b: string)
    requires Closed(a)
    ensures VisibleWords(a + "\n" + b) == VisibleWords(a) + VisibleWords(b)
    ensures Closed(b) ==> Closed(a + "\n" + b)
  {
    hide Closed, Strip, Scan;
    NewlineFacts(Scan(a, TOK0));
    ScanConcat(a, "\n", TOK0);
    ClosedConcat(a, "\n");
    CleanJoins(a + "\n", b);
    ScanConcat(a + "\n", b, TOK0);
    ClosedConcat(a + "\n", b);
    var f, r := Flush(Scan(a, TOK0)), Scan(b, TOK0);
    ScanPrefix(b, TOK0, f.words);
    assert f.words + [] == f.words;
    assert Flush(Tok(f.words + r.words, r.current)).words == f.words + Flush(r).words;
    VisibleConcat(f.words, Flush(r).words);
  }

  /** The printed string shows exactly the words of the input line. */
  lemma PrintedWords(line: string, width: nat, w: CellWidth)
    ensures VisibleWords(Joined(WrapRows(line, width, w))) == VisibleWords(line)
  {
    WrapFitsAndShowsAllWords(line, width, w);
    JoinedShows(WrapRows(line, width, w));
  }

  lemma {:induction false} JoinedStyle(lines: seq<string>)
    requires forall i :: 0 <= i < |lines| - 1 ==> Closed(lines[i]) && Active(lines[i], None) == None
    ensures Styled(Joined(lines), None) == StyledLines(lines)
    ensures lines != [] && Closed(lines[|lines| - 1]) && Active(lines[|lines| - 1], None) == None ==>
      Closed(Joined(lines)) && Active(Joined(lines), None) == None
  {
    hide Closed, Active, Styled;
    if lines == [] {
      NothingStyled();
    } else {
      var front, last := lines[..|lines| - 1], lines[|lines| - 1];
      assert lines == front + [last];
      JoinedStyle(front);
      StyledLinesSnoc(front, last);
      if front == [] {
        JoinedOne(last);
        assert StyledLines([]) + Styled(last, None) == Styled(last, None);
      } else {
        JoinedSnoc(front, last);
        NewlineStyle(Joined(front), last);
      }
    }
  }

  lemma NothingStyled()
    ensures Closed("") && Active("", None) == None && Styled("", None) == []
  {
  }

  lemma NewlineStyle(a: string, b: string)
    requires Closed(a) && Active(a, None) == None
    ensures Active(a + "\n" + b, None) == Active(b, None)
    ensures Styled(a + "\n" + b, None) == Styled(a, None) + Styled(b, None)
    ensures Closed(b) ==> Closed(a + "\n" + b)
  {
    hide Closed, Active, Styled;
    NewlineFacts(TOK0);
    ClosedConcat(a, "\n");
    ActiveConcat(a, "\n", None);
    StyledConcat(a, "\n", None);
    CleanJoins(a + "\n", b);
    ClosedConcat(a + "\n", b);
    ActiveConcat(a + "\n", b, None);
    StyledConcat(a + "\n", b, None);
    assert Styled(a, None) + [] == Styled(a, None);
  }

  /** The printed string colours every visible character as the input line did. */
  lemma PrintedStyle(line: string, width: nat, w: CellWidth)
    ensures Styled(Joined(WrapRows(line, width, w)), None) == Styled(line, None)
  {
    hide Closed, Active, Styled, StyledLines, WrapRows, Width, Words;
    WrapKeepsStyle(line, width, w);
    WrapFitsAndShowsAllWords(line, width, w);
    JoinedStyle(WrapRows(line, width, w));
  }

  lemma RowsAreClosed(line: string, width: nat, w: CellWidth)
    requires Closed(line)
    ensures var rows := WrapRows(line, width, w); forall i :: 0 <= i < |rows| ==> Closed(rows[i])
  {
    hide Closed, Strip, Scan, Words, Fill, Width, Hang, Styled, Active;
    WrapFitsAndShowsAllWords(line, width, w);
    WordsAfterIndent(line);
    var rest := line[IndentOf(line)..];
    var words := Words(rest);
    WordsAreWords(rest);
    if !(Width(line, w) <= Clamp(width) || |words| <= 1) {
      LastRowClosed(words, IndentOf(line), Hang(line), Clamp(width), w);
    }
  }

  lemma LastRowClosed(words: seq<string>, indent: nat, hang: nat, limit: nat, w: CellWidth)
    requires AllClosed(words)
    ensures var rows := Finish(Fill(words, |words|, indent, hang, limit, w)); Closed(rows[|rows| - 1])
  {
    hide Closed, Active, Styled, StyledLines, StyledOver, ActiveOver, Fill;
    var p := Fill(words, |words|, indent, hang, limit, w);
    FillKeepsStyle(words, |words|, indent, hang, limit, w);
    WordBehind(p.stem, p.last);
    ClosedLineStyle(p.stem + p.last, p.active);
  }
}
