/** Colours across the words of a line and across the lines of its wrapped form. */
module AnsiStyle {
  import opened Wrappers
  import opened Text
  import opened AnsiText
  import opened AnsiWrap
  import opened AnsiFill

  type Shown = seq<(char, Option<string>)>

  // ---- Over a sequence of words ---------------------------------------------------------------------------

  function ActiveOver(ws: seq<string>, active: Option<string>): Option<string> {
    if ws == [] then active else Active(ws[|ws| - 1], ActiveOver(ws[..|ws| - 1], active))
  }

  function StyledOver(ws: seq<string>, active: Option<string>): Shown {
    if ws == [] then []
    else StyledOver(ws[..|ws| - 1], active) + Styled(ws[|ws| - 1], ActiveOver(ws[..|ws| - 1], active))
  }

  lemma OverSnoc(ws: seq<string>, word: string, active: Option<string>)
    ensures ActiveOver(ws + [word], active) == Active(word, ActiveOver(ws, active))
    ensures StyledOver(ws + [word], active) == StyledOver(ws, active) + Styled(word, ActiveOver(ws, active))
  {
    assert (ws + [word])[..|ws|] == ws;
  }

  /** Extending the last word by a unit. */
  lemma OverLonger(ws: seq<string>, cur: string, u: string, active: Option<string>)
    requires Closed(cur) && Joins(cur, u)
    ensures ActiveOver(ws + [cur + u], active) == Active(u, ActiveOver(ws + [cur], active))
    ensures StyledOver(ws + [cur + u], active) == StyledOver(ws + [cur], active) + Styled(u, ActiveOver(ws + [cur], active))
  {
    hide Active, Styled, ActiveOver, StyledOver, Closed;
    OverSnoc(ws, cur, active);
    OverSnoc(ws, cur + u, active);
    ActiveConcat(cur, u, ActiveOver(ws, active));
    StyledConcat(cur, u, ActiveOver(ws, active));
    Associates(StyledOver(ws, active), Styled(cur, ActiveOver(ws, active)), Styled(u, ActiveOver(ws + [cur], active)));
  }

  /** One unit alone. */
  lemma OneUnit(s: string, active: Option<string>)
    requires s != "" && (StartsCsi(s) ==> HasLetter(s[2..]))
    ensures var u := s[..Unit(s)];
      && Active(u, active) == AfterUnit(u, active)
      && Styled(u, active) == Ink(s, active)
  {
    var u := s[..Unit(s)];
    if StartsCsi(s) {
      UnitIsSequence(s);
      SequenceFacts(u, active);
    } else {
      assert u[Unit(u)..] == "" && u[..Unit(u)] == u;
      assert Styled(u, active) == Ink(u, active) + [];
    }
  }

  function AllWords(t: Tok): seq<string> { t.words + [t.current] }

  lemma EmptyWordAddsNothing(ws: seq<string>, active: Option<string>)
    ensures ActiveOver(ws + [""], active) == ActiveOver(ws, active)
    ensures StyledOver(ws + [""], active) == StyledOver(ws, active)
  {
    OverSnoc(ws, "", active);
    assert StyledOver(ws, active) + [] == StyledOver(ws, active);
  }

  /** Cutting a text into words loses no character and changes no colour. */
  lemma {:induction false} ScanKeepsStyle(s: string, t: Tok, active: Option<string>)
    requires Closed(t.current) && Joins(t.current, s)
    ensures ActiveOver(AllWords(Scan(s, t)), active) == Active(s, ActiveOver(AllWords(t), active))
    ensures StyledOver(AllWords(Scan(s, t)), active)
         == StyledOver(AllWords(t), active) + Styled(s, ActiveOver(AllWords(t), active))
    decreases |s|
  {
    hide ActiveOver, StyledOver, Active, Styled, Closed, Unit, AfterUnit, Ink, Scan, HasLetter;
    ScanUnfolds(s, t);
    ActiveUnfolds(s, ActiveOver(AllWords(t), active));
    if s != "" {
      var n := Unit(s);
      var u := s[..n];
      var before := ActiveOver(AllWords(t), active);
      UnitFacts(s);
      StyledUnfolds(s, before);
      if StartsCsi(s) && !HasLetter(s[2..]) {
        OpenIsOneUnit(s);
        OverLonger(t.words, t.current, s, active);
        ScanUnfolds("", Tok(t.words, t.current + s));
      } else if !StartsCsi(s) && IsWhitespace(s[0]) {
        OneUnit(s, before);
        var f := Flush(t);
        if t.current != "" {
          EmptyWordAddsNothing(AllWords(t), active);
        }
        ScanKeepsStyle(s[n..], f, active) by { EmptyIsOpener(); }
        BlankHasNoInk(s, before);
        assert [] + Styled(s[n..], before) == Styled(s[n..], before);
      } else {
        OneUnit(s, before);
        assert Joins(t.current, u);
        OverLonger(t.words, t.current, u, active);
        ClosedConcat(t.current, u);
        assert Joins(t.current + u, s[n..]);
        ScanKeepsStyle(s[n..], Tok(t.words, t.current + u), active);
        Associates(StyledOver(AllWords(t), active), Ink(s, before), Styled(s[n..], AfterUnit(u, before)));
      }
    } else {
      assert Styled(s, ActiveOver(AllWords(t), active)) == [] by { NothingIsStyled(ActiveOver(AllWords(t), active)); }
      assert StyledOver(AllWords(t), active) + [] == StyledOver(AllWords(t), active);
    }
  }

  /** A control sequence left open runs to the end of the text. */
  lemma OpenIsOneUnit(s: string)
    requires StartsCsi(s) && !HasLetter(s[2..])
    ensures Unit(s) == |s| && s[..Unit(s)] == s && s[Unit(s)..] == ""
  {
    OpenUnit(s);
  }

  lemma NothingIsStyled(active: Option<string>)
    ensures Styled("", active) == []
  {
  }

  lemma BlankHasNoInk(s: string, active: Option<string>)
    requires s != "" && !StartsCsi(s) && IsWhitespace(s[0])
    ensures Ink(s, active) == [] && AfterUnit(s[..Unit(s)], active) == active
  {
  }

  lemma ScanUnfolds(s: string, t: Tok)
    ensures s == "" ==> Scan(s, t) == t
    ensures s != "" ==>
      Scan(s, t) == Scan(s[Unit(s)..], if !StartsCsi(s) && IsWhitespace(s[0]) then Flush(t) else Tok(t.words, t.current + s[..Unit(s)]))
  {
  }

  lemma ActiveUnfolds(s: string, active: Option<string>)
    ensures s == "" ==> Active(s, active) == active
    ensures s != "" ==> Active(s, active) == Active(s[Unit(s)..], AfterUnit(s[..Unit(s)], active))
  {
  }

  lemma WordsKeepStyle(s: string)
    ensures StyledOver(Words(s), None) == Styled(s, None)
  {
    hide Active, Styled, Scan, Closed;
    var r := Scan(s, TOK0);
    ScanKeepsStyle(s, TOK0, None) by { EmptyIsOpener(); }
    EmptyWordAddsNothing([], None);
    assert [] + [""] == [""];
    if r.current == "" {
      EmptyWordAddsNothing(r.words, None);
    }
    assert [] + Styled(s, None) == Styled(s, None);
  }

  // ---- Over the lines of a page ---------------------------------------------------------------------------------

  /** What a list of lines shows when every line starts without colour. */
  function StyledLines(lines: seq<string>): Shown {
    if lines == [] then [] else StyledLines(lines[..|lines| - 1]) + Styled(lines[|lines| - 1], None)
  }

  lemma StyledLinesSnoc(lines: seq<string>, line: string)
    ensures StyledLines(lines + [line]) == StyledLines(lines) + Styled(line, None)
  {
    assert (lines + [line])[..|lines|] == lines;
  }

  /** The page shows the words placed so far in their colours, and the colour it tracks is the right one. */
  ghost predicate ShowsStyle(p: Page, placed: seq<string>) {
    && Closed(p.stem) && EndsClean(p.stem) && IsColour(p.active)
    && Active(p.stem + p.last, None) == p.active == ActiveOver(placed, None)
    && (forall i :: 0 <= i < |p.lines| ==> Active(p.lines[i], None) == None)
    && StyledLines(p.lines) + Styled(p.stem + p.last, None) == StyledOver(placed, None)
  }

  ghost predicate KeepsStyle(p: Page, placed: seq<string>) { ShowsStyle(p, placed) && Closed(p.last) }

  /** A reset behind a text shows nothing, even inside a control sequence left open. */
  lemma {:induction false} ResetShowsNothing(s: string, a: Option<string>)
    ensures Styled(s + RESET, a) == Styled(s, a)
    decreases |s|
  {
    if s == "" {
      assert s + RESET == RESET;
      ResetIsSequence();
      SequenceFacts(RESET, a);
    } else if StartsCsi(s) && !HasLetter(s[2..]) {
      OpenShowsNothing(s, a);
    } else {
      hide Styled, Unit, AfterUnit, Ink;
      UnitExtends(s, RESET);
      InkExtends(s, RESET, a);
      StyledUnfolds(s, a);
      StyledUnfolds(s + RESET, a);
      ResetShowsNothing(s[Unit(s)..], AfterUnit(s[..Unit(s)], a));
    }
  }

  lemma OpenShowsNothing(s: string, a: Option<string>)
    requires StartsCsi(s) && !HasLetter(s[2..])
    ensures Styled(s, a) == [] && Styled(s + RESET, a) == []
  {
    hide Unit, AfterUnit, ToLetter;
    OpenUnit(s);
    var x := s + RESET;
    assert s[Unit(s)..] == "" && x[Unit(x)..] == "";
    NothingIsStyled(AfterUnit(s[..Unit(s)], a));
    NothingIsStyled(AfterUnit(x[..Unit(x)], a));
  }

  /** Closing the current line switches its colour off and shows nothing new. */
  lemma ClosedLineStyle(line: string, active: Option<string>)
    requires Closed(line) && Active(line, None) == active
    ensures Active(line + Close(active), None) == None
    ensures Styled(line + Close(active), None) == Styled(line, None)
    ensures Closed(line + Close(active))
  {
    if active.Some? {
      ResetIsSequence();
      SequenceFacts(RESET, active);
      ClosedConcat(line, RESET);
      ActiveConcat(line, RESET, None);
      StyledConcat(line, RESET, None);
      assert Styled(line, None) + [] == Styled(line, None);
    } else {
      assert line + "" == line;
    }
  }

  /** A word behind a stem. */
  lemma WordBehind(stem: string, word: string)
    requires Closed(stem) && EndsClean(stem)
    ensures Active(stem + word, None) == Active(word, Active(stem, None))
    ensures Styled(stem + word, None) == Styled(stem, None) + Styled(word, Active(stem, None))
    ensures Closed(word) ==> Closed(stem + word)
  {
    CleanJoins(stem, word);
    ActiveConcat(stem, word, None);
    StyledConcat(stem, word, None);
    ClosedConcat(stem, word);
  }

  lemma SpaceBehind(line: string)
    requires Closed(line)
    ensures Closed(line + " ") && EndsClean(line + " ")
    ensures Active(line + " ", None) == Active(line, None) && Styled(line + " ", None) == Styled(line, None)
  {
    SpaceFacts(TOK0);
    ActiveConcat(line, " ", None);
    StyledConcat(line, " ", None);
    ClosedConcat(line, " ");
    assert Styled(line, None) + [] == Styled(line, None);
  }

  lemma {:induction false} PlaceKeepsStyle(p: Page, placed: seq<string>, word: string, hang: nat, limit: nat, w: CellWidth)
    requires KeepsStyle(p, placed)
    requires p.count == 0 ==> p.last == ""
    ensures ShowsStyle(Place(p, word, hang, limit, w), placed + [word])
    ensures Place(p, word, hang, limit, w).last == word
  {
    hide Closed, Active, Styled, StyledLines, StyledOver, ActiveOver, IsColour, Width, Spaces;
    var line := p.stem + p.last;
    var shown := Styled(word, p.active);
    OverSnoc(placed, word, None);
    ActiveIsColour(word, p.active);
    WordBehind(p.stem, p.last);
    if Breaks(p, word, limit, w) {
      ClosedLineStyle(line, p.active);
      StyledLinesSnoc(p.lines, line + Close(p.active));
      FreshStem(hang, p.active, w);
      WordBehind(Spaces(hang) + Open(p.active), word);
      assert [] + shown == shown;
    } else if p.count > 0 {
      SpaceBehind(line);
      WordBehind(line + " ", word);
      Associates(StyledLines(p.lines), Styled(line, None), shown);
    } else {
      assert p.stem + "" == p.stem;
      WordBehind(p.stem, word);
      Associates(StyledLines(p.lines), Styled(line, None), shown);
    }
  }

  lemma StartKeepsStyle(indent: nat)
    ensures KeepsStyle(Start(indent), [])
  {
    SpacesFacts(indent, TOK0);
    assert Spaces(indent) + "" == Spaces(indent);
    assert [] + Styled(Spaces(indent), None) == [];
  }

  lemma {:induction false} FillKeepsStyle(words: seq<string>, n: nat, indent: nat, hang: nat, limit: nat, w: CellWidth)
    requires n <= |words| && forall i :: 0 <= i < n ==> Closed(words[i])
    ensures var p := Fill(words, n, indent, hang, limit, w);
      KeepsStyle(p, words[..n]) && (p.count == 0 ==> p.last == "")
  {
    hide ShowsStyle, Closed, Width, Place;
    if n == 0 {
      StartKeepsStyle(indent);
      assert words[..0] == [];
    } else {
      FillKeepsStyle(words, n - 1, indent, hang, limit, w);
      PlaceKeepsStyle(Fill(words, n - 1, indent, hang, limit, w), words[..n - 1], words[n - 1], hang, limit, w);
      PlacedLast(Fill(words, n - 1, indent, hang, limit, w), words[n - 1], hang, limit, w);
      assert words[..n - 1] + [words[n - 1]] == words[..n];
    }
  }

  /** Every finished line ends without colour, but for the last one if it ends inside a control
      sequence; and the lines show what the words show. */
  lemma FinishedStyle(words: seq<string>, indent: nat, hang: nat, limit: nat, w: CellWidth)
    requires words != [] && forall i :: 0 <= i < |words| - 1 ==> Closed(words[i])
    ensures var lines := Finish(Fill(words, |words|, indent, hang, limit, w));
      && (forall i :: 0 <= i < |lines| - 1 ==> Active(lines[i], None) == None)
      && (Closed(words[|words| - 1]) ==> Active(lines[|lines| - 1], None) == None)
      && StyledLines(lines) == StyledOver(words, None)
  {
    hide Closed, Active, Styled, StyledLines, StyledOver, ActiveOver, IsColour, Fill, Place;
    var n := |words| - 1;
    var q := Fill(words, n, indent, hang, limit, w);
    var p := Place(q, words[n], hang, limit, w);
    FillUnfolds(words, indent, hang, limit, w);
    FillKeepsStyle(words, n, indent, hang, limit, w);
    PlaceKeepsStyle(q, words[..n], words[n], hang, limit, w);
    assert words[..n] + [words[n]] == words;
    var line := p.stem + p.last;
    if Closed(words[n]) {
      WordBehind(p.stem, p.last);
      ClosedLineStyle(line, p.active);
    } else if p.active.Some? {
      ResetShowsNothing(line, None);
    } else {
      assert line + "" == line;
    }
    StyledLinesSnoc(p.lines, line + Close(p.active));
  }

  lemma FillUnfolds(words: seq<string>, indent: nat, hang: nat, limit: nat, w: CellWidth)
    requires words != []
    ensures var n := |words| - 1;
      Fill(words, |words|, indent, hang, limit, w) == Place(Fill(words, n, indent, hang, limit, w), words[n], hang, limit, w)
  {
  }
}
