/** What the filling loop keeps: every line fits or holds one word, no word is lost or cut, and every
    character keeps its colour. */
module AnsiFill {
  import opened Wrappers
  import opened Text
  import opened AnsiText
  import opened AnsiWrap

  // ---- Layout -------------------------------------------------------------------------------------------

  predicate Fits(line: string, limit: nat, w: CellWidth) { Width(line, w) <= limit || |Words(line)| == 1 }

  /** An opener leaves no trace on the screen and can stand before anything. */
  predicate IsOpener(o: string) { Closed(o) && Solid(o) && Strip(o) == "" && EndsClean(o) }

  /** The part of a line before its last word holds `n` complete words and an opener. */
  predicate IsStem(stem: string, n: nat) {
    && Closed(stem) && EndsClean(stem)
    && |Scan(stem, TOK0).words| == n
    && IsOpener(Scan(stem, TOK0).current)
  }

  /** The words shown on the finished lines. */
  function LinesVisible(lines: seq<string>): seq<string> {
    if lines == [] then [] else LinesVisible(lines[..|lines| - 1]) + VisibleWords(lines[|lines| - 1])
  }

  /** The words shown on the current line. */
  function CurrentVisible(p: Page): seq<string> {
    Visible(Scan(p.stem, TOK0).words) + (if p.count == 0 then [] else [Strip(p.last)])
  }

  ghost predicate Laid(p: Page, placed: seq<string>, limit: nat, w: CellWidth) {
    && IsColour(p.active)
    && IsStem(p.stem, if p.count == 0 then 0 else p.count - 1)
    && p.width == Width(p.stem, w) + Width(p.last, w)
    && (p.count == 0 ==> p.last == "" && p.lines == [] && Scan(p.stem, TOK0) == TOK0)
    && (p.count > 0 ==> IsWord(p.last))
    && (p.count > 1 ==> p.width <= limit)
    && (forall i :: 0 <= i < |p.lines| ==> Fits(p.lines[i], limit, w) && Closed(p.lines[i]))
    && LinesVisible(p.lines) + CurrentVisible(p) == Visible(placed)
  }

  lemma CleanJoins(a: string, b: string)
    requires EndsClean(a)
    ensures Joins(a, b)
  {
  }

  lemma CloseFacts(active: Option<string>, s: string)
    ensures Strip(s + Close(active)) == Strip(s) && (Solid(s) ==> Solid(s + Close(active)))
    ensures Closed(s) ==> Closed(s + Close(active))
  {
    if active.Some? {
      ResetIsInvisible(s, TOK0);
      ResetIsSequence();
      SequenceFacts(RESET, None);
      if Closed(s) {
        ClosedConcat(s, RESET);
      }
    } else {
      assert s + "" == s;
    }
  }

  /** What the current line is once it is closed. */
  lemma ClosedLine(p: Page, placed: seq<string>, limit: nat, w: CellWidth)
    requires Laid(p, placed, limit, w) && p.count > 0
    ensures var line := p.stem + p.last + Close(p.active);
      && Width(line, w) == p.width
      && |Words(line)| == p.count
      && VisibleWords(line) == CurrentVisible(p)
      && Fits(line, limit, w)
      && (Closed(p.last) ==> Closed(line))
  {
    hide Closed, Solid, Strip, Scan;
    var tail := p.last + Close(p.active);
    var t := Scan(p.stem, TOK0);
    assert p.stem + p.last + Close(p.active) == p.stem + tail;
    CloseFacts(p.active, p.last);
    CleanJoins(p.stem, tail);
    CleanJoins(t.current, tail);
    WidthConcat(p.stem, tail, w);
    ScanConcat(p.stem, tail, TOK0);
    ScanSolid(tail, t);
    assert Words(p.stem + tail) == t.words + [t.current + tail];
    StripConcat(t.current, tail);
    assert Strip(t.current + tail) == Strip(p.last);
    VisibleConcat(t.words, [t.current + tail]);
    assert Visible([t.current + tail]) == [Strip(p.last)];
    if Closed(p.last) {
      ClosedConcat(p.stem, tail);
    }
  }

  lemma LinesVisibleSnoc(lines: seq<string>, line: string)
    ensures LinesVisible(lines + [line]) == LinesVisible(lines) + VisibleWords(line)
  {
    assert (lines + [line])[..|lines|] == lines;
  }

  /** The stem after a break: the hanging indent and the reopened colour. */
  lemma FreshStem(hang: nat, active: Option<string>, w: CellWidth)
    requires IsColour(active)
    ensures var stem := Spaces(hang) + Open(active);
      && IsStem(stem, 0)
      && Scan(stem, TOK0) == Tok([], Open(active))
      && Width(stem, w) == hang
      && Active(stem, None) == active && Styled(stem, None) == []
  {
    hide Closed, Solid, Strip, Scan, Active, Styled, IsColour;
    var pad, o := Spaces(hang), Open(active);
    SpacesFacts(hang, TOK0);
    CellsSpaces(hang, w);
    PadScans(hang);
    OpenFacts(active);
    CleanJoins(pad, o);
    ClosedConcat(pad, o);
    ScanConcat(pad, o, TOK0);
    ScanSolid(o, TOK0);
    assert "" + o == o;
    WidthConcat(pad, o, w);
    NoCells(w);
    ActiveConcat(pad, o, None);
    StyledConcat(pad, o, None);
    assert EndsClean(pad + o);
  }

  lemma NoCells(w: CellWidth)
    ensures Cells("", w) == 0
  {
  }

  lemma PadScans(n: nat)
    ensures Scan(Spaces(n), TOK0) == TOK0
  {
    SpacesFacts(n, TOK0);
  }

  lemma OpenFacts(active: Option<string>)
    requires IsColour(active)
    ensures IsOpener(Open(active)) && Active(Open(active), None) == active && Styled(Open(active), None) == []
  {
    if active.Some? {
      SequenceFacts(active.value, None);
    }
  }

  /** The stem after a word and a space. */
  lemma LongerStem(p: Page, placed: seq<string>, limit: nat, w: CellWidth)
    requires Laid(p, placed, limit, w) && p.count > 0 && Closed(p.last)
    ensures var stem := p.stem + p.last + " ";
      && IsStem(stem, p.count)
      && Visible(Scan(stem, TOK0).words) == CurrentVisible(p)
      && Width(stem, w) == p.width + 1
  {
    hide Closed, Solid, Strip, Scan, Width;
    var t := Scan(p.stem, TOK0);
    var line := p.stem + p.last;
    CleanJoins(p.stem, p.last);
    CleanJoins(t.current, p.last);
    ClosedConcat(p.stem, p.last);
    ScanConcat(p.stem, p.last, TOK0);
    ScanSolid(p.last, t);
    var cur := t.current + p.last;
    SpaceFacts(Tok(t.words, cur));
    ClosedConcat(line, " ");
    ScanConcat(line, " ", TOK0);
    assert Scan(line + " ", TOK0) == Tok(t.words + [cur], "");
    EmptyIsOpener();
    StripConcat(t.current, p.last);
    assert "" + Strip(p.last) == Strip(p.last);
    VisibleConcat(t.words, [cur]);
    assert Visible([cur]) == [Strip(p.last)];
    WidthConcat(p.stem, p.last, w);
    WidthConcat(line, " ", w);
    SpaceWidth(w);
  }

  lemma EmptyIsOpener()
    ensures IsOpener("")
  {
  }

  lemma SpaceWidth(w: CellWidth)
    ensures Width(" ", w) == 1
  {
    SpaceFacts(TOK0);
    assert " " == Spaces(1);
    CellsSpaces(1, w);
  }

  lemma {:induction false} PlaceKeepsLayout(p: Page, placed: seq<string>, word: string, hang: nat, limit: nat, w: CellWidth)
    requires Laid(p, placed, limit, w) && Closed(p.last) && IsWord(word)
    ensures Laid(Place(p, word, hang, limit, w), placed + [word], limit, w)
  {
    hide Closed, Solid, Strip, Scan, Active, Width, LinesVisible, IsColour, Words;
    var q := Place(p, word, hang, limit, w);
    ActiveIsColour(word, p.active);
    VisibleConcat(placed, [word]);
    assert Visible([word]) == [Strip(word)];
    if Breaks(p, word, limit, w) {
      ClosedLine(p, placed, limit, w);
      FreshStem(hang, p.active, w);
      LinesVisibleSnoc(p.lines, p.stem + p.last + Close(p.active));
      assert Visible([]) == [];
      assert CurrentVisible(q) == [Strip(word)];
    } else if p.count > 0 {
      LongerStem(p, placed, limit, w);
      assert CurrentVisible(q) == CurrentVisible(p) + [Strip(word)];
    } else {
      assert Visible([]) == [];
      NoWidth(w);
    }
  }

  lemma NoWidth(w: CellWidth)
    ensures Width("", w) == 0
  {
  }

  lemma StartIsLaid(indent: nat, limit: nat, w: CellWidth)
    ensures Laid(Start(indent), [], limit, w)
  {
    SpacesFacts(indent, TOK0);
    CellsSpaces(indent, w);
    EmptyIsOpener();
    NoWidth(w);
    assert Scan(Spaces(indent), TOK0) == TOK0;
    assert Visible([]) == [];
  }

  lemma {:induction false} FillIsLaid(words: seq<string>, n: nat, indent: nat, hang: nat, limit: nat, w: CellWidth)
    requires n <= |words| && AreWords(words)
    ensures Laid(Fill(words, n, indent, hang, limit, w), words[..n], limit, w)
    ensures n > 0 ==> Fill(words, n, indent, hang, limit, w).last == words[n - 1]
    ensures n > 0 ==> Fill(words, n, indent, hang, limit, w).count > 0
  {
    hide Laid, Closed, Solid, Width, Active, Place, AreWords;
    if n == 0 {
      StartIsLaid(indent, limit, w);
      assert words[..0] == [];
    } else {
      FillIsLaid(words, n - 1, indent, hang, limit, w);
      var p := Fill(words, n - 1, indent, hang, limit, w);
      LastIsClosed(words, n - 1, p, indent, hang, limit, w);
      WordAt(words, n - 1);
      PlaceKeepsLayout(p, words[..n - 1], words[n - 1], hang, limit, w);
      PlacedLast(p, words[n - 1], hang, limit, w);
      assert words[..n - 1] + [words[n - 1]] == words[..n];
    }
  }

  lemma WordAt(words: seq<string>, i: nat)
    requires i < |words| && AreWords(words)
    ensures IsWord(words[i])
  {
  }

  lemma PlacedLast(p: Page, word: string, hang: nat, limit: nat, w: CellWidth)
    ensures var q := Place(p, word, hang, limit, w); q.last == word && q.count > 0
  {
    hide Active, Width;
  }

  lemma LastIsClosed(words: seq<string>, n: nat, p: Page, indent: nat, hang: nat, limit: nat, w: CellWidth)
    requires n < |words| && AreWords(words) && p == Fill(words, n, indent, hang, limit, w)
    requires n > 0 ==> p.last == words[n - 1]
    ensures Closed(p.last)
  {
  }

  /** The finished lines: each fits or holds a single word, and together they show the words. */
  lemma FinishedLines(words: seq<string>, indent: nat, hang: nat, limit: nat, w: CellWidth)
    requires AreWords(words) && words != []
    ensures var lines := Finish(Fill(words, |words|, indent, hang, limit, w));
      && (forall i :: 0 <= i < |lines| ==> Fits(lines[i], limit, w))
      && (forall i :: 0 <= i < |lines| - 1 ==> Closed(lines[i]))
      && LinesVisible(lines) == Visible(words)
  {
    hide Closed, Solid, Width, Words, LinesVisible, Fill, IsStem, IsColour;
    var p := Fill(words, |words|, indent, hang, limit, w);
    FillIsLaid(words, |words|, indent, hang, limit, w);
    assert words[..|words|] == words;
    ClosedLine(p, words, limit, w);
    LinesVisibleSnoc(p.lines, p.stem + p.last + Close(p.active));
  }
}
