/** Wrapping one line: greedy filling, closing the colour before each break and reopening it after. */
module AnsiWrap {
  import opened Wrappers
  import opened Text
  import opened AnsiText

  const MIN_WRAP_WIDTH := 40
  const MAX_WRAP_WIDTH := 160

  function Clamp(width: nat): nat {
    if width < MIN_WRAP_WIDTH then MIN_WRAP_WIDTH else if width > MAX_WRAP_WIDTH then MAX_WRAP_WIDTH else width
  }

  /** The cell width of a character; a space takes one cell. */
  type CellWidth = w: char -> nat | w(' ') == 1 witness (c: char) => 1

  function Cells(s: string, w: CellWidth): nat {
    if s == "" then 0 else w(s[0]) + Cells(s[1..], w)
  }

  /** `visible_width_ansi`. */
  function Width(s: string, w: CellWidth): nat { Cells(Strip(s), w) }

  lemma {:induction false} CellsConcat(a: string, b: string, w: CellWidth)
    ensures Cells(a + b, w) == Cells(a, w) + Cells(b, w)
  {
    if a == "" {
      assert a + b == b;
    } else {
      assert (a + b)[1..] == a[1..] + b;
      CellsConcat(a[1..], b, w);
    }
  }

  lemma {:induction false} CellsSpaces(n: nat, w: CellWidth)
    ensures Cells(Spaces(n), w) == n
  {
    if n > 0 {
      assert Spaces(n)[1..] == Spaces(n - 1);
      CellsSpaces(n - 1, w);
    }
  }

  lemma WidthConcat(a: string, b: string, w: CellWidth)
    requires Closed(a) && Joins(a, b)
    ensures Width(a + b, w) == Width(a, w) + Width(b, w)
  {
    StripConcat(a, b);
    CellsConcat(Strip(a), Strip(b), w);
  }

  // ---- What a line shows --------------------------------------------------------------------------------

  function Visible(words: seq<string>): (r: seq<string>)
    ensures |r| == |words| && forall i :: 0 <= i < |r| ==> r[i] == Strip(words[i])
  {
    seq(|words|, i requires 0 <= i < |words| => Strip(words[i]))
  }

  /** The words of a text as a reader sees them. */
  function VisibleWords(s: string): seq<string> { Visible(Words(s)) }

  lemma VisibleConcat(a: seq<string>, b: seq<string>)
    ensures Visible(a + b) == Visible(a) + Visible(b)
  {
  }

  // ---- The page being filled -------------------------------------------------------------------------------

  /** Finished lines, and the current line as `stem + last`, where `last` is the word written last. */
  datatype Page = Page(lines: seq<string>, stem: string, last: string, width: nat, count: nat, active: Option<string>)

  function Close(active: Option<string>): string { if active.Some? then RESET else "" }

  function Open(active: Option<string>): string { if active.Some? then active.value else "" }

  function Start(indent: nat): Page { Page([], Spaces(indent), "", indent, 0, None) }

  predicate Breaks(p: Page, word: string, limit: nat, w: CellWidth) {
    p.count > 0 && p.width + 1 + Width(word, w) > limit
  }

  /** One turn of the filling loop. */
  function Place(p: Page, word: string, hang: nat, limit: nat, w: CellWidth): Page {
    if Breaks(p, word, limit, w) then
      Page(p.lines + [p.stem + p.last + Close(p.active)], Spaces(hang) + Open(p.active), word,
           hang + Width(word, w), 1, Active(word, p.active))
    else if p.count > 0 then
      Page(p.lines, p.stem + p.last + " ", word, p.width + 1 + Width(word, w), p.count + 1, Active(word, p.active))
    else
      Page(p.lines, p.stem, word, p.width + Width(word, w), 1, Active(word, p.active))
  }

  function Fill(words: seq<string>, n: nat, indent: nat, hang: nat, limit: nat, w: CellWidth): Page
    requires n <= |words|
  {
    if n == 0 then Start(indent) else Place(Fill(words, n - 1, indent, hang, limit, w), words[n - 1], hang, limit, w)
  }

  function Finish(p: Page): seq<string> { p.lines + [p.stem + p.last + Close(p.active)] }

  // ---- Indents ------------------------------------------------------------------------------------------------

  function MarkerWidth(trimmed: string): nat {
    if "OK " <= trimmed then 3
    else if "next: " <= trimmed then 6
    else if "X " <= trimmed || "- " <= trimmed || "> " <= trimmed || "! " <= trimmed then 2
    else 0
  }

  /** `continuation_indent`, as a number of spaces. */
  function Hang(line: string): nat {
    var plain := Strip(line);
    IndentOf(plain) + MarkerWidth(TrimStart(plain))
  }

  /** The output lines of `wrap_ansi_line_for_width`. */
  function WrapRows(line: string, width: nat, w: CellWidth): seq<string> {
    var limit, indent := Clamp(width), IndentOf(line);
    var words := Words(line[indent..]);
    if Width(line, w) <= limit || |words| <= 1 then [line]
    else Finish(Fill(words, |words|, indent, Hang(line), limit, w))
  }

  // ---- Words that come out of the tokeniser ---------------------------------------------------------------------

  /** Whether `b` may follow at all: `a` does not end in a bare escape. */
  predicate EndsClean(a: string) { a == "" || a[|a| - 1] != ESC }

  predicate IsWord(s: string) { s != "" && Solid(s) }

  /** All words are solid, and all but possibly the last have complete control sequences. */
  predicate AreWords(words: seq<string>) {
    && (forall i :: 0 <= i < |words| ==> IsWord(words[i]))
    && (forall i :: 0 <= i < |words| - 1 ==> Closed(words[i]))
  }

  predicate AllClosed(words: seq<string>) { forall i :: 0 <= i < |words| ==> Closed(words[i]) }

  lemma UnitFacts(s: string)
    requires s != ""
    ensures var u := s[..Unit(s)];
      && u != ""
      && (StartsCsi(s) || !IsWhitespace(s[0]) ==> Solid(u))
      && ((StartsCsi(s) ==> HasLetter(s[2..])) ==> Closed(u) && Joins(u, s[Unit(s)..]))
      && (StartsCsi(s) && !HasLetter(s[2..]) ==> s[Unit(s)..] == "")
  {
    var n := Unit(s);
    var u := s[..n];
    if StartsCsi(s) {
      if HasLetter(s[2..]) {
        UnitIsSequence(s);
        SequenceFacts(u, None);
      } else {
        OpenUnit(s);
        assert u == s;
        assert Solid(u) by { assert u[Unit(u)..] == ""; }
      }
    } else {
      assert u[Unit(u)..] == "";
    }
  }

  lemma {:induction false} ScanGivesWords(s: string, t: Tok)
    requires AllClosed(t.words) && (forall i :: 0 <= i < |t.words| ==> IsWord(t.words[i]))
    requires Solid(t.current) && Closed(t.current) && Joins(t.current, s)
    ensures var r := Scan(s, t);
      && AllClosed(r.words) && (forall i :: 0 <= i < |r.words| ==> IsWord(r.words[i]))
      && Solid(r.current)
      && (Closed(s) ==> Closed(r.current))
    decreases |s|
  {
    if s != "" {
      var n := Unit(s);
      var u := s[..n];
      UnitFacts(s);
      if !StartsCsi(s) && IsWhitespace(s[0]) {
        ScanGivesWords(s[n..], Flush(t));
      } else {
        assert Joins(t.current, u);
        SolidConcat(t.current, u);
        if StartsCsi(s) && !HasLetter(s[2..]) {
          assert Scan(s, t) == Tok(t.words, t.current + u);
        } else {
          ClosedConcat(t.current, u);
          assert Joins(t.current + u, s[n..]);
          ScanGivesWords(s[n..], Tok(t.words, t.current + u));
        }
      }
    }
  }

  lemma WordsAreWords(s: string)
    ensures AreWords(Words(s)) && (Closed(s) ==> AllClosed(Words(s)))
  {
    ScanGivesWords(s, TOK0);
  }
}
