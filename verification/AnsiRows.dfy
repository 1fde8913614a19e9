/** What a printed row looks like: how wide it may be, where it starts, and which sequences are invisible or
    set a colour. */
module AnsiRows {
  import opened Wrappers
  import opened Text
  import opened AnsiText
  import opened AnsiWrap
  import opened AnsiOutput
  import opened AnsiDocument

  // ---- Widths -------------------------------------------------------------------------------------------------

  /** The bound for a requested width: the width itself between 40 and 160 cells, and otherwise the nearer
      of the two. */
  predicate IsBound(width: nat, bound: nat) {
    || (40 <= width <= 160 && bound == width)
    || (width < 40 && bound == 40)
    || (width > 160 && bound == 160)
  }

  /** MAIN: every row has at most the cells asked for, or at most one word; and a line that has no more cells
      than that is printed as it is. */
  lemma RowsFit(line: string, width: nat, bound: nat, w: CellWidth)
    requires IsBound(width, bound)
    ensures var rows := WrapRows(line, width, w);
      && rows != []
      && (forall i :: 0 <= i < |rows| ==> Width(rows[i], w) <= bound || |Words(rows[i])| <= 1)
      && (Width(line, w) <= bound ==> rows == [line])
      && (|Words(line)| <= 1 ==> rows == [line])
  {
    hide Width, Words, Fill, Hang;
    WrapFitsAndShowsAllWords(line, width, w);
    WordsAfterIndent(line);
  }

  /** A character counts its own cells, wherever it stands; control sequences count none. */
  lemma CellsAdd(a: string, c: char, b: string, w: CellWidth)
    ensures Cells(a + [c] + b, w) == Cells(a, w) + w(c) + Cells(b, w)
  {
    CellsConcat(a + [c], b, w);
    CellsConcat(a, [c], w);
    assert [c][1..] == "";
  }

  // ---- Where rows start --------------------------------------------------------------------------------------------

  /** So many spaces, then something else. */
  predicate StartsAt(s: string, n: nat) { |s| > n && s[..n] == Spaces(n) && s[n] != ' ' }

  lemma StartIsIndent(s: string, n: nat)
    requires StartsAt(s, n)
    ensures IndentOf(s) == n
  {
    assert forall i :: 0 <= i < n ==> s[i] == Spaces(n)[i];
    IndentOfUnique(s, n);
  }

  lemma StartsBehind(n: nat, open: string, word: string, rest: string)
    requires word != "" && word[0] != ' ' && (open != "" ==> open[0] != ' ')
    ensures StartsAt(Spaces(n) + open + word + rest, n)
  {
    var s := Spaces(n) + open + word + rest;
    assert s[..n] == Spaces(n);
    assert s[n] == (open + word + rest)[0];
  }

  lemma StartsStays(s: string, n: nat, x: string)
    requires StartsAt(s, n)
    ensures StartsAt(s + x, n)
  {
    assert (s + x)[..n] == s[..n];
  }

  lemma WordStarts(word: string)
    requires IsWord(word)
    ensures word[0] != ' '
  {
  }

  lemma ColourStarts(active: Option<string>)
    requires IsColour(active)
    ensures Open(active) != "" ==> Open(active)[0] != ' '
  {
  }

  predicate AllStart(lines: seq<string>, indent: nat, hang: nat) {
    forall i :: 0 <= i < |lines| ==> StartsAt(lines[i], if i == 0 then indent else hang)
  }

  lemma {:induction false} FillStarts(words: seq<string>, n: nat, indent: nat, hang: nat, limit: nat, w: CellWidth)
    requires n <= |words| && forall i :: 0 <= i < |words| ==> IsWord(words[i])
    ensures var p := Fill(words, n, indent, hang, limit, w);
      && AllStart(p.lines, indent, hang) && IsColour(p.active)
      && (n == 0 ==> p == Start(indent)) && (n > 0 ==> p.count > 0)
      && (n > 0 ==> StartsAt(p.stem + p.last, if |p.lines| == 0 then indent else hang))
  {
    hide Width, Active, IsColour, StartsAt, IsWord;
    if n > 0 {
      FillStarts(words, n - 1, indent, hang, limit, w);
      var p, word := Fill(words, n - 1, indent, hang, limit, w), words[n - 1];
      assert IsWord(word);
      PlaceStarts(p, word, indent, hang, limit, w, n - 1);
    } else {
      NoColour();
    }
  }

  lemma NoColour()
    ensures IsColour(None)
  {
  }

  lemma PlaceStarts(p: Page, word: string, indent: nat, hang: nat, limit: nat, w: CellWidth, n: nat)
    requires IsWord(word) && AllStart(p.lines, indent, hang) && IsColour(p.active)
    requires (n == 0 ==> p == Start(indent)) && (n > 0 ==> p.count > 0)
    requires n > 0 ==> StartsAt(p.stem + p.last, if |p.lines| == 0 then indent else hang)
    ensures var q := Place(p, word, hang, limit, w);
      AllStart(q.lines, indent, hang) && IsColour(q.active) && q.count > 0
        && StartsAt(q.stem + q.last, if |q.lines| == 0 then indent else hang)
  {
    hide Width, Active, IsColour, StartsAt, IsWord, Spaces;
    WordStarts(word);
    WordNotEmpty(word);
    ActiveIsColour(word, p.active);
    var line := p.stem + p.last;
    if Breaks(p, word, limit, w) {
      StartsStays(line, if |p.lines| == 0 then indent else hang, Close(p.active));
      ColourStarts(p.active);
      StartsBehind(hang, Open(p.active), word, "");
      assert Spaces(hang) + Open(p.active) + word + "" == Spaces(hang) + Open(p.active) + word;
    } else if p.count > 0 {
      StartsStays(line, if |p.lines| == 0 then indent else hang, " " + word);
      assert line + (" " + word) == line + " " + word;
    } else {
      StartsBehind(indent, "", word, "");
      assert Spaces(indent) + "" + word + "" == Spaces(indent) + word;
    }
  }

  lemma WordNotEmpty(word: string)
    requires IsWord(word)
    ensures word != ""
  {
  }

  /** The width of the list marker a line starts with, if it starts with one. */
  predicate IsMarkerWidth(text: string, n: nat) {
    if "OK " <= text then n == 3
    else if "next: " <= text then n == 6
    else if "X " <= text || "- " <= text || "> " <= text || "! " <= text then n == 2
    else n == 0
  }

  /** MAIN: the first row of a split line starts where the line does, and every later one under the text
      behind the line's list marker. */
  lemma RowsHang(line: string, width: nat, w: CellWidth, marker: nat)
    requires !Settles(line, width, w) && IsMarkerWidth(TrimStart(Strip(line)), marker)
    ensures var rows := WrapRows(line, width, w);
      && IndentOf(rows[0]) == IndentOf(line)
      && forall i :: 0 < i < |rows| ==> IndentOf(rows[i]) == IndentOf(Strip(line)) + marker
  {
    hide Width, Words, Fill, Strip, TrimStart, StartsAt, IndentOf, IsWord;
    WordsAfterIndent(line);
    var rest := line[IndentOf(line)..];
    var words := Words(rest);
    WordsAreWords(rest);
    var indent, hang := IndentOf(line), Hang(line);
    assert hang == IndentOf(Strip(line)) + marker;
    FillStarts(words, |words|, indent, hang, Clamp(width), w);
    var p := Fill(words, |words|, indent, hang, Clamp(width), w);
    StartsStays(p.stem + p.last, if |p.lines| == 0 then indent else hang, Close(p.active));
    var rows := WrapRows(line, width, w);
    forall i | 0 <= i < |rows|
      ensures IndentOf(rows[i]) == if i == 0 then indent else hang
    {
      StartIsIndent(rows[i], if i == 0 then indent else hang);
    }
  }

  // ---- Control sequences ---------------------------------------------------------------------------------------------

  /** Parameters of a control sequence: anything but ASCII letters. */
  predicate NoLetters(s: string) { forall i :: 0 <= i < |s| ==> !('a' <= s[i] <= 'z') && !('A' <= s[i] <= 'Z') }

  lemma {:induction false} ToFirstLetter(params: string, c: char, rest: string)
    requires NoLetters(params) && ('a' <= c <= 'z' || 'A' <= c <= 'Z')
    ensures ToLetter(params + [c] + rest) == |params| + 1
  {
    var s := params + [c] + rest;
    if params == "" {
      assert s[0] == c;
    } else {
      assert s[0] == params[0] && s[1..] == params[1..] + [c] + rest;
      ToFirstLetter(params[1..], c, rest);
    }
  }

  /** An escape, a bracket, parameters and a letter are one unit: nothing of them is shown, and what follows
      is read afresh. */
  lemma SequenceIsInvisible(params: string, c: char, rest: string)
    requires NoLetters(params) && ('a' <= c <= 'z' || 'A' <= c <= 'Z')
    ensures Strip([ESC, '['] + params + [c] + rest) == Strip(rest)
    ensures forall a ::
      Active([ESC, '['] + params + [c] + rest, a) == Active(rest, AfterUnit([ESC, '['] + params + [c], a))
  {
    hide IsReset, AfterUnit;
    var s := [ESC, '['] + params + [c] + rest;
    assert s[2..] == params + [c] + rest;
    ToFirstLetter(params, c, rest);
    assert Unit(s) == 3 + |params|;
    assert s[Unit(s)..] == rest && s[..Unit(s)] == [ESC, '['] + params + [c];
    assert "" + Strip(rest) == Strip(rest);
  }

  /** So many sequence openers in a row. */
  function Openers(k: nat): string { if k == 0 then "" else [ESC, '['] + Openers(k - 1) }

  /** MAIN: a sequence that ends in `m` sets the colour to itself, unless its parameters are empty, `0`, or,
      behind any further openers, begin with `0;`, when it sets none; one that ends in another letter leaves
      the colour alone. */
  lemma ColourIff(k: nat, params: string, c: char, a: Option<string>)
    requires NoLetters(params) && ('a' <= c <= 'z' || 'A' <= c <= 'Z')
    requires !([ESC, '['] <= params)
    ensures var s := [ESC, '['] + (Openers(k) + params) + [c];
      Active(s, a) ==
        if c != 'm' then a
        else if (k == 0 && (params == "" || params == "0")) || "0;" <= params then None
        else Some(s)
  {
    hide IsReset, Openers;
    var all := Openers(k) + params;
    var s := [ESC, '['] + all + [c];
    OpenersHaveNoLetters(k);
    SequenceIsInvisible(all, c, "");
    assert s + "" == s;
    assert s[|s| - 1] == c;
    assert Active("", AfterUnit(s, a)) == AfterUnit(s, a);
    if c == 'm' {
      ResetForms(k, params);
    }
  }

  lemma {:induction false} OpenersHaveNoLetters(k: nat)
    ensures NoLetters(Openers(k))
  {
    if k > 0 {
      OpenersHaveNoLetters(k - 1);
    }
  }

  lemma StartsWithOpener(params: string)
    ensures StartsCsi(params + "m") ==> [ESC, '['] <= params
  {
    if StartsCsi(params + "m") {
      assert (params + "m")[1] == '[';
      assert params[0] == (params + "m")[0] && params[1] == (params + "m")[1];
      assert params[..2] == [ESC, '['];
    }
  }

  lemma {:induction false} OpenersAreTrimmed(k: nat, params: string)
    requires !([ESC, '['] <= params)
    ensures TrimOpeners(Openers(k) + params + "m") == params + "m"
  {
    if k == 0 {
      StartsWithOpener(params);
      assert Openers(0) + params + "m" == params + "m";
    } else {
      var s := Openers(k) + params + "m";
      assert s[2..] == Openers(k - 1) + params + "m";
      OpenersAreTrimmed(k - 1, params);
    }
  }

  lemma ResetForms(k: nat, params: string)
    requires !([ESC, '['] <= params)
    ensures IsReset([ESC, '['] + (Openers(k) + params) + "m")
      <==> (k == 0 && (params == "" || params == "0")) || "0;" <= params
  {
    hide TrimOpeners;
    var all := Openers(k) + params;
    var s := [ESC, '['] + all + "m";
    assert s == Openers(k + 1) + params + "m";
    OpenersAreTrimmed(k + 1, params);
    assert s == RESET <==> all == "0" by {
      if s == RESET {
        assert all == s[2..|s| - 1] == "0";
      }
    }
    assert s == [ESC, '[', 'm'] <==> all == "" by {
      assert |s| == 3 + |all|;
    }
    assert k > 0 ==> |all| >= 2;
    assert k == 0 ==> all == params;
    assert "0;" <= params + "m" <==> "0;" <= params by {
      if "0;" <= params + "m" {
        assert (params + "m")[1] == ';' && |params| >= 2;
        assert params[..2] == (params + "m")[..2];
      }
    }
  }
}
