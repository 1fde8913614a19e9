/** Wrapping a text twice: the same as once, but for carriage returns left at the end of a line. */
module AnsiReturn {
  import opened Wrappers
  import opened Text
  import opened AnsiText
  import opened AnsiWrap
  import opened AnsiStyle
  import opened AnsiOutput
  import opened AnsiDocument

  // ---- A carriage return behind a line --------------------------------------------------------------------------

  /** A `\r` behind a text is a unit of its own, or it prolongs a control sequence left open. */
  lemma UnitBeforeReturn(s: string)
    requires s != ""
    ensures var x := s + "\r";
      && StartsCsi(x) == StartsCsi(s) && x[0] == s[0]
      && if StartsCsi(s) && !HasLetter(s[2..]) then Unit(s) == |s| && Unit(x) == |x| && x[|x|..] == "" && s[|s|..] == ""
         else Unit(x) == Unit(s) && x[Unit(s)..] == s[Unit(s)..] + "\r" && x[..Unit(s)] == s[..Unit(s)]
  {
    var x := s + "\r";
    if StartsCsi(s) && !HasLetter(s[2..]) {
      NoLetterLength(s[2..], "");
      assert s[2..] + "" == s[2..];
      NoLetterLength(s[2..], "\r");
      assert x[2..] == s[2..] + "\r";
      assert ToLetter("\r") == 1;
    } else {
      UnitExtends(s, "\r");
    }
  }

  lemma {:induction false} StripReturn(s: string)
    ensures Strip(s + "\r") == Strip(s) || Strip(s + "\r") == Strip(s) + "\r"
    decreases |s|
  {
    if s == "" {
      assert s + "\r" == "\r" && "\r"[1..] == "";
    } else {
      UnitBeforeReturn(s);
      if !(StartsCsi(s) && !HasLetter(s[2..])) {
        StripReturn(s[Unit(s)..]);
      }
    }
  }

  lemma {:induction false} ScanReturn(s: string, t: Tok)
    ensures var a, b := Scan(s, t), Scan(s + "\r", t);
      b == Flush(a) || (a.current != "" && b == Tok(a.words, a.current + "\r"))
    decreases |s|
  {
    if s == "" {
      assert s + "\r" == "\r" && "\r"[1..] == "";
    } else {
      UnitBeforeReturn(s);
      var n := Unit(s);
      if StartsCsi(s) && !HasLetter(s[2..]) {
        var x := s + "\r";
        assert s[..n] == s && x[..|x|] == x && t.current + x == t.current + s + "\r";
      } else {
        ScanReturn(s[n..], if !StartsCsi(s) && IsWhitespace(s[0]) then Flush(t) else Tok(t.words, t.current + s[..n]));
      }
    }
  }

  /** A line that is left alone is left alone without its `\r`, too. */
  lemma SettlesWithoutReturn(row: string, width: nat, w: CellWidth)
    requires Settles(row, width, w)
    ensures Settles(DropReturn(row), width, w)
  {
    hide Scan, Strip;
    if EndsInReturn(row) {
      var s := DropReturn(row);
      assert row == s + "\r";
      StripReturn(s);
      ScanReturn(s, TOK0);
      CellsConcat(Strip(s), "\r", w);
    }
  }

  // ---- Twice ------------------------------------------------------------------------------------------------------

  /** No row with a newline behind it ends in a `\r`. */
  predicate NoReturns(rows: seq<string>, closed: bool) {
    forall i :: 0 <= i < |rows| && Followed(rows, closed, i) ==> !EndsInReturn(rows[i])
  }

  lemma WrapTwice(text: string, width: nat, w: CellWidth)
    requires text != ""
    ensures var rows, closed := AllRows(Lines(text), width, w), EndsInNewline(text);
      Wrapped(Wrapped(text, width, w), width, w) == Unlines(ReadBack(rows, closed), closed)
  {
    hide WrapRows, Lines, AllRows, Unlines, Settles, DropReturn;
    var rows, closed := AllRows(Lines(text), width, w), EndsInNewline(text);
    PrintedRows(text, width, w);
    var back := ReadBack(rows, closed);
    forall i | 0 <= i < |back|
      ensures Settles(back[i], width, w)
    {
      SettlesWithoutReturn(rows[i], width, w);
    }
    SettledRows(back, width, w);
  }

  function TotalLength(rows: seq<string>): nat {
    if rows == [] then 0 else TotalLength(rows[..|rows| - 1]) + |rows[|rows| - 1]|
  }

  lemma {:induction false} JoinedLength(rows: seq<string>)
    requires rows != []
    ensures |Joined(rows)| == TotalLength(rows) + |rows| - 1
  {
    if |rows| > 1 {
      JoinedLength(rows[..|rows| - 1]);
    } else {
      assert rows[..0] == [];
    }
  }

  lemma {:induction false} ShorterRows(rows: seq<string>, less: seq<string>)
    requires |rows| == |less| && forall i :: 0 <= i < |rows| ==> |less[i]| <= |rows[i]|
    ensures TotalLength(less) <= TotalLength(rows)
    ensures (exists i :: 0 <= i < |rows| && |less[i]| < |rows[i]|) ==> TotalLength(less) < TotalLength(rows)
  {
    if rows != [] {
      ShorterRows(rows[..|rows| - 1], less[..|less| - 1]);
      if i :| 0 <= i < |rows| && |less[i]| < |rows[i]| {
        if i < |rows| - 1 {
          assert |less[..|less| - 1][i]| < |rows[..|rows| - 1][i]|;
        }
      }
    }
  }

  lemma ReadBackIsSame(rows: seq<string>, closed: bool)
    requires rows != []
    ensures Unlines(ReadBack(rows, closed), closed) == Unlines(rows, closed) <==> NoReturns(rows, closed)
  {
    hide Joined, TotalLength;
    var back := ReadBack(rows, closed);
    if NoReturns(rows, closed) {
      assert back == rows;
    } else {
      var i :| 0 <= i < |rows| && Followed(rows, closed, i) && EndsInReturn(rows[i]);
      assert |back[i]| < |rows[i]|;
      ShorterRows(rows, back);
      JoinedLength(rows);
      JoinedLength(back);
    }
  }

  /** MAIN: for every text, wrapping it twice is wrapping it once, exactly when the first wrap prints no
      `\r` in front of a newline. */
  lemma WrapTwiceIsOnce(text: string, width: nat, w: CellWidth)
    ensures Wrapped(Wrapped(text, width, w), width, w) == Wrapped(text, width, w)
      <==> NoReturns(AllRows(Lines(text), width, w), EndsInNewline(text))
  {
    hide WrapRows, Lines, Joined, AllRows;
    if text == "" {
      EmptyText(width, w);
      NoRows(width, w);
    } else {
      PrintedRows(text, width, w);
      WrapTwice(text, width, w);
      ReadBackIsSame(AllRows(Lines(text), width, w), EndsInNewline(text));
    }
  }

  // ---- Where such a `\r` can come from --------------------------------------------------------------------------------

  lemma {:induction false} WordEnd(word: string)
    requires IsWord(word) && Closed(word)
    ensures !EndsInReturn(word)
    decreases |word|
  {
    var n := Unit(word);
    if n < |word| {
      WordEnd(word[n..]);
    } else if StartsCsi(word) {
      EndsInLetter(word[2..]);
    }
  }

  predicate NoneEndsInReturn(rows: seq<string>) { forall i :: 0 <= i < |rows| ==> !EndsInReturn(rows[i]) }

  lemma BehindIt(line: string, word: string, active: Option<string>)
    requires word != ""
    ensures EndsInReturn(line + word + Close(active)) <==> active.None? && EndsInReturn(word)
  {
    var s := line + word + Close(active);
    if active.None? {
      assert s == line + word;
    }
  }

  /** Rows that were filled word by word end in a word or a reset. */
  lemma {:induction false} FillEnds(words: seq<string>, n: nat, indent: nat, hang: nat, limit: nat, w: CellWidth)
    requires n <= |words| && forall i :: 0 <= i < |words| ==> IsWord(words[i])
    requires forall i :: 0 <= i < n - 1 ==> Closed(words[i])
    ensures var p := Fill(words, n, indent, hang, limit, w);
      NoneEndsInReturn(p.lines) && (n > 0 ==> p.last == words[n - 1]) && (p.count > 0 <==> n > 0)
  {
    hide Active, Width, Closed, Solid, EndsInReturn;
    if n > 0 {
      FillEnds(words, n - 1, indent, hang, limit, w);
      var p := Fill(words, n - 1, indent, hang, limit, w);
      if n > 1 {
        WordEnd(words[n - 2]);
        BehindIt(p.stem, p.last, p.active);
      }
    }
  }

  /** A text that ends inside a control sequence ends in its last word. */
  lemma {:induction false} OpenWordEnds(s: string, t: Tok)
    requires !Closed(s)
    ensures var r := Scan(s, t); r.current != "" && r.current[|r.current| - 1] == s[|s| - 1]
    decreases |s|
  {
    var n := Unit(s);
    if StartsCsi(s) && !HasLetter(s[2..]) {
      OpenIsOneUnit(s);
      var c := t.current + s;
      assert Scan(s, t) == Tok(t.words, c);
      assert c[|c| - 1] == s[|s| - 1];
    } else {
      OpenWordEnds(s[n..], if !StartsCsi(s) && IsWhitespace(s[0]) then Flush(t) else Tok(t.words, t.current + s[..n]));
    }
  }

  /** The colour the filling loop tracks is the line's. */
  lemma {:induction false} FillTracks(words: seq<string>, n: nat, indent: nat, hang: nat, limit: nat, w: CellWidth)
    requires n <= |words|
    ensures Fill(words, n, indent, hang, limit, w).active == ActiveOver(words[..n], None)
  {
    hide Active, Width;
    if n > 0 {
      FillTracks(words, n - 1, indent, hang, limit, w);
      assert words[..n][..n - 1] == words[..n - 1];
    } else {
      assert words[..0] == [];
    }
  }

  /** A line that prints a `\r` at its end: it ends in one and is left alone, or it is split, ends in one
      inside a control sequence left open, and has no colour for a reset to close. */
  predicate LeavesReturn(line: string, width: nat, w: CellWidth) {
    EndsInReturn(line) && (Settles(line, width, w) || (!Closed(line) && Active(line, None).None?))
  }

  /** Only the last row of a line can end in `\r`, and exactly for those lines it does. */
  lemma ReturnSurvives(line: string, width: nat, w: CellWidth)
    ensures var rows := WrapRows(line, width, w);
      && rows != []
      && NoneEndsInReturn(rows[..|rows| - 1])
      && (EndsInReturn(rows[|rows| - 1]) <==> LeavesReturn(line, width, w))
  {
    hide Scan, Strip, Fill, Width, Hang, Words, Styled, Closed, EndsInReturn, Solid, Active, ActiveOver;
    WordsAfterIndent(line);
    if Settles(line, width, w) {
      SettledIsFixed(line, width, w);
      assert [line][0] == line;
    } else {
      var rest := line[IndentOf(line)..];
      var words := Words(rest);
      WordsAreWords(rest);
      FillEnds(words, |words|, IndentOf(line), Hang(line), Clamp(width), w);
      FillTracks(words, |words|, IndentOf(line), Hang(line), Clamp(width), w);
      WordsRead(line, None);
      assert words[..|words|] == words;
      var p := Fill(words, |words|, IndentOf(line), Hang(line), Clamp(width), w);
      BehindIt(p.stem, p.last, p.active);
      LastWordEnds(line);
      var rows := WrapRows(line, width, w);
      assert rows == p.lines + [p.stem + p.last + Close(p.active)];
      assert rows[..|rows| - 1] == p.lines;
    }
  }

  lemma LastWordEnds(line: string)
    requires Words(line[IndentOf(line)..]) != []
    ensures var words := Words(line[IndentOf(line)..]);
      EndsInReturn(words[|words| - 1]) <==> !Closed(line) && EndsInReturn(line)
  {
    hide Scan, Strip, Closed, Solid, Styled, EndsInReturn;
    WordsAfterIndent(line);
    var rest := line[IndentOf(line)..];
    var words := Words(rest);
    WordsAreWords(rest);
    if Closed(line) {
      WordEnd(words[|words| - 1]);
    } else {
      OpenWordEnds(rest, TOK0);
      NotEmptyIfOpen(rest);
      SameEnd(words[|words| - 1], line);
    }
  }

  lemma SameEnd(a: string, b: string)
    requires a != "" && b != "" && a[|a| - 1] == b[|b| - 1]
    ensures EndsInReturn(a) <==> EndsInReturn(b)
  {
  }

  lemma NotEmptyIfOpen(s: string)
    requires !Closed(s)
    ensures s != ""
  {
  }

  lemma {:induction false} RowsWithReturn(lines: seq<string>, closed: bool, width: nat, w: CellWidth)
    ensures NoReturns(AllRows(lines, width, w), closed)
      <==> forall i :: 0 <= i < |lines| && Followed(lines, closed, i) ==> !LeavesReturn(lines[i], width, w)
    decreases |lines|
  {
    hide WrapRows, Settles, EndsInReturn, Closed, LeavesReturn;
    if lines != [] {
      var front, last := lines[..|lines| - 1], lines[|lines| - 1];
      var before, own := AllRows(front, width, w), WrapRows(last, width, w);
      RowsWithReturn(front, true, width, w);
      ReturnSurvives(last, width, w);
      NoReturnsAppend(before, own, closed);
      assert lines == front + [last];
      assert Followed(lines, closed, |lines| - 1) <==> closed;
      OwnReturns(own, closed);
    }
  }

  lemma NoReturnsAppend(a: seq<string>, b: seq<string>, closed: bool)
    requires b != []
    ensures NoReturns(a + b, closed) <==> NoReturns(a, true) && NoReturns(b, closed)
  {
    hide EndsInReturn;
    if NoReturns(a + b, closed) {
      assert forall i :: 0 <= i < |a| ==> a[i] == (a + b)[i];
      forall i | 0 <= i < |b| && Followed(b, closed, i)
        ensures !EndsInReturn(b[i])
      {
        assert b[i] == (a + b)[|a| + i] && Followed(a + b, closed, |a| + i);
      }
    }
  }

  /** The rows of one line; only its last row may have no newline behind it. */
  lemma OwnReturns(rows: seq<string>, closed: bool)
    requires rows != [] && NoneEndsInReturn(rows[..|rows| - 1])
    ensures NoReturns(rows, closed) <==> (closed ==> !EndsInReturn(rows[|rows| - 1]))
  {
    hide EndsInReturn;
    forall i | 0 <= i < |rows| - 1
      ensures !EndsInReturn(rows[i])
    {
      assert rows[..|rows| - 1][i] == rows[i];
    }
    assert Followed(rows, closed, |rows| - 1) <==> closed;
  }

  /** In terms of the text itself: a second wrap changes something exactly when some line before a
      newline still ends in a `\r` and was short enough, or had few enough words, to be left alone, or
      ends so inside a control sequence left open with no colour active. */
  lemma WrapTwiceByLines(text: string, width: nat, w: CellWidth)
    ensures Wrapped(Wrapped(text, width, w), width, w) == Wrapped(text, width, w) <==>
      var ls := Lines(text);
      forall i :: 0 <= i < |ls| && Followed(ls, EndsInNewline(text), i) ==> !LeavesReturn(ls[i], width, w)
  {
    hide WrapRows, Lines, Joined, AllRows, LeavesReturn, Closed;
    WrapTwiceIsOnce(text, width, w);
    RowsWithReturn(Lines(text), EndsInNewline(text), width, w);
  }

  // ---- Without carriage returns, and with two ---------------------------------------------------------------------------

  lemma {:induction false} LinesKeepFree(t: seq<string>, c: char, i: nat)
    requires i < |t| && Free(Concat(t), c)
    ensures Free(t[i], c)
  {
    assert forall k :: 0 <= k < |t[0]| ==> t[0][k] == Concat(t)[k];
    if i > 0 {
      assert forall k :: 0 <= k < |Concat(t[1..])| ==> Concat(t[1..])[k] == Concat(t)[|t[0]| + k];
      LinesKeepFree(t[1..], c, i - 1);
    }
  }

  /** A text without `\r` is wrapped once and for all. */
  lemma WrapTwiceWithoutReturns(text: string, width: nat, w: CellWidth)
    requires Free(text, '\r')
    ensures Wrapped(Wrapped(text, width, w), width, w) == Wrapped(text, width, w)
  {
    hide WrapRows, Joined, AllRows, SplitInclusive, Concat, Wrapped;
    var t := SplitInclusive(text);
    ConcatOfSplit(text);
    forall i | 0 <= i < |t|
      ensures Free(Lines(text)[i], '\r')
    {
      LinesKeepFree(t, '\r', i);
    }
    AllRowsAreFree(Lines(text), width, w, '\r');
    WrapTwiceIsOnce(text, width, w);
  }

  /** Two of them at the end of a line lose one at each wrap. */
  lemma ReturnsGoOneByOne(width: nat, w: CellWidth)
    ensures var text := "a\r\r\n"; Wrapped(Wrapped(text, width, w), width, w) != Wrapped(text, width, w)
  {
    hide WrapRows, Joined, AllRows, Wrapped;
    var text := "a\r\r\n";
    ReturnsExample();
    assert Closed("a\r") && |Words("a\r")| == 1 by {
      assert "a\r"[1..] == "\r" && "\r"[1..] == "";
    }
    assert LeavesReturn(Lines(text)[0], width, w) && Followed(Lines(text), true, 0);
    WrapTwiceByLines(text, width, w);
  }

  lemma ReturnsExample()
    ensures Lines("a\r\r\n") == ["a\r"]
  {
    var text := "a\r\r\n";
    assert [text][1..] == [] && text + "" == text;
    assert Concat([]) == "";
    assert Concat([text]) == text;
    assert text[..3] == "a\r\r" && IsSplit([text]);
    SplitOfConcat([text]);
    assert StripEol(text) == text[..2] == "a\r";
    assert SplitInclusive(text) == [text];
    assert Lines(text) == StripAll([text]);
    assert StripAll([text])[0] == "a\r";
  }
}
