/** Replacing the block, for every command: framed, last writer wins, and read back by extraction, exactly
    when the lines of the command hold together with the block. */
module GooseReplace {
  import opened Wrappers
  import opened Text
  import opened GooseYaml
  import opened GooseBlock

  // ---- The scan of a spliced text ---------------------------------------------------------------------

  /** The scan of two texts that agree up to the block finds the block in both. */
  lemma {:induction false} FindAgrees(ls: seq<string>, other: seq<string>, i: nat, st: Scan, b: Block)
    requires i <= b.at < |ls| && b.at < |other|
    requires FindBlock(ls, i, st) == Some(b)
    requires forall k :: i <= k < b.at ==> ls[k] == other[k]
    requires IsKeyRow(other[b.at], b.indent)
    ensures FindBlock(other, i, st) == Some(b)
    decreases b.at - i
  {
    hide TopLevelKey, TopLevelBlockKey, IsIndentedKey, ChildIndentOf;
    if i < b.at {
      FindAgrees(ls, other, i + 1, Look(st, ls[i]), b);
    }
  }

  /** The indent of a located block is positive. */
  lemma {:induction false} LocatedIsIndented(ls: seq<string>, i: nat, st: Scan)
    requires i <= |ls|
    requires st.childIndent.Some? ==> st.childIndent.value > 0
    ensures FindBlock(ls, i, st).Some? ==> FindBlock(ls, i, st).value.indent > 0
    decreases |ls| - i
  {
    hide TopLevelKey, TopLevelBlockKey, IsIndentedKey;
    if i < |ls| && !IsHit(st, ls[i]) {
      LocatedIsIndented(ls, i + 1, Look(st, ls[i]));
    }
  }

  lemma {:induction false} EndOfRun(ls: seq<string>, i: nat, indent: nat, e: nat)
    requires i <= e <= |ls|
    requires forall k :: i <= k < e ==> Continues(ls[k], indent)
    requires e < |ls| ==> !Continues(ls[e], indent)
    ensures BlockEnd(ls, i, indent) == e
    decreases e - i
  {
    if i < e {
      EndOfRun(ls, i + 1, indent, e);
    }
  }

  /** A spliced text has the new block where the old one was, and it ends where its rows stop holding
      together. */
  lemma SplicedIsLocated(ls: seq<string>, b: Block, bin: string)
    requires Located(ls) == Some(b)
    ensures var rows := BlockRows(bin, b.indent); var out := Spliced(ls, b, rows);
      && b.at + |rows| <= |out|
      && Located(out) == Some(b)
      && End(out, b) == b.at + Held(bin, b.indent)
      && out[..b.at] == ls[..b.at]
      && out[b.at..b.at + |rows|] == rows
      && out[b.at + |rows|..] == ls[End(ls, b)..]
  {
    hide BlockRows, FindBlock, IsKeyRow, Continues, BlockEnd;
    var rows, e, n := BlockRows(bin, b.indent), End(ls, b), Held(bin, b.indent);
    var out := Spliced(ls, b, rows);
    LocatedIsIndented(ls, 0, START);
    HeadRowIsKeyRow(b.indent);
    RowsShape(bin, b.indent);
    HeldIs(bin, b.indent);
    assert rows[0] == HeadRow(b.indent);
    SplicedParts(ls, b.at, rows, e);
    FindAgrees(ls, out, 0, START, b);
    EndOfRun(out, b.at + 1, b.indent, b.at + n);
  }

  lemma SplicedParts(ls: seq<string>, at: nat, rows: seq<string>, e: nat)
    requires at <= e <= |ls| && rows != []
    ensures var out := ls[..at] + rows + ls[e..];
      && |out| == at + |rows| + |ls| - e
      && out[..at] == ls[..at]
      && out[at..at + |rows|] == rows
      && out[at + |rows|..] == ls[e..]
      && (forall k :: 0 <= k < at ==> out[k] == ls[k])
      && (forall k :: at <= k < at + |rows| ==> out[k] == rows[k - at])
      && (e < |ls| ==> out[at + |rows|] == ls[e])
  {
  }

  lemma SplicedIsSplit(ls: seq<string>, at: nat, rows: seq<string>, e: nat)
    requires IsSplit(ls) && at <= e <= |ls|
    requires e < |ls| || rows != [] ==> at < |ls| || forall k :: 0 <= k < |ls| ==> Terminated(ls[k])
    requires AllTerminatedLines(rows)
    ensures IsSplit(ls[..at] + rows + ls[e..])
  {
    var out := ls[..at] + rows + ls[e..];
    forall k | 0 <= k < |out|
      ensures IsLine(out[k]) && (k < |out| - 1 ==> Terminated(out[k]))
    {
      if k < at {
        assert out[k] == ls[k];
      } else if k < at + |rows| {
        assert out[k] == rows[k - at];
      } else {
        assert out[k] == ls[e + (k - at - |rows|)];
      }
    }
  }

  lemma ReplacedSplits(yaml: string, bin: string)
    requires Located(SplitInclusive(yaml)).Some?
    ensures var ls := SplitInclusive(yaml); var b := Located(ls).value;
      SplitInclusive(Replaced(yaml, bin).value) == Spliced(ls, b, BlockRows(bin, b.indent))
  {
    hide BlockRows, SplitInclusive, Concat, FindBlock, IsTerminatedLine;
    var ls := SplitInclusive(yaml);
    var b := Located(ls).value;
    SplitIsSplit(yaml);
    RowsShape(bin, b.indent);
    SplicedIsSplit(ls, b.at, BlockRows(bin, b.indent), End(ls, b));
    SplitOfConcat(Spliced(ls, b, BlockRows(bin, b.indent)));
  }

  // ---- Rows left over ------------------------------------------------------------------------------------

  /** The rows of the block that a scanner no longer takes for it. */
  function Strays(bin: string, indent: nat): seq<string> { BlockRows(bin, indent)[Held(bin, indent)..] }

  lemma StraysIffNotHeld(bin: string, indent: nat)
    ensures Strays(bin, indent) == [] <==> HoldsTogether(bin, indent)
    ensures Concat(Strays(bin, indent)) == "" <==> HoldsTogether(bin, indent)
    ensures AllTerminatedLines(Strays(bin, indent))
  {
    hide BlockRows, Concat, Marks, IsTerminatedLine;
    RowsShape(bin, indent);
    HeldIs(bin, indent);
    EmptyConcat();
    StraysAreMarked(bin, indent);
    NoMarks("");
    var strays := Strays(bin, indent);
    assert forall k :: 0 <= k < |strays| ==> strays[k] == BlockRows(bin, indent)[Held(bin, indent) + k];
  }

  lemma SplicedAgain(ls: seq<string>, b: Block, first: string, rows: seq<string>)
    requires Located(ls) == Some(b)
    ensures var once := Spliced(ls, b, BlockRows(first, b.indent));
      && Located(once) == Some(b)
      && Spliced(once, b, rows) == ls[..b.at] + rows + Strays(first, b.indent) + ls[End(ls, b)..]
  {
    hide BlockRows, FindBlock, BlockEnd, Held, HoldsTogether, Located, Continues;
    SplicedIsLocated(ls, b, first);
    HeldIs(first, b.indent);
    CutInside(ls[..b.at], BlockRows(first, b.indent), ls[End(ls, b)..], Held(first, b.indent));
  }

  /** Cutting off the front and the first `n` of the rows behind it. */
  lemma CutInside(a: seq<string>, rows: seq<string>, c: seq<string>, n: nat)
    requires n <= |rows|
    ensures var all := a + rows + c; all[..|a|] == a && all[|a| + n..] == rows[n..] + c && all[|a| + |rows|..] == c
    ensures forall b: seq<string> :: a + b + rows[n..] + c == a + b + (rows[n..] + c)
  {
  }

  lemma MoreText(a: string, b: string, x: string, c: string)
    ensures a + b + x + c == a + b + c <==> x == ""
  {
    assert |a + b + x + c| == |a + b + c| + |x|;
    assert x == "" ==> a + b + x == a + b;
  }

  lemma ConcatThree(a: seq<string>, b: seq<string>, c: seq<string>)
    ensures Concat(a + b + c) == Concat(a) + Concat(b) + Concat(c)
  {
    hide Concat;
    ConcatAppend(a + b, c);
    ConcatAppend(a, b);
  }

  lemma ConcatFour(a: seq<string>, b: seq<string>, x: seq<string>, c: seq<string>)
    ensures Concat(a + b + x + c) == Concat(a) + Concat(b) + Concat(x) + Concat(c)
  {
    hide Concat;
    ConcatAppend(a + b + x, c);
    ConcatThree(a, b, x);
  }

  // ---- Theorems ----------------------------------------------------------------------------------------

  /** MAIN: the last replacement wins: whatever command was written first leaves no trace, exactly when
      its lines hold together with the block. Otherwise the rows that fall off stay behind. */
  lemma LastReplacementWins(yaml: string, first: string, second: string)
    requires Replaced(yaml, first).Ok?
    ensures var ls := SplitInclusive(yaml); var b := Located(ls).value;
      && Replaced(Replaced(yaml, first).value, second)
         == Ok(Concat(ls[..b.at] + BlockRows(second, b.indent) + Strays(first, b.indent) + ls[End(ls, b)..]))
      && (Replaced(Replaced(yaml, first).value, second) == Replaced(yaml, second) <==> HoldsTogether(first, b.indent))
  {
    hide BlockRows, FindBlock, Concat, SplitInclusive, Strays, HoldsTogether, BlockEnd;
    var ls := SplitInclusive(yaml);
    var b := Located(ls).value;
    var rows, strays, rest := BlockRows(second, b.indent), Strays(first, b.indent), ls[End(ls, b)..];
    ReplacedSplits(yaml, first);
    SplicedAgain(ls, b, first, rows);
    ConcatFour(ls[..b.at], rows, strays, rest);
    ConcatThree(ls[..b.at], rows, rest);
    MoreText(Concat(ls[..b.at]), Concat(rows), Concat(strays), Concat(rest));
    StraysIffNotHeld(first, b.indent);
  }

  /** Replacing is idempotent exactly for commands that hold together. */
  lemma ReplaceTwiceIsOnce(yaml: string, bin: string)
    requires Replaced(yaml, bin).Ok?
    ensures Replaced(Replaced(yaml, bin).value, bin) == Replaced(yaml, bin)
      <==> HoldsTogether(bin, Located(SplitInclusive(yaml)).value.indent)
  {
    hide FindBlock, SplitInclusive, Concat, BlockRows, HoldsTogether;
    LastReplacementWins(yaml, bin, bin);
  }

  /** Replacing and then removing leaves what removing leaves, and the rows that fell off. */
  lemma RemoveAfterReplace(yaml: string, bin: string)
    requires Replaced(yaml, bin).Ok?
    ensures var ls := SplitInclusive(yaml); var b := Located(ls).value;
      && Removed(Replaced(yaml, bin).value) == Ok(Concat(ls[..b.at] + Strays(bin, b.indent) + ls[End(ls, b)..]))
      && (Removed(Replaced(yaml, bin).value) == Removed(yaml) <==> HoldsTogether(bin, b.indent))
  {
    hide BlockRows, FindBlock, Concat, SplitInclusive, Strays, HoldsTogether, BlockEnd;
    var ls := SplitInclusive(yaml);
    var b := Located(ls).value;
    var strays, rest := Strays(bin, b.indent), ls[End(ls, b)..];
    ReplacedSplits(yaml, bin);
    SplicedAgain(ls, b, bin, []);
    var once := Spliced(ls, b, BlockRows(bin, b.indent));
    assert once[..b.at] + [] + once[End(once, b)..] == once[..b.at] + once[End(once, b)..];
    assert ls[..b.at] + [] + strays + rest == ls[..b.at] + strays + rest;
    ConcatThree(ls[..b.at], strays, rest);
    ConcatAppend(ls[..b.at], rest);
    MoreText(Concat(ls[..b.at]), "", Concat(strays), Concat(rest));
    assert Concat(ls[..b.at]) + "" == Concat(ls[..b.at]);
    StraysIffNotHeld(bin, b.indent);
  }

  /** A line whose `\n` has a `\r` before it. */
  predicate EndsInCrLf(row: string) { |row| >= 2 && row[|row| - 2] == '\r' }

  /** MAIN: extraction returns the rendered block at the section's indent, exactly when the command's lines
      hold together with it and none of them ends in a carriage return, which line-end stripping would
      eat. */
  lemma ExtractAfterReplace(yaml: string, bin: string)
    requires Replaced(yaml, bin).Ok?
    ensures var b := Located(SplitInclusive(yaml)).value; var rows := BlockRows(bin, b.indent);
      Extracted(Replaced(yaml, bin).value) == Some(RenderBlock(bin, b.indent)) <==>
      HoldsTogether(bin, b.indent) && forall k :: 0 <= k < |rows| ==> !EndsInCrLf(rows[k])
  {
    hide BlockRows, FindBlock, Concat, SplitInclusive, HoldsTogether, StripAll, RenderBlock, IsTerminatedLine, EndsInCrLf, BlockEnd;
    var ls := SplitInclusive(yaml);
    var b := Located(ls).value;
    var text, rows, n := Replaced(yaml, bin).value, BlockRows(bin, b.indent), Held(bin, b.indent);
    ReplacedSplits(yaml, bin);
    SplicedIsLocated(ls, b, bin);
    HeldIs(bin, b.indent);
    RowsShape(bin, b.indent);
    RowsRender(bin, b.indent);
    var out := SplitInclusive(text);
    var block := StripAll(out)[b.at..b.at + n];
    assert LocatedLines(text) == block;
    BlockStrips(out, b.at, rows, n, block);
    NormalisedRows(rows, n, Normalised(block));
  }

  lemma BlockStrips(out: seq<string>, at: nat, rows: seq<string>, n: nat, block: seq<string>)
    requires at + |rows| <= |out| && out[at..at + |rows|] == rows && 1 <= n <= |rows| && block == StripAll(out)[at..at + n]
    ensures |Normalised(block)| == n && forall k :: 0 <= k < n ==> Normalised(block)[k] == TrimEol(rows[k]) + "\n"
  {
    hide StripEol, TrimEol, StripAll;
    forall k | 0 <= k < n
      ensures Normalised(block)[k] == TrimEol(rows[k]) + "\n"
    {
      assert out[at + k] == out[at..at + |rows|][k];
      StripDropsEol(rows[k]);
      TrimEolSame(rows[k], StripEol(rows[k]));
    }
  }

  /** The first `n` rows with normalised ends read as all of them exactly when there are no more and no
      end had to be normalised. */
  lemma NormalisedRows(rows: seq<string>, n: nat, normal: seq<string>)
    requires AllTerminatedLines(rows) && n <= |rows| && |normal| == n
    requires forall k :: 0 <= k < n ==> normal[k] == TrimEol(rows[k]) + "\n"
    ensures Concat(normal) == Concat(rows) <==> n == |rows| && forall k :: 0 <= k < |rows| ==> !EndsInCrLf(rows[k])
  {
    hide Concat, TrimEol, IsTerminatedLine, EndsInCrLf;
    forall k | 0 <= k < n
      ensures |normal[k]| <= |rows[k]| && (|normal[k]| == |rows[k]| <==> !EndsInCrLf(rows[k]))
      ensures !EndsInCrLf(rows[k]) ==> normal[k] == rows[k]
    {
      assert IsTerminatedLine(rows[k]);
      NormalRow(rows[k]);
    }
    ConcatShorter(normal, rows[..n]);
    assert rows == rows[..n] + rows[n..];
    ConcatAppend(rows[..n], rows[n..]);
    if n < |rows| {
      assert IsTerminatedLine(rows[n]);
      LongerText(rows, n);
    } else {
      EmptyConcat();
      assert rows[n..] == [] && rows[..n] == rows;
      if forall k :: 0 <= k < |rows| ==> !EndsInCrLf(rows[k]) {
        assert normal == rows;
      }
    }
  }

  lemma LongerText(rows: seq<string>, n: nat)
    requires n < |rows| && IsTerminatedLine(rows[n])
    ensures |Concat(rows[n..])| > 0
  {
    assert rows[n..] == [rows[n]] + rows[n + 1..];
    ConcatCons(rows[n], rows[n + 1..]);
  }

  lemma NormalRow(row: string)
    requires IsTerminatedLine(row)
    ensures var normal := TrimEol(row) + "\n";
      && |normal| <= |row| && (|normal| == |row| <==> !EndsInCrLf(row)) && (!EndsInCrLf(row) ==> normal == row)
  {
    var s := row[..|row| - 1];
    assert row == s + "\n";
    TrimEolDropsEol(s);
    assert TrimEol(row) == TrimEol(s);
    if EndsInCrLf(row) {
      assert s[|s| - 1] == '\r';
      TrimEolDropsEol(s[..|s| - 1]);
    } else if s != "" {
      assert s[|s| - 1] in s;
      TrimEolOfRow(s);
    }
  }

  predicate SameLengths(xs: seq<string>, ys: seq<string>) {
    |xs| == |ys| && forall k :: 0 <= k < |xs| ==> |xs[k]| == |ys[k]|
  }

  lemma {:induction false} ConcatShorter(xs: seq<string>, ys: seq<string>)
    requires |xs| == |ys| && forall k :: 0 <= k < |xs| ==> |xs[k]| <= |ys[k]|
    ensures |Concat(xs)| <= |Concat(ys)|
    ensures |Concat(xs)| == |Concat(ys)| <==> SameLengths(xs, ys)
  {
    hide Concat;
    if xs != [] {
      var n := |xs| - 1;
      ConcatShorter(xs[..n], ys[..n]);
      ConcatSnoc(xs, n);
      ConcatSnoc(ys, n);
      assert xs[..n + 1] == xs && ys[..n + 1] == ys;
      assert SameLengths(xs, ys) <==> SameLengths(xs[..n], ys[..n]) && |xs[n]| == |ys[n]|;
    }
  }
}
