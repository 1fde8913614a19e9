/** Filling lines greedily: every break is forced, and no other way to break the words needs fewer lines. */
module AnsiGreedy {
  import opened Text
  import opened AnsiText
  import opened AnsiWrap

  /** How wide a line is that starts with so many cells and holds the words `from..end`. */
  function Span(words: seq<string>, from: nat, end: nat, start: nat, w: CellWidth): nat
    requires from <= end <= |words|
  {
    if from == end then start
    else Span(words, from, end - 1, start, w) + (if from < end - 1 then 1 else 0) + Width(words[end - 1], w)
  }

  /** A line's words may stand on it: it fits, or it holds a single word. */
  predicate Admits(words: seq<string>, from: nat, end: nat, start: nat, limit: nat, w: CellWidth)
    requires from < end <= |words|
  {
    end - from == 1 || Span(words, from, end, start, w) <= limit
  }

  function LineStart(k: nat, indent: nat, hang: nat): nat { if k == 0 then indent else hang }

  /** The first `n` words broken into lines: `starts` are the indices of their first words. */
  predicate IsLayout(words: seq<string>, n: nat, starts: seq<nat>, indent: nat, hang: nat, limit: nat, w: CellWidth)
    requires n <= |words|
    decreases |starts|
  {
    && starts != []
    && var k := |starts| - 1; var last := starts[k];
    && last < n
    && Admits(words, last, n, LineStart(k, indent, hang), limit, w)
    && if k == 0 then last == 0 else IsLayout(words, last, starts[..k], indent, hang, limit, w)
  }

  lemma {:induction false} SpanShrinks(words: seq<string>, from: nat, later: nat, end: nat, start: nat, w: CellWidth)
    requires from <= later < end <= |words|
    ensures Span(words, later, end, start, w) <= Span(words, from, end, start, w)
    decreases end
  {
    hide Width;
    if later < end - 1 {
      SpanShrinks(words, from, later, end - 1, start, w);
    } else {
      SpanAtLeast(words, from, end - 1, start, w);
    }
  }

  lemma {:induction false} SpanAtLeast(words: seq<string>, from: nat, end: nat, start: nat, w: CellWidth)
    requires from <= end <= |words|
    ensures Span(words, from, end, start, w) >= start
    decreases end
  {
    hide Width;
    if from < end {
      SpanAtLeast(words, from, end - 1, start, w);
    }
  }

  /** The page's width is that of the words on its current line. */
  lemma {:induction false} PageSpan(words: seq<string>, n: nat, indent: nat, hang: nat, limit: nat, w: CellWidth)
    requires n <= |words|
    ensures var p := Fill(words, n, indent, hang, limit, w);
      && p.count <= n && (n > 0 ==> p.count > 0)
      && p.width == Span(words, n - p.count, n, LineStart(|p.lines|, indent, hang), w)
  {
    hide Width, Active;
    if n > 0 {
      PageSpan(words, n - 1, indent, hang, limit, w);
    }
  }

  /** No layout is ahead of the greedy one: it has no fewer lines, and if it has as many, its last line
      does not start later. */
  lemma {:induction false} GreedyIsAhead(words: seq<string>, n: nat, starts: seq<nat>, indent: nat, hang: nat, limit: nat, w: CellWidth)
    requires 0 < n <= |words| && IsLayout(words, n, starts, indent, hang, limit, w)
    ensures var p := Fill(words, n, indent, hang, limit, w);
      && |p.lines| + 1 <= |starts|
      && p.count <= n
      && (|p.lines| + 1 == |starts| ==> n - p.count >= starts[|starts| - 1])
    decreases n
  {
    hide Width, Active, Span;
    var k := |starts| - 1;
    var last := starts[k];
    PageSpan(words, n - 1, indent, hang, limit, w);
    PageSpan(words, n, indent, hang, limit, w);
    PlacedLines(words, n, indent, hang, limit, w);
    if n > 1 {
      if last == n - 1 {
        GreedyIsAhead(words, n - 1, starts[..k], indent, hang, limit, w);
      } else {
        var q := Fill(words, n - 1, indent, hang, limit, w);
        var start := LineStart(k, indent, hang);
        SpanSnoc(words, last, n, start, w);
        GreedyIsAhead(words, n - 1, starts, indent, hang, limit, w);
        if |q.lines| == k {
          SpanSnoc(words, n - 1 - q.count, n, start, w);
          SpanShrinks(words, last, n - 1 - q.count, n, start, w);
        }
      }
    }
  }

  lemma SpanSnoc(words: seq<string>, from: nat, end: nat, start: nat, w: CellWidth)
    requires from < end <= |words|
    ensures Span(words, from, end, start, w)
      == Span(words, from, end - 1, start, w) + (if from < end - 1 then 1 else 0) + Width(words[end - 1], w)
  {
    hide Width;
  }

  /** One more word opens a line or stays on the one there is. */
  lemma PlacedLines(words: seq<string>, n: nat, indent: nat, hang: nat, limit: nat, w: CellWidth)
    requires 0 < n <= |words|
    ensures var q, p := Fill(words, n - 1, indent, hang, limit, w), Fill(words, n, indent, hang, limit, w);
      if Breaks(q, words[n - 1], limit, w) then |p.lines| == |q.lines| + 1 && p.count == 1
      else |p.lines| == |q.lines| && p.count == q.count + 1
  {
    hide Width, Active;
  }

  // ---- The layout the wrapper produces ------------------------------------------------------------------------

  /** The first words of the lines that filling produces. */
  function Starts(words: seq<string>, n: nat, indent: nat, hang: nat, limit: nat, w: CellWidth): seq<nat>
    requires n <= |words|
  {
    if n == 0 then []
    else
      var front := Starts(words, n - 1, indent, hang, limit, w);
      if n == 1 || Breaks(Fill(words, n - 1, indent, hang, limit, w), words[n - 1], limit, w) then front + [n - 1] else front
  }

  /** The line before break `k` could not have taken the word behind it. */
  predicate ForcedAt(words: seq<string>, starts: seq<nat>, k: nat, indent: nat, hang: nat, limit: nat, w: CellWidth)
    requires 0 < k < |starts|
  {
    starts[k - 1] <= starts[k] < |words| && Span(words, starts[k - 1], starts[k] + 1, LineStart(k - 1, indent, hang), w) > limit
  }

  predicate Forced(words: seq<string>, starts: seq<nat>, indent: nat, hang: nat, limit: nat, w: CellWidth) {
    forall k :: 0 < k < |starts| ==> ForcedAt(words, starts, k, indent, hang, limit, w)
  }

  lemma LayoutStays(words: seq<string>, n: nat, starts: seq<nat>, indent: nat, hang: nat, limit: nat, w: CellWidth)
    requires 1 < n <= |words| && IsLayout(words, n - 1, starts, indent, hang, limit, w)
    requires Admits(words, starts[|starts| - 1], n, LineStart(|starts| - 1, indent, hang), limit, w)
    ensures IsLayout(words, n, starts, indent, hang, limit, w)
  {
    hide Admits;
  }

  lemma LayoutBreaks(words: seq<string>, n: nat, starts: seq<nat>, indent: nat, hang: nat, limit: nat, w: CellWidth)
    requires 1 < n <= |words| && IsLayout(words, n - 1, starts, indent, hang, limit, w)
    ensures IsLayout(words, n, starts + [n - 1], indent, hang, limit, w)
  {
    hide Span;
    var all := starts + [n - 1];
    assert all[..|starts|] == starts && all[|starts|] == n - 1;
  }

  lemma ForcedSnoc(words: seq<string>, starts: seq<nat>, next: nat, indent: nat, hang: nat, limit: nat, w: CellWidth)
    requires Forced(words, starts, indent, hang, limit, w) && starts != [] && starts[|starts| - 1] <= next < |words|
    requires Span(words, starts[|starts| - 1], next + 1, LineStart(|starts| - 1, indent, hang), w) > limit
    ensures Forced(words, starts + [next], indent, hang, limit, w)
  {
    hide Span, LineStart;
    var all := starts + [next];
    forall k | 0 < k < |all|
      ensures ForcedAt(words, all, k, indent, hang, limit, w)
    {
      assert all[k - 1] == starts[k - 1];
      assert k < |starts| ==> ForcedAt(words, starts, k, indent, hang, limit, w);
    }
  }

  lemma FirstLayout(words: seq<string>, indent: nat, hang: nat, limit: nat, w: CellWidth)
    requires words != []
    ensures Starts(words, 1, indent, hang, limit, w) == [0]
    ensures IsLayout(words, 1, [0], indent, hang, limit, w) && Forced(words, [0], indent, hang, limit, w)
  {
    hide Span, Width;
    assert Starts(words, 0, indent, hang, limit, w) == [];
  }

  lemma {:induction false} FillIsLayout(words: seq<string>, n: nat, indent: nat, hang: nat, limit: nat, w: CellWidth)
    requires 0 < n <= |words|
    ensures var p, starts := Fill(words, n, indent, hang, limit, w), Starts(words, n, indent, hang, limit, w);
      && |starts| == |p.lines| + 1 && p.count <= n && starts[|starts| - 1] == n - p.count
      && IsLayout(words, n, starts, indent, hang, limit, w)
      && Forced(words, starts, indent, hang, limit, w)
  {
    hide Width, Active, Span, Fill, IsLayout, Forced;
    PageSpan(words, n - 1, indent, hang, limit, w);
    PageSpan(words, n, indent, hang, limit, w);
    PlacedLines(words, n, indent, hang, limit, w);
    var q := Fill(words, n - 1, indent, hang, limit, w);
    if n == 1 {
      FirstLayout(words, indent, hang, limit, w);
      NothingFilled(words, indent, hang, limit, w);
    } else {
      var front := Starts(words, n - 1, indent, hang, limit, w);
      FillIsLayout(words, n - 1, indent, hang, limit, w);
      SpanSnoc(words, n - 1 - q.count, n, LineStart(|q.lines|, indent, hang), w);
      if Breaks(q, words[n - 1], limit, w) {
        LayoutBreaks(words, n, front, indent, hang, limit, w);
        ForcedSnoc(words, front, n - 1, indent, hang, limit, w);
      } else {
        LayoutStays(words, n, front, indent, hang, limit, w);
      }
    }
  }

  lemma NothingFilled(words: seq<string>, indent: nat, hang: nat, limit: nat, w: CellWidth)
    ensures var p := Fill(words, 0, indent, hang, limit, w); p.lines == [] && p.count == 0
  {
  }

  /** MAIN: a split line is printed in as few rows as its words allow. The rows are a layout of the words
      in which every break was forced, and every other layout has at least as many lines. */
  lemma FewestRows(line: string, width: nat, w: CellWidth, other: seq<nat>)
    requires var words := Words(line[IndentOf(line)..]); Width(line, w) > Clamp(width) && |words| > 1
    ensures var words, indent, hang, limit := Words(line[IndentOf(line)..]), IndentOf(line), Hang(line), Clamp(width);
      var starts, rows := Starts(words, |words|, indent, hang, limit, w), WrapRows(line, width, w);
      && |starts| == |rows|
      && IsLayout(words, |words|, starts, indent, hang, limit, w) && Forced(words, starts, indent, hang, limit, w)
      && (IsLayout(words, |words|, other, indent, hang, limit, w) ==> |rows| <= |other|)
  {
    hide Words, Width, Hang, Fill, Starts, IsLayout;
    var words, indent, hang, limit := Words(line[IndentOf(line)..]), IndentOf(line), Hang(line), Clamp(width);
    FillIsLayout(words, |words|, indent, hang, limit, w);
    if IsLayout(words, |words|, other, indent, hang, limit, w) {
      GreedyIsAhead(words, |words|, other, indent, hang, limit, w);
    }
  }
}
