/** The self-recall report: totals, the tallies by language, and the table that folds the small
    languages into one line. */
module EvalMetrics {
  import opened Wrappers
  import opened Sorting
  import opened EvalSampling

  // ---- One query ------------------------------------------------------------------------------------------------

  /** What retrieval gave for a sample: the ids in rank order, or an error of some class. */
  datatype Outcome = Hits(ids: seq<string>) | Failed(embedCap: bool, rateLimited: bool)

  datatype Run = Run(sample: Sample, outcome: Outcome, latencyMs: nat)

  datatype Cell = Cell(tested: nat, at1: nat, at5: nat, rankSum: real)

  const ZERO := Cell(0, 0, 0, 0.0)

  function Add(a: Cell, b: Cell): Cell {
    Cell(a.tested + b.tested, a.at1 + b.at1, a.at5 + b.at5, a.rankSum + b.rankSum)
  }

  lemma AddLaws(a: Cell, b: Cell, c: Cell)
    ensures Add(a, ZERO) == a && Add(ZERO, a) == a
    ensures Add(a, b) == Add(b, a)
    ensures Add(Add(a, b), c) == Add(a, Add(b, c))
  {
  }

  function Language(r: Run): string { if r.sample.language.Some? then r.sample.language.value else "(unknown)" }

  /** The first rank at which the id appears. */
  function Position(ids: seq<string>, id: string): (p: Option<nat>)
    ensures p.Some? ==> p.value < |ids| && ids[p.value] == id && id !in ids[..p.value]
    ensures p.None? <==> id !in ids
  {
    if ids == [] then None
    else if ids[0] == id then Some(0)
    else
      var rest := Position(ids[1..], id);
      if rest.Some? then Some(1 + rest.value) else None
  }

  function Rank(r: Run): Option<nat> {
    if r.outcome.Hits? then Position(r.outcome.ids, r.sample.skillId) else None
  }

  /** What one query adds to every tally it belongs to. */
  function CellOf(r: Run): Cell {
    match Rank(r)
    case None => Cell(1, 0, 0, 0.0)
    case Some(p) => Cell(1, if p == 0 then 1 else 0, 1, 1.0 / (p as real + 1.0))
  }

  /** The id is at rank `p`, counted from 0, and at no earlier one. */
  predicate FirstAt(ids: seq<string>, id: string, p: nat) { p < |ids| && ids[p] == id && id !in ids[..p] }

  lemma {:induction false} PositionIsFirst(ids: seq<string>, id: string, p: nat)
    requires FirstAt(ids, id, p)
    ensures Position(ids, id) == Some(p)
  {
    if p > 0 {
      assert ids[..p][0] == ids[0] && ids[1..][..p - 1] == ids[..p][1..];
      PositionIsFirst(ids[1..], id, p - 1);
    }
  }

  /** A query whose rule is found at a rank counts as a hit with the reciprocal of that rank. */
  lemma HitCounts(r: Run, p: nat)
    requires r.outcome.Hits? && FirstAt(r.outcome.ids, r.sample.skillId, p)
    ensures var cell := CellOf(r);
      cell.tested == 1 && cell.at5 == 1 && cell.at1 == (if p == 0 then 1 else 0) && cell.rankSum * (p as real + 1.0) == 1.0
  {
    hide Position;
    PositionIsFirst(r.outcome.ids, r.sample.skillId, p);
    Reciprocal(p as real + 1.0);
  }

  lemma Reciprocal(d: real)
    requires d > 0.0
    ensures (1.0 / d) * d == 1.0
  {
  }

  /** A query that failed or did not find its rule counts as asked and nothing else. */
  lemma MissCounts(r: Run)
    requires r.outcome.Failed? || r.sample.skillId !in r.outcome.ids
    ensures CellOf(r) == Cell(1, 0, 0, 0.0)
  {
    hide Position;
  }

  /** A sample without a language is tallied under a name of its own. */
  lemma NoLanguageIsUnknown(r: Run)
    ensures r.sample.language.None? ==> Language(r) == "(unknown)"
    ensures r.sample.language.Some? ==> Language(r) == r.sample.language.value
  {
  }

  // ---- Tallies ----------------------------------------------------------------------------------------------------

  /** The sum over all queries, or over those of one language. */
  function Tally(runs: seq<Run>, only: Option<string>): Cell {
    if runs == [] then ZERO
    else
      var front, last := Tally(runs[..|runs| - 1], only), runs[|runs| - 1];
      if only.None? || only.value == Language(last) then Add(front, CellOf(last)) else front
  }

  function Failures(runs: seq<Run>, only: Option<string>): nat {
    if runs == [] then 0
    else
      var front, last := Failures(runs[..|runs| - 1], only), runs[|runs| - 1];
      front + if last.outcome.Failed? && (only.None? || only.value == Language(last)) then 1 else 0
  }

  datatype Class = EmbedCap | RateLimited

  predicate IsOf(r: Run, c: Class) {
    r.outcome.Failed? && match c case EmbedCap => r.outcome.embedCap case RateLimited => r.outcome.rateLimited
  }

  function FailuresOf(runs: seq<Run>, c: Class): nat {
    if runs == [] then 0 else FailuresOf(runs[..|runs| - 1], c) + if IsOf(runs[|runs| - 1], c) then 1 else 0
  }

  datatype Report = Report(
    total: Cell,
    perLang: map<string, Cell>,
    latencyMs: seq<nat>,
    errors: nat,
    embedCapErrors: nat,
    rateLimitedErrors: nat)

  predicate PerLanguage(cells: map<string, Cell>, runs: seq<Run>) {
    && (forall l :: l in cells ==> cells[l] == Tally(runs, Some(l)))
    && (forall i :: 0 <= i < |runs| ==> Language(runs[i]) in cells)
  }

  lemma TallySnoc(runs: seq<Run>, i: nat, only: Option<string>)
    requires i < |runs|
    ensures Tally(runs[..i + 1], only)
      == if only.None? || only.value == Language(runs[i]) then Add(Tally(runs[..i], only), CellOf(runs[i])) else Tally(runs[..i], only)
    ensures Failures(runs[..i + 1], only)
      == Failures(runs[..i], only) + if runs[i].outcome.Failed? && (only.None? || only.value == Language(runs[i])) then 1 else 0
    ensures FailuresOf(runs[..i + 1], EmbedCap) == FailuresOf(runs[..i], EmbedCap) + if IsOf(runs[i], EmbedCap) then 1 else 0
    ensures FailuresOf(runs[..i + 1], RateLimited) == FailuresOf(runs[..i], RateLimited) + if IsOf(runs[i], RateLimited) then 1 else 0
  {
    hide CellOf;
    assert runs[..i + 1][..i] == runs[..i];
  }

  lemma {:induction false} NoneOf(runs: seq<Run>, l: string)
    requires forall i :: 0 <= i < |runs| ==> Language(runs[i]) != l
    ensures Tally(runs, Some(l)) == ZERO
  {
    hide CellOf, Language;
    if runs != [] {
      NoneOf(runs[..|runs| - 1], l);
    }
  }

  /** Adding one query to the cells of the languages. */
  lemma PerLanguageStep(cells: map<string, Cell>, runs: seq<Run>, i: nat)
    requires i < |runs| && PerLanguage(cells, runs[..i])
    ensures var l := Language(runs[i]);
      PerLanguage(cells[l := Add(if l in cells then cells[l] else ZERO, CellOf(runs[i]))], runs[..i + 1])
  {
    hide CellOf, Language, Tally, Add;
    var l := Language(runs[i]);
    if l !in cells {
      NoneOf(runs[..i], l);
    }
    var next := cells[l := Add(if l in cells then cells[l] else ZERO, CellOf(runs[i]))];
    forall m: string | m in next
      ensures next[m] == Tally(runs[..i + 1], Some(m))
    {
      TallySnoc(runs, i, Some(m));
    }
    assert runs[..i + 1] == runs[..i] + [runs[i]];
  }

  /** What one query does to the totals and to the entry of its language. */
  method Count(run: Run, total0: Cell, entry0: Cell) returns (total: Cell, entry: Cell)
    ensures total == Add(total0, CellOf(run)) && entry == Add(entry0, CellOf(run))
  {
    total := total0.(tested := total0.tested + 1);
    entry := entry0.(tested := entry0.tested + 1);
    if run.outcome.Failed? {
      return;
    }
    var pos := Position(run.outcome.ids, run.sample.skillId);
    if pos.Some? {
      total := total.(at5 := total.at5 + 1);
      entry := entry.(at5 := entry.at5 + 1);
      var reciprocalRank := 1.0 / (pos.value as real + 1.0);
      total := total.(rankSum := total.rankSum + reciprocalRank);
      entry := entry.(rankSum := entry.rankSum + reciprocalRank);
      if pos.value == 0 {
        total := total.(at1 := total.at1 + 1);
        entry := entry.(at1 := entry.at1 + 1);
      }
    }
  }

  /** `measure_self_recall`, over the outcomes retrieval gave. */
  method Measure(runs: seq<Run>) returns (r: Report)
    ensures r.total == Tally(runs, None)
    ensures PerLanguage(r.perLang, runs)
    ensures forall l :: l in r.perLang ==> exists i :: 0 <= i < |runs| && Language(runs[i]) == l
    ensures |r.latencyMs| == |runs| && forall i :: 0 <= i < |runs| ==> r.latencyMs[i] == runs[i].latencyMs
    ensures r.errors == Failures(runs, None)
    ensures r.embedCapErrors == FailuresOf(runs, EmbedCap) && r.rateLimitedErrors == FailuresOf(runs, RateLimited)
  {
    hide Tally, Failures, FailuresOf, PerLanguage, Language, Position, CellOf, Add;
    r := Report(ZERO, map[], [], 0, 0, 0);
    Empty();
    assert runs[..0] == [];
    for i := 0 to |runs|
      invariant r.total == Tally(runs[..i], None)
      invariant PerLanguage(r.perLang, runs[..i])
      invariant forall l :: l in r.perLang ==> exists j :: 0 <= j < i && Language(runs[j]) == l
      invariant |r.latencyMs| == i && forall j :: 0 <= j < i ==> r.latencyMs[j] == runs[j].latencyMs
      invariant r.errors == Failures(runs[..i], None)
      invariant r.embedCapErrors == FailuresOf(runs[..i], EmbedCap)
      invariant r.rateLimitedErrors == FailuresOf(runs[..i], RateLimited)
    {
      var run := runs[i];
      var l := Language(run);
      PerLanguageStep(r.perLang, runs, i);
      TallySnoc(runs, i, None);
      var entry := if l in r.perLang then r.perLang[l] else ZERO;
      r := r.(latencyMs := r.latencyMs + [run.latencyMs]);
      if run.outcome.Failed? {
        r := r.(errors := r.errors + 1);
        if run.outcome.embedCap {
          r := r.(embedCapErrors := r.embedCapErrors + 1);
        }
        if run.outcome.rateLimited {
          r := r.(rateLimitedErrors := r.rateLimitedErrors + 1);
        }
      }
      var total;
      total, entry := Count(run, r.total, entry);
      r := r.(total := total, perLang := r.perLang[l := entry]);
    }
    assert runs[..|runs|] == runs;
  }

  lemma Empty()
    ensures Tally([], None) == ZERO && Failures([], None) == 0 && PerLanguage(map[], [])
    ensures FailuresOf([], EmbedCap) == 0 && FailuresOf([], RateLimited) == 0
  {
  }

  // ---- Conservation -----------------------------------------------------------------------------------------------

  predicate DistinctNames(names: seq<string>) { forall i, j :: 0 <= i < j < |names| ==> names[i] != names[j] }

  /** The sum of the cells of these languages. */
  function SumOver(names: seq<string>, runs: seq<Run>): Cell {
    if names == [] then ZERO
    else Add(SumOver(names[..|names| - 1], runs), Tally(runs, Some(names[|names| - 1])))
  }

  lemma {:induction false} SumGrows(names: seq<string>, runs: seq<Run>)
    requires runs != [] && DistinctNames(names)
    ensures var front, last := runs[..|runs| - 1], runs[|runs| - 1];
      SumOver(names, runs) == if Language(last) in names then Add(SumOver(names, front), CellOf(last)) else SumOver(names, front)
  {
    hide CellOf, Language;
    if names != [] {
      SumGrows(names[..|names| - 1], runs);
      assert names == names[..|names| - 1] + [names[|names| - 1]];
      if Language(runs[|runs| - 1]) == names[|names| - 1] {
        assert Language(runs[|runs| - 1]) !in names[..|names| - 1];
      }
    }
  }

  lemma {:induction false} SumOfNothing(names: seq<string>)
    ensures SumOver(names, []) == ZERO
  {
    hide Tally, Add;
    if names != [] {
      SumOfNothing(names[..|names| - 1]);
      NoneOf([], names[|names| - 1]);
      AddLaws(ZERO, ZERO, ZERO);
    }
  }

  /** MAIN: the tallies by language add up to the totals, in whatever order the languages are listed. */
  lemma {:induction false} LanguagesSumToTotal(runs: seq<Run>, names: seq<string>)
    requires DistinctNames(names) && forall i :: 0 <= i < |runs| ==> Language(runs[i]) in names
    ensures SumOver(names, runs) == Tally(runs, None)
  {
    hide CellOf, Language;
    if runs == [] {
      SumOfNothing(names);
    } else {
      LanguagesSumToTotal(runs[..|runs| - 1], names);
      SumGrows(names, runs);
    }
  }

  lemma ReciprocalRank(p: nat)
    ensures var rr := 1.0 / (p as real + 1.0);
      && 0.0 < rr <= 1.0 && (p == 0 ==> rr == 1.0) && (p > 0 ==> rr <= 0.5) && (p < 5 ==> rr >= 0.2)
  {
    var d := p as real + 1.0;
    var rr := 1.0 / d;
    assert rr * d == 1.0;
    if p > 0 {
      assert d >= 2.0;
    }
  }

  predicate TopFive(runs: seq<Run>) {
    forall i :: 0 <= i < |runs| && runs[i].outcome.Hits? ==> |runs[i].outcome.ids| <= 5
  }

  /** MAIN: for the totals and for every language, hits at 1 are hits at 5, those are queries that did
      not fail, and the reciprocal ranks add up to something between the two hit counts. */
  lemma {:induction false} TallyBounds(runs: seq<Run>, only: Option<string>)
    ensures var t := Tally(runs, only);
      && t.at1 <= t.at5 && t.at5 + Failures(runs, only) <= t.tested <= |runs|
      && (only.None? ==> t.tested == |runs|)
      && t.at1 as real <= t.rankSum <= (t.at1 + t.at5) as real / 2.0
      && (TopFive(runs) ==> t.rankSum >= t.at1 as real + (t.at5 - t.at1) as real / 5.0)
  {
    hide Language, CellOf, Rank;
    if runs != [] {
      TallyBounds(runs[..|runs| - 1], only);
      CellBounds(runs[|runs| - 1]);
    }
  }

  lemma CellBounds(r: Run)
    ensures var c := CellOf(r);
      && c.tested == 1 && c.at1 <= c.at5 && c.at5 + (if r.outcome.Failed? then 1 else 0) <= 1
      && c.at1 as real <= c.rankSum <= (c.at1 + c.at5) as real / 2.0
      && (r.outcome.Hits? && |r.outcome.ids| <= 5 ==> c.rankSum >= c.at1 as real + (c.at5 - c.at1) as real / 5.0)
      && (r.outcome.Failed? ==> c.rankSum == 0.0 && c.at5 == 0)
  {
    hide Position;
    if Rank(r).Some? {
      ReciprocalRank(Rank(r).value);
    }
  }

  // ---- The language table -----------------------------------------------------------------------------------------

  datatype Line = Line(name: string, cell: Cell)

  /** More tested first, then by name. */
  predicate LineOrder(a: Line, b: Line) {
    a.cell.tested > b.cell.tested || (a.cell.tested == b.cell.tested && AtMost(a.name, b.name))
  }

  function Column(lines: seq<Line>): Cell {
    if lines == [] then ZERO else Add(Column(lines[..|lines| - 1]), lines[|lines| - 1].cell)
  }

  lemma {:induction false} ColumnSplit(a: seq<Line>, b: seq<Line>)
    ensures Column(a + b) == Add(Column(a), Column(b))
  {
    hide Add;
    if b == [] {
      assert a + b == a;
      AddLaws(Column(a), ZERO, ZERO);
    } else {
      assert (a + b)[..|a + b| - 1] == a + b[..|b| - 1];
      ColumnSplit(a, b[..|b| - 1]);
      AddLaws(Column(a), Column(b[..|b| - 1]), b[|b| - 1].cell);
    }
  }

  lemma ColumnOne(l: Line)
    ensures Column([l]) == l.cell
  {
    hide Add;
    assert [l][..0] == [];
    AddLaws(l.cell, l.cell, l.cell);
  }

  /** Column sums do not depend on the order of the lines. */
  lemma {:induction false} ColumnPermutes(a: seq<Line>, b: seq<Line>)
    requires multiset(a) == multiset(b)
    ensures Column(a) == Column(b)
    decreases |a|
  {
    hide Add;
    if a == [] {
      assert |multiset(b)| == |b|;
    } else {
      var l := a[|a| - 1];
      assert a == a[..|a| - 1] + [l];
      assert l in multiset(b);
      var k :| 0 <= k < |b| && b[k] == l;
      WithoutOne(b, k);
      Cancel(multiset(a[..|a| - 1]), multiset(b[..k] + b[k + 1..]), l);
      ColumnPermutes(a[..|a| - 1], b[..k] + b[k + 1..]);
    }
  }

  lemma Cancel(x: multiset<Line>, y: multiset<Line>, l: Line)
    requires x + multiset{l} == y + multiset{l}
    ensures x == y
  {
    assert x == (x + multiset{l}) - multiset{l};
    assert y == (y + multiset{l}) - multiset{l};
  }

  lemma WithoutOne(b: seq<Line>, k: nat)
    requires k < |b|
    ensures multiset(b) == multiset(b[..k] + b[k + 1..]) + multiset{b[k]}
    ensures Column(b) == Add(Column(b[..k] + b[k + 1..]), b[k].cell)
  {
    hide Add, Column;
    var l := b[k];
    assert b == (b[..k] + [l]) + b[k + 1..];
    ColumnSplit(b[..k], b[k + 1..]);
    ColumnSplit(b[..k] + [l], b[k + 1..]);
    ColumnSplit(b[..k], [l]);
    ColumnOne(l);
    var x, y := Column(b[..k]), Column(b[k + 1..]);
    AddLaws(x, l.cell, y);
    AddLaws(x, y, l.cell);
    AddLaws(y, l.cell, l.cell);
  }

  lemma ColumnStarts()
    ensures Column([]) == ZERO
  {
  }

  lemma ColumnStep(lines: seq<Line>, i: nat)
    requires i < |lines|
    ensures Column(lines[..i + 1]) == Add(Column(lines[..i]), lines[i].cell)
  {
    hide Add;
    assert lines[..i + 1][..i] == lines[..i];
  }

  lemma LineOrderTotal()
    ensures Total(LineOrder)
  {
    forall a, b
      ensures LineOrder(a, b) || LineOrder(b, a)
    {
      AtMostTotal(a.name, b.name);
    }
  }

  lemma OrderedIsTable(s: seq<Line>)
    requires Ordered(s, LineOrder)
    ensures InTableOrder(s)
  {
    hide AtMost;
    forall i | 0 <= i < |s| - 1
      ensures LineOrder(s[i], s[i + 1])
    {
    }
  }

  lemma {:induction false} OrderedByTested(s: seq<Line>, i: nat, j: nat)
    requires Ordered(s, LineOrder) && i <= j < |s|
    ensures s[i].cell.tested >= s[j].cell.tested
  {
    if i < j {
      OrderedByTested(s, i, j - 1);
      assert LineOrder(s[j - 1], s[j - 1 + 1]);
    }
  }

  /** More tested first, then by name. */
  predicate InTableOrder(lines: seq<Line>) {
    forall i :: 0 <= i < |lines| - 1 ==>
      || lines[i].cell.tested > lines[i + 1].cell.tested
      || (lines[i].cell.tested == lines[i + 1].cell.tested && AtMost(lines[i].name, lines[i + 1].name))
  }

  /** The last line stands for `rest`; the lines above it are the others, none smaller than one of the rest. */
  predicate Folds(out: seq<Line>, limit: nat, lines: seq<Line>, rest: seq<Line>) {
    && |out| == limit + 1 && out[limit] == Line("other", Column(rest))
    && InTableOrder(out[..limit]) && multiset(out[..limit] + rest) == multiset(lines)
    && forall i, j :: 0 <= i < limit && 0 <= j < |rest| ==> out[i].cell.tested >= rest[j].cell.tested
  }

  /** `top_languages`: the lines are the sorted languages, or the `limit` largest of them and one line
      that holds the rest; either way every column keeps its sum. */
  method TopLanguages(lines: seq<Line>, limit: nat) returns (out: seq<Line>)
    ensures Column(out) == Column(lines)
    ensures |lines| <= limit ==> multiset(out) == multiset(lines) && InTableOrder(out)
    ensures |lines| > limit ==> exists rest: seq<Line> :: Folds(out, limit, lines, rest)
  {
    hide Add, Column, LineOrder;
    LineOrderTotal();
    var entries := Sort(lines, LineOrder);
    ColumnPermutes(entries, lines);
    OrderedIsTable(entries);
    if |entries| <= limit {
      assert |multiset(entries)| == |entries| && |multiset(lines)| == |lines|;
      return entries;
    }
    assert |multiset(entries)| == |entries| && |multiset(lines)| == |lines|;
    var top, rest := entries[..limit], entries[limit..];
    assert entries == top + rest;
    ColumnSplit(top, rest);
    var folded := ZERO;
    ColumnStarts();
    for i := 0 to |rest|
      invariant folded == Column(rest[..i])
    {
      ColumnStep(rest, i);
      folded := Add(folded, rest[i].cell);
    }
    assert rest[..|rest|] == rest;
    out := top + [Line("other", folded)];
    ColumnSplit(top, [Line("other", folded)]);
    ColumnOne(Line("other", folded));
    assert out[..limit] == top;
    forall i, j | 0 <= i < limit && 0 <= j < |rest|
      ensures out[i].cell.tested >= rest[j].cell.tested
    {
      OrderedByTested(entries, i, limit + j);
    }
    assert Folds(out, limit, lines, rest);
  }

  /** The report's languages as lines, in some order. */
  function LinesOf(names: seq<string>, cells: map<string, Cell>): (r: seq<Line>)
    requires forall i :: 0 <= i < |names| ==> names[i] in cells
    ensures |r| == |names| && forall i :: 0 <= i < |r| ==> r[i] == Line(names[i], cells[names[i]])
  {
    seq(|names|, i requires 0 <= i < |names| => Line(names[i], cells[names[i]]))
  }

  lemma {:induction false} LinesSum(names: seq<string>, cells: map<string, Cell>, runs: seq<Run>)
    requires (forall i :: 0 <= i < |names| ==> names[i] in cells) && PerLanguage(cells, runs)
    ensures Column(LinesOf(names, cells)) == SumOver(names, runs)
  {
    hide Tally;
    if names != [] {
      var front := names[..|names| - 1];
      LinesSum(front, cells, runs);
      assert LinesOf(names, cells)[..|names| - 1] == LinesOf(front, cells);
    }
  }

  /** MAIN: from the queries to the printed table, no query is lost or counted twice: however the
      languages are listed, the columns of the table sum to the totals of the report. */
  lemma TableKeepsTotals(names: seq<string>, cells: map<string, Cell>, runs: seq<Run>, out: seq<Line>)
    requires PerLanguage(cells, runs) && DistinctNames(names)
    requires (forall i :: 0 <= i < |names| ==> names[i] in cells) && forall l :: l in cells ==> l in names
    requires Column(out) == Column(LinesOf(names, cells))
    ensures Column(out) == Tally(runs, None)
  {
    hide Tally, Column, SumOver;
    LinesSum(names, cells, runs);
    LanguagesSumToTotal(runs, names);
  }
}
