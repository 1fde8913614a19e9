/** Installing and uninstalling the block: `merge_goose_yaml_config` and `remove_goose_yaml_config`
    on the text of the file. */
module GooseInstall {
  import opened Wrappers
  import opened Text
  import opened GooseYaml
  import opened GooseBlock
  import opened GooseReplace

  const HEADER := "mcpServers:\n"
  const NOT_FOUND := "mcpServers: not found"
  const INLINE := "mcpServers must be a block mapping, not an inline value"

  // ---- Insertion -----------------------------------------------------------------------------------

  /** The first line with the top-level key `mcpServers`, or the number of lines. */
  function FindSection(ls: seq<string>, i: nat): (h: nat)
    requires i <= |ls|
    ensures i <= h <= |ls|
    ensures forall k :: i <= k < h ==> TopLevelKey(ls[k]) != Some(SECTION)
    ensures h < |ls| ==> TopLevelKey(ls[h]) == Some(SECTION)
    decreases |ls| - i
  {
    if i == |ls| || TopLevelKey(ls[i]) == Some(SECTION) then i else FindSection(ls, i + 1)
  }

  /** The indent of the first child line of a block section, from line `i` on. */
  function FirstChildIndent(ls: seq<string>, i: nat, inSection: bool): Option<nat>
    requires i <= |ls|
    decreases |ls| - i
  {
    if i == |ls| then None
    else if TopLevelKey(ls[i]).Some? then FirstChildIndent(ls, i + 1, IsSectionHeader(ls[i]))
    else if inSection && ChildIndentOf(ls[i]).Some? then ChildIndentOf(ls[i])
    else FirstChildIndent(ls, i + 1, inSection)
  }

  function OrTwo(n: Option<nat>): nat { if n.Some? then n.value else 2 }

  function InsertIndent(ls: seq<string>): nat { OrTwo(FirstChildIndent(ls, 0, false)) }

  function WithRows(ls: seq<string>, at: nat, rows: seq<string>): seq<string>
    requires at <= |ls|
  {
    ls[..at] + rows + ls[at..]
  }

  function Inserted(yaml: string, bin: string): Result<string> {
    var ls := SplitInclusive(yaml);
    var h := FindSection(ls, 0);
    if h == |ls| then Err(NOT_FOUND)
    else if !IsSectionHeader(ls[h]) then Err(INLINE)
    else Ok(Concat(WithRows(ls, h + 1, BlockRows(bin, InsertIndent(ls)))))
  }

  /** `mcp_child_indent`. */
  method ChildIndent(yaml: string) returns (indent: Option<nat>)
    ensures indent == FirstChildIndent(SplitInclusive(yaml), 0, false)
  {
    hide TopLevelKey, TopLevelBlockKey, ChildIndentOf, SplitInclusive, StripAll;
    var lines := Lines(yaml);
    FirstChildSame(SplitInclusive(yaml), 0, false);
    var inSection := false;
    for i := 0 to |lines|
      invariant FirstChildIndent(lines, i, inSection) == FirstChildIndent(lines, 0, false)
    {
      var line := lines[i];
      var key := TopLevelKey(line);
      if key.Some? {
        inSection := key.value == SECTION && TopLevelBlockKey(line) == Some(SECTION);
        continue;
      }
      var child := ChildIndentOf(line);
      if inSection && child.Some? {
        return child;
      }
    }
    return None;
  }

  lemma {:induction false} FirstChildSame(ls: seq<string>, i: nat, inSection: bool)
    requires i <= |ls|
    ensures FirstChildIndent(StripAll(ls), i, inSection) == FirstChildIndent(ls, i, inSection)
    decreases |ls| - i
  {
    if i < |ls| {
      StripDropsEol(ls[i]);
      LookSame(START, ls[i], StripEol(ls[i]));
      FirstChildSame(ls, i + 1, if TopLevelKey(ls[i]).Some? then IsSectionHeader(ls[i]) else inSection);
    }
  }

  /** `insert_under_mcp_servers`: walks byte offsets and slices the text around the insertion point. */
  method Insert(yaml: string, bin: string) returns (r: Result<string>)
    ensures r == Inserted(yaml, bin)
  {
    hide TopLevelKey, TopLevelBlockKey, BlockRows, RenderBlock, SplitInclusive, Concat;
    var child := ChildIndent(yaml);
    var indent := OrTwo(child);
    var lines := SplitInclusive(yaml);
    ConcatOfSplit(yaml);
    var offset := 0;
    CopyNothing([], lines, 0);
    assert lines[..0] == [];
    for i := 0 to |lines|
      invariant FindSection(lines, i) == FindSection(lines, 0)
      invariant offset == |Concat(lines[..i])| <= |yaml|
    {
      var line := lines[i];
      CutAt(lines, i);
      CutAt(lines, i + 1);
      ConcatSnoc(lines, i);
      if TopLevelKey(line) == Some(SECTION) {
        if TopLevelBlockKey(line) != Some(SECTION) {
          return Err(INLINE);
        }
        var insertion := offset + |line|;
        InsertedText(lines, i + 1, BlockRows(bin, indent));
        RowsRender(bin, indent);
        return Ok(yaml[..insertion] + RenderBlock(bin, indent) + yaml[insertion..]);
      }
      offset := offset + |line|;
    }
    return Err(NOT_FOUND);
  }

  lemma CutAt(ls: seq<string>, i: nat)
    requires i <= |ls|
    ensures var n := |Concat(ls[..i])|;
      n <= |Concat(ls)| && Concat(ls)[..n] == Concat(ls[..i]) && Concat(ls)[n..] == Concat(ls[i..])
  {
    assert ls == ls[..i] + ls[i..];
    ConcatAppend(ls[..i], ls[i..]);
  }

  lemma InsertedText(ls: seq<string>, at: nat, rows: seq<string>)
    requires at <= |ls|
    ensures Concat(WithRows(ls, at, rows)) == Concat(ls[..at]) + Concat(rows) + Concat(ls[at..])
  {
    ConcatAppend(ls[..at] + rows, ls[at..]);
    ConcatAppend(ls[..at], rows);
  }

  // ---- The scan up to and into the section ------------------------------------------------------------

  /** Before the section header the scanners stay in their start state. */
  lemma {:induction false} ScanSkips(ls: seq<string>, i: nat, h: nat)
    requires i <= h <= |ls|
    requires forall k :: i <= k < h ==> TopLevelKey(ls[k]) != Some(SECTION)
    ensures FindBlock(ls, i, START) == FindBlock(ls, h, START)
    ensures FirstChildIndent(ls, i, false) == FirstChildIndent(ls, h, false)
    decreases h - i
  {
    hide TopLevelBlockKey, IsIndentedKey, ChildIndentOf;
    if i < h {
      ScanSkips(ls, i + 1, h);
    }
  }

  /** A key row right after the header is the block every scanner picks. */
  lemma KeyRowAfterHeader(ls: seq<string>, h: nat, indent: nat)
    requires h + 1 < |ls| && IsSectionHeader(ls[h]) && IsKeyRow(ls[h + 1], indent)
    requires forall k :: 0 <= k < h ==> TopLevelKey(ls[k]) != Some(SECTION)
    ensures Located(ls) == Some(Block(h + 1, indent))
  {
    hide TopLevelBlockKey, IsIndentedKey, ChildIndentOf;
    ScanSkips(ls, 0, h);
    assert Look(START, ls[h]) == Scan(true, None);
  }

  lemma BlankOrCommentIsNoKey(l: string)
    requires IsBlank(l) || FirstInk(l) == Some('#')
    ensures TopLevelKey(l).None? && ChildIndentOf(l).None?
  {
    BlankIffNoInk(l);
    TrimEolDropsEol(l);
    InkSame(l, TrimEol(l));
  }

  predicate IsBlankOrComment(l: string) { IsBlank(l) || FirstInk(l) == Some('#') }

  /** The run of blank or deeper lines below a header, measured at the section's own child indent,
      holds nothing but blank and comment lines: no key of any server is in it. */
  lemma {:induction false} RunHoldsNoKeys(ls: seq<string>, i: nat, indent: nat)
    requires i <= |ls| && indent == OrTwo(FirstChildIndent(ls, i, true))
    ensures forall k :: i <= k < BlockEnd(ls, i, indent) ==> IsBlankOrComment(ls[k])
    decreases |ls| - i
  {
    if i < |ls| && Continues(ls[i], indent) {
      assert TopLevelKey(ls[i]).None? by {
        if IsBlank(ls[i]) {
          BlankOrCommentIsNoKey(ls[i]);
        }
      }
      if IsBlankOrComment(ls[i]) {
        BlankOrCommentIsNoKey(ls[i]);
      }
      RunHoldsNoKeys(ls, i + 1, indent);
    }
  }

  lemma SectionRunHoldsNoKeys(ls: seq<string>, h: nat)
    requires h < |ls| && IsSectionHeader(ls[h])
    requires forall k :: 0 <= k < h ==> TopLevelKey(ls[k]) != Some(SECTION)
    ensures forall k :: h + 1 <= k < BlockEnd(ls, h + 1, InsertIndent(ls)) ==> IsBlankOrComment(ls[k])
  {
    hide TopLevelBlockKey, ChildIndentOf;
    ScanSkips(ls, 0, h);
    assert FirstChildIndent(ls, h, false) == FirstChildIndent(ls, h + 1, true);
    RunHoldsNoKeys(ls, h + 1, InsertIndent(ls));
  }

  /** Our rows right after the header are what every scanner then locates, as far as they hold together;
      if they do, the run below the header counts as part of the block. */
  lemma RowsAreLocated(ls: seq<string>, h: nat, bin: string, indent: nat)
    requires h < |ls| && IsSectionHeader(ls[h]) && indent > 0
    requires forall k :: 0 <= k < h ==> TopLevelKey(ls[k]) != Some(SECTION)
    ensures var rows := BlockRows(bin, indent); var out := WithRows(ls, h + 1, rows);
      && |out| == |ls| + |rows|
      && Located(out) == Some(Block(h + 1, indent))
      && BlockEnd(out, h + 2, indent)
         == if HoldsTogether(bin, indent) then BlockEnd(ls, h + 1, indent) + |rows| else h + 1 + Held(bin, indent)
  {
    hide TopLevelKey, TopLevelBlockKey, IsIndentedKey, ChildIndentOf, BlockRows, Continues, FindBlock, WithRows,
      IsKeyRow, IsSectionHeader, BlockEnd, Held, IsTerminatedLine;
    var rows, n := BlockRows(bin, indent), Held(bin, indent);
    var out := WithRows(ls, h + 1, rows);
    RowsShape(bin, indent);
    HeldIs(bin, indent);
    RowsParts(ls, h + 1, rows);
    HeadRowIsKeyRow(indent);
    assert out[h + 1] == rows[0] == HeadRow(indent);
    KeyRowAfterHeader(out, h, indent);
    if HoldsTogether(bin, indent) {
      WholeRun(ls, h + 1, rows, indent);
    } else {
      CutRun(ls, h + 1, rows, n, indent);
    }
  }

  /** Rows that all continue the block, and the run behind them. */
  lemma WholeRun(ls: seq<string>, at: nat, rows: seq<string>, indent: nat)
    requires at <= |ls| && rows != [] && forall k :: 1 <= k < |rows| ==> Continues(rows[k], indent)
    ensures BlockEnd(WithRows(ls, at, rows), at + 1, indent) == BlockEnd(ls, at, indent) + |rows|
  {
    hide Continues, WithRows, BlockEnd;
    var out, e := WithRows(ls, at, rows), BlockEnd(ls, at, indent);
    RowsParts(ls, at, rows);
    forall k | at + 1 <= k < e + |rows|
      ensures Continues(out[k], indent)
    {
      if k < at + |rows| {
        assert out[k] == rows[k - at];
      } else {
        assert out[k] == ls[k - |rows|];
      }
    }
    EndOfRun(out, at + 1, indent, e + |rows|);
  }

  /** Rows of which the first `n` continue the block and the next one does not. */
  lemma CutRun(ls: seq<string>, at: nat, rows: seq<string>, n: nat, indent: nat)
    requires at <= |ls| && 1 <= n < |rows| && !Continues(rows[n], indent)
    requires forall k :: 1 <= k < n ==> Continues(rows[k], indent)
    ensures BlockEnd(WithRows(ls, at, rows), at + 1, indent) == at + n
  {
    hide Continues, WithRows, BlockEnd;
    var out := WithRows(ls, at, rows);
    RowsParts(ls, at, rows);
    forall k | at + 1 <= k < at + n
      ensures Continues(out[k], indent)
    {
      assert out[k] == rows[k - at];
    }
    assert out[at + n] == rows[n];
    EndOfRun(out, at + 1, indent, at + n);
  }

  /** The lines of the text after an insertion below a terminated header. */
  lemma InsertedSplits(yaml: string, bin: string)
    requires Inserted(yaml, bin).Ok?
    requires Terminated(SplitInclusive(yaml)[FindSection(SplitInclusive(yaml), 0)])
    ensures var ls := SplitInclusive(yaml);
      SplitInclusive(Inserted(yaml, bin).value) == WithRows(ls, FindSection(ls, 0) + 1, BlockRows(bin, InsertIndent(ls)))
  {
    hide TopLevelKey, TopLevelBlockKey, BlockRows, Concat, SplitInclusive, IsTerminatedLine;
    var ls := SplitInclusive(yaml);
    var h, indent := FindSection(ls, 0), InsertIndent(ls);
    SplitIsSplit(yaml);
    RowsShape(bin, indent);
    InsertedIsSplit(ls, h + 1, BlockRows(bin, indent));
    SplitOfConcat(WithRows(ls, h + 1, BlockRows(bin, indent)));
  }

  lemma {:induction false} IndentIsPositive(ls: seq<string>, i: nat, inSection: bool)
    requires i <= |ls|
    ensures OrTwo(FirstChildIndent(ls, i, inSection)) > 0
    decreases |ls| - i
  {
    hide TopLevelKey, TopLevelBlockKey;
    if i < |ls| {
      IndentIsPositive(ls, i + 1, if TopLevelKey(ls[i]).Some? then IsSectionHeader(ls[i]) else inSection);
    }
  }

  lemma RowsParts(ls: seq<string>, at: nat, rows: seq<string>)
    requires at <= |ls|
    ensures var out := WithRows(ls, at, rows);
      && |out| == |ls| + |rows|
      && out[..at] == ls[..at]
      && (forall k :: 0 <= k < at ==> out[k] == ls[k])
      && (forall k :: at <= k < at + |rows| ==> out[k] == rows[k - at])
      && (forall k :: at + |rows| <= k < |out| ==> out[k] == ls[k - |rows|])
  {
  }

  /** Cutting out the rows, or the first `n` of them, and what follows up to `e`. */
  lemma CutOutRows(ls: seq<string>, at: nat, rows: seq<string>, n: nat, e: nat)
    requires at <= e <= |ls| && n <= |rows|
    ensures var out := WithRows(ls, at, rows);
      && |out| == |ls| + |rows|
      && out[..at] + out[e + |rows|..] == ls[..at] + ls[e..]
      && out[..at] + out[at + n..] == ls[..at] + rows[n..] + ls[at..]
  {
  }

  lemma InsertedIsSplit(ls: seq<string>, at: nat, rows: seq<string>)
    requires IsSplit(ls) && 0 < at <= |ls| && Terminated(ls[at - 1])
    requires AllTerminatedLines(rows)
    ensures IsSplit(WithRows(ls, at, rows))
  {
    var out := WithRows(ls, at, rows);
    forall k | 0 <= k < |out|
      ensures IsLine(out[k]) && (k < |out| - 1 ==> Terminated(out[k]))
    {
      if k < at {
        assert out[k] == ls[k];
      } else if k < at + |rows| {
        assert out[k] == rows[k - at];
      } else {
        assert out[k] == ls[k - |rows|];
      }
    }
  }

  /** What is left of the lines when the block was inserted below line `h` and removed again. */
  function LeftOver(ls: seq<string>, h: nat, bin: string): seq<string>
    requires h < |ls|
  {
    var indent := InsertIndent(ls);
    if HoldsTogether(bin, indent) then ls[..h + 1] + ls[BlockEnd(ls, h + 1, indent)..]
    else ls[..h + 1] + Strays(bin, indent) + ls[h + 1..]
  }

  /** MAIN: inserting and removing again, for every command. What comes back is the text, byte for byte,
      but for the run of blank and comment lines right below the section header if the command holds
      together, and but for the rows that fell off if it does not. */
  lemma InsertThenRemove(yaml: string, bin: string)
    requires Inserted(yaml, bin).Ok?
    requires Terminated(SplitInclusive(yaml)[FindSection(SplitInclusive(yaml), 0)])
    ensures var ls := SplitInclusive(yaml); var h := FindSection(ls, 0); var indent := InsertIndent(ls);
      var e := BlockEnd(ls, h + 1, indent);
      && Removed(Inserted(yaml, bin).value) == Ok(Concat(LeftOver(ls, h, bin)))
      && (Removed(Inserted(yaml, bin).value) == Ok(yaml) <==> HoldsTogether(bin, indent) && e == h + 1)
      && (forall k :: h + 1 <= k < e ==> IsBlankOrComment(ls[k]))
  {
    hide TopLevelKey, TopLevelBlockKey, ChildIndentOf, IsIndentedKey, BlockRows, Concat, SplitInclusive, FindBlock, WithRows,
      IsBlankOrComment, BlockEnd, HoldsTogether, Held;
    var ls := SplitInclusive(yaml);
    var h, indent := FindSection(ls, 0), InsertIndent(ls);
    var rows, e := BlockRows(bin, indent), BlockEnd(ls, h + 1, indent);
    InsertedSplits(yaml, bin);
    IndentIsPositive(ls, 0, false);
    RowsAreLocated(ls, h, bin, indent);
    HeldIs(bin, indent);
    CutOutRows(ls, h + 1, rows, Held(bin, indent), e);
    SectionRunHoldsNoKeys(ls, h);
    ConcatOfSplit(yaml);
    SplitIsSplit(yaml);
    LeftOverIsText(ls, h, bin, e);
  }

  lemma LeftOverIsText(ls: seq<string>, h: nat, bin: string, e: nat)
    requires h < |ls| && e == BlockEnd(ls, h + 1, InsertIndent(ls)) && IsSplit(ls)
    ensures Concat(LeftOver(ls, h, bin)) == Concat(ls) <==> HoldsTogether(bin, InsertIndent(ls)) && e == h + 1
  {
    hide Concat, BlockEnd, HoldsTogether, Strays, InsertIndent, IsTerminatedLine;
    var indent := InsertIndent(ls);
    StraysIffNotHeld(bin, indent);
    assert ls == ls[..h + 1] + ls[h + 1..];
    ConcatAppend(ls[..h + 1], ls[h + 1..]);
    if HoldsTogether(bin, indent) {
      ShorterWithoutRun(ls, h + 1, e);
    } else {
      ConcatThree(ls[..h + 1], Strays(bin, indent), ls[h + 1..]);
      MoreText(Concat(ls[..h + 1]), "", Concat(Strays(bin, indent)), Concat(ls[h + 1..]));
      assert Concat(ls[..h + 1]) + "" == Concat(ls[..h + 1]);
    }
  }

  lemma ShorterWithoutRun(ls: seq<string>, at: nat, e: nat)
    requires at <= e <= |ls| && forall k :: 0 <= k < |ls| ==> ls[k] != ""
    ensures |Concat(ls[..at] + ls[e..])| <= |Concat(ls)|
    ensures |Concat(ls[..at] + ls[e..])| == |Concat(ls)| <==> at == e
    ensures Concat(ls[..at] + ls[e..]) == Concat(ls) <==> at == e
  {
    hide Concat;
    ConcatAppend(ls[..at], ls[e..]);
    ConcatAppend(ls[..at], ls[at..]);
    assert ls == ls[..at] + ls[at..];
    assert ls[at..] == ls[at..e] + ls[e..];
    ConcatAppend(ls[at..e], ls[e..]);
    if at < e {
      assert ls[at..e] == [ls[at]] + ls[at + 1..e];
      ConcatCons(ls[at], ls[at + 1..e]);
    } else {
      EmptyConcat();
      assert ls[at..e] == [] && ls[..at] + ls[e..] == ls;
    }
  }
}
