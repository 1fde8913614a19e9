/** The line scanners of the Goose config editor.

    Four loops (detect, replace, remove, extract) walk a YAML text and must pick the same
    `difflore:` block under the top-level `mcpServers:` section. Each loop is a method below; all
    of them are proved against one pair of functions, `FindBlock` (which line starts the block) and
    `BlockEnd` (where it stops). */
module GooseYaml {
  import opened Wrappers
  import opened Text
  import opened YamlScalar

  // ---- Keys and indents --------------------------------------------------------------------------

  function IndexOf(s: string, c: char): (k: nat)
    ensures k <= |s|
    ensures k < |s| ==> s[k] == c
    ensures c !in s[..k]
  {
    if s == "" || s[0] == c then 0 else 1 + IndexOf(s[1..], c)
  }

  datatype Entry = Entry(key: string, tail: string)

  /** The key and the text after its colon of an unindented mapping entry; `None` for indented
      lines, blanks, comments and list items. */
  function TopLevelEntry(line: string): Option<Entry> {
    if IndentOf(line) != 0 then None
    else
      var content := TrimStart(TrimEol(line));
      if content == "" || content[0] == '#' || content[0] == '-' then None
      else
        var k := IndexOf(content, ':');
        if k == |content| then None
        else
          var key := TrimEnd(content[..k]);
          if key == "" then None else Some(Entry(key, content[k + 1..]))
  }

  function TopLevelKey(line: string): Option<string> {
    var e := TopLevelEntry(line);
    if e.Some? then Some(e.value.key) else None
  }

  /** The key, if nothing but blanks and a comment follows the colon. */
  function TopLevelBlockKey(line: string): Option<string> {
    var e := TopLevelEntry(line);
    if e.Some? && IsBlank(e.value.tail[..IndexOf(e.value.tail, '#')]) then Some(e.value.key) else None
  }

  const SECTION := "mcpServers"
  const KEY := "difflore"

  predicate IsSectionHeader(line: string) {
    TopLevelKey(line) == Some(SECTION) && TopLevelBlockKey(line) == Some(SECTION)
  }

  predicate IsIndentedKey(line: string, key: string, indent: nat) {
    var trimmed := TrimEol(line);
    && IndentOf(trimmed) == indent
    && key <= trimmed[indent..]
    && ":" <= trimmed[indent + |key|..]
  }

  /** The indent of a line that can be the first child of a section. */
  function ChildIndentOf(line: string): Option<nat> {
    if IsBlank(line) || FirstInk(line) == Some('#') then None
    else if IndentOf(line) > 0 then Some(IndentOf(line))
    else None
  }

  // ---- The scan -----------------------------------------------------------------------------------

  datatype Scan = Scan(inSection: bool, childIndent: Option<nat>)

  const START := Scan(false, None)

  /** The scanner variables after looking at one line. */
  function Look(st: Scan, line: string): Scan {
    if TopLevelKey(line).Some? then Scan(IsSectionHeader(line), None)
    else if st.inSection && st.childIndent.None? then Scan(true, ChildIndentOf(line))
    else st
  }

  predicate IsHit(st: Scan, line: string) {
    && TopLevelKey(line).None?
    && Look(st, line).inSection
    && Look(st, line).childIndent.Some?
    && IsIndentedKey(line, KEY, Look(st, line).childIndent.value)
  }

  datatype Block = Block(at: nat, indent: nat)

  /** The first line, from `i` on, that starts our block. */
  function FindBlock(ls: seq<string>, i: nat, st: Scan): (b: Option<Block>)
    requires i <= |ls|
    ensures b.Some? ==> i <= b.value.at < |ls|
    decreases |ls| - i
  {
    if i == |ls| then None
    else if IsHit(st, ls[i]) then Some(Block(i, Look(st, ls[i]).childIndent.value))
    else FindBlock(ls, i + 1, Look(st, ls[i]))
  }

  predicate Continues(line: string, indent: nat) { IsBlank(line) || IndentOf(line) > indent }

  /** The end of the run of blank or deeper lines from `i` on. */
  function BlockEnd(ls: seq<string>, i: nat, indent: nat): (e: nat)
    requires i <= |ls|
    ensures i <= e <= |ls|
    ensures forall k :: i <= k < e ==> Continues(ls[k], indent)
    ensures e < |ls| ==> !Continues(ls[e], indent)
    decreases |ls| - i
  {
    if i < |ls| && Continues(ls[i], indent) then BlockEnd(ls, i + 1, indent) else i
  }

  /** The block of a text: its first line, its indent and the line after its last one. */
  function Located(ls: seq<string>): Option<Block> { FindBlock(ls, 0, START) }

  function End(ls: seq<string>, b: Block): nat
    requires b.at < |ls|
  {
    BlockEnd(ls, b.at + 1, b.indent)
  }

  // ---- Line ends do not matter to the scan ---------------------------------------------------------

  lemma LookSame(st: Scan, l: string, m: string)
    requires DropsEol(l, m)
    ensures Look(st, l) == Look(st, m) && IsHit(st, l) == IsHit(st, m)
    ensures TopLevelEntry(l) == TopLevelEntry(m) && ChildIndentOf(l) == ChildIndentOf(m)
    ensures forall indent: nat :: Continues(l, indent) == Continues(m, indent)
  {
    TrimEolSame(l, m);
    IndentSame(l, m);
    InkSame(l, m);
    BlankIffNoInk(l);
    BlankIffNoInk(m);
  }

  lemma {:induction false} FindSame(ls: seq<string>, i: nat, st: Scan)
    requires i <= |ls|
    ensures FindBlock(StripAll(ls), i, st) == FindBlock(ls, i, st)
    decreases |ls| - i
  {
    if i < |ls| {
      StripDropsEol(ls[i]);
      LookSame(st, ls[i], StripEol(ls[i]));
      FindSame(ls, i + 1, Look(st, ls[i]));
    }
  }

  lemma {:induction false} EndSame(ls: seq<string>, i: nat, indent: nat)
    requires i <= |ls|
    ensures BlockEnd(StripAll(ls), i, indent) == BlockEnd(ls, i, indent)
    decreases |ls| - i
  {
    if i < |ls| {
      StripDropsEol(ls[i]);
      LookSame(START, ls[i], StripEol(ls[i]));
      EndSame(ls, i + 1, indent);
    }
  }

  // ---- The four loops -------------------------------------------------------------------------------

  /** `yaml_has_difflore_under_mcp_servers`. */
  method Detect(yaml: string) returns (found: bool)
    ensures found <==> Located(SplitInclusive(yaml)).Some?
  {
    hide TopLevelKey, TopLevelBlockKey, IsIndentedKey, ChildIndentOf, SplitInclusive, StripAll, Lines;
    var lines := Lines(yaml);
    EndSameAt(yaml);
    var inSection, childIndent: Option<nat> := false, None;
    for i := 0 to |lines|
      invariant FindBlock(lines, i, Scan(inSection, childIndent)) == Located(lines)
    {
      var line := lines[i];
      var key := TopLevelKey(line);
      if key.Some? {
        inSection := key.value == SECTION && TopLevelBlockKey(line) == Some(SECTION);
        childIndent := None;
        continue;
      }
      if inSection && childIndent.None? {
        childIndent := ChildIndentOf(line);
      }
      if inSection && childIndent.Some? && IsIndentedKey(line, KEY, childIndent.value) {
        return true;
      }
    }
    return false;
  }

  /** The lines with the located block cut out and `rows` put in its place. */
  function Spliced(ls: seq<string>, b: Block, rows: seq<string>): seq<string>
    requires b.at < |ls|
  {
    ls[..b.at] + rows + ls[End(ls, b)..]
  }

  const NOT_LOCATED := "could not locate existing difflore block under mcpServers"

  /** Copying one more line to an output that holds `head` and `lines[from..i]`. */
  lemma CopyLine(head: seq<string>, lines: seq<string>, from: nat, i: nat)
    requires from <= i < |lines|
    ensures Concat(head + lines[from..i]) + lines[i] == Concat(head + lines[from..i + 1])
    ensures head == [] && from == 0 ==> head + lines[from..i] == lines[..i]
  {
    hide Concat;
    var front := head + lines[from..i];
    var all := front + [lines[i]];
    assert lines[from..i + 1] == lines[from..i] + [lines[i]];
    assert head + lines[from..i + 1] == all;
    ConcatSnoc(all, |front|);
    assert all[..|front|] == front && all[..|front| + 1] == all;
  }

  lemma CopyNothing(head: seq<string>, lines: seq<string>, from: nat)
    requires from <= |lines|
    ensures head + lines[from..from] == head && Concat([]) == ""
  {
  }

  /** The peeking loop both rewriters run after the block's first line. */
  method SkipBlock(lines: seq<string>, start: nat, indent: nat) returns (i: nat)
    requires start <= |lines|
    ensures i == BlockEnd(lines, start, indent)
  {
    i := start;
    while i < |lines| && Continues(lines[i], indent)
      invariant start <= i <= |lines|
      invariant BlockEnd(lines, i, indent) == BlockEnd(lines, start, indent)
    {
      i := i + 1;
    }
  }

  /** `replace_goose_difflore_block`. */
  method Replace(yaml: string, bin: string) returns (r: Result<string>)
    ensures r == Replaced(yaml, bin)
  {
    hide TopLevelKey, TopLevelBlockKey, IsIndentedKey, ChildIndentOf, BlockRows, RenderBlock, Concat, SplitInclusive, Continues;
    var lines := SplitInclusive(yaml);
    var out, found := "", false;
    var inSection, childIndent: Option<nat> := false, None;
    var i: nat := 0;
    ghost var target := Located(lines);
    ghost var head, from: nat := [], 0;
    CopyNothing(head, lines, from);
    while i < |lines|
      invariant from <= i <= |lines|
      invariant out == Concat(head + lines[from..i])
      invariant !found ==> head == [] && from == 0 && FindBlock(lines, i, Scan(inSection, childIndent)) == target
      invariant found ==> target.Some? && head == lines[..target.value.at] + BlockRows(bin, target.value.indent) && from == End(lines, target.value)
    {
      var line := lines[i];
      i := i + 1;
      ghost var at := i - 1;
      CopyLine(head, lines, from, at);
      var key := TopLevelKey(line);
      if key.Some? {
        inSection := key.value == SECTION && TopLevelBlockKey(line) == Some(SECTION);
        childIndent := None;
        out := out + line;
        continue;
      }
      if inSection && childIndent.None? {
        childIndent := ChildIndentOf(line);
      }
      if !found && inSection && childIndent.Some? && IsIndentedKey(line, KEY, childIndent.value) {
        var indent := childIndent.value;
        ConcatAppend(lines[..at], BlockRows(bin, indent));
        RowsRender(bin, indent);
        out := out + RenderBlock(bin, indent);
        head := lines[..at] + BlockRows(bin, indent);
        found := true;
        i := SkipBlock(lines, i, indent);
        from := i;
        CopyNothing(head, lines, from);
        continue;
      }
      out := out + line;
    }
    assert lines[from..i] == lines[from..];
    if !found {
      return Err(NOT_LOCATED);
    }
    return Ok(out);
  }

  /** `remove_goose_difflore_block`. */
  method Remove(yaml: string) returns (r: Result<string>)
    ensures r == Removed(yaml)
  {
    hide TopLevelKey, TopLevelBlockKey, IsIndentedKey, ChildIndentOf, BlockRows, Concat, SplitInclusive, Continues;
    var lines := SplitInclusive(yaml);
    var out, found := "", false;
    var inSection, childIndent: Option<nat> := false, None;
    var i: nat := 0;
    ghost var target := Located(lines);
    ghost var head, from: nat := [], 0;
    CopyNothing(head, lines, from);
    while i < |lines|
      invariant from <= i <= |lines|
      invariant out == Concat(head + lines[from..i])
      invariant !found ==> head == [] && from == 0 && FindBlock(lines, i, Scan(inSection, childIndent)) == target
      invariant found ==> target.Some? && head == lines[..target.value.at] && from == End(lines, target.value)
    {
      var line := lines[i];
      i := i + 1;
      ghost var at := i - 1;
      CopyLine(head, lines, from, at);
      var key := TopLevelKey(line);
      if key.Some? {
        inSection := key.value == SECTION && TopLevelBlockKey(line) == Some(SECTION);
        childIndent := None;
        out := out + line;
        continue;
      }
      if inSection && childIndent.None? {
        childIndent := ChildIndentOf(line);
      }
      if !found && inSection && childIndent.Some? && IsIndentedKey(line, KEY, childIndent.value) {
        var indent := childIndent.value;
        head := lines[..at];
        found := true;
        i := SkipBlock(lines, i, indent);
        from := i;
        CopyNothing(head, lines, from);
        continue;
      }
      out := out + line;
    }
    assert lines[from..i] == lines[from..];
    if !found {
      return Err(NOT_LOCATED);
    }
    return Ok(out);
  }

  lemma SliceSnoc<T>(s: seq<T>, from: nat, i: nat)
    requires from <= i < |s|
    ensures s[from..i + 1] == s[from..i] + [s[i]]
  {
  }

  /** `difflore_block_lines`. */
  method BlockLines(yaml: string) returns (block: seq<string>)
    ensures block == LocatedLines(yaml)
  {
    hide TopLevelKey, TopLevelBlockKey, IsIndentedKey, ChildIndentOf, SplitInclusive, StripAll, Lines;
    var lines := Lines(yaml);
    EndSameAt(yaml);
    block := [];
    ghost var target := Located(lines);
    var inBlock := false;
    var inSection, childIndent: Option<nat> := false, None;
    for i := 0 to |lines|
      invariant !inBlock ==> block == [] && FindBlock(lines, i, Scan(inSection, childIndent)) == target
      invariant inBlock ==>
        && target.Some?
        && childIndent == Some(target.value.indent)
        && target.value.at < i
        && block == lines[target.value.at..i]
        && BlockEnd(lines, i, target.value.indent) == End(lines, target.value)
    {
      var line := lines[i];
      if !inBlock {
        var key := TopLevelKey(line);
        if key.Some? {
          inSection := key.value == SECTION && TopLevelBlockKey(line) == Some(SECTION);
          childIndent := None;
          continue;
        }
        if inSection && childIndent.None? {
          childIndent := ChildIndentOf(line);
        }
        if inSection && childIndent.Some? && IsIndentedKey(line, KEY, childIndent.value) {
          inBlock := true;
          block := block + [line];
          SliceSnoc(lines, i, i);
          assert lines[i..i] == [];
        }
        continue;
      }
      if IndentOf(line) <= childIndent.value && !IsBlank(line) {
        return;
      }
      block := block + [line];
      SliceSnoc(lines, target.value.at, i);
    }
  }

  lemma EndSameAt(yaml: string)
    ensures var ls := SplitInclusive(yaml);
      && Located(ls) == Located(Lines(yaml))
      && (Located(ls).Some? ==> End(Lines(yaml), Located(ls).value) == End(ls, Located(ls).value))
  {
    var ls := SplitInclusive(yaml);
    FindSame(ls, 0, START);
    if Located(ls).Some? {
      EndSame(ls, Located(ls).value.at + 1, Located(ls).value.indent);
    }
  }

  // ---- What the loops compute -----------------------------------------------------------------------

  function Replaced(yaml: string, bin: string): Result<string> {
    var ls := SplitInclusive(yaml);
    match Located(ls)
    case None => Err(NOT_LOCATED)
    case Some(b) => Ok(Concat(Spliced(ls, b, BlockRows(bin, b.indent))))
  }

  function Removed(yaml: string): Result<string> {
    var ls := SplitInclusive(yaml);
    match Located(ls)
    case None => Err(NOT_LOCATED)
    case Some(b) => Ok(Concat(ls[..b.at] + ls[End(ls, b)..]))
  }

  function LocatedLines(yaml: string): seq<string> {
    var ls := SplitInclusive(yaml);
    match Located(ls)
    case None => []
    case Some(b) => Lines(yaml)[b.at..End(ls, b)]
  }

  /** `extract_goose_block` on a file's text: the block, each line stripped of line ends and closed
      with `\n`. */
  function Extracted(yaml: string): Option<string> {
    var block := LocatedLines(yaml);
    if block == [] then None else Some(Concat(Normalised(block)))
  }

  function Normalised(block: seq<string>): (r: seq<string>)
    ensures |r| == |block| && forall i :: 0 <= i < |r| ==> r[i] == TrimEol(block[i]) + "\n"
  {
    if block == [] then [] else [TrimEol(block[0]) + "\n"] + Normalised(block[1..])
  }

  // ---- The block we write -----------------------------------------------------------------------------

  /** The four parts of the block; the command's part is one line unless the command has newlines. */
  function BlockParts(bin: string, indent: nat): (parts: seq<string>)
    ensures |parts| == 4
  {
    [Spaces(indent) + "difflore:\n",
     Spaces(indent + 2) + "command: " + EscapeScalar(bin) + "\n",
     Spaces(indent + 2) + "args:\n",
     Spaces(indent + 4) + "- mcp-server\n"]
  }

  /** `render_goose_block_at_indent`. */
  function RenderBlock(bin: string, indent: nat): string { Concat(BlockParts(bin, indent)) }

  /** The lines of the rendered block. */
  function BlockRows(bin: string, indent: nat): seq<string> { SplitInclusive(RenderBlock(bin, indent)) }

  lemma RowsRender(bin: string, indent: nat)
    ensures Concat(BlockRows(bin, indent)) == RenderBlock(bin, indent)
  {
    ConcatOfSplit(RenderBlock(bin, indent));
  }
}
