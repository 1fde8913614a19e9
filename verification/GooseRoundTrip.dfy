/** Whole installs and uninstalls of the Goose config: what comes back, and exactly when it is the
    file the user had. */
module GooseRoundTrip {
  import opened Wrappers
  import opened Text
  import opened YamlScalar
  import opened GooseYaml
  import opened GooseBlock
  import opened GooseReplace
  import opened GooseInstall

  // ---- A header line without its line end ------------------------------------------------------------

  lemma {:induction false} TrimStartExtends(a: string, x: string)
    requires TrimStart(a) != ""
    ensures TrimStart(a + x) == TrimStart(a) + x
  {
    if a != "" && IsWhitespace(a[0]) {
      TrimStartExtends(a[1..], x);
      assert (a + x)[1..] == a[1..] + x;
    } else {
      assert (a + x)[0] == a[0];
    }
  }

  lemma {:induction false} IndexOfPrefix(s: string, t: string, c: char)
    requires s <= t && IndexOf(s, c) < |s|
    ensures IndexOf(t, c) == IndexOf(s, c)
  {
    assert t[0] == s[0];
    if s[0] != c {
      IndexOfPrefix(s[1..], t[1..], c);
    }
  }

  /** Text glued to the end of an entry line leaves its key as it was. */
  lemma KeySurvivesSuffix(l: string, x: string)
    requires TopLevelKey(l).Some?
    ensures TopLevelKey(l + x) == TopLevelKey(l)
  {
    var body := TrimEol(l);
    TrimEolDropsEol(l);
    var content := TrimStart(body);
    var all := TrimEol(l + x);
    TrimEolDropsEol(l + x);
    // The last character of `body` is no line end, so `all` reaches at least as far.
    assert body <= l + x && |body| <= |all|;
    assert body <= all;
    var rest := all[|body|..];
    assert all == body + rest;
    TrimStartExtends(body, rest);
    IndexOfPrefix(content, content + rest, ':');
    assert (content + rest)[..IndexOf(content, ':')] == content[..IndexOf(content, ':')];
    IndentKept(l, x);
  }

  lemma IndentKept(l: string, x: string)
    requires l != "" && IndentOf(l) == 0
    ensures IndentOf(l + x) == 0
  {
    assert (l + x)[0] == l[0];
  }

  /** A row no scanner takes for our key, whatever the indent. */
  ghost predicate NeverKey(row: string) { forall indent: nat :: !IsIndentedKey(row, KEY, indent) }

  lemma OtherRowIsNeverKey(n: nat, s: string)
    requires s != "" && !IsWhitespace(s[0]) && s[0] != 'd'
    ensures NeverKey(Spaces(n) + s)
  {
    var row := Spaces(n) + s;
    var trimmed := TrimEol(row);
    TrimEolDropsEol(row);
    assert row[n] == s[0];
    assert n < |trimmed| && trimmed[n] == s[0];
    assert forall i :: 0 <= i < n ==> trimmed[i] == row[i];
    IndentOfUnique(trimmed, n);
    assert trimmed[n..][0] == s[0];
    assert KEY[0] == 'd';
  }

  lemma {:induction false} NoKeyNoBlock(ls: seq<string>, i: nat, st: Scan)
    requires i <= |ls| && forall k :: i <= k < |ls| ==> NeverKey(ls[k])
    ensures FindBlock(ls, i, st).None?
    decreases |ls| - i
  {
    hide TopLevelKey, TopLevelBlockKey, ChildIndentOf, IsIndentedKey;
    if i < |ls| {
      NoKeyNoBlock(ls, i + 1, Look(st, ls[i]));
    }
  }

  /** The lines that result when the header lacks its line end: the first row is glued to it. */
  function Fused(ls: seq<string>, rows: seq<string>): seq<string>
    requires ls != [] && rows != []
  {
    ls[..|ls| - 1] + [ls[|ls| - 1] + rows[0]] + rows[1..]
  }

  lemma FusedText(ls: seq<string>, rows: seq<string>)
    requires ls != [] && rows != []
    ensures Concat(WithRows(ls, |ls|, rows)) == Concat(Fused(ls, rows))
  {
    hide Concat;
    var front, last := ls[..|ls| - 1], ls[|ls| - 1];
    assert ls == front + [last] && rows == [rows[0]] + rows[1..];
    assert WithRows(ls, |ls|, rows) == front + ([last] + ([rows[0]] + rows[1..]));
    assert Fused(ls, rows) == front + ([last + rows[0]] + rows[1..]);
    ConcatAppend(front, [last] + ([rows[0]] + rows[1..]));
    ConcatAppend(front, [last + rows[0]] + rows[1..]);
    ConcatCons(last, [rows[0]] + rows[1..]);
    ConcatCons(rows[0], rows[1..]);
    ConcatCons(last + rows[0], rows[1..]);
    Regroup(last, rows[0], Concat(rows[1..]));
  }

  lemma FusedIsSplit(ls: seq<string>, rows: seq<string>)
    requires IsSplit(ls) && ls != [] && !Terminated(ls[|ls| - 1])
    requires rows != [] && AllTerminatedLines(rows)
    ensures IsSplit(Fused(ls, rows))
  {
    var out, n := Fused(ls, rows), |ls| - 1;
    var glued := ls[n] + rows[0];
    assert IsTerminatedLine(glued) by {
      assert IsTerminatedLine(rows[0]);
      assert glued[..|glued| - 1] == ls[n] + rows[0][..|rows[0]| - 1];
      assert ls[n] == ls[n][..|ls[n]| - 1] + [ls[n][|ls[n]| - 1]];
    }
    forall k | 0 <= k < |out|
      ensures IsLine(out[k]) && (k < |out| - 1 ==> Terminated(out[k]))
    {
      if k < n {
        assert out[k] == ls[k];
      } else if k == n {
        assert out[k] == glued;
      } else {
        assert out[k] == rows[k - n] && IsTerminatedLine(rows[k - n]);
      }
    }
  }

  /** No scanner finds a block up to the glued line. */
  lemma FusedIsLocatedLater(ls: seq<string>, rows: seq<string>)
    requires ls != [] && rows != [] && TopLevelKey(ls[|ls| - 1]) == Some(SECTION)
    requires forall k :: 0 <= k < |ls| - 1 ==> TopLevelKey(ls[k]) != Some(SECTION)
    ensures var out := Fused(ls, rows);
      && Located(out) == FindBlock(out, |ls|, Look(START, out[|ls| - 1]))
      && FindSection(out, 0) == |ls| - 1
  {
    hide TopLevelBlockKey, ChildIndentOf, IsIndentedKey, TopLevelKey, FindBlock, FindSection, Look, Fused;
    var h := |ls| - 1;
    FusedParts(ls, rows);
    KeySurvivesSuffix(ls[h], rows[0]);
    HeaderAt(Fused(ls, rows), h);
  }

  lemma FusedParts(ls: seq<string>, rows: seq<string>)
    requires ls != [] && rows != []
    ensures var out, h := Fused(ls, rows), |ls| - 1;
      |out| == h + |rows| && out[h] == ls[h] + rows[0] && forall k :: 0 <= k < h ==> out[k] == ls[k]
  {
  }

  lemma HeaderAt(ls: seq<string>, h: nat)
    requires h < |ls| && TopLevelKey(ls[h]) == Some(SECTION)
    requires forall k :: 0 <= k < h ==> TopLevelKey(ls[k]) != Some(SECTION)
    ensures Located(ls) == FindBlock(ls, h + 1, Look(START, ls[h]))
    ensures FindSection(ls, 0) == h
  {
    hide TopLevelKey, TopLevelBlockKey, ChildIndentOf, IsIndentedKey, FindBlock, FindSection, Look;
    ScanSkips(ls, 0, h);
    PastKey(ls, h);
    SectionAt(ls, 0, h);
  }

  lemma PastKey(ls: seq<string>, i: nat)
    requires i < |ls| && TopLevelKey(ls[i]).Some?
    ensures FindBlock(ls, i, START) == FindBlock(ls, i + 1, Look(START, ls[i]))
  {
    hide TopLevelKey, TopLevelBlockKey, IsIndentedKey;
  }

  lemma {:induction false} SectionAt(ls: seq<string>, i: nat, h: nat)
    requires i <= h < |ls| && TopLevelKey(ls[h]) == Some(SECTION)
    requires forall k :: i <= k < h ==> TopLevelKey(ls[k]) != Some(SECTION)
    ensures FindSection(ls, i) == h
    decreases h - i
  {
    hide TopLevelKey;
    if i < h {
      SectionAt(ls, i + 1, h);
    }
  }

  lemma FusedIsNotLocated(ls: seq<string>, bin: string, indent: nat)
    requires '\n' !in bin && ls != [] && TopLevelKey(ls[|ls| - 1]) == Some(SECTION)
    requires forall k :: 0 <= k < |ls| - 1 ==> TopLevelKey(ls[k]) != Some(SECTION)
    ensures BlockRows(bin, indent) != [] && Located(Fused(ls, BlockRows(bin, indent))).None?
  {
    hide TopLevelBlockKey, ChildIndentOf, IsIndentedKey, TopLevelEntry, BlockRows, NeverKey, TopLevelKey, FindBlock;
    var rows, h := BlockRows(bin, indent), |ls| - 1;
    RowsAreNeverKeys(bin, indent);
    FusedIsLocatedLater(ls, rows);
    var out := Fused(ls, rows);
    assert forall k :: h < k < |out| ==> out[k] == rows[k - h];
    NoKeyNoBlock(out, h + 1, Look(START, out[h]));
  }

  lemma RowsAreNeverKeys(bin: string, indent: nat)
    requires '\n' !in bin
    ensures var rows := BlockRows(bin, indent); rows != [] && forall k :: 1 <= k < |rows| ==> NeverKey(rows[k])
  {
    hide NeverKey, BlockRows, SplitInclusive, Concat, EscapeScalar;
    var body := "command: " + EscapeScalar(bin) + "\n";
    RowsShape(bin, indent);
    OneLineHolds(bin, indent);
    OneCommandRow(bin, indent);
    OtherRowIsNeverKey(indent + 2, body);
    OtherRowIsNeverKey(indent + 2, "args:\n");
    OtherRowIsNeverKey(indent + 4, "- mcp-server\n");
  }

  lemma OneCommandRow(bin: string, indent: nat)
    requires '\n' !in bin
    ensures CommandRows(bin, indent) == [Spaces(indent + 2) + ("command: " + EscapeScalar(bin) + "\n")]
  {
    hide SplitInclusive, Concat, EscapeScalar, IsTerminatedLine;
    var text := Spaces(indent + 2) + "command: " + EscapeScalar(bin);
    EscapeKeepsOneLine(bin);
    SpacesHoldNoNewline(indent + 2);
    TerminatedRow(text);
    TerminatedIsSplit([text + "\n"]);
    OneLineConcat(text + "\n");
    SplitOfConcat([text + "\n"]);
    assert text + "\n" == Spaces(indent + 2) + ("command: " + EscapeScalar(bin) + "\n");
  }

  /** The lines of the text after an insertion below a header without its line end. */
  lemma InsertGlues(yaml: string, bin: string)
    requires Inserted(yaml, bin).Ok?
    requires !Terminated(SplitInclusive(yaml)[FindSection(SplitInclusive(yaml), 0)])
    ensures var ls := SplitInclusive(yaml); var rows := BlockRows(bin, InsertIndent(ls));
      && FindSection(ls, 0) == |ls| - 1 && rows != []
      && SplitInclusive(Inserted(yaml, bin).value) == Fused(ls, rows)
      && Inserted(yaml, bin).value == yaml + RenderBlock(bin, InsertIndent(ls))
  {
    hide TopLevelKey, TopLevelBlockKey, BlockRows, RenderBlock, Concat, SplitInclusive, IsTerminatedLine, FindSection;
    var ls := SplitInclusive(yaml);
    var h, indent := FindSection(ls, 0), InsertIndent(ls);
    var rows := BlockRows(bin, indent);
    SplitIsSplit(yaml);
    ConcatOfSplit(yaml);
    RowsShape(bin, indent);
    RowsRender(bin, indent);
    SectionIsLast(ls);
    FusedText(ls, rows);
    FusedIsSplit(ls, rows);
    SplitOfConcat(Fused(ls, rows));
    assert WithRows(ls, |ls|, rows) == ls + rows;
    ConcatAppend(ls, rows);
  }

  lemma SectionIsLast(ls: seq<string>)
    requires IsSplit(ls) && FindSection(ls, 0) < |ls| && !Terminated(ls[FindSection(ls, 0)])
    ensures FindSection(ls, 0) == |ls| - 1
  {
    hide TopLevelKey;
  }

  /** MAIN: what was inserted below a terminated header is what every scanner then picks. Below a header
      that is the last line and lacks its `\n`, the first row is glued to the header, and a command
      without newlines leaves nothing for a scanner to find. */
  lemma InsertIsDetectedIffTerminated(yaml: string, bin: string)
    requires Inserted(yaml, bin).Ok?
    ensures var ls := SplitInclusive(yaml); var h, indent := FindSection(ls, 0), InsertIndent(ls);
      var out := SplitInclusive(Inserted(yaml, bin).value);
      && (Terminated(ls[h]) ==> Located(out) == Some(Block(h + 1, indent)))
      && (!Terminated(ls[h]) ==> h == |ls| - 1 && h < |out| && out[h] == ls[h] + HeadRow(indent))
      && ('\n' !in bin ==> (Located(out).Some? <==> Terminated(ls[h])))
  {
    hide TopLevelEntry, TopLevelBlockKey, ChildIndentOf, IsIndentedKey, BlockRows, Concat, FindBlock, SplitInclusive;
    var ls := SplitInclusive(yaml);
    var h, indent := FindSection(ls, 0), InsertIndent(ls);
    RowsShape(bin, indent);
    if Terminated(ls[h]) {
      InsertedSplits(yaml, bin);
      IndentIsPositive(ls, 0, false);
      RowsAreLocated(ls, h, bin, indent);
    } else {
      InsertGlues(yaml, bin);
      if '\n' !in bin {
        FusedIsNotLocated(ls, bin, indent);
      }
    }
  }

  // ---- Dropping an empty section header -----------------------------------------------------------------

  predicate IsBareHeader(l: string) {
    IndentOf(TrimEol(l)) == 0 && TrimEnd(TrimEol(l)) == "mcpServers:"
  }

  /** The first line from `i` on that is not blank, or the number of lines. */
  function NextInked(ls: seq<string>, i: nat): (n: nat)
    requires i <= |ls|
    ensures i <= n <= |ls|
    ensures forall k :: i <= k < n ==> IsBlank(ls[k])
    ensures n < |ls| ==> !IsBlank(ls[n])
    decreases |ls| - i
  {
    if i == |ls| || !IsBlank(ls[i]) then i else NextInked(ls, i + 1)
  }

  /** A bare header whose next line with text is not indented. */
  predicate IsDropped(ls: seq<string>, i: nat)
    requires i < |ls|
  {
    && IsBareHeader(ls[i])
    && var n := NextInked(ls, i + 1); !(n < |ls| && IndentOf(ls[n]) > 0)
  }

  function KeptFrom(ls: seq<string>, i: nat): seq<string>
    requires i <= |ls|
    decreases |ls| - i
  {
    if i == |ls| then [] else (if IsDropped(ls, i) then [] else [ls[i]]) + KeptFrom(ls, i + 1)
  }

  /** `drop_empty_mcp_servers_block`. */
  method DropEmptySection(yaml: string) returns (out: string)
    ensures out == Concat(KeptFrom(SplitInclusive(yaml), 0))
  {
    hide SplitInclusive, Concat, IsBareHeader;
    var lines := SplitInclusive(yaml);
    out := "";
    CopyNothing([], lines, 0);
    for i := 0 to |lines|
      invariant out + Concat(KeptFrom(lines, i)) == Concat(KeptFrom(lines, 0))
    {
      var line := lines[i];
      ghost var rest := KeptFrom(lines, i + 1);
      KeepOrDrop(lines, i);
      if IsBareHeader(line) {
        var next := i + 1;
        while next < |lines| && IsBlank(lines[next])
          invariant i < next <= |lines|
          invariant NextInked(lines, next) == NextInked(lines, i + 1)
        {
          next := next + 1;
        }
        if !(next < |lines| && IndentOf(lines[next]) > 0) {
          continue;
        }
      }
      out := out + line;
    }
  }

  lemma KeepOrDrop(ls: seq<string>, i: nat)
    requires i < |ls|
    ensures Concat(KeptFrom(ls, i)) == (if IsDropped(ls, i) then "" else ls[i]) + Concat(KeptFrom(ls, i + 1))
  {
    var rest := KeptFrom(ls, i + 1);
    if IsDropped(ls, i) {
      assert KeptFrom(ls, i) == rest;
    } else {
      assert KeptFrom(ls, i)[1..] == rest;
    }
  }

  /** Nothing is dropped exactly when the text stays as long as it was. */
  lemma {:induction false} DropLosesLength(ls: seq<string>, i: nat)
    requires i <= |ls| && forall k :: 0 <= k < |ls| ==> ls[k] != ""
    ensures |Concat(KeptFrom(ls, i))| <= |Concat(ls[i..])|
    ensures |Concat(KeptFrom(ls, i))| == |Concat(ls[i..])| <==> forall k :: i <= k < |ls| ==> !IsDropped(ls, k)
    ensures (forall k :: i <= k < |ls| ==> !IsDropped(ls, k)) ==> KeptFrom(ls, i) == ls[i..]
    decreases |ls| - i
  {
    hide IsDropped;
    if i < |ls| {
      DropLosesLength(ls, i + 1);
      KeepOrDrop(ls, i);
      assert ls[i..][0] == ls[i] && ls[i..][1..] == ls[i + 1..];
      assert Concat(ls[i..]) == ls[i] + Concat(ls[i + 1..]);
      if !IsDropped(ls, i) {
        assert [ls[i]] + ls[i + 1..] == ls[i..];
      }
    }
  }

  // ---- Install and uninstall ---------------------------------------------------------------------------

  function Installed(text: string, bin: string): Result<string> {
    var ls := SplitInclusive(text);
    if text == "" then Ok(Concat([HEADER] + BlockRows(bin, 2)))
    else if Located(ls).Some? then Replaced(text, bin)
    else if FindSection(ls, 0) < |ls| then Inserted(text, bin)
    else Ok(TrimEnd(text) + "\n" + HEADER + RenderBlock(bin, 2))
  }

  function Uninstalled(text: string): string {
    match Removed(text)
    case Err(_) => text
    case Ok(stripped) => Concat(KeptFrom(SplitInclusive(stripped), 0))
  }

  /** `has_top_level_mcp_servers`. */
  method HasSection(yaml: string) returns (found: bool)
    ensures var ls := SplitInclusive(yaml); found <==> FindSection(ls, 0) < |ls|
  {
    hide TopLevelKey, SplitInclusive, StripAll;
    var lines := Lines(yaml);
    ghost var ls := SplitInclusive(yaml);
    for i := 0 to |lines|
      invariant FindSection(ls, i) == FindSection(ls, 0)
    {
      KeyOfStripped(ls[i]);
      if TopLevelKey(lines[i]) == Some(SECTION) {
        return true;
      }
    }
    return false;
  }

  lemma KeyOfStripped(l: string)
    ensures TopLevelKey(StripEol(l)) == TopLevelKey(l)
  {
    StripDropsEol(l);
    LookSame(START, l, StripEol(l));
  }

  /** `merge_goose_yaml_config` on the text; the flag says whether a block was replaced. An error
      means an inline `mcpServers:` value, and never that detection and replacement disagreed. */
  method Install(text: string, bin: string) returns (r: Result<string>, replaced: bool)
    ensures r == Installed(text, bin)
    ensures replaced <==> Located(SplitInclusive(text)).Some?
    ensures r.Err? ==> r.error == INLINE
  {
    hide BlockRows, RenderBlock, Concat, FindBlock, FindSection, InsertIndent, TrimEnd, IsSectionHeader;
    if text == "" {
      assert SplitInclusive(text) == [];
      CopyNothing([], [], 0);
      EmptyIsNotLocated();
      assert ([HEADER] + BlockRows(bin, 2))[1..] == BlockRows(bin, 2);
      ConcatCons(HEADER, BlockRows(bin, 2));
      RowsRender(bin, 2);
      return Ok(HEADER + RenderBlock(bin, 2)), false;
    }
    replaced := Detect(text);
    if replaced {
      r := Replace(text, bin);
    } else {
      var found := HasSection(text);
      if found {
        r := Insert(text, bin);
      } else {
        r := Ok(TrimEnd(text) + "\n" + HEADER + RenderBlock(bin, 2));
      }
    }
  }

  lemma EmptyIsNotLocated()
    ensures Located([]) == None
  {
  }

  /** `remove_goose_yaml_config` on the text. The removal after a positive detection cannot fail. */
  method Uninstall(text: string) returns (out: string, removed: bool)
    ensures out == Uninstalled(text)
    ensures removed <==> Located(SplitInclusive(text)).Some?
  {
    removed := Detect(text);
    if !removed {
      return text, false;
    }
    var r := Remove(text);
    out := DropEmptySection(r.value);
  }

  // ---- What the measure says ----------------------------------------------------------------------------

  lemma {:induction false} MarksOfTrimEnd(s: string)
    ensures Marks(TrimEnd(s)) == Marks(s)
  {
    if s != "" && IsWhitespace(s[|s| - 1]) {
      MarksOfTrimEnd(s[..|s| - 1]);
      assert s == s[..|s| - 1] + [s[|s| - 1]];
      MarksAppend(s[..|s| - 1], [s[|s| - 1]]);
      NoMarks([s[|s| - 1]]);
    }
  }

  lemma {:induction false} MarksOfTrimEol(s: string)
    ensures Marks(TrimEol(s)) == Marks(s)
  {
    if s != "" && IsEol(s[|s| - 1]) {
      MarksOfTrimEol(s[..|s| - 1]);
      assert s == s[..|s| - 1] + [s[|s| - 1]];
      MarksAppend(s[..|s| - 1], [s[|s| - 1]]);
      NoMarks([s[|s| - 1]]);
    }
  }

  lemma BareHeaderHasNoMarks(l: string)
    requires IsBareHeader(l)
    ensures Marks(l) == 0
  {
    hide Marks;
    MarksOfTrimEol(l);
    MarksOfTrimEnd(TrimEol(l));
    NoMarks("mcpServers:");
  }

  /** Dropping headers takes no mark away. */
  lemma {:induction false} DropKeepsMarks(ls: seq<string>, i: nat)
    requires i <= |ls|
    ensures Marks(Concat(KeptFrom(ls, i))) == Marks(Concat(ls[i..]))
    decreases |ls| - i
  {
    hide Marks, IsBareHeader, Concat, KeptFrom;
    if i < |ls| {
      DropKeepsMarks(ls, i + 1);
      KeepOrDrop(ls, i);
      assert ls[i..] == [ls[i]] + ls[i + 1..];
      ConcatCons(ls[i], ls[i + 1..]);
      MarksAppend(ls[i], Concat(ls[i + 1..]));
      MarksAppend(ls[i], Concat(KeptFrom(ls, i + 1)));
      if IsDropped(ls, i) {
        BareHeaderHasNoMarks(ls[i]);
        assert "" + Concat(KeptFrom(ls, i + 1)) == Concat(KeptFrom(ls, i + 1));
      }
    } else {
      NothingKept(ls);
    }
  }

  lemma NothingKept(ls: seq<string>)
    ensures KeptFrom(ls, |ls|) == [] && ls[|ls|..] == []
  {
  }

  lemma UninstalledMarks(text: string, stripped: string)
    requires Removed(text) == Ok(stripped)
    ensures Marks(Uninstalled(text)) == Marks(stripped)
  {
    hide Marks, Removed, Concat, KeptFrom, SplitInclusive, Uninstalled;
    UninstalledIs(text, stripped);
    DropKeepsMarks(SplitInclusive(stripped), 0);
    assert SplitInclusive(stripped)[0..] == SplitInclusive(stripped);
    ConcatOfSplit(stripped);
  }

  lemma UninstalledIs(text: string, stripped: string)
    requires Removed(text) == Ok(stripped)
    ensures Uninstalled(text) == Concat(KeptFrom(SplitInclusive(stripped), 0))
  {
    hide Removed, Concat, KeptFrom, SplitInclusive;
  }

  lemma EmptyHasNoLines()
    ensures SplitInclusive("") == []
  {
  }

  // ---- Round trip into an existing section ----------------------------------------------------------------

  lemma LeftOverIsSplit(ls: seq<string>, h: nat, bin: string)
    requires IsSplit(ls) && h < |ls| && Terminated(ls[h])
    ensures IsSplit(LeftOver(ls, h, bin))
  {
    hide BlockEnd, HoldsTogether, InsertIndent, IsTerminatedLine, Strays;
    var indent := InsertIndent(ls);
    StraysIffNotHeld(bin, indent);
    if HoldsTogether(bin, indent) {
      CutIsSplit(ls, h + 1, BlockEnd(ls, h + 1, indent));
    } else {
      InsertedIsSplit(ls, h + 1, Strays(bin, indent));
    }
  }

  lemma CutIsSplit(ls: seq<string>, at: nat, e: nat)
    requires IsSplit(ls) && at <= e <= |ls|
    ensures IsSplit(ls[..at] + ls[e..])
  {
    var out := ls[..at] + ls[e..];
    forall k | 0 <= k < |out|
      ensures IsLine(out[k]) && (k < |out| - 1 ==> Terminated(out[k]))
    {
      if k < at {
        assert out[k] == ls[k];
      } else {
        assert out[k] == ls[e + (k - at)];
      }
    }
  }

  /** What an uninstall makes of an insertion below a terminated header. */
  lemma UninstallInserted(text: string, bin: string)
    requires Inserted(text, bin).Ok? && Terminated(SplitInclusive(text)[FindSection(SplitInclusive(text), 0)])
    ensures var ls := SplitInclusive(text); var h := FindSection(ls, 0);
      Uninstalled(Inserted(text, bin).value) == Concat(KeptFrom(LeftOver(ls, h, bin), 0))
  {
    hide TopLevelKey, TopLevelEntry, TopLevelBlockKey, BlockRows, Concat, FindBlock, SplitInclusive, KeptFrom, LeftOver,
      Inserted, FindSection, BlockEnd, InsertIndent, Uninstalled, Removed, HoldsTogether;
    var ls := SplitInclusive(text);
    InsertedFound(text, bin);
    var h := FindSection(ls, 0);
    SplitIsSplit(text);
    InsertThenRemove(text, bin);
    LeftOverIsSplit(ls, h, bin);
    SplitOfConcat(LeftOver(ls, h, bin));
    UninstalledIs(Inserted(text, bin).value, Concat(LeftOver(ls, h, bin)));
  }

  lemma InsertedFound(text: string, bin: string)
    requires Inserted(text, bin).Ok?
    ensures var ls := SplitInclusive(text);
      FindSection(ls, 0) < |ls| && IsSectionHeader(ls[FindSection(ls, 0)])
  {
    hide TopLevelKey, BlockRows, Concat, SplitInclusive, FindSection, IsSectionHeader;
  }

  /** A section whose own lines give the file back. */
  predicate SectionComesBack(ls: seq<string>, bin: string)
    requires FindSection(ls, 0) < |ls|
  {
    var h, indent := FindSection(ls, 0), InsertIndent(ls);
    && Terminated(ls[h]) && HoldsTogether(bin, indent)
    && BlockEnd(ls, h + 1, indent) == h + 1
    && forall k :: 0 <= k < |ls| ==> !IsDropped(ls, k)
  }

  lemma InsertedHasSection(text: string, bin: string)
    requires Located(SplitInclusive(text)).None? && Inserted(text, bin).Ok?
    ensures FindSection(SplitInclusive(text), 0) < |SplitInclusive(text)|
    ensures Installed(text, bin) == Inserted(text, bin)
  {
    hide TopLevelKey, BlockRows, Concat, FindBlock, SplitInclusive, FindSection;
    EmptyHasNoLines();
  }

  /** MAIN: for every file with a section and no block of ours, and for every command: installing and
      uninstalling gives back the file exactly when the header has its newline, the command holds together,
      no blank or comment line sits right below the header, and every bare `mcpServers:` line is followed
      by an indented line. */
  lemma SectionRoundTrip(text: string, bin: string)
    requires Located(SplitInclusive(text)).None? && Inserted(text, bin).Ok?
    ensures FindSection(SplitInclusive(text), 0) < |SplitInclusive(text)|
    ensures Installed(text, bin) == Inserted(text, bin)
    ensures Uninstalled(Inserted(text, bin).value) == text <==> SectionComesBack(SplitInclusive(text), bin)
  {
    hide TopLevelKey, TopLevelEntry, TopLevelBlockKey, BlockRows, Concat, FindBlock, SplitInclusive, IsDropped, KeptFrom,
      Inserted, FindSection, BlockEnd, InsertIndent, Installed, Uninstalled, Removed, HoldsTogether, LeftOver;
    var ls := SplitInclusive(text);
    InsertedHasSection(text, bin);
    var h := FindSection(ls, 0);
    if !Terminated(ls[h]) {
      GluedStays(text, bin);
    } else if HoldsTogether(bin, InsertIndent(ls)) {
      HeldRoundTrip(text, bin);
    } else {
      StraysStay(text, bin);
    }
  }

  lemma HeldRoundTrip(text: string, bin: string)
    requires Inserted(text, bin).Ok? && Terminated(SplitInclusive(text)[FindSection(SplitInclusive(text), 0)])
    requires HoldsTogether(bin, InsertIndent(SplitInclusive(text)))
    ensures FindSection(SplitInclusive(text), 0) < |SplitInclusive(text)|
    ensures Uninstalled(Inserted(text, bin).value) == text <==> SectionComesBack(SplitInclusive(text), bin)
  {
    hide TopLevelKey, TopLevelEntry, TopLevelBlockKey, BlockRows, Concat, FindBlock, SplitInclusive, IsDropped, KeptFrom,
      Inserted, FindSection, BlockEnd, InsertIndent, Uninstalled, HoldsTogether;
    var ls := SplitInclusive(text);
    InsertedFound(text, bin);
    var h := FindSection(ls, 0);
    var e := BlockEnd(ls, h + 1, InsertIndent(ls));
    var mid := ls[..h + 1] + ls[e..];
    SplitIsSplit(text);
    ConcatOfSplit(text);
    UninstallInserted(text, bin);
    CutIsSplit(ls, h + 1, e);
    ShorterWithoutRun(ls, h + 1, e);
    DropLosesLength(mid, 0);
    assert mid[0..] == mid;
    if e == h + 1 {
      assert mid == ls;
    }
  }

  /** Rows that fell off are never taken away again. */
  lemma StraysStay(text: string, bin: string)
    requires Inserted(text, bin).Ok? && Terminated(SplitInclusive(text)[FindSection(SplitInclusive(text), 0)])
    requires !HoldsTogether(bin, InsertIndent(SplitInclusive(text)))
    ensures Uninstalled(Inserted(text, bin).value) != text
  {
    hide TopLevelKey, TopLevelBlockKey, BlockRows, Concat, SplitInclusive, Inserted, FindSection, InsertIndent, Uninstalled,
      Removed, HoldsTogether, Marks, Held, BlockEnd;
    var ls := SplitInclusive(text);
    InsertedFound(text, bin);
    var h, indent := FindSection(ls, 0), InsertIndent(ls);
    InsertThenRemove(text, bin);
    UninstalledMarks(Inserted(text, bin).value, Concat(LeftOver(ls, h, bin)));
    MarksConcat(ls[..h + 1] + Strays(bin, indent), ls[h + 1..]);
    MarksConcat(ls[..h + 1], Strays(bin, indent));
    StraysAreMarked(bin, indent);
    ConcatOfSplit(text);
    assert ls == ls[..h + 1] + ls[h + 1..];
    MarksConcat(ls[..h + 1], ls[h + 1..]);
  }

  /** Neither is a row glued to the header. */
  lemma GluedStays(text: string, bin: string)
    requires Inserted(text, bin).Ok? && !Terminated(SplitInclusive(text)[FindSection(SplitInclusive(text), 0)])
    ensures Uninstalled(Inserted(text, bin).value) != text
  {
    hide TopLevelKey, TopLevelBlockKey, BlockRows, RenderBlock, Concat, SplitInclusive, Inserted, InsertIndent, Marks,
      BlockEnd, KeptFrom, CommandRows;
    var ls := SplitInclusive(text);
    InsertedFound(text, bin);
    InsertGlues(text, bin);
    var h, indent := FindSection(ls, 0), InsertIndent(ls);
    var rows, longer := BlockRows(bin, indent), Inserted(text, bin).value;
    var out := Fused(ls, rows);
    RowsShape(bin, indent);
    StraysAreMarked(bin, indent);
    MarksAppend(text, RenderBlock(bin, indent));
    FusedIsLocatedLater(ls, rows);
    BlockIsMarked(bin, indent);
    if Located(out).Some? {
      var b := Located(out).value;
      var stripped := Concat(out[..b.at] + out[End(out, b)..]);
      UninstalledMarks(longer, stripped);
      GluedMarks(ls, rows, out, b.at, out[End(out, b)..]);
      ConcatOfSplit(text);
    }
  }

  lemma BlockIsMarked(bin: string, indent: nat)
    ensures Marks(RenderBlock(bin, indent)) >= 1
  {
    hide Marks, Concat, EscapeScalar;
    BlockMarks(bin, indent);
    assert "difflore:\n"[0] == 'd';
    HasMark("difflore:\n", 0);
  }

  lemma GluedMarks(ls: seq<string>, rows: seq<string>, out: seq<string>, at: nat, rest: seq<string>)
    requires ls != [] && rows != [] && out == Fused(ls, rows) && |ls| <= at <= |out|
    ensures Marks(Concat(out[..at] + rest)) >= Marks(Concat(ls)) + Marks(rows[0])
  {
    hide Marks, Concat;
    var front, last := ls[..|ls| - 1], ls[|ls| - 1];
    var more := out[|ls|..at] + rest;
    assert out[..at] + rest == (front + [last + rows[0]]) + more;
    MarksConcat(front + [last + rows[0]], more);
    MarksConcat(front, [last + rows[0]]);
    OneLineConcat(last + rows[0]);
    MarksAppend(last, rows[0]);
    assert ls == front + [last];
    MarksConcat(front, [last]);
    OneLineConcat(last);
  }

  // ---- Installing twice -----------------------------------------------------------------------------------

  lemma RowsAgain(ls: seq<string>, at: nat, rows: seq<string>, n: nat, e: nat)
    requires at <= e <= |ls| && n <= |rows|
    ensures var out := WithRows(ls, at, rows);
      && |out| == |ls| + |rows|
      && out[..at] + rows + out[e + |rows|..] == ls[..at] + rows + ls[e..]
      && out[..at] + rows + out[at + n..] == ls[..at] + rows + rows[n..] + ls[at..]
  {
  }

  /** A second install replaces the block the first one inserted: it swallows the run below the header,
      or adds the rows that fell off once more. */
  lemma SectionTwice(text: string, bin: string)
    requires Inserted(text, bin).Ok? && Terminated(SplitInclusive(text)[FindSection(SplitInclusive(text), 0)])
    ensures var ls := SplitInclusive(text); var h, indent := FindSection(ls, 0), InsertIndent(ls);
      && Located(SplitInclusive(Inserted(text, bin).value)).Some?
      && (Replaced(Inserted(text, bin).value, bin) == Inserted(text, bin) <==>
            HoldsTogether(bin, indent) && BlockEnd(ls, h + 1, indent) == h + 1)
  {
    hide BlockRows, Concat, SplitInclusive, HoldsTogether, Held, BlockEnd, FindSection, InsertIndent, Replaced, Located, WithRows,
      IsSectionHeader, IsTerminatedLine;
    var ls := SplitInclusive(text);
    InsertedFound(text, bin);
    var h, indent := FindSection(ls, 0), InsertIndent(ls);
    var e := BlockEnd(ls, h + 1, indent);
    ReplacedAgain(text, bin);
    HeldIs(bin, indent);
    TwiceTexts(ls, h + 1, BlockRows(bin, indent), Held(bin, indent), e);
    SplitIsSplit(text);
    StraysIffNotHeld(bin, indent);
    ShorterWithoutRun(ls, h + 1, e);
  }

  lemma ReplacedAgain(text: string, bin: string)
    requires Inserted(text, bin).Ok? && Terminated(SplitInclusive(text)[FindSection(SplitInclusive(text), 0)])
    ensures var ls := SplitInclusive(text); var at, indent := FindSection(ls, 0) + 1, InsertIndent(ls);
      var rows, n, e := BlockRows(bin, indent), Held(bin, indent), BlockEnd(ls, at, indent);
      && Located(SplitInclusive(Inserted(text, bin).value)).Some?
      && n <= |rows|
      && Replaced(Inserted(text, bin).value, bin)
         == Ok(Concat(if HoldsTogether(bin, indent) then ls[..at] + rows + ls[e..] else ls[..at] + rows + rows[n..] + ls[at..]))
  {
    hide TopLevelKey, TopLevelBlockKey, BlockRows, Concat, FindBlock, SplitInclusive, HoldsTogether, Held, BlockEnd,
      FindSection, InsertIndent, IsSectionHeader, WithRows, IsTerminatedLine;
    var ls := SplitInclusive(text);
    InsertedFound(text, bin);
    var h, indent := FindSection(ls, 0), InsertIndent(ls);
    InsertedSplits(text, bin);
    IndentOfSection(ls);
    RowsAreLocated(ls, h, bin, indent);
    HeldIs(bin, indent);
    RowsAgain(ls, h + 1, BlockRows(bin, indent), Held(bin, indent), BlockEnd(ls, h + 1, indent));
  }

  lemma IndentOfSection(ls: seq<string>)
    ensures InsertIndent(ls) > 0
  {
    IndentIsPositive(ls, 0, false);
  }

  lemma TwiceTexts(ls: seq<string>, at: nat, rows: seq<string>, n: nat, e: nat)
    requires at <= e <= |ls| && n <= |rows|
    ensures Concat(ls[..at] + rows + rows[n..] + ls[at..]) == Concat(WithRows(ls, at, rows)) <==> Concat(rows[n..]) == ""
    ensures Concat(ls[..at] + rows + ls[e..]) == Concat(WithRows(ls, at, rows)) <==> |Concat(ls[..at] + ls[e..])| == |Concat(ls)|
  {
    hide Concat;
    var x, y, z, s := Concat(ls[..at]), Concat(rows), Concat(ls[at..]), Concat(rows[n..]);
    ConcatFour(ls[..at], rows, rows[n..], ls[at..]);
    InsertedText(ls, at, rows);
    MoreText(x, y, s, z);
    ConcatThree(ls[..at], rows, ls[e..]);
    ConcatAppend(ls[..at], ls[e..]);
    assert ls == ls[..at] + ls[at..];
    ConcatAppend(ls[..at], ls[at..]);
    assert ls[at..] == ls[at..e] + ls[e..];
    ConcatAppend(ls[at..e], ls[e..]);
    if |Concat(ls[..at] + ls[e..])| == |Concat(ls)| {
      assert |Concat(ls[at..e])| == 0;
      assert Concat(ls[at..e]) + Concat(ls[e..]) == Concat(ls[e..]);
    }
  }
}
