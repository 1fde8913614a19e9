/** Whole installs and uninstalls, for every file and every command: exactly when an uninstall gives the
    file back, exactly when a second install changes nothing, and real files at which they do not. */
module GooseWhole {
  import opened Wrappers
  import opened Text
  import opened YamlScalar
  import opened GooseYaml
  import opened GooseBlock
  import opened GooseReplace
  import opened GooseInstall
  import opened GooseRoundTrip
  import opened GooseAppend

  // ---- Out again --------------------------------------------------------------------------------------------

  /** The files an install and an uninstall give back. */
  predicate ComesBack(text: string, bin: string) {
    var ls := SplitInclusive(text);
    if text == "" then HoldsTogether(bin, 2)
    else if FindSection(ls, 0) < |ls| then SectionComesBack(ls, bin)
    else HoldsTogether(bin, 2) && text == TrimEnd(text) + "\n"
  }

  /** MAIN: for every file without a block of ours and every command, whenever the install succeeds,
      uninstalling gives the file back exactly when it is one of those. */
  lemma InstallRoundTrip(text: string, bin: string)
    requires Located(SplitInclusive(text)).None? && Installed(text, bin).Ok?
    ensures Uninstalled(Installed(text, bin).value) == text <==> ComesBack(text, bin)
  {
    hide TopLevelKey, BlockRows, RenderBlock, Concat, SplitInclusive, FindBlock, HoldsTogether, Uninstalled, TrimEnd, SectionComesBack,
      Inserted, FindSection;
    if text == "" {
      FreshRoundTrip(bin);
    } else if FindSection(SplitInclusive(text), 0) < |SplitInclusive(text)| {
      SectionRoundTrip(text, bin);
    } else {
      AppendRoundTrip(text, bin);
    }
  }

  /** Over a block that was there before, an uninstall takes the user's own block with it: the result is
      what an uninstall alone would leave, and never the file. */
  lemma PresentRoundTrip(text: string, bin: string)
    requires Located(SplitInclusive(text)).Some?
    ensures Installed(text, bin).Ok?
    ensures HoldsTogether(bin, Located(SplitInclusive(text)).value.indent) ==>
      Uninstalled(Installed(text, bin).value) == Uninstalled(text)
    ensures Uninstalled(text) != text
  {
    hide TopLevelKey, BlockRows, RenderBlock, Concat, SplitInclusive, FindBlock, HoldsTogether, BlockEnd, Strays, KeptFrom;
    var ls := SplitInclusive(text);
    var b := Located(ls).value;
    EmptyHasNoLines();
    EmptyIsNotLocated();
    RemoveAfterReplace(text, bin);
    SplitIsSplit(text);
    ConcatOfSplit(text);
    var e := End(ls, b);
    ShorterWithoutRun(ls, b.at, e);
    CutIsSplit(ls, b.at, e);
    var mid := ls[..b.at] + ls[e..];
    SplitOfConcat(mid);
    DropLosesLength(mid, 0);
    assert mid[0..] == mid;
  }

  // ---- Once more ----------------------------------------------------------------------------------------------

  /** The files a second install leaves as the first one made them. */
  predicate StaysInstalled(text: string, bin: string) {
    var ls := SplitInclusive(text);
    var h, indent := FindSection(ls, 0), InsertIndent(ls);
    if text == "" then HoldsTogether(bin, 2)
    else if Located(ls).Some? then HoldsTogether(bin, Located(ls).value.indent)
    else if h < |ls| then Terminated(ls[h]) && HoldsTogether(bin, indent) && BlockEnd(ls, h + 1, indent) == h + 1
    else HoldsTogether(bin, 2)
  }

  /** MAIN: for every file and every command, a second install changes nothing exactly then. */
  lemma InstallTwice(text: string, bin: string)
    requires Installed(text, bin).Ok?
    ensures Installed(Installed(text, bin).value, bin) == Installed(text, bin) <==> StaysInstalled(text, bin)
  {
    hide TopLevelKey, BlockRows, RenderBlock, Concat, SplitInclusive, FindBlock, HoldsTogether, TrimEnd, Inserted, FindSection,
      InsertIndent, BlockEnd, Replaced, Marks;
    var ls := SplitInclusive(text);
    EmptyHasNoLines();
    EmptyIsNotLocated();
    if text == "" {
      FreshRoundTrip(bin);
    } else if Located(ls).Some? {
      ReplacedTwice(text, bin);
    } else if FindSection(ls, 0) < |ls| {
      InsertedFound(text, bin);
      if Terminated(ls[FindSection(ls, 0)]) {
        SectionTwice(text, bin);
      } else {
        GluedTwice(text, bin);
      }
    } else {
      AppendRoundTrip(text, bin);
    }
  }

  lemma ReplacedTwice(text: string, bin: string)
    requires Located(SplitInclusive(text)).Some?
    ensures Replaced(text, bin).Ok? && Installed(text, bin) == Replaced(text, bin)
    ensures Installed(Replaced(text, bin).value, bin) == Replaced(text, bin)
      <==> HoldsTogether(bin, Located(SplitInclusive(text)).value.indent)
  {
    hide BlockRows, Concat, SplitInclusive, FindBlock, HoldsTogether, BlockEnd;
    EmptyHasNoLines();
    EmptyIsNotLocated();
    ReplaceTwiceIsOnce(text, bin);
    ReplacedSplits(text, bin);
    SplicedIsLocated(SplitInclusive(text), Located(SplitInclusive(text)).value, bin);
  }

  /** Below a glued header a second install is refused or writes more, whatever the command. */
  lemma GluedTwice(text: string, bin: string)
    requires Inserted(text, bin).Ok? && !Terminated(SplitInclusive(text)[FindSection(SplitInclusive(text), 0)])
    ensures Installed(Inserted(text, bin).value, bin) != Inserted(text, bin)
  {
    hide TopLevelKey, TopLevelBlockKey, BlockRows, RenderBlock, Concat, SplitInclusive, InsertIndent, Marks, BlockEnd, FindBlock,
      IsSectionHeader, CommandRows;
    var ls := SplitInclusive(text);
    InsertedFound(text, bin);
    InsertGlues(text, bin);
    var rows, once := BlockRows(bin, InsertIndent(ls)), Inserted(text, bin).value;
    var out := Fused(ls, rows);
    RowsShape(bin, InsertIndent(ls));
    FusedIsLocatedLater(ls, rows);
    BlockIsMarked(bin, InsertIndent(ls));
    EmptyMarks(text, RenderBlock(bin, InsertIndent(ls)));
    ConcatOfSplit(once);
    if Located(out).Some? {
      LocatedFrom(out, |ls|, Look(START, out[|ls| - 1]));
      GluedReplacement(ls, bin, InsertIndent(ls), Located(out).value);
    } else {
      InsertedIsLonger(once, bin);
    }
  }

  lemma EmptyMarks(text: string, block: string)
    requires Marks(block) >= 1
    ensures text + block != ""
  {
  }

  lemma LocatedFrom(ls: seq<string>, i: nat, st: Scan)
    requires i <= |ls|
    ensures FindBlock(ls, i, st).Some? ==> i <= FindBlock(ls, i, st).value.at < |ls|
  {
    hide IsHit, Look;
  }

  lemma GluedReplacement(ls: seq<string>, bin: string, indent: nat, b: Block)
    requires ls != [] && BlockRows(bin, indent) != [] && b.at >= |ls|
    requires var out := Fused(ls, BlockRows(bin, indent)); b.at < |out|
    ensures var out := Fused(ls, BlockRows(bin, indent));
      Concat(Spliced(out, b, BlockRows(bin, b.indent))) != Concat(out)
  {
    hide BlockRows, RenderBlock, Concat, Marks, BlockEnd, CommandRows;
    var rows := BlockRows(bin, indent);
    var out := Fused(ls, rows);
    var e := End(out, b);
    RowsShape(bin, indent);
    StraysAreMarked(bin, indent);
    RowsRender(bin, indent);
    RowsRender(bin, b.indent);
    MarksOfBlock(bin, indent, b.indent);
    assert rows == [rows[0]] + rows[1..];
    ConcatCons(rows[0], rows[1..]);
    MarksAppend(rows[0], Concat(rows[1..]));
    SliceMarks(out, b.at, e);
    assert out[|ls|..] == rows[1..];
    TailMarks(out, |ls|, b.at, e);
    MarksConcat(out[..b.at] + BlockRows(bin, b.indent), out[e..]);
    MarksConcat(out[..b.at], BlockRows(bin, b.indent));
  }

  lemma SliceMarks(ls: seq<string>, i: nat, j: nat)
    requires i <= j <= |ls|
    ensures Marks(Concat(ls)) == Marks(Concat(ls[..i])) + Marks(Concat(ls[i..j])) + Marks(Concat(ls[j..]))
  {
    hide Concat, Marks;
    assert ls == (ls[..i] + ls[i..j]) + ls[j..];
    MarksConcat(ls[..i] + ls[i..j], ls[j..]);
    MarksConcat(ls[..i], ls[i..j]);
  }

  lemma TailMarks(ls: seq<string>, n: nat, i: nat, j: nat)
    requires n <= i <= j <= |ls|
    ensures Marks(Concat(ls[i..j])) <= Marks(Concat(ls[n..]))
  {
    hide Concat, Marks;
    var tail := ls[n..];
    assert tail[i - n..j - n] == ls[i..j];
    SliceMarks(tail, i - n, j - n);
  }

  lemma InsertedMarks(ls: seq<string>, at: nat, rows: seq<string>)
    requires at <= |ls|
    ensures Marks(Concat(WithRows(ls, at, rows))) == Marks(Concat(ls)) + Marks(Concat(rows))
  {
    hide Concat, Marks;
    MarksConcat(ls[..at] + rows, ls[at..]);
    MarksConcat(ls[..at], rows);
    assert ls == ls[..at] + ls[at..];
    MarksConcat(ls[..at], ls[at..]);
  }

  lemma InsertedIs(text: string, bin: string)
    ensures var ls := SplitInclusive(text); var h := FindSection(ls, 0);
      Inserted(text, bin).Ok? ==>
        h < |ls| && Inserted(text, bin).value == Concat(WithRows(ls, h + 1, BlockRows(bin, InsertIndent(ls))))
  {
    hide BlockRows, Concat, SplitInclusive, FindSection, InsertIndent, WithRows, IsSectionHeader;
  }

  lemma InsertedIsLonger(text: string, bin: string)
    ensures Inserted(text, bin) != Ok(text)
  {
    hide BlockRows, RenderBlock, Concat, Marks, SplitInclusive, FindSection, InsertIndent, WithRows, Inserted, TopLevelKey;
    var ls := SplitInclusive(text);
    if Inserted(text, bin).Ok? {
      InsertedIs(text, bin);
      ConcatOfSplit(text);
      RowsRender(bin, InsertIndent(ls));
      BlockIsMarked(bin, InsertIndent(ls));
      InsertedMarks(ls, FindSection(ls, 0) + 1, BlockRows(bin, InsertIndent(ls)));
    }
  }

  // ---- A header lost ----------------------------------------------------------------------------------------------

  lemma LeftOverHeader(ls: seq<string>, h: nat, e: nat)
    requires h < |ls| && h + 1 <= e <= |ls|
    ensures var mid := ls[..h + 1] + ls[e..];
      |mid| == h + 1 + |ls| - e && mid[h] == ls[h] && (e < |ls| ==> mid[h + 1] == ls[e])
  {
  }

  /** MAIN: an install and an uninstall lose the section header exactly when it is bare and the line left
      below it is missing or not indented. For a command that holds together that line is the first one
      below the header that is neither blank nor deeper than the children. */
  lemma HeaderLostIff(text: string, bin: string)
    requires Inserted(text, bin).Ok? && Terminated(SplitInclusive(text)[FindSection(SplitInclusive(text), 0)])
    ensures var ls := SplitInclusive(text); var h := FindSection(ls, 0); var left := LeftOver(ls, h, bin);
      var e := BlockEnd(ls, h + 1, InsertIndent(ls));
      && Uninstalled(Inserted(text, bin).value) == Concat(KeptFrom(left, 0))
      && h < |left| && left[h] == ls[h]
      && (IsDropped(left, h) <==> IsBareHeader(ls[h]) && (h + 1 == |left| || IndentOf(left[h + 1]) == 0))
      && (HoldsTogether(bin, InsertIndent(ls)) ==>
            (h + 1 < |left| <==> e < |ls|) && (e < |ls| ==> left[h + 1] == ls[e]))
  {
    hide TopLevelKey, BlockRows, Concat, SplitInclusive, KeptFrom, Inserted, FindSection, BlockEnd, InsertIndent, Uninstalled,
      HoldsTogether, IsBareHeader, IndentOf, Held, IsBlank;
    var ls := SplitInclusive(text);
    InsertedFound(text, bin);
    var h, indent := FindSection(ls, 0), InsertIndent(ls);
    var e := BlockEnd(ls, h + 1, indent);
    UninstallInserted(text, bin);
    var left := LeftOver(ls, h, bin);
    HeldIs(bin, indent);
    if HoldsTogether(bin, indent) {
      LeftOverHeader(ls, h, e);
      assert e < |ls| ==> !IsBlank(left[h + 1]);
    } else {
      assert left[h + 1] == BlockRows(bin, indent)[Held(bin, indent)];
      assert !IsBlank(left[h + 1]);
    }
  }

  /** Line `c` is a child of the section below line `h`. */
  predicate IsOwnChild(ls: seq<string>, h: nat, c: nat) {
    h < c < |ls| && ChildIndentOf(ls[c]).Some? && forall j :: h < j <= c ==> TopLevelKey(ls[j]).None?
  }

  /** A child of the section is left without its header exactly when, besides, the line that costs the
      header is no key: a comment or a list item in the first column. The child itself stays. */
  lemma OrphanedIff(text: string, bin: string, c: nat)
    requires Inserted(text, bin).Ok? && Terminated(SplitInclusive(text)[FindSection(SplitInclusive(text), 0)])
    requires HoldsTogether(bin, InsertIndent(SplitInclusive(text)))
    requires IsOwnChild(SplitInclusive(text), FindSection(SplitInclusive(text), 0), c)
    ensures var ls := SplitInclusive(text); var h := FindSection(ls, 0); var left := LeftOver(ls, h, bin);
      var e := BlockEnd(ls, h + 1, InsertIndent(ls));
      && h < |left| && e <= c && TopLevelKey(ls[e]).None?
      && (IsDropped(left, h) <==> IsBareHeader(ls[h]) && IndentOf(ls[e]) == 0)
      && ls[c] in KeptFrom(left, 0)
  {
    hide BlockRows, Concat, SplitInclusive, KeptFrom, Inserted, FindSection, BlockEnd, InsertIndent, Uninstalled,
      HoldsTogether, IsBareHeader, IsDropped, TopLevelKey, ChildIndentOf;
    var ls := SplitInclusive(text);
    InsertedFound(text, bin);
    var h := FindSection(ls, 0);
    var e := BlockEnd(ls, h + 1, InsertIndent(ls));
    HeaderLostIff(text, bin);
    InsertThenRemove(text, bin);
    if c < e {
      BlankOrCommentIsNoKey(ls[c]);
    }
    var left := LeftOver(ls, h, bin);
    assert left[h + 1 + c - e] == ls[c];
    ChildIsKept(left, 0, h + 1 + c - e);
  }

  lemma {:induction false} ChildIsKept(ls: seq<string>, i: nat, c: nat)
    requires i <= c < |ls| && ChildIndentOf(ls[c]).Some?
    ensures ls[c] in KeptFrom(ls, i)
    decreases c - i
  {
    hide IsDropped, ChildIndentOf;
    if i < c {
      ChildIsKept(ls, i + 1, c);
    } else {
      ChildIsNoHeader(ls, c);
    }
  }

  lemma ChildIsNoHeader(ls: seq<string>, c: nat)
    requires c < |ls| && ChildIndentOf(ls[c]).Some?
    ensures !IsDropped(ls, c)
  {
    hide TrimEnd, TrimEol, TopLevelKey;
    if IsBareHeader(ls[c]) {
      TrimEolDropsEol(ls[c]);
      IndentSame(ls[c], TrimEol(ls[c]));
    }
  }

  // ---- Real files ---------------------------------------------------------------------------------------------------

  const OTHER := "  other:\n"

  lemma OtherLine()
    ensures ChildIndentOf(OTHER) == Some(2) && IndentOf(OTHER) == 2 && !IsBlank(OTHER) && TopLevelKey(OTHER).None?
    ensures IsTerminatedLine(OTHER) && NeverKey(OTHER)
  {
    hide TrimStart, FirstInk, IndentOf, IsBlank, NeverKey;
    assert Spaces(2) == "  ";
    assert "other:\n"[0] == 'o';
    InkAfterSpaces(2, "other:\n");
    assert OTHER == Spaces(2) + "other:\n";
    OtherRowIsNeverKey(2, "other:\n");
    TerminatedRow("  other:");
    assert "  other:" + "\n" == OTHER;
  }

  lemma HeaderIsNeverKey()
    ensures NeverKey(HEADER)
  {
    hide NeverKey;
    assert HEADER[0] == 'm';
    OtherRowIsNeverKey(0, HEADER);
    assert Spaces(0) + HEADER == HEADER;
  }

  /** A section of one server with a blank or comment line below its header. */
  lemma SmallFile(mid: string)
    requires IsTerminatedLine(mid) && IsBlankOrComment(mid) && NeverKey(mid)
    ensures var ls := [HEADER, mid, OTHER];
      && SplitInclusive(Concat(ls)) == ls && Concat(ls) == HEADER + mid + OTHER
      && Located(ls).None? && FindSection(ls, 0) == 0 && IsSectionHeader(ls[0]) && Terminated(ls[0]) && IsBareHeader(ls[0])
      && InsertIndent(ls) == 2 && BlockEnd(ls, 1, 2) == if Continues(mid, 2) then 2 else 1
  {
    hide TopLevelKey, TopLevelBlockKey, ChildIndentOf, IsBlank, IndentOf, NeverKey, Concat, SplitInclusive, FindBlock, IsBareHeader,
      IsSectionHeader, IsLine;
    var ls := [HEADER, mid, OTHER];
    OtherLine();
    HeaderIsHeader();
    HeaderIsNeverKey();
    BlankOrCommentIsNoKey(mid);
    TerminatedIsSplit(ls);
    SplitOfConcat(ls);
    SmallText(mid);
    NoKeyNoBlock(ls, 0, START);
    SmallScan(mid);
  }

  lemma SmallText(mid: string)
    ensures Concat([HEADER, mid, OTHER]) == HEADER + mid + OTHER
  {
    hide Concat;
    assert [HEADER, mid, OTHER] == [HEADER] + [mid] + [OTHER];
    ConcatThree([HEADER], [mid], [OTHER]);
    OneLineConcat(HEADER);
    OneLineConcat(mid);
    OneLineConcat(OTHER);
  }

  lemma SmallScan(mid: string)
    requires TopLevelKey(mid).None? && ChildIndentOf(mid).None? && IsSectionHeader(HEADER)
    requires TopLevelKey(OTHER).None? && ChildIndentOf(OTHER) == Some(2) && !Continues(OTHER, 2)
    ensures var ls := [HEADER, mid, OTHER];
      FindSection(ls, 0) == 0 && InsertIndent(ls) == 2 && BlockEnd(ls, 1, 2) == if Continues(mid, 2) then 2 else 1
  {
    hide TopLevelKey, TopLevelBlockKey, ChildIndentOf, Continues;
    var ls := [HEADER, mid, OTHER];
    assert FirstChildIndent(ls, 2, true) == Some(2);
    assert FirstChildIndent(ls, 1, true) == Some(2);
    assert FirstChildIndent(ls, 0, false) == Some(2);
    assert BlockEnd(ls, 2, 2) == 2;
  }

  lemma SmallInstalls(mid: string, bin: string)
    requires IsTerminatedLine(mid) && IsBlankOrComment(mid) && NeverKey(mid)
    ensures var text := HEADER + mid + OTHER;
      Installed(text, bin) == Inserted(text, bin) && Inserted(text, bin).Ok? && text != ""
  {
    hide TopLevelKey, Concat, SplitInclusive, FindBlock, IsSectionHeader, BlockRows, IsBareHeader, InsertIndent, FindSection, BlockEnd,
      IsTerminatedLine, IsBlankOrComment, NeverKey;
    SmallFile(mid);
    assert |HEADER + mid + OTHER| > 0;
  }

  lemma BlankLine()
    ensures IsTerminatedLine("\n") && IsBlankOrComment("\n") && NeverKey("\n") && Continues("\n", 2)
  {
    assert "\n"[..0] == "" && TrimEol("\n") == "";
  }

  /** A blank line below the header is lost on the way in and out, and a second install loses it, too. */
  lemma BlankLineIsSwallowed(bin: string)
    requires '\n' !in bin
    ensures var text := "mcpServers:\n\n  other:\n"; var once := Installed(text, bin);
      && once.Ok? && Uninstalled(once.value) == "mcpServers:\n  other:\n"
      && Installed(once.value, bin) != once
  {
    hide Concat, SplitInclusive, FindBlock, IsSectionHeader, BlockRows, IsBareHeader, IsTerminatedLine, NeverKey, IsBlankOrComment,
      HoldsTogether, Installed, Uninstalled, Inserted, BlockEnd, InsertIndent, FindSection, KeptFrom, TopLevelKey, Continues;
    var text, ls := "mcpServers:\n\n  other:\n", [HEADER, "\n", OTHER];
    assert text == HEADER + "\n" + OTHER;
    BlankLine();
    SmallFile("\n");
    SmallInstalls("\n", bin);
    OneLineHolds(bin, 2);
    UninstallInserted(text, bin);
    assert LeftOver(ls, 0, bin) == [HEADER, OTHER];
    TwoLinesKept();
    InstallTwice(text, bin);
  }

  lemma KeptStep(ls: seq<string>, i: nat)
    requires i <= |ls|
    ensures i == |ls| ==> KeptFrom(ls, i) == []
    ensures i < |ls| ==> KeptFrom(ls, i) == (if IsDropped(ls, i) then [] else [ls[i]]) + KeptFrom(ls, i + 1)
  {
    hide IsDropped;
  }

  lemma TwoLinesKept()
    ensures Concat(KeptFrom([HEADER, OTHER], 0)) == "mcpServers:\n  other:\n"
  {
    hide IsBareHeader, Concat, IndentOf, IsBlank, TopLevelKey, KeptFrom, ChildIndentOf;
    var ls := [HEADER, OTHER];
    OtherLine();
    assert NextInked(ls, 1) == 1;
    assert !IsDropped(ls, 0);
    ChildIsNoHeader(ls, 1);
    KeptStep(ls, 0);
    KeptStep(ls, 1);
    KeptStep(ls, 2);
    assert KeptFrom(ls, 0) == [HEADER] + [OTHER];
    ConcatCons(HEADER, [OTHER]);
    OneLineConcat(OTHER);
  }

  lemma CommentLine()
    ensures IsTerminatedLine("# mine\n") && IsBlankOrComment("# mine\n") && NeverKey("# mine\n") && !Continues("# mine\n", 2)
    ensures IndentOf("# mine\n") == 0 && !IsBlank("# mine\n")
  {
    hide NeverKey;
    assert "# mine\n"[0] == '#' && "# mine\n" == "# mine" + "\n";
    TerminatedRow("# mine");
    OtherRowIsNeverKey(0, "# mine\n");
    assert Spaces(0) + "# mine\n" == "# mine\n";
  }

  /** A comment in the first column below the header: the header goes, and the user's server is left
      without one. */
  lemma CommentCostsTheHeader(bin: string)
    requires '\n' !in bin
    ensures var text := "mcpServers:\n# mine\n  other:\n"; var once := Installed(text, bin);
      once.Ok? && Uninstalled(once.value) == "# mine\n  other:\n"
  {
    hide Concat, SplitInclusive, FindBlock, IsSectionHeader, BlockRows, IsBareHeader, IsTerminatedLine, NeverKey, IsBlankOrComment,
      HoldsTogether, Installed, Uninstalled, Inserted, BlockEnd, InsertIndent, FindSection, KeptFrom, TopLevelKey, Continues, IndentOf, IsBlank;
    var text, ls := "mcpServers:\n# mine\n  other:\n", [HEADER, "# mine\n", OTHER];
    assert text == HEADER + "# mine\n" + OTHER;
    CommentLine();
    SmallFile("# mine\n");
    SmallInstalls("# mine\n", bin);
    OneLineHolds(bin, 2);
    UninstallInserted(text, bin);
    assert LeftOver(ls, 0, bin) == ls;
    CommentKept();
  }

  lemma CommentKept()
    ensures Concat(KeptFrom([HEADER, "# mine\n", OTHER], 0)) == "# mine\n  other:\n"
  {
    hide Concat, IndentOf, IsBlank, TopLevelKey, IsBareHeader, KeptFrom, ChildIndentOf, IsDropped, IsTerminatedLine, NeverKey, Continues,
      IsBlankOrComment, IsSectionHeader;
    var ls := [HEADER, "# mine\n", OTHER];
    OtherLine();
    CommentDrops(ls);
    ChildIsNoHeader(ls, 2);
    KeptStep(ls, 0);
    KeptStep(ls, 1);
    KeptStep(ls, 2);
    KeptStep(ls, 3);
    assert KeptFrom(ls, 0) == ["# mine\n"] + [OTHER];
    ConcatCons("# mine\n", [OTHER]);
    OneLineConcat(OTHER);
  }

  lemma CommentDrops(ls: seq<string>)
    requires ls == [HEADER, "# mine\n", OTHER]
    ensures IsDropped(ls, 0) && !IsDropped(ls, 1)
  {
    hide IndentOf, IsBlank, TopLevelKey, IsBareHeader, IsTerminatedLine, NeverKey, Continues, IsBlankOrComment, IsSectionHeader;
    CommentLine();
    HeaderIsHeader();
    CommentIsNoHeader();
    assert NextInked(ls, 1) == 1;
  }

  lemma CommentIsNoHeader()
    ensures !IsBareHeader("# mine\n")
  {
    var trimmed := TrimEol("# mine\n");
    TrimEolOfRow("# mine");
    assert "# mine" + "\n" == "# mine\n" && trimmed == "# mine";
    TrimEndIsPrefix(trimmed);
    assert "mcpServers:"[0] == 'm' && trimmed[0] == '#';
  }

  /** A header that is the whole file and has no newline: the entry is glued to it, no scanner finds it,
      an uninstall leaves it, and a second install is not the first. */
  lemma BareHeaderGetsGlued(bin: string)
    requires '\n' !in bin
    ensures var text := "mcpServers:"; var once := Installed(text, bin);
      && once == Ok("mcpServers:" + RenderBlock(bin, 2))
      && Located(SplitInclusive(once.value)).None? && Uninstalled(once.value) == once.value != text
      && Installed(once.value, bin) != once
  {
    hide Concat, SplitInclusive, FindBlock, IsSectionHeader, BlockRows, RenderBlock, IsTerminatedLine, NeverKey, HoldsTogether,
      InsertIndent, FindSection, TopLevelKey, Marks, KeptFrom;
    var text := "mcpServers:";
    GluedFile();
    assert text != "";
    InsertGlues(text, bin);
    InsertIsDetectedIffTerminated(text, bin);
    BlockIsMarked(bin, 2);
    EmptyMarks("", RenderBlock(bin, 2));
    GluedTwice(text, bin);
  }

  lemma GluedFile()
    ensures var ls := ["mcpServers:"];
      && SplitInclusive("mcpServers:") == ls && Located(ls).None? && FindSection(ls, 0) == 0 && IsSectionHeader(ls[0])
      && !Terminated(ls[0]) && InsertIndent(ls) == 2
  {
    hide TopLevelBlockKey, ChildIndentOf, NeverKey, FindBlock, TopLevelKey, SplitInclusive, Concat;
    var l := "mcpServers:";
    var ls := [l];
    BareLine();
    OneLineConcat(l);
    SplitOfConcat(ls);
    OtherRowIsNeverKey(0, l);
    assert Spaces(0) + l == l;
    NoKeyNoBlock(ls, 0, START);
    BareIsHeader(l);
    assert FirstChildIndent(ls, 1, true) == None;
  }

  lemma BareLine()
    ensures IsSplit(["mcpServers:"]) && !Terminated("mcpServers:") && "mcpServers:"[0] == 'm'
  {
    var l := "mcpServers:";
    assert l[10] == ':' && l[0] == 'm';
    assert l[..10] == "mcpServers";
  }

  lemma BareTrims(l: string)
    requires l == "mcpServers:"
    ensures TrimEol(l) == l && IndentOf(l) == 0
  {
    assert l[10] == ':' && l[0] == 'm';
  }

  lemma BareIsHeader(l: string)
    requires l == "mcpServers:"
    ensures IsSectionHeader(l) && TopLevelKey(l) == Some(SECTION)
  {
    hide TopLevelEntry, TrimEol, IndentOf;
    BareTrims(l);
    assert "mcpServers:" + "" == l;
    SectionKeyOf(l, "");
    assert IsBlank(""[..IndexOf("", '#')]);
  }

  /** A command with a newline falls off the block unless what follows is indented. */
  lemma NewlineFallsOff(indent: nat)
    ensures !HoldsTogether("a\nb", indent)
  {
    hide SplitInclusive, Concat, IsTerminatedLine, BlockRows, EscapeScalar, HoldsTogether;
    var text := Spaces(indent + 2) + "command: " + EscapeScalar("a\nb") + "\n";
    var rows := [Spaces(indent + 2) + "command: a" + "\n", "b\n"];
    PlainCommand();
    SpacesHoldNoNewline(indent + 2);
    TerminatedRow(Spaces(indent + 2) + "command: a");
    TerminatedRow("b");
    assert "b" + "\n" == "b\n";
    TerminatedIsSplit(rows);
    assert rows == [rows[0]] + [rows[1]];
    ConcatCons(rows[0], [rows[1]]);
    OneLineConcat(rows[1]);
    assert rows[0] + rows[1] == text;
    SplitOfConcat(rows);
    assert CommandRows("a\nb", indent) == rows;
    assert "b\n"[0] == 'b' && !Continues(CommandRows("a\nb", indent)[1], indent);
    HoldsByCommand("a\nb", indent);
  }

  lemma PlainCommand()
    ensures EscapeScalar("a\nb") == "a\nb"
  {
    var s := "a\nb";
    forall c | c in s
      ensures c == 'a' || c == '\n' || c == 'b'
    {
      var i :| 0 <= i < |s| && s[i] == c;
      assert i == 0 || i == 1 || i == 2;
    }
    assert s[0] == 'a' && s[|s| - 1] == 'b';
  }
}
