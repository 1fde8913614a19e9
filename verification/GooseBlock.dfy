/** The lines of the block we write, for every command. A command with newlines breaks its line, and what
    follows holds together with the block only where it is blank or indented deeper than the key. */
module GooseBlock {
  import opened Wrappers
  import opened Text
  import opened YamlScalar
  import opened GooseYaml

  // ---- Rows that start or continue a block -----------------------------------------------------------

  /** A row that every scanner takes for our key at this indent. */
  predicate IsKeyRow(row: string, indent: nat) {
    && TopLevelKey(row).None?
    && ChildIndentOf(row) == Some(indent)
    && IsIndentedKey(row, KEY, indent)
  }

  lemma {:induction false} InkAfterSpaces(n: nat, s: string)
    requires s != "" && !IsWhitespace(s[0])
    ensures FirstInk(Spaces(n) + s) == Some(s[0])
    ensures IndentOf(Spaces(n) + s) == n
    ensures !IsBlank(Spaces(n) + s)
  {
    var row := Spaces(n) + s;
    IndentOfUnique(row, n);
    assert row[n] == s[0];
    if n > 0 {
      InkAfterSpaces(n - 1, s);
      assert row[1..] == Spaces(n - 1) + s;
    } else {
      assert row == s;
    }
  }

  lemma TrimEolOfRow(s: string)
    requires s == "" || !IsEol(s[|s| - 1])
    ensures TrimEol(s + "\n") == s
  {
    var t := s + "\n";
    assert t[..|t| - 1] == s;
  }

  lemma HeadRowIsKeyRow(indent: nat)
    requires indent > 0
    ensures IsKeyRow(Spaces(indent) + "difflore:\n", indent)
  {
    var row, trimmed := Spaces(indent) + "difflore:\n", Spaces(indent) + "difflore:";
    InkAfterSpaces(indent, "difflore:\n");
    InkAfterSpaces(indent, "difflore:");
    assert row == trimmed + "\n";
    TrimEolOfRow(trimmed);
    assert trimmed[indent..] == "difflore:";
    assert trimmed[indent + 8..] == ":";
  }

  lemma DeeperRowContinues(n: nat, s: string, indent: nat)
    requires n > indent && s != "" && !IsWhitespace(s[0])
    ensures Continues(Spaces(n) + s, indent)
  {
    InkAfterSpaces(n, s);
  }

  predicate IsTerminatedLine(l: string) { IsLine(l) && Terminated(l) }

  predicate AllTerminatedLines(ls: seq<string>) { forall k :: 0 <= k < |ls| ==> IsTerminatedLine(ls[k]) }

  lemma TerminatedRow(s: string)
    requires '\n' !in s
    ensures IsTerminatedLine(s + "\n")
  {
    assert (s + "\n")[..|s|] == s;
  }

  /** A text that ends in a newline splits into terminated lines. */
  lemma SplitTerminates(s: string)
    requires s != "" && s[|s| - 1] == '\n'
    ensures AllTerminatedLines(SplitInclusive(s)) && SplitInclusive(s) != []
  {
    hide SplitInclusive, Concat;
    var ls := SplitInclusive(s);
    SplitIsSplit(s);
    ConcatOfSplit(s);
    assert ls != [] by { EmptyConcat(); }
    ConcatSnoc(ls, |ls| - 1);
    assert ls[..|ls|] == ls;
    assert s[|s| - 1] == ls[|ls| - 1][|ls[|ls| - 1]| - 1];
  }

  lemma EmptyConcat()
    ensures Concat([]) == ""
  {
  }

  // ---- The rows ---------------------------------------------------------------------------------------

  function HeadRow(indent: nat): string { Spaces(indent) + "difflore:\n" }

  function CommandRows(bin: string, indent: nat): seq<string> {
    SplitInclusive(Spaces(indent + 2) + "command: " + EscapeScalar(bin) + "\n")
  }

  function TailRows(indent: nat): seq<string> { [Spaces(indent + 2) + "args:\n", Spaces(indent + 4) + "- mcp-server\n"] }

  lemma FixedRows(indent: nat)
    ensures IsTerminatedLine(HeadRow(indent)) && AllTerminatedLines(TailRows(indent))
    ensures forall k :: 0 <= k < 2 ==> Continues(TailRows(indent)[k], indent)
  {
    var texts := [Spaces(indent) + "difflore:", Spaces(indent + 2) + "args:", Spaces(indent + 4) + "- mcp-server"];
    assert HeadRow(indent) == texts[0] + "\n" && TailRows(indent)[0] == texts[1] + "\n" && TailRows(indent)[1] == texts[2] + "\n";
    TerminatedRow(texts[0]);
    TerminatedRow(texts[1]);
    TerminatedRow(texts[2]);
    DeeperRowContinues(indent + 2, "args:\n", indent);
    DeeperRowContinues(indent + 4, "- mcp-server\n", indent);
  }

  lemma TerminatedIsSplit(ls: seq<string>)
    requires AllTerminatedLines(ls)
    ensures IsSplit(ls)
  {
  }

  lemma TerminatedAppend(a: seq<string>, b: seq<string>)
    requires AllTerminatedLines(a) && AllTerminatedLines(b)
    ensures AllTerminatedLines(a + b)
  {
  }

  /** The rows for every command: the key, the lines of the command, and the two rows of arguments. */
  lemma RowsShape(bin: string, indent: nat)
    ensures var rows := BlockRows(bin, indent);
      && rows == [HeadRow(indent)] + CommandRows(bin, indent) + TailRows(indent)
      && AllTerminatedLines(rows) && |rows| >= 4
  {
    hide SplitInclusive, Concat, IsTerminatedLine, Spaces, EscapeScalar;
    var command := Spaces(indent + 2) + "command: " + EscapeScalar(bin) + "\n";
    var parts := BlockParts(bin, indent);
    var mine := [HeadRow(indent)] + CommandRows(bin, indent) + TailRows(indent);
    FixedRows(indent);
    SplitTerminates(command);
    ConcatOfSplit(command);
    TerminatedAppend([HeadRow(indent)], CommandRows(bin, indent));
    TerminatedAppend([HeadRow(indent)] + CommandRows(bin, indent), TailRows(indent));
    TerminatedIsSplit(mine);
    ConcatAppend([HeadRow(indent)] + CommandRows(bin, indent), TailRows(indent));
    ConcatCons(HeadRow(indent), CommandRows(bin, indent));
    assert parts == [HeadRow(indent)] + ([command] + TailRows(indent));
    ConcatCons(HeadRow(indent), [command] + TailRows(indent));
    ConcatCons(command, TailRows(indent));
    Regroup(HeadRow(indent), command, Concat(TailRows(indent)));
    SplitOfConcat(mine);
  }

  /** Every later line of the block continues it: a scanner sees the block as one piece. */
  predicate HoldsTogether(bin: string, indent: nat) {
    forall k :: 1 <= k < |BlockRows(bin, indent)| ==> Continues(BlockRows(bin, indent)[k], indent)
  }

  /** How many of the rows a scanner takes for the block. */
  function Held(bin: string, indent: nat): (n: nat)
    ensures n <= |BlockRows(bin, indent)| && (BlockRows(bin, indent) != [] ==> n >= 1)
  {
    if BlockRows(bin, indent) == [] then 0 else BlockEnd(BlockRows(bin, indent), 1, indent)
  }

  lemma HeldIs(bin: string, indent: nat)
    ensures var rows, n := BlockRows(bin, indent), Held(bin, indent);
      && rows != [] && 1 <= n <= |rows|
      && (forall k :: 1 <= k < n ==> Continues(rows[k], indent))
      && (n < |rows| ==> !Continues(rows[n], indent) && n < |rows| - 2)
      && (n == |rows| <==> HoldsTogether(bin, indent))
  {
    hide Continues, BlockRows, CommandRows;
    RowsShape(bin, indent);
    FixedRows(indent);
    var rows := BlockRows(bin, indent);
    assert rows[|rows| - 2] == TailRows(indent)[0] && rows[|rows| - 1] == TailRows(indent)[1];
  }

  /** In terms of the command: each of its lines but the first is blank or deeper than the key. */
  lemma HoldsByCommand(bin: string, indent: nat)
    ensures HoldsTogether(bin, indent) <==>
      forall k :: 1 <= k < |CommandRows(bin, indent)| ==> Continues(CommandRows(bin, indent)[k], indent)
  {
    hide Continues, BlockRows, SplitInclusive, CommandRows;
    RowsShape(bin, indent);
    FixedRows(indent);
    FirstCommandRow(bin, indent);
    var rows, own := BlockRows(bin, indent), CommandRows(bin, indent);
    assert forall k :: 0 <= k < |own| ==> rows[k + 1] == own[k];
    if HoldsTogether(bin, indent) {
      forall k | 1 <= k < |own|
        ensures Continues(own[k], indent)
      {
        assert rows[k + 1] == own[k];
      }
    }
    if forall k :: 1 <= k < |own| ==> Continues(own[k], indent) {
      forall k | 1 <= k < |rows|
        ensures Continues(rows[k], indent)
      {
        if k <= |own| {
          assert rows[k] == own[k - 1];
        } else {
          assert rows[k] == TailRows(indent)[k - 1 - |own|];
        }
      }
    }
  }

  /** The first line of the command's part always continues the block. */
  lemma FirstCommandRow(bin: string, indent: nat)
    ensures CommandRows(bin, indent) != [] && Continues(CommandRows(bin, indent)[0], indent)
  {
    hide SplitInclusive, Continues, Spaces, EscapeScalar;
    var body := "command: " + EscapeScalar(bin) + "\n";
    assert Spaces(indent + 2) + "command: " + EscapeScalar(bin) + "\n" == Spaces(indent + 2) + body;
    FirstRowContinues(indent + 2, body, indent);
  }

  lemma FirstRowContinues(n: nat, body: string, indent: nat)
    requires n > indent && body != "" && body[0] == 'c'
    ensures var rows := SplitInclusive(Spaces(n) + body); rows != [] && Continues(rows[0], indent)
  {
    hide SplitInclusive, Continues, FirstLine;
    var text := Spaces(n) + body;
    FirstRowIs(text);
    LineReaches(text, n);
    DeeperPrefixContinues(n, body, FirstLine(text), indent);
  }

  lemma DeeperPrefixContinues(n: nat, body: string, k: nat, indent: nat)
    requires n > indent && body != "" && body[0] == 'c' && n < k <= n + |body|
    ensures Continues((Spaces(n) + body)[..k], indent)
  {
    hide Continues;
    var rest := body[..k - n];
    assert (Spaces(n) + body)[..k] == Spaces(n) + rest;
    DeeperRowContinues(n, rest, indent);
  }

  lemma FirstRowIs(s: string)
    requires s != ""
    ensures SplitInclusive(s) != [] && SplitInclusive(s)[0] == s[..FirstLine(s)]
  {
  }

  lemma {:induction false} LineReaches(text: string, n: nat)
    requires n < |text| && forall i :: 0 <= i < n ==> text[i] != '\n'
    ensures FirstLine(text) > n
  {
    if n > 0 {
      LineReaches(text[1..], n - 1);
    }
  }

  /** A command without a newline holds together. */
  lemma OneLineHolds(bin: string, indent: nat)
    requires '\n' !in bin
    ensures HoldsTogether(bin, indent) && |BlockRows(bin, indent)| == 4
  {
    hide BlockRows, SplitInclusive, Concat, Spaces, EscapeScalar, Continues, IsTerminatedLine;
    var text := Spaces(indent + 2) + "command: " + EscapeScalar(bin);
    EscapeKeepsOneLine(bin);
    assert '\n' !in Spaces(indent + 2) by { SpacesHoldNoNewline(indent + 2); }
    TerminatedRow(text);
    TerminatedIsSplit([text + "\n"]);
    OneLineConcat(text + "\n");
    SplitOfConcat([text + "\n"]);
    HoldsByCommand(bin, indent);
    RowsShape(bin, indent);
  }

  lemma SpacesHoldNoNewline(n: nat)
    ensures '\n' !in Spaces(n)
  {
  }

  lemma OneLineConcat(l: string)
    ensures Concat([l]) == l
  {
    ConcatCons(l, []);
    assert [l] + [] == [l] && l + "" == l;
  }

  // ---- A measure that only our rows raise ------------------------------------------------------------------

  /** The letters `d` and `g`: our key has the one, our arguments have the other, and a bare
      `mcpServers:` header has neither. */
  function Marks(s: string): nat {
    if s == "" then 0 else Marks(s[1..]) + if s[0] == 'd' || s[0] == 'g' then 1 else 0
  }

  lemma {:induction false} MarksAppend(a: string, b: string)
    ensures Marks(a + b) == Marks(a) + Marks(b)
  {
    if a == "" {
      assert a + b == b;
    } else {
      assert (a + b)[1..] == a[1..] + b;
      MarksAppend(a[1..], b);
    }
  }

  lemma MarksConcat(a: seq<string>, b: seq<string>)
    ensures Marks(Concat(a + b)) == Marks(Concat(a)) + Marks(Concat(b))
  {
    hide Concat, Marks;
    ConcatAppend(a, b);
    MarksAppend(Concat(a), Concat(b));
  }

  lemma {:induction false} NoMarks(s: string)
    requires forall i :: 0 <= i < |s| ==> s[i] != 'd' && s[i] != 'g'
    ensures Marks(s) == 0
  {
    if s != "" {
      NoMarks(s[1..]);
    }
  }

  lemma {:induction false} HasMark(s: string, i: nat)
    requires i < |s| && (s[i] == 'd' || s[i] == 'g')
    ensures Marks(s) >= 1
  {
    if i > 0 {
      HasMark(s[1..], i - 1);
    }
  }

  /** Rows that fall off the block always carry a mark. */
  lemma StraysAreMarked(bin: string, indent: nat)
    ensures !HoldsTogether(bin, indent) ==> Marks(Concat(BlockRows(bin, indent)[Held(bin, indent)..])) >= 1
    ensures Marks(HeadRow(indent)) >= 1
  {
    hide Concat, Marks, BlockRows, CommandRows;
    var head := HeadRow(indent);
    assert head[indent] == 'd';
    HasMark(head, indent);
    RowsShape(bin, indent);
    HeldIs(bin, indent);
    if !HoldsTogether(bin, indent) {
      var rows, n := BlockRows(bin, indent), Held(bin, indent);
      var tail := TailRows(indent);
      var strays := rows[n..];
      assert strays == rows[n..|rows| - 2] + tail;
      MarksConcat(rows[n..|rows| - 2], tail);
      var args := tail[0];
      assert args[indent + 4] == 'g';
      HasMark(args, indent + 4);
      assert tail == [args] + tail[1..];
      ConcatCons(args, tail[1..]);
      MarksAppend(args, Concat(tail[1..]));
    }
  }

  /** The marks of a block do not depend on its indent. */
  lemma MarksOfBlock(bin: string, indent: nat, other: nat)
    ensures Marks(RenderBlock(bin, indent)) == Marks(RenderBlock(bin, other))
  {
    hide Concat, Marks, EscapeScalar;
    BlockMarks(bin, indent);
    BlockMarks(bin, other);
  }

  lemma BlockMarks(bin: string, indent: nat)
    ensures Marks(RenderBlock(bin, indent))
      == Marks("difflore:\n") + Marks("command: " + EscapeScalar(bin) + "\n") + Marks("args:\n") + Marks("- mcp-server\n")
  {
    hide Concat, Marks, EscapeScalar, Spaces;
    var parts := BlockParts(bin, indent);
    var body := "command: " + EscapeScalar(bin) + "\n";
    assert parts[1] == Spaces(indent + 2) + body;
    PartMarks(indent, "difflore:\n");
    PartMarks(indent + 2, body);
    PartMarks(indent + 2, "args:\n");
    PartMarks(indent + 4, "- mcp-server\n");
    assert parts == [parts[0]] + ([parts[1]] + ([parts[2]] + ([parts[3]] + [])));
    ConcatCons(parts[0], [parts[1]] + ([parts[2]] + ([parts[3]] + [])));
    ConcatCons(parts[1], [parts[2]] + ([parts[3]] + []));
    ConcatCons(parts[2], [parts[3]] + []);
    ConcatCons(parts[3], []);
    EmptyConcat();
    MarksAppend(parts[0], Concat([parts[1]] + ([parts[2]] + ([parts[3]] + []))));
    MarksAppend(parts[1], Concat([parts[2]] + ([parts[3]] + [])));
    MarksAppend(parts[2], Concat([parts[3]] + []));
    assert parts[3] + "" == parts[3];
  }

  lemma PartMarks(n: nat, s: string)
    ensures Marks(Spaces(n) + s) == Marks(s)
  {
    hide Marks;
    MarksAppend(Spaces(n), s);
    NoMarks(Spaces(n));
  }
}
