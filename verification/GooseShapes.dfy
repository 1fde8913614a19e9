/** What the lines look like that the scanners act on, letter by letter. */
module GooseShapes {
  import opened Wrappers
  import opened Text
  import opened GooseYaml
  import opened GooseScan
  import opened GooseBlock
  import opened GooseReplace
  import opened GooseInstall
  import opened GooseRoundTrip
  import opened GooseAppend
  import opened GooseWhole

  // ---- Indented keys --------------------------------------------------------------------------------------

  /** An indented key: so many spaces, the key, a colon. */
  predicate IsEntry(line: string, key: string, indent: nat) {
    var t := TrimEol(line);
    |t| > indent + |key| && t[..indent] == Spaces(indent) && t[indent..indent + |key|] == key && t[indent + |key|] == ':'
  }

  lemma KeyShape(line: string, key: string, indent: nat)
    requires key != "" && key[0] != ' '
    ensures IsIndentedKey(line, key, indent) <==> IsEntry(line, key, indent)
  {
    hide TrimEol;
    var t := TrimEol(line);
    if IsIndentedKey(line, key, indent) {
      assert t[..indent] == Spaces(indent);
      assert t[indent..][..|key|] == key && t[indent + |key|..][0] == ':';
    }
    if IsEntry(line, key, indent) {
      assert t[indent] == t[indent..indent + |key|][0] == key[0];
      assert forall i :: 0 <= i < indent ==> t[i] == Spaces(indent)[i];
      IndentOfUnique(t, indent);
      assert t[indent..][..|key|] == key;
    }
  }

  /** MAIN: the line every scanner picks is `difflore:` behind so many spaces. */
  lemma PickedShape(ls: seq<string>)
    ensures Located(ls).Some? ==>
      IsEntry(ls[Located(ls).value.at], "difflore", Located(ls).value.indent) && Located(ls).value.indent > 0
  {
    hide TrimEol, IsIndentedKey, FindBlock, SectionIndent, TopLevelKey, IsEntry;
    LocatedIsFirstKey(ls);
    LocatedIsIndented(ls, 0, START);
    if Located(ls).Some? {
      KeyShape(ls[Located(ls).value.at], "difflore", Located(ls).value.indent);
    }
  }

  lemma {:induction false} SameKey(a: string, x: string, b: string, y: string)
    requires ':' !in a && ':' !in b && a + ":" + x == b + ":" + y
    ensures a == b
  {
    IndexOfAfter(a, ':', x);
    IndexOfAfter(b, ':', y);
    assert a == (a + ":" + x)[..|a|] && b == (b + ":" + y)[..|b|];
  }

  /** Behind its line end a line keeps everything up to a colon. */
  lemma TrimKeepsKey(head: string, rest: string)
    ensures |TrimEol(head + ":" + rest)| > |head| && TrimEol(head + ":" + rest)[..|head| + 1] == head + ":"
  {
    var l := head + ":" + rest;
    TrimEolDropsEol(l);
    assert l[|head|] == ':';
    assert l[..|head| + 1] == head + ":";
  }

  /** A line with another key is never taken for ours, whatever the key starts with. */
  lemma OtherKeyIsNeverKey(n: nat, key: string, rest: string)
    requires key != "" && !IsWhitespace(key[0]) && ':' !in key && key != "difflore"
    ensures NeverKey(Spaces(n) + key + ":" + rest)
  {
    hide IsIndentedKey, TrimEol;
    var head := Spaces(n) + key;
    var l := head + ":" + rest;
    var t := TrimEol(l);
    TrimKeepsKey(head, rest);
    forall indent: nat
      ensures !IsIndentedKey(l, KEY, indent)
    {
      KeyShape(l, KEY, indent);
      if IsEntry(l, KEY, indent) {
        IndentsAgree(t, n, key, indent);
        assert t[n..] == key + ":" + t[|head| + 1..];
        assert t[n..] == KEY + ":" + t[n + 9..];
        SameKey(key, t[|head| + 1..], KEY, t[n + 9..]);
      }
    }
  }

  lemma IndentsAgree(t: string, n: nat, key: string, indent: nat)
    requires key != "" && !IsWhitespace(key[0]) && |t| > n + |key| && t[..n + |key| + 1] == Spaces(n) + key + ":"
    requires |t| > indent + 8 && t[..indent] == Spaces(indent) && t[indent..indent + 8] == KEY
    ensures indent == n
  {
    assert t[n] == (Spaces(n) + key + ":")[n] == key[0];
    assert forall i :: 0 <= i < n ==> t[i] == (Spaces(n) + key + ":")[i];
    assert t[indent] == t[indent..indent + 8][0] == 'd';
    assert forall i :: 0 <= i < indent ==> t[i] == Spaces(indent)[i];
    IndentOfUnique(t, n);
    IndentOfUnique(t, indent);
  }

  // ---- Children and runs -----------------------------------------------------------------------------------

  /** A first child: some spaces, then something that is no comment. */
  lemma ChildShape(l: string, n: nat)
    ensures ChildIndentOf(l) == Some(n) <==>
      && 0 < n < |l| && l[..n] == Spaces(n) && l[n] != ' '
      && FirstInk(l).Some? && FirstInk(l) != Some('#')
  {
    hide FirstInk;
    BlankIffNoInk(l);
    if ChildIndentOf(l) == Some(n) {
      assert n < |l| by { InkBehindIndent(l); }
      assert l[..n] == Spaces(n);
    }
    if 0 < n < |l| && l[..n] == Spaces(n) && l[n] != ' ' {
      assert forall i :: 0 <= i < n ==> l[i] == Spaces(n)[i];
      IndentOfUnique(l, n);
    }
  }

  lemma InkBehindIndent(l: string)
    requires !IsBlank(l)
    ensures IndentOf(l) < |l|
  {
    var i :| 0 <= i < |l| && !IsWhitespace(l[i]);
    assert i >= IndentOf(l);
  }

  /** A line that continues a block: white space only, or one space more than the block's indent. */
  lemma RunShape(l: string, indent: nat)
    ensures Continues(l, indent) <==> (forall i :: 0 <= i < |l| ==> IsWhitespace(l[i])) || (|l| > indent && l[..indent + 1] == Spaces(indent + 1))
  {
    var n := IndentOf(l);
    if n > indent {
      assert l[..indent + 1] == Spaces(indent + 1);
    }
    if |l| > indent && l[..indent + 1] == Spaces(indent + 1) {
      assert forall i :: 0 <= i <= indent ==> l[i] == Spaces(indent + 1)[i];
    }
  }

  // ---- Top-level keys ------------------------------------------------------------------------------------------

  /** A top-level entry: not indented by spaces, no comment, no list item; a key and a colon. */
  ghost predicate IsTopLevel(l: string, key: string, rest: string) {
    exists raw :: IsTopLevelWith(l, key, rest, raw)
  }

  predicate IsTopLevelWith(l: string, key: string, rest: string, raw: string) {
    && (l == "" || l[0] != ' ')
    && TrimStart(TrimEol(l)) == raw + ":" + rest
    && ':' !in raw && TrimEnd(raw) == key && key != ""
    && raw != "" && raw[0] != '#' && raw[0] != '-'
  }

  lemma TopLevelShape(l: string, key: string, rest: string)
    ensures TopLevelEntry(l) == Some(Entry(key, rest)) <==> IsTopLevel(l, key, rest)
  {
    hide TrimStart, TrimEol, TrimEnd;
    var content := TrimStart(TrimEol(l));
    assert IndentOf(l) == 0 <==> l == "" || l[0] != ' ' by { NoIndent(l); }
    if TopLevelEntry(l) == Some(Entry(key, rest)) {
      var k := IndexOf(content, ':');
      var raw := content[..k];
      assert content == raw + ":" + rest;
      TrimEndOfNothing();
      assert raw != "" && raw[0] == content[0];
      assert IsTopLevelWith(l, key, rest, raw);
    }
    if IsTopLevel(l, key, rest) {
      var raw :| IsTopLevelWith(l, key, rest, raw);
      IndexOfAfter(raw, ':', rest);
      assert content[..|raw|] == raw && content[|raw| + 1..] == rest && content[0] == raw[0];
    }
  }

  lemma NoIndent(l: string)
    ensures IndentOf(l) == 0 <==> l == "" || l[0] != ' '
  {
  }

  lemma TrimEndOfNothing()
    ensures TrimEnd("") == ""
  {
  }

  /** A section header may only have a comment behind its colon. */
  lemma HeaderShape(l: string, tail: string)
    requires IndentOf(l) == 0 && TrimEol(l) == "mcpServers:" + tail
    ensures TopLevelKey(l) == Some("mcpServers")
    ensures IsSectionHeader(l) <==> FirstInk(tail) == None || FirstInk(tail) == Some('#')
  {
    hide TrimEol, IndentOf, TopLevelEntry;
    SectionKeyOf(l, tail);
    BlankUpToHash(tail);
  }

  lemma {:induction false} BlankUpToHash(s: string)
    ensures IsBlank(s[..IndexOf(s, '#')]) <==> FirstInk(s) == None || FirstInk(s) == Some('#')
  {
    if s == "" || s[0] == '#' {
      assert s[..IndexOf(s, '#')] == "";
    } else {
      BlankUpToHash(s[1..]);
      var k := IndexOf(s[1..], '#');
      assert s[..k + 1] == [s[0]] + s[1..][..k];
      if IsWhitespace(s[0]) {
        assert FirstInk(s) == FirstInk(s[1..]);
      } else {
        assert s[..k + 1][0] == s[0];
      }
    }
  }

  /** MAIN: an install is refused exactly when there is no block of ours and the first `mcpServers:` line
      has a value of its own behind the colon. */
  lemma RefusedIffInline(text: string, bin: string, tail: string)
    requires text != "" && Located(SplitInclusive(text)).None?
    requires var ls := SplitInclusive(text); var h := FindSection(ls, 0);
      h < |ls| && IndentOf(ls[h]) == 0 && TrimEol(ls[h]) == "mcpServers:" + tail
    ensures Installed(text, bin).Err? <==> FirstInk(tail).Some? && FirstInk(tail) != Some('#')
    ensures Installed(text, bin).Err? ==>
      Installed(text, bin).error == "mcpServers must be a block mapping, not an inline value"
  {
    hide TrimEol, IndentOf, TopLevelKey, BlockRows, Concat, SplitInclusive, FindBlock, FirstInk, FindSection;
    var ls := SplitInclusive(text);
    HeaderShape(ls[FindSection(ls, 0)], tail);
  }

  /** A header the cleanup may drop: the bare word and its colon, and white space to the end. */
  lemma BareHeaderShape(l: string)
    ensures IsBareHeader(l) <==> "mcpServers:" <= l && IsBlank(l[11..])
  {
    hide TrimEnd, TrimEol, IndentOf;
    var t := TrimEol(l);
    TrimEolDropsEol(l);
    BareWord();
    if IsBareHeader(l) {
      TrimEndBlank(t);
      assert t[..11] == "mcpServers:";
      assert l[..11] == t[..11];
      forall i | 0 <= i < |l[11..]|
        ensures IsWhitespace(l[11..][i])
      {
        if 11 + i < |t| {
          assert l[11 + i] == t[11..][i];
        }
      }
    }
    if "mcpServers:" <= l && IsBlank(l[11..]) {
      TrimReaches(l);
      assert t == "mcpServers:" + t[11..];
      assert IsBlank(t[11..]) by { assert forall i :: 11 <= i < |t| ==> t[i] == l[11..][i - 11]; }
      TrimEndStops("mcpServers:", t[11..]);
      NoIndent(t);
    }
  }

  lemma BareWord()
    ensures |"mcpServers:"| == 11 && "mcpServers:"[10] == ':' && "mcpServers:"[0] == 'm'
  {
  }

  lemma TrimReaches(l: string)
    requires "mcpServers:" <= l
    ensures "mcpServers:" <= TrimEol(l)
  {
    BareWord();
    assert l == "mcpServers" + ":" + l[11..];
    TrimKeepsKey("mcpServers", l[11..]);
    assert "mcpServers" + ":" == "mcpServers:";
  }

  lemma {:induction false} TrimEndBlank(s: string)
    ensures TrimEnd(s) <= s && IsBlank(s[|TrimEnd(s)|..])
  {
    if s != "" && IsWhitespace(s[|s| - 1]) {
      var f := s[..|s| - 1];
      TrimEndBlank(f);
      var n := |TrimEnd(s)|;
      assert s[n..] == f[n..] + [s[|s| - 1]];
    }
  }

  // ---- A neighbour with a longer name -------------------------------------------------------------------------------

  const DEV := "  difflore-dev:\n"

  lemma DevLines()
    ensures NeverKey(DEV) && NeverKey(COMMAND)
  {
    hide NeverKey;
    assert Spaces(2) + "difflore-dev" + ":" + "\n" == DEV;
    assert "difflore-dev"[0] == 'd' && "difflore-dev"[8] == '-' && |"difflore"| == 8;
    OtherKeyIsNeverKey(2, "difflore-dev", "\n");
    assert Spaces(4) + "command" + ":" + " x\n" == COMMAND;
    assert "command"[0] == 'c';
    OtherKeyIsNeverKey(4, "command", " x\n");
  }

  const COMMAND := "    command: x\n"

  lemma DevRows()
    ensures IsTerminatedLine(HEADER) && IsTerminatedLine(DEV) && IsTerminatedLine(COMMAND)
  {
    hide IsTerminatedLine;
    assert HEADER == "mcpServers:" + "\n" && DEV == "  difflore-dev:" + "\n" && COMMAND == "    command: x" + "\n";
    TerminatedRow("mcpServers:");
    TerminatedRow("  difflore-dev:");
    TerminatedRow("    command: x");
  }

  lemma DevText()
    ensures Concat([HEADER, DEV, COMMAND]) == "mcpServers:\n  difflore-dev:\n    command: x\n"
  {
    hide Concat;
    assert [HEADER, DEV, COMMAND] == [HEADER] + [DEV] + [COMMAND];
    ConcatThree([HEADER], [DEV], [COMMAND]);
    OneLineConcat(HEADER);
    OneLineConcat(DEV);
    OneLineConcat(COMMAND);
  }

  lemma DevSplits()
    ensures SplitInclusive("mcpServers:\n  difflore-dev:\n    command: x\n") == [HEADER, DEV, COMMAND]
  {
    hide SplitInclusive, Concat, IsTerminatedLine;
    DevRows();
    DevText();
    TerminatedIsSplit([HEADER, DEV, COMMAND]);
    SplitOfConcat([HEADER, DEV, COMMAND]);
  }

  /** A server whose name only starts with ours is not detected, an uninstall leaves it alone, and an install
      puts ours beside it. */
  lemma NeighbourIsLeftAlone(bin: string)
    ensures var text := "mcpServers:\n  difflore-dev:\n    command: x\n";
      && Located(SplitInclusive(text)).None? && Uninstalled(text) == text && Extracted(text) == None
      && Installed(text, bin) == Inserted(text, bin)
  {
    hide SplitInclusive, Concat, FindBlock, NeverKey, TopLevelKey, TopLevelBlockKey, BlockRows, IsBareHeader, IsTerminatedLine;
    var text := "mcpServers:\n  difflore-dev:\n    command: x\n";
    DevLines();
    DevSplits();
    HeaderIsNeverKey();
    HeaderIsHeader();
    NoKeyNoBlock(SplitInclusive(text), 0, START);
    assert text != "";
  }
}
