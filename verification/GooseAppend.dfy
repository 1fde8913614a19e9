/** Installing into a file that has no `mcpServers:` section, and out again. */
module GooseAppend {
  import opened Wrappers
  import opened Text
  import opened GooseYaml
  import opened GooseBlock
  import opened GooseReplace
  import opened GooseInstall
  import opened GooseRoundTrip

  /** No line of the text has the top-level key `mcpServers`. */
  predicate NoSection(ls: seq<string>) {
    forall k :: 0 <= k < |ls| ==> TopLevelKey(ls[k]) != Some(SECTION)
  }

  // ---- The section header we write ------------------------------------------------------------------

  lemma {:induction false} IndexOfAfter(p: string, c: char, w: string)
    requires c !in p
    ensures IndexOf(p + [c] + w, c) == |p|
  {
    var t := p + [c] + w;
    if p != "" {
      assert p[0] in p;
      assert t[0] == p[0] && t[1..] == p[1..] + [c] + w;
      IndexOfAfter(p[1..], c, w);
    }
  }

  /** The literal `mcpServers`, as far as the scan needs it. */
  lemma SectionLiteral()
    ensures SECTION != "" && !IsWhitespace(SECTION[0]) && SECTION[0] !in "#- "
    ensures ':' !in SECTION && TrimEnd(SECTION) == SECTION && "mcpServers:" == SECTION + ":"
  {
    assert SECTION[0] == 'm' && SECTION[|SECTION| - 1] == 's';
  }

  lemma SectionKeyOf(l: string, w: string)
    requires TrimEol(l) == "mcpServers:" + w && IndentOf(l) == 0
    ensures TopLevelEntry(l) == Some(Entry(SECTION, w))
  {
    SectionLiteral();
    EntryOf(l, SECTION, w);
  }

  lemma EntryOf(l: string, key: string, w: string)
    requires TrimEol(l) == key + ":" + w && IndentOf(l) == 0
    requires key != "" && !IsWhitespace(key[0]) && key[0] !in "#- " && ':' !in key && TrimEnd(key) == key
    ensures TopLevelEntry(l) == Some(Entry(key, w))
  {
    var content := key + ":" + w;
    assert content[0] == key[0];
    assert TrimStart(content) == content;
    IndexOfAfter(key, ':', w);
    assert content[..|key|] == key && content[|key| + 1..] == w;
  }

  lemma HeaderIsHeader()
    ensures IsSectionHeader(HEADER) && IsBareHeader(HEADER) && IsTerminatedLine(HEADER)
  {
    hide TopLevelEntry, TrimEol, IndentOf;
    HeaderTrims();
    SectionKeyOf(HEADER, "");
    assert IsBlank(""[..IndexOf("", '#')]);
  }

  lemma HeaderTrims()
    ensures TrimEol(HEADER) == "mcpServers:" + "" == "mcpServers:"
    ensures IndentOf(HEADER) == 0 && IndentOf("mcpServers:") == 0 && TrimEnd("mcpServers:") == "mcpServers:"
    ensures IsTerminatedLine(HEADER)
  {
    assert HEADER == "mcpServers:" + "\n";
    assert "mcpServers:"[10] == ':' && "mcpServers:"[0] == 'm' && HEADER[0] == 'm';
    TrimEolOfRow("mcpServers:");
    TerminatedRow("mcpServers:");
  }

  lemma {:induction false} TrimEndIsPrefix(s: string)
    ensures TrimEnd(s) <= s
  {
    if s != "" && IsWhitespace(s[|s| - 1]) {
      TrimEndIsPrefix(s[..|s| - 1]);
    }
  }

  lemma BareHeaderHasKey(l: string)
    requires IsBareHeader(l)
    ensures TopLevelKey(l) == Some(SECTION)
  {
    var trimmed := TrimEol(l);
    TrimEndIsPrefix(trimmed);
    TrimEolDropsEol(l);
    var w := trimmed[11..];
    assert trimmed == "mcpServers:" + w;
    IndentSame(l, trimmed);
    SectionKeyOf(l, w);
  }

  // ---- Trimming the end of a file without a section ----------------------------------------------------

  /** Adding one character to a text extends its last line or starts a new one. */
  lemma SplitSnoc(t: string, c: char)
    ensures var ls := SplitInclusive(t);
      if ls == [] || Terminated(ls[|ls| - 1])
      then SplitInclusive(t + [c]) == ls + [[c]]
      else SplitInclusive(t + [c]) == ls[..|ls| - 1] + [ls[|ls| - 1] + [c]]
  {
    hide Concat, SplitInclusive;
    var ls := SplitInclusive(t);
    SplitIsSplit(t);
    ConcatOfSplit(t);
    if ls == [] || Terminated(ls[|ls| - 1]) {
      ConcatPush(ls, [c]);
      SplitOfConcat(ls + [[c]]);
    } else {
      var front, last := ls[..|ls| - 1], ls[|ls| - 1];
      assert ls == front + [last];
      ConcatPush(front, last);
      ConcatPush(front, last + [c]);
      assert Concat(front) + (last + [c]) == t + [c];
      LongerLineIsLine(last, c);
      LastLineReplaced(ls, last + [c]);
      SplitOfConcat(front + [last + [c]]);
    }
  }

  lemma ConcatPush(ls: seq<string>, l: string)
    ensures Concat(ls + [l]) == Concat(ls) + l
  {
    ConcatAppend(ls, [l]);
    assert Concat([l]) == l + Concat([]);
  }

  lemma LastLineReplaced(ls: seq<string>, l: string)
    requires IsSplit(ls) && ls != [] && IsLine(l)
    ensures IsSplit(ls[..|ls| - 1] + [l])
  {
  }

  lemma LongerLineIsLine(l: string, c: char)
    requires IsLine(l) && !Terminated(l)
    ensures IsLine(l + [c])
  {
    assert (l + [c])[..|l|] == l;
    assert l == l[..|l| - 1] + [l[|l| - 1]];
  }

  /** Dropping the last character of a text creates no section. */
  lemma NoSectionShorter(t: string, c: char)
    requires NoSection(SplitInclusive(t + [c]))
    ensures NoSection(SplitInclusive(t))
  {
    hide TopLevelKey;
    var ls, all := SplitInclusive(t), SplitInclusive(t + [c]);
    SplitSnoc(t, c);
    forall k | 0 <= k < |ls|
      ensures TopLevelKey(ls[k]) != Some(SECTION)
    {
      if all[k] != ls[k] {
        assert all[k] == ls[k] + [c];
        if TopLevelKey(ls[k]).Some? {
          KeySurvivesSuffix(ls[k], [c]);
        }
      }
    }
  }

  /** Closing a text with `\n` creates no section, and terminates every line. */
  lemma NoSectionClosed(t: string)
    requires NoSection(SplitInclusive(t)) && (t == "" || t[|t| - 1] != '\n')
    ensures NoSection(SplitInclusive(t + "\n"))
    ensures forall k :: 0 <= k < |SplitInclusive(t + "\n")| ==> Terminated(SplitInclusive(t + "\n")[k])
  {
    hide TopLevelKey, SplitInclusive;
    var ls, all := SplitInclusive(t), SplitInclusive(t + "\n");
    SplitSnoc(t, '\n');
    SplitIsSplit(t + "\n");
    assert all[|all| - 1][|all[|all| - 1]| - 1] == '\n';
    forall k | 0 <= k < |all|
      ensures TopLevelKey(all[k]) != Some(SECTION)
    {
      if k < |ls| {
        KeyOfClosed(ls[k]);
      } else {
        BlankOrCommentIsNoKey("\n");
      }
    }
  }

  lemma KeyOfClosed(l: string)
    ensures TopLevelKey(l + "\n") == TopLevelKey(l)
  {
    assert DropsEol(l + "\n", l);
    LookSame(START, l + "\n", l);
  }

  lemma {:induction false} NoSectionTrimmed(t: string)
    requires NoSection(SplitInclusive(t))
    ensures NoSection(SplitInclusive(TrimEnd(t)))
    ensures TrimEnd(t) == "" || TrimEnd(t)[|TrimEnd(t)| - 1] != '\n'
  {
    hide NoSection;
    if t != "" && IsWhitespace(t[|t| - 1]) {
      var s := t[..|t| - 1];
      assert t == s + [t[|t| - 1]];
      NoSectionShorter(s, t[|t| - 1]);
      NoSectionTrimmed(s);
    }
  }

  // ---- The round trip ------------------------------------------------------------------------------------

  lemma AppendedIsLocated(us: seq<string>, bin: string)
    requires NoSection(us) && IsSectionHeader(HEADER)
    ensures var rows := BlockRows(bin, 2); var out, b := us + [HEADER] + rows, Block(|us| + 1, 2);
      && Located(out) == Some(b)
      && End(out, b) == b.at + Held(bin, 2)
      && out[..b.at] == us + [HEADER] && out[End(out, b)..] == Strays(bin, 2)
  {
    hide TopLevelKey, TopLevelBlockKey, BlockRows, FindBlock, HoldsTogether, Held, BlockEnd, IsSectionHeader;
    var rows, ls := BlockRows(bin, 2), us + [HEADER];
    assert WithRows(ls, |ls|, rows) == us + [HEADER] + rows;
    assert forall k :: 0 <= k < |us| ==> ls[k] == us[k];
    RowsAreLocated(ls, |us|, bin, 2);
    HeldIs(bin, 2);
    assert BlockEnd(ls, |ls|, 2) == |ls|;
  }

  lemma AppendedIsSplit(us: seq<string>, rows: seq<string>)
    requires AllTerminatedLines(us) && AllTerminatedLines(rows) && IsTerminatedLine(HEADER)
    ensures IsSplit(us + [HEADER]) && IsSplit(us + [HEADER] + rows)
  {
    hide IsTerminatedLine;
    TerminatedAppend(us, [HEADER]);
    TerminatedAppend(us + [HEADER], rows);
    TerminatedIsSplit(us + [HEADER]);
    TerminatedIsSplit(us + [HEADER] + rows);
  }

  /** A file made of section-free, terminated lines with our section behind them: uninstalling gives back
      just those lines if the command holds together, and otherwise leaves a mark of ours behind. */
  lemma UninstallAppended(us: seq<string>, bin: string)
    requires NoSection(us) && AllTerminatedLines(us)
    ensures var text := Concat(us + [HEADER] + BlockRows(bin, 2));
      && (HoldsTogether(bin, 2) ==> Uninstalled(text) == Concat(us))
      && (!HoldsTogether(bin, 2) ==> Marks(Uninstalled(text)) > Marks(Concat(us)))
      && Located(SplitInclusive(text)).Some?
      && (Replaced(text, bin) == Ok(text) <==> HoldsTogether(bin, 2))
  {
    hide TopLevelKey, TopLevelBlockKey, BlockRows, Concat, FindBlock, SplitInclusive, IsBareHeader, IsSectionHeader,
      IsTerminatedLine, KeptFrom, HoldsTogether, Held, Marks, BlockEnd;
    var rows, ls := BlockRows(bin, 2), us + [HEADER];
    var out := ls + rows;
    var text, strays := Concat(out), Strays(bin, 2);
    HeaderIsHeader();
    RowsShape(bin, 2);
    AppendedIsSplit(us, rows);
    SplitOfConcat(out);
    AppendedIsLocated(us, bin);
    StraysIffNotHeld(bin, 2);
    assert Removed(text) == Ok(Concat(ls + strays));
    if HoldsTogether(bin, 2) {
      assert ls + strays == ls;
      SplitOfConcat(ls);
      UninstalledIs(text, Concat(ls));
      KeepsAllButHeader(us, 0);
      assert us[0..] == us;
    } else {
      UninstalledMarks(text, Concat(ls + strays));
      MarksConcat(ls, strays);
      MarksConcat(us, [HEADER]);
      StraysAreMarked(bin, 2);
    }
    AppendedTwice(ls, rows, strays);
  }

  lemma AppendedTwice(ls: seq<string>, rows: seq<string>, strays: seq<string>)
    ensures Concat(ls + rows + strays) == Concat(ls + rows) <==> Concat(strays) == ""
  {
    hide Concat;
    ConcatAppend(ls + rows, strays);
    assert |Concat(ls + rows + strays)| == |Concat(ls + rows)| + |Concat(strays)|;
    assert Concat(strays) == "" ==> Concat(ls + rows) + Concat(strays) == Concat(ls + rows);
  }

  lemma {:induction false} KeepsAllButHeader(us: seq<string>, i: nat)
    requires i <= |us| && NoSection(us) && IsBareHeader(HEADER)
    ensures KeptFrom(us + [HEADER], i) == us[i..]
    decreases |us| - i
  {
    hide TopLevelKey, IsBareHeader;
    var ls := us + [HEADER];
    if i == |us| {
      assert ls[i] == HEADER && NextInked(ls, i + 1) == |ls|;
      assert KeptFrom(ls, i + 1) == [];
      assert us[i..] == [];
    } else {
      KeepsAllButHeader(us, i + 1);
      if IsBareHeader(us[i]) {
        BareHeaderHasKey(us[i]);
      }
      assert ls[i] == us[i];
      assert [us[i]] + us[i + 1..] == us[i..];
    }
  }

  /** A fresh install of an absent or empty file uninstalls to nothing, and is left alone by a second
      install, exactly when the command holds together. */
  lemma FreshRoundTrip(bin: string)
    ensures var text := Installed("", bin).value;
      && (Uninstalled(text) == "" <==> HoldsTogether(bin, 2))
      && (Installed(text, bin) == Ok(text) <==> HoldsTogether(bin, 2))
  {
    hide BlockRows, TopLevelKey, Concat, Uninstalled, HoldsTogether, Marks, SplitInclusive, FindBlock, IsTerminatedLine, Replaced;
    UninstallAppended([], bin);
    assert [] + [HEADER] == [HEADER];
    EmptyConcat();
    NoMarks("");
    EmptyHasNoLines();
    EmptyIsNotLocated();
  }

  /** MAIN: on a file without the section, uninstalling gives back the file with its trailing white
      space reduced to one `\n`, as long as the command holds together; that is the file itself exactly
      when it already ended that way. */
  lemma AppendRoundTrip(text: string, bin: string)
    requires text != ""
    requires var ls := SplitInclusive(text); Located(ls).None? && FindSection(ls, 0) == |ls|
    ensures Installed(text, bin).Ok?
    ensures var once := Installed(text, bin).value;
      && (HoldsTogether(bin, 2) ==> Uninstalled(once) == TrimEnd(text) + "\n")
      && (Uninstalled(once) == text <==> HoldsTogether(bin, 2) && text == TrimEnd(text) + "\n")
      && (Installed(once, bin) == Ok(once) <==> HoldsTogether(bin, 2))
  {
    hide TopLevelKey, BlockRows, RenderBlock, SplitInclusive, FindBlock, TrimEnd, Uninstalled, IsTerminatedLine, HoldsTogether,
      Marks, Concat, Replaced;
    var ls, u := SplitInclusive(text), TrimEnd(text) + "\n";
    var us := SplitInclusive(u);
    NoSectionTrimmed(text);
    NoSectionClosed(TrimEnd(text));
    SplitTerminates(u);
    ConcatOfSplit(u);
    UninstallAppended(us, bin);
    RowsRender(bin, 2);
    AppendedText(us, bin);
    MarksOfTrimEnd(text);
    MarksAppend(TrimEnd(text), "\n");
    NoMarks("\n");
    EmptyHasNoLines();
    EmptyIsNotLocated();
  }

  lemma AppendedText(us: seq<string>, bin: string)
    ensures Concat(us + [HEADER] + BlockRows(bin, 2)) == Concat(us) + HEADER + RenderBlock(bin, 2)
  {
    hide Concat, BlockRows, RenderBlock;
    RowsRender(bin, 2);
    ConcatThree(us, [HEADER], BlockRows(bin, 2));
    OneLineConcat(HEADER);
  }
}
