/** What ends up in the settings file, letter by letter: the command, the groups, and a fresh install. */
module HookFiles {
  import opened Wrappers
  import opened JsonValue
  import opened Text
  import opened HookGroups
  import opened HookMerge

  // ---- The command --------------------------------------------------------------------------------------------

  predicate IsSlash(ch: char) { ch == '/' || ch == '\\' }

  /** A directory as a path spells it: nothing, or something that ends in a slash. */
  predicate IsDirectory(dir: string) { dir == "" || IsSlash(dir[|dir| - 1]) }

  predicate IsFileName(name: string) { forall i :: 0 <= i < |name| ==> !IsSlash(name[i]) }

  lemma {:induction false} DirectoryOf(dir: string, name: string)
    requires IsDirectory(dir) && IsFileName(name)
    ensures Directory(dir + name) == dir
    decreases |name|
  {
    if name == "" {
      assert dir + name == dir;
    } else {
      assert (dir + name)[..|dir + name| - 1] == dir + name[..|name| - 1];
      DirectoryOf(dir, name[..|name| - 1]);
    }
  }

  /** The hook binary beside an installed binary, with forward slashes. */
  function HookPath(dir: string, windows: bool): string {
    ForwardSlashes(dir) + "difflore-hook" + (if windows then ".exe" else "")
  }

  /** Codex on Windows takes a path without blanks as it is. */
  predicate Bare(path: string, windows: bool, c: Client) {
    windows && c == Codex && forall i :: 0 <= i < |path| ==> !IsWhitespace(path[i])
  }

  function Spelled(path: string, windows: bool, c: Client): string {
    if Bare(path, windows, c) then path else "\"" + path + "\""
  }

  function ClientFlag(c: Client): string { if c == ClaudeCode then " --client claude-code" else " --client codex" }

  /** MAIN: the command both merges write runs the hook binary in the directory of the installed one. */
  lemma CommandIs(dir: string, name: string, windows: bool, c: Client)
    requires IsDirectory(dir) && IsFileName(name)
    ensures HookCommand(Binary(dir + name, windows), c) == Spelled(HookPath(dir, windows), windows, c) + ClientFlag(c)
  {
    hide Directory, Token, Spelled, HookPath, ForwardSlashes, ClientFlag, ClientName;
    DirectoryOf(dir, name);
    SlashedPath(dir, windows);
    TokenIs(HookPath(dir, windows), Binary(dir + name, windows), c);
    FlagIs(c);
  }

  lemma SlashedPath(dir: string, windows: bool)
    ensures ForwardSlashes(dir + "difflore-hook" + ExeSuffix(Binary("", windows))) == HookPath(dir, windows)
  {
  }

  lemma TokenIs(path: string, bin: Binary, c: Client)
    ensures Token(path, bin, c) == Spelled(path, bin.windows, c)
  {
  }

  lemma FlagIs(c: Client)
    ensures " --client " + ClientName(c) == ClientFlag(c)
  {
  }

  /** Binaries side by side get one command, and binaries in directories that differ by more than the kind
      of slash get two. */
  lemma CommandTellsDirectories(a: string, x: string, b: string, y: string, windows: bool, c: Client)
    requires IsDirectory(a) && IsFileName(x) && IsDirectory(b) && IsFileName(y)
    ensures HookCommand(Binary(a + x, windows), c) == HookCommand(Binary(b + y, windows), c)
      <==> ForwardSlashes(a) == ForwardSlashes(b)
  {
    hide HookCommand, ForwardSlashes, Spelled, ClientFlag, IsDirectory, IsFileName;
    CommandIs(a, x, windows, c);
    CommandIs(b, y, windows, c);
    var p, q := HookPath(a, windows), HookPath(b, windows);
    if HookCommand(Binary(a + x, windows), c) == HookCommand(Binary(b + y, windows), c) {
      SameFront(Spelled(p, windows, c), Spelled(q, windows, c), ClientFlag(c));
      TokensTell(p, q, windows, c);
      PathsTell(ForwardSlashes(a), ForwardSlashes(b), windows);
    }
  }

  lemma SameFront(s: string, t: string, tail: string)
    requires s + tail == t + tail
    ensures s == t
  {
    assert s == (s + tail)[..|s + tail| - |tail|] && t == (t + tail)[..|t + tail| - |tail|];
  }

  lemma TokensTell(p: string, q: string, windows: bool, c: Client)
    requires Spelled(p, windows, c) == Spelled(q, windows, c)
    ensures p == q
  {
    QuotedInside(p);
    QuotedInside(q);
    if Bare(p, windows, c) && !Bare(q, windows, c) {
      NotBare(p, q);
    } else if Bare(q, windows, c) && !Bare(p, windows, c) {
      NotBare(q, p);
    }
  }

  lemma QuotedInside(p: string)
    ensures |"\"" + p + "\""| == |p| + 2 && ("\"" + p + "\"")[1..|p| + 1] == p
  {
  }

  /** A bare path is no quoted one: the quotes are there because of a blank. */
  lemma NotBare(p: string, q: string)
    requires forall i :: 0 <= i < |p| ==> !IsWhitespace(p[i])
    requires exists i :: 0 <= i < |q| && IsWhitespace(q[i])
    ensures p != "\"" + q + "\""
  {
    var i :| 0 <= i < |q| && IsWhitespace(q[i]);
    var t := "\"" + q + "\"";
    assert t[i + 1] == q[i];
  }

  lemma PathsTell(a: string, b: string, windows: bool)
    requires a + "difflore-hook" + (if windows then ".exe" else "") == b + "difflore-hook" + (if windows then ".exe" else "")
    ensures a == b
  {
    var suffix := if windows then ".exe" else "";
    var tail := "difflore-hook" + suffix;
    assert a + tail == a + "difflore-hook" + suffix && b + tail == b + "difflore-hook" + suffix;
    SameFront(a, b, tail);
  }

  // ---- Whose group it is ----------------------------------------------------------------------------------------

  ghost predicate HasPart(s: string, part: string) { exists a, b :: s == a + part + b }

  lemma ContainsIsPart(s: string, part: string)
    ensures Contains(s, part) <==> HasPart(s, part)
  {
    if Contains(s, part) {
      var i :| 0 <= i <= |s| && OccursAt(s, part, i);
      assert s == s[..i] + part + s[i + |part|..];
    }
    if HasPart(s, part) {
      var a, b :| s == a + part + b;
      ContainsMiddle(a, part, b);
    }
  }

  /** MAIN: a group is DiffLore's for a client exactly when one of its hook entries has a command text with
      the name of the hook binary and the client's name behind `--client` in it. */
  lemma OursIff(g: Json, c: Client)
    ensures Ours(g, c) <==>
      && g.Obj? && At(g.fields, "hooks").Some? && g.fields["hooks"].Arr?
      && exists i :: 0 <= i < |g.fields["hooks"].items| && NamesHook(g.fields["hooks"].items[i], if c == ClaudeCode then "claude-code" else "codex")
  {
    hide MatchesClient, NamesHook, IsOurCommand;
    if g.Obj? && "hooks" in g.fields && g.fields["hooks"].Arr? {
      forall i | 0 <= i < |g.fields["hooks"].items|
        ensures IsOurCommand(g.fields["hooks"].items[i], c)
          <==> NamesHook(g.fields["hooks"].items[i], if c == ClaudeCode then "claude-code" else "codex")
      {
        EntryIsOurs(g.fields["hooks"].items[i], c);
      }
    }
  }

  ghost predicate NamesHook(h: Json, client: string) {
    && h.Obj? && At(h.fields, "command").Some? && h.fields["command"].Str?
    && HasPart(h.fields["command"].s, "difflore-hook") && HasPart(h.fields["command"].s, "--client " + client)
  }

  lemma EntryIsOurs(h: Json, c: Client)
    ensures IsOurCommand(h, c) <==> NamesHook(h, if c == ClaudeCode then "claude-code" else "codex")
  {
    hide MatchesClient, HasPart, Contains;
    if h.Obj? && "command" in h.fields && h.fields["command"].Str? {
      var s := h.fields["command"].s;
      MatchIsTwoMarkers(s, c);
      ContainsIsPart(s, "difflore-hook");
      ContainsIsPart(s, "--client " + ClientName(c));
    }
  }

  // ---- A fresh install ----------------------------------------------------------------------------------------------

  /** One command hook with its time limit. */
  function Hook(command: string, secs: int): Json {
    Arr([Obj(map["type" := Str("command"), "command" := Str(command), "timeout" := Int(secs)])])
  }

  function Matched(matcher: string, command: string, secs: int): Json {
    Arr([Obj(map["matcher" := Str(matcher), "hooks" := Hook(command, secs)])])
  }

  function Unmatched(command: string, secs: int): Json { Arr([Obj(map["hooks" := Hook(command, secs)])]) }

  /** The hooks a fresh install writes for each client. */
  function FreshHooks(c: Client, command: string): Object {
    match c
    case ClaudeCode => map[
      "PostToolUse" := Matched("Edit|MultiEdit|Write|Bash", command, 5),
      "SessionStart" := Matched("startup|clear|compact", command, 10),
      "UserPromptSubmit" := Unmatched(command, 5),
      "Stop" := Unmatched(command, 10),
      "SessionEnd" := Unmatched(command, 10)]
    case Codex => map[
      "PostToolUse" := Matched("apply_patch|Bash|Write|Edit|MultiEdit", command, 5),
      "SessionStart" := Matched("startup|clear|compact", command, 10),
      "UserPromptSubmit" := Unmatched(command, 5),
      "Stop" := Unmatched(command, 10)]
  }

  lemma GroupIs(c: Client, event: string, bin: Binary)
    ensures event == "PostToolUse" ==>
      Arr([Group(c, event, bin)]) == Matched(if c == ClaudeCode then "Edit|MultiEdit|Write|Bash" else "apply_patch|Bash|Write|Edit|MultiEdit", HookCommand(bin, c), 5)
    ensures event == "SessionStart" ==> Arr([Group(c, event, bin)]) == Matched("startup|clear|compact", HookCommand(bin, c), 10)
    ensures event == "UserPromptSubmit" ==> Arr([Group(c, event, bin)]) == Unmatched(HookCommand(bin, c), 5)
    ensures event == "Stop" || event == "SessionEnd" ==> Arr([Group(c, event, bin)]) == Unmatched(HookCommand(bin, c), 10)
  {
    hide HookCommand;
    assert "PostToolUse"[0] == 'P' && "UserPromptSubmit"[0] == 'U' && "SessionStart"[0] == 'S' && "Stop"[1] == 't';
    assert "SessionStart"[1] == 'e' && "SessionEnd"[1] == 'e' && "SessionStart"[7] == 'S' && "SessionEnd"[7] == 'E';
  }

  lemma FreshEvent(c: Client, event: string, bin: Binary)
    ensures event in Events(c) ==> MergedEvent(c, event, None, bin) == Some(Arr([Group(c, event, bin)]))
    ensures event !in Events(c) ==> MergedEvent(c, event, None, bin) == None
  {
    hide Events, Group;
  }

  /** MAIN: installing into an empty file writes exactly these hooks. */
  lemma FreshInstall(c: Client, bin: Binary)
    ensures Mergeable(c, map[])
    ensures Installed(c, map[], bin) == map["hooks" := Obj(FreshHooks(c, HookCommand(bin, c)))]
  {
    hide HookCommand, Group, MergedEvent, Merged, Matched, Unmatched;
    var h: Object := map[];
    var expected := FreshHooks(c, HookCommand(bin, c));
    forall e
      ensures At(Merged(c, h, bin), e) == At(expected, e)
    {
      MergedAt(c, h, bin, e);
      FreshEvent(c, e, bin);
      GroupIs(c, e, bin);
      EventNames(c, e);
    }
    SameObject(Merged(c, h, bin), expected);
  }

  lemma EventNames(c: Client, e: string)
    ensures e in Events(c) <==>
      || e == "PostToolUse" || e == "SessionStart" || e == "UserPromptSubmit" || e == "Stop"
      || (c == ClaudeCode && e == "SessionEnd")
  {
    assert Events(c)[0] == "PostToolUse" && Events(c)[1] == "SessionStart" && Events(c)[2] == "UserPromptSubmit" && Events(c)[3] == "Stop";
    assert c == ClaudeCode ==> Events(c)[4] == "SessionEnd";
  }
}
