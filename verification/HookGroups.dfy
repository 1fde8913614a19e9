/** DiffLore's hook groups in a client's JSON settings: how they are rendered, how they are
    recognised again, and the passes that keep or drop them in one event's list of groups. */
module HookGroups {
  import opened Wrappers
  import opened JsonValue
  import opened Text

  datatype Client = ClaudeCode | Codex

  // ---- Commands -----------------------------------------------------------------------------------

  predicate OccursAt(s: string, part: string, i: int) { 0 <= i <= |s| - |part| && s[i..i + |part|] == part }

  predicate Contains(s: string, part: string) { exists i :: 0 <= i <= |s| && OccursAt(s, part, i) }

  function ClientName(c: Client): string {
    match c
    case ClaudeCode => "claude-code"
    case Codex => "codex"
  }

  /** The path of the installed binary, and whether the program was built for Windows. */
  datatype Binary = Binary(path: string, windows: bool)

  /** Everything up to the last slash or backslash. */
  function Directory(path: string): string {
    if path == "" || path[|path| - 1] == '/' || path[|path| - 1] == '\\' then path else Directory(path[..|path| - 1])
  }

  function ForwardSlashes(path: string): (r: string)
    ensures |r| == |path|
    ensures forall i :: 0 <= i < |r| ==> r[i] == if path[i] == '\\' then '/' else path[i]
  {
    seq(|path|, i requires 0 <= i < |path| => if path[i] == '\\' then '/' else path[i])
  }

  function ExeSuffix(bin: Binary): string { if bin.windows then ".exe" else "" }

  predicate HasWhitespace(s: string) { exists i :: 0 <= i < |s| && IsWhitespace(s[i]) }

  /** `hook_entrypoint_token`: quoted, but for Codex on Windows when the path needs no quotes. */
  function Token(path: string, bin: Binary, c: Client): string {
    if bin.windows && c.Codex? && !HasWhitespace(path) then path else "\"" + path + "\""
  }

  /** `hook_command_string`. */
  function HookCommand(bin: Binary, c: Client): string {
    Token(ForwardSlashes(Directory(bin.path) + "difflore-hook" + ExeSuffix(bin)), bin, c) + (" --client " + ClientName(c))
  }

  /** `hook_command_matches_client`. */
  predicate MatchesClient(command: string, c: Client) {
    var launcher := Contains(command, "difflore-launcher") && Contains(command, "--difflore-hook");
    var direct := !launcher && Contains(command, "difflore-hook");
    (direct || launcher) && Contains(command, "--client " + ClientName(c))
  }

  lemma ContainsMiddle(a: string, part: string, b: string)
    ensures Contains(a + part + b, part)
  {
    assert OccursAt(a + part + b, part, |a|);
  }

  lemma ContainsPart(s: string, outer: string, a: string, part: string)
    requires outer == a + part && Contains(s, outer)
    ensures Contains(s, part)
  {
    var i :| 0 <= i <= |s| && OccursAt(s, outer, i);
    assert s[i + |a|..i + |a| + |part|] == s[i..i + |outer|][|a|..];
    assert OccursAt(s, part, i + |a|);
  }

  /** The launcher spelling is not a second way in: a command is DiffLore's exactly when it names the
      hook binary and the client. */
  lemma MatchIsTwoMarkers(command: string, c: Client)
    ensures MatchesClient(command, c)
      <==> Contains(command, "difflore-hook") && Contains(command, "--client " + ClientName(c))
  {
    hide Contains;
    if Contains(command, "--difflore-hook") {
      assert "--difflore-hook" == "--" + "difflore-hook";
      ContainsPart(command, "--difflore-hook", "--", "difflore-hook");
    }
  }

  /** The token names the hook binary, quoted or not. */
  lemma TokenNamesHook(bin: Binary, c: Client) returns (a: string, b: string)
    ensures Token(ForwardSlashes(Directory(bin.path) + "difflore-hook" + ExeSuffix(bin)), bin, c) == a + "difflore-hook" + b
  {
    hide Directory, HasWhitespace;
    var dir, suffix := ForwardSlashes(Directory(bin.path)), ForwardSlashes(ExeSuffix(bin));
    var path := ForwardSlashes(Directory(bin.path) + "difflore-hook" + ExeSuffix(bin));
    assert path == dir + "difflore-hook" + suffix;
    a, b := dir, suffix;
    if !(bin.windows && c.Codex? && !HasWhitespace(path)) {
      a, b := "\"" + dir, suffix + "\"";
      assert "\"" + path + "\"" == a + "difflore-hook" + b;
    }
  }

  /** Wherever the binary lives and on every platform, the command written for a client is recognised as
      that client's. */
  lemma CommandIsRecognised(bin: Binary, c: Client)
    ensures MatchesClient(HookCommand(bin, c), c)
  {
    hide Contains, Token, ForwardSlashes, Directory, ExeSuffix, MatchesClient;
    var token := Token(ForwardSlashes(Directory(bin.path) + "difflore-hook" + ExeSuffix(bin)), bin, c);
    var command, mark := HookCommand(bin, c), "--client " + ClientName(c);
    var rest := " --client " + ClientName(c);
    var a, b := TokenNamesHook(bin, c);
    assert command == a + "difflore-hook" + (b + rest);
    ContainsMiddle(a, "difflore-hook", b + rest);
    assert rest == " " + mark;
    assert command == (token + " ") + mark + "";
    ContainsMiddle(token + " ", mark, "");
    MatchIsTwoMarkers(command, c);
  }

  // ---- Groups -------------------------------------------------------------------------------------

  /** `hook_value_is_difflore` for these two clients. */
  predicate Ours(v: Json, c: Client) {
    && v.Obj? && "hooks" in v.fields && v.fields["hooks"].Arr?
    && exists i :: 0 <= i < |v.fields["hooks"].items| && IsOurCommand(v.fields["hooks"].items[i], c)
  }

  predicate IsOurCommand(h: Json, c: Client) {
    && h.Obj? && "command" in h.fields && h.fields["command"].Str?
    && MatchesClient(h.fields["command"].s, c)
  }

  /** The registered lifecycle events, in table order. */
  function Events(c: Client): seq<string> {
    match c
    case ClaudeCode => ["PostToolUse", "SessionStart", "UserPromptSubmit", "Stop", "SessionEnd"]
    case Codex => ["PostToolUse", "SessionStart", "UserPromptSubmit", "Stop"]
  }

  function Matcher(c: Client, event: string): Option<string> {
    if event == "PostToolUse" then
      Some(if c == ClaudeCode then "Edit|MultiEdit|Write|Bash" else "apply_patch|Bash|Write|Edit|MultiEdit")
    else if event == "SessionStart" then Some("startup|clear|compact")
    else None
  }

  function TimeoutSecs(event: string): int {
    if event == "PostToolUse" || event == "UserPromptSubmit" then 5 else 10
  }

  /** The group DiffLore writes for an event. */
  function Group(c: Client, event: string, bin: Binary): Json {
    var entry := Obj(map[
      "type" := Str("command"), "command" := Str(HookCommand(bin, c)), "timeout" := Int(TimeoutSecs(event))]);
    Obj(match Matcher(c, event)
        case Some(m) => map["matcher" := Str(m), "hooks" := Arr([entry])]
        case None => map["hooks" := Arr([entry])])
  }

  /** `render_claude_code_hook_block` and `render_codex_hook_block`. */
  function Rendered(c: Client, bin: Binary): seq<Json> {
    Groups(Events(c), c, bin)
  }

  function Groups(events: seq<string>, c: Client, bin: Binary): (r: seq<Json>)
    ensures |r| == |events|
    ensures forall i :: 0 <= i < |r| ==> r[i] == Group(c, events[i], bin)
  {
    seq(|events|, i requires 0 <= i < |events| => Group(c, events[i], bin))
  }

  /** Every group DiffLore renders is recognised as its own. */
  lemma GroupIsOurs(c: Client, event: string, bin: Binary)
    ensures Ours(Group(c, event, bin), c)
  {
    hide MatchesClient, HookCommand;
    CommandIsRecognised(bin, c);
    var g := Group(c, event, bin);
    assert g.fields["hooks"].items[0].fields["command"] == Str(HookCommand(bin, c));
    assert IsOurCommand(g.fields["hooks"].items[0], c);
  }

  predicate Distinct(ss: seq<string>) { forall i, j :: 0 <= i < j < |ss| ==> ss[i] != ss[j] }

  lemma EventsAreDistinct(c: Client)
    ensures Distinct(Events(c))
  {
    assert "PostToolUse"[0] == 'P' && "UserPromptSubmit"[0] == 'U' && "SessionStart"[7] == 'S' && "SessionEnd"[7] == 'E';
    assert "SessionStart"[1] == 'e' && "Stop"[1] == 't' && "SessionEnd"[1] == 'e' && "Stop"[0] == 'S';
  }

  // ---- One event's list of groups -------------------------------------------------------------------

  /** The groups that are not DiffLore's, in order. */
  function Theirs(gs: seq<Json>, c: Client): (r: seq<Json>)
    ensures |r| <= |gs|
  {
    if gs == [] then []
    else
      var front, last := gs[..|gs| - 1], gs[|gs| - 1];
      if Ours(last, c) then Theirs(front, c) else Theirs(front, c) + [last]
  }

  /** DiffLore's own groups, in order. */
  function OursOf(gs: seq<Json>, c: Client): seq<Json> {
    if gs == [] then []
    else
      var front, last := gs[..|gs| - 1], gs[|gs| - 1];
      if Ours(last, c) then OursOf(front, c) + [last] else OursOf(front, c)
  }

  /** Their groups, and the first occurrence of the wanted one. */
  function KeepOne(gs: seq<Json>, c: Client, want: Json): (r: seq<Json>)
    ensures |r| <= |gs|
  {
    if gs == [] then []
    else
      var front, last := gs[..|gs| - 1], gs[|gs| - 1];
      if !Ours(last, c) || (last == want && want !in front)
      then KeepOne(front, c, want) + [last] else KeepOne(front, c, want)
  }

  function Settled(gs: seq<Json>, c: Client, want: Json): seq<Json> {
    if want in gs then KeepOne(gs, c, want) else KeepOne(gs, c, want) + [want]
  }

  lemma Snoc(gs: seq<Json>, g: Json, c: Client, want: Json)
    ensures Theirs(gs + [g], c) == if Ours(g, c) then Theirs(gs, c) else Theirs(gs, c) + [g]
    ensures OursOf(gs + [g], c) == if Ours(g, c) then OursOf(gs, c) + [g] else OursOf(gs, c)
    ensures KeepOne(gs + [g], c, want)
      == if !Ours(g, c) || (g == want && want !in gs) then KeepOne(gs, c, want) + [g] else KeepOne(gs, c, want)
  {
    hide Ours;
    assert (gs + [g])[..|gs|] == gs;
  }

  /** Dropping our groups changes a list exactly when it has one. */
  lemma {:induction false} TheirsKeepsAll(gs: seq<Json>, c: Client)
    ensures Theirs(gs, c) == gs <==> OursOf(gs, c) == []
    ensures |Theirs(gs, c)| == |gs| <==> OursOf(gs, c) == []
    ensures Theirs(Theirs(gs, c), c) == Theirs(gs, c) && OursOf(Theirs(gs, c), c) == []
  {
    hide Ours;
    if gs != [] {
      var front, last := gs[..|gs| - 1], gs[|gs| - 1];
      TheirsKeepsAll(front, c);
      assert gs == front + [last];
      Snoc(Theirs(front, c), last, c, last);
    }
  }

  lemma {:induction false} KeepOneSplits(gs: seq<Json>, c: Client, want: Json)
    requires Ours(want, c)
    ensures Theirs(KeepOne(gs, c, want), c) == Theirs(gs, c)
    ensures OursOf(KeepOne(gs, c, want), c) == if want in gs then [want] else []
  {
    hide Ours;
    if gs != [] {
      var front, last := gs[..|gs| - 1], gs[|gs| - 1];
      KeepOneSplits(front, c, want);
      assert gs == front + [last];
      Snoc(KeepOne(front, c, want), last, c, want);
    }
  }

  /** One merged event: our groups are the wanted one alone, theirs are as they were. */
  lemma SettledSplits(gs: seq<Json>, c: Client, want: Json)
    requires Ours(want, c)
    ensures Theirs(Settled(gs, c, want), c) == Theirs(gs, c)
    ensures OursOf(Settled(gs, c, want), c) == [want]
    ensures want in Settled(gs, c, want)
  {
    hide Ours, KeepOne, OursOf, Theirs;
    KeepOneSplits(gs, c, want);
    Snoc(KeepOne(gs, c, want), want, c, want);
    OursOfIsPart(Settled(gs, c, want), c, want);
  }

  lemma {:induction false} OursOfIsPart(gs: seq<Json>, c: Client, g: Json)
    ensures g in OursOf(gs, c) <==> g in gs && Ours(g, c)
  {
    hide Ours;
    if gs != [] {
      OursOfIsPart(gs[..|gs| - 1], c, g);
      assert gs == gs[..|gs| - 1] + [gs[|gs| - 1]];
    }
  }

  /** A list whose only group of ours is the wanted one is left as it is. */
  lemma {:induction false} KeepOneKeepsAll(gs: seq<Json>, c: Client, want: Json)
    requires OursOf(gs, c) == [want] || OursOf(gs, c) == []
    ensures KeepOne(gs, c, want) == gs
  {
    hide Ours;
    if gs != [] {
      var front, last := gs[..|gs| - 1], gs[|gs| - 1];
      assert gs == front + [last];
      OursOfIsPart(front, c, want);
      if Ours(last, c) {
        assert |OursOf(front, c)| == 0 && (OursOf(front, c) + [last])[0] == last;
      }
      KeepOneKeepsAll(front, c, want);
    }
  }

  /** The pass reports a change exactly when the list changes. */
  lemma SettledChanges(gs: seq<Json>, c: Client, want: Json)
    requires Ours(want, c)
    ensures Settled(gs, c, want) == gs <==> want in gs && |KeepOne(gs, c, want)| == |gs|
    ensures Settled(gs, c, want) == gs <==> OursOf(gs, c) == [want]
  {
    hide Ours, KeepOne, OursOf, Theirs;
    SettledSplits(gs, c, want);
    OursOfIsPart(gs, c, want);
    if OursOf(gs, c) == [want] {
      assert want in [want];
      KeepOneKeepsAll(gs, c, want);
    }
    if |KeepOne(gs, c, want)| == |gs| {
      KeepOneWhole(gs, c, want);
    }
  }

  lemma {:induction false} KeepOneWhole(gs: seq<Json>, c: Client, want: Json)
    requires |KeepOne(gs, c, want)| == |gs|
    ensures KeepOne(gs, c, want) == gs
  {
    hide Ours;
    if gs != [] {
      KeepOneWhole(gs[..|gs| - 1], c, want);
      assert gs == gs[..|gs| - 1] + [gs[|gs| - 1]];
    }
  }

  /** The stateful `retain` of the Claude merge, and the push that may follow it. */
  method Settle(gs: seq<Json>, c: Client, want: Json) returns (kept: seq<Json>, changed: bool)
    requires Ours(want, c)
    ensures kept == Settled(gs, c, want) && (changed <==> kept != gs)
  {
    hide Ours, KeepOne;
    kept := [];
    var foundDesired, removedDifflore := false, false;
    KeepOneNone(c, want);
    assert gs[..0] == [];
    for i := 0 to |gs|
      invariant kept == KeepOne(gs[..i], c, want)
      invariant foundDesired <==> want in gs[..i]
      invariant |kept| <= i && (removedDifflore <==> |kept| < i)
    {
      Snoc(gs[..i], gs[i], c, want);
      assert gs[..i + 1] == gs[..i] + [gs[i]];
      if !Ours(gs[i], c) {
        kept := kept + [gs[i]];
        OursIsNotTheirs(want, gs[i], c);
      } else if !foundDesired && gs[i] == want {
        foundDesired := true;
        kept := kept + [gs[i]];
      } else {
        removedDifflore := true;
      }
    }
    assert gs[..|gs|] == gs;
    SettledChanges(gs, c, want);
    if foundDesired {
      changed := removedDifflore;
    } else {
      kept := kept + [want];
      changed := true;
    }
  }

  lemma OursIsNotTheirs(want: Json, g: Json, c: Client)
    requires Ours(want, c) && !Ours(g, c)
    ensures want != g
  {
  }

  lemma KeepOneNone(c: Client, want: Json)
    ensures KeepOne([], c, want) == []
  {
  }

  /** `retain` of everything that is not DiffLore's. */
  method Retain(gs: seq<Json>, c: Client) returns (kept: seq<Json>)
    ensures kept == Theirs(gs, c)
  {
    hide Ours;
    kept := [];
    for i := 0 to |gs|
      invariant kept == Theirs(gs[..i], c)
    {
      Snoc(gs[..i], gs[i], c, gs[i]);
      assert gs[..i + 1] == gs[..i] + [gs[i]];
      if !Ours(gs[i], c) {
        kept := kept + [gs[i]];
      }
    }
    assert gs[..|gs|] == gs;
  }
}
