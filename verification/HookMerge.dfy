/** Installing and removing DiffLore's hook groups in a client's settings object. */
module HookMerge {
  import opened Wrappers
  import opened JsonValue
  import opened HookGroups

  // ---- What the passes do to one event -----------------------------------------------------------------

  /** What a merge makes of the value stored under one event. */
  function MergedEvent(c: Client, event: string, v: Option<Json>, bin: Binary): Option<Json> {
    if event in Events(c) then
      var want := Group(c, event, bin);
      match v
      case None => Some(Arr([want]))
      case Some(Arr(gs)) => Some(Arr(if c.ClaudeCode? then Settled(gs, c, want) else Theirs(gs, c) + [want]))
      case Some(other) => Some(other)
    else if c.ClaudeCode? then RetiredEvent(v)
    else CleanEvent(c, v)
  }

  /** The Claude merge drops an event it does not register only when stripping it emptied it. */
  function RetiredEvent(v: Option<Json>): Option<Json> {
    match v
    case Some(Arr(gs)) =>
      var kept := Theirs(gs, ClaudeCode);
      if |kept| == |gs| then v else if kept == [] then None else Some(Arr(kept))
    case _ => v
  }

  /** Every other pass drops whatever list ends up empty. */
  function CleanEvent(c: Client, v: Option<Json>): Option<Json> {
    match v
    case Some(Arr(gs)) => if Theirs(gs, c) == [] then None else Some(Arr(Theirs(gs, c)))
    case _ => v
  }

  function OursAt(v: Option<Json>, c: Client): seq<Json> {
    match v case Some(Arr(gs)) => OursOf(gs, c) case _ => []
  }

  function TheirsAt(v: Option<Json>, c: Client): seq<Json> {
    match v case Some(Arr(gs)) => Theirs(gs, c) case _ => []
  }

  // ---- Whole settings objects ------------------------------------------------------------------------------

  /** The `hooks` object; a missing one is empty, and there is none when the value is something else. */
  function HooksOf(cfg: Object): Option<Object> {
    match At(cfg, "hooks")
    case None => Some(map[])
    case Some(Obj(h)) => Some(h)
    case _ => None
  }

  function Merged(c: Client, h: Object, bin: Binary): Object {
    map e | e in h.Keys + EventSet(c) && MergedEvent(c, e, At(h, e), bin).Some? :: MergedEvent(c, e, At(h, e), bin).value
  }

  function EventSet(c: Client): set<string> { set e | e in Events(c) }

  function Cleaned(c: Client, h: Object): Object {
    map e | e in h && CleanEvent(c, At(h, e)).Some? :: CleanEvent(c, At(h, e)).value
  }

  lemma MergedAt(c: Client, h: Object, bin: Binary, e: string)
    ensures At(Merged(c, h, bin), e) == MergedEvent(c, e, At(h, e), bin)
  {
    hide Events, Group, Theirs, Settled;
  }

  lemma CleanedAt(c: Client, h: Object, e: string)
    ensures At(Cleaned(c, h), e) == CleanEvent(c, At(h, e))
  {
    hide Theirs;
  }

  lemma SameObject(a: Object, b: Object)
    requires forall e :: At(a, e) == At(b, e)
    ensures a == b
  {
    forall e
      ensures e in a <==> e in b
      ensures e in a ==> a[e] == b[e]
    {
      assert At(a, e) == At(b, e);
    }
    assert a.Keys == b.Keys;
  }

  /** The first registered event whose value is not a list. */
  function FirstMisfit(events: seq<string>, h: Object): (r: Option<string>)
    ensures r.None? <==> forall i :: 0 <= i < |events| ==> !Misfit(h, events[i])
  {
    if events == [] then None
    else
      var front := FirstMisfit(events[..|events| - 1], h);
      if front.Some? then front
      else if Misfit(h, events[|events| - 1]) then Some(events[|events| - 1])
      else None
  }

  predicate Misfit(h: Object, event: string) { event in h && !h[event].Arr? }

  predicate Mergeable(c: Client, cfg: Object) {
    HooksOf(cfg).Some? && FirstMisfit(Events(c), HooksOf(cfg).value).None?
  }

  function MergeError(c: Client, cfg: Object): string
    requires !Mergeable(c, cfg)
  {
    if HooksOf(cfg).None? then "`hooks` is not a JSON object"
    else "hooks." + FirstMisfit(Events(c), HooksOf(cfg).value).value + " is not an array"
  }

  function Installed(c: Client, cfg: Object, bin: Binary): Object
    requires Mergeable(c, cfg)
  {
    cfg["hooks" := Obj(Merged(c, HooksOf(cfg).value, bin))]
  }

  function ChangedEvents(h: Object, k: Object): set<string> {
    set e | e in h.Keys + k.Keys && At(h, e) != At(k, e)
  }

  /** The events with a DiffLore group. */
  function OurEvents(c: Client, h: Object): set<string> {
    set e | e in h && OursAt(At(h, e), c) != []
  }

  /** The settings file after a removal: it is only written when some group went. */
  function Uninstalled(c: Client, cfg: Object): Object {
    if At(cfg, "hooks").None? || !cfg["hooks"].Obj? then cfg
    else
      var h := cfg["hooks"].fields;
      if OurEvents(c, h) == {} then cfg
      else if Cleaned(c, h) == map[] then cfg - {"hooks"}
      else cfg["hooks" := Obj(Cleaned(c, h))]
  }

  // ---- The loops ------------------------------------------------------------------------------------------------

  ghost predicate Stripped(c: Client, h: Object, now: Object, todo: set<string>) {
    && now.Keys == h.Keys
    && forall e :: e in h ==> now[e] == if e !in todo && h[e].Arr? then Arr(Theirs(h[e].items, c)) else h[e]
  }

  predicate Emptied(c: Client, h: Object, e: string) { e in h && h[e].Arr? && Theirs(h[e].items, c) == [] }

  ghost predicate EmptiedIn(c: Client, h: Object, empty: seq<string>, todo: set<string>) {
    forall e :: e in empty <==> e !in todo && Emptied(c, h, e)
  }

  lemma VisitList(c: Client, h: Object, now: Object, empty: seq<string>, todo: set<string>, event: string)
    requires Stripped(c, h, now, todo) && EmptiedIn(c, h, empty, todo)
    requires event in todo && event in h && h[event].Arr?
    ensures var kept := Theirs(h[event].items, c);
      && Stripped(c, h, now[event := Arr(kept)], todo - {event})
      && EmptiedIn(c, h, if kept == [] then empty + [event] else empty, todo - {event})
  {
    hide Theirs;
  }

  lemma VisitOther(c: Client, h: Object, now: Object, empty: seq<string>, todo: set<string>, event: string)
    requires Stripped(c, h, now, todo) && EmptiedIn(c, h, empty, todo)
    requires event in todo && event in h && !h[event].Arr?
    ensures Stripped(c, h, now, todo - {event}) && EmptiedIn(c, h, empty, todo - {event})
  {
    hide Theirs;
  }

  /** Which events have a DiffLore group, one event at a time. */
  lemma VisitCount(c: Client, h: Object, todo: set<string>, event: string)
    requires event in todo && event in h
    ensures OurEvents(c, h) - (todo - {event})
      == (OurEvents(c, h) - todo) + (if h[event].Arr? && |Theirs(h[event].items, c)| != |h[event].items| then {event} else {})
  {
    hide Theirs, OursOf;
    if h[event].Arr? {
      TheirsKeepsAll(h[event].items, c);
    }
  }

  lemma StripEnds(c: Client, h: Object, now: Object, empty: seq<string>)
    requires Stripped(c, h, now, {}) && EmptiedIn(c, h, empty, {})
    ensures (map e | e in now && e !in empty :: now[e]) == Cleaned(c, h)
  {
    hide Theirs;
  }

  /** The strip pass shared by the Codex merge and both removals: every list loses our groups, and
      the lists left empty are dropped. The events are visited in any order. */
  method Strip(h: Object, c: Client) returns (hooks: Object, removed: nat)
    ensures hooks == Cleaned(c, h)
    ensures removed == |OurEvents(c, h)|
  {
    hide Theirs, OursOf, OurEvents, Cleaned, EmptiedIn, Stripped;
    hooks := h;
    removed := 0;
    var todo := h.Keys;
    var empty: seq<string> := [];
    assert OurEvents(c, h) - todo == {} by { OurEventsAreEvents(c, h); }
    NothingStripped(c, h);
    while todo != {}
      invariant todo <= h.Keys
      invariant Stripped(c, h, hooks, todo)
      invariant EmptiedIn(c, h, empty, todo)
      invariant removed == |OurEvents(c, h) - todo|
    {
      var event :| event in todo;
      StillThere(c, h, hooks, todo, event);
      var v := hooks[event];
      VisitCount(c, h, todo, event);
      if v.Arr? {
        VisitList(c, h, hooks, empty, todo, event);
        var kept := Retain(v.items, c);
        hooks := hooks[event := Arr(kept)];
        if |kept| != |v.items| {
          removed := removed + 1;
        }
        if kept == [] {
          empty := empty + [event];
        }
      } else {
        VisitOther(c, h, hooks, empty, todo, event);
      }
      todo := todo - {event};
    }
    assert OurEvents(c, h) - {} == OurEvents(c, h);
    StripEnds(c, h, hooks, empty);
    hooks := DropAll(hooks, empty);
  }

  lemma OurEventsAreEvents(c: Client, h: Object)
    ensures OurEvents(c, h) <= h.Keys
  {
  }

  lemma NothingStripped(c: Client, h: Object)
    ensures EmptiedIn(c, h, [], h.Keys) && Stripped(c, h, h, h.Keys)
  {
  }

  lemma StillThere(c: Client, h: Object, now: Object, todo: set<string>, event: string)
    requires Stripped(c, h, now, todo) && event in todo && event in h
    ensures event in now && now[event] == h[event]
  {
  }

  method DropAll(h: Object, events: seq<string>) returns (hooks: Object)
    ensures hooks == map e | e in h && e !in events :: h[e]
  {
    hooks := h;
    for i := 0 to |events|
      invariant hooks == map e | e in h && e !in events[..i] :: h[e]
    {
      hooks := hooks - {events[i]};
      assert events[..i + 1] == events[..i] + [events[i]];
    }
    assert events[..|events|] == events;
  }

  ghost predicate Retired(h: Object, now: Object, todo: set<string>) {
    forall e :: At(now, e) == if e in todo || e in Events(ClaudeCode) then At(h, e) else RetiredEvent(At(h, e))
  }

  /** Setting one event changes the set of changed events by that event alone. */
  lemma OneEventChanges(h: Object, now: Object, next: Object, event: string)
    requires forall e :: e != event ==> At(next, e) == At(now, e)
    requires At(now, event) == At(h, event)
    ensures ChangedEvents(h, next) == ChangedEvents(h, now) + (if At(next, event) != At(h, event) then {event} else {})
    ensures event !in ChangedEvents(h, now)
  {
    forall e
      ensures e in ChangedEvents(h, next) <==> At(h, e) != At(next, e)
      ensures e in ChangedEvents(h, now) <==> At(h, e) != At(now, e)
    {
    }
  }

  lemma OthersStay(now: Object, event: string, v: Json)
    ensures forall e :: At(now[event := v], e) == if e == event then Some(v) else At(now, e)
    ensures forall e :: At(now - {event}, e) == if e == event then None else At(now, e)
  {
    var more := now[event := v];
    forall e
      ensures At(more, e) == if e == event then Some(v) else At(now, e)
    {
      if e != event {
        assert e in more <==> e in now;
      } else {
        assert At(more, event) == Some(v);
      }
    }
    assert (now - {event}).Keys == now.Keys - {event};
    assert forall e :: At(now - {event}, e) == if e == event then None else At(now, e);
  }

  lemma NothingChanged(h: Object)
    ensures ChangedEvents(h, h) == {} && Retired(h, h, h.Keys)
  {
  }

  /** The pass of the Claude merge over the events it does not register, in any order. */
  method StripRetired(h: Object) returns (hooks: Object, changed: nat)
    ensures Retired(h, hooks, {})
    ensures changed == |ChangedEvents(h, hooks)|
  {
    hide Theirs, OursOf, Events, ChangedEvents, At;
    hooks := h;
    changed := 0;
    var todo := h.Keys;
    NothingChanged(h);
    while todo != {}
      invariant todo <= h.Keys
      invariant Retired(h, hooks, todo)
      invariant changed == |ChangedEvents(h, hooks)|
    {
      var event :| event in todo;
      AtIs(h, event);
      AtIs(hooks, event);
      assert At(hooks, event) == At(h, event);
      if event !in Events(ClaudeCode) && hooks[event].Arr? {
        var groups := hooks[event].items;
        var kept := Retain(groups, ClaudeCode);
        ghost var before := hooks;
        if |kept| != |groups| {
          changed := changed + 1;
        }
        OthersStay(before, event, Arr(kept));
        if |kept| != |groups| && kept == [] {
          hooks := hooks - {event};
        } else {
          hooks := hooks[event := Arr(kept)];
        }
        SameList(groups, ClaudeCode);
        assert At(hooks, event) == RetiredEvent(At(h, event));
        assert At(hooks, event) != At(h, event) <==> |kept| != |groups|;
        OneEventChanges(h, before, hooks, event);
      }
      todo := todo - {event};
    }
  }

  lemma AtIs(o: Object, key: string)
    ensures At(o, key) == if key in o then Some(o[key]) else None
  {
  }

  lemma SameList(gs: seq<Json>, c: Client)
    ensures |Theirs(gs, c)| == |gs| ==> Theirs(gs, c) == gs
  {
    TheirsKeepsAll(gs, c);
  }

  // ---- Merging ---------------------------------------------------------------------------------------------------

  datatype Claude = Claude(file: Object, changed: nat)

  datatype CodexHooks = CodexHooks(file: Object, existed: bool)

  /** Halfway through the registered events: those already visited are merged. */
  ghost predicate MergedUpTo(c: Client, h: Object, bin: Binary, now: Object, base: Object, i: nat)
    requires i <= |Events(c)|
  {
    forall e :: At(now, e) == if e in Events(c)[..i] then MergedEvent(c, e, At(h, e), bin) else At(base, e)
  }

  lemma MergeStep(c: Client, h: Object, bin: Binary, now: Object, base: Object, i: nat, gs: seq<Json>)
    requires i < |Events(c)| && MergedUpTo(c, h, bin, now, base, i)
    requires MergedEvent(c, Events(c)[i], At(h, Events(c)[i]), bin) == Some(Arr(gs))
    ensures MergedUpTo(c, h, bin, now[Events(c)[i] := Arr(gs)], base, i + 1)
  {
    hide Events, MergedEvent, At;
    OthersStay(now, Events(c)[i], Arr(gs));
    assert Events(c)[..i + 1] == Events(c)[..i] + [Events(c)[i]];
  }

  lemma NotYetMerged(c: Client, h: Object, bin: Binary, now: Object, base: Object, i: nat)
    requires i < |Events(c)| && MergedUpTo(c, h, bin, now, base, i)
    ensures At(now, Events(c)[i]) == At(base, Events(c)[i])
  {
    hide Events, MergedEvent, At;
    EventsAreDistinct(c);
    assert Events(c)[i] !in Events(c)[..i];
  }

  lemma FirstMisfitStep(events: seq<string>, h: Object, i: nat)
    requires i < |events| && FirstMisfit(events[..i], h).None?
    ensures FirstMisfit(events[..i + 1], h) == if Misfit(h, events[i]) then Some(events[i]) else None
    ensures Misfit(h, events[i]) ==> FirstMisfit(events, h) == Some(events[i])
  {
    assert events[..i + 1][..i] == events[..i];
    if Misfit(h, events[i]) {
      MisfitStays(events, h, i + 1);
    }
  }

  lemma {:induction false} MisfitStays(events: seq<string>, h: Object, i: nat)
    requires i <= |events| && FirstMisfit(events[..i], h).Some?
    ensures FirstMisfit(events, h) == FirstMisfit(events[..i], h)
  {
    if i < |events| {
      assert events[..|events| - 1][..i] == events[..i];
      MisfitStays(events[..|events| - 1], h, i);
    } else {
      assert events[..i] == events;
    }
  }

  /** `merge_claude_code_hooks`: what is on disk afterwards, and the number it returns. */
  method MergeClaude(cfg: Object, bin: Binary) returns (r: Result<Claude>)
    ensures r.Ok? <==> Mergeable(ClaudeCode, cfg)
    ensures r.Err? ==> r.error == MergeError(ClaudeCode, cfg)
    ensures r.Ok? ==> r.value.file == Installed(ClaudeCode, cfg, bin)
    ensures r.Ok? ==> r.value.changed == |ChangedEvents(HooksOf(cfg).value, Merged(ClaudeCode, HooksOf(cfg).value, bin))|
  {
    hide Events, At, Group, Settled, ChangedEvents, Merged, RetiredEvent, MergedUpTo, Retired, FirstMisfit, MergedEvent;
    AtIs(cfg, "hooks");
    var hooksValue := if "hooks" in cfg then cfg["hooks"] else Obj(map[]);
    if !hooksValue.Obj? {
      return Err("`hooks` is not a JSON object");
    }
    var h := hooksValue.fields;
    var events := Events(ClaudeCode);
    var hooks, changed := StripRetired(h);
    ghost var base := hooks;
    assert events[..0] == [];
    NoneMerged(ClaudeCode, h, bin, base);
    RetiredMeets(h, base, bin);
    for i := 0 to |events|
      invariant FirstMisfit(events[..i], h).None?
      invariant MergedUpTo(ClaudeCode, h, bin, hooks, base, i)
      invariant changed == |ChangedEvents(h, hooks)|
    {
      var event := events[i];
      var want := Group(ClaudeCode, event, bin);
      NotYetMerged(ClaudeCode, h, bin, hooks, base, i);
      FirstMisfitStep(events, h, i);
      AtIs(hooks, event);
      AtIs(h, event);
      var value := if event in hooks then hooks[event] else Arr([]);
      if !value.Arr? {
        return Err("hooks." + event + " is not an array");
      }
      GroupIsOurs(ClaudeCode, event, bin);
      var groups, eventChanged := Settle(value.items, ClaudeCode, want);
      SettledEvent(event, At(h, event), bin);
      assert MergedEvent(ClaudeCode, event, At(h, event), bin) == Some(Arr(groups));
      MergeStep(ClaudeCode, h, bin, hooks, base, i, groups);
      SettledIsNotEmpty(value.items, ClaudeCode, want);
      OneMoreChange(h, hooks, event, value.items, groups);
      hooks := hooks[event := Arr(groups)];
      if eventChanged {
        changed := changed + 1;
      }
    }
    assert events[..|events|] == events;
    MergeEnds(ClaudeCode, h, bin, hooks, base);
    if changed > 0 {
      r := Ok(Claude(cfg["hooks" := Obj(hooks)], changed));
    } else {
      UnchangedFile(cfg, h, hooks, bin);
      r := Ok(Claude(cfg, 0));
    }
  }

  lemma NoneMerged(c: Client, h: Object, bin: Binary, base: Object)
    ensures MergedUpTo(c, h, bin, base, base, 0)
  {
  }

  lemma RetiredMeets(h: Object, base: Object, bin: Binary)
    requires Retired(h, base, {})
    ensures forall e :: e in Events(ClaudeCode) ==> At(base, e) == At(h, e)
    ensures forall e :: e !in Events(ClaudeCode) ==> At(base, e) == MergedEvent(ClaudeCode, e, At(h, e), bin)
  {
    hide At, RetiredEvent, Events;
  }

  lemma OneMoreChange(h: Object, now: Object, event: string, was: seq<Json>, gs: seq<Json>)
    requires At(now, event) == At(h, event) && gs != []
    requires At(h, event) == Some(Arr(was)) || (At(h, event) == None && was == [])
    ensures |ChangedEvents(h, now[event := Arr(gs)])| == |ChangedEvents(h, now)| + if gs != was then 1 else 0
  {
    hide ChangedEvents;
    OthersStay(now, event, Arr(gs));
    OneEventChanges(h, now, now[event := Arr(gs)], event);
  }

  lemma SettledIsNotEmpty(gs: seq<Json>, c: Client, want: Json)
    requires Ours(want, c)
    ensures Settled(gs, c, want) != []
  {
    hide Settled, Ours;
    SettledSplits(gs, c, want);
  }

  lemma SettledEvent(event: string, v: Option<Json>, bin: Binary)
    requires event in Events(ClaudeCode) && (v.Some? ==> v.value.Arr?)
    ensures MergedEvent(ClaudeCode, event, v, bin)
      == Some(Arr(Settled(if v.Some? then v.value.items else [], ClaudeCode, Group(ClaudeCode, event, bin))))
  {
    hide Events, Group;
    var want := Group(ClaudeCode, event, bin);
    assert KeepOne([], ClaudeCode, want) + [want] == [want];
  }

  lemma MergeEnds(c: Client, h: Object, bin: Binary, now: Object, base: Object)
    requires MergedUpTo(c, h, bin, now, base, |Events(c)|)
    requires forall e :: e !in Events(c) ==> At(base, e) == MergedEvent(c, e, At(h, e), bin)
    ensures now == Merged(c, h, bin)
  {
    hide Events, MergedEvent, At, Merged;
    assert Events(c)[..|Events(c)|] == Events(c);
    forall e
      ensures At(now, e) == At(Merged(c, h, bin), e)
    {
      MergedAt(c, h, bin, e);
    }
    SameObject(now, Merged(c, h, bin));
  }

  /** When nothing changed, what is on disk already is the merged object. */
  lemma UnchangedFile(cfg: Object, h: Object, now: Object, bin: Binary)
    requires HooksOf(cfg) == Some(h) && now == Merged(ClaudeCode, h, bin) && ChangedEvents(h, now) == {}
    ensures cfg["hooks" := Obj(now)] == cfg
  {
    hide Group, Settled, RetiredEvent;
    forall e
      ensures At(h, e) == At(now, e)
    {
      assert e in ChangedEvents(h, now) <==> At(h, e) != At(now, e);
    }
    SameObject(h, now);
    MergedAt(ClaudeCode, h, bin, Events(ClaudeCode)[0]);
    assert h != map[];
  }

  /** `merge_codex_hooks`. */
  method MergeCodex(cfg: Object, bin: Binary) returns (r: Result<CodexHooks>)
    ensures r.Ok? <==> Mergeable(Codex, cfg)
    ensures r.Err? ==> r.error == MergeError(Codex, cfg)
    ensures r.Ok? ==> r.value.file == Installed(Codex, cfg, bin)
    ensures r.Ok? ==> (r.value.existed <==> OurEvents(Codex, HooksOf(cfg).value) != {})
  {
    hide Events, At, Group, Theirs, Cleaned, Merged, MergedUpTo, FirstMisfit, MergedEvent, OurEvents;
    AtIs(cfg, "hooks");
    var hooksValue := if "hooks" in cfg then cfg["hooks"] else Obj(map[]);
    if !hooksValue.Obj? {
      return Err("`hooks` is not a JSON object");
    }
    var h := hooksValue.fields;
    var events := Events(Codex);
    var hooks, removed := Strip(h, Codex);
    ghost var base := hooks;
    assert events[..0] == [];
    NoneMerged(Codex, h, bin, base);
    CleanedMeets(h, bin);
    for i := 0 to |events|
      invariant FirstMisfit(events[..i], h).None?
      invariant MergedUpTo(Codex, h, bin, hooks, base, i)
    {
      var event := events[i];
      NotYetMerged(Codex, h, bin, hooks, base, i);
      FirstMisfitStep(events, h, i);
      AtIs(hooks, event);
      AtIs(h, event);
      CleanedAt(Codex, h, event);
      PushedEvent(event, At(h, event), bin);
      var value := if event in hooks then hooks[event] else Arr([]);
      if !value.Arr? {
        return Err("hooks." + event + " is not an array");
      }
      var groups := value.items + [Group(Codex, event, bin)];
      MergeStep(Codex, h, bin, hooks, base, i, groups);
      hooks := hooks[event := Arr(groups)];
    }
    assert events[..|events|] == events;
    MergeEnds(Codex, h, bin, hooks, base);
    r := Ok(CodexHooks(cfg["hooks" := Obj(hooks)], removed > 0));
  }

  lemma CleanedMeets(h: Object, bin: Binary)
    ensures forall e :: e !in Events(Codex) ==> At(Cleaned(Codex, h), e) == MergedEvent(Codex, e, At(h, e), bin)
  {
    hide At, Cleaned, CleanEvent, Events;
    forall e | e !in Events(Codex)
      ensures At(Cleaned(Codex, h), e) == MergedEvent(Codex, e, At(h, e), bin)
    {
      CleanedAt(Codex, h, e);
    }
  }

  /** Pushing onto what the strip pass left. */
  lemma PushedEvent(event: string, v: Option<Json>, bin: Binary)
    requires event in Events(Codex)
    ensures v.Some? && !v.value.Arr? ==> CleanEvent(Codex, v) == v
    ensures (v.Some? ==> v.value.Arr?) ==>
      var left := CleanEvent(Codex, v);
      && (left.Some? ==> left.value.Arr?)
      && MergedEvent(Codex, event, v, bin)
        == Some(Arr((if left.Some? then left.value.items else []) + [Group(Codex, event, bin)]))
  {
    hide Events, Group, Theirs;
    var want := Group(Codex, event, bin);
    assert [] + [want] == [want];
  }

  // ---- Removing and reading back -------------------------------------------------------------------------------------

  /** `remove_claude_code_hooks`, and `remove_difflore_hook_entries` as Codex calls it: what is on
      disk afterwards, and how many events lost a group. */
  method Remove(c: Client, cfg: Object) returns (file: Object, removed: nat)
    ensures file == Uninstalled(c, cfg)
    ensures removed == if At(cfg, "hooks").Some? && cfg["hooks"].Obj? then |OurEvents(c, cfg["hooks"].fields)| else 0
  {
    hide Cleaned, OurEvents;
    if "hooks" !in cfg || !cfg["hooks"].Obj? {
      return cfg, 0;
    }
    var h := cfg["hooks"].fields;
    var hooks;
    hooks, removed := Strip(h, c);
    var edited := if hooks == map[] then cfg - {"hooks"} else cfg["hooks" := Obj(hooks)];
    file := if removed > 0 then edited else cfg;
  }

  /** An order in which a map may be iterated. */
  predicate Enumerates(order: seq<string>, h: Object) {
    Distinct(order) && (forall i :: 0 <= i < |order| ==> order[i] in h) && (forall e :: e in h ==> e in order)
  }

  /** DiffLore's groups met in this order. */
  function Extracted(c: Client, h: Object, order: seq<string>): seq<Json> {
    if order == [] then []
    else Extracted(c, h, order[..|order| - 1]) + OursAt(At(h, order[|order| - 1]), c)
  }

  /** `extract_hook_groups_on_disk`; the order of the map is not fixed here. */
  method Extract(c: Client, cfg: Object) returns (out: seq<Json>)
    ensures HooksOf(cfg).None? ==> out == []
    ensures HooksOf(cfg).Some? ==>
      exists order :: Enumerates(order, HooksOf(cfg).value) && out == Extracted(c, HooksOf(cfg).value, order)
  {
    hide OursOf, Ours, Extracted, Enumerates, Distinct;
    out := [];
    NothingRead(c);
    if "hooks" !in cfg || !cfg["hooks"].Obj? {
      return;
    }
    var h := cfg["hooks"].fields;
    var todo := h.Keys;
    ghost var order: seq<string> := [];
    while todo != {}
      invariant todo <= h.Keys && ReadSoFar(order, h, todo)
      invariant out == Extracted(c, h, order)
    {
      var event :| event in todo;
      ReadOne(c, h, order, todo, event);
      order := order + [event];
      if h[event].Arr? {
        var ours := CollectOurs(h[event].items, c);
        out := out + ours;
      } else {
        assert out + [] == out;
      }
      todo := todo - {event};
    }
    assert Enumerates(order, h) by { ReadAll(order, h); }
  }

  ghost predicate ReadSoFar(order: seq<string>, h: Object, todo: set<string>) {
    Distinct(order) && forall e :: e in order <==> e in h && e !in todo
  }

  lemma NothingRead(c: Client)
    ensures forall h :: Extracted(c, h, []) == [] && ReadSoFar([], h, h.Keys)
    ensures Enumerates([], map[])
  {
  }

  lemma ReadOne(c: Client, h: Object, order: seq<string>, todo: set<string>, event: string)
    requires ReadSoFar(order, h, todo) && event in todo && event in h
    ensures ReadSoFar(order + [event], h, todo - {event})
    ensures Extracted(c, h, order + [event]) == Extracted(c, h, order) + OursAt(At(h, event), c)
  {
    hide OursAt;
    assert event !in order;
    assert (order + [event])[..|order|] == order;
  }

  lemma ReadAll(order: seq<string>, h: Object)
    requires ReadSoFar(order, h, {})
    ensures Enumerates(order, h)
  {
    assert forall i :: 0 <= i < |order| ==> order[i] in order;
  }

  method CollectOurs(gs: seq<Json>, c: Client) returns (ours: seq<Json>)
    ensures ours == OursOf(gs, c)
  {
    hide Ours;
    ours := [];
    for i := 0 to |gs|
      invariant ours == OursOf(gs[..i], c)
    {
      Snoc(gs[..i], gs[i], c, gs[i]);
      assert gs[..i + 1] == gs[..i] + [gs[i]];
      if Ours(gs[i], c) {
        ours := ours + [gs[i]];
      }
    }
    assert gs[..|gs|] == gs;
  }
}
