/** What installing and removing hooks promise: a normal form, user groups kept, each undoing the other. */
module HookLaws {
  import opened Wrappers
  import opened JsonValue
  import opened HookGroups
  import opened HookMerge

  // ---- One event --------------------------------------------------------------------------------------------

  predicate ListOrAbsent(v: Option<Json>) { v.Some? ==> v.value.Arr? }

  lemma OneSnoc(gs: seq<Json>, c: Client, g: Json)
    requires Ours(g, c) && OursOf(gs, c) == []
    ensures OursOf(gs + [g], c) == [g] && Theirs(gs + [g], c) == Theirs(gs, c)
  {
    hide Ours, OursOf, Theirs;
    Snoc(gs, g, c, g);
  }

  lemma NoGroups(c: Client)
    ensures OursOf([], c) == [] && Theirs([], c) == []
  {
  }

  /** One event after a merge. */
  lemma EventNormalForm(c: Client, event: string, v: Option<Json>, bin: Binary)
    requires event in Events(c) ==> ListOrAbsent(v)
    ensures var after := MergedEvent(c, event, v, bin);
      && OursAt(after, c) == (if event in Events(c) then [Group(c, event, bin)] else [])
      && TheirsAt(after, c) == TheirsAt(v, c)
      && (event in Events(c) ==> after.Some? && after.value.Arr?)
      && (v.Some? && !v.value.Arr? ==> after == v)
      && (v.None? && event !in Events(c) ==> after.None?)
  {
    hide Events, Group, Theirs, OursOf, Settled, Ours;
    var want := Group(c, event, bin);
    var gs := match v case Some(Arr(gs)) => gs case _ => [];
    NoGroups(c);
    GroupIsOurs(c, event, bin);
    TheirsKeepsAll(gs, c);
    SettledSplits(gs, c, want);
    OneSnoc(Theirs(gs, c), c, want);
    OneSnoc([], c, want);
    assert [] + [want] == [want];
  }

  /** A second merge of an event finds nothing to do. */
  lemma EventTwice(c: Client, event: string, v: Option<Json>, bin: Binary)
    requires event in Events(c) ==> ListOrAbsent(v)
    ensures MergedEvent(c, event, MergedEvent(c, event, v, bin), bin) == MergedEvent(c, event, v, bin)
  {
    hide Events, Group, Theirs, OursOf, Settled, Ours;
    var want := Group(c, event, bin);
    GroupIsOurs(c, event, bin);
    EventNormalForm(c, event, v, bin);
    match MergedEvent(c, event, v, bin)
    case Some(Arr(after)) =>
      SettledChanges(after, c, want);
      TheirsKeepsAll(after, c);
      var gs := match v case Some(Arr(gs)) => gs case _ => [];
      NoGroups(c);
      assert [] + [want] == [want];
    case _ =>
  }

  /** Removal after a merge only depends on what was there before. */
  lemma EventCleaned(c: Client, event: string, v: Option<Json>, bin: Binary)
    requires event in Events(c) ==> ListOrAbsent(v)
    ensures CleanEvent(c, MergedEvent(c, event, v, bin)) == CleanEvent(c, v)
  {
    hide Events, Group, Theirs, OursOf, Settled, Ours;
    EventNormalForm(c, event, v, bin);
    NoGroups(c);
    if event !in Events(c) && v.Some? && v.value.Arr? {
      TheirsKeepsAll(v.value.items, c);
    }
  }

  // ---- Whole settings -----------------------------------------------------------------------------------------

  lemma HooksOfInstalled(c: Client, cfg: Object, bin: Binary)
    requires Mergeable(c, cfg)
    ensures HooksOf(Installed(c, cfg, bin)) == Some(Merged(c, HooksOf(cfg).value, bin))
  {
    hide Merged, FirstMisfit;
  }

  lemma RegisteredFits(c: Client, cfg: Object, event: string)
    requires Mergeable(c, cfg) && event in Events(c)
    ensures ListOrAbsent(At(HooksOf(cfg).value, event))
  {
    hide Events;
    var i :| 0 <= i < |Events(c)| && Events(c)[i] == event;
    assert !Misfit(HooksOf(cfg).value, Events(c)[i]);
  }

  /** MAIN: what a successful merge leaves behind, event by event. */
  lemma MergeNormalForm(c: Client, cfg: Object, bin: Binary, event: string, key: string)
    requires Mergeable(c, cfg)
    ensures var h, after := HooksOf(cfg).value, Merged(c, HooksOf(cfg).value, bin);
      // exactly one group of ours under each registered event, the rendered one, and none elsewhere
      && OursAt(At(after, event), c) == (if event in Events(c) then [Group(c, event, bin)] else [])
      // the user's groups, in their order
      && TheirsAt(At(after, event), c) == TheirsAt(At(h, event), c)
      // values that are not lists stay, and no other event appears
      && (event in h && !h[event].Arr? ==> At(after, event) == At(h, event))
      && (event in after ==> event in h || event in Events(c))
    ensures key != "hooks" ==> At(Installed(c, cfg, bin), key) == At(cfg, key)
    ensures Mergeable(c, Installed(c, cfg, bin))
  {
    hide Events, MergedEvent, Merged, OursAt, TheirsAt;
    var h := HooksOf(cfg).value;
    if event in Events(c) {
      RegisteredFits(c, cfg, event);
    }
    MergedAt(c, h, bin, event);
    EventNormalForm(c, event, At(h, event), bin);
    HooksOfInstalled(c, cfg, bin);
    forall i | 0 <= i < |Events(c)|
      ensures !Misfit(Merged(c, h, bin), Events(c)[i])
    {
      RegisteredFits(c, cfg, Events(c)[i]);
      MergedAt(c, h, bin, Events(c)[i]);
      EventNormalForm(c, Events(c)[i], At(h, Events(c)[i]), bin);
    }
  }

  /** MAIN: merging again changes nothing, so the Claude merge returns 0. */
  lemma MergeTwiceIsOnce(c: Client, cfg: Object, bin: Binary)
    requires Mergeable(c, cfg)
    ensures var once := Installed(c, cfg, bin);
      && Mergeable(c, once) && Installed(c, once, bin) == once
      && ChangedEvents(HooksOf(once).value, Merged(c, HooksOf(once).value, bin)) == {}
  {
    hide Events, MergedEvent, Merged, FirstMisfit;
    MergeNormalForm(c, cfg, bin, "hooks", "hooks");
    HooksOfInstalled(c, cfg, bin);
    var h := HooksOf(cfg).value;
    var after := Merged(c, h, bin);
    forall e
      ensures At(Merged(c, after, bin), e) == At(after, e)
    {
      if e in Events(c) {
        RegisteredFits(c, cfg, e);
      }
      MergedAt(c, h, bin, e);
      MergedAt(c, after, bin, e);
      EventTwice(c, e, At(h, e), bin);
    }
    SameObject(Merged(c, after, bin), after);
  }

  /** The Claude merge returns 0 exactly for the settings already in normal form. */
  lemma ZeroIffNormal(cfg: Object, bin: Binary)
    requires Mergeable(ClaudeCode, cfg)
    ensures var h := HooksOf(cfg).value;
      ChangedEvents(h, Merged(ClaudeCode, h, bin)) == {} <==>
      forall e :: OursAt(At(h, e), ClaudeCode) == if e in Events(ClaudeCode) then [Group(ClaudeCode, e, bin)] else []
  {
    hide Events, Merged, FirstMisfit, MergedEvent, OursAt, Group, ChangedEvents;
    var h := HooksOf(cfg).value;
    var after := Merged(ClaudeCode, h, bin);
    if ChangedEvents(h, after) == {} {
      forall e
        ensures OursAt(At(h, e), ClaudeCode) == if e in Events(ClaudeCode) then [Group(ClaudeCode, e, bin)] else []
      {
        UnchangedAt(h, after, e);
        MergeNormalForm(ClaudeCode, cfg, bin, e, e);
      }
    }
    if forall e :: OursAt(At(h, e), ClaudeCode) == if e in Events(ClaudeCode) then [Group(ClaudeCode, e, bin)] else [] {
      forall e
        ensures At(after, e) == At(h, e)
      {
        if e in Events(ClaudeCode) {
          RegisteredFits(ClaudeCode, cfg, e);
        }
        MergedAt(ClaudeCode, h, bin, e);
        NormalEventStays(e, At(h, e), bin);
      }
      SameObject(after, h);
      NothingChanged(h);
    }
  }

  lemma UnchangedAt(h: Object, k: Object, e: string)
    requires ChangedEvents(h, k) == {}
    ensures At(h, e) == At(k, e)
  {
    assert e in ChangedEvents(h, k) <==> At(h, e) != At(k, e);
  }

  lemma NormalEventStays(event: string, v: Option<Json>, bin: Binary)
    requires event in Events(ClaudeCode) ==> ListOrAbsent(v)
    requires OursAt(v, ClaudeCode) == if event in Events(ClaudeCode) then [Group(ClaudeCode, event, bin)] else []
    ensures MergedEvent(ClaudeCode, event, v, bin) == v
  {
    hide Events, Group, Theirs, OursOf, Settled, Ours;
    GroupIsOurs(ClaudeCode, event, bin);
    if v.Some? && v.value.Arr? {
      SettledChanges(v.value.items, ClaudeCode, Group(ClaudeCode, event, bin));
      TheirsKeepsAll(v.value.items, ClaudeCode);
    }
  }

  /** A Codex install for another binary location leaves nothing of the earlier one behind. */
  lemma LastCodexInstallWins(cfg: Object, first: Binary, last: Binary)
    requires Mergeable(Codex, cfg)
    ensures Mergeable(Codex, Installed(Codex, cfg, first))
    ensures Installed(Codex, Installed(Codex, cfg, first), last) == Installed(Codex, cfg, last)
  {
    hide Events, MergedEvent, Merged, FirstMisfit;
    MergeNormalForm(Codex, cfg, first, "hooks", "hooks");
    HooksOfInstalled(Codex, cfg, first);
    var h := HooksOf(cfg).value;
    var once := Merged(Codex, h, first);
    forall e
      ensures At(Merged(Codex, once, last), e) == At(Merged(Codex, h, last), e)
    {
      if e in Events(Codex) {
        RegisteredFits(Codex, cfg, e);
      }
      MergedAt(Codex, h, first, e);
      MergedAt(Codex, once, last, e);
      MergedAt(Codex, h, last, e);
      CodexEventAgain(e, At(h, e), first, last);
    }
    SameObject(Merged(Codex, once, last), Merged(Codex, h, last));
  }

  lemma CodexEventAgain(event: string, v: Option<Json>, first: Binary, last: Binary)
    requires event in Events(Codex) ==> ListOrAbsent(v)
    ensures MergedEvent(Codex, event, MergedEvent(Codex, event, v, first), last) == MergedEvent(Codex, event, v, last)
  {
    hide Events, Group, Theirs, OursOf, Ours;
    EventNormalForm(Codex, event, v, first);
    NoGroups(Codex);
    var want := Group(Codex, event, last);
    assert [] + [want] == [want];
    if event !in Events(Codex) && v.Some? && v.value.Arr? {
      TheirsKeepsAll(v.value.items, Codex);
    }
  }

  // ---- Install and uninstall ------------------------------------------------------------------------------------

  /** No DiffLore group, no empty list of groups, and no empty `hooks` object. */
  predicate Tidy(c: Client, cfg: Object) {
    "hooks" in cfg && cfg["hooks"].Obj? ==>
      && cfg["hooks"].fields != map[]
      && forall e :: e in cfg["hooks"].fields ==> TidyEvent(c, cfg["hooks"].fields[e])
  }

  predicate TidyEvent(c: Client, v: Json) {
    v.Arr? ==> v.items != [] && forall i :: 0 <= i < |v.items| ==> !Ours(v.items[i], c)
  }

  lemma {:induction false} NoneOurs(gs: seq<Json>, c: Client)
    ensures OursOf(gs, c) == [] <==> forall i :: 0 <= i < |gs| ==> !Ours(gs[i], c)
  {
    hide Ours;
    if gs != [] {
      NoneOurs(gs[..|gs| - 1], c);
    }
  }

  lemma CleanKeepsTidy(c: Client, v: Json)
    ensures CleanEvent(c, Some(v)) == Some(v) <==> TidyEvent(c, v)
  {
    hide Ours, Theirs, OursOf;
    if v.Arr? {
      TheirsKeepsAll(v.items, c);
      NoneOurs(v.items, c);
      NoGroups(c);
    }
  }

  lemma CleanedMerged(c: Client, cfg: Object, bin: Binary)
    requires Mergeable(c, cfg)
    ensures Cleaned(c, Merged(c, HooksOf(cfg).value, bin)) == Cleaned(c, HooksOf(cfg).value)
    ensures OurEvents(c, Merged(c, HooksOf(cfg).value, bin)) == EventSet(c)
  {
    hide Events, MergedEvent, Merged, FirstMisfit, Cleaned, CleanEvent, OursAt;
    var h := HooksOf(cfg).value;
    var after := Merged(c, h, bin);
    forall e
      ensures At(Cleaned(c, after), e) == At(Cleaned(c, h), e)
      ensures e in OurEvents(c, after) <==> e in Events(c)
    {
      if e in Events(c) {
        RegisteredFits(c, cfg, e);
      }
      MergedAt(c, h, bin, e);
      CleanedAt(c, after, e);
      CleanedAt(c, h, e);
      EventCleaned(c, e, At(h, e), bin);
      EventNormalForm(c, e, At(h, e), bin);
    }
    SameObject(Cleaned(c, after), Cleaned(c, h));
  }

  lemma SomeEvent(c: Client)
    ensures EventSet(c) != {}
  {
    assert Events(c)[0] in EventSet(c);
  }

  lemma CleanedKeepsTidy(c: Client, h: Object)
    ensures Cleaned(c, h) == h <==> forall e :: e in h ==> TidyEvent(c, h[e])
  {
    hide Cleaned, TidyEvent, CleanEvent;
    forall e
      ensures At(Cleaned(c, h), e) == At(h, e) <==> (e in h ==> TidyEvent(c, h[e]))
    {
      CleanedAt(c, h, e);
      if e in h {
        CleanKeepsTidy(c, h[e]);
      } else {
        NothingToClean(c);
      }
    }
    if forall e :: e in h ==> TidyEvent(c, h[e]) {
      SameObject(Cleaned(c, h), h);
    }
  }

  lemma NothingToClean(c: Client)
    ensures CleanEvent(c, None) == None
  {
  }

  /** MAIN: uninstalling after installing gives the settings back exactly when they were tidy. */
  lemma UninstallUndoesInstall(c: Client, cfg: Object, bin: Binary)
    requires Mergeable(c, cfg)
    ensures Uninstalled(c, Installed(c, cfg, bin)) == cfg <==> Tidy(c, cfg)
  {
    hide Merged, FirstMisfit, Cleaned, TidyEvent, OurEvents, EventSet;
    var h := HooksOf(cfg).value;
    HooksOfInstalled(c, cfg, bin);
    CleanedMerged(c, cfg, bin);
    SomeEvent(c);
    CleanedKeepsTidy(c, h);
    var after := Installed(c, cfg, bin);
    var out := Uninstalled(c, after);
    assert after["hooks"] == Obj(Merged(c, h, bin));
    assert out == if Cleaned(c, h) == map[] then after - {"hooks"} else after["hooks" := Obj(Cleaned(c, h))];
    if "hooks" in cfg {
      assert cfg["hooks"] == Obj(h);
      assert Cleaned(c, h) != map[] ==> out["hooks"] == Obj(Cleaned(c, h));
      assert cfg["hooks" := Obj(h)] == cfg;
      assert after["hooks" := Obj(Cleaned(c, h))] == cfg["hooks" := Obj(Cleaned(c, h))];
    } else {
      NothingCleaned(c);
      assert after - {"hooks"} == cfg;
    }
  }

  lemma NothingCleaned(c: Client)
    ensures Cleaned(c, map[]) == map[]
  {
  }

  /** Uninstalling leaves no DiffLore group in any list and keeps every user group in its order. */
  lemma UninstallLeavesNone(c: Client, cfg: Object, event: string)
    requires HooksOf(cfg).Some?
    ensures HooksOf(Uninstalled(c, cfg)).Some?
    ensures var h, after := HooksOf(cfg).value, HooksOf(Uninstalled(c, cfg)).value;
      && OursAt(At(after, event), c) == []
      && TheirsAt(At(after, event), c) == TheirsAt(At(h, event), c)
      && (event in h && !h[event].Arr? ==> At(after, event) == At(h, event))
  {
    hide Cleaned, Theirs, OursOf;
    var h, out := HooksOf(cfg).value, Uninstalled(c, cfg);
    CleanedAt(c, h, event);
    if event in h && h[event].Arr? {
      TheirsKeepsAll(h[event].items, c);
    }
    NoGroups(c);
    if "hooks" in cfg && OurEvents(c, h) != {} {
      assert HooksOf(out).value == Cleaned(c, h);
    } else {
      assert HooksOf(out).value == h;
      assert event in h && OursAt(At(h, event), c) != [] ==> event in OurEvents(c, h);
    }
  }

  // ---- Reading back what was installed ------------------------------------------------------------------------------

  /** The rendered groups of those events of `order` that are among `events`. */
  function Picked(c: Client, bin: Binary, order: seq<string>, events: seq<string>): seq<Json> {
    if order == [] then []
    else
      var e := order[|order| - 1];
      Picked(c, bin, order[..|order| - 1], events) + (if e in events then [Group(c, e, bin)] else [])
  }

  lemma {:induction false} ExtractedIsPicked(c: Client, cfg: Object, bin: Binary, order: seq<string>)
    requires Mergeable(c, cfg)
    ensures Extracted(c, Merged(c, HooksOf(cfg).value, bin), order) == Picked(c, bin, order, Events(c))
  {
    hide Events, Merged, FirstMisfit, Group, OursAt;
    if order != [] {
      ExtractedIsPicked(c, cfg, bin, order[..|order| - 1]);
      MergeNormalForm(c, cfg, bin, order[|order| - 1], "hooks");
    }
  }

  lemma {:induction false} PickedWithout(c: Client, bin: Binary, order: seq<string>, events: seq<string>, less: seq<string>, e: string)
    requires e !in order && forall x :: x in events <==> x in less || x == e
    ensures Picked(c, bin, order, less) == Picked(c, bin, order, events)
  {
    hide Group;
    if order != [] {
      PickedWithout(c, bin, order[..|order| - 1], events, less, e);
    }
  }

  lemma {:induction false} PickedIsRendered(c: Client, bin: Binary, order: seq<string>, events: seq<string>)
    requires Distinct(order) && Distinct(events) && forall e :: e in events ==> e in order
    ensures multiset(Picked(c, bin, order, events)) == multiset(Groups(events, c, bin))
    decreases |order|
  {
    hide Group;
    if order == [] {
      FirstIsThere(events);
    } else {
      var front, e := order[..|order| - 1], order[|order| - 1];
      assert order == front + [e];
      if e in events {
        var k :| 0 <= k < |events| && events[k] == e;
        var less := events[..k] + events[k + 1..];
        PickedLess(events, less, k);
        PickedWithout(c, bin, front, events, less, e);
        PickedIsRendered(c, bin, front, less);
        GroupsLess(c, bin, events, k);
      } else {
        PickedIsRendered(c, bin, front, events);
      }
    }
  }

  lemma FirstIsThere(events: seq<string>)
    ensures events != [] ==> exists e :: e in events
  {
    if events != [] {
      assert events[0] in events;
    }
  }

  lemma PickedLess(events: seq<string>, less: seq<string>, k: nat)
    requires k < |events| && less == events[..k] + events[k + 1..] && Distinct(events)
    ensures Distinct(less) && forall x :: x in less <==> x in events && x != events[k]
  {
    forall x
      ensures x in less <==> x in events && x != events[k]
    {
      assert events == events[..k] + [events[k]] + events[k + 1..];
      assert forall i :: 0 <= i < |less| ==> less[i] == if i < k then events[i] else events[i + 1];
    }
  }

  lemma GroupsLess(c: Client, bin: Binary, events: seq<string>, k: nat)
    requires k < |events|
    ensures multiset(Groups(events, c, bin))
      == multiset(Groups(events[..k] + events[k + 1..], c, bin)) + multiset{Group(c, events[k], bin)}
  {
    hide Group;
    var gs := Groups(events, c, bin);
    assert gs == gs[..k] + [gs[k]] + gs[k + 1..];
    assert Groups(events[..k] + events[k + 1..], c, bin) == gs[..k] + gs[k + 1..];
  }

  /** MAIN: in whatever order the map is read, extraction after a merge returns the rendered block,
      each group once. */
  lemma ExtractAfterMerge(c: Client, cfg: Object, bin: Binary, order: seq<string>)
    requires Mergeable(c, cfg) && Enumerates(order, Merged(c, HooksOf(cfg).value, bin))
    ensures HooksOf(Installed(c, cfg, bin)) == Some(Merged(c, HooksOf(cfg).value, bin))
    ensures multiset(Extracted(c, Merged(c, HooksOf(cfg).value, bin), order)) == multiset(Rendered(c, bin))
  {
    hide Events, Merged, FirstMisfit, Group, MergedEvent;
    HooksOfInstalled(c, cfg, bin);
    ExtractedIsPicked(c, cfg, bin, order);
    EventsAreDistinct(c);
    forall e | e in Events(c)
      ensures e in order
    {
      var h := HooksOf(cfg).value;
      RegisteredFits(c, cfg, e);
      MergedAt(c, h, bin, e);
      EventNormalForm(c, e, At(h, e), bin);
    }
    PickedIsRendered(c, bin, order, Events(c));
  }
}
