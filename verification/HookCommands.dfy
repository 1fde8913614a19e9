/** The user's own commands through a merge or a removal. Whole groups are kept or dropped, so a command
    of the user that shares a group with one of DiffLore's goes with it. */
module HookCommands {
  import opened Wrappers
  import opened JsonValue
  import opened HookGroups
  import opened HookMerge
  import opened HookLaws

  /** The hook entries inside a group. */
  function Entries(g: Json): seq<Json> {
    if g.Obj? && "hooks" in g.fields && g.fields["hooks"].Arr? then g.fields["hooks"].items else []
  }

  /** Those entries that are not DiffLore's, in order. */
  function UserOf(items: seq<Json>, c: Client): seq<Json> {
    if items == [] then []
    else
      var front, last := items[..|items| - 1], items[|items| - 1];
      if IsOurCommand(last, c) then UserOf(front, c) else UserOf(front, c) + [last]
  }

  /** All of the user's entries in a list of groups, in order. */
  function UserEntries(gs: seq<Json>, c: Client): seq<Json> {
    if gs == [] then [] else UserEntries(gs[..|gs| - 1], c) + UserOf(Entries(gs[|gs| - 1]), c)
  }

  function UserAt(v: Option<Json>, c: Client): seq<Json> {
    match v case Some(Arr(gs)) => UserEntries(gs, c) case _ => []
  }

  /** A group of DiffLore's that also holds an entry of the user. */
  predicate Mixed(g: Json, c: Client) { Ours(g, c) && UserOf(Entries(g), c) != [] }

  predicate NoMixed(gs: seq<Json>, c: Client) { forall i :: 0 <= i < |gs| ==> !Mixed(gs[i], c) }

  predicate NoMixedAt(v: Option<Json>, c: Client) { v.Some? && v.value.Arr? ==> NoMixed(v.value.items, c) }

  lemma UserSnoc(gs: seq<Json>, g: Json, c: Client)
    ensures UserEntries(gs + [g], c) == UserEntries(gs, c) + UserOf(Entries(g), c)
  {
    assert (gs + [g])[..|gs|] == gs;
  }

  /** Dropping our groups keeps the user's entries exactly when no group is mixed. */
  lemma {:induction false} TheirsKeepUser(gs: seq<Json>, c: Client)
    ensures |UserEntries(Theirs(gs, c), c)| <= |UserEntries(gs, c)|
    ensures |UserEntries(Theirs(gs, c), c)| == |UserEntries(gs, c)| <==> NoMixed(gs, c)
    ensures UserEntries(Theirs(gs, c), c) == UserEntries(gs, c) <==> NoMixed(gs, c)
  {
    hide Ours, UserOf, Entries;
    if gs != [] {
      var front, last := gs[..|gs| - 1], gs[|gs| - 1];
      TheirsKeepUser(front, c);
      assert gs == front + [last];
      UserSnoc(Theirs(front, c), last, c);
      assert NoMixed(gs, c) <==> NoMixed(front, c) && !Mixed(last, c);
      assert UserEntries(front, c) + [] == UserEntries(front, c);
    }
  }

  /** So does keeping one group that holds no entry of the user. */
  lemma {:induction false} KeepOneKeepsUser(gs: seq<Json>, c: Client, want: Json)
    requires UserOf(Entries(want), c) == []
    ensures UserEntries(KeepOne(gs, c, want), c) == UserEntries(Theirs(gs, c), c)
  {
    hide Ours, UserOf, Entries;
    if gs != [] {
      var front, last := gs[..|gs| - 1], gs[|gs| - 1];
      KeepOneKeepsUser(front, c, want);
      UserSnoc(KeepOne(front, c, want), last, c);
      UserSnoc(Theirs(front, c), last, c);
      assert UserEntries(KeepOne(front, c, want), c) + [] == UserEntries(KeepOne(front, c, want), c);
    }
  }

  lemma RenderedHoldsNoUser(c: Client, event: string, bin: Binary)
    ensures UserOf(Entries(Group(c, event, bin)), c) == []
  {
    hide MatchesClient, HookCommand;
    CommandIsRecognised(bin, c);
    var items := Entries(Group(c, event, bin));
    assert |items| == 1 && items[0].fields["command"] == Str(HookCommand(bin, c));
    assert IsOurCommand(items[0], c);
    assert items[..0] == [];
  }

  lemma SettledKeepsUser(gs: seq<Json>, c: Client, want: Json)
    requires UserOf(Entries(want), c) == []
    ensures UserEntries(Settled(gs, c, want), c) == UserEntries(Theirs(gs, c), c)
    ensures UserEntries(Theirs(gs, c) + [want], c) == UserEntries(Theirs(gs, c), c)
  {
    hide Theirs, KeepOne, UserEntries, UserOf, Entries;
    KeepOneKeepsUser(gs, c, want);
    UserSnoc(KeepOne(gs, c, want), want, c);
    UserSnoc(Theirs(gs, c), want, c);
    var kept := UserEntries(Theirs(gs, c), c);
    assert kept + [] == kept;
  }

  lemma NoUser(c: Client, want: Json)
    requires UserOf(Entries(want), c) == []
    ensures UserEntries([], c) == [] && UserEntries([want], c) == []
  {
    hide UserOf, Entries;
    UserSnoc([], want, c);
    assert [] + [want] == [want];
  }

  /** One event. */
  lemma EventKeepsUser(c: Client, event: string, v: Option<Json>, bin: Binary)
    requires event in Events(c) ==> ListOrAbsent(v)
    ensures UserAt(MergedEvent(c, event, v, bin), c) == UserAt(v, c) <==> NoMixedAt(v, c)
    ensures UserAt(CleanEvent(c, v), c) == UserAt(v, c) <==> NoMixedAt(v, c)
  {
    hide Events, Group, Theirs, Settled, NoMixed, UserEntries, UserOf, Entries;
    var want := Group(c, event, bin);
    RenderedHoldsNoUser(c, event, bin);
    NoUser(c, want);
    match v
    case Some(Arr(gs)) =>
      TheirsKeepUser(gs, c);
      SettledKeepsUser(gs, c, want);
      SameList(gs, c);
    case _ =>
  }

  /** MAIN: a merge keeps every command of the user, event by event and in order, exactly when no group
      mixes one of them with one of DiffLore's. */
  lemma MergeKeepsUserCommands(c: Client, cfg: Object, bin: Binary)
    requires Mergeable(c, cfg)
    ensures var h := HooksOf(cfg).value;
      (forall e :: UserAt(At(Merged(c, h, bin), e), c) == UserAt(At(h, e), c)) <==> (forall e :: NoMixedAt(At(h, e), c))
  {
    hide Events, MergedEvent, Merged, FirstMisfit, UserAt, NoMixedAt;
    var h := HooksOf(cfg).value;
    forall e
      ensures UserAt(At(Merged(c, h, bin), e), c) == UserAt(At(h, e), c) <==> NoMixedAt(At(h, e), c)
    {
      if e in Events(c) {
        RegisteredFits(c, cfg, e);
      }
      MergedAt(c, h, bin, e);
      EventKeepsUser(c, e, At(h, e), bin);
    }
  }

  /** The same for the strip pass of a removal. */
  lemma RemovalKeepsUserCommands(c: Client, h: Object)
    ensures (forall e :: UserAt(At(Cleaned(c, h), e), c) == UserAt(At(h, e), c)) <==> (forall e :: NoMixedAt(At(h, e), c))
  {
    hide CleanEvent, Cleaned, UserAt, NoMixedAt;
    forall e
      ensures UserAt(At(Cleaned(c, h), e), c) == UserAt(At(h, e), c) <==> NoMixedAt(At(h, e), c)
    {
      CleanedAt(c, h, e);
      CleanKeepsUser(c, At(h, e));
    }
  }

  lemma CleanKeepsUser(c: Client, v: Option<Json>)
    ensures UserAt(CleanEvent(c, v), c) == UserAt(v, c) <==> NoMixedAt(v, c)
  {
    hide Theirs, NoMixed, UserEntries;
    match v
    case Some(Arr(gs)) =>
      TheirsKeepUser(gs, c);
      NothingOfTheUser(c);
    case _ =>
  }

  lemma NothingOfTheUser(c: Client)
    ensures UserEntries([], c) == []
  {
  }

  /** A user's entry behind DiffLore's in one group: under any event the merge drops it. */
  lemma SharedGroupLosesTheUser(c: Client, event: string, bin: Binary, ours: Json, user: Json)
    requires IsOurCommand(ours, c) && !IsOurCommand(user, c)
    ensures var v := Some(Arr([Obj(map["hooks" := Arr([ours, user])])]));
      UserAt(v, c) == [user] && UserAt(MergedEvent(c, event, v, bin), c) == []
  {
    hide Group, Settled, Theirs, Events, IsOurCommand;
    var g := Obj(map["hooks" := Arr([ours, user])]);
    var want := Group(c, event, bin);
    SharedEntries(c, g, ours, user);
    OnlyOurs(c, g);
    RenderedHoldsNoUser(c, event, bin);
    SettledKeepsUser([g], c, want);
    NoUser(c, want);
  }

  lemma SharedEntries(c: Client, g: Json, ours: Json, user: Json)
    requires IsOurCommand(ours, c) && !IsOurCommand(user, c) && g == Obj(map["hooks" := Arr([ours, user])])
    ensures UserEntries([g], c) == [user] && Ours(g, c)
  {
    hide IsOurCommand;
    UserOfSnoc([], ours, c);
    UserOfSnoc([ours], user, c);
    assert [] + [ours] == [ours] && [ours] + [user] == [ours, user] && [] + [user] == [user];
    assert Entries(g) == [ours, user];
    UserSnoc([], g, c);
    assert [] + [g] == [g];
    assert IsOurCommand(g.fields["hooks"].items[0], c);
  }

  lemma UserOfSnoc(items: seq<Json>, x: Json, c: Client)
    ensures UserOf(items + [x], c) == if IsOurCommand(x, c) then UserOf(items, c) else UserOf(items, c) + [x]
  {
    hide IsOurCommand;
    assert (items + [x])[..|items|] == items;
  }

  lemma OnlyOurs(c: Client, g: Json)
    requires Ours(g, c)
    ensures Theirs([g], c) == []
  {
    hide Ours;
    assert [g][..0] == [];
  }
}
