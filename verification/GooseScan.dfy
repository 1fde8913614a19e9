/** Which line the scanners pick, said without a scan: the first `difflore:` key that is a child of a
    top-level `mcpServers:` section, at the indent of that section's first child. */
module GooseScan {
  import opened Wrappers
  import opened Text
  import opened GooseYaml

  /** The last of the first `n` lines that is a top-level key. */
  function LastKey(ls: seq<string>, n: nat): (h: Option<nat>)
    requires n <= |ls|
    ensures h.Some? ==> h.value < n && TopLevelKey(ls[h.value]).Some?
    ensures forall j :: (if h.Some? then h.value + 1 else 0) <= j < n ==> TopLevelKey(ls[j]).None?
  {
    if n == 0 then None
    else if TopLevelKey(ls[n - 1]).Some? then Some(n - 1)
    else LastKey(ls, n - 1)
  }

  /** The first line in `ls[from..to]` that can be a child of a section. */
  function FirstChild(ls: seq<string>, from: nat, to: nat): (c: Option<nat>)
    requires from <= to <= |ls|
    ensures c.Some? ==> from <= c.value < to && ChildIndentOf(ls[c.value]).Some?
    ensures forall j :: from <= j < (if c.Some? then c.value else to) ==> ChildIndentOf(ls[j]).None?
  {
    if from == to then None
    else
      var front := FirstChild(ls, from, to - 1);
      if front.Some? then front
      else if ChildIndentOf(ls[to - 1]).Some? then Some(to - 1)
      else None
  }

  /** The child indent of the section that line `k` lies in, if it lies in one and a child was seen. */
  function SectionIndent(ls: seq<string>, k: nat): Option<nat>
    requires k <= |ls|
  {
    var h := LastKey(ls, k);
    if h.None? || !IsSectionHeader(ls[h.value]) then None
    else
      var c := FirstChild(ls, h.value + 1, k);
      if c.None? then None else ChildIndentOf(ls[c.value])
  }

  /** Line `k` is our key, as a child of the section. */
  predicate IsOurKey(ls: seq<string>, k: nat)
    requires k < |ls|
  {
    && TopLevelKey(ls[k]).None?
    && SectionIndent(ls, k + 1).Some?
    && IsIndentedKey(ls[k], KEY, SectionIndent(ls, k + 1).value)
  }

  /** The scanner variables after the first `n` lines. */
  function State(ls: seq<string>, n: nat): Scan
    requires n <= |ls|
  {
    if n == 0 then START else Look(State(ls, n - 1), ls[n - 1])
  }

  lemma {:induction false} StateMeans(ls: seq<string>, n: nat)
    requires n <= |ls|
    ensures State(ls, n).inSection <==> LastKey(ls, n).Some? && IsSectionHeader(ls[LastKey(ls, n).value])
    ensures State(ls, n).inSection ==> State(ls, n).childIndent == SectionIndent(ls, n)
  {
    hide TopLevelKey, TopLevelBlockKey, ChildIndentOf;
    if n > 0 {
      StateMeans(ls, n - 1);
    }
  }

  lemma HitMeans(ls: seq<string>, k: nat)
    requires k < |ls|
    ensures IsHit(State(ls, k), ls[k]) <==> IsOurKey(ls, k)
    ensures IsHit(State(ls, k), ls[k]) ==>
      Look(State(ls, k), ls[k]).childIndent.Some? && Look(State(ls, k), ls[k]).childIndent == SectionIndent(ls, k + 1)
  {
    hide TopLevelKey, TopLevelBlockKey, ChildIndentOf, IsIndentedKey, IsSectionHeader;
    StateMeans(ls, k + 1);
  }

  lemma {:induction false} FindMeans(ls: seq<string>, i: nat)
    requires i <= |ls|
    ensures var b := FindBlock(ls, i, State(ls, i));
      && (b.Some? ==> IsOurKey(ls, b.value.at) && SectionIndent(ls, b.value.at + 1) == Some(b.value.indent))
      && (forall j :: i <= j < (if b.Some? then b.value.at else |ls|) ==> !IsOurKey(ls, j))
    decreases |ls| - i
  {
    hide IsHit, Look, IsOurKey, SectionIndent;
    if i < |ls| {
      HitMeans(ls, i);
      StateStep(ls, i);
      if !IsHit(State(ls, i), ls[i]) {
        FindMeans(ls, i + 1);
      }
    }
  }

  lemma StateStep(ls: seq<string>, i: nat)
    requires i < |ls|
    ensures State(ls, i + 1) == Look(State(ls, i), ls[i])
  {
  }

  /** The located line is the first one that is our key. */
  lemma LocatedIsFirstKey(ls: seq<string>)
    ensures var b := Located(ls);
      && (b.Some? ==> IsOurKey(ls, b.value.at) && SectionIndent(ls, b.value.at + 1) == Some(b.value.indent))
      && (forall j :: 0 <= j < (if b.Some? then b.value.at else |ls|) ==> !IsOurKey(ls, j))
  {
    hide IsOurKey, SectionIndent;
    FindMeans(ls, 0);
  }

  /** MAIN: on every text the four scanners agree. They all succeed exactly when some line is our key;
      they all pick the first such line and the same end of its block; and the two rewriters leave
      everything before that line and everything behind the block as it is. */
  lemma ScannersAgree(yaml: string, bin: string)
    ensures var ls := SplitInclusive(yaml);
      match Located(ls)
      case None =>
        && (forall k :: 0 <= k < |ls| ==> !IsOurKey(ls, k))
        && Replaced(yaml, bin).Err? && Removed(yaml).Err? && LocatedLines(yaml) == [] && Extracted(yaml).None?
      case Some(Block(k, indent)) =>
        && IsOurKey(ls, k) && SectionIndent(ls, k + 1) == Some(indent)
        && (forall j :: 0 <= j < k ==> !IsOurKey(ls, j))
        && var e := BlockEnd(ls, k + 1, indent);
           && Replaced(yaml, bin) == Ok(Concat(ls[..k]) + RenderBlock(bin, indent) + Concat(ls[e..]))
           && Removed(yaml) == Ok(Concat(ls[..k]) + Concat(ls[e..]))
           && LocatedLines(yaml) == Lines(yaml)[k..e] && LocatedLines(yaml) != [] && Extracted(yaml).Some?
  {
    hide IsOurKey, SectionIndent, FindBlock, Concat, BlockRows, RenderBlock, SplitInclusive, StripAll, BlockEnd, Normalised;
    var ls := SplitInclusive(yaml);
    LocatedIsFirstKey(ls);
    if Located(ls).Some? {
      var b := Located(ls).value;
      RowsRender(bin, b.indent);
      CutAround(ls, b.at, BlockRows(bin, b.indent), BlockEnd(ls, b.at + 1, b.indent));
      assert |LocatedLines(yaml)| > 0;
    }
  }

  lemma CutAround(ls: seq<string>, at: nat, rows: seq<string>, e: nat)
    requires at <= e <= |ls|
    ensures Concat(ls[..at] + ls[e..]) == Concat(ls[..at]) + Concat(ls[e..])
    ensures Concat(ls[..at] + rows + ls[e..]) == Concat(ls[..at]) + Concat(rows) + Concat(ls[e..])
  {
    hide Concat;
    ConcatAppend(ls[..at], ls[e..]);
    ConcatAppend(ls[..at] + rows, ls[e..]);
    ConcatAppend(ls[..at], rows);
  }
}
