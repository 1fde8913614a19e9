/** Which repository aliases apply to a path: a string prefix test that stands for a test on path
    components, and the choice of the longest root. */
module RepoAliases {
  import opened Sorting

  // ---- Paths as strings and as components -------------------------------------------------------------------

  predicate StartsWith(s: string, prefix: string) { |prefix| <= |s| && s[..|prefix|] == prefix }

  /** `path_is_inside_root`. */
  predicate Inside(path: string, root: string) {
    path == root || (StartsWith(path, root) && |root| < |path| && path[|root|] == '/')
  }

  /** `split('/')`. */
  function Components(s: string): (r: seq<string>)
    ensures r != []
  {
    if s == "" then [""]
    else if s[0] == '/' then [""] + Components(s[1..])
    else
      var rest := Components(s[1..]);
      [[s[0]] + rest[0]] + rest[1..]
  }

  function Joined(parts: seq<string>): string
    requires parts != []
  {
    if |parts| == 1 then parts[0] else parts[0] + "/" + Joined(parts[1..])
  }

  predicate IsPrefix<T(==)>(a: seq<T>, b: seq<T>) { |a| <= |b| && b[..|a|] == a }

  lemma {:induction false} ComponentsOfJoin(a: string, b: string)
    ensures Components(a + "/" + b) == Components(a) + Components(b)
  {
    if a == "" {
      assert ("" + "/" + b)[1..] == b;
    } else {
      assert (a + "/" + b)[1..] == a[1..] + "/" + b;
      ComponentsOfJoin(a[1..], b);
    }
  }

  lemma {:induction false} JoinedOfComponents(s: string)
    ensures Joined(Components(s)) == s
  {
    if s != "" {
      JoinedOfComponents(s[1..]);
      var rest := Components(s[1..]);
      if s[0] == '/' {
        assert ([""] + rest)[1..] == rest;
        assert "" + "/" + s[1..] == s;
      } else {
        var all := [[s[0]] + rest[0]] + rest[1..];
        assert all[1..] == rest[1..];
        assert s == [s[0]] + s[1..];
        if |rest| > 1 {
          assert [s[0]] + rest[0] + "/" + Joined(rest[1..]) == [s[0]] + (rest[0] + "/" + Joined(rest[1..]));
        }
      }
    }
  }

  lemma {:induction false} JoinedAppend(a: seq<string>, b: seq<string>)
    requires a != [] && b != []
    ensures Joined(a + b) == Joined(a) + "/" + Joined(b)
  {
    if |a| == 1 {
      assert (a + b)[1..] == b;
    } else {
      assert (a + b)[1..] == a[1..] + b;
      JoinedAppend(a[1..], b);
    }
  }

  /** MAIN: for all strings, the slash prefix test is the prefix test on components. */
  lemma InsideIffComponentPrefix(path: string, root: string)
    ensures Inside(path, root) <==> IsPrefix(Components(root), Components(path))
  {
    hide Components, Joined;
    if Inside(path, root) && path != root {
      var rest := path[|root| + 1..];
      assert path == root + "/" + rest;
      ComponentsOfJoin(root, rest);
    }
    if IsPrefix(Components(root), Components(path)) {
      JoinedOfComponents(path);
      JoinedOfComponents(root);
      var rest := Components(path)[|Components(root)|..];
      assert Components(path) == Components(root) + rest;
      if rest != [] {
        JoinedAppend(Components(root), rest);
        assert path == root + "/" + Joined(rest);
      } else {
        assert Components(root) + [] == Components(root);
      }
    }
  }

  // ---- The filesystem root ---------------------------------------------------------------------------------------

  /** What `normalize_local_path` returns for an absolute path: `/` itself, or a slash before each of
      one or more nonempty names. */
  predicate Normal(path: string) {
    || path == "/"
    || (Components(path)[0] == "" && |Components(path)| > 1 && forall i :: 1 <= i < |Components(path)| ==> Components(path)[i] != "")
  }

  /** The names on the way from the filesystem root. */
  function Names(path: string): seq<string> { if path == "/" then [] else Components(path)[1..] }

  lemma RootComponents()
    ensures Components("/") == ["", ""]
  {
    assert "/"[1..] == "";
  }

  /** For normalised paths the test is containment of directories, but for one root: everything lies
      under `/`, and the test denies it for every path but `/` itself. */
  lemma RootContainsOnlyItself(path: string, root: string)
    requires Normal(path) && Normal(root)
    ensures (Inside(path, root) <==> IsPrefix(Names(root), Names(path))) <==> root != "/" || path == "/"
    ensures Inside(path, "/") <==> path == "/"
  {
    hide Components;
    RootComponents();
    InsideIffComponentPrefix(path, root);
    InsideIffComponentPrefix(path, "/");
    var p, r := Components(path), Components(root);
    if path != "/" {
      PrefixAt(["", ""], p, 1);
      if root != "/" {
        TailPrefix(r, p);
      }
    } else if root != "/" {
      PrefixAt(r, ["", ""], 1);
    }
  }

  lemma PrefixAt(a: seq<string>, b: seq<string>, i: nat)
    requires i < |a|
    ensures IsPrefix(a, b) ==> i < |b| && b[i] == a[i]
  {
    if IsPrefix(a, b) {
      assert b[i] == b[..|a|][i];
    }
  }

  lemma TailPrefix(a: seq<string>, b: seq<string>)
    requires a != [] && b != [] && a[0] == b[0]
    ensures IsPrefix(a, b) <==> IsPrefix(a[1..], b[1..])
  {
    if IsPrefix(a, b) {
      assert b[1..][..|a| - 1] == b[..|a|][1..];
    }
    if IsPrefix(a[1..], b[1..]) {
      assert b[1..][..|a| - 1] == b[1..|a|];
      assert b[..|a|] == [b[0]] + b[1..|a|];
      assert a == [a[0]] + a[1..];
    }
  }

  // ---- Choosing aliases -----------------------------------------------------------------------------------------

  datatype Alias = Alias(root: string, scope: string)

  /** The comparison that `aliases_for_path` sorts by: longer roots first, then by scope. */
  predicate InOrder(a: Alias, b: Alias) {
    |a.root| > |b.root| || (|a.root| == |b.root| && AtMost(a.scope, b.scope))
  }

  /** The aliases whose root contains the path. */
  function Matching(aliases: seq<Alias>, path: string): seq<Alias> {
    if aliases == [] then []
    else
      var front, last := aliases[..|aliases| - 1], aliases[|aliases| - 1];
      if Inside(path, last.root) then Matching(front, path) + [last] else Matching(front, path)
  }

  function WithRootLength(aliases: seq<Alias>, n: nat): seq<Alias> {
    if aliases == [] then []
    else
      var front, last := aliases[..|aliases| - 1], aliases[|aliases| - 1];
      if |last.root| == n then WithRootLength(front, n) + [last] else WithRootLength(front, n)
  }

  lemma InOrderTotal()
    ensures Total(InOrder)
  {
    forall a, b
      ensures InOrder(a, b) || InOrder(b, a)
    {
      AtMostTotal(a.scope, b.scope);
    }
  }

  /** An alias applies to a path when its root contains the path and no other root that does is longer. */
  predicate Applies(aliases: seq<Alias>, path: string, a: Alias) {
    && a in aliases && Inside(path, a.root)
    && forall b :: b in aliases && Inside(path, b.root) ==> |b.root| <= |a.root|
  }

  lemma {:induction false} MatchingIs(aliases: seq<Alias>, path: string, a: Alias)
    ensures multiset(Matching(aliases, path))[a] == if Inside(path, a.root) then multiset(aliases)[a] else 0
  {
    hide Inside;
    if aliases != [] {
      MatchingIs(aliases[..|aliases| - 1], path, a);
      assert aliases == aliases[..|aliases| - 1] + [aliases[|aliases| - 1]];
    }
  }

  lemma {:induction false} WithRootLengthIs(aliases: seq<Alias>, n: nat, a: Alias)
    ensures multiset(WithRootLength(aliases, n))[a] == if |a.root| == n then multiset(aliases)[a] else 0
  {
    if aliases != [] {
      WithRootLengthIs(aliases[..|aliases| - 1], n, a);
      assert aliases == aliases[..|aliases| - 1] + [aliases[|aliases| - 1]];
    }
  }

  lemma {:induction false} FirstIsLongest(s: seq<Alias>, i: nat)
    requires Ordered(s, InOrder) && i < |s|
    ensures |s[i].root| <= |s[0].root|
  {
    if i > 0 {
      FirstIsLongest(s, i - 1);
      assert InOrder(s[i - 1], s[i - 1 + 1]);
    }
  }

  /** Two roots of one length that contain the same path are one root. */
  lemma SameRoot(path: string, a: string, b: string)
    requires Inside(path, a) && Inside(path, b) && |a| == |b|
    ensures a == b
  {
    assert a == path[..|a|] && b == path[..|b|];
  }

  /** MAIN: `aliases_for_path` returns exactly the aliases that apply, each as often as it is stored;
      they all have one and the same root, and they come by scope. */
  method AliasesForPath(aliases: seq<Alias>, path: string) returns (out: seq<Alias>)
    ensures forall a :: multiset(out)[a] == if Applies(aliases, path, a) then multiset(aliases)[a] else 0
    ensures forall i, j :: 0 <= i < |out| && 0 <= j < |out| ==> out[i].root == out[j].root
    ensures forall i :: 0 <= i < |out| - 1 ==> AtMost(out[i].scope, out[i + 1].scope)
    ensures out == [] <==> forall a :: a in aliases ==> !Inside(path, a.root)
  {
    var matches := Matching(aliases, path);
    InOrderTotal();
    out := Sort(matches, InOrder);
    ghost var sorted := out;
    if |out| > 0 {
      out := WithRootLength(out, |out[0].root|);
    }
    Chosen(aliases, path, sorted, out);
  }

  lemma Chosen(aliases: seq<Alias>, path: string, sorted: seq<Alias>, out: seq<Alias>)
    requires Ordered(sorted, InOrder) && multiset(sorted) == multiset(Matching(aliases, path))
    requires out == if sorted == [] then [] else WithRootLength(sorted, |sorted[0].root|)
    ensures forall a :: multiset(out)[a] == if Applies(aliases, path, a) then multiset(aliases)[a] else 0
    ensures forall i, j :: 0 <= i < |out| && 0 <= j < |out| ==> out[i].root == out[j].root
    ensures forall i :: 0 <= i < |out| - 1 ==> AtMost(out[i].scope, out[i + 1].scope)
    ensures out == [] <==> forall a :: a in aliases ==> !Inside(path, a.root)
  {
    hide Inside, Matching, WithRootLength, AtMost, Ordered;
    assert forall a :: multiset(out)[a] == if Applies(aliases, path, a) then multiset(aliases)[a] else 0 by {
      forall a
        ensures multiset(out)[a] == if Applies(aliases, path, a) then multiset(aliases)[a] else 0
      {
        ChosenCount(aliases, path, sorted, out, a);
      }
    }
    forall i, j | 0 <= i < |out| && 0 <= j < |out|
      ensures out[i].root == out[j].root
    {
      ChosenMember(aliases, path, sorted, out, out[i]);
      ChosenMember(aliases, path, sorted, out, out[j]);
      SameRoot(path, out[i].root, out[j].root);
    }
    if sorted != [] {
      LengthKeepsOrder(sorted, |sorted[0].root|);
    }
    ChosenNone(aliases, path, sorted, out);
  }

  lemma InMatching(aliases: seq<Alias>, path: string, sorted: seq<Alias>, a: Alias)
    requires multiset(sorted) == multiset(Matching(aliases, path))
    ensures a in sorted <==> a in aliases && Inside(path, a.root)
    ensures multiset(sorted)[a] == if Inside(path, a.root) then multiset(aliases)[a] else 0
  {
    hide Inside, Matching;
    MatchingIs(aliases, path, a);
    assert a in sorted <==> a in multiset(sorted);
    assert a in aliases <==> a in multiset(aliases);
  }

  lemma ChosenCount(aliases: seq<Alias>, path: string, sorted: seq<Alias>, out: seq<Alias>, a: Alias)
    requires Ordered(sorted, InOrder) && multiset(sorted) == multiset(Matching(aliases, path))
    requires out == if sorted == [] then [] else WithRootLength(sorted, |sorted[0].root|)
    ensures multiset(out)[a] == if Applies(aliases, path, a) then multiset(aliases)[a] else 0
  {
    hide Inside, Matching, WithRootLength, Ordered;
    InMatching(aliases, path, sorted, a);
    if sorted != [] {
      var top := sorted[0];
      InMatching(aliases, path, sorted, top);
      WithRootLengthIs(sorted, |top.root|, a);
      forall b | b in aliases && Inside(path, b.root)
        ensures |b.root| <= |top.root|
      {
        InMatching(aliases, path, sorted, b);
        var i :| 0 <= i < |sorted| && sorted[i] == b;
        FirstIsLongest(sorted, i);
      }
    }
  }

  lemma ChosenMember(aliases: seq<Alias>, path: string, sorted: seq<Alias>, out: seq<Alias>, a: Alias)
    requires Ordered(sorted, InOrder) && multiset(sorted) == multiset(Matching(aliases, path))
    requires out == if sorted == [] then [] else WithRootLength(sorted, |sorted[0].root|)
    requires a in out
    ensures sorted != [] && Inside(path, a.root) && |a.root| == |sorted[0].root|
  {
    hide Inside, Matching, WithRootLength, Ordered;
    InMatching(aliases, path, sorted, a);
    WithRootLengthIs(sorted, |sorted[0].root|, a);
    assert a in multiset(out);
  }

  lemma ChosenNone(aliases: seq<Alias>, path: string, sorted: seq<Alias>, out: seq<Alias>)
    requires multiset(sorted) == multiset(Matching(aliases, path))
    requires out == if sorted == [] then [] else WithRootLength(sorted, |sorted[0].root|)
    ensures out == [] <==> forall a :: a in aliases ==> !Inside(path, a.root)
  {
    hide Inside, Matching, WithRootLength;
    if sorted == [] {
      forall a | a in aliases
        ensures !Inside(path, a.root)
      {
        InMatching(aliases, path, sorted, a);
      }
    } else {
      var top := sorted[0];
      InMatching(aliases, path, sorted, top);
      WithRootLengthIs(sorted, |top.root|, top);
      assert top in multiset(sorted);
      assert top in multiset(out);
    }
  }

  lemma {:induction false} LengthKeepsOrder(s: seq<Alias>, n: nat)
    requires Ordered(s, InOrder)
    ensures var r := WithRootLength(s, n);
      && (forall i :: 0 <= i < |r| - 1 ==> AtMost(r[i].scope, r[i + 1].scope))
      && (forall i :: 0 <= i < |r| ==> |r[i].root| == n)
      && (r != [] && |s[|s| - 1].root| >= n ==> r[|r| - 1] == s[|s| - 1])
  {
    hide AtMost;
    if s != [] {
      var front, last := s[..|s| - 1], s[|s| - 1];
      LengthKeepsOrder(front, n);
      if front != [] {
        assert InOrder(s[|s| - 2], s[|s| - 2 + 1]);
      }
    }
  }
}
