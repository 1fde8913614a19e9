/** The deterministic sample of the self-recall evaluation: rules at even strides over the corpus,
    topped up in order when a rule has nothing to ask. */
module EvalSampling {
  import opened Wrappers

  datatype Rule = Rule(skillId: string, content: string, language: Option<string>)

  datatype Sample = Sample(skillId: string, query: string, language: Option<string>)

  /** `self_recall_query`, left open. */
  type Distil = string -> string

  // ---- Strides ------------------------------------------------------------------------------------------------

  /** The rule index of the `i`-th of `k` strides over `n` rules. */
  function Stride(i: nat, n: nat, k: nat): nat
    requires 0 < k <= n
  {
    if k == 1 then 0 else i * (n - 1) / (k - 1)
  }

  /** Adding `q * b + r` to a number moves its quotient by `q` or `q + 1`. */
  lemma QuotientMoves(x: nat, q: nat, r: nat, b: nat)
    requires r < b
    ensures q <= (x + q * b + r) / b - x / b <= q + 1
  {
    var y := x / b;
    var s := x % b;
    assert x == y * b + s;
    var t := s + r;
    assert x + q * b + r == (y + q) * b + t;
    if t < b {
      Quotient(y + q, t, b);
    } else {
      assert (y + q) * b + t == (y + q + 1) * b + (t - b);
      Quotient(y + q + 1, t - b, b);
    }
  }

  lemma Quotient(q: nat, r: nat, b: nat)
    requires r < b
    ensures (q * b + r) / b == q
  {
    var x := q * b + r;
    var d := x / b - q;
    assert x == (x / b) * b + x % b;
    assert d * b == r - x % b;
    Multiples(d, b);
  }

  lemma Multiples(d: int, b: int)
    requires b > 0
    ensures d >= 1 ==> d * b >= b
    ensures d <= -1 ==> d * b <= -b
  {
    if d >= 1 {
      assert (d - 1) * b >= 0;
    } else if d <= -1 {
      assert (-d - 1) * b >= 0;
    }
  }

  /** MAIN: neighbouring strides are the same whole number of rules apart, or one more, and at least one. */
  lemma StrideGap(i: nat, n: nat, k: nat)
    requires 1 < k <= n
    ensures var q := (n - 1) / (k - 1);
      1 <= q <= Stride(i + 1, n, k) - Stride(i, n, k) <= q + 1
  {
    var a, b := n - 1, k - 1;
    var q, r := a / b, a % b;
    assert (i + 1) * a == i * a + q * b + r;
    QuotientMoves(i * a, q, r, b);
    assert a == q * b + r && (q == 0 ==> q * b == 0);
  }

  lemma {:induction false} StrideIncreases(i: nat, j: nat, n: nat, k: nat)
    requires 0 < k <= n && i < j < k
    ensures Stride(i, n, k) < Stride(j, n, k)
    decreases j
  {
    StrideGap(j - 1, n, k);
    if i < j - 1 {
      StrideIncreases(i, j - 1, n, k);
    }
  }

  /** The first and the last rule are among the strides, and every stride is a rule. */
  lemma StrideEnds(i: nat, n: nat, k: nat)
    requires 0 < k <= n && i < k
    ensures Stride(0, n, k) == 0
    ensures k > 1 ==> Stride(k - 1, n, k) == n - 1
    ensures Stride(i, n, k) < n
  {
    if k > 1 {
      Quotient(n - 1, 0, k - 1);
      assert (k - 1) * (n - 1) == (n - 1) * (k - 1) + 0;
      if i < k - 1 {
        StrideIncreases(i, k - 1, n, k);
      }
    }
  }

  // ---- The order in which rules are tried --------------------------------------------------------------------------

  predicate Distinct(s: seq<nat>) { forall i, j :: 0 <= i < j < |s| ==> s[i] != s[j] }

  function Strides(n: nat, k: nat, m: nat): (r: seq<nat>)
    requires 0 < k <= n && m <= k
    ensures |r| == m && forall i :: 0 <= i < m ==> r[i] == Stride(i, n, k)
  {
    seq(m, i requires 0 <= i < m => Stride(i, n, k))
  }

  /** The indices below `m` that are no stride. */
  function Others(n: nat, k: nat, m: nat): seq<nat>
    requires 0 < k <= n
  {
    if m == 0 then []
    else if m - 1 in Strides(n, k, k) then Others(n, k, m - 1)
    else Others(n, k, m - 1) + [m - 1]
  }

  function Order(n: nat, k: nat): seq<nat>
    requires 0 < k <= n
  {
    Strides(n, k, k) + Others(n, k, n)
  }

  lemma {:induction false} OthersAre(n: nat, k: nat, m: nat)
    requires 0 < k <= n
    ensures forall j: nat :: j in Others(n, k, m) <==> j < m && j !in Strides(n, k, k)
    ensures Distinct(Others(n, k, m))
  {
    hide Strides;
    if m > 0 {
      OthersAre(n, k, m - 1);
      DistinctSnoc(Others(n, k, m - 1), m - 1);
    }
  }

  lemma DistinctSnoc(s: seq<nat>, x: nat)
    requires Distinct(s)
    ensures x !in s ==> Distinct(s + [x])
  {
  }

  lemma StridesAreDistinct(n: nat, k: nat, m: nat)
    requires 0 < k <= n && m <= k
    ensures Distinct(Strides(n, k, m))
    ensures forall j: nat :: j in Strides(n, k, m) ==> j < n
  {
    forall i, j | 0 <= i < j < m
      ensures Stride(i, n, k) != Stride(j, n, k)
    {
      StrideIncreases(i, j, n, k);
    }
    forall i | 0 <= i < m
      ensures Stride(i, n, k) < n
    {
      StrideEnds(i, n, k);
    }
  }

  /** Every rule is tried exactly once. */
  lemma OrderIsPermutation(n: nat, k: nat)
    requires 0 < k <= n
    ensures Distinct(Order(n, k))
    ensures forall j: nat :: j in Order(n, k) <==> j < n
  {
    hide Stride;
    StridesAreDistinct(n, k, k);
    OthersAre(n, k, n);
    var a, b := Strides(n, k, k), Others(n, k, n);
    forall i, j | 0 <= i < |a| && 0 <= j < |b|
      ensures a[i] != b[j]
    {
      assert a[i] in a && b[j] in b;
    }
  }

  /** The two index loops of `build_samples`. */
  method BuildOrder(n: nat, k: nat) returns (indices: seq<nat>)
    requires 0 < k <= n
    ensures indices == Order(n, k)
  {
    hide Stride;
    indices := [];
    for i := 0 to k
      invariant indices == Strides(n, k, i)
    {
      var index := Stride(i, n, k);
      StridesAreDistinct(n, k, i + 1);
      NextStrideIsNew(n, k, i);
      if index !in indices {
        indices := indices + [index];
      }
    }
    assert indices + [] == indices;
    for index := 0 to n
      invariant indices == Strides(n, k, k) + Others(n, k, index)
    {
      OthersAre(n, k, index);
      if index !in indices {
        indices := indices + [index];
      }
    }
  }

  lemma NextStrideIsNew(n: nat, k: nat, i: nat)
    requires 0 < k <= n && i < k
    ensures Stride(i, n, k) !in Strides(n, k, i)
    ensures Strides(n, k, i + 1) == Strides(n, k, i) + [Stride(i, n, k)]
  {
    hide Stride;
    forall j | 0 <= j < i
      ensures Strides(n, k, i)[j] != Stride(i, n, k)
    {
      StrideIncreases(j, i, n, k);
    }
  }

  // ---- Samples ----------------------------------------------------------------------------------------------------

  predicate Asks(rules: seq<Rule>, distil: Distil, j: nat) { j < |rules| && distil(rules[j].content) != "" }

  /** Of the first `m` indices in the order, those whose rule has a query. */
  function Asking(rules: seq<Rule>, distil: Distil, order: seq<nat>, m: nat): seq<nat>
    requires m <= |order|
  {
    if m == 0 then []
    else if Asks(rules, distil, order[m - 1]) then Asking(rules, distil, order, m - 1) + [order[m - 1]]
    else Asking(rules, distil, order, m - 1)
  }

  function FirstUpTo(s: seq<nat>, k: nat): seq<nat> { if |s| <= k then s else s[..k] }

  /** The positions sampled. */
  function Positions(rules: seq<Rule>, distil: Distil, target: nat): seq<nat> {
    if rules == [] || target == 0 then []
    else
      var k := if target < |rules| then target else |rules|;
      FirstUpTo(Asking(rules, distil, Order(|rules|, k), |Order(|rules|, k)|), k)
  }

  function SampleOf(r: Rule, distil: Distil): Sample { Sample(r.skillId, distil(r.content), r.language) }

  /** `build_samples`. */
  method BuildSamples(rules: seq<Rule>, target: nat, distil: Distil) returns (samples: seq<Sample>)
    ensures |samples| == |Positions(rules, distil, target)|
    ensures forall i :: 0 <= i < |samples| ==>
      var p := Positions(rules, distil, target)[i];
      && p < |rules| && samples[i].skillId == rules[p].skillId
      && samples[i].query == distil(rules[p].content) && samples[i].language == rules[p].language
  {
    hide Order;
    samples := [];
    if rules == [] || target == 0 {
      return;
    }
    var k := if target < |rules| then target else |rules|;
    var indices := BuildOrder(|rules|, k);
    OrderIsPermutation(|rules|, k);
    ghost var taken: seq<nat> := [];
    var i := 0;
    while i < |indices| && |samples| < k
      invariant i <= |indices| && |samples| <= k
      invariant taken == Asking(rules, distil, indices, i) && |samples| == |taken|
      invariant forall j :: 0 <= j < |taken| ==> taken[j] < |rules| && samples[j] == SampleOf(rules[taken[j]], distil)
    {
      assert indices[i] in indices;
      var rule := rules[indices[i]];
      var query := distil(rule.content);
      if query != "" {
        samples := samples + [Sample(rule.skillId, query, rule.language)];
        taken := taken + [indices[i]];
      }
      i := i + 1;
    }
    AskingGrows(rules, distil, indices, i);
  }

  lemma {:induction false} AskingGrows(rules: seq<Rule>, distil: Distil, order: seq<nat>, m: nat)
    requires m <= |order|
    ensures var a, b := Asking(rules, distil, order, m), Asking(rules, distil, order, |order|);
      |a| <= |b| && b[..|a|] == a
    decreases |order| - m
  {
    if m < |order| {
      AskingGrows(rules, distil, order, m + 1);
      var a, c := Asking(rules, distil, order, m), Asking(rules, distil, order, m + 1);
      assert c[..|a|] == a;
      assert Asking(rules, distil, order, |order|)[..|a|] == Asking(rules, distil, order, |order|)[..|c|][..|a|];
    } else {
      assert Asking(rules, distil, order, m)[..|Asking(rules, distil, order, m)|] == Asking(rules, distil, order, m);
    }
  }

  lemma {:induction false} AskingIs(rules: seq<Rule>, distil: Distil, order: seq<nat>, m: nat)
    requires m <= |order| && Distinct(order)
    ensures var a := Asking(rules, distil, order, m);
      && Distinct(a)
      && (forall j :: j in a <==> j in order[..m] && Asks(rules, distil, j))
  {
    hide Asks;
    if m > 0 {
      AskingIs(rules, distil, order, m - 1);
      assert order[..m] == order[..m - 1] + [order[m - 1]];
      var a := Asking(rules, distil, order, m - 1);
      assert forall i :: 0 <= i < |a| ==> a[i] in a;
      assert order[m - 1] !in order[..m - 1];
    }
  }

  lemma {:induction false} DistinctSize(s: seq<nat>, elements: set<nat>)
    requires Distinct(s) && forall j :: j in s <==> j in elements
    ensures |s| == |elements|
  {
    if s == [] {
      assert elements == {};
    } else {
      var front, last := s[..|s| - 1], s[|s| - 1];
      assert s == front + [last];
      assert last !in front;
      DistinctSize(front, elements - {last});
    }
  }

  /** The rules that have a query. */
  function Askers(rules: seq<Rule>, distil: Distil): set<nat> { set j | 0 <= j < |rules| && Asks(rules, distil, j) }

  /** MAIN: as many positions are sampled as asked for, or all rules that have a query when there are
      fewer; no position twice, and none without a query. */
  lemma SampleCount(rules: seq<Rule>, distil: Distil, target: nat)
    ensures var ps, all := Positions(rules, distil, target), |Askers(rules, distil)|;
      && |ps| == (if target < all then target else all)
      && Distinct(ps)
      && (forall i :: 0 <= i < |ps| ==> ps[i] in Askers(rules, distil))
  {
    hide Order, Asks;
    if rules == [] {
      assert Askers(rules, distil) == {};
    } else if target != 0 {
      var k := if target < |rules| then target else |rules|;
      var order := Order(|rules|, k);
      OrderIsPermutation(|rules|, k);
      AskingIs(rules, distil, order, |order|);
      assert order[..|order|] == order;
      var a := Asking(rules, distil, order, |order|);
      AsksInRange(rules, distil);
      DistinctSize(a, Askers(rules, distil));
      AtMostAll(rules, distil);
      assert forall i :: 0 <= i < |a| ==> a[i] in a;
    }
  }

  lemma AsksInRange(rules: seq<Rule>, distil: Distil)
    ensures forall j: nat :: Asks(rules, distil, j) ==> j < |rules|
  {
  }

  lemma AtMostAll(rules: seq<Rule>, distil: Distil)
    ensures |Askers(rules, distil)| <= |rules|
  {
    var s: seq<nat> := seq(|rules|, i requires 0 <= i < |rules| => i);
    var all := set j | j in s;
    forall j | j in Askers(rules, distil)
      ensures j in all
    {
      assert s[j] == j;
    }
    DistinctSize(s, all);
    Smaller(Askers(rules, distil), all);
  }

  lemma {:induction false} Smaller(a: set<nat>, b: set<nat>)
    requires a <= b
    ensures |a| <= |b|
  {
    assert b == a + (b - a);
  }

  /** When every stride has a query, the sample is the strides. */
  lemma EvenSample(rules: seq<Rule>, distil: Distil, target: nat)
    requires 0 < target <= |rules| && forall i :: 0 <= i < target ==> Asks(rules, distil, Stride(i, |rules|, target))
    ensures Positions(rules, distil, target) == Strides(|rules|, target, target)
  {
    hide Asks, Stride;
    var n := |rules|;
    var order := Order(n, target);
    AskAll(rules, distil, target, target);
    AskingGrows(rules, distil, order, target);
    assert Strides(n, target, target) == Asking(rules, distil, order, target);
  }

  lemma {:induction false} AskAll(rules: seq<Rule>, distil: Distil, target: nat, m: nat)
    requires 0 < target <= |rules| && m <= target
    requires forall i :: 0 <= i < target ==> Asks(rules, distil, Stride(i, |rules|, target))
    ensures Asking(rules, distil, Order(|rules|, target), m) == Strides(|rules|, target, m)
  {
    hide Asks, Stride;
    if m > 0 {
      AskAll(rules, distil, target, m - 1);
      var n := |rules|;
      assert Order(n, target)[m - 1] == Stride(m - 1, n, target);
      NextStrideIsNew(n, target, m - 1);
    }
  }
}
