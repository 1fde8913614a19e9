/** `sort_by` on a list: what both the alias lookup and the language table rely on. */
module Sorting {

  predicate Ordered<T>(s: seq<T>, le: (T, T) -> bool) {
    forall i :: 0 <= i < |s| - 1 ==> le(s[i], s[i + 1])
  }

  ghost predicate Total<T(!new)>(le: (T, T) -> bool) { forall a, b :: le(a, b) || le(b, a) }

  lemma InsertKeepsOrder<T>(s: seq<T>, a: T, k: nat, le: (T, T) -> bool)
    requires Ordered(s, le) && k <= |s| && (k > 0 ==> le(s[k - 1], a)) && (k < |s| ==> le(a, s[k]))
    ensures Ordered(s[..k] + [a] + s[k..], le)
  {
    var r := s[..k] + [a] + s[k..];
    forall i | 0 <= i < |r| - 1
      ensures le(r[i], r[i + 1])
    {
      if i < k - 1 {
        assert r[i] == s[i] && r[i + 1] == s[i + 1];
      } else if i > k {
        assert r[i] == s[i - 1] && r[i + 1] == s[i - 1 + 1];
      }
    }
  }

  lemma InsertKeepsAll<T>(s: seq<T>, a: T, k: nat)
    requires k <= |s|
    ensures multiset(s[..k] + [a] + s[k..]) == multiset(s) + multiset{a}
  {
    assert s == s[..k] + s[k..];
  }

  lemma PrefixGrows<T>(s: seq<T>, i: nat)
    requires i < |s|
    ensures multiset(s[..i + 1]) == multiset(s[..i]) + multiset{s[i]}
  {
    assert s[..i + 1] == s[..i] + [s[i]];
  }

  /** Where an element goes: after everything that may stand before it. */
  method Place<T(!new)>(s: seq<T>, a: T, le: (T, T) -> bool) returns (k: nat)
    requires Total(le)
    ensures k <= |s| && (k > 0 ==> le(s[k - 1], a)) && (k < |s| ==> le(a, s[k]))
  {
    k := |s|;
    while k > 0 && !le(s[k - 1], a)
      invariant k <= |s| && (k < |s| ==> le(a, s[k]))
    {
      k := k - 1;
    }
  }

  method Sort<T(!new)>(input: seq<T>, le: (T, T) -> bool) returns (out: seq<T>)
    requires Total(le)
    ensures Ordered(out, le) && multiset(out) == multiset(input)
  {
    out := [];
    for i := 0 to |input|
      invariant Ordered(out, le)
      invariant multiset(out) == multiset(input[..i])
    {
      var k := Place(out, input[i], le);
      InsertKeepsOrder(out, input[i], k, le);
      InsertKeepsAll(out, input[i], k);
      PrefixGrows(input, i);
      out := out[..k] + [input[i]] + out[k..];
    }
    assert input[..|input|] == input;
  }

  /** The order of strings by their characters. */
  predicate AtMost(a: string, b: string) {
    a == "" || (b != "" && (a[0] < b[0] || (a[0] == b[0] && AtMost(a[1..], b[1..]))))
  }

  lemma {:induction false} AtMostTotal(a: string, b: string)
    ensures AtMost(a, b) || AtMost(b, a)
  {
    if a != "" && b != "" {
      AtMostTotal(a[1..], b[1..]);
    }
  }

  lemma {:induction false} AtMostAntisymmetric(a: string, b: string)
    ensures AtMost(a, b) && AtMost(b, a) <==> a == b
  {
    if a != "" && b != "" {
      AtMostAntisymmetric(a[1..], b[1..]);
      assert a == [a[0]] + a[1..] && b == [b[0]] + b[1..];
    }
  }

  lemma {:induction false} AtMostTransitive(a: string, b: string, c: string)
    requires AtMost(a, b) && AtMost(b, c)
    ensures AtMost(a, c)
  {
    if a != "" && b != "" && c != "" && a[0] == b[0] == c[0] {
      AtMostTransitive(a[1..], b[1..], c[1..]);
    }
  }

  /** The first differing character decides, and a prefix comes before what it is a prefix of. */
  lemma {:induction false} AtMostByFirstDifference(a: string, b: string, k: nat)
    requires k <= |a| && k <= |b| && a[..k] == b[..k]
    ensures k < |a| && k < |b| && a[k] != b[k] ==> (AtMost(a, b) <==> a[k] < b[k])
    ensures k == |a| ==> AtMost(a, b)
    ensures k == |b| < |a| ==> !AtMost(a, b)
  {
    if k > 0 {
      assert a[0] == a[..k][0] == b[0];
      assert a[1..][..k - 1] == a[..k][1..] && b[1..][..k - 1] == b[..k][1..];
      AtMostByFirstDifference(a[1..], b[1..], k - 1);
    }
  }
}
