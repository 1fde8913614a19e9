/** String primitives of the Rust standard library that the line editor and the word wrapper rely
    on: whitespace, trimming, `split_inclusive('\n')` and `lines()`. */
module Text {
  import opened Wrappers

  /** `char::is_whitespace`: the Unicode `White_Space` property. */
  predicate IsWhitespace(c: char) {
    || '\t' <= c <= '\r'
    || c == ' '
    || c == '\U{0085}' || c == '\U{00A0}' || c == '\U{1680}'
    || '\U{2000}' <= c <= '\U{200A}'
    || c == '\U{2028}' || c == '\U{2029}' || c == '\U{202F}' || c == '\U{205F}' || c == '\U{3000}'
  }

  predicate IsEol(c: char) { c == '\n' || c == '\r' }

  /** `trim_start`. */
  function TrimStart(s: string): string {
    if s != "" && IsWhitespace(s[0]) then TrimStart(s[1..]) else s
  }

  /** `trim_end`. */
  function TrimEnd(s: string): string {
    if s != "" && IsWhitespace(s[|s| - 1]) then TrimEnd(s[..|s| - 1]) else s
  }

  /** `trim_end_matches(['\n', '\r'])`. */
  function TrimEol(s: string): string {
    if s != "" && IsEol(s[|s| - 1]) then TrimEol(s[..|s| - 1]) else s
  }

  /** `s.trim().is_empty()`. */
  predicate IsBlank(s: string) { forall i :: 0 <= i < |s| ==> IsWhitespace(s[i]) }

  /** The first character `trim_start` would leave, if it leaves any. */
  function FirstInk(s: string): Option<char> {
    if TrimStart(s) == "" then None else Some(TrimStart(s)[0])
  }

  function Spaces(n: nat): (s: string)
    ensures |s| == n && forall i :: 0 <= i < n ==> s[i] == ' '
  {
    seq(n, _ => ' ')
  }

  /** How many spaces a line starts with. */
  function IndentOf(line: string): (n: nat)
    ensures n <= |line|
    ensures forall i :: 0 <= i < n ==> line[i] == ' '
    ensures n < |line| ==> line[n] != ' '
  {
    if line != "" && line[0] == ' ' then 1 + IndentOf(line[1..]) else 0
  }

  lemma IndentOfUnique(line: string, n: nat)
    requires n < |line| && line[n] != ' ' && forall i :: 0 <= i < n ==> line[i] == ' '
    ensures IndentOf(line) == n
  {
  }

  lemma {:induction false} BlankIffNoInk(s: string)
    ensures IsBlank(s) <==> FirstInk(s).None?
  {
    if s != "" && IsWhitespace(s[0]) {
      BlankIffNoInk(s[1..]);
      assert s == [s[0]] + s[1..];
      assert IsBlank(s) <==> IsBlank(s[1..]);
    }
  }

  lemma {:induction false} TrimEndStops(a: string, b: string)
    requires a != "" && !IsWhitespace(a[|a| - 1]) && IsBlank(b)
    ensures TrimEnd(a + b) == a
    decreases |b|
  {
    if b == "" {
      assert a + b == a;
    } else {
      assert (a + b)[..|a + b| - 1] == a + b[..|b| - 1];
      TrimEndStops(a, b[..|b| - 1]);
    }
  }

  lemma {:induction false} TrimStartStops(a: string, b: string)
    requires IsBlank(a) && (b == "" || !IsWhitespace(b[0]))
    ensures TrimStart(a + b) == b
  {
    if a == "" {
      assert a + b == b;
    } else {
      assert (a + b)[0] == a[0] && (a + b)[1..] == a[1..] + b;
      TrimStartStops(a[1..], b);
    }
  }

  /** Trimming leaves exactly what stands between the white space at both ends. */
  lemma TrimsBothEnds(a: string, mid: string, b: string)
    requires IsBlank(a) && IsBlank(b) && mid != "" && !IsWhitespace(mid[0]) && !IsWhitespace(mid[|mid| - 1])
    ensures TrimEnd(TrimStart(a + mid + b)) == mid
  {
    hide IsWhitespace;
    assert a + mid + b == a + (mid + b) && (mid + b)[0] == mid[0];
    TrimStartStops(a, mid + b);
    TrimEndStops(mid, b);
  }

  lemma TrimsToNothing(a: string)
    requires IsBlank(a)
    ensures TrimEnd(TrimStart(a)) == ""
  {
    assert a + "" == a;
    TrimStartStops(a, "");
  }

  // ---- Lines ------------------------------------------------------------------------------------

  /** The length of the first line, its `\n` included. */
  function FirstLine(s: string): (k: nat)
    requires s != ""
    ensures 0 < k <= |s|
    ensures '\n' !in s[..k - 1]
    ensures k < |s| ==> s[k - 1] == '\n'
  {
    if s[0] == '\n' || |s| == 1 then 1 else 1 + FirstLine(s[1..])
  }

  /** `split_inclusive('\n')`. */
  function SplitInclusive(s: string): seq<string> {
    if s == "" then [] else [s[..FirstLine(s)]] + SplitInclusive(s[FirstLine(s)..])
  }

  function Concat(ls: seq<string>): string {
    if ls == [] then "" else ls[0] + Concat(ls[1..])
  }

  /** A nonempty line whose only `\n`, if any, is its last character. */
  predicate IsLine(l: string) { l != "" && '\n' !in l[..|l| - 1] }

  predicate Terminated(l: string) { l != "" && l[|l| - 1] == '\n' }

  /** What `split_inclusive` produces: lines, all but the last one terminated. */
  predicate IsSplit(ls: seq<string>) {
    && (forall i :: 0 <= i < |ls| ==> IsLine(ls[i]))
    && (forall i :: 0 <= i < |ls| - 1 ==> Terminated(ls[i]))
  }

  lemma {:induction false} ConcatOfSplit(s: string)
    ensures Concat(SplitInclusive(s)) == s
  {
    if s != "" {
      var k := FirstLine(s);
      ConcatOfSplit(s[k..]);
      var rest := SplitInclusive(s[k..]);
      assert ([s[..k]] + rest)[1..] == rest;
      assert s == s[..k] + s[k..];
    }
  }

  lemma {:induction false} SplitIsSplit(s: string)
    ensures IsSplit(SplitInclusive(s))
  {
    if s != "" {
      var k := FirstLine(s);
      SplitIsSplit(s[k..]);
      IsSplitCons(s[..k], SplitInclusive(s[k..]));
    }
  }

  lemma IsSplitCons(l: string, ls: seq<string>)
    requires IsLine(l) && IsSplit(ls) && (ls != [] ==> Terminated(l))
    ensures IsSplit([l] + ls)
  {
  }

  lemma {:induction false} FirstLineUnique(s: string, k: nat)
    requires 0 < k <= |s| && '\n' !in s[..k - 1] && (k < |s| ==> s[k - 1] == '\n')
    ensures FirstLine(s) == k
  {
    if k > 1 {
      assert s[0] in s[..k - 1];
      assert s[1..][..k - 2] == s[..k - 1][1..];
      FirstLineUnique(s[1..], k - 1);
    } else {
      assert s[0] == s[..1][0];
    }
  }

  /** Splitting undoes concatenation. */
  lemma {:induction false} SplitOfConcat(ls: seq<string>)
    requires IsSplit(ls)
    ensures SplitInclusive(Concat(ls)) == ls
  {
    if ls != [] {
      var s, k := Concat(ls), |ls[0]|;
      assert s[..k] == ls[0] && s[k..] == Concat(ls[1..]);
      assert s[..k - 1] == ls[0][..k - 1];
      if k < |s| {
        assert |ls| > 1;
        assert s[k - 1] == ls[0][k - 1];
      }
      FirstLineUnique(s, k);
      assert IsSplit(ls[1..]);
      SplitOfConcat(ls[1..]);
    }
  }

  lemma ConcatCons(l: string, ls: seq<string>)
    ensures Concat([l] + ls) == l + Concat(ls)
  {
    assert ([l] + ls)[1..] == ls;
  }

  lemma {:induction false} ConcatAppend(a: seq<string>, b: seq<string>)
    ensures Concat(a + b) == Concat(a) + Concat(b)
  {
    if a == [] {
      assert a + b == b;
    } else {
      hide Concat;
      var rest := a[1..];
      ConcatAppend(rest, b);
      assert a == [a[0]] + rest && a + b == [a[0]] + (rest + b);
      ConcatCons(a[0], rest);
      ConcatCons(a[0], rest + b);
      Regroup(a[0], Concat(rest), Concat(b));
    }
  }

  lemma Regroup(x: string, y: string, z: string)
    ensures x + (y + z) == (x + y) + z
  {
  }

  lemma ConcatSnoc(ls: seq<string>, i: nat)
    requires i < |ls|
    ensures Concat(ls[..i + 1]) == Concat(ls[..i]) + ls[i]
  {
    assert ls[..i + 1] == ls[..i] + [ls[i]];
    ConcatAppend(ls[..i], [ls[i]]);
    assert Concat([ls[i]]) == ls[i] + Concat([]);
  }

  /** What `lines()` does to a line of `split_inclusive`: drop `\n`, then a `\r` before it. */
  function StripEol(l: string): string {
    if !Terminated(l) then l
    else if |l| >= 2 && l[|l| - 2] == '\r' then l[..|l| - 2]
    else l[..|l| - 1]
  }

  function StripAll(ls: seq<string>): (r: seq<string>)
    ensures |r| == |ls| && forall i :: 0 <= i < |ls| ==> r[i] == StripEol(ls[i])
  {
    if ls == [] then [] else [StripEol(ls[0])] + StripAll(ls[1..])
  }

  /** `lines()`. */
  function Lines(s: string): seq<string> { StripAll(SplitInclusive(s)) }

  // ---- Dropping line ends never changes what a line says ------------------------------------------

  /** `m` is `l` with some trailing `\n` and `\r` dropped. */
  predicate DropsEol(l: string, m: string) {
    && |m| <= |l|
    && l[..|m|] == m
    && forall i :: |m| <= i < |l| ==> IsEol(l[i])
  }

  lemma StripDropsEol(l: string)
    ensures DropsEol(l, StripEol(l))
  {
  }

  lemma {:induction false} TrimEolDropsEol(l: string)
    ensures DropsEol(l, TrimEol(l))
    ensures TrimEol(l) != "" ==> !IsEol(TrimEol(l)[|TrimEol(l)| - 1])
  {
    if l != "" && IsEol(l[|l| - 1]) {
      TrimEolDropsEol(l[..|l| - 1]);
    }
  }

  lemma {:induction false} TrimEolSame(l: string, m: string)
    requires DropsEol(l, m)
    ensures TrimEol(l) == TrimEol(m)
    decreases |l|
  {
    if |m| < |l| {
      assert IsEol(l[|l| - 1]);
      assert DropsEol(l[..|l| - 1], m);
      TrimEolSame(l[..|l| - 1], m);
    } else {
      assert l == m;
    }
  }

  lemma IndentSame(l: string, m: string)
    requires DropsEol(l, m)
    ensures IndentOf(l) == IndentOf(m)
  {
    var n := IndentOf(m);
    if n < |m| {
      assert l[n] == m[n];
    }
    assert forall i :: 0 <= i < n ==> l[i] == l[..|m|][i];
    if n < |l| {
      assert l[n] != ' ';
      IndentOfUnique(l, n);
    } else {
      assert l == m;
    }
  }

  lemma {:induction false} InkSame(l: string, m: string)
    requires DropsEol(l, m)
    ensures FirstInk(l) == FirstInk(m)
    decreases |l|
  {
    if m == "" {
      BlankIffNoInk(l);
    } else if IsWhitespace(l[0]) {
      assert DropsEol(l[1..], m[1..]);
      InkSame(l[1..], m[1..]);
    }
  }

  /** The code points with the `White_Space` property, one by one. */
  lemma WhitespaceTable(c: char)
    ensures IsWhitespace(c) <==>
      || c as int in {9, 10, 11, 12, 13, 32, 0x85, 0xA0, 0x1680, 0x2000, 0x2001, 0x2002, 0x2003}
      || c as int in {0x2004, 0x2005, 0x2006, 0x2007, 0x2008, 0x2009, 0x200A, 0x2028, 0x2029, 0x202F, 0x205F, 0x3000}
  {
  }
}
