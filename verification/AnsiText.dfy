/** Text with embedded escape sequences: how it is cut into words, stripped, and which colour
    sequence is active where.

    A text is read as units: a control sequence `ESC [ … letter` (or what is left of one at the end
    of the text), or a single character. All functions below recurse over units, so that one lemma
    about where units start carries each of them over concatenation. */
module AnsiText {
  import opened Wrappers
  import opened Text

  const ESC := '\U{001B}'
  const RESET := [ESC, '[', '0', 'm']

  predicate IsLetter(c: char) { 'a' <= c <= 'z' || 'A' <= c <= 'Z' }

  predicate StartsCsi(s: string) { |s| >= 2 && s[0] == ESC && s[1] == '[' }

  /** Length up to and including the first ASCII letter, or the whole string. */
  function ToLetter(s: string): (k: nat)
    ensures k <= |s|
  {
    if s == "" then 0 else if IsLetter(s[0]) then 1 else 1 + ToLetter(s[1..])
  }

  predicate HasLetter(s: string) { exists i :: 0 <= i < |s| && IsLetter(s[i]) }

  /** Length of the first unit. */
  function Unit(s: string): (n: nat)
    requires s != ""
    ensures 1 <= n <= |s|
  {
    if StartsCsi(s) then 2 + ToLetter(s[2..]) else 1
  }

  /** Every control sequence has its final letter. */
  predicate Closed(s: string)
    decreases |s|
  {
    s == "" || ((StartsCsi(s) ==> HasLetter(s[2..])) && Closed(s[Unit(s)..]))
  }

  // ---- The four readings -----------------------------------------------------------------------------

  /** `strip_ansi`. */
  function Strip(s: string): string
    decreases |s|
  {
    if s == "" then "" else (if StartsCsi(s) then "" else [s[0]]) + Strip(s[Unit(s)..])
  }

  datatype Tok = Tok(words: seq<string>, current: string)

  const TOK0 := Tok([], "")

  function Flush(t: Tok): Tok {
    if t.current == "" then t else Tok(t.words + [t.current], "")
  }

  /** The loop of `ansi_words`, as a fold. */
  function Scan(s: string, t: Tok): Tok
    decreases |s|
  {
    if s == "" then t
    else
      var n := Unit(s);
      Scan(s[n..], if !StartsCsi(s) && IsWhitespace(s[0]) then Flush(t) else Tok(t.words, t.current + s[..n]))
  }

  /** `ansi_words`. */
  function Words(s: string): seq<string> { Flush(Scan(s, TOK0)).words }

  /** `trim_start_matches("\x1b[")`. */
  function TrimOpeners(s: string): string {
    if StartsCsi(s) then TrimOpeners(s[2..]) else s
  }

  predicate IsReset(sequence: string) {
    sequence == RESET || sequence == [ESC, '[', 'm'] || "0;" <= TrimOpeners(sequence)
  }

  /** The active colour sequence after one unit. */
  function AfterUnit(unit: string, active: Option<string>): Option<string>
    requires unit != ""
  {
    if StartsCsi(unit) && unit[|unit| - 1] == 'm' then (if IsReset(unit) then None else Some(unit)) else active
  }

  /** `update_active_sgr`. */
  function Active(s: string, active: Option<string>): Option<string>
    decreases |s|
  {
    if s == "" then active else Active(s[Unit(s)..], AfterUnit(s[..Unit(s)], active))
  }

  /** What the first unit shows. */
  function Ink(s: string, active: Option<string>): seq<(char, Option<string>)>
    requires s != ""
  {
    if StartsCsi(s) || IsWhitespace(s[0]) then [] else [(s[0], active)]
  }

  /** Every visible character that is not white space, with the colour sequence it appears under. */
  function Styled(s: string, active: Option<string>): seq<(char, Option<string>)>
    decreases |s|
  {
    if s == "" then []
    else Ink(s, active) + Styled(s[Unit(s)..], AfterUnit(s[..Unit(s)], active))
  }

  /** No white space outside control sequences. */
  predicate Solid(s: string)
    decreases |s|
  {
    s == "" || ((StartsCsi(s) || !IsWhitespace(s[0])) && Solid(s[Unit(s)..]))
  }

  // ---- Concatenation -----------------------------------------------------------------------------------

  /** Putting `b` behind `a` creates no control sequence across the seam. */
  predicate Joins(a: string, b: string) {
    a != "" && b != "" ==> !(a[|a| - 1] == ESC && b[0] == '[')
  }

  lemma {:induction false} ToLetterExtends(a: string, b: string)
    requires HasLetter(a)
    ensures ToLetter(a + b) == ToLetter(a) && HasLetter(a + b)
  {
    assert (a + b)[0] == a[0];
    if !IsLetter(a[0]) {
      assert HasLetter(a[1..]) by {
        var i :| 0 <= i < |a| && IsLetter(a[i]);
        assert a[1..][i - 1] == a[i];
      }
      assert (a + b)[1..] == a[1..] + b;
      ToLetterExtends(a[1..], b);
      var i :| 0 <= i < |a| && IsLetter(a[i]);
      assert (a + b)[i] == a[i];
    } else {
      assert IsLetter((a + b)[0]);
    }
  }

  /** The first unit of `a + b` is the first unit of `a`. */
  lemma UnitExtends(a: string, b: string)
    requires a != "" && Joins(a, b) && (StartsCsi(a) ==> HasLetter(a[2..]))
    ensures StartsCsi(a + b) == StartsCsi(a) && Unit(a + b) == Unit(a)
    ensures (a + b)[..Unit(a)] == a[..Unit(a)] && (a + b)[Unit(a)..] == a[Unit(a)..] + b
    ensures (a + b)[0] == a[0] && (StartsCsi(a) ==> HasLetter((a + b)[2..]))
    ensures Joins(a[Unit(a)..], b)
  {
    if StartsCsi(a) {
      assert (a + b)[2..] == a[2..] + b;
      ToLetterExtends(a[2..], b);
    }
  }

  lemma {:induction false} ClosedConcat(a: string, b: string)
    requires Closed(a) && Joins(a, b)
    ensures Closed(a + b) <==> Closed(b)
    decreases |a|
  {
    if a == "" {
      assert a + b == b;
    } else {
      UnitExtends(a, b);
      ClosedConcat(a[Unit(a)..], b);
    }
  }

  lemma {:induction false} StripConcat(a: string, b: string)
    requires Closed(a) && Joins(a, b)
    ensures Strip(a + b) == Strip(a) + Strip(b)
    decreases |a|
  {
    if a == "" {
      assert a + b == b;
    } else {
      hide Strip, Unit, Closed, HasLetter;
      ClosedFacts(a);
      UnitExtends(a, b);
      StripConcat(a[Unit(a)..], b);
      StripUnfolds(a);
      StripUnfolds(a + b);
      var first := if StartsCsi(a) then "" else [a[0]];
      Associates(first, Strip(a[Unit(a)..]), Strip(b));
    }
  }

  lemma StripUnfolds(s: string)
    requires s != ""
    ensures Strip(s) == (if StartsCsi(s) then "" else [s[0]]) + Strip(s[Unit(s)..])
  {
  }

  lemma {:induction false} ScanConcat(a: string, b: string, t: Tok)
    requires Closed(a) && Joins(a, b)
    ensures Scan(a + b, t) == Scan(b, Scan(a, t))
    decreases |a|
  {
    if a == "" {
      assert a + b == b;
    } else {
      var n := Unit(a);
      UnitExtends(a, b);
      ScanConcat(a[n..], b, if !StartsCsi(a) && IsWhitespace(a[0]) then Flush(t) else Tok(t.words, t.current + a[..n]));
    }
  }

  lemma {:induction false} ActiveConcat(a: string, b: string, active: Option<string>)
    requires Closed(a) && Joins(a, b)
    ensures Active(a + b, active) == Active(b, Active(a, active))
    decreases |a|
  {
    if a == "" {
      assert a + b == b;
    } else {
      UnitExtends(a, b);
      ActiveConcat(a[Unit(a)..], b, AfterUnit(a[..Unit(a)], active));
    }
  }

  lemma InkExtends(a: string, b: string, active: Option<string>)
    requires a != "" && Joins(a, b) && (StartsCsi(a) ==> HasLetter(a[2..]))
    ensures Ink(a + b, active) == Ink(a, active)
  {
    UnitExtends(a, b);
  }

  lemma ClosedFacts(s: string)
    requires s != "" && Closed(s)
    ensures Closed(s[Unit(s)..]) && (StartsCsi(s) ==> HasLetter(s[2..]))
  {
  }

  lemma StyledUnfolds(s: string, active: Option<string>)
    requires s != ""
    ensures Styled(s, active) == Ink(s, active) + Styled(s[Unit(s)..], AfterUnit(s[..Unit(s)], active))
  {
  }

  lemma Associates<T>(x: seq<T>, y: seq<T>, z: seq<T>)
    ensures x + (y + z) == (x + y) + z
  {
  }

  lemma {:induction false} StyledConcat(a: string, b: string, active: Option<string>)
    requires Closed(a) && Joins(a, b)
    ensures Styled(a + b, active) == Styled(a, active) + Styled(b, Active(a, active))
    decreases |a|
  {
    if a == "" {
      assert a + b == b;
    } else {
      hide AfterUnit, Unit, Ink, Styled, Closed;
      assert Closed(a[Unit(a)..]) && (StartsCsi(a) ==> HasLetter(a[2..])) by { ClosedFacts(a); }
      UnitExtends(a, b);
      StyledUnfolds(a, active);
      StyledUnfolds(a + b, active);
      InkExtends(a, b, active);
      var rest, next := a[Unit(a)..], AfterUnit(a[..Unit(a)], active);
      StyledConcat(rest, b, next);
      calc {
        Styled(a + b, active);
        Ink(a, active) + Styled(rest + b, next);
        Ink(a, active) + (Styled(rest, next) + Styled(b, Active(rest, next)));
        { Associates(Ink(a, active), Styled(rest, next), Styled(b, Active(rest, next))); }
        (Ink(a, active) + Styled(rest, next)) + Styled(b, Active(rest, next));
        Styled(a, active) + Styled(b, Active(a, active));
      }
    }
  }

  lemma {:induction false} SolidConcat(a: string, b: string)
    requires Closed(a) && Joins(a, b)
    ensures Solid(a + b) <==> Solid(a) && Solid(b)
    decreases |a|
  {
    if a == "" {
      assert a + b == b;
    } else {
      UnitExtends(a, b);
      SolidConcat(a[Unit(a)..], b);
    }
  }

  // ---- Single pieces -------------------------------------------------------------------------------------

  lemma {:induction false} ScanSolid(s: string, t: Tok)
    requires Solid(s)
    ensures Scan(s, t) == Tok(t.words, t.current + s)
    decreases |s|
  {
    if s != "" {
      var n := Unit(s);
      ScanSolid(s[n..], Tok(t.words, t.current + s[..n]));
      assert s == s[..n] + s[n..];
      assert t.current + s[..n] + s[n..] == t.current + s;
    } else {
      assert t.current + s == t.current;
    }
  }

  /** A text of spaces. */
  lemma {:induction false} SpacesFacts(n: nat, t: Tok)
    ensures Closed(Spaces(n)) && Strip(Spaces(n)) == Spaces(n)
    ensures n > 0 ==> Scan(Spaces(n), t) == Flush(t)
    ensures forall active :: Active(Spaces(n), active) == active && Styled(Spaces(n), active) == []
  {
    if n > 0 {
      var s := Spaces(n);
      assert s[1..] == Spaces(n - 1);
      SpacesFacts(n - 1, Flush(t));
      assert [' '] + Spaces(n - 1) == s;
    }
  }

  lemma SpaceFacts(t: Tok)
    ensures Closed(" ") && Strip(" ") == " " && Scan(" ", t) == Flush(t)
    ensures forall active :: Active(" ", active) == active && Styled(" ", active) == []
  {
    assert " " == Spaces(1);
    SpacesFacts(1, t);
  }

  /** A control sequence standing alone: `ESC [`, no letter, then one letter. */
  predicate IsSequence(s: string) { StartsCsi(s) && Unit(s) == |s| && HasLetter(s[2..]) }

  lemma SequenceFacts(s: string, active: Option<string>)
    requires IsSequence(s)
    ensures Closed(s) && Solid(s) && Strip(s) == "" && IsLetter(s[|s| - 1])
    ensures Active(s, active) == AfterUnit(s, active) && Styled(s, active) == []
  {
    assert s[Unit(s)..] == "" && s[..Unit(s)] == s;
    EndsInLetter(s[2..]);
  }

  lemma {:induction false} EndsInLetter(s: string)
    requires HasLetter(s)
    ensures ToLetter(s) >= 1 && IsLetter(s[ToLetter(s) - 1])
  {
    if !IsLetter(s[0]) {
      assert HasLetter(s[1..]) by {
        var i :| 0 <= i < |s| && IsLetter(s[i]);
        assert s[1..][i - 1] == s[i];
      }
      EndsInLetter(s[1..]);
    }
  }

  lemma ResetIsSequence()
    ensures IsSequence(RESET) && AfterUnit(RESET, None) == None && forall a :: AfterUnit(RESET, a) == None
  {
    assert RESET[2..] == "0m" && "0m"[1..] == "m";
    assert ToLetter("m") == 1 && ToLetter("0m") == 2;
    assert IsLetter(RESET[2..][1]);
  }

  /** The active sequence, when there is one, is a complete control sequence that is no reset. */
  predicate IsColour(active: Option<string>) {
    active.Some? ==> IsSequence(active.value) && active.value[|active.value| - 1] == 'm' && !IsReset(active.value)
  }

  lemma {:induction false} ActiveIsColour(s: string, active: Option<string>)
    requires IsColour(active)
    ensures IsColour(Active(s, active))
    decreases |s|
  {
    if s != "" {
      var n := Unit(s);
      if StartsCsi(s) && HasLetter(s[2..]) {
        UnitIsSequence(s);
      } else if StartsCsi(s) {
        OpenUnit(s);
        assert s[..n] == s;
        assert |s| > 2 ==> s[|s| - 1] == s[2..][|s| - 3];
      }
      ActiveIsColour(s[n..], AfterUnit(s[..n], active));
    }
  }

  lemma UnitIsSequence(s: string)
    requires StartsCsi(s) && HasLetter(s[2..])
    ensures IsSequence(s[..Unit(s)])
  {
    var n := Unit(s);
    var u := s[..n];
    EndsInLetter(s[2..]);
    assert u[2..] == s[2..][..n - 2];
    assert IsLetter(u[2..][n - 3]);
    ToLetterOfPrefix(s[2..]);
  }

  lemma {:induction false} ToLetterOfPrefix(s: string)
    ensures ToLetter(s[..ToLetter(s)]) == ToLetter(s)
  {
    if s != "" && !IsLetter(s[0]) {
      ToLetterOfPrefix(s[1..]);
      assert s[..ToLetter(s)][1..] == s[1..][..ToLetter(s[1..])];
    }
  }

  /** A reset behind any text, even one that ends inside a control sequence, adds nothing visible. */
  lemma {:induction false} ResetIsInvisible(s: string, t: Tok)
    ensures Strip(s + RESET) == Strip(s)
    ensures Solid(s) ==> Solid(s + RESET)
    decreases |s|
  {
    if s == "" {
      assert s + RESET == RESET;
      ResetIsSequence();
      SequenceFacts(RESET, None);
    } else if StartsCsi(s) && !HasLetter(s[2..]) {
      OpenUnit(s);
    } else {
      UnitExtends(s, RESET);
      ResetIsInvisible(s[Unit(s)..], t);
    }
  }

  lemma OpenUnit(s: string)
    requires StartsCsi(s) && !HasLetter(s[2..])
    ensures Unit(s) == |s| && Unit(s + RESET) == |s| + 4 && StartsCsi(s + RESET)
    ensures Strip(s) == "" && Strip(s + RESET) == "" && Solid(s + RESET)
  {
    hide ToLetter, HasLetter, Strip, Solid;
    OpenUnitIsAll(s, "");
    assert s + "" == s;
    ResetLetter();
    OpenUnitIsAll(s, RESET);
    WholeUnit(s);
    WholeUnit(s + RESET);
  }

  lemma OpenUnitIsAll(s: string, x: string)
    requires StartsCsi(s) && !HasLetter(s[2..])
    ensures StartsCsi(s + x) && Unit(s + x) == |s| + ToLetter(x)
  {
    hide ToLetter;
    NoLetterLength(s[2..], x);
    assert (s + x)[2..] == s[2..] + x;
    assert ToLetter("") == 0 by { NoLetterInNothing(); }
  }

  lemma NoLetterInNothing()
    ensures ToLetter("") == 0
  {
  }

  lemma ResetLetter()
    ensures ToLetter(RESET) == 4 && ToLetter("") == 0
  {
    assert "m"[1..] == "" && "0m"[1..] == "m" && "[0m"[1..] == "0m" && RESET[1..] == "[0m";
    assert ToLetter("m") == 1 && ToLetter("0m") == 2 && ToLetter("[0m") == 3;
  }

  lemma WholeUnit(s: string)
    requires StartsCsi(s) && Unit(s) == |s|
    ensures Strip(s) == "" && Solid(s)
  {
    assert s[Unit(s)..] == "";
  }

  lemma {:induction false} NoLetterLength(s: string, x: string)
    requires !HasLetter(s)
    ensures ToLetter(s + x) == |s| + ToLetter(x)
  {
    if s == "" {
      assert s + x == x;
    } else {
      assert !IsLetter(s[0]);
      assert (s + x)[0] == s[0] && (s + x)[1..] == s[1..] + x;
      assert !HasLetter(s[1..]) by {
        assert forall i :: 0 <= i < |s| - 1 ==> s[1..][i] == s[i + 1];
      }
      NoLetterLength(s[1..], x);
    }
  }
}
