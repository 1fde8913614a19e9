/** The wrapper as the program runs it, and the theorems about its output. */
module AnsiLines {
  import opened Wrappers
  import opened Text
  import opened AnsiText

  // ---- The tokeniser loops --------------------------------------------------------------------------------

  /** The inner loop every scanner runs after `ESC [`: stop behind the first letter. */
  method SkipToLetter(s: string, start: nat) returns (i: nat)
    requires start <= |s|
    ensures i == start + ToLetter(s[start..])
  {
    i := start;
    while i < |s|
      invariant start <= i <= |s|
      invariant i + ToLetter(s[i..]) == start + ToLetter(s[start..])
    {
      assert s[i..][0] == s[i] && s[i..][1..] == s[i + 1..];
      i := i + 1;
      if IsLetter(s[i - 1]) {
        return;
      }
    }
    assert s[i..] == "";
  }

  lemma UnitAt(s: string, i: nat)
    requires i < |s|
    ensures StartsCsi(s[i..]) <==> i + 1 < |s| && s[i] == ESC && s[i + 1] == '['
    ensures StartsCsi(s[i..]) ==> Unit(s[i..]) == 2 + ToLetter(s[i + 2..])
    ensures forall n :: 0 <= n <= |s| - i ==> s[i..][n..] == s[i + n..] && s[i..][..n] == s[i..i + n]
    ensures s[i..][0] == s[i]
  {
    if StartsCsi(s[i..]) {
      assert s[i..][2..] == s[i + 2..];
    }
  }

  /** `ansi_words`. */
  method AnsiWords(input: string) returns (words: seq<string>)
    ensures words == Words(input)
  {
    hide Unit, StartsCsi;
    words := [];
    var current := "";
    var i := 0;
    assert input[0..] == input;
    while i < |input|
      invariant 0 <= i <= |input|
      invariant Scan(input[i..], Tok(words, current)) == Scan(input, TOK0)
    {
      var ch, at := input[i], i;
      UnitAt(input, at);
      SingleUnit(input[at..]);
      if ch == ESC && at + 1 < |input| && input[at + 1] == '[' {
        i := SkipToLetter(input, at + 2);
        current := current + input[at..i];
        continue;
      }
      i := i + 1;
      if ch != ESC && IsWhitespace(ch) {
        if current != "" {
          words, current := words + [current], "";
        }
        continue;
      }
      current := current + [ch];
      assert input[at..at + 1] == [ch];
    }
    assert input[i..] == "";
    if current != "" {
      words := words + [current];
    }
  }

  lemma SingleUnit(s: string)
    requires s != ""
    ensures !StartsCsi(s) ==> Unit(s) == 1
  {
  }

  /** `strip_ansi`. */
  method StripAnsi(input: string) returns (out: string)
    ensures out == Strip(input)
  {
    hide Unit, StartsCsi, Strip, ToLetter;
    out := "";
    var i: nat := 0;
    assert input[0..] == input;
    EmptyStrips();
    while i < |input|
      invariant i <= |input|
      invariant out + Strip(input[i..]) == Strip(input)
    {
      var ch, at := input[i], i;
      StripStep(input, at);
      if ch == ESC && at + 1 < |input| && input[at + 1] == '[' {
        i := SkipToLetter(input, at + 2);
        continue;
      }
      i := i + 1;
      out := out + [ch];
    }
    assert input[i..] == "";
  }

  lemma EmptyStrips()
    ensures Strip("") == ""
  {
  }

  lemma StripStep(s: string, i: nat)
    requires i < |s|
    ensures if s[i] == ESC && i + 1 < |s| && s[i + 1] == '['
      then Strip(s[i..]) == Strip(s[i + 2 + ToLetter(s[i + 2..])..])
      else Strip(s[i..]) == [s[i]] + Strip(s[i + 1..])
  {
    UnitAt(s, i);
    SingleUnit(s[i..]);
  }

  /** `update_active_sgr`: walks an index and stops one short of the end. */
  method UpdateActive(input: string, before: Option<string>) returns (active: Option<string>)
    ensures active == Active(input, before)
  {
    hide Unit, StartsCsi, IsReset, Active, ToLetter;
    active := before;
    var idx: nat := 0;
    assert input[0..] == input;
    while idx + 1 < |input|
      invariant idx <= |input|
      invariant Active(input[idx..], active) == Active(input, before)
    {
      if input[idx] == ESC && input[idx + 1] == '[' {
        var end := SkipToLetter(input, idx + 2);
        SequenceStep(input, idx, end, active);
        if end > idx + 2 && IsLetter(input[end - 1]) {
          if input[end - 1] == 'm' {
            active := if IsReset(input[idx..end]) then None else Some(input[idx..end]);
          }
          idx := end;
          continue;
        }
        return;
      }
      CharacterStep(input, idx, active);
      idx := idx + 1;
    }
    LastCharKeeps(input, idx, active);
  }

  lemma SequenceStep(s: string, i: nat, end: nat, active: Option<string>)
    requires i + 1 < |s| && s[i] == ESC && s[i + 1] == '[' && end == i + 2 + ToLetter(s[i + 2..])
    ensures end <= |s|
    ensures end > i + 2 && IsLetter(s[end - 1]) ==>
      Active(s[i..], active) == Active(s[end..],
        if s[end - 1] != 'm' then active else if IsReset(s[i..end]) then None else Some(s[i..end]))
    ensures !(end > i + 2 && IsLetter(s[end - 1])) ==> Active(s[i..], active) == active
  {
    var rest, n := s[i..], end - i;
    UnitAt(s, i);
    assert rest[..n] == s[i..end] && rest[n..] == s[end..];
    assert rest[..n][n - 1] == s[end - 1];
    var tail := s[i + 2..];
    if HasLetter(tail) {
      EndsInLetter(tail);
      assert tail[ToLetter(tail) - 1] == s[end - 1];
    } else {
      NoLetterLength(tail, "");
      assert tail + "" == tail;
      assert s[end..] == "";
    }
  }

  lemma CharacterStep(s: string, i: nat, active: Option<string>)
    requires i + 1 < |s| && !(s[i] == ESC && s[i + 1] == '[')
    ensures Active(s[i..], active) == Active(s[i + 1..], active)
  {
    UnitAt(s, i);
  }

  lemma LastCharKeeps(s: string, i: nat, active: Option<string>)
    requires i <= |s| <= i + 1
    ensures Active(s[i..], active) == active
  {
  }
}
