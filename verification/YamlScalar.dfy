/** How the command is quoted in the YAML block, and how YAML reads it back: single-quoted scalars
    by section 7.3.2 of YAML 1.2, plain scalars by section 7.3.3. */
module YamlScalar {
  import opened Wrappers

  predicate NeedsQuote(s: string) {
    || ':' in s
    || '#' in s
    || '\\' in s
    || s == ""
    || s[0] == ' '
    || s[|s| - 1] == ' '
  }

  /** `s.replace('\'', "''")`. */
  function DoubleQuotes(s: string): string {
    if s == "" then ""
    else if s[0] == '\'' then "''" + DoubleQuotes(s[1..])
    else [s[0]] + DoubleQuotes(s[1..])
  }

  /** `yaml_escape_scalar`. */
  function EscapeScalar(s: string): string {
    if NeedsQuote(s) then "'" + DoubleQuotes(s) + "'" else s
  }

  // ---- Reading -------------------------------------------------------------------------------------

  /** `b-char`: the two characters a line break is made of. */
  predicate IsBreak(c: char) { c == '\n' || c == '\r' }

  predicate HasBreak(s: string) { exists i :: 0 <= i < |s| && IsBreak(s[i]) }

  function Prepend(c: char, r: Option<string>): Option<string> {
    if r.Some? then Some([c] + r.value) else None
  }

  /** What follows the opening quote: a doubled quote is one quote, a single one must end the scalar.
      A line break inside would be folded, so it is not read back as itself. */
  function ReadQuoted(t: string): (r: Option<string>)
    ensures r.Some? ==> |r.value| < |t|
  {
    if t == "" || IsBreak(t[0]) then None
    else if t[0] != '\'' then Prepend(t[0], ReadQuoted(t[1..]))
    else if |t| >= 2 && t[1] == '\'' then Prepend('\'', ReadQuoted(t[2..]))
    else if |t| == 1 then Some("")
    else None
  }

  predicate IsIndicator(c: char) {
    c in "-?:,[]{}#&*!|>'\"%@`"
  }

  predicate IsBlankChar(c: char) { c == ' ' || c == '\t' }

  /** A one-line plain scalar: it does not start with an indicator (other than `-` or `?` glued to
      more text), has no blank at either end, no `: ` and no ` #`. */
  predicate IsPlain(s: string) {
    && s != "" && !HasBreak(s)
    && !IsBlankChar(s[0]) && !IsBlankChar(s[|s| - 1])
    && (IsIndicator(s[0]) ==> s[0] in "-?" && |s| > 1 && !IsBlankChar(s[1]))
    && (forall i :: 0 <= i < |s| && s[i] == ':' ==> i + 1 < |s| && !IsBlankChar(s[i + 1]))
    && (forall i :: 0 < i < |s| && s[i] == '#' ==> !IsBlankChar(s[i - 1]))
  }

  /** The string a one-line scalar denotes, if it is one. */
  function ReadScalar(e: string): Option<string> {
    if e != "" && e[0] == '\'' then ReadQuoted(e[1..])
    else if IsPlain(e) then Some(e)
    else None
  }

  // ---- Round trip ----------------------------------------------------------------------------------

  lemma {:induction false} QuotedReadsBack(s: string)
    ensures ReadQuoted(DoubleQuotes(s) + "'") == if HasBreak(s) then None else Some(s)
  {
    if s != "" {
      var t, rest := DoubleQuotes(s) + "'", DoubleQuotes(s[1..]) + "'";
      QuotedReadsBack(s[1..]);
      assert s == [s[0]] + s[1..];
      BreakBehind(s);
      if s[0] == '\'' {
        assert t[2..] == rest;
      } else {
        assert t[1..] == rest;
      }
    }
  }

  lemma BreakBehind(s: string)
    requires s != ""
    ensures HasBreak(s) <==> IsBreak(s[0]) || HasBreak(s[1..])
  {
    if HasBreak(s[1..]) {
      var i :| 0 <= i < |s[1..]| && IsBreak(s[1..][i]);
      assert IsBreak(s[i + 1]);
    }
  }

  /** The command comes back exactly when it has no line break and was quoted or could stand unquoted in
      the first place. Quoting is decided by colons, hashes, backslashes and spaces alone, so a command that starts
      with another indicator, or starts or ends with a tab, is written bare and lost. */
  lemma ScalarRoundTrip(s: string)
    ensures ReadScalar(EscapeScalar(s)) == Some(s) <==> (NeedsQuote(s) || IsPlain(s)) && !HasBreak(s)
  {
    if NeedsQuote(s) {
      QuotedReadsBack(s);
      assert EscapeScalar(s)[1..] == DoubleQuotes(s) + "'";
    }
  }

  /** A path that starts with a slash or a letter and holds no tab survives exactly when it holds no
      line break. */
  lemma PathsRoundTrip(s: string)
    requires s != "" && (s[0] == '/' || 'a' <= s[0] <= 'z' || 'A' <= s[0] <= 'Z')
    requires '\t' !in s
    ensures ReadScalar(EscapeScalar(s)) == Some(s) <==> '\n' !in s && '\r' !in s
  {
    ScalarRoundTrip(s);
    assert HasBreak(s) <==> '\n' in s || '\r' in s;
    assert s[|s| - 1] in s;
  }

  /** A quoted word is emitted bare and read as its content. */
  lemma QuotedCommandIsLost()
    ensures EscapeScalar("'x'") == "'x'" && ReadScalar("'x'") == Some("x")
  {
    var t := "'x'"[1..];
    assert t == "x'" && t[1..] == "'";
    assert ReadQuoted("'") == Some("");
    assert ['x'] + "" == "x";
  }

  lemma {:induction false} EscapeKeepsOneLine(s: string)
    requires '\n' !in s
    ensures '\n' !in EscapeScalar(s)
  {
    DoubleKeepsOneLine(s);
  }

  lemma {:induction false} DoubleKeepsOneLine(s: string)
    requires '\n' !in s
    ensures '\n' !in DoubleQuotes(s)
  {
    if s != "" {
      DoubleKeepsOneLine(s[1..]);
      assert s[0] in s;
    }
  }

  /** What is quoted, said without the test: the empty command, one with a colon, a hash or a backslash, and
      one with a space at either end. Everything else is written as it is. */
  lemma WrittenBareIff(s: string)
    ensures EscapeScalar(s) == s <==>
      s != "" && s[0] != ' ' && s[|s| - 1] != ' ' && forall i :: 0 <= i < |s| ==> s[i] !in ":#\\"
    ensures EscapeScalar(s) != s ==> |EscapeScalar(s)| >= |s| + 2 && EscapeScalar(s)[0] == '\'' == EscapeScalar(s)[|EscapeScalar(s)| - 1]
  {
    DoublesOnly(s);
    if NeedsQuote(s) {
      assert |EscapeScalar(s)| >= |s| + 2;
    } else {
      assert forall i :: 0 <= i < |s| ==> s[i] in s;
    }
  }

  lemma {:induction false} DoublesOnly(s: string)
    ensures |DoubleQuotes(s)| >= |s|
  {
    if s != "" {
      DoublesOnly(s[1..]);
    }
  }
}
