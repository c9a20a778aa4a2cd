/** The string escaping applied to every value the update encoder writes.

    The daemon escapes a value by five successive global replacements
    (newline, carriage return, tab, single quote, double quote, in that order),
    each turning the character into a backslash followed by a letter or by the
    character itself.  Strings are modelled as sequences of characters: the
    five patterns are single ASCII bytes, which never occur inside a multi-byte
    UTF-8 sequence, so replacing them character by character is the same as
    replacing them byte by byte. */
module Escaping {

  /** The five characters the encoder rewrites. */
  predicate IsSpecial(c: char) {
    c == '\n' || c == '\r' || c == '\t' || c == '\'' || c == '"'
  }

  /** Number of characters of `s` that the encoder rewrites. */
  function SpecialCount(s: string): nat {
    if s == [] then 0 else (if IsSpecial(s[0]) then 1 else 0) + SpecialCount(s[1..])
  }

  /** Replace every occurrence of the one-character pattern `pat` in `s` by
      `rep`, scanning left to right; this is the library's replace-all with
      an unlimited count, for a pattern of length one. */
  function ReplaceAll(s: string, pat: char, rep: string): (r: string)
    ensures pat !in s ==> r == s
  {
    if s == [] then [] else (if s[0] == pat then rep else [s[0]]) + ReplaceAll(s[1..], pat, rep)
  }

  lemma {:induction false} ReplaceAllConcat(a: string, b: string, pat: char, rep: string)
    ensures ReplaceAll(a + b, pat, rep) == ReplaceAll(a, pat, rep) + ReplaceAll(b, pat, rep)
  {
    if a == [] {
      assert a + b == b;
    } else {
      assert (a + b)[0] == a[0];
      assert (a + b)[1..] == a[1..] + b;
      ReplaceAllConcat(a[1..], b, pat, rep);
    }
  }

  /** The escaping exactly as the daemon performs it: five replace-all passes
      in a fixed order. */
  function Escape(input: string): string {
    var afterNewline := ReplaceAll(input, '\n', "\\n");
    var afterReturn := ReplaceAll(afterNewline, '\r', "\\r");
    var afterTab := ReplaceAll(afterReturn, '\t', "\\t");
    var afterQuote := ReplaceAll(afterTab, '\'', "\\'");
    ReplaceAll(afterQuote, '"', "\\\"")
  }

  /** What one character becomes under the escaping. */
  function EscapeChar(c: char): string {
    match c
    case '\n' => "\\n"
    case '\r' => "\\r"
    case '\t' => "\\t"
    case '\'' => "\\'"
    case '"' => "\\\""
    case _ => [c]
  }

  /** Reference definition: escaping as a single per-character map. */
  function EscapeByChar(s: string): string {
    if s == [] then [] else EscapeChar(s[0]) + EscapeByChar(s[1..])
  }

  lemma ReplaceAllOne(c: char, pat: char, rep: string)
    ensures ReplaceAll([c], pat, rep) == if c == pat then rep else [c]
  {
    assert [c][1..] == [];
  }

  /** A pass whose pattern is none of the characters of `s` leaves it as it is. */
  lemma PassOver(s: string, pat: char, rep: string)
    requires |s| == 2 && s[0] == '\\' && pat != '\\' && s[1] != pat
    ensures ReplaceAll(s, pat, rep) == s
  {
    assert pat !in s;
  }

  lemma EscapeOneChar(c: char)
    ensures Escape([c]) == EscapeChar(c)
  {
    var s1 := ReplaceAll([c], '\n', "\\n");
    ReplaceAllOne(c, '\n', "\\n");
    var s2 := ReplaceAll(s1, '\r', "\\r");
    if c == '\n' { PassOver(s1, '\r', "\\r"); } else { ReplaceAllOne(c, '\r', "\\r"); }
    var s3 := ReplaceAll(s2, '\t', "\\t");
    if c in "\n\r" { PassOver(s2, '\t', "\\t"); } else { ReplaceAllOne(c, '\t', "\\t"); }
    var s4 := ReplaceAll(s3, '\'', "\\'");
    if c in "\n\r\t" { PassOver(s3, '\'', "\\'"); } else { ReplaceAllOne(c, '\'', "\\'"); }
    if c in "\n\r\t'" { PassOver(s4, '"', "\\\""); } else { ReplaceAllOne(c, '"', "\\\""); }
  }

  lemma EscapeConcat(a: string, b: string)
    ensures Escape(a + b) == Escape(a) + Escape(b)
  {
    ReplaceAllConcat(a, b, '\n', "\\n");
    var a1, b1 := ReplaceAll(a, '\n', "\\n"), ReplaceAll(b, '\n', "\\n");
    ReplaceAllConcat(a1, b1, '\r', "\\r");
    var a2, b2 := ReplaceAll(a1, '\r', "\\r"), ReplaceAll(b1, '\r', "\\r");
    ReplaceAllConcat(a2, b2, '\t', "\\t");
    var a3, b3 := ReplaceAll(a2, '\t', "\\t"), ReplaceAll(b2, '\t', "\\t");
    ReplaceAllConcat(a3, b3, '\'', "\\'");
    var a4, b4 := ReplaceAll(a3, '\'', "\\'"), ReplaceAll(b3, '\'', "\\'");
    ReplaceAllConcat(a4, b4, '"', "\\\"");
  }

  /** No replacement introduces a character that a later pass rewrites, so
      the five sequential passes equal the single per-character map. */
  lemma {:induction false} EscapeIsCharMap(s: string)
    ensures Escape(s) == EscapeByChar(s)
  {
    if s != [] {
      assert s == [s[0]] + s[1..];
      EscapeConcat([s[0]], s[1..]);
      EscapeOneChar(s[0]);
      EscapeIsCharMap(s[1..]);
    }
  }

  /** No newline, carriage return or tab survives the escaping. */
  lemma EscapeRemovesControls(s: string)
    ensures '\n' !in Escape(s) && '\r' !in Escape(s) && '\t' !in Escape(s)
  {
    EscapeIsCharMap(s);
    EscapeByCharRemovesControls(s);
  }

  lemma {:induction false} EscapeByCharRemovesControls(s: string)
    ensures '\n' !in EscapeByChar(s) && '\r' !in EscapeByChar(s) && '\t' !in EscapeByChar(s)
  {
    if s != [] {
      EscapeByCharRemovesControls(s[1..]);
    }
  }

  /** A string without any of the five special characters is left as it is:
      no pass finds its pattern, and a pass that finds nothing changes
      nothing. */
  lemma EscapeIdentity(s: string)
    requires forall i :: 0 <= i < |s| ==> !IsSpecial(s[i])
    ensures Escape(s) == s
  {
  }

  /** Each special character grows by exactly one backslash; nothing else
      changes length. */
  lemma {:induction false} EscapeLength(s: string)
    ensures |Escape(s)| == |s| + SpecialCount(s)
  {
    EscapeIsCharMap(s);
    EscapeByCharLength(s);
  }

  lemma {:induction false} EscapeByCharLength(s: string)
    ensures |EscapeByChar(s)| == |s| + SpecialCount(s)
  {
    if s != [] {
      EscapeByCharLength(s[1..]);
    }
  }

  /** Every quote character in `r` is immediately preceded by a backslash. */
  predicate QuotesGuarded(r: string) {
    forall i :: 0 <= i < |r| && (r[i] == '\'' || r[i] == '"') ==> 0 < i && r[i - 1] == '\\'
  }

  lemma QuotesGuardedConcat(a: string, b: string)
    requires QuotesGuarded(a) && QuotesGuarded(b)
    ensures QuotesGuarded(a + b)
  {
    var r := a + b;
    forall i | 0 <= i < |r| && (r[i] == '\'' || r[i] == '"')
      ensures 0 < i && r[i - 1] == '\\'
    {
      if i >= |a| {
        assert r[i] == b[i - |a|];
        assert r[i - 1] == b[i - |a| - 1];
      }
    }
  }

  /** After escaping, no single or double quote stands without a backslash
      directly before it. */
  lemma {:induction false} EscapeGuardsQuotes(s: string)
    ensures QuotesGuarded(Escape(s))
  {
    EscapeIsCharMap(s);
    EscapeByCharGuardsQuotes(s);
  }

  lemma {:induction false} EscapeByCharGuardsQuotes(s: string)
    ensures QuotesGuarded(EscapeByChar(s))
  {
    if s != [] {
      EscapeByCharGuardsQuotes(s[1..]);
      QuotesGuardedConcat(EscapeChar(s[0]), EscapeByChar(s[1..]));
    }
  }

  /** A newline between two plain strings becomes a backslash and `n`; the
      rest is unchanged. */
  lemma EscapeNewlineBetween(a: string, b: string)
    requires forall i :: 0 <= i < |a| ==> !IsSpecial(a[i])
    requires forall i :: 0 <= i < |b| ==> !IsSpecial(b[i])
    ensures Escape(a + "\n" + b) == a + "\\n" + b
  {
    EscapeConcat(a + "\n", b);
    EscapeConcat(a, "\n");
    EscapeIdentity(a);
    EscapeIdentity(b);
    EscapeOneChar('\n');
    assert "\n" == ['\n'];
  }

  /** The escaping is not injective: a backslash is never escaped, so a
      newline and the two characters backslash, `n` escape to the same text. */
  lemma EscapeNotInjective()
    ensures "\n" != "\\n" && Escape("\n") == Escape("\\n")
  {
    EscapeOneChar('\n');
    EscapeIdentity("\\n");
  }
}
