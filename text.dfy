/**
 * The JavaScript string primitives the two generators rely on:
 * `startsWith`, `endsWith`, `trimEnd`, `trim`, `toLowerCase`, and the
 * line-terminator and white-space classes of the ECMAScript grammar.
 */
module Text {

  predicate StartsWith(s: string, prefix: string) {
    |prefix| <= |s| && s[..|prefix|] == prefix
  }

  predicate EndsWith(s: string, suffix: string) {
    |suffix| <= |s| && s[|s| - |suffix|..] == suffix
  }

  /** `s` holds `pat` starting at index `i`. */
  predicate OccursAt(s: string, pat: string, i: nat) {
    i + |pat| <= |s| && s[i..i + |pat|] == pat
  }

  lemma AppendAssoc(a: string, b: string, c: string)
    ensures (a + b) + c == a + (b + c)
  {
  }

  /** LineTerminator of ECMAScript: what `.` in a regular expression refuses. */
  predicate IsLineTerminator(c: char) {
    c == '\n' || c == '\r' || c == '\U{2028}' || c == '\U{2029}'
  }

  /** `s` holds no line terminator. */
  predicate SingleLine(s: string) {
    forall i :: 0 <= i < |s| ==> !IsLineTerminator(s[i])
  }

  lemma SingleLineConcat(a: string, b: string)
    requires SingleLine(a) && SingleLine(b)
    ensures SingleLine(a + b)
  {
    forall i | |a| <= i < |a + b| ensures !IsLineTerminator((a + b)[i]) {
      assert (a + b)[i] == b[i - |a|];
    }
  }

  lemma SuffixSingleLine(s: string, t: string)
    requires EndsWith(s, t) && SingleLine(s)
    ensures SingleLine(t)
  {
    forall i | 0 <= i < |t| ensures !IsLineTerminator(t[i]) {
      assert t[i] == s[|s| - |t|..][i];
    }
  }

  /** WhiteSpace or LineTerminator of ECMAScript: what `trim` and `trimEnd` remove. */
  predicate IsJsSpace(c: char) {
    IsLineTerminator(c) ||
    c == '\t' || c == '\U{000B}' || c == '\U{000C}' || c == ' ' || c == '\U{00A0}' ||
    c == '\U{1680}' || ('\U{2000}' <= c <= '\U{200A}') || c == '\U{202F}' ||
    c == '\U{205F}' || c == '\U{3000}' || c == '\U{FEFF}'
  }

  /** `s.trimEnd()`: the longest prefix of `s` that does not end in white space. */
  function TrimEnd(s: string): (r: string)
    ensures StartsWith(s, r)
    ensures r == [] || !IsJsSpace(r[|r| - 1])
    ensures forall i :: |r| <= i < |s| ==> IsJsSpace(s[i])
  {
    if s == [] || !IsJsSpace(s[|s| - 1]) then s else TrimEnd(s[..|s| - 1])
  }

  /** `s.trimStart()`: the longest suffix of `s` that does not start with white space. */
  function TrimStart(s: string): (r: string)
    ensures EndsWith(s, r)
    ensures r == [] || !IsJsSpace(r[0])
    ensures forall i :: 0 <= i < |s| - |r| ==> IsJsSpace(s[i])
  {
    if s == [] || !IsJsSpace(s[0]) then s else TrimStart(s[1..])
  }

  /** `s.trim()`. */
  function Trim(s: string): string {
    TrimEnd(TrimStart(s))
  }

  /**
   * Trimming a text that starts with a non-space character and ends with a
   * non-space character followed by `tail` white space removes exactly `tail`.
   */
  lemma {:induction false} TrimDropsTail(s: string, tail: string)
    requires |tail| < |s| && EndsWith(s, tail)
    requires !IsJsSpace(s[0]) && !IsJsSpace(s[|s| - |tail| - 1])
    requires forall i :: 0 <= i < |tail| ==> IsJsSpace(tail[i])
    ensures Trim(s) == s[..|s| - |tail|]
  {
    assert TrimStart(s) == s;
    TrimEndDropsTail(s, |s| - |tail|);
  }

  lemma {:induction false} TrimEndDropsTail(s: string, n: nat)
    requires 0 < n <= |s| && !IsJsSpace(s[n - 1])
    requires forall i :: n <= i < |s| ==> IsJsSpace(s[i])
    ensures TrimEnd(s) == s[..n]
    decreases |s|
  {
    if |s| > n {
      assert s[..|s| - 1][..n] == s[..n];
      TrimEndDropsTail(s[..|s| - 1], n);
    }
  }

  /** `toLowerCase` restricted to ASCII letters; every other character is kept. */
  function LowerChar(c: char): (r: char)
    ensures 'A' <= c <= 'Z' ==> 'a' <= r <= 'z'
    ensures !('A' <= c <= 'Z') ==> r == c
  {
    if 'A' <= c <= 'Z' then (c as int + 32) as char else c
  }

  function ToLower(s: string): (r: string)
    ensures |r| == |s|
    ensures forall i :: 0 <= i < |s| ==> r[i] == LowerChar(s[i])
  {
    if s == [] then [] else [LowerChar(s[0])] + ToLower(s[1..])
  }

  /** Lowercasing leaves a text without ASCII capitals unchanged. */
  lemma ToLowerUnchanged(s: string)
    requires forall i :: 0 <= i < |s| ==> !('A' <= s[i] <= 'Z')
    ensures ToLower(s) == s
  {
  }

  /** `s.slice(1)`: every character after the first, or `""` for `""`. */
  function DropFirst(s: string): (r: string)
    ensures s != [] ==> r == s[1..]
    ensures s == [] ==> r == []
  {
    if s == [] then [] else s[1..]
  }
}
