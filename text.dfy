/** Character-level helpers that the specialty matcher relies on: lower-casing and
    substring search, i.e. Python's `str.lower()` and the `in` operator on strings. */
module Text {

  predicate IsUpper(c: char) {
    'A' <= c <= 'Z'
  }

  /** A string none of whose characters lower-casing would change. */
  predicate IsLowerCase(s: string) {
    forall i :: 0 <= i < |s| ==> !IsUpper(s[i])
  }

  /** Case folding of one character. Only the ASCII letters A-Z are folded. */
  function Lower(c: char): (r: char)
    ensures !IsUpper(r)
    ensures !IsUpper(c) ==> r == c
  {
    if IsUpper(c) then (c as int - 'A' as int + 'a' as int) as char else c
  }

  /** `s.lower()`: the string with every character case-folded. */
  function LowerStr(s: string): (r: string)
    ensures |r| == |s| && IsLowerCase(r)
  {
    seq(|s|, i requires 0 <= i < |s| => Lower(s[i]))
  }

  /** Two characters that are equal, or are the upper- and lower-case forms of one ASCII letter. */
  predicate SameUpToCase(x: char, y: char) {
    x == y
    || ('A' <= x <= 'Z' && y as int == x as int + 32)
    || ('A' <= y <= 'Z' && x as int == y as int + 32)
  }

  /** Two strings that differ at most in the case of their letters. */
  predicate CaseEquivalent(a: string, b: string) {
    |a| == |b| && forall i :: 0 <= i < |a| ==> SameUpToCase(a[i], b[i])
  }

  /** `sub` occurs in `s` starting at offset `i`. */
  predicate OccursAt(s: string, sub: string, i: int) {
    0 <= i && i + |sub| <= |s| && s[i..i + |sub|] == sub
  }

  /** Python's `sub in s`: `sub` occurs in `s` at some offset (the empty string occurs everywhere). */
  predicate Contains(s: string, sub: string) {
    exists i | 0 <= i <= |s| - |sub| :: OccursAt(s, sub, i)
  }

  /** Lower-casing is idempotent. */
  lemma LowerStrIdempotent(s: string)
    ensures LowerStr(LowerStr(s)) == LowerStr(s)
  {
  }

  /** Two strings have the same lower-case form exactly when they differ only in case. */
  lemma CaseEquivalentIffSameLower(a: string, b: string)
    ensures CaseEquivalent(a, b) <==> LowerStr(a) == LowerStr(b)
  {
    if LowerStr(a) == LowerStr(b) {
      forall i | 0 <= i < |a|
        ensures Lower(a[i]) == Lower(b[i])
      {
        assert LowerStr(a)[i] == LowerStr(b)[i];
      }
    }
  }

  /** Only the empty string occurs in the empty string. */
  lemma ContainsInEmpty(sub: string)
    ensures Contains("", sub) <==> sub == ""
  {
    if sub == "" {
      assert OccursAt("", sub, 0);
    }
  }

  /** Every character of an occurring substring occurs in the string. */
  lemma ContainsKeepsChars(s: string, sub: string, c: char)
    requires Contains(s, sub) && c in sub
    ensures c in s
  {
  }

  /** Case-folding both sides keeps an occurrence where it was. */
  lemma LowerStrKeepsOccurrence(s: string, sub: string, i: int)
    requires OccursAt(s, sub, i)
    ensures OccursAt(LowerStr(s), LowerStr(sub), i)
  {
  }

  /** A word with a character whose lower-case form the text lacks does not occur in it. */
  lemma MissingCharRulesOut(s: string, word: string, k: int)
    requires 0 <= k < |word| && Lower(word[k]) !in s
    ensures !Contains(s, LowerStr(word))
  {
    if Contains(s, LowerStr(word)) {
      ContainsKeepsChars(s, LowerStr(word), LowerStr(word)[k]);
    }
  }
}
