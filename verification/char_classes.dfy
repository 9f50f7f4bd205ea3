/** The character classes used by the harvester's regular expressions,
    with JavaScript's meaning. */
module CharClasses {

  /** JavaScript's `\s`: the WhiteSpace and LineTerminator code points. */
  predicate IsSpace(c: char) {
    c == '\t' || c == '\n' || c == '\U{000B}' || c == '\U{000C}' || c == '\r' || c == ' '
    || c == '\U{00A0}' || c == '\U{1680}' || ('\U{2000}' <= c <= '\U{200A}')
    || c == '\U{2028}' || c == '\U{2029}' || c == '\U{202F}' || c == '\U{205F}'
    || c == '\U{3000}' || c == '\U{FEFF}'
  }

  /** The class `[a-zA-Z0-9_]`. */
  predicate IsWordChar(c: char) {
    ('a' <= c <= 'z') || ('A' <= c <= 'Z') || ('0' <= c <= '9') || c == '_'
  }

  /** The class `['"]`. */
  predicate IsQuote(c: char) {
    c == '\'' || c == '"'
  }

  predicate AllSpace(s: string) {
    forall i :: 0 <= i < |s| ==> IsSpace(s[i])
  }

  /** Where a greedy `\s*` starting at `i` stops: the end of the longest
      whitespace run that begins at `i`. */
  function SkipSpaces(s: string, i: nat): (j: nat)
    requires i <= |s|
    ensures i <= j <= |s|
    ensures AllSpace(s[i..j])
    ensures j < |s| ==> !IsSpace(s[j])
    decreases |s| - i
  {
    if i < |s| && IsSpace(s[i]) then SkipSpaces(s, i + 1) else i
  }

  /** A whitespace run followed by a non-space character has exactly one
      place where `\s*` can stop. */
  lemma SkipSpacesUnique(s: string, i: nat, j: nat)
    requires i <= j < |s|
    requires AllSpace(s[i..j]) && !IsSpace(s[j])
    ensures SkipSpaces(s, i) == j
  {
  }

  /** `\s*` started inside the run it takes from `i` ends where it does. */
  lemma SkipSpacesFrom(s: string, i: nat, k: nat)
    requires i <= |s| && i <= k <= SkipSpaces(s, i)
    ensures SkipSpaces(s, k) == SkipSpaces(s, i)
  {
    var q := SkipSpaces(s, i);
    if q < |s| {
      assert s[k..q] == s[i..q][k - i..];
      SkipSpacesUnique(s, k, q);
    } else {
      SkipSpacesToEnd(s, i, k);
    }
  }

  /** A run of whitespace up to the end stays one from every position
      inside it. */
  lemma {:induction false} SkipSpacesToEnd(s: string, i: nat, k: nat)
    requires i <= k <= |s| && SkipSpaces(s, i) == |s|
    ensures SkipSpaces(s, k) == |s|
    decreases |s| - k
  {
    if k < |s| {
      assert IsSpace(s[k]) by { assert s[k] == s[i..|s|][k - i]; }
      SkipSpacesToEnd(s, i, k + 1);
    }
  }

  /** `\s*` in a suffix of a text stops where it stops in the text. */
  lemma {:induction false} SkipSpacesShift(s: string, p: nat, i: nat)
    requires p + i <= |s|
    ensures SkipSpaces(s[p..], i) == SkipSpaces(s, p + i) - p
    decreases |s| - p - i
  {
    if p + i < |s| && IsSpace(s[p + i]) {
      SkipSpacesShift(s, p, i + 1);
    }
  }

  /** Number of occurrences of `c` in `s`. */
  function Count(s: string, c: char): nat {
    if s == [] then 0 else (if s[0] == c then 1 else 0) + Count(s[1..], c)
  }

  lemma {:induction false} CountConcat(a: string, b: string, c: char)
    ensures Count(a + b, c) == Count(a, c) + Count(b, c)
  {
    if a == [] {
      assert a + b == b;
    } else {
      assert (a + b)[1..] == a[1..] + b;
      CountConcat(a[1..], b, c);
    }
  }

  lemma {:induction false} CountZero(s: string, c: char)
    ensures Count(s, c) == 0 <==> c !in s
  {
    if s != [] {
      CountZero(s[1..], c);
      assert s == [s[0]] + s[1..];
    }
  }
}
