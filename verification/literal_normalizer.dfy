/** The literal normalizer of site-template/config-harvester.js: four global
    `String.prototype.replace` calls, applied in order, that turn a
    JavaScript object literal into text for `JSON.parse`. Each global
    replace is a left-to-right scanner: it tries its pattern at the
    current position, writes the replacement and resumes after the match,
    or copies one character and moves on. */
module LiteralNormalizer {
  import opened Wrappers
  import opened CharClasses

  // ---------------------------------------------------------------------
  // Step 1: `.replace(/(['"])?([a-zA-Z0-9_]+)(['"])?:/g, '"$2":')`
  // ---------------------------------------------------------------------

  /** A match of the key pattern at the start of a text: the word
      `t[from..to]`, the match ending (after the `:`) at `end`. */
  datatype Key = Key(from: nat, to: nat, end: nat)

  /** Where a greedy `[a-zA-Z0-9_]+` starting at `i` stops. */
  function WordEnd(s: string, i: nat): (j: nat)
    requires i <= |s|
    ensures i <= j <= |s|
    ensures forall k :: i <= k < j ==> IsWordChar(s[k])
    ensures j < |s| ==> !IsWordChar(s[j])
    decreases |s| - i
  {
    if i < |s| && IsWordChar(s[i]) then WordEnd(s, i + 1) else i
  }

  /** A word run followed by a non-word character has exactly one place
      where the greedy `[a-zA-Z0-9_]+` can stop. */
  lemma WordEndUnique(s: string, i: nat, j: nat)
    requires i <= j < |s|
    requires forall k :: i <= k < j ==> IsWordChar(s[k])
    requires !IsWordChar(s[j])
    ensures WordEnd(s, i) == j
  {
  }

  /** The key pattern matches at the start of `t` with these positions. */
  ghost predicate KeyPattern(t: string, k: Key) {
    k.from < k.to < k.end <= |t| &&
    (k.from == 0 || (k.from == 1 && IsQuote(t[0]))) &&
    (forall i :: k.from <= i < k.to ==> IsWordChar(t[i])) &&
    ((k.end == k.to + 1 && t[k.to] == ':') ||
     (k.end == k.to + 2 && IsQuote(t[k.to]) && t[k.to + 1] == ':'))
  }

  /** The match the key pattern finds when tried at the start of `t` (the
      pattern looks only forward, so trying it at position `p` of a text is
      trying it at the start of the text's suffix from `p`). */
  function KeyAt(t: string): (r: Option<Key>)
    ensures r.Some? ==> KeyPattern(t, r.value)
  {
    if t == [] then None
    else
      var from := if IsQuote(t[0]) then 1 else 0;
      var to := WordEnd(t, from);
      if to == from then None
      else if to < |t| && t[to] == ':' then Some(Key(from, to, to + 1))
      else if to + 1 < |t| && IsQuote(t[to]) && t[to + 1] == ':' then Some(Key(from, to, to + 2))
      else None
  }

  /** The key pattern has at most one way to match (neither the greedy word
      nor the optional quotes can back off to another match), and `KeyAt`
      finds it. */
  lemma KeyAtComplete(t: string, k: Key)
    requires KeyPattern(t, k)
    ensures KeyAt(t) == Some(k)
  {
    assert IsWordChar(t[k.from]);
    assert k.from == if IsQuote(t[0]) then 1 else 0;
    WordEndUnique(t, k.from, k.to);
  }

  /** The replacement `"$2":` for the word `w`. */
  function QuotedKey(w: string): string {
    "\"" + w + "\":"
  }

  /** The global rewrite of step 1: at each position either a key match is
      replaced by `"word":` and the scan resumes behind it, or one
      character is copied. */
  function QuoteKeys(s: string): string
    decreases |s|
  {
    if s == [] then []
    else
      match KeyAt(s)
      case Some(k) => QuotedKey(s[k.from..k.to]) + QuoteKeys(s[k.end..])
      case None => [s[0]] + QuoteKeys(s[1..])
  }

  /** `s` with every `'` and `"` removed. */
  function Unquoted(s: string): string {
    if s == [] then [] else (if IsQuote(s[0]) then [] else [s[0]]) + Unquoted(s[1..])
  }

  lemma {:induction false} UnquotedConcat(a: string, b: string)
    ensures Unquoted(a + b) == Unquoted(a) + Unquoted(b)
  {
    if a == [] {
      assert a + b == b;
    } else {
      assert (a + b)[1..] == a[1..] + b;
      UnquotedConcat(a[1..], b);
    }
  }

  lemma {:induction false} UnquotedWord(s: string)
    requires forall i :: 0 <= i < |s| ==> IsWordChar(s[i])
    ensures Unquoted(s) == s
  {
    if s != [] {
      UnquotedWord(s[1..]);
    }
  }

  /** The text a key match covers is its word and a colon, up to quotes. */
  lemma KeyMatchText(t: string, k: Key)
    requires KeyPattern(t, k)
    ensures Unquoted(t[..k.end]) == t[k.from..k.to] + ":"
  {
    var word := t[k.from..k.to];
    var lead := t[..k.from];
    var tail := t[k.to..k.end];
    SplitThree(t, k.from, k.to, k.end);
    KeyLeadText(t, k);
    KeyTailText(t, k);
    UnquotedWord(word);
    UnquotedConcat(lead + word, tail);
    UnquotedConcat(lead, word);
  }

  lemma SplitThree(t: string, i: nat, j: nat, n: nat)
    requires i <= j <= n <= |t|
    ensures t[..n] == t[..i] + t[i..j] + t[j..n]
  {
  }

  /** The optional opening quote of a key match is a quote or nothing. */
  lemma KeyLeadText(t: string, k: Key)
    requires KeyPattern(t, k)
    ensures Unquoted(t[..k.from]) == []
  {
    if k.from == 1 {
      assert t[..k.from] == [t[0]];
    } else {
      assert t[..k.from] == [];
    }
  }

  /** Behind the word of a key match come an optional quote and the colon. */
  lemma KeyTailText(t: string, k: Key)
    requires KeyPattern(t, k)
    ensures Unquoted(t[k.to..k.end]) == ":"
  {
    var tail := t[k.to..k.end];
    if k.end == k.to + 2 {
      assert tail == [t[k.to]] + [':'];
      UnquotedConcat([t[k.to]], [':']);
    } else {
      assert tail == [':'];
    }
  }

  /** The replacement `"$2":` is the word and a colon, up to quotes. */
  lemma QuotedKeyText(word: string, rest: string)
    requires forall i :: 0 <= i < |word| ==> IsWordChar(word[i])
    ensures Unquoted(QuotedKey(word) + rest) == word + ":" + Unquoted(rest)
  {
    QuotedKeyUnquoted(word);
    UnquotedConcat(QuotedKey(word), rest);
  }

  lemma QuotedKeyUnquoted(word: string)
    requires forall i :: 0 <= i < |word| ==> IsWordChar(word[i])
    ensures Unquoted(QuotedKey(word)) == word + ":"
  {
    var open, close := "\"", "\":";
    assert Unquoted(open) == [];
    assert Unquoted(close) == ":" by {
      assert close[1..] == ":" && ":"[1..] == [];
    }
    UnquotedConcat(open + word, close);
    UnquotedConcat(open, word);
    UnquotedWord(word);
  }

  lemma KeyStepKeepsText(s: string, k: Key)
    requires KeyAt(s) == Some(k)
    requires Unquoted(QuoteKeys(s[k.end..])) == Unquoted(s[k.end..])
    ensures Unquoted(QuoteKeys(s)) == Unquoted(s)
  {
    QuoteKeysKeyText(s, k);
    KeySplitText(s, k);
  }

  /** Up to quotes, step 1 on a text starting with a key match writes the
      word, a colon and what it writes for the rest. */
  lemma QuoteKeysKeyText(s: string, k: Key)
    requires KeyAt(s) == Some(k)
    ensures Unquoted(QuoteKeys(s)) == s[k.from..k.to] + ":" + Unquoted(QuoteKeys(s[k.end..]))
  {
    assert QuoteKeys(s) == QuotedKey(s[k.from..k.to]) + QuoteKeys(s[k.end..]);
    QuotedKeyText(s[k.from..k.to], QuoteKeys(s[k.end..]));
  }

  /** Up to quotes, a text starting with a key match is the word, a colon
      and the rest. */
  lemma KeySplitText(s: string, k: Key)
    requires KeyAt(s) == Some(k)
    ensures Unquoted(s) == s[k.from..k.to] + ":" + Unquoted(s[k.end..])
  {
    KeyMatchText(s, k);
    assert s == s[..k.end] + s[k.end..];
    UnquotedConcat(s[..k.end], s[k.end..]);
  }

  /** Step 1 only inserts, removes or keeps quote characters: with all
      quotes taken out, its output and its input are the same text. */
  lemma {:induction false} QuoteKeysKeepsText(s: string)
    ensures Unquoted(QuoteKeys(s)) == Unquoted(s)
    decreases |s|
  {
    if s != [] {
      match KeyAt(s)
      case Some(k) =>
        QuoteKeysKeepsText(s[k.end..]);
        KeyStepKeepsText(s, k);
      case None =>
        QuoteKeysKeepsText(s[1..]);
        assert s == [s[0]] + s[1..];
        UnquotedConcat([s[0]], s[1..]);
        UnquotedConcat([s[0]], QuoteKeys(s[1..]));
    }
  }

  /** No `:` directly follows a word character. */
  predicate NoBareKey(r: string) {
    forall i :: 0 < i < |r| && r[i] == ':' ==> !IsWordChar(r[i - 1])
  }

  /** After step 1 no `:` directly follows a word character. The output
      starts with the input's first character or with an inserted `"`. */
  lemma {:induction false} QuoteKeysNoBareKey(s: string)
    ensures NoBareKey(QuoteKeys(s))
    ensures s != [] ==> (QuoteKeys(s) != [] && (QuoteKeys(s)[0] == s[0] || QuoteKeys(s)[0] == '"'))
    decreases |s|
  {
    if s != [] {
      match KeyAt(s)
      case Some(k) =>
        QuoteKeysNoBareKey(s[k.end..]);
        var head := QuotedKey(s[k.from..k.to]);
        var tail := QuoteKeys(s[k.end..]);
        var r := head + tail;
        forall i | 0 < i < |r| && r[i] == ':'
          ensures !IsWordChar(r[i - 1])
        {
          if i < |head| {
            assert i == |head| - 1;
          } else if i > |head| {
            assert r[i] == tail[i - |head|];
            assert r[i - 1] == tail[i - 1 - |head|];
          }
        }
      case None =>
        QuoteKeysNoBareKey(s[1..]);
        var tail := QuoteKeys(s[1..]);
        var r := [s[0]] + tail;
        // a word character followed by `:` would have been matched as a key
        assert IsWordChar(s[0]) && 1 < |s| ==> s[1] != ':';
        forall i | 0 < i < |r| && r[i] == ':'
          ensures !IsWordChar(r[i - 1])
        {
          if i > 1 {
            assert r[i] == tail[i - 1] && r[i - 1] == tail[i - 2];
          }
        }
    }
  }

  /** A character at which step 1 can cut a text in two: no key match can
      end on it or run across it. */
  predicate KeyBoundary(c: char) {
    !IsWordChar(c) && !IsQuote(c) && c != ':'
  }

  /** Behind a boundary character the rest of the text cannot change a key
      match: it is the same, and ends before that character. */
  lemma KeyAtPrefix(a: string, b: string)
    requires a != [] && KeyBoundary(a[|a| - 1])
    ensures KeyAt(a + b) == KeyAt(a)
    ensures KeyAt(a).Some? ==> KeyAt(a).value.end < |a|
  {
    var from := if IsQuote(a[0]) then 1 else 0;
    var to := WordEnd(a, from);
    assert from < |a|;
    WordEndUnique(a + b, from, to);
  }

  /** Step 1 works piecewise: a text cut after a boundary character is
      rewritten as its two parts are. */
  lemma {:induction false} QuoteKeysConcat(a: string, b: string)
    requires a != [] ==> KeyBoundary(a[|a| - 1])
    ensures QuoteKeys(a + b) == QuoteKeys(a) + QuoteKeys(b)
    decreases |a|, 1
  {
    if a == [] {
      assert a + b == b;
    } else {
      QuoteKeysConcatNonEmpty(a, b);
    }
  }

  /** `QuoteKeysConcat` for a nonempty first part: its first step, then
      the rest. */
  lemma {:induction false} QuoteKeysConcatNonEmpty(a: string, b: string)
    requires a != [] && KeyBoundary(a[|a| - 1])
    ensures QuoteKeys(a + b) == QuoteKeys(a) + QuoteKeys(b)
    decreases |a|, 0
  {
    var rest := a[KeyResume(a)..];
    assert rest != [] ==> KeyBoundary(rest[|rest| - 1]) by {
      if rest != [] {
        assert rest[|rest| - 1] == a[|a| - 1];
      }
    }
    QuoteKeysConcat(rest, b);
    QuoteKeysStepConcat(a, b);
  }

  /** Where the scan of step 1 resumes after its first step. */
  function KeyResume(s: string): (n: nat)
    requires s != []
    ensures 0 < n <= |s|
  {
    match KeyAt(s)
    case Some(k) => k.end
    case None => 1
  }

  /** The piecewise property across the first step of the scan. */
  lemma QuoteKeysStepConcat(a: string, b: string)
    requires a != [] && KeyBoundary(a[|a| - 1])
    requires QuoteKeys(a[KeyResume(a)..] + b) == QuoteKeys(a[KeyResume(a)..]) + QuoteKeys(b)
    ensures QuoteKeys(a + b) == QuoteKeys(a) + QuoteKeys(b)
  {
    KeyAtPrefix(a, b);
    match KeyAt(a)
    case Some(k) => KeyStepConcat(a, b, k);
    case None => CopyStepConcat(a, b);
  }

  lemma KeyStepConcat(a: string, b: string, k: Key)
    requires KeyAt(a + b) == KeyAt(a) == Some(k) && k.end < |a|
    requires QuoteKeys(a[k.end..] + b) == QuoteKeys(a[k.end..]) + QuoteKeys(b)
    ensures QuoteKeys(a + b) == QuoteKeys(a) + QuoteKeys(b)
  {
    QuoteKeysAtKey(a + b, k);
    QuoteKeysAtKey(a, k);
    SliceOfConcat(a, b, k.end);
    SliceInPrefix(a, b, k.from, k.to);
    Assoc(QuotedKey(a[k.from..k.to]), QuoteKeys(a[k.end..]), QuoteKeys(b));
  }

  /** One unfolding of `QuoteKeys` where the key pattern matches. */
  lemma QuoteKeysAtKey(t: string, k: Key)
    requires KeyAt(t) == Some(k)
    ensures k.from <= k.to < k.end <= |t|
    ensures QuoteKeys(t) == QuotedKey(t[k.from..k.to]) + QuoteKeys(t[k.end..])
  {
  }

  lemma CopyStepConcat(a: string, b: string)
    requires a != [] && KeyAt(a + b) == KeyAt(a) == None
    requires QuoteKeys(a[1..] + b) == QuoteKeys(a[1..]) + QuoteKeys(b)
    ensures QuoteKeys(a + b) == QuoteKeys(a) + QuoteKeys(b)
  {
    SliceOfConcat(a, b, 1);
    Assoc([a[0]], QuoteKeys(a[1..]), QuoteKeys(b));
  }

  /** Regrouping a concatenation. */
  lemma Assoc(x: string, y: string, z: string)
    ensures x + (y + z) == (x + y) + z
  {
  }

  /** Dropping a prefix of the first part of a concatenation. */
  lemma SliceInPrefix(a: string, b: string, i: nat, j: nat)
    requires i <= j <= |a|
    ensures (a + b)[i..j] == a[i..j]
  {
  }

  lemma SliceOfConcat(a: string, b: string, n: nat)
    requires n <= |a|
    ensures (a + b)[n..] == a[n..] + b
  {
  }

  /** A bare key followed by `:` is quoted. */
  lemma QuoteKeysBareKey(w: string, r: string)
    requires w != [] && forall i :: 0 <= i < |w| ==> IsWordChar(w[i])
    ensures QuoteKeys(w + ":" + r) == QuotedKey(w) + QuoteKeys(r)
  {
    var t := w + ":" + r;
    assert t[|w|] == ':';
    KeyAtComplete(t, Key(0, |w|, |w| + 1));
    assert t[0..|w|] == w;
    assert t[|w| + 1..] == r;
  }

  /** Every key match ends on a colon. */
  lemma KeyAtColon(t: string)
    ensures KeyAt(t).Some? ==> KeyAt(t).value.end - 1 < |t| && t[KeyAt(t).value.end - 1] == ':'
  {
  }

  /** A text without `:` holds no key match and passes step 1 unchanged. */
  lemma {:induction false} QuoteKeysNoColon(s: string)
    requires ':' !in s
    ensures QuoteKeys(s) == s
    decreases |s|
  {
    if s != [] {
      KeyAtColon(s);
      QuoteKeysNoColon(s[1..]);
    }
  }

  /** Step 1 leaves a boundary character at the end of a text in place. */
  lemma {:induction false} QuoteKeysLast(s: string)
    requires s != [] && KeyBoundary(s[|s| - 1])
    ensures QuoteKeys(s) != [] && QuoteKeys(s)[|QuoteKeys(s)| - 1] == s[|s| - 1]
    decreases |s|
  {
    KeyAtPrefix(s, []);
    assert s + [] == s;
    match KeyAt(s)
    case Some(k) =>
      QuoteKeysLast(s[k.end..]);
    case None =>
      if |s| > 1 {
        QuoteKeysLast(s[1..]);
      }
  }

  // ---------------------------------------------------------------------
  // Step 2: `.replace(/'/g, '"')`
  // ---------------------------------------------------------------------

  /** Every single quote becomes a double quote; nothing else changes. */
  function SwapQuotes(s: string): (r: string)
    ensures |r| == |s|
    ensures forall i :: 0 <= i < |s| ==> r[i] == (if s[i] == '\'' then '"' else s[i])
  {
    if s == [] then [] else [if s[0] == '\'' then '"' else s[0]] + SwapQuotes(s[1..])
  }

  lemma SwapQuotesConcat(a: string, b: string)
    ensures SwapQuotes(a + b) == SwapQuotes(a) + SwapQuotes(b)
  {
  }

  /** A text without single quotes passes step 2 unchanged. */
  lemma SwapQuotesNoSingle(s: string)
    requires '\'' !in s
    ensures SwapQuotes(s) == s
  {
  }

  // ---------------------------------------------------------------------
  // Steps 3 and 4: `.replace(/,\s*}/g, '}')` and `.replace(/,\s*]/g, ']')`
  // ---------------------------------------------------------------------

  /** The global rewrite `,\s*<close>` to `<close>`: at each position either
      a comma, the whitespace behind it and the `close` are replaced by
      `close` and the scan resumes behind them, or one character is
      copied. */
  function DropCommas(s: string, close: char): string
    decreases |s|
  {
    if s == [] then []
    else if s[0] == ',' && BeforeClose(s, 1, close) then
      [close] + DropCommas(s[SkipSpaces(s, 1) + 1..], close)
    else
      [s[0]] + DropCommas(s[1..], close)
  }

  /** The start of the whitespace run that ends just before `i`. */
  function Back(s: string, i: nat): (j: nat)
    requires i <= |s|
    ensures j <= i
    ensures forall k :: j <= k < i ==> IsSpace(s[k])
    ensures j > 0 ==> !IsSpace(s[j - 1])
    decreases i
  {
    if i > 0 && IsSpace(s[i - 1]) then Back(s, i - 1) else i
  }

  lemma BackUnique(s: string, j: nat, i: nat)
    requires 0 < j <= i <= |s|
    requires forall k :: j <= k < i ==> IsSpace(s[k])
    requires !IsSpace(s[j - 1])
    ensures Back(s, i) == j
  {
  }

  /** The nearest non-whitespace character before `i` is a comma. */
  predicate AfterComma(s: string, i: nat)
    requires i <= |s|
  {
    Back(s, i) > 0 && s[Back(s, i) - 1] == ','
  }

  /** The nearest non-whitespace character at or after `i` is `close`. */
  predicate BeforeClose(s: string, i: nat, close: char)
    requires i <= |s|
  {
    SkipSpaces(s, i) < |s| && s[SkipSpaces(s, i)] == close
  }

  /** Reference meaning of steps 3 and 4: the character at `i` is removed
      exactly when it is a comma, or whitespace whose nearest
      non-whitespace neighbour to the left is a comma, and its nearest
      non-whitespace neighbour to the right is `close`. */
  predicate Dropped(s: string, i: nat, close: char)
    requires i < |s|
  {
    (s[i] == ',' || (IsSpace(s[i]) && AfterComma(s, i))) && BeforeClose(s, i + 1, close)
  }

  /** The characters of `s` from `i` on that `Dropped` keeps. */
  function KeptFrom(s: string, i: nat, close: char): string
    decreases |s| - i
  {
    if i >= |s| then [] else (if Dropped(s, i, close) then [] else [s[i]]) + KeptFrom(s, i + 1, close)
  }

  /** A stretch of dropped characters contributes nothing. */
  lemma {:induction false} KeptSkip(s: string, i: nat, j: nat, close: char)
    requires i <= j <= |s|
    requires forall k :: i <= k < j ==> Dropped(s, k, close)
    ensures KeptFrom(s, i, close) == KeptFrom(s, j, close)
    decreases j - i
  {
    if i < j {
      KeptSkip(s, i + 1, j, close);
    }
  }

  /** The scanner is never resumed inside a `,\s*<close>` stretch. */
  predicate Resumable(s: string, p: nat, close: char)
    requires p <= |s|
  {
    !(AfterComma(s, p) && BeforeClose(s, p, close))
  }

  /** Where the scanner matches `,\s*<close>`, the reference meaning drops
      the comma and the whitespace and keeps the `close`, and the scanner
      resumes at a position where it may. */
  lemma MatchDropped(s: string, p: nat, close: char)
    requires p < |s| && close != ',' && !IsSpace(close)
    requires s[p] == ',' && BeforeClose(s, p + 1, close)
    ensures var q := SkipSpaces(s, p + 1);
      KeptFrom(s, p, close) == [close] + KeptFrom(s, q + 1, close) && Resumable(s, q + 1, close)
  {
    MatchKept(s, p, close);
    ResumeBehind(s, SkipSpaces(s, p + 1), close);
  }

  /** Behind a character that is neither whitespace nor a comma, the scan
      may resume. */
  lemma ResumeBehind(s: string, i: nat, close: char)
    requires i < |s| && !IsSpace(s[i]) && s[i] != ','
    ensures Resumable(s, i + 1, close)
  {
    assert Back(s, i + 1) == i + 1;
  }

  lemma MatchKept(s: string, p: nat, close: char)
    requires p < |s| && close != ',' && !IsSpace(close)
    requires s[p] == ',' && BeforeClose(s, p + 1, close)
    ensures KeptFrom(s, p, close) == [close] + KeptFrom(s, SkipSpaces(s, p + 1) + 1, close)
  {
    var q := SkipSpaces(s, p + 1);
    SpacesDropped(s, p, close);
    KeptSkip(s, p + 1, q, close);
    assert KeptFrom(s, p, close) == KeptFrom(s, p + 1, close) by {
      assert Dropped(s, p, close);
    }
    assert KeptFrom(s, q, close) == [close] + KeptFrom(s, q + 1, close) by {
      assert !Dropped(s, q, close);
    }
  }

  lemma SpacesDropped(s: string, p: nat, close: char)
    requires p < |s| && s[p] == ',' && BeforeClose(s, p + 1, close)
    ensures forall k :: p + 1 <= k < SkipSpaces(s, p + 1) ==> Dropped(s, k, close)
  {
    forall k | p + 1 <= k < SkipSpaces(s, p + 1)
      ensures Dropped(s, k, close)
    {
      SpaceDropped(s, p, k, close);
    }
  }

  /** The whitespace between a comma and the `close` it precedes is
      dropped. */
  lemma SpaceDropped(s: string, p: nat, k: nat, close: char)
    requires p < |s| && s[p] == ',' && BeforeClose(s, p + 1, close)
    requires p + 1 <= k < SkipSpaces(s, p + 1)
    ensures Dropped(s, k, close)
  {
    InSpaceRun(s, p + 1, k);
  }

  /** Inside the whitespace run that `\s*` takes from `i`, the run looks
      the same from every position. */
  lemma InSpaceRun(s: string, i: nat, k: nat)
    requires 0 < i <= |s| && i <= k < SkipSpaces(s, i) && !IsSpace(s[i - 1])
    ensures IsSpace(s[k]) && Back(s, k) == i && SkipSpaces(s, k + 1) == SkipSpaces(s, i)
  {
    var q := SkipSpaces(s, i);
    assert IsSpace(s[k]) by { assert s[k] == s[i..q][k - i]; }
    assert Back(s, k) == i by {
      forall j | i <= j < k
        ensures IsSpace(s[j])
      {
        assert s[j] == s[i..q][j - i];
      }
      BackUnique(s, i, k);
    }
    SkipSpacesFrom(s, i, k + 1);
  }

  /** Where the scanner copies a character, the reference meaning keeps it,
      and the scanner may resume at the next position. */
  lemma CopyKept(s: string, p: nat, close: char)
    requires p < |s| && close != ',' && !IsSpace(close)
    requires Resumable(s, p, close)
    requires !(s[p] == ',' && BeforeClose(s, p + 1, close))
    ensures KeptFrom(s, p, close) == [s[p]] + KeptFrom(s, p + 1, close)
    ensures Resumable(s, p + 1, close)
  {
    if IsSpace(s[p]) {
      assert SkipSpaces(s, p) == SkipSpaces(s, p + 1);
      assert Back(s, p + 1) == Back(s, p);
    } else {
      assert Back(s, p + 1) == p + 1;
    }
  }

  /** One step of the scan of steps 3 and 4 at a match: the closer is
      written and the scan resumes behind it. */
  lemma DropCommasAtMatch(s: string, p: nat, close: char)
    requires p < |s| && s[p] == ',' && BeforeClose(s, p + 1, close)
    ensures DropCommas(s[p..], close) == [close] + DropCommas(s[SkipSpaces(s, p + 1) + 1..], close)
  {
    var q := SkipSpaces(s, p + 1);
    MatchInSuffix(s, p, close);
    DropCommasUnfold(s[p..], close);
    SliceOfSlice(s, p, q - p + 1);
  }

  /** A match of `,\s*<close>` at `p` of `s` is one at the start of the
      suffix from `p`. */
  lemma MatchInSuffix(s: string, p: nat, close: char)
    requires p < |s| && s[p] == ',' && BeforeClose(s, p + 1, close)
    ensures s[p..][0] == ',' && BeforeClose(s[p..], 1, close)
    ensures SkipSpaces(s[p..], 1) == SkipSpaces(s, p + 1) - p
  {
    SkipSpacesShift(s, p, 1);
    assert s[p..][SkipSpaces(s, p + 1) - p] == s[SkipSpaces(s, p + 1)];
  }

  /** One step of the scan of steps 3 and 4 elsewhere: one character is
      copied. */
  lemma DropCommasAtCopy(s: string, p: nat, close: char)
    requires p < |s| && !(s[p] == ',' && BeforeClose(s, p + 1, close))
    ensures DropCommas(s[p..], close) == [s[p]] + DropCommas(s[p + 1..], close)
  {
    var t := s[p..];
    assert !(t[0] == ',' && BeforeClose(t, 1, close)) by {
      var q := SkipSpaces(s, p + 1);
      SkipSpacesShift(s, p, 1);
      if q < |s| {
        assert t[q - p] == s[q];
      }
    }
    DropCommasUnfold(t, close);
    SliceOfSlice(s, p, 1);
  }

  /** One step of the scan of steps 3 and 4. */
  lemma DropCommasUnfold(t: string, close: char)
    requires t != []
    ensures t[0] == ',' && BeforeClose(t, 1, close) ==>
      DropCommas(t, close) == [close] + DropCommas(t[SkipSpaces(t, 1) + 1..], close)
    ensures !(t[0] == ',' && BeforeClose(t, 1, close)) ==>
      DropCommas(t, close) == [t[0]] + DropCommas(t[1..], close)
  {
  }

  /** Dropping from a suffix. */
  lemma SliceOfSlice(s: string, p: nat, n: nat)
    requires p + n <= |s|
    ensures s[p..][n..] == s[p + n..]
  {
  }

  lemma {:induction false} DropCommasIsKeptFrom(s: string, p: nat, close: char)
    requires p <= |s| && close != ',' && !IsSpace(close)
    requires Resumable(s, p, close)
    ensures DropCommas(s[p..], close) == KeptFrom(s, p, close)
    decreases |s| - p, 1
  {
    if p < |s| {
      if s[p] == ',' && BeforeClose(s, p + 1, close) {
        DropCommasIsKeptMatch(s, p, close);
      } else {
        DropCommasIsKeptCopy(s, p, close);
      }
    }
  }

  /** `DropCommasIsKeptFrom` at a match of `,\s*<close>`. */
  lemma {:induction false} DropCommasIsKeptMatch(s: string, p: nat, close: char)
    requires p < |s| && close != ',' && !IsSpace(close)
    requires s[p] == ',' && BeforeClose(s, p + 1, close)
    ensures DropCommas(s[p..], close) == KeptFrom(s, p, close)
    decreases |s| - p, 0
  {
    var r := SkipSpaces(s, p + 1) + 1;
    MatchDropped(s, p, close);
    assert p < r <= |s| && Resumable(s, r, close);
    DropCommasIsKeptFrom(s, r, close);
    DropCommasAtMatch(s, p, close);
  }

  /** `DropCommasIsKeptFrom` where one character is copied. */
  lemma {:induction false} DropCommasIsKeptCopy(s: string, p: nat, close: char)
    requires p < |s| && close != ',' && !IsSpace(close)
    requires Resumable(s, p, close)
    requires !(s[p] == ',' && BeforeClose(s, p + 1, close))
    ensures DropCommas(s[p..], close) == KeptFrom(s, p, close)
    decreases |s| - p, 0
  {
    KeptCopyStep(s, p, close);
    DropCommasIsKeptFrom(s, p + 1, close);
  }

  /** At a copied character, the scan may resume at the next position,
      and the scanner and the reference agree once they agree behind it. */
  lemma KeptCopyStep(s: string, p: nat, close: char)
    requires p < |s| && close != ',' && !IsSpace(close)
    requires Resumable(s, p, close)
    requires !(s[p] == ',' && BeforeClose(s, p + 1, close))
    ensures Resumable(s, p + 1, close)
    ensures DropCommas(s[p + 1..], close) == KeptFrom(s, p + 1, close) ==>
      DropCommas(s[p..], close) == KeptFrom(s, p, close)
  {
    DropCommasAtCopy(s, p, close);
    CopyKept(s, p, close);
  }

  /** The scanner of steps 3 and 4 removes exactly the characters the
      reference meaning `Dropped` names, and keeps the rest in order. */
  lemma DropCommasIsKept(s: string, close: char)
    requires close != ',' && !IsSpace(close)
    ensures DropCommas(s, close) == KeptFrom(s, 0, close)
  {
    DropCommasIsKeptFrom(s, 0, close);
    assert s[0..] == s;
  }

  lemma {:induction false} KeptFromCount(s: string, i: nat, close: char, c: char)
    requires i <= |s| && c != ',' && !IsSpace(c)
    ensures Count(KeptFrom(s, i, close), c) == Count(s[i..], c)
    decreases |s| - i
  {
    if i < |s| {
      KeptFromCount(s, i + 1, close, c);
      assert s[i..][1..] == s[i + 1..];
      var head := if Dropped(s, i, close) then [] else [s[i]];
      CountConcat(head, KeptFrom(s, i + 1, close), c);
    }
  }

  /** Steps 3 and 4 delete only commas and whitespace: every other
      character, `}` and `]` included, occurs as often as before. */
  lemma DropCommasCount(s: string, close: char, c: char)
    requires close != ',' && !IsSpace(close)
    requires c != ',' && !IsSpace(c)
    ensures Count(DropCommas(s, close), c) == Count(s, c)
  {
    DropCommasIsKept(s, close);
    KeptFromCount(s, 0, close, c);
    assert s[0..] == s;
  }

  /** A text without commas passes steps 3 and 4 unchanged. */
  lemma {:induction false} DropCommasNoComma(s: string, close: char)
    requires ',' !in s
    ensures DropCommas(s, close) == s
  {
    if s != [] {
      DropCommasNoComma(s[1..], close);
    }
  }

  /** `\s*` stops at the latest at a non-whitespace character. */
  lemma {:induction false} SkipSpacesStops(s: string, i: nat, k: nat)
    requires i <= k < |s| && !IsSpace(s[k])
    ensures SkipSpaces(s, i) <= k
    decreases k - i
  {
    if i < k && IsSpace(s[i]) {
      SkipSpacesStops(s, i + 1, k);
    }
  }

  /** Behind a character that is neither a comma nor whitespace the rest of
      the text cannot change a `,\s*<close>` match. */
  lemma SkipSpacesPrefix(a: string, b: string, i: nat)
    requires i < |a| && !IsSpace(a[|a| - 1])
    ensures SkipSpaces(a + b, i) == SkipSpaces(a, i) < |a|
  {
    var j := SkipSpaces(a, i);
    SkipSpacesStops(a, i, |a| - 1);
    assert (a + b)[i..j] == a[i..j];
    assert (a + b)[j] == a[j];
    SkipSpacesUnique(a + b, i, j);
  }

  /** Steps 3 and 4 work piecewise: a text cut after a character that is
      neither a comma nor whitespace is rewritten as its two parts are. */
  lemma {:induction false} DropCommasConcat(a: string, b: string, close: char)
    requires a != [] ==> a[|a| - 1] != ',' && !IsSpace(a[|a| - 1])
    ensures DropCommas(a + b, close) == DropCommas(a, close) + DropCommas(b, close)
    decreases |a|
  {
    if a == [] {
      assert a + b == b;
    } else {
      var n := CommaResume(a, close);
      DropCommasConcat(a[n..], b, close);
      DropCommasStepConcat(a, b, close);
    }
  }

  /** Where the scan of steps 3 and 4 resumes after its first step. */
  function CommaResume(s: string, close: char): (n: nat)
    requires s != []
    ensures 0 < n <= |s|
  {
    if s[0] == ',' && BeforeClose(s, 1, close) then SkipSpaces(s, 1) + 1 else 1
  }

  /** The piecewise property across the first step of the scan. */
  lemma DropCommasStepConcat(a: string, b: string, close: char)
    requires a != [] && a[|a| - 1] != ',' && !IsSpace(a[|a| - 1])
    requires var n := CommaResume(a, close);
      DropCommas(a[n..] + b, close) == DropCommas(a[n..], close) + DropCommas(b, close)
    ensures DropCommas(a + b, close) == DropCommas(a, close) + DropCommas(b, close)
  {
    if a[0] == ',' && BeforeClose(a, 1, close) {
      MatchStepConcat(a, b, close);
    } else {
      CopyStepConcatDrop(a, b, close);
    }
  }

  lemma MatchStepConcat(a: string, b: string, close: char)
    requires a != [] && a[|a| - 1] != ',' && !IsSpace(a[|a| - 1])
    requires a[0] == ',' && BeforeClose(a, 1, close)
    requires var q := SkipSpaces(a, 1);
      DropCommas(a[q + 1..] + b, close) == DropCommas(a[q + 1..], close) + DropCommas(b, close)
    ensures DropCommas(a + b, close) == DropCommas(a, close) + DropCommas(b, close)
  {
    var rest := a[SkipSpaces(a, 1) + 1..];
    MatchInPrefix(a, b, close);
    DropCommasUnfold(a, close);
    Assoc([close], DropCommas(rest, close), DropCommas(b, close));
  }

  /** A `,\s*<close>` match at the start of `a` is a match of `a + b`. */
  lemma MatchInPrefix(a: string, b: string, close: char)
    requires a != [] && a[|a| - 1] != ',' && !IsSpace(a[|a| - 1])
    requires a[0] == ',' && BeforeClose(a, 1, close)
    ensures var q := SkipSpaces(a, 1);
      q < |a| && DropCommas(a + b, close) == [close] + DropCommas(a[q + 1..] + b, close)
  {
    var q := SkipSpaces(a, 1);
    SkipSpacesPrefix(a, b, 1);
    assert (a + b)[q] == a[q];
    SliceOfConcat(a, b, q + 1);
    DropCommasUnfold(a + b, close);
  }

  lemma CopyStepConcatDrop(a: string, b: string, close: char)
    requires a != [] && a[|a| - 1] != ',' && !IsSpace(a[|a| - 1])
    requires !(a[0] == ',' && BeforeClose(a, 1, close))
    requires DropCommas(a[1..] + b, close) == DropCommas(a[1..], close) + DropCommas(b, close)
    ensures DropCommas(a + b, close) == DropCommas(a, close) + DropCommas(b, close)
  {
    assert DropCommas(a + b, close) == [a[0]] + DropCommas(a[1..] + b, close) by {
      if a[0] == ',' {
        SkipSpacesPrefix(a, b, 1);
        assert (a + b)[SkipSpaces(a, 1)] == a[SkipSpaces(a, 1)];
      }
      SliceOfConcat(a, b, 1);
      DropCommasUnfold(a + b, close);
    }
    assert DropCommas(a, close) == [a[0]] + DropCommas(a[1..], close) by {
      DropCommasUnfold(a, close);
    }
    Assoc([a[0]], DropCommas(a[1..], close), DropCommas(b, close));
  }

  /** Steps 3 and 4 leave a last character that is neither a comma nor
      whitespace in place. */
  lemma {:induction false} DropCommasLast(s: string, close: char)
    requires s != [] && s[|s| - 1] != ',' && !IsSpace(s[|s| - 1])
    ensures DropCommas(s, close) != []
    ensures DropCommas(s, close)[|DropCommas(s, close)| - 1] == s[|s| - 1]
    decreases |s|, 1
  {
    if s[0] == ',' && BeforeClose(s, 1, close) {
      DropCommasLastMatch(s, close);
    } else {
      DropCommasLastCopy(s, close);
    }
  }

  /** `DropCommasLast` when the text starts with a match of `,\s*<close>`. */
  lemma {:induction false} DropCommasLastMatch(s: string, close: char)
    requires s != [] && s[|s| - 1] != ',' && !IsSpace(s[|s| - 1])
    requires s[0] == ',' && BeforeClose(s, 1, close)
    ensures DropCommas(s, close) != []
    ensures DropCommas(s, close)[|DropCommas(s, close)| - 1] == s[|s| - 1]
    decreases |s|, 0
  {
    DropCommasUnfold(s, close);
    var rest := s[SkipSpaces(s, 1) + 1..];
    if rest != [] {
      assert rest[|rest| - 1] == s[|s| - 1];
      DropCommasLast(rest, close);
    }
  }

  /** `DropCommasLast` when the text starts with a copied character. */
  lemma {:induction false} DropCommasLastCopy(s: string, close: char)
    requires s != [] && s[|s| - 1] != ',' && !IsSpace(s[|s| - 1])
    requires !(s[0] == ',' && BeforeClose(s, 1, close))
    ensures DropCommas(s, close) != []
    ensures DropCommas(s, close)[|DropCommas(s, close)| - 1] == s[|s| - 1]
    decreases |s|, 0
  {
    DropCommasUnfold(s, close);
    var rest := s[1..];
    if rest != [] {
      assert rest[|rest| - 1] == s[|s| - 1];
      DropCommasLast(rest, close);
    }
  }

  // ---------------------------------------------------------------------
  // The chain
  // ---------------------------------------------------------------------

  /** The four rewrites, in source order. */
  function Normalize(fragment: string): string {
    DropCommas(DropCommas(SwapQuotes(QuoteKeys(fragment)), '}'), ']')
  }

  lemma {:induction false} CountUnquoted(s: string, c: char)
    requires !IsQuote(c)
    ensures Count(Unquoted(s), c) == Count(s, c)
  {
    if s != [] {
      CountUnquoted(s[1..], c);
      CountConcat(if IsQuote(s[0]) then [] else [s[0]], Unquoted(s[1..]), c);
    }
  }

  lemma {:induction false} CountSwapQuotes(s: string, c: char)
    requires !IsQuote(c)
    ensures Count(SwapQuotes(s), c) == Count(s, c)
  {
    if s != [] {
      CountSwapQuotes(s[1..], c);
      var r := SwapQuotes(s);
      assert r[1..] == SwapQuotes(s[1..]);
    }
  }

  /** The normalized text holds no single quote. */
  lemma NormalizeNoSingleQuote(fragment: string)
    ensures '\'' !in Normalize(fragment)
  {
    var swapped := SwapQuotes(QuoteKeys(fragment));
    CountZero(swapped, '\'');
    DropCommasCount(swapped, '}', '\'');
    var inner := DropCommas(swapped, '}');
    DropCommasCount(inner, ']', '\'');
    CountZero(Normalize(fragment), '\'');
  }

  /** Normalizing keeps every character other than quotes, commas and
      whitespace as often as it was: the braces, brackets and colons of the
      fragment are all still there. */
  lemma NormalizeKeepsStructure(fragment: string, c: char)
    requires !IsQuote(c) && c != ',' && !IsSpace(c)
    ensures Count(Normalize(fragment), c) == Count(fragment, c)
  {
    QuoteKeysKeepsText(fragment);
    CountUnquoted(QuoteKeys(fragment), c);
    CountUnquoted(fragment, c);
    var swapped := SwapQuotes(QuoteKeys(fragment));
    CountSwapQuotes(QuoteKeys(fragment), c);
    DropCommasCount(swapped, '}', c);
    DropCommasCount(DropCommas(swapped, '}'), ']', c);
  }

  /** A character after which the whole chain can cut a text: no rewrite
      of any step can end on it or run across it. */
  predicate PieceEnd(c: char) {
    KeyBoundary(c) && c != ',' && !IsSpace(c)
  }

  /** Normalizing is local: a text cut after a `PieceEnd` character (a
      brace, say) normalizes as its two parts do. */
  lemma NormalizeConcat(a: string, b: string)
    requires a != [] ==> PieceEnd(a[|a| - 1])
    ensures Normalize(a + b) == Normalize(a) + Normalize(b)
  {
    if a == [] {
      assert a + b == b;
    } else {
      var qa, qb := QuoteKeys(a), QuoteKeys(b);
      QuoteKeysConcat(a, b);
      QuoteKeysLast(a);
      var sa, sb := SwapQuotes(qa), SwapQuotes(qb);
      SwapQuotesConcat(qa, qb);
      assert sa[|sa| - 1] == a[|a| - 1];
      var da, db := DropCommas(sa, '}'), DropCommas(sb, '}');
      DropCommasConcat(sa, sb, '}');
      DropCommasLast(sa, '}');
      DropCommasConcat(da, db, ']');
    }
  }

  /** A text without colons, single quotes and commas is already
      normalized. */
  lemma NormalizePlain(s: string)
    requires ':' !in s && '\'' !in s && ',' !in s
    ensures Normalize(s) == s
  {
    QuoteKeysNoColon(s);
    SwapQuotesNoSingle(s);
    DropCommasNoComma(s, '}');
    DropCommasNoComma(s, ']');
  }

  /** A nonempty run of word characters, the shape of a bare key. */
  predicate Word(w: string) {
    w != [] && forall i :: 0 <= i < |w| ==> IsWordChar(w[i])
  }

  /** Text a single-quoted string value may hold for the rewrites to leave
      it alone. */
  predicate PlainValue(v: string) {
    ':' !in v && '\'' !in v && ',' !in v
  }

  /** The chain, given what step 1 and step 2 produce, for a result
      without commas. */
  lemma NormalizeVia(x: string, q: string, r: string)
    requires QuoteKeys(x) == q && SwapQuotes(q) == r && ',' !in r
    ensures Normalize(x) == r
  {
    DropCommasNoComma(r, '}');
    DropCommasNoComma(r, ']');
  }

  /** A quoted key holds neither single quotes nor commas. */
  lemma QuotedKeyClean(w: string)
    requires Word(w)
    ensures var k := "\"" + w + "\":"; '\'' !in k && ',' !in k
  {
    var k := "\"" + w + "\":";
    assert forall i :: 0 <= i < |k| ==> k[i] == '"' || k[i] == ':' || IsWordChar(k[i]);
  }

  /** A bare key opening a nested object. */
  lemma NormalizeKeyPiece(w: string)
    requires Word(w)
    ensures Normalize(w + ":" + "{") == "\"" + w + "\":{"
  {
    var k := "\"" + w + "\":";
    QuoteKeysBareKey(w, "{");
    QuoteKeysNoColon("{");
    QuotedKeyClean(w);
    assert k + "{" == "\"" + w + "\":{";
    SwapQuotesNoSingle(k + "{");
    NormalizeVia(w + ":" + "{", k + "{", k + "{");
  }

  /** The trailing comma before `}` goes in steps 3 and 4. */
  lemma DropTrailingComma()
    ensures DropCommas(",}", '}') == "}"
    ensures DropCommas("}", ']') == "}"
  {
  }

  /** Step 2 on a single-quoted value without inner single quotes. */
  lemma SwapQuoted(v: string)
    requires '\'' !in v
    ensures SwapQuotes("'" + v + "'") == "\"" + v + "\""
  {
    var open := "'" + v;
    SwapQuotesConcat("'", v);
    SwapQuotesNoSingle(v);
    assert SwapQuotes(open) == "\"" + v;
    SwapQuotesConcat(open, "'");
  }

  /** Step 2 on a quoted key, a single-quoted value and a trailing `,}`. */
  lemma SwapEntry(key: string, v: string)
    requires '\'' !in key && '\'' !in v
    ensures SwapQuotes(key + ("'" + v + "'" + ",}")) == key + ("\"" + v + "\"") + ",}"
  {
    var quoted := "'" + v + "'";
    SwapQuoted(v);
    SwapQuotesConcat(quoted, ",}");
    SwapQuotesNoSingle(",}");
    SwapQuotesConcat(key, quoted + ",}");
    SwapQuotesNoSingle(key);
  }

  /** An entry with a single-quoted string value and a trailing comma
      before the closing brace: `k:'v',}` becomes `"k":"v"}`, for every
      bare key and every plain value. */
  lemma NormalizeEntry(k: string, v: string)
    requires Word(k) && PlainValue(v)
    ensures Normalize(k + ":" + ("'" + v + "'" + ",}")) == ("\"" + k + "\":" + ("\"" + v + "\"")) + "}"
  {
    var key := "\"" + k + "\":";
    QuoteSwapEntry(k, v);
    QuotedKeyClean(k);
    var a := key + ("\"" + v + "\"");
    assert ',' !in a && a[|a| - 1] == '"';
    DropCommasEntry(a);
  }

  /** Steps 1 and 2 on one entry: the key is quoted, the value's quotes
      swapped, the trailing `,}` kept. */
  lemma QuoteSwapEntry(k: string, v: string)
    requires Word(k) && PlainValue(v)
    ensures SwapQuotes(QuoteKeys(k + ":" + ("'" + v + "'" + ",}"))) == ("\"" + k + "\":" + ("\"" + v + "\"")) + ",}"
  {
    QuoteEntry(k, "'" + v + "'" + ",}");
    QuotedKeyClean(k);
    SwapEntry("\"" + k + "\":", v);
  }

  /** Step 1 on a bare key followed by text without `:`. */
  lemma QuoteEntry(k: string, tail: string)
    requires Word(k) && ':' !in tail
    ensures QuoteKeys(k + ":" + tail) == "\"" + k + "\":" + tail
  {
    QuoteKeysBareKey(k, tail);
    QuoteKeysNoColon(tail);
  }

  /** Steps 3 and 4 on comma-free text closed by `,}`: the comma goes. */
  lemma DropCommasEntry(a: string)
    requires ',' !in a && (a != [] ==> !IsSpace(a[|a| - 1]))
    ensures DropCommas(DropCommas(a + ",}", '}'), ']') == a + "}"
  {
    DropCommasConcat(a, ",}", '}');
    DropCommasNoComma(a, '}');
    DropTrailingComma();
    DropCommasNoComma(a + "}", ']');
  }

  /** A trailing comma before the closing brace of an object. */
  lemma NormalizeClosePiece()
    ensures Normalize(",}") == "}"
  {
    QuoteKeysNoColon(",}");
    SwapQuotesNoSingle(",}");
    DropTrailingComma();
  }

  /** An innermost object holding one string entry, `k:'v',}`, with the
      trailing commas of the two objects around it. */
  lemma NormalizeInner(k: string, v: string)
    requires Word(k) && PlainValue(v)
    ensures Normalize((k + ":" + ("'" + v + "'" + ",}")) + (",}" + ",}"))
         == (("\"" + k + "\":" + ("\"" + v + "\"")) + "}") + ("}" + "}")
  {
    var a, c := k + ":" + ("'" + v + "'" + ",}"), ",}";
    NormalizeEntry(k, v);
    NormalizeClosePiece();
    NormalizeConcat(c, c);
    assert a[|a| - 1] == '}';
    NormalizeConcat(a, c + c);
  }

  /** Two bare keys opening nested objects, around normalized text `rest`. */
  lemma NormalizeTwoKeys(w1: string, w2: string, rest: string)
    requires Word(w1) && Word(w2)
    ensures Normalize((w1 + ":" + "{") + ((w2 + ":" + "{") + rest))
         == ("\"" + w1 + "\":{") + (("\"" + w2 + "\":{") + Normalize(rest))
  {
    var a, b := w1 + ":" + "{", w2 + ":" + "{";
    NormalizeKeyPiece(w1);
    NormalizeKeyPiece(w2);
    assert b[|b| - 1] == '{';
    NormalizeConcat(b, rest);
    assert a[|a| - 1] == '{';
    NormalizeConcat(a, b + rest);
  }

  /** A bare key opening an object whose entries `body` end on a piece
      boundary, followed by the trailing comma and the closing brace. */
  lemma NormalizeKeyClosed(w: string, body: string)
    requires Word(w) && body != [] && PieceEnd(body[|body| - 1])
    ensures Normalize((w + ":" + "{") + body + ",}") == ("\"" + w + "\":{") + Normalize(body) + "}"
  {
    var c := w + ":" + "{";
    NormalizeKeyPiece(w);
    assert c[|c| - 1] == '{';
    NormalizeConcat(c, body);
    var cb := c + body;
    assert cb[|cb| - 1] == body[|body| - 1];
    NormalizeClosePiece();
    NormalizeConcat(cb, ",}");
  }

  /** The shape of the worked example, for any bare keys and any plain
      string value: `{w1:{w2:{w3:{k:'v',},},},}` becomes
      `{"w1":{"w2":{"w3":{"k":"v"}}}}`. */
  lemma NormalizeNested(w1: string, w2: string, w3: string, k: string, v: string)
    requires Word(w1) && Word(w2) && Word(w3) && Word(k) && PlainValue(v)
    ensures Normalize("{" + ((w1 + ":" + "{") + ((w2 + ":" + "{")
                      + (((w3 + ":" + "{") + ((k + ":" + ("'" + v + "'" + ",}")) + (",}" + ",}"))) + ",}"))))
         == "{" + (("\"" + w1 + "\":{") + (("\"" + w2 + "\":{") + (("\"" + w3 + "\":{")
                  + ((("\"" + k + "\":" + ("\"" + v + "\"")) + "}") + ("}" + "}")) + "}")))
  {
    var rest := (w3 + ":" + "{") + ((k + ":" + ("'" + v + "'" + ",}")) + (",}" + ",}")) + ",}";
    NormalizeInnermost(w3, k, v);
    NormalizeTwoKeys(w1, w2, rest);
    NormalizePlain("{");
    NormalizeConcat("{", (w1 + ":" + "{") + ((w2 + ":" + "{") + rest));
  }

  /** The innermost object of `NormalizeNested` under its key `w3`. */
  lemma NormalizeInnermost(w3: string, k: string, v: string)
    requires Word(w3) && Word(k) && PlainValue(v)
    ensures Normalize((w3 + ":" + "{") + ((k + ":" + ("'" + v + "'" + ",}")) + (",}" + ",}")) + ",}")
         == ("\"" + w3 + "\":{") + ((("\"" + k + "\":" + ("\"" + v + "\"")) + "}") + ("}" + "}")) + "}"
  {
    var inner := (k + ":" + ("'" + v + "'" + ",}")) + (",}" + ",}");
    NormalizeInner(k, v);
    assert inner[|inner| - 1] == '}';
    NormalizeKeyClosed(w3, inner);
  }

  /** The pieces of the worked example spell its fragment. */
  lemma ExampleText()
    ensures "{" + (("theme" + ":" + "{") + (("extend" + ":" + "{")
                      + ((("colors" + ":" + "{") + (("brand" + ":" + ("'" + "#111" + "'" + ",}")) + (",}" + ",}"))) + ",}")))
         == "{theme:{extend:{colors:{brand:'#111',},},},}"
  {
  }

  /** The worked example: trailing commas and bare keys are normalized
      away, `{theme:{extend:{colors:{brand:'#111',},},},}` becoming
      `{"theme":{"extend":{"colors":{"brand":"#111"}}}}`. */
  lemma NormalizeExample()
    ensures Normalize("{" + (("theme" + ":" + "{") + (("extend" + ":" + "{")
                      + ((("colors" + ":" + "{") + (("brand" + ":" + ("'" + "#111" + "'" + ",}")) + (",}" + ",}"))) + ",}"))))
         == "{" + (("\"" + "theme" + "\":{") + (("\"" + "extend" + "\":{") + (("\"" + "colors" + "\":{")
                  + ((("\"" + "brand" + "\":" + ("\"" + "#111" + "\"")) + "}") + ("}" + "}")) + "}")))
  {
    NormalizeNested("theme", "extend", "colors", "brand", "#111");
  }
}
