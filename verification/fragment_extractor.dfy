/** The fragment extractor of site-template/config-harvester.js: the global
    regular expression `tailwind\.config\s*=\s*({[\s\S]*?});` driven by
    `regex.exec` until it returns null. Written as a hand-coded scanner for
    this one pattern, next to a declarative description of what the
    pattern matches. */
module FragmentExtractor {
  import opened Wrappers
  import opened CharClasses

  /** The literal prefix `tailwind\.config` (the dot is escaped). */
  const Marker: string := "tailwind.config"

  /** A `}` immediately followed by `;` starts at `j`. */
  predicate ClosesAt(s: string, j: int) {
    0 <= j && j + 1 < |s| && s[j] == '}' && s[j + 1] == ';'
  }

  /** One match of the pattern: the marker starts at `start`, the `=` is at
      `eq`, the captured group runs from the `{` at `open` to the `}` at
      `close`, and the match ends after the `;` at `close + 1`. */
  datatype Match = Match(start: nat, eq: nat, open: nat, close: nat)

  /** The marker starts at position `p`. */
  predicate MarkerAt(s: string, p: nat) {
    p + |Marker| <= |s| && s[p..p + |Marker|] == Marker
  }

  /** The pattern matches `s` from `p` with these positions, for some
      length of the lazy `[\s\S]*?`. */
  ghost predicate Pattern(s: string, p: nat, eq: nat, open: nat, close: nat) {
    p + |Marker| <= eq < open < close && close + 1 < |s| &&
    MarkerAt(s, p) &&
    AllSpace(s[p + |Marker|..eq]) && s[eq] == '=' &&
    AllSpace(s[eq + 1..open]) && s[open] == '{' &&
    ClosesAt(s, close)
  }

  /** The lazy `[\s\S]*?` takes the shortest body: no `};` starts strictly
      between the `{` and the chosen `}`. */
  ghost predicate Shortest(s: string, open: nat, close: nat) {
    forall j :: open < j < close ==> !ClosesAt(s, j)
  }

  /** The first `};` at or after `i`. */
  function FindClose(s: string, i: nat): (r: Option<nat>)
    ensures r.Some? ==> i <= r.value && ClosesAt(s, r.value)
    decreases |s| - i
  {
    if i + 1 >= |s| then None
    else if ClosesAt(s, i) then Some(i)
    else FindClose(s, i + 1)
  }

  /** `FindClose` finds the first `};` at or after `i`, and finds none
      only when there is none. */
  lemma {:induction false} FindCloseFirst(s: string, i: nat)
    ensures FindClose(s, i).Some? ==> forall j :: i <= j < FindClose(s, i).value ==> !ClosesAt(s, j)
    ensures FindClose(s, i).None? ==> forall j :: i <= j ==> !ClosesAt(s, j)
    decreases |s| - i
  {
    if i + 1 < |s| && !ClosesAt(s, i) {
      FindCloseFirst(s, i + 1);
    }
  }

  /** The match the regular expression finds when it is tried exactly at
      position `p`: greedy `\s*` around the `=`, then the shortest body. */
  function MatchAt(s: string, p: nat): (r: Option<Match>)
    ensures r.Some? ==> r.value.start == p && Pattern(s, p, r.value.eq, r.value.open, r.value.close)
  {
    if !MarkerAt(s, p) then None
    else
      var eq := SkipSpaces(s, p + |Marker|);
      if eq == |s| || s[eq] != '=' then None
      else
        var open := SkipSpaces(s, eq + 1);
        if open == |s| || s[open] != '{' then None
        else
          match FindClose(s, open + 1)
          case None => None
          case Some(close) => Some(Match(p, eq, open, close))
  }

  /** The body of a match is the shortest one: it ends at the first `};`
      behind the `{`. */
  lemma MatchAtShortest(s: string, p: nat)
    requires MatchAt(s, p).Some?
    ensures Shortest(s, MatchAt(s, p).value.open, MatchAt(s, p).value.close)
  {
    FindCloseFirst(s, MatchAt(s, p).value.open + 1);
  }

  /** The scanner misses nothing: wherever the pattern can match at `p`,
      `MatchAt` finds a match there, with the same `=` and `{`, and a body
      no longer than any other. */
  lemma MatchAtComplete(s: string, p: nat, eq: nat, open: nat, close: nat)
    requires Pattern(s, p, eq, open, close)
    ensures MatchAt(s, p).Some?
    ensures MatchAt(s, p).value.eq == eq && MatchAt(s, p).value.open == open
    ensures MatchAt(s, p).value.close <= close
  {
    SkipSpacesUnique(s, p + |Marker|, eq);
    SkipSpacesUnique(s, eq + 1, open);
    FindCloseFirst(s, open + 1);
  }

  /** `regex.exec(content)` with `lastIndex == from`: the leftmost match
      starting at or after `from`. */
  function FindFrom(s: string, from: nat): (r: Option<Match>)
    ensures r.Some? ==> from <= r.value.start && MatchAt(s, r.value.start) == r
    decreases |s| - from
  {
    if from >= |s| then None
    else
      match MatchAt(s, from)
      case Some(m) => Some(m)
      case None => FindFrom(s, from + 1)
  }

  /** `FindFrom` finds the leftmost match at or after `from`, and finds
      none only when there is none. */
  lemma {:induction false} FindFromFirst(s: string, from: nat)
    ensures FindFrom(s, from).Some? ==> forall p :: from <= p < FindFrom(s, from).value.start ==> MatchAt(s, p).None?
    ensures FindFrom(s, from).None? ==> forall p :: from <= p ==> MatchAt(s, p).None?
    decreases |s| - from
  {
    if from >= |s| {
      forall p | from <= p
        ensures MatchAt(s, p).None?
      {
        assert !MarkerAt(s, p);
      }
    } else if MatchAt(s, from).None? {
      FindFromFirst(s, from + 1);
      assert FindFrom(s, from) == FindFrom(s, from + 1);
    } else {
      assert FindFrom(s, from) == MatchAt(s, from);
    }
  }

  /** Every match the `exec` loop produces from `lastIndex == from`, in
      order: after each match the search resumes behind its `;`. */
  function Matches(s: string, from: nat): (r: seq<Match>)
    requires from <= |s|
    ensures forall k :: 0 <= k < |r| ==> from <= r[k].start && MatchAt(s, r[k].start) == Some(r[k])
    ensures forall k, l :: 0 <= k < l < |r| ==> r[k].close + 2 <= r[l].start
    decreases |s| - from
  {
    match FindFrom(s, from)
    case None => []
    case Some(m) => [m] + Matches(s, m.close + 2)
  }

  /** The captured group `{...}` of a match. */
  function Capture(s: string, m: Match): string
    requires m.open <= m.close < |s|
  {
    s[m.open..m.close + 1]
  }

  /** The captured groups of a sequence of matches, in order. */
  function Captures(s: string, ms: seq<Match>): seq<string>
    requires forall k :: 0 <= k < |ms| ==> ms[k].open <= ms[k].close < |s|
  {
    if ms == [] then [] else [Capture(s, ms[0])] + Captures(s, ms[1..])
  }

  /** The fragments the harvester takes from a file's content, from
      `lastIndex == from` on. */
  function FragmentsFrom(s: string, from: nat): seq<string>
    requires from <= |s|
  {
    Captures(s, Matches(s, from))
  }

  function Fragments(s: string): seq<string> {
    FragmentsFrom(s, 0)
  }

  /** One step of the `exec` loop: a found match contributes its capture and
      the search goes on behind it; no match ends the loop. */
  lemma FragmentsStep(s: string, from: nat)
    requires from <= |s|
    ensures FindFrom(s, from).None? ==> FragmentsFrom(s, from) == []
    ensures FindFrom(s, from).Some? ==>
      var m := FindFrom(s, from).value;
      m.open <= m.close && m.close + 2 <= |s| &&
      FragmentsFrom(s, from) == [Capture(s, m)] + FragmentsFrom(s, m.close + 2)
  {
    if FindFrom(s, from).Some? {
      FragmentsCons(s, from, FindFrom(s, from).value);
    }
  }

  /** `FragmentsStep` where the search finds the match `m`. */
  lemma FragmentsCons(s: string, from: nat, m: Match)
    requires from <= |s| && FindFrom(s, from) == Some(m)
    ensures from < m.close + 2 <= |s| && m.open < m.close
    ensures FragmentsFrom(s, from) == [Capture(s, m)] + FragmentsFrom(s, m.close + 2)
  {
    var ms := Matches(s, from);
    assert ms[1..] == Matches(s, m.close + 2);
  }

  /** Position `p` lies in the span of one of the matches `ms`. */
  ghost predicate Covered(ms: seq<Match>, p: nat) {
    exists k :: 0 <= k < |ms| && ms[k].start <= p < ms[k].close + 2
  }

  /** No match is lost: every position where the pattern matches lies inside
      the span (marker to `;`) of some match the loop produced, so only a
      match that would overlap an earlier one is skipped. */
  lemma MatchesCover(s: string, from: nat, p: nat)
    requires from <= p && from <= |s|
    requires MatchAt(s, p).Some?
    ensures Covered(Matches(s, from), p)
  {
    var k := CoveringMatch(s, from, p);
  }

  /** The index of the match of the loop whose span holds `p`. */
  lemma {:induction false} CoveringMatch(s: string, from: nat, p: nat) returns (k: nat)
    requires from <= p && from <= |s|
    requires MatchAt(s, p).Some?
    ensures k < |Matches(s, from)|
    ensures Matches(s, from)[k].start <= p < Matches(s, from)[k].close + 2
    decreases |s| - from, 1
  {
    var m := MatchesHead(s, from, p);
    if p >= m.close + 2 {
      k := CoveringLater(s, from, p, m);
    } else {
      k := 0;
    }
  }

  /** `CoveringMatch` where `p` lies behind the first match `m`. */
  lemma {:induction false} CoveringLater(s: string, from: nat, p: nat, m: Match) returns (k: nat)
    requires from < m.close + 2 <= p && m.close + 2 <= |s|
    requires MatchAt(s, p).Some?
    requires Matches(s, from) == [m] + Matches(s, m.close + 2)
    ensures k < |Matches(s, from)|
    ensures Matches(s, from)[k].start <= p < Matches(s, from)[k].close + 2
    decreases |s| - from, 0
  {
    var j := CoveringMatch(s, m.close + 2, p);
    CoverShift(Matches(s, from), m, Matches(s, m.close + 2), j, p);
    k := j + 1;
  }

  /** A match covering `p` in the tail of the list covers it in the list. */
  lemma CoverShift(ms: seq<Match>, m: Match, rest: seq<Match>, j: nat, p: nat)
    requires ms == [m] + rest && j < |rest|
    requires rest[j].start <= p < rest[j].close + 2
    ensures j + 1 < |ms| && ms[j + 1].start <= p < ms[j + 1].close + 2
  {
    assert ms[j + 1] == rest[j];
  }

  /** Where the pattern matches at or after `from`, the loop finds a first
      match `m` no later than there. */
  lemma MatchesHead(s: string, from: nat, p: nat) returns (m: Match)
    requires from <= p && from <= |s|
    requires MatchAt(s, p).Some?
    ensures FindFrom(s, from) == Some(m)
    ensures from < m.close + 2 <= |s| && m.start <= p
    ensures Matches(s, from) == [m] + Matches(s, m.close + 2)
  {
    FindFromFirst(s, from);
    m := FindFrom(s, from).value;
    assert MatchAt(s, m.start) == Some(m);
  }

  /** A capture of the pattern: a `{`, a body in which no `}` is followed
      by `;`, and a `}`. */
  predicate IsFragment(f: string) {
    |f| >= 2 && f[0] == '{' && f[|f| - 1] == '}' &&
    forall j :: 0 <= j < |f| - 1 ==> !(f[j] == '}' && f[j + 1] == ';')
  }

  /** Each fragment starts with `{`, ends with the first `}` that is
      followed by `;` (whatever the nesting or quoting inside), so it holds
      no `};`; before it stand the marker, optional whitespace, `=` and
      optional whitespace. */
  lemma CaptureShape(s: string, m: Match)
    requires MatchAt(s, m.start) == Some(m)
    ensures m.open < m.close && m.close + 1 < |s|
    ensures IsFragment(Capture(s, m)) && s[m.close + 1] == ';'
    ensures s[m.start..m.start + |Marker|] == Marker && s[m.eq] == '=' &&
      AllSpace(s[m.start + |Marker|..m.eq]) && AllSpace(s[m.eq + 1..m.open])
  {
    var f := Capture(s, m);
    MatchAtShortest(s, m.start);
    forall j | 0 <= j < |f| - 1
      ensures !(f[j] == '}' && f[j + 1] == ';')
    {
      assert f[j] == s[m.open + j] && f[j + 1] == s[m.open + j + 1];
      if j > 0 {
        assert !ClosesAt(s, m.open + j);
      }
    }
  }

  /** Every fragment of a file starts with `{`, ends with `}` and holds no
      `};`. The `;` behind it and the marker and `=` before it are stated by
      `FragmentsAreCaptures`. */
  lemma {:induction false} FragmentsShape(s: string, from: nat)
    requires from <= |s|
    ensures forall f :: f in FragmentsFrom(s, from) ==> IsFragment(f)
    decreases |s| - from
  {
    if FindFrom(s, from).Some? {
      var m := FindFrom(s, from).value;
      FragmentsCons(s, from, m);
      CaptureShape(s, m);
      FragmentsShape(s, m.close + 2);
      AllFragmentsCons(Capture(s, m), FragmentsFrom(s, m.close + 2));
    }
  }

  /** The captures of a list of matches, index by index. */
  lemma {:induction false} CapturesIndex(s: string, ms: seq<Match>)
    requires forall k :: 0 <= k < |ms| ==> ms[k].open <= ms[k].close < |s|
    ensures |Captures(s, ms)| == |ms|
    ensures forall k :: 0 <= k < |ms| ==> Captures(s, ms)[k] == Capture(s, ms[k])
    decreases |ms|
  {
    if ms != [] {
      CapturesIndex(s, ms[1..]);
      forall k | 0 < k < |ms|
        ensures Captures(s, ms)[k] == Capture(s, ms[k])
      {
        assert ms[1..][k - 1] == ms[k];
      }
    }
  }

  /** The `k`-th fragment is `match[1]` of the `k`-th match of the loop, a
      real match at or after `lastIndex`, so `CaptureShape` applies to it:
      the `;` stands behind it, the marker, `=` and whitespace before it. */
  lemma FragmentsAreCaptures(s: string, from: nat)
    requires from <= |s|
    ensures |FragmentsFrom(s, from)| == |Matches(s, from)|
    ensures forall k :: 0 <= k < |Matches(s, from)| ==>
      from <= Matches(s, from)[k].start && MatchAt(s, Matches(s, from)[k].start) == Some(Matches(s, from)[k]) &&
      FragmentsFrom(s, from)[k] == Capture(s, Matches(s, from)[k])
  {
    CapturesIndex(s, Matches(s, from));
  }

  lemma AllFragmentsCons(f: string, rest: seq<string>)
    requires IsFragment(f) && forall g :: g in rest ==> IsFragment(g)
    ensures forall g :: g in [f] + rest ==> IsFragment(g)
  {
  }

  /** The content holds the marker somewhere. */
  ghost predicate HasMarker(s: string) {
    exists p :: MarkerAt(s, p)
  }

  /** A file without the marker contributes no fragment. */
  lemma NoMarkerNoFragments(s: string)
    requires !HasMarker(s)
    ensures Fragments(s) == []
  {
    match FindFrom(s, 0)
    case None =>
    case Some(m) =>
      assert false;
  }

  /** The match at the start of `Marker + ws1 + "=" + ws2 + lit + ";"`
      when `lit` is a `{...}` with no `;` inside. */
  lemma WholeLiteralMatch(ws1: string, ws2: string, lit: string)
    requires AllSpace(ws1) && AllSpace(ws2)
    requires |lit| >= 2 && lit[0] == '{' && lit[|lit| - 1] == '}' && ';' !in lit
    ensures var s := Marker + ws1 + "=" + ws2 + lit + ";";
      var open := |Marker| + |ws1| + 1 + |ws2|;
      MatchAt(s, 0) == Some(Match(0, |Marker| + |ws1|, open, open + |lit| - 1))
  {
    var s := Marker + ws1 + "=" + ws2 + lit + ";";
    var eq := |Marker| + |ws1|;
    var open := eq + 1 + |ws2|;
    var close := open + |lit| - 1;
    assert s[..|Marker|] == Marker;
    assert s[|Marker|..eq] == ws1;
    assert s[eq] == '=';
    assert s[eq + 1..open] == ws2;
    assert s[open..close + 1] == lit;
    assert s[close + 1] == ';';
    assert Pattern(s, 0, eq, open, close);
    MatchAtComplete(s, 0, eq, open, close);
    var m := MatchAt(s, 0).value;
    forall j | open < j <= close
      ensures s[j] != ';'
    {
      assert s[j] == lit[j - open];
    }
  }

  /** A file whose content is one assignment `tailwind.config = {...};`
      whose literal holds no `;` yields exactly that literal. */
  lemma WholeLiteralExtracted(ws1: string, ws2: string, lit: string)
    requires AllSpace(ws1) && AllSpace(ws2)
    requires |lit| >= 2 && lit[0] == '{' && lit[|lit| - 1] == '}' && ';' !in lit
    ensures Fragments(Marker + ws1 + "=" + ws2 + lit + ";") == [lit]
  {
    var s := Marker + ws1 + "=" + ws2 + lit + ";";
    WholeLiteralMatch(ws1, ws2, lit);
    var m := MatchAt(s, 0).value;
    assert m.close + 2 == |s|;
    assert FindFrom(s, 0) == Some(m);
    assert Matches(s, |s|) == [];
    assert Matches(s, 0) == [m];
    assert s[m.open..m.close + 1] == lit;
    assert Captures(s, [m]) == [Capture(s, m)] + Captures(s, []);
  }

  /** The worked example: the whole literal up to the final `};` is the
      fragment, trailing commas and unquoted keys included. */
  lemma ExtractExample()
    ensures Fragments("tailwind.config = " + "{theme:{extend:{colors:{brand:'#111',},},},}" + ";")
         == ["{theme:{extend:{colors:{brand:'#111',},},},}"]
  {
    var lit := "{theme:{extend:{colors:{brand:'#111',},},},}";
    assert |lit| == 44;
    assert lit[0] == '{';
    assert lit[43] == '}';
    assert ';' !in lit;
    assert Marker + " " + "=" + " " == "tailwind.config = ";
    WholeLiteralExtracted(" ", " ", lit);
  }
}
