/** The merge step of site-template/config-harvester.js: a parsed config
    object is folded into the accumulator `{extend: {colors, fontFamily}}`
    with `Object.assign`, but only when its `theme.extend` is truthy. */
module ThemeMerger {
  import opened Wrappers
  import LiteralNormalizer

  /** A value `JSON.parse` can return. An object is its own properties;
      their order is not kept. */
  datatype Value =
    | Null
    | Bool(b: bool)
    | Num(n: real)
    | Str(s: string)
    | Arr(items: seq<Value>)
    | Obj(fields: map<string, Value>)

  /** JavaScript truthiness of a JSON value: `null`, `false`, `0` and `""`
      are falsy; every array and object is truthy. */
  predicate Truthy(v: Value) {
    match v
    case Null => false
    case Bool(b) => b
    case Num(n) => n != 0.0
    case Str(s) => s != []
    case Arr(_) => true
    case Obj(_) => true
  }

  /** `v.key` for a value that is not `null`: the own property of an
      object, and `undefined` (`None`) for everything else, since neither
      the primitives nor arrays nor `Object.prototype` carry the property
      names read here. */
  function Prop(v: Value, key: string): Option<Value> {
    if v.Obj? && key in v.fields then Some(v.fields[key]) else None
  }

  /** `x || {}` for a property read `x`. */
  function OrEmpty(x: Option<Value>): (r: Value)
    ensures Truthy(r)
    ensures x.Some? && Truthy(x.value) ==> r == x.value
    ensures !(x.Some? && Truthy(x.value)) ==> r == Obj(map[])
  {
    if x.Some? && Truthy(x.value) then x.value else Obj(map[])
  }

  // ---------------------------------------------------------------------
  // Array and string indices as property names
  // ---------------------------------------------------------------------

  function Digit(d: nat): (c: char)
    requires d < 10
  {
    (('0' as int) + d) as char
  }

  /** The canonical decimal spelling of an index, the name of the property
      that holds it. */
  function DecimalString(n: nat): (r: string)
    ensures |r| >= 1
  {
    if n < 10 then [Digit(n)] else DecimalString(n / 10) + [Digit(n % 10)]
  }

  /** The last character of an index name is its last digit, and what
      precedes it is the name of the index with that digit dropped. */
  lemma DecimalStringShape(n: nat)
    ensures DecimalString(n)[|DecimalString(n)| - 1] == Digit(n % 10)
    ensures n >= 10 ==> DecimalString(n)[..|DecimalString(n)| - 1] == DecimalString(n / 10)
    ensures n < 10 <==> |DecimalString(n)| == 1
  {
    if n >= 10 {
      var r := DecimalString(n);
      assert r == DecimalString(n / 10) + [Digit(n % 10)];
    }
  }

  /** Different indices have different names. */
  lemma {:induction false} DecimalStringInjective(i: nat, j: nat)
    requires DecimalString(i) == DecimalString(j)
    ensures i == j
    decreases i
  {
    DecimalStringShape(i);
    DecimalStringShape(j);
    assert Digit(i % 10) == Digit(j % 10);
    if i >= 10 {
      assert j >= 10;
      DecimalStringInjective(i / 10, j / 10);
    }
  }

  /** The elements of an array under their index names, set in index
      order as `Object.assign` copies them. */
  function IndexEntries(items: seq<Value>): map<string, Value>
    decreases |items|
  {
    if items == [] then map[]
    else IndexEntries(items[..|items| - 1])[DecimalString(|items| - 1) := items[|items| - 1]]
  }

  /** An array has no own entries besides its elements: every entry is
      named by an index. */
  lemma {:induction false} IndexEntriesKeys(items: seq<Value>)
    ensures forall k :: k in IndexEntries(items) ==> exists i :: 0 <= i < |items| && k == DecimalString(i)
    decreases |items|
  {
    if items != [] {
      var n := |items| - 1;
      var prev := IndexEntries(items[..n]);
      assert IndexEntries(items) == prev[DecimalString(n) := items[n]];
      IndexEntriesKeys(items[..n]);
      forall k | k in IndexEntries(items)
        ensures exists i :: 0 <= i < |items| && k == DecimalString(i)
      {
        if k == DecimalString(n) {
          assert 0 <= n < |items| && k == DecimalString(n);
        } else {
          assert k in prev;
          var i :| 0 <= i < n && k == DecimalString(i);
          assert 0 <= i < |items| && k == DecimalString(i);
        }
      }
      assert forall k :: k in IndexEntries(items) ==> exists i :: 0 <= i < |items| && k == DecimalString(i);
    } else {
      assert IndexEntries(items) == map[];
    }
  }

  /** Each element sits under its own index name; a later index never
      overwrites an earlier one. */
  lemma {:induction false} IndexEntriesValues(items: seq<Value>)
    ensures forall i :: 0 <= i < |items| ==>
      DecimalString(i) in IndexEntries(items) && IndexEntries(items)[DecimalString(i)] == items[i]
    decreases |items|
  {
    if items != [] {
      var n := |items| - 1;
      IndexEntriesValues(items[..n]);
      forall i | 0 <= i < n
        ensures IndexEntries(items)[DecimalString(i)] == items[i]
      {
        if DecimalString(i) == DecimalString(n) {
          DecimalStringInjective(i, n);
        }
        assert items[..n][i] == items[i];
      }
    }
  }

  /** The characters of a string as one-character strings. */
  function Chars(s: string): seq<Value> {
    seq(|s|, i requires 0 <= i < |s| => Str([s[i]]))
  }

  /** The own enumerable properties `Object.assign` copies from a truthy
      source: the fields of an object, the elements of an array and the
      one-character strings of a string under their index names, and
      nothing from a boolean or a number. */
  function OwnEntries(v: Value): map<string, Value> {
    match v
    case Obj(fields) => fields
    case Arr(items) => IndexEntries(items)
    case Str(s) => IndexEntries(Chars(s))
    case _ => map[]
  }

  /** A string source contributes one entry per character: the
      one-character string under the character's index name, and nothing
      else. */
  lemma StringEntries(s: string)
    ensures forall i :: 0 <= i < |s| ==>
      DecimalString(i) in OwnEntries(Str(s)) && OwnEntries(Str(s))[DecimalString(i)] == Str([s[i]])
    ensures forall k :: k in OwnEntries(Str(s)) ==> exists i :: 0 <= i < |s| && k == DecimalString(i)
  {
    var items := Chars(s);
    IndexEntriesValues(items);
    IndexEntriesKeys(items);
    assert forall i :: 0 <= i < |s| ==> items[i] == Str([s[i]]);
  }

  /** The property name whose assignment runs the inherited `__proto__`
      setter instead of creating an own property. */
  const ProtoKey: string := "__proto__"

  /** The entries `Object.assign` creates on a plain target: all own
      entries but `__proto__`, whose assignment only replaces the target's
      prototype. */
  function Copied(source: Value): (r: map<string, Value>)
    ensures ProtoKey !in r
  {
    OwnEntries(source) - {ProtoKey}
  }

  /** `Object.assign(target, source)` on a plain object: every copied
      entry of the source is set on the target, overwriting an entry of
      the same name; the target's other entries stay. */
  function Assign(target: map<string, Value>, source: Value): map<string, Value> {
    target + Copied(source)
  }

  /** Assigning the same source twice is the same as once. */
  lemma AssignIdempotent(target: map<string, Value>, source: Value)
    ensures Assign(Assign(target, source), source) == Assign(target, source)
  {
    var once := Assign(target, source);
    assert Assign(once, source).Keys == once.Keys;
  }

  /** A source with no own entries leaves the target as it was. */
  lemma AssignEmpty(target: map<string, Value>)
    ensures Assign(target, Obj(map[])) == target
  {
    assert Assign(target, Obj(map[])).Keys == target.Keys;
  }

  // ---------------------------------------------------------------------
  // The accumulator and one merge
  // ---------------------------------------------------------------------

  /** The two maps under `mergedTheme.extend`. */
  datatype Theme = Theme(colors: map<string, Value>, fontFamily: map<string, Value>)

  /** `{ extend: { colors: {}, fontFamily: {} } }` */
  const Initial: Theme := Theme(map[], map[])

  /** `config.theme && config.theme.extend` is truthy, for a config that
      is not `null`. */
  predicate ExtendTruthy(config: Value) {
    var theme := Prop(config, "theme");
    theme.Some? && Truthy(theme.value) &&
    var extend := Prop(theme.value, "extend");
    extend.Some? && Truthy(extend.value)
  }

  /** `config.theme.extend.<key> || {}`, for a config whose
      `theme.extend` is truthy. */
  function Source(config: Value, key: string): (r: Value)
    requires ExtendTruthy(config)
    ensures Truthy(r)
  {
    OrEmpty(Prop(Prop(Prop(config, "theme").value, "extend").value, key))
  }

  /** Lines 45-47 for one parsed config: `None` when reading `theme` off
      `null` throws, the accumulator unchanged when `theme.extend` is not
      truthy, and otherwise both maps assigned from their sources. */
  function MergeConfig(acc: Theme, config: Value): (r: Option<Theme>)
    ensures r.None? <==> config.Null?
    ensures r.Some? && !ExtendTruthy(config) ==> r.value == acc
  {
    if config.Null? then None
    else if ExtendTruthy(config) then
      Some(Theme(Assign(acc.colors, Source(config, "colors")), Assign(acc.fontFamily, Source(config, "fontFamily"))))
    else Some(acc)
  }

  /** The body of the `try` at lines 37-49 for one captured fragment:
      normalize, parse, merge; a parse that throws (`None`) or a merge that
      throws leaves the accumulator as it was. */
  function ApplyFragment(acc: Theme, fragment: string, parse: string -> Option<Value>): Theme {
    match parse(LiteralNormalizer.Normalize(fragment))
    case None => acc
    case Some(config) =>
      match MergeConfig(acc, config)
      case None => acc
      case Some(t) => t
  }

  /** The fragment takes part in the merge: it parses to a config whose
      `theme.extend` is truthy. */
  predicate Merges(fragment: string, parse: string -> Option<Value>) {
    var config := parse(LiteralNormalizer.Normalize(fragment));
    config.Some? && ExtendTruthy(config.value)
  }

  /** The two maps the merge writes. */
  datatype Slot = Colors | FontFamily

  /** The property name of a slot under `theme.extend`. */
  function SlotName(slot: Slot): string {
    match slot
    case Colors => "colors"
    case FontFamily => "fontFamily"
  }

  /** The map of a slot in the accumulator. */
  function Entries(t: Theme, slot: Slot): map<string, Value> {
    match slot
    case Colors => t.colors
    case FontFamily => t.fontFamily
  }

  /** The value a fragment writes under `key` of a slot, if it writes one. */
  function Writes(fragment: string, parse: string -> Option<Value>, slot: Slot, key: string): (r: Option<Value>)
    ensures r.Some? ==> Merges(fragment, parse)
  {
    if !Merges(fragment, parse) then None
    else
      var entries := Copied(Source(parse(LiteralNormalizer.Normalize(fragment)).value, SlotName(slot)));
      if key in entries then Some(entries[key]) else None
  }

  /** A fragment that does not parse, parses to `null`, or lacks a truthy
      `theme.extend` changes nothing. */
  lemma SkippedFragment(acc: Theme, fragment: string, parse: string -> Option<Value>)
    requires !Merges(fragment, parse)
    ensures ApplyFragment(acc, fragment, parse) == acc
  {
  }

  /** `after` holds under `key` what `before` holds there, and nothing
      where `before` holds nothing. */
  predicate KeptAt(before: map<string, Value>, after: map<string, Value>, key: string) {
    (key in after <==> key in before) && (key in after ==> after[key] == before[key])
  }

  /** `after` holds `v` under `key`. */
  predicate WrittenAt(after: map<string, Value>, key: string, v: Value) {
    key in after && after[key] == v
  }

  /** One merge, key by key: a key the fragment writes takes the written
      value wholesale (a font list is replaced, not extended); every other
      key keeps its entry, or stays absent. */
  lemma ApplyFragmentPointwise(acc: Theme, fragment: string, parse: string -> Option<Value>, slot: Slot, key: string)
    ensures Writes(fragment, parse, slot, key).Some? ==>
      WrittenAt(Entries(ApplyFragment(acc, fragment, parse), slot), key, Writes(fragment, parse, slot, key).value)
    ensures Writes(fragment, parse, slot, key).None? ==>
      KeptAt(Entries(acc, slot), Entries(ApplyFragment(acc, fragment, parse), slot), key)
  {
  }

  /** A merging fragment whose `theme.extend` has no truthy map under a
      slot's name leaves that slot as it was: the missing map counts as
      `{}`. */
  lemma MissingMapKeepsSlot(acc: Theme, fragment: string, parse: string -> Option<Value>, slot: Slot)
    requires Merges(fragment, parse)
    requires var config := parse(LiteralNormalizer.Normalize(fragment)).value;
      var m := Prop(Prop(Prop(config, "theme").value, "extend").value, SlotName(slot));
      !(m.Some? && Truthy(m.value))
    ensures Entries(ApplyFragment(acc, fragment, parse), slot) == Entries(acc, slot)
  {
    AssignEmpty(Entries(acc, slot));
  }

  /** Merging the same fragment twice in a row is merging it once. */
  lemma ApplyFragmentIdempotent(acc: Theme, fragment: string, parse: string -> Option<Value>)
    ensures ApplyFragment(ApplyFragment(acc, fragment, parse), fragment, parse) == ApplyFragment(acc, fragment, parse)
  {
    var config := parse(LiteralNormalizer.Normalize(fragment));
    if config.Some? && ExtendTruthy(config.value) {
      AssignIdempotent(acc.colors, Source(config.value, "colors"));
      AssignIdempotent(acc.fontFamily, Source(config.value, "fontFamily"));
    }
  }

  /** `mergedTheme.extend`, updated in place by `Object.assign`. */
  class ThemeAccumulator {
    var colors: map<string, Value>
    var fontFamily: map<string, Value>

    function Value(): Theme
      reads this
    {
      Theme(colors, fontFamily)
    }

    constructor ()
      ensures Value() == Initial
    {
      colors := map[];
      fontFamily := map[];
    }

    /** Lines 37-49 for one captured fragment. */
    method MergeFragment(fragment: string, parse: string -> Option<Value>)
      modifies this
      ensures Value() == ApplyFragment(old(Value()), fragment, parse)
    {
      var configStr := LiteralNormalizer.Normalize(fragment);
      var parsed := parse(configStr);
      if parsed.None? {
        return;
      }
      var config := parsed.value;
      if config.Null? {
        return;
      }
      if ExtendTruthy(config) {
        colors := Assign(colors, Source(config, "colors"));
        fontFamily := Assign(fontFamily, Source(config, "fontFamily"));
      }
    }
  }
}
