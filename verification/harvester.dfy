/** `harvestConfigs` of site-template/config-harvester.js: walk the site,
    read each collected file, extract and merge every config fragment in
    order, then write the accumulated theme once. A throwing walk or read
    aborts the run before the write. */
module Harvester {
  import opened Wrappers
  import opened PathFilter
  import opened TreeWalker
  import opened FragmentExtractor
  import opened ThemeMerger

  /** The fixed scan root. */
  const SiteDir: string := "/var/www/html"

  /** The single file the run writes. */
  const OutputPath: string := Join(SiteDir, "harvested-config.json")

  /** What a run leaves behind: the theme written to `OutputPath`, or no
      output at all because an exception reached the outer `catch`. */
  datatype Outcome = Written(path: string, theme: Theme) | Failed

  /** The fragments of one file merged in order into `acc`. */
  function FoldFragments(acc: Theme, fragments: seq<string>, parse: string -> Option<Value>): Theme
    decreases |fragments|
  {
    if fragments == [] then acc
    else FoldFragments(ApplyFragment(acc, fragments[0], parse), fragments[1..], parse)
  }

  /** The files processed in order from `acc`; `None` as soon as reading
      one throws. `read` is `fs.readFileSync(file, 'utf8')`, `None` when it
      throws. */
  function FilesFold(acc: Theme, files: seq<string>, read: string -> Option<string>,
                     parse: string -> Option<Value>): Option<Theme>
    decreases |files|
  {
    if files == [] then Some(acc)
    else
      match read(files[0])
      case None => None
      case Some(content) => FilesFold(FoldFragments(acc, Fragments(content), parse), files[1..], read, parse)
  }

  /** The whole run over the tree under the site root. */
  function Harvest(root: Listing, read: string -> Option<string>, parse: string -> Option<Value>): Outcome {
    match Walk(SiteDir, root)
    case None => Failed
    case Some(files) =>
      match FilesFold(Initial, files, read, parse)
      case None => Failed
      case Some(theme) => Written(OutputPath, theme)
  }

  /** The `regex.exec` loop over one file's content (lines 33-50): a
      fresh global regex per file, so the search starts at index 0 and
      resumes behind each match's `;`. */
  method MergeFile(merged: ThemeAccumulator, content: string, parse: string -> Option<Value>)
    modifies merged
    ensures merged.Value() == FoldFragments(old(merged.Value()), Fragments(content), parse)
  {
    var lastIndex := 0;
    var next := FindFrom(content, lastIndex);
    while next.Some?
      invariant lastIndex <= |content|
      invariant next == FindFrom(content, lastIndex)
      invariant FoldFragments(old(merged.Value()), Fragments(content), parse)
             == FoldFragments(merged.Value(), FragmentsFrom(content, lastIndex), parse)
      decreases |content| - lastIndex
    {
      var m := next.value;
      ghost var before, rest := merged.Value(), FragmentsFrom(content, m.close + 2);
      FoldStep(before, content, lastIndex, parse);
      merged.MergeFragment(Capture(content, m), parse);
      assert FoldFragments(before, FragmentsFrom(content, lastIndex), parse) == FoldFragments(merged.Value(), rest, parse);
      lastIndex := m.close + 2;
      next := FindFrom(content, lastIndex);
    }
    FoldStep(merged.Value(), content, lastIndex, parse);
  }

  /** One turn of the `exec` loop in terms of the fold: a match merges its
      capture and the rest is folded from behind it; no match leaves the
      accumulator as it is. */
  lemma FoldStep(acc: Theme, content: string, from: nat, parse: string -> Option<Value>)
    requires from <= |content|
    ensures FindFrom(content, from).None? ==> FoldFragments(acc, FragmentsFrom(content, from), parse) == acc
    ensures FindFrom(content, from).Some? ==>
      var m := FindFrom(content, from).value;
      from < m.close + 2 <= |content| && m.open <= m.close &&
      FoldFragments(acc, FragmentsFrom(content, from), parse)
        == FoldFragments(ApplyFragment(acc, Capture(content, m), parse), FragmentsFrom(content, m.close + 2), parse)
  {
    FragmentsStep(content, from);
    if FindFrom(content, from).Some? {
      var m := FindFrom(content, from).value;
      var rest := FragmentsFrom(content, m.close + 2);
      assert ([Capture(content, m)] + rest)[1..] == rest;
    }
  }

  /** `harvestConfigs()`: the walk into a fresh array, then the `forEach`
      over the files, reading each and merging its fragments; the theme is
      written once at the end. */
  method HarvestConfigs(root: Listing, read: string -> Option<string>, parse: string -> Option<Value>)
    returns (outcome: Outcome)
    ensures outcome == Harvest(root, read, parse)
  {
    var merged := new ThemeAccumulator();
    var found := new PathList();
    var ok := GetFiles(SiteDir, root, found);
    if !ok {
      return Failed;
    }
    var files := found.items;
    for i := 0 to |files|
      invariant FilesFold(Initial, files, read, parse) == FilesFold(merged.Value(), files[i..], read, parse)
    {
      assert files[i..][1..] == files[i + 1..];
      var text := read(files[i]);
      if text.None? {
        return Failed;
      }
      MergeFile(merged, text.value, parse);
    }
    return Written(OutputPath, merged.Value());
  }

  // ---------------------------------------------------------------------
  // Properties of the run
  // ---------------------------------------------------------------------

  /** Reading fails exactly when some file's read throws. */
  lemma {:induction false} FilesFoldFailsIff(acc: Theme, files: seq<string>, read: string -> Option<string>,
                                             parse: string -> Option<Value>)
    ensures FilesFold(acc, files, read, parse).None? <==> exists f :: f in files && read(f).None?
    decreases |files|
  {
    if files != [] && read(files[0]).Some? {
      var content := read(files[0]).value;
      FilesFoldFailsIff(FoldFragments(acc, Fragments(content), parse), files[1..], read, parse);
      assert forall f :: f in files <==> f == files[0] || f in files[1..];
    }
  }

  /** The abort rule: no output exactly when the walk throws or some
      collected file cannot be read; then nothing is written at all. */
  lemma HarvestFailsIff(root: Listing, read: string -> Option<string>, parse: string -> Option<Value>)
    ensures Harvest(root, read, parse).Failed? <==>
      Walk(SiteDir, root).None? || exists f :: f in Walk(SiteDir, root).value && read(f).None?
    ensures Harvest(root, read, parse).Written? ==> Harvest(root, read, parse).path == OutputPath
  {
    if Walk(SiteDir, root).Some? {
      FilesFoldFailsIff(Initial, Walk(SiteDir, root).value, read, parse);
    }
  }

  /** Merging a list of fragments is merging its two parts one after the
      other. */
  lemma {:induction false} FoldFragmentsConcat(acc: Theme, a: seq<string>, b: seq<string>, parse: string -> Option<Value>)
    ensures FoldFragments(acc, a + b, parse) == FoldFragments(FoldFragments(acc, a, parse), b, parse)
    decreases |a|
  {
    if a == [] {
      assert a + b == b;
    } else {
      assert (a + b)[1..] == a[1..] + b;
      FoldFragmentsConcat(ApplyFragment(acc, a[0], parse), a[1..], b, parse);
    }
  }

  /** Every fragment of every file, in processing order, when all reads
      succeed. */
  function AllFragments(files: seq<string>, read: string -> Option<string>): seq<string>
    requires forall f :: f in files ==> read(f).Some?
    decreases |files|
  {
    if files == [] then []
    else Fragments(read(files[0]).value) + AllFragments(files[1..], read)
  }

  /** With every file readable, the run is one fold over all fragments of
      all files, file after file and in file order within each file. */
  lemma {:induction false} FilesFoldFlat(acc: Theme, files: seq<string>, read: string -> Option<string>,
                                         parse: string -> Option<Value>)
    requires forall f :: f in files ==> read(f).Some?
    ensures FilesFold(acc, files, read, parse) == Some(FoldFragments(acc, AllFragments(files, read), parse))
    decreases |files|
  {
    if files != [] {
      var frags := Fragments(read(files[0]).value);
      assert forall f :: f in files[1..] ==> f in files;
      FilesFoldFlat(FoldFragments(acc, frags, parse), files[1..], read, parse);
      FoldFragmentsConcat(acc, frags, AllFragments(files[1..], read), parse);
    }
  }

  /** A file without the marker leaves the accumulator as it was. */
  lemma NoMarkerUnchanged(acc: Theme, content: string, parse: string -> Option<Value>)
    requires !HasMarker(content)
    ensures FoldFragments(acc, Fragments(content), parse) == acc
  {
    NoMarkerNoFragments(content);
  }

  /** Fragments that never write `key` of a slot leave that entry as it
      was, present or absent. */
  lemma {:induction false} FoldKeepsUnwritten(acc: Theme, fragments: seq<string>, parse: string -> Option<Value>,
                                              slot: Slot, key: string)
    requires forall l :: 0 <= l < |fragments| ==> Writes(fragments[l], parse, slot, key).None?
    ensures KeptAt(Entries(acc, slot), Entries(FoldFragments(acc, fragments, parse), slot), key)
    decreases |fragments|
  {
    if fragments != [] {
      var next := ApplyFragment(acc, fragments[0], parse);
      ApplyFragmentPointwise(acc, fragments[0], parse, slot, key);
      assert forall l :: 0 <= l < |fragments[1..]| ==> fragments[1..][l] == fragments[l + 1];
      FoldKeepsUnwritten(next, fragments[1..], parse, slot, key);
    }
  }

  /** Last write wins: the entry under `key` is the value written by the
      last fragment that writes it, whatever came before. */
  lemma {:induction false} LastWriteWins(acc: Theme, fragments: seq<string>, parse: string -> Option<Value>,
                                         slot: Slot, key: string, j: nat)
    requires j < |fragments| && Writes(fragments[j], parse, slot, key).Some?
    requires forall l :: j < l < |fragments| ==> Writes(fragments[l], parse, slot, key).None?
    ensures WrittenAt(Entries(FoldFragments(acc, fragments, parse), slot), key, Writes(fragments[j], parse, slot, key).value)
    decreases |fragments|
  {
    var next := ApplyFragment(acc, fragments[0], parse);
    SilentTail(fragments, parse, slot, key, j);
    if j == 0 {
      ApplyFragmentPointwise(acc, fragments[0], parse, slot, key);
      FoldKeepsUnwritten(next, fragments[1..], parse, slot, key);
    } else {
      assert fragments[1..][j - 1] == fragments[j];
      LastWriteWins(next, fragments[1..], parse, slot, key, j - 1);
    }
  }

  /** The fragments behind index `j` that do not write `key`, seen from
      the tail of the list. */
  lemma SilentTail(fragments: seq<string>, parse: string -> Option<Value>, slot: Slot, key: string, j: nat)
    requires j < |fragments|
    requires forall l :: j < l < |fragments| ==> Writes(fragments[l], parse, slot, key).None?
    ensures forall l :: j - 1 < l < |fragments[1..]| ==> Writes(fragments[1..][l], parse, slot, key).None?
  {
    forall l | j - 1 < l < |fragments[1..]|
      ensures Writes(fragments[1..][l], parse, slot, key).None?
    {
      assert fragments[1..][l] == fragments[l + 1];
    }
  }
}
