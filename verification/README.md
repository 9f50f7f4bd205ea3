# Tailwind config harvester — a Dafny model

`site-template/config-harvester.js` scans a WordPress site under
`/var/www/html` for the inline Tailwind CDN settings that pages assign with
`tailwind.config = {...};`. It collects every `.php`, `.html` and `.js` file
below the site root, skipping `node_modules`, `wp-admin`, `wp-includes` and
`.git` directories. From each file it extracts every such object literal
with a global regular expression. Four textual rewrites turn the JavaScript
literal into JSON. The result goes to `JSON.parse`, and the
`theme.extend.colors` and `theme.extend.fontFamily` maps of each parsed
config are merged, with `Object.assign`, into one accumulated theme. That
theme is written once to `/var/www/html/harvested-config.json`. A fragment
that fails to parse or has no truthy `theme.extend` is skipped. An
exception in the walk or in reading a file aborts the whole run, and then
nothing is written.

The model has one module per stage:

- `PathFilter` (`path_filter.dfy`): the denied directory names, the
  extension filter and `path.join`.
- `TreeWalker` (`tree_walker.dfy`): `getFiles`.
  - The filesystem is a tree of listings and entries. A `Locked` listing is
    a `readdirSync` that throws; a `Broken` entry is a `statSync` that
    throws.
  - `GetFiles` is the recursive imperative walk, pushing into a shared
    `PathList`.
  - It is proved against the functional `Walk`. `Walk` is in turn proved
    sound, complete and failing exactly when a reachable entry throws.
- `CharClasses` (`char_classes.dfy`): the character classes `\s`, `\w` and
  the quotes, and the greedy `\s*`.
- `FragmentExtractor` (`fragment_extractor.dfy`): the regular expression
  `/tailwind\.config\s*=\s*({[\s\S]*?});/g` and its `exec` loop.
  - `MatchAt` and `FindFrom` are proved to be the leftmost match with the
    shortest body.
  - `Matches` and `Fragments` are the loop; no matching position is lost.
- `LiteralNormalizer` (`literal_normalizer.dfy`): the four global
  `replace` calls, each a left-to-right scanner. Each step is related to a
  reference meaning:
  - step 1 changes nothing but quote characters, and afterwards no `:`
    directly follows a word character. A key with whitespace before its
    colon, as in `theme :{`, stays bare; `JSON.parse` then throws and the
    fragment is skipped;
  - step 2 maps `'` to `"`;
  - steps 3 and 4 delete exactly the commas and whitespace of each
    `,\s*}` and `,\s*]`.

  The chain as a whole is local, and a worked example is normalized.
- `ThemeMerger` (`theme_merger.dfy`): JSON values, JavaScript truthiness,
  `x || {}` and `Object.assign`.
  - Arrays and strings contribute index-named entries.
  - A `__proto__` key creates no own entry.
  - The accumulator `mergedTheme.extend` is the class `ThemeAccumulator`,
    whose `MergeFragment` does lines 37-49 for one fragment.
- `Harvester` (`harvester.dfy`): `harvestConfigs`, the fold over files and
  fragments and the abort rule.
  - `MergeFile` is the `exec` loop, mutating the accumulator.
  - `HarvestConfigs` is the whole run, proved equal to the functional
    `Harvest`.
  - The lemmas give the failure condition, the flattening of the fold and
    last-write-wins per key.

Behaviour of the code worth stating explicitly:

- A failing `readdirSync` or `statSync` anywhere in the walk, or a failing
  `readFileSync`, aborts the whole run. Nothing tolerates these per entry.
- Only `.php`, `.html` and `.js` files are scanned; stand-alone JSON files
  are not.
- The root is fixed at `/var/www/html`.
- The extracted body ends at the first `};` after the `=`. Braces are not
  balanced.
- `Object.assign` also copies index entries when `colors` or `fontFamily`
  is an array or a string.

## Model

The table lists the results. The lemmas they are built from (induction
steps, one-step unfoldings of a scanner, pieces of the worked example) are
described by their doc comments in the `.dfy` files.

| member | source | states |
|---|---|---|
| PathFilter.JoinedSuffix | site-template/config-harvester.js:8-14 | testing a suffix without `/` on `path.join(dir, name)` is testing it on the entry name |
| PathFilter.CandidateByName | site-template/config-harvester.js:14 | a file is collected exactly when its entry name ends in `.php`, `.html` or `.js` |
| PathFilter.DeniedIsExact | site-template/config-harvester.js:10 | the four denied names are compared exactly: `node_modules_old`, `.github` and `wp-content` are entered |
| TreeWalker.PathList.Push | site-template/config-harvester.js:15 | `allFiles.push` appends exactly one path at the end |
| TreeWalker.GetFiles | site-template/config-harvester.js:5-20 | the walk appends to the shared array exactly the paths of `Walk`, in depth-first listing order, and succeeds exactly when `Walk` does; earlier pushes are never removed |
| TreeWalker.StaysFailed | site-template/config-harvester.js:6-11 | once an entry throws, the directory's walk throws whatever follows |
| TreeWalker.LeadsAvoidsDenied | site-template/config-harvester.js:9-12 | every directory crossed on the way to a visited entry has a name that is not denied |
| TreeWalker.WalkSound | site-template/config-harvester.js:5-20 | every returned path is the joined path of a reachable non-directory with an accepted extension |
| TreeWalker.WalkComplete | site-template/config-harvester.js:5-20 | when the walk succeeds, every reachable non-directory with an accepted extension is returned |
| TreeWalker.WalkFailsIff | site-template/config-harvester.js:6-11 | the walk throws iff the root listing throws or some entry reachable through non-denied directories throws |
| CharClasses.SkipSpaces | site-template/config-harvester.js:33 | greedy `\s*` from `i` stops at the first non-whitespace character or at the end |
| CharClasses.SkipSpacesUnique | site-template/config-harvester.js:33 | a whitespace run ended by a non-whitespace character is where `\s*` stops |
| FragmentExtractor.FindClose | site-template/config-harvester.js:33 | a found end of the lazy body is a `};` at or after the position searched from |
| FragmentExtractor.FindCloseFirst | site-template/config-harvester.js:33 | the found `};` is the first one at or after the position; none is found only when there is none |
| FragmentExtractor.MatchAt | site-template/config-harvester.js:33 | a match tried at `p` starts at `p` and fits the pattern: marker, `\s*=\s*`, `{`, body, `};` |
| FragmentExtractor.MatchAtShortest | site-template/config-harvester.js:33 | the body of a match is the shortest: no `};` starts between its `{` and its `}` |
| FragmentExtractor.MatchAtComplete | site-template/config-harvester.js:33 | wherever the pattern can match at `p`, `MatchAt` finds a match with the same `=` and `{` and a body no longer |
| FragmentExtractor.FindFrom | site-template/config-harvester.js:36 | `exec` with a given `lastIndex` returns a real match starting at or after it |
| FragmentExtractor.FindFromFirst | site-template/config-harvester.js:36 | the match `exec` returns is the leftmost at or after `lastIndex`; it returns none only when no position there matches |
| FragmentExtractor.Matches | site-template/config-harvester.js:36 | every match of the loop is a real match at or after the start, and each starts behind the `};` of every earlier one |
| FragmentExtractor.FragmentsStep | site-template/config-harvester.js:36-38 | one turn of the loop: a match contributes `match[1]` and the search resumes behind its `;`; no match ends the loop |
| FragmentExtractor.MatchesCover | site-template/config-harvester.js:36 | every position where the pattern matches lies in the span of some match of the loop |
| FragmentExtractor.CaptureShape | site-template/config-harvester.js:33 | a capture starts with `{`, ends with `}` directly followed by `;`, holds no earlier `};`, and is preceded by the marker and `=` |
| FragmentExtractor.FragmentsShape | site-template/config-harvester.js:33-38 | every fragment of a file starts with `{`, ends with `}` and holds no `};` |
| FragmentExtractor.FragmentsAreCaptures | site-template/config-harvester.js:33-38 | the `k`-th fragment is `match[1]` of the `k`-th match of the loop, a real match at or after `lastIndex`, so `CaptureShape` gives the `;` behind it and the marker and `=` before it |
| FragmentExtractor.NoMarkerNoFragments | site-template/config-harvester.js:33-36 | a file without `tailwind.config` yields no fragment |
| FragmentExtractor.WholeLiteralMatch | site-template/config-harvester.js:33 | `tailwind.config <ws>=<ws>{...};` with no `;` inside the literal matches at 0 and captures the literal |
| FragmentExtractor.WholeLiteralExtracted | site-template/config-harvester.js:33-38 | such a file yields exactly that literal |
| FragmentExtractor.ExtractExample | site-template/config-harvester.js:33-38 | a concrete assignment with nested objects and trailing commas yields its whole literal |
| LiteralNormalizer.WordEnd | site-template/config-harvester.js:39 | greedy `[a-zA-Z0-9_]+` stops at the first non-word character |
| LiteralNormalizer.KeyAt | site-template/config-harvester.js:39 | a key match at the start of a text fits `(['"])?word(['"])?:` |
| LiteralNormalizer.KeyAtComplete | site-template/config-harvester.js:39 | the key pattern has at most one match at a position, and `KeyAt` finds it |
| LiteralNormalizer.KeyAtColon | site-template/config-harvester.js:39 | every key match ends on a colon |
| LiteralNormalizer.QuoteKeysKeepsText | site-template/config-harvester.js:39 | step 1 changes only quote characters: with quotes removed, input and output are equal |
| LiteralNormalizer.QuoteKeysNoBareKey | site-template/config-harvester.js:39 | after step 1 no `:` directly follows a word character |
| LiteralNormalizer.QuoteKeysConcat | site-template/config-harvester.js:39 | step 1 works piecewise on a text cut after a boundary character |
| LiteralNormalizer.QuoteKeysBareKey | site-template/config-harvester.js:39 | a bare word followed by `:` becomes `"word":` |
| LiteralNormalizer.QuoteKeysNoColon | site-template/config-harvester.js:39 | a text without `:` passes step 1 unchanged |
| LiteralNormalizer.SwapQuotes | site-template/config-harvester.js:40 | step 2 turns every `'` into `"` and changes nothing else, position by position |
| LiteralNormalizer.SwapQuotesConcat | site-template/config-harvester.js:40 | step 2 distributes over concatenation |
| LiteralNormalizer.SwapQuotesNoSingle | site-template/config-harvester.js:40 | a text without `'` passes step 2 unchanged |
| LiteralNormalizer.DropCommasIsKept | site-template/config-harvester.js:41-42 | steps 3 and 4 remove exactly the commas and whitespace of each `,\s*}` or `,\s*]` and keep every other character in order |
| LiteralNormalizer.DropCommasCount | site-template/config-harvester.js:41-42 | steps 3 and 4 keep the count of every character other than commas and whitespace |
| LiteralNormalizer.DropCommasNoComma | site-template/config-harvester.js:41-42 | a text without commas passes unchanged |
| LiteralNormalizer.DropCommasConcat | site-template/config-harvester.js:41-42 | steps 3 and 4 work piecewise on a text cut after a character that is neither a comma nor whitespace |
| LiteralNormalizer.DropCommasLast | site-template/config-harvester.js:41-42 | a last character that is neither a comma nor whitespace stays last |
| LiteralNormalizer.NormalizeNoSingleQuote | site-template/config-harvester.js:38-42 | the normalized text holds no `'` |
| LiteralNormalizer.NormalizeKeepsStructure | site-template/config-harvester.js:38-42 | the chain keeps the count of every character other than quotes, commas and whitespace, such as braces, brackets and colons |
| LiteralNormalizer.NormalizeConcat | site-template/config-harvester.js:38-42 | the chain is local: a text cut after a brace, bracket or similar character normalizes piece by piece |
| LiteralNormalizer.NormalizePlain | site-template/config-harvester.js:38-42 | a text without `:`, `'` and `,` is left as it is |
| LiteralNormalizer.NormalizeEntry | site-template/config-harvester.js:38-42 | `k:'v',}` becomes `"k":"v"}` for every bare key `k` and every plain value `v` |
| LiteralNormalizer.NormalizeNested | site-template/config-harvester.js:38-42 | any three nested bare keys around a single-quoted string entry with any plain value (no `:`, `'` or `,` in it), with trailing commas everywhere, normalize to quoted JSON with no trailing commas |
| LiteralNormalizer.NormalizeExample | site-template/config-harvester.js:38-42 | the worked example normalizes to the JSON text `{"theme":{"extend":{"colors":{"brand":"#111"}}}}`, stated as its pieces |
| ThemeMerger.OrEmpty | site-template/config-harvester.js:46-47 | `x \|\| {}` is `x` when `x` is truthy, `{}` otherwise, and always truthy |
| ThemeMerger.DecimalStringInjective | site-template/config-harvester.js:46-47 | different indices have different property names |
| ThemeMerger.IndexEntriesKeys | site-template/config-harvester.js:46-47 | an array has no own entries besides its indices: every entry is named by an index |
| ThemeMerger.IndexEntriesValues | site-template/config-harvester.js:46-47 | each element sits under its own index name, never overwritten by a later index |
| ThemeMerger.Copied | site-template/config-harvester.js:46-47 | `__proto__` never becomes an own entry of the target |
| ThemeMerger.StringEntries | site-template/config-harvester.js:46-47 | a string source contributes each character as a one-character string under its index name, and nothing else |
| ThemeMerger.AssignIdempotent | site-template/config-harvester.js:46-47 | assigning the same source twice is assigning it once |
| ThemeMerger.AssignEmpty | site-template/config-harvester.js:46-47 | assigning `{}` changes nothing |
| ThemeMerger.Source | site-template/config-harvester.js:46-47 | the source of each assign is truthy |
| ThemeMerger.MergeConfig | site-template/config-harvester.js:45-47 | a `null` config throws on `.theme`; a config without truthy `theme.extend` leaves the theme unchanged |
| ThemeMerger.Writes | site-template/config-harvester.js:37-49 | only a fragment that parses to a config with truthy `theme.extend` writes anything |
| ThemeMerger.SkippedFragment | site-template/config-harvester.js:44-49 | a fragment that fails to parse, is `null` or has no truthy `theme.extend` leaves the theme unchanged |
| ThemeMerger.ApplyFragmentPointwise | site-template/config-harvester.js:37-49 | per key and map, the merge writes the fragment's value where it has one and keeps the old entry, present or absent, elsewhere |
| ThemeMerger.MissingMapKeepsSlot | site-template/config-harvester.js:46-47 | a merging config with no truthy `colors` (or `fontFamily`) leaves that map as it was |
| ThemeMerger.ApplyFragmentIdempotent | site-template/config-harvester.js:37-49 | merging the same fragment twice in a row is merging it once |
| ThemeMerger.ThemeAccumulator.constructor | site-template/config-harvester.js:24 | the accumulator starts as `{extend: {colors: {}, fontFamily: {}}}` |
| ThemeMerger.ThemeAccumulator.MergeFragment | site-template/config-harvester.js:37-49 | merging one fragment in place leaves the accumulator at `ApplyFragment` of its old value |
| Harvester.MergeFile | site-template/config-harvester.js:33-50 | the `exec` loop over one file leaves the accumulator at the fold of its old value over all fragments of the file, in order |
| Harvester.HarvestConfigs | site-template/config-harvester.js:22-58 | the run writes the fold of all files to `harvested-config.json` under the site root, or fails |
| Harvester.FilesFoldFailsIff | site-template/config-harvester.js:31-32 | processing the files fails exactly when reading some file throws |
| Harvester.HarvestFailsIff | site-template/config-harvester.js:26-57 | nothing is written iff the walk throws or some collected file cannot be read; otherwise the output path is `/var/www/html/harvested-config.json` |
| Harvester.FoldFragmentsConcat | site-template/config-harvester.js:31-51 | merging a list of fragments is merging its two parts one after the other |
| Harvester.FilesFoldFlat | site-template/config-harvester.js:31-51 | with every file readable, the run is one fold over all fragments, file by file and in file order within each file |
| Harvester.NoMarkerUnchanged | site-template/config-harvester.js:33-36 | a file without `tailwind.config` leaves the accumulator as it was |
| Harvester.FoldKeepsUnwritten | site-template/config-harvester.js:45-47 | fragments that never write a key leave its entry as it was, present or absent |
| Harvester.LastWriteWins | site-template/config-harvester.js:45-47 | the entry under a key is the value written by the last fragment that writes it, whatever came before |

## Left out

- Console output (lines 27, 54, 56) is not modelled; it changes no state.
- `fs.writeFileSync` and `JSON.stringify` (line 53) are not modelled
  beyond the `Written` outcome, which carries the path and the merged theme.
  The model's objects are maps, which keep no key order, so the
  pretty-printed text is left out. A failing write, which also ends in the
  outer `catch`, is not modelled.
- `JSON.parse` (line 44) is the function parameter `parse`; `None` stands
  for a throw. Its grammar is not modelled.
- `fs.readFileSync` (line 32) is the function parameter `read`; `None`
  stands for a throw. File contents are strings of code points, not decoded
  UTF-8.
- JSON strings are sequences of code points, not of UTF-16 code units. A
  string source of `Object.assign` contributes one index entry per code
  point (`StringEntries`), where JavaScript gives one per code unit: `"😀"`
  yields the entries `"0"` and `"1"` there and only `"0"` here.
- `fs.readdirSync` and `fs.statSync` are modelled as a finite tree given
  up front, so symbolic-link cycles and a filesystem changing during the
  walk are not modelled.
- `path.join` is `dir + "/" + name`. This holds for the
  fixed root and for listing names; the model does not normalise `.`, `..`
  or duplicate separators.
- JSON numbers are unbounded reals, not IEEE doubles.
  Only their truthiness matters to the merge.
- `Object.assign` (`ThemeMerger.Assign`) is modelled on a plain target. Accessor properties and
  prototype objects a parsed config might carry are not modelled.
- LiteralNormalizer.NormalizeExample: the normalized text is stated as a
  concatenation of pieces, not as one string literal.
- `tailwind.config.js` and `wp-custom.php` elsewhere in the repository are
  not part of this model; they consume the harvested file and do not run
  the harvest.
