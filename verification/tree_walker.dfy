/** The recursive directory walk `getFiles` of
    site-template/config-harvester.js, over an abstract directory tree:
    what `fs.readdirSync` lists and what `fs.statSync` says of each entry
    are part of the tree, and an exception from either is a constructor. */
module TreeWalker {
  import opened Wrappers
  import opened PathFilter

  /** What `fs.readdirSync` gives for a directory: its entry names in
      listing order, or an exception (missing, not readable, ...). */
  datatype Listing = Listed(entries: seq<Entry>) | Locked

  /** One directory entry, as `fs.statSync` of its joined path sees it. */
  datatype Entry =
    | File(name: string)                   // stat succeeds: not a directory
    | Dir(name: string, listing: Listing)  // stat succeeds: a directory
    | Broken(name: string)                 // stat throws (dangling link, no permission)

  /** The paths `getFiles(dir, [])` returns, in depth-first listing order,
      or `None` when a `readdirSync` or `statSync` it performs throws. */
  function Walk(dir: string, listing: Listing): Option<seq<string>>
    decreases listing
  {
    match listing
    case Locked => None
    case Listed(entries) => WalkEntries(dir, entries, |entries|)
  }

  /** The paths collected from the first `i` entries of one directory. */
  function WalkEntries(dir: string, entries: seq<Entry>, i: nat): Option<seq<string>>
    requires i <= |entries|
    decreases entries, i
  {
    if i == 0 then Some([])
    else
      match WalkEntries(dir, entries, i - 1)
      case None => None
      case Some(before) =>
        match WalkEntry(dir, entries[i - 1])
        case None => None
        case Some(found) => Some(before + found)
  }

  /** The paths collected for one entry of the directory `dir`. */
  function WalkEntry(dir: string, e: Entry): Option<seq<string>>
    decreases e
  {
    match e
    case Broken(_) => None
    case File(name) => if IsCandidate(Join(dir, name)) then Some([Join(dir, name)]) else Some([])
    case Dir(name, listing) => if IsDenied(name) then Some([]) else Walk(Join(dir, name), listing)
  }

  /** The `allFiles` array that `getFiles` shares with its recursive calls
      and pushes into. */
  class PathList {
    var items: seq<string>

    constructor ()
      ensures items == []
    {
      items := [];
    }

    method Push(path: string)
      modifies this
      ensures items == old(items) + [path]
    {
      items := items + [path];
    }
  }

  /** `getFiles(dir, allFiles)`: appends to `all` the candidate files below
      `dir` in depth-first listing order. `ok` is false when a directory
      listing or a stat threw; the exception leaves the pushes made so far
      in place. */
  method GetFiles(dir: string, listing: Listing, all: PathList) returns (ok: bool)
    modifies all
    decreases listing
    ensures ok <==> Walk(dir, listing).Some?
    ensures ok ==> all.items == old(all.items) + Walk(dir, listing).value
    ensures old(all.items) <= all.items
  {
    if listing.Locked? {
      return false;
    }
    var files := listing.entries;
    for i := 0 to |files|
      invariant WalkEntries(dir, files, i).Some?
      invariant all.items == old(all.items) + WalkEntries(dir, files, i).value
    {
      var file := files[i];
      var name := Join(dir, file.name);
      match file
      case Broken(_) =>
        StaysFailed(dir, files, i + 1, |files|);
        return false;
      case Dir(_, sub) =>
        if !IsDenied(file.name) {
          ok := GetFiles(name, sub, all);
          if !ok {
            StaysFailed(dir, files, i + 1, |files|);
            return false;
          }
        }
      case File(_) =>
        if IsCandidate(name) {
          all.Push(name);
        }
    }
    return true;
  }

  /** Once an entry throws, the rest of the directory is not visited and
      the exception propagates. */
  lemma {:induction false} StaysFailed(dir: string, entries: seq<Entry>, i: nat, k: nat)
    requires i <= k <= |entries|
    requires WalkEntries(dir, entries, i).None?
    ensures WalkEntries(dir, entries, k).None?
    decreases k
  {
    if k > i {
      StaysFailed(dir, entries, i, k - 1);
    }
  }

  // ---------------------------------------------------------------------
  // An independent description of the walk: which entries are reachable.
  // ---------------------------------------------------------------------

  /** `names` spells a path of entry names from `listing` to `target` that
      only passes through directories the walker enters. */
  ghost predicate Leads(listing: Listing, names: seq<string>, target: Entry)
    decreases listing
  {
    listing.Listed? &&
    exists j :: 0 <= j < |listing.entries| && LeadsVia(listing.entries[j], names, target)
  }

  /** `names` spells a path that starts at entry `e` and ends at `target`. */
  ghost predicate LeadsVia(e: Entry, names: seq<string>, target: Entry)
    decreases e
  {
    |names| > 0 && names[0] == e.name &&
    if |names| == 1 then e == target
    else e.Dir? && !IsDenied(e.name) && Leads(e.listing, names[1..], target)
  }

  /** Some of the first `i` entries starts a path `names` to `target`. */
  ghost predicate LeadsWithin(entries: seq<Entry>, i: nat, names: seq<string>, target: Entry)
    requires i <= |entries|
  {
    exists j :: 0 <= j < i && LeadsVia(entries[j], names, target)
  }

  /** The path string that `path.join` builds along `names`. */
  function JoinAll(dir: string, names: seq<string>): string
    decreases |names|
  {
    if names == [] then dir else JoinAll(Join(dir, names[0]), names[1..])
  }

  /** An entry whose visit throws: a failed stat, or an entered directory
      whose listing fails. */
  ghost predicate Throws(e: Entry) {
    e.Broken? || (e.Dir? && !IsDenied(e.name) && e.listing.Locked?)
  }

  /** Every directory crossed on the way to a reachable entry has a name
      outside the denylist. */
  lemma {:induction false} LeadsAvoidsDenied(listing: Listing, names: seq<string>, target: Entry)
    requires Leads(listing, names, target)
    ensures forall k :: 0 <= k < |names| - 1 ==> !IsDenied(names[k])
    decreases listing
  {
    var j :| 0 <= j < |listing.entries| && LeadsVia(listing.entries[j], names, target);
    var e := listing.entries[j];
    if |names| > 1 {
      LeadsAvoidsDenied(e.listing, names[1..], target);
      forall k | 0 <= k < |names| - 1
        ensures !IsDenied(names[k])
      {
        if k > 0 {
          assert names[k] == names[1..][k - 1];
        }
      }
    }
  }

  /** Soundness: every path the walk returns is the joined path of a
      non-directory entry that is reachable without entering a denied
      directory, and it has an accepted extension. */
  lemma {:induction false} WalkSound(dir: string, listing: Listing, p: string)
    requires Walk(dir, listing).Some? && p in Walk(dir, listing).value
    ensures exists names, f :: Leads(listing, names, f) && f.File? && p == JoinAll(dir, names) && IsCandidate(p)
    decreases listing
  {
    var entries := listing.entries;
    WalkEntriesSound(dir, entries, |entries|, p);
  }

  lemma {:induction false} WalkEntriesSound(dir: string, entries: seq<Entry>, i: nat, p: string)
    requires i <= |entries|
    requires WalkEntries(dir, entries, i).Some? && p in WalkEntries(dir, entries, i).value
    ensures exists names, f :: LeadsWithin(entries, i, names, f) && f.File? && p == JoinAll(dir, names) && IsCandidate(p)
    decreases entries, i
  {
    var before := WalkEntries(dir, entries, i - 1).value;
    if p in before {
      WalkEntriesSound(dir, entries, i - 1, p);
      var names, f :| LeadsWithin(entries, i - 1, names, f) && f.File? && p == JoinAll(dir, names) && IsCandidate(p);
      var j :| 0 <= j < i - 1 && LeadsVia(entries[j], names, f);
      assert LeadsWithin(entries, i, names, f);
    } else {
      WalkEntrySound(dir, entries[i - 1], p);
      var names, f :| LeadsVia(entries[i - 1], names, f) && f.File? && p == JoinAll(dir, names) && IsCandidate(p);
      assert LeadsWithin(entries, i, names, f);
    }
  }

  lemma {:induction false} WalkEntrySound(dir: string, e: Entry, p: string)
    requires WalkEntry(dir, e).Some? && p in WalkEntry(dir, e).value
    ensures exists names, f :: LeadsVia(e, names, f) && f.File? && p == JoinAll(dir, names) && IsCandidate(p)
    decreases e
  {
    match e
    case File(n) =>
      assert [n][1..] == [];
      assert LeadsVia(e, [n], e) && p == JoinAll(dir, [n]);
    case Dir(n, sub) =>
      WalkSound(Join(dir, n), sub, p);
      var rest, f :| Leads(sub, rest, f) && f.File? && p == JoinAll(Join(dir, n), rest) && IsCandidate(p);
      var j :| 0 <= j < |sub.entries| && LeadsVia(sub.entries[j], rest, f);
      var names := [n] + rest;
      assert |names| > 1 && names[0] == n && names[1..] == rest;
      assert LeadsVia(e, names, f);
      assert p == JoinAll(dir, names);
  }

  /** Completeness: every reachable non-directory entry with an accepted
      extension is returned, when the walk does not throw. */
  lemma {:induction false} WalkComplete(dir: string, listing: Listing, names: seq<string>, f: Entry)
    requires Walk(dir, listing).Some?
    requires Leads(listing, names, f) && f.File? && IsCandidate(JoinAll(dir, names))
    ensures JoinAll(dir, names) in Walk(dir, listing).value
    decreases listing
  {
    var entries := listing.entries;
    WalkEntriesComplete(dir, entries, |entries|, names, f);
  }

  lemma {:induction false} WalkEntriesComplete(dir: string, entries: seq<Entry>, i: nat, names: seq<string>, f: Entry)
    requires i <= |entries|
    requires WalkEntries(dir, entries, i).Some?
    requires LeadsWithin(entries, i, names, f) && f.File? && IsCandidate(JoinAll(dir, names))
    ensures JoinAll(dir, names) in WalkEntries(dir, entries, i).value
    decreases entries, i
  {
    var j :| 0 <= j < i && LeadsVia(entries[j], names, f);
    if j == i - 1 {
      WalkEntryComplete(dir, entries[i - 1], names, f);
    } else {
      assert LeadsWithin(entries, i - 1, names, f);
      WalkEntriesComplete(dir, entries, i - 1, names, f);
    }
  }

  lemma {:induction false} WalkEntryComplete(dir: string, e: Entry, names: seq<string>, f: Entry)
    requires WalkEntry(dir, e).Some?
    requires LeadsVia(e, names, f) && f.File? && IsCandidate(JoinAll(dir, names))
    ensures JoinAll(dir, names) in WalkEntry(dir, e).value
    decreases e
  {
    if |names| == 1 {
      assert names[1..] == [];
      assert JoinAll(dir, names) == Join(dir, e.name);
    } else {
      WalkComplete(Join(dir, e.name), e.listing, names[1..], f);
    }
  }

  /** The walk throws exactly when the root listing fails or some entry
      reachable without entering a denied directory throws. */
  lemma {:induction false} WalkFailsIff(dir: string, listing: Listing)
    ensures Walk(dir, listing).None? <==>
      (listing.Locked? || exists names, e :: Leads(listing, names, e) && Throws(e))
    decreases listing
  {
    if listing.Listed? {
      var entries := listing.entries;
      WalkEntriesFailIff(dir, entries, |entries|);
      if exists names, e :: Leads(listing, names, e) && Throws(e) {
        var names, e :| Leads(listing, names, e) && Throws(e);
        assert LeadsWithin(entries, |entries|, names, e);
      }
      if Walk(dir, listing).None? {
        var names, e :| LeadsWithin(entries, |entries|, names, e) && Throws(e);
        assert Leads(listing, names, e);
      }
    }
  }

  lemma {:induction false} WalkEntriesFailIff(dir: string, entries: seq<Entry>, i: nat)
    requires i <= |entries|
    ensures WalkEntries(dir, entries, i).None? <==>
      exists names, e :: LeadsWithin(entries, i, names, e) && Throws(e)
    decreases entries, i
  {
    if i > 0 {
      WalkEntriesFailIff(dir, entries, i - 1);
      WalkEntryFailsIff(dir, entries[i - 1]);
      if exists names, e :: LeadsWithin(entries, i, names, e) && Throws(e) {
        var names, e :| LeadsWithin(entries, i, names, e) && Throws(e);
        var j :| 0 <= j < i && LeadsVia(entries[j], names, e);
        if j < i - 1 {
          assert LeadsWithin(entries, i - 1, names, e);
          var prev := i - 1;
          assert exists names, e :: LeadsWithin(entries, prev, names, e) && Throws(e);
        } else {
          assert LeadsVia(entries[i - 1], names, e);
          var last := entries[i - 1];
          assert exists names, e :: LeadsVia(last, names, e) && Throws(e);
        }
      }
      if WalkEntries(dir, entries, i - 1).None? {
        var names, e :| LeadsWithin(entries, i - 1, names, e) && Throws(e);
        var j :| 0 <= j < i - 1 && LeadsVia(entries[j], names, e);
        assert LeadsWithin(entries, i, names, e);
        assert exists names, e :: LeadsWithin(entries, i, names, e) && Throws(e);
      } else if WalkEntry(dir, entries[i - 1]).None? {
        var names, e :| LeadsVia(entries[i - 1], names, e) && Throws(e);
        assert LeadsWithin(entries, i, names, e);
        assert exists names, e :: LeadsWithin(entries, i, names, e) && Throws(e);
      }
    }
  }

  lemma {:induction false} WalkEntryFailsIff(dir: string, e0: Entry)
    ensures WalkEntry(dir, e0).None? <==> exists names, e :: LeadsVia(e0, names, e) && Throws(e)
    decreases e0
  {
    match e0
    case Broken(n) =>
      var names := [n];
      assert LeadsVia(e0, names, e0) && Throws(e0);
      assert exists names, e :: LeadsVia(e0, names, e) && Throws(e);
    case File(n) =>
    case Dir(n, sub) =>
      if !IsDenied(n) {
        WalkFailsIff(Join(dir, n), sub);
        if sub.Locked? {
          var names := [n];
          assert LeadsVia(e0, names, e0) && Throws(e0);
          assert exists names, e :: LeadsVia(e0, names, e) && Throws(e);
        } else if exists rest, e :: Leads(sub, rest, e) && Throws(e) {
          var rest, e :| Leads(sub, rest, e) && Throws(e);
          var j :| 0 <= j < |sub.entries| && LeadsVia(sub.entries[j], rest, e);
          var names := [n] + rest;
          assert names[1..] == rest;
          assert LeadsVia(e0, names, e);
          assert exists names, e :: LeadsVia(e0, names, e) && Throws(e);
        }
        if exists names, e :: LeadsVia(e0, names, e) && Throws(e) {
          var names, e :| LeadsVia(e0, names, e) && Throws(e);
          if |names| > 1 {
            assert Leads(sub, names[1..], e);
            assert exists rest, t :: Leads(sub, rest, t) && Throws(t);
          }
        }
      }
  }
}
