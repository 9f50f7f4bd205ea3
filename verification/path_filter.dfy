/** The name rules of the harvester's directory walk
    (site-template/config-harvester.js, getFiles). */
module PathFilter {

  /** A directory with one of these exact entry names is never entered. */
  predicate IsDenied(name: string) {
    name == "node_modules" || name == "wp-admin" || name == "wp-includes" || name == ".git"
  }

  predicate EndsWith(s: string, suffix: string) {
    |suffix| <= |s| && s[|s| - |suffix|..] == suffix
  }

  /** A non-directory is collected when its joined path ends in one of
      these extensions. */
  predicate IsCandidate(path: string) {
    EndsWith(path, ".php") || EndsWith(path, ".html") || EndsWith(path, ".js")
  }

  /** `path.join(dir, name)` for an entry name returned by a directory
      listing (never empty, never `.` or `..`, never containing `/`) and a
      directory path that does not end in `/`. */
  function Join(dir: string, name: string): string {
    dir + "/" + name
  }

  /** Testing the suffix of the joined path is the same as testing the
      suffix of the entry name, for any suffix without a `/`. */
  lemma JoinedSuffix(dir: string, name: string, suffix: string)
    requires '/' !in suffix
    ensures EndsWith(Join(dir, name), suffix) <==> EndsWith(name, suffix)
  {
    var p := Join(dir, name);
    if |suffix| <= |name| {
      assert p[|p| - |suffix|..] == name[|name| - |suffix|..];
    } else if |suffix| <= |p| {
      // the `/` separator falls inside the tail that would have to equal `suffix`
      assert p[|p| - |suffix|..][|dir| - (|p| - |suffix|)] == '/';
    }
  }

  /** The walker's extension test depends on the entry name alone. */
  lemma CandidateByName(dir: string, name: string)
    ensures IsCandidate(Join(dir, name)) <==> IsCandidate(name)
  {
    JoinedSuffix(dir, name, ".php");
    JoinedSuffix(dir, name, ".html");
    JoinedSuffix(dir, name, ".js");
  }

  /** Exact matching: a name that merely starts with a denied name, such as
      `node_modules_old`, is still entered, and so is `.github`. */
  lemma DeniedIsExact()
    ensures IsDenied("node_modules") && IsDenied(".git")
    ensures !IsDenied("node_modules_old") && !IsDenied(".github") && !IsDenied("wp-content")
  {
  }
}
