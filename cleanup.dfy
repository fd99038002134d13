/** `cleanup.py`: whether a worktree directory holds anything besides `.git`
    and the configured ignore names. The directory listing is a parameter:
    the names of its entries, in the order the file system lists them. */
module Cleanup {

  /** The names the scan skips: `.git` and every ignore pattern, matched as
      whole names. */
  predicate Ignored(name: string, patterns: seq<string>)
  {
    name == ".git" || name in patterns
  }

  /** Some entry is not ignored. */
  predicate HasKept(entries: seq<string>, patterns: seq<string>)
  {
    exists i :: 0 <= i < |entries| && !Ignored(entries[i], patterns)
  }

  /** `has_non_ignored_files(worktree, patterns)`: stops at the first entry
      that is not ignored. */
  method HasNonIgnoredFiles(entries: seq<string>, patterns: seq<string>) returns (r: bool)
    ensures r <==> HasKept(entries, patterns)
  {
    var ignore := {".git"} + set p | p in patterns;
    for i := 0 to |entries|
      invariant forall k :: 0 <= k < i ==> Ignored(entries[k], patterns)
    {
      if entries[i] in ignore {
        continue;
      }
      return true;
    }
    return false;
  }

  /** The answer does not depend on the order of the listing. */
  lemma {:induction false} OrderIrrelevant(a: seq<string>, b: seq<string>, patterns: seq<string>)
    requires multiset(a) == multiset(b)
    ensures HasKept(a, patterns) <==> HasKept(b, patterns)
  {
    if HasKept(a, patterns) {
      var i :| 0 <= i < |a| && !Ignored(a[i], patterns);
      assert a[i] in multiset(b);
      var j :| 0 <= j < |b| && b[j] == a[i];
    }
    if HasKept(b, patterns) {
      var j :| 0 <= j < |b| && !Ignored(b[j], patterns);
      assert b[j] in multiset(a);
      var i :| 0 <= i < |a| && a[i] == b[j];
    }
  }

  /** Ignoring more names can only turn a "has files" answer into "empty". */
  lemma MorePatternsFewerKept(entries: seq<string>, patterns: seq<string>, more: seq<string>)
    requires forall p :: p in patterns ==> p in more
    ensures HasKept(entries, more) ==> HasKept(entries, patterns)
  {
    if HasKept(entries, more) {
      var i :| 0 <= i < |entries| && !Ignored(entries[i], more);
      assert !Ignored(entries[i], patterns);
    }
  }

  /** A worktree with only its `.git` entry counts as empty, whatever the
      patterns; one entry outside the ignore names makes it non-empty. */
  lemma OnlyGitIsEmpty(patterns: seq<string>, name: string)
    ensures !HasKept([".git"], patterns)
    ensures !Ignored(name, patterns) ==> HasKept([".git", name], patterns)
  {
    if !Ignored(name, patterns) {
      assert [".git", name][1] == name;
    }
  }
}
