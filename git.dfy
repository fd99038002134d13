/** `git.py`: the worktree and branch records, and the parser for the output
    of `git worktree list --porcelain`.

    That output is a sequence of records, one `key value` pair per line, each
    record closed by a blank line. The parser keeps a record only when it
    names a branch (detached and bare worktrees do not), and keys the result
    by the branch name without its `refs/heads/` prefix. */
module Git {
  import opened Seqs
  import opened Text

  datatype Worktree = Worktree(path: string, head: string, branch: string)

  /** One branch of a repository, as discovery reports it. `isDefault`,
      `deletable` and `deleteReason` are set by the branch classifier, which
      is not part of this model; a fresh record has the defaults below. */
  datatype BranchInfo = BranchInfo(
    name: string,
    commit: string,
    timestamp: int,
    worktree: Option<Worktree> := None,
    isCurrent: bool := false,
    dirty: bool := false,
    aheadUpstream: int := 0,
    behindUpstream: int := 0,
    aheadMain: int := 0,
    behindMain: int := 0,
    isDefault: bool := false,
    deletable: bool := false,
    deleteReason: Option<string> := None)

  /** The parser either returns the worktrees or stops with Python's
      `KeyError` for the first missing field of a kept record. */
  datatype Parsed = Ok(worktrees: map<string, Worktree>) | KeyError(key: string)

  /** `line.partition(" ")` without the separator: the key is the text before
      the first space, the value everything after it. */
  function Partition(line: string): (kv: (string, string))
    ensures ' ' in line ==> kv.0 + " " + kv.1 == line && ' ' !in kv.0
    ensures ' ' !in line ==> kv == (line, "")
  {
    if ' ' in line then
      var i := FirstIndex(line, ' ');
      assert line == line[..i] + " " + line[i + 1..];
      (line[..i], line[i + 1..])
    else (line, "")
  }

  /** A `key value` line splits back into its key and value. */
  lemma PartitionOfPair(key: string, value: string)
    requires ' ' !in key
    ensures Partition(key + " " + value) == (key, value)
  {
    var line := key + " " + value;
    assert line[|key|] == ' ';
    assert FirstIndex(line, ' ') == |key|;
    assert line[..|key|] == key && line[|key| + 1..] == value;
  }

  /** `s[:n]`. */
  function Take(s: string, n: nat): (r: string)
    ensures |r| <= n && StartsWith(s, r)
    ensures |s| >= n ==> |r| == n
    ensures |s| < n ==> r == s
  {
    if |s| <= n then s else s[..n]
  }

  /** The fields of one record: a key met again overwrites the earlier value. */
  function RecordOf(lines: seq<string>): map<string, string>
    decreases |lines|
  {
    if lines == [] then map[]
    else
      var kv := Partition(lines[|lines| - 1]);
      RecordOf(lines[..|lines| - 1])[kv.0 := kv.1]
  }

  /** Whether a record names a branch (the detached and bare records do not). */
  predicate NamesBranch(rec: map<string, string>)
  {
    "branch" in rec && !StartsWith(rec["branch"], "(")
  }

  /** What the blank line closing a record does to the worktrees found so far. */
  function Commit(rec: map<string, string>, wts: map<string, Worktree>): (r: Parsed)
    ensures !NamesBranch(rec) ==> r == Ok(wts)
    ensures NamesBranch(rec) && "worktree" !in rec ==> r == KeyError("worktree")
    ensures NamesBranch(rec) && "worktree" in rec && "HEAD" !in rec ==> r == KeyError("HEAD")
    ensures r.Ok? && NamesBranch(rec) ==>
      var b := RemovePrefix(rec["branch"], "refs/heads/");
      && r.worktrees.Keys == wts.Keys + {b}
      && r.worktrees[b] == Worktree(rec["worktree"], Take(rec["HEAD"], 7), b)
      && (forall k :: k in wts && k != b ==> r.worktrees[k] == wts[k])
  {
    if NamesBranch(rec) then
      if "worktree" !in rec then KeyError("worktree")
      else if "HEAD" !in rec then KeyError("HEAD")
      else
        var branch := RemovePrefix(rec["branch"], "refs/heads/");
        Ok(wts[branch := Worktree(rec["worktree"], Take(rec["HEAD"], 7), branch)])
    else Ok(wts)
  }

  /** The lines cut at every blank line: the records each closed by a blank
      line, and the lines after the last blank line, which no blank line
      closes. Read from the end, as the parser's loop builds it. */
  function Records(lines: seq<string>): (r: (seq<seq<string>>, seq<string>))
    decreases |lines|
  {
    if lines == [] then ([], [])
    else
      var init := Records(lines[..|lines| - 1]);
      var last := lines[|lines| - 1];
      if IsBlank(last) then (init.0 + [init.1], [])
      else (init.0, init.1 + [last])
  }

  /** Committing the closed records in order, stopping at the first error. */
  function CommitAll(recs: seq<seq<string>>, wts: map<string, Worktree>): Parsed
    decreases |recs|
  {
    if recs == [] then Ok(wts)
    else
      match Commit(RecordOf(recs[0]), wts)
      case KeyError(k) => KeyError(k)
      case Ok(w) => CommitAll(recs[1..], w)
  }

  /** What `parse_worktrees` returns for the lines of its input. */
  function ParseLines(lines: seq<string>): Parsed
  {
    CommitAll(Records(lines).0, map[])
  }

  function CountBlank(lines: seq<string>): nat
    decreases |lines|
  {
    if lines == [] then 0 else (if IsBlank(lines[0]) then 1 else 0) + CountBlank(lines[1..])
  }

  /** `parse_worktrees(output)`. */
  method ParseWorktrees(output: string) returns (r: Parsed)
    ensures r == ParseLines(SplitLines(output))
  {
    var lines := SplitLines(output);
    var worktrees: map<string, Worktree> := map[];
    var current: map<string, string> := map[];
    for i := 0 to |lines|
      invariant current == RecordOf(Records(lines[..i]).1)
      invariant CommitAll(Records(lines[..i]).0, map[]) == Ok(worktrees)
    {
      var line := lines[i];
      if IsBlank(line) {
        BlankLineStep(lines, i, worktrees);
        var committed := CommitRecord(current, worktrees);
        if committed.KeyError? {
          ClosedPrefixFails(lines, i + 1, committed.key);
          return committed;
        }
        worktrees := committed.worktrees;
        current := map[];
        continue;
      }
      KeyValueLineStep(lines, i);
      var kv := Partition(line);
      current := current[kv.0 := kv.1];
    }
    assert lines[..|lines|] == lines;
    r := Ok(worktrees);
  }

  /** The body of the parser's blank-line branch: a record naming a branch
      needs its `worktree` and `HEAD` fields and adds an entry. */
  method CommitRecord(current: map<string, string>, wts: map<string, Worktree>) returns (r: Parsed)
    ensures r == Commit(current, wts)
  {
    r := Ok(wts);
    if "branch" in current && !StartsWith(current["branch"], "(") {
      var branch := RemovePrefix(current["branch"], "refs/heads/");
      if "worktree" !in current {
        return KeyError("worktree");
      }
      if "HEAD" !in current {
        return KeyError("HEAD");
      }
      r := Ok(wts[branch := Worktree(current["worktree"], Take(current["HEAD"], 7), branch)]);
    }
  }

  /** A blank line at `i` closes the pending record and commits it. */
  lemma BlankLineStep(lines: seq<string>, i: nat, wts: map<string, Worktree>)
    requires i < |lines| && IsBlank(lines[i])
    requires CommitAll(Records(lines[..i]).0, map[]) == Ok(wts)
    ensures Records(lines[..i + 1]).1 == []
    ensures CommitAll(Records(lines[..i + 1]).0, map[]) == Commit(RecordOf(Records(lines[..i]).1), wts)
  {
    assert lines[..i + 1] == lines[..i] + [lines[i]];
    RecordsSnoc(lines[..i], lines[i]);
    CommitAllSnoc(Records(lines[..i]).0, Records(lines[..i]).1, map[]);
  }

  /** Any other line at `i` adds its field to the pending record. */
  lemma KeyValueLineStep(lines: seq<string>, i: nat)
    requires i < |lines| && !IsBlank(lines[i])
    ensures Records(lines[..i + 1]).0 == Records(lines[..i]).0
    ensures RecordOf(Records(lines[..i + 1]).1) ==
      RecordOf(Records(lines[..i]).1)[Partition(lines[i]).0 := Partition(lines[i]).1]
  {
    assert lines[..i + 1] == lines[..i] + [lines[i]];
    RecordsSnoc(lines[..i], lines[i]);
    var pending := Records(lines[..i + 1]).1;
    assert pending[..|pending| - 1] == Records(lines[..i]).1;
  }

  // ---------------------------------------------------------------------------
  // How the records grow line by line.

  /** A blank line closes the pending record; any other line extends it. */
  lemma RecordsSnoc(lines: seq<string>, line: string)
    ensures IsBlank(line) ==>
      Records(lines + [line]) == (Records(lines).0 + [Records(lines).1], [])
    ensures !IsBlank(line) ==>
      Records(lines + [line]) == (Records(lines).0, Records(lines).1 + [line])
  {
    assert (lines + [line])[..|lines|] == lines;
  }

  /** Committing one more record is committing it after the others. */
  lemma {:induction false} CommitAllSnoc(recs: seq<seq<string>>, rec: seq<string>, wts: map<string, Worktree>)
    ensures CommitAll(recs + [rec], wts) ==
      match CommitAll(recs, wts)
      case KeyError(k) => KeyError(k)
      case Ok(w) => Commit(RecordOf(rec), w)
    decreases |recs|
  {
    if recs == [] {
      assert [rec][1..] == [];
      match Commit(RecordOf(rec), wts)
      case KeyError(k) =>
      case Ok(w) =>
    } else {
      assert (recs + [rec])[1..] == recs[1..] + [rec];
      match Commit(RecordOf(recs[0]), wts)
      case KeyError(k) =>
      case Ok(w) => CommitAllSnoc(recs[1..], rec, w);
    }
  }

  /** An error stops the commits: records after the failing one do not matter. */
  lemma {:induction false} CommitAllErrorPrefix(recs: seq<seq<string>>, more: seq<seq<string>>, wts: map<string, Worktree>)
    requires CommitAll(recs, wts).KeyError?
    ensures CommitAll(recs + more, wts) == CommitAll(recs, wts)
    decreases |recs|
  {
    assert recs != [];
    assert (recs + more)[0] == recs[0];
    assert (recs + more)[1..] == recs[1..] + more;
    match Commit(RecordOf(recs[0]), wts)
    case KeyError(k) =>
    case Ok(w) => CommitAllErrorPrefix(recs[1..], more, w);
  }

  /** Cutting lines after a blank line: the records of the whole are the
      records of the two pieces. */
  lemma {:induction false} RecordsAppendClosed(a: seq<string>, b: seq<string>)
    requires Records(a).1 == []
    ensures Records(a + b) == (Records(a).0 + Records(b).0, Records(b).1)
    decreases |b|
  {
    if b == [] {
      assert a + b == a;
      assert Records(a).0 + [] == Records(a).0;
    } else {
      var init := b[..|b| - 1];
      var last := b[|b| - 1];
      assert b == init + [last];
      assert a + b == (a + init) + [last];
      RecordsAppendClosed(a, init);
      RecordsSnoc(a + init, last);
      RecordsSnoc(init, last);
      var ra, ri := Records(a).0, Records(init);
      assert (ra + ri.0) + [ri.1] == ra + (ri.0 + [ri.1]);
    }
  }

  /** When the record closed at line `i - 1` fails, the whole parse fails. */
  lemma ClosedPrefixFails(lines: seq<string>, i: nat, key: string)
    requires 0 < i <= |lines| && IsBlank(lines[i - 1])
    requires CommitAll(Records(lines[..i]).0, map[]) == KeyError(key)
    ensures ParseLines(lines) == KeyError(key)
  {
    var a, b := lines[..i], lines[i..];
    assert lines == a + b;
    assert a == lines[..i - 1] + [lines[i - 1]];
    RecordsSnoc(lines[..i - 1], lines[i - 1]);
    RecordsAppendClosed(a, b);
    CommitAllErrorPrefix(Records(a).0, Records(b).0, map[]);
  }

  // ---------------------------------------------------------------------------
  // What the parser promises.

  predicate KeyedByBranch(wts: map<string, Worktree>)
  {
    forall k :: k in wts ==> wts[k].branch == k && |wts[k].head| <= 7
  }

  lemma {:induction false} CommitAllKeyedByBranch(recs: seq<seq<string>>, wts: map<string, Worktree>)
    requires KeyedByBranch(wts)
    ensures CommitAll(recs, wts).Ok? ==> KeyedByBranch(CommitAll(recs, wts).worktrees)
    decreases |recs|
  {
    if recs != [] {
      match Commit(RecordOf(recs[0]), wts)
      case KeyError(k) =>
      case Ok(w) => CommitAllKeyedByBranch(recs[1..], w);
    }
  }

  /** Every entry is keyed by its own branch name, and its head is at most
      seven characters long. */
  lemma ParsedKeyedByBranch(lines: seq<string>)
    ensures ParseLines(lines).Ok? ==> KeyedByBranch(ParseLines(lines).worktrees)
  {
    CommitAllKeyedByBranch(Records(lines).0, map[]);
  }

  /** A record closed by a blank line after a closed prefix is committed on
      top of what the prefix gives: `Commit` says exactly how (a record
      without a usable branch changes nothing, and a later record for the same
      branch replaces the earlier entry). */
  lemma ClosedRecordCommitted(prefix: seq<string>, rec: seq<string>, blank: string)
    requires Records(prefix).1 == []
    requires forall j :: 0 <= j < |rec| ==> !IsBlank(rec[j])
    requires IsBlank(blank)
    ensures ParseLines(prefix + rec + [blank]) ==
      match ParseLines(prefix)
      case KeyError(k) => KeyError(k)
      case Ok(w) => Commit(RecordOf(rec), w)
  {
    PendingOfRecord(rec);
    RecordsAppendClosed(prefix, rec);
    var closed := Records(prefix).0;
    assert Records(prefix + rec) == (closed, rec) by {
      assert closed + [] == closed;
    }
    RecordsSnoc(prefix + rec, blank);
    assert Records(prefix + rec + [blank]).0 == closed + [rec];
    CommitAllSnoc(closed, rec, map[]);
  }

  /** Lines without a blank line form one pending record and close nothing. */
  lemma {:induction false} PendingOfRecord(rec: seq<string>)
    requires forall j :: 0 <= j < |rec| ==> !IsBlank(rec[j])
    ensures Records(rec) == ([], rec)
    decreases |rec|
  {
    if rec != [] {
      var init := rec[..|rec| - 1];
      PendingOfRecord(init);
      assert rec == init + [rec[|rec| - 1]];
      RecordsSnoc(init, rec[|rec| - 1]);
    }
  }

  /** A last record that no blank line closes is dropped. */
  lemma UnclosedRecordDropped(prefix: seq<string>, rec: seq<string>)
    requires forall j :: 0 <= j < |rec| ==> !IsBlank(rec[j])
    ensures ParseLines(prefix + rec) == ParseLines(prefix)
  {
    UnclosedRecordKeepsClosed(prefix, rec);
  }

  lemma {:induction false} UnclosedRecordKeepsClosed(prefix: seq<string>, rec: seq<string>)
    requires forall j :: 0 <= j < |rec| ==> !IsBlank(rec[j])
    ensures Records(prefix + rec).0 == Records(prefix).0
    decreases |rec|
  {
    if rec == [] {
      assert prefix + rec == prefix;
    } else {
      var init := rec[..|rec| - 1];
      assert prefix + rec == (prefix + init) + [rec[|rec| - 1]];
      UnclosedRecordKeepsClosed(prefix, init);
      RecordsSnoc(prefix + init, rec[|rec| - 1]);
    }
  }

  /** In a record, the value of a key is the value on its last line. */
  lemma {:induction false} RecordOfLastWins(lines: seq<string>, j: nat)
    requires j < |lines|
    requires forall l :: j < l < |lines| ==> Partition(lines[l]).0 != Partition(lines[j]).0
    ensures Partition(lines[j]).0 in RecordOf(lines)
    ensures RecordOf(lines)[Partition(lines[j]).0] == Partition(lines[j]).1
    decreases |lines|
  {
    if j < |lines| - 1 {
      RecordOfLastWins(lines[..|lines| - 1], j);
    }
  }

  /** A key is in a record iff some line of the record has that key. */
  lemma {:induction false} RecordOfKeys(lines: seq<string>, k: string)
    ensures k in RecordOf(lines) <==> exists j :: 0 <= j < |lines| && Partition(lines[j]).0 == k
    decreases |lines|
  {
    if lines != [] {
      var init := lines[..|lines| - 1];
      RecordOfKeys(init, k);
      if k in RecordOf(init) {
        var j :| 0 <= j < |init| && Partition(init[j]).0 == k;
        assert lines[j] == init[j];
      }
      if exists j :: 0 <= j < |lines| && Partition(lines[j]).0 == k {
        var j :| 0 <= j < |lines| && Partition(lines[j]).0 == k;
        if j < |init| {
          assert init[j] == lines[j];
        }
      }
    }
  }

  lemma {:induction false} ClosedRecordsCount(lines: seq<string>)
    ensures |Records(lines).0| == CountBlank(lines)
    decreases |lines|
  {
    if lines != [] {
      var init := lines[..|lines| - 1];
      ClosedRecordsCount(init);
      assert lines == init + [lines[|lines| - 1]];
      CountBlankSnoc(init, lines[|lines| - 1]);
    }
  }

  lemma {:induction false} CountBlankSnoc(lines: seq<string>, line: string)
    ensures CountBlank(lines + [line]) == CountBlank(lines) + (if IsBlank(line) then 1 else 0)
    decreases |lines|
  {
    if lines == [] {
      assert [line][1..] == [];
    } else {
      assert (lines + [line])[1..] == lines[1..] + [line];
      CountBlankSnoc(lines[1..], line);
    }
  }

  lemma {:induction false} CommitAllSize(recs: seq<seq<string>>, wts: map<string, Worktree>)
    ensures CommitAll(recs, wts).Ok? ==> |CommitAll(recs, wts).worktrees| <= |wts| + |recs|
    decreases |recs|
  {
    if recs != [] {
      match Commit(RecordOf(recs[0]), wts)
      case KeyError(k) =>
      case Ok(w) =>
        assert |w| <= |wts| + 1 by {
          if NamesBranch(RecordOf(recs[0])) {
            var b := RemovePrefix(RecordOf(recs[0])["branch"], "refs/heads/");
            assert w.Keys == wts.Keys + {b};
            assert |wts.Keys + {b}| <= |wts.Keys| + |{b}|;
          }
        }
        CommitAllSize(recs[1..], w);
    }
  }

  /** There are at most as many worktrees as blank lines. */
  lemma ParsedSizeBound(lines: seq<string>)
    ensures ParseLines(lines).Ok? ==> |ParseLines(lines).worktrees| <= CountBlank(lines)
  {
    ClosedRecordsCount(lines);
    CommitAllSize(Records(lines).0, map[]);
  }

  /** A record whose branch is detached yields no worktree, whatever its
      other two lines say (the repository's own test uses a `worktree` and a
      `HEAD` line). */
  lemma DetachedRecordIgnored(l0: string, l1: string)
    requires !IsBlank(l0) && !IsBlank(l1)
    ensures ParseLines([l0, l1, "branch (detached)", ""]) == Ok(map[])
  {
    var l2 := "branch (detached)";
    var rec := [l0, l1, l2];
    var lines := rec + [""];
    assert lines == [l0, l1, "branch (detached)", ""];
    assert forall j :: 0 <= j < |rec| ==> !IsBlank(rec[j]) by {
      NotBlank(l2);
    }
    PendingOfRecord(rec);
    assert IsBlank("");
    RecordsSnoc(rec, "");
    assert Records(lines).0 == [] + [rec] == [rec];
    DetachedNotBranch(l0, l1, l2);
    CommitAllSnoc([], rec, map[]);
    assert [] + [rec] == [rec];
  }

  lemma NotBlank(l: string)
    requires |l| > 0 && 'A' <= l[0] <= 'z'
    ensures !IsBlank(l)
  {
  }

  lemma DetachedNotBranch(l0: string, l1: string, l2: string)
    requires l2 == "branch (detached)"
    ensures !NamesBranch(RecordOf([l0, l1, l2]))
  {
    assert l2 == "branch" + " " + "(detached)";
    PartitionOfPair("branch", "(detached)");
    assert [l0, l1, l2][..2] == [l0, l1];
    assert RecordOf([l0, l1, l2])["branch"] == "(detached)";
    assert StartsWith("(detached)", "(");
  }
}
