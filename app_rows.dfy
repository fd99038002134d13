/** The row logic of `app.py`, on values: the snapshot of repositories and
    their branches, the flat list of table rows built from it, the row keys,
    the scope, pin and filter selections, the group starts, the refresh
    fingerprint, and the lookups the delete and refresh actions make. */
module Rows {
  import opened Seqs
  import opened Text
  import opened Paths
  import opened Git
  import opened Pins

  /** One repository of the snapshot: `(name, path, branches)`. */
  datatype Repo = Repo(name: string, path: string, branches: seq<BranchInfo>)

  /** One table row: `(repo_name, repo_path, branch)`. */
  datatype Row = Row(repo: string, path: string, branch: BranchInfo)

  /** `REPO_COLORS`. */
  const RepoColors: seq<string> :=
    ["#50fa7b", "#8be9fd", "#ff79c6", "#ffb86c", "#bd93f9", "#f1fa8c", "#ff5555", "#6272a4"]

  /** `[(name, path, b) for b in branches]`. */
  function RowsOf(r: Repo): (rows: seq<Row>)
    ensures |rows| == |r.branches|
    ensures forall k :: 0 <= k < |rows| ==> rows[k] == Row(r.name, r.path, r.branches[k])
  {
    seq(|r.branches|, k requires 0 <= k < |r.branches| => Row(r.name, r.path, r.branches[k]))
  }

  /** The rows of every repository, repository by repository. */
  function Flatten(data: seq<Repo>): seq<Row>
    decreases |data|
  {
    if data == [] then [] else Flatten(data[..|data| - 1]) + RowsOf(data[|data| - 1])
  }

  lemma FlattenSnoc(data: seq<Repo>, r: Repo)
    ensures Flatten(data + [r]) == Flatten(data) + RowsOf(r)
  {
    assert (data + [r])[..|data|] == data;
  }

  /** A row comes from exactly where the snapshot has it. */
  lemma {:induction false} FlattenMembership(data: seq<Repo>, row: Row)
    ensures row in Flatten(data) <==>
      exists i, k :: 0 <= i < |data| && 0 <= k < |data[i].branches| && row == Row(data[i].name, data[i].path, data[i].branches[k])
    decreases |data|
  {
    if data != [] {
      var init := data[..|data| - 1];
      FlattenMembership(init, row);
      var last := data[|data| - 1];
      if row in RowsOf(last) {
        var k :| 0 <= k < |RowsOf(last)| && RowsOf(last)[k] == row;
        assert row == Row(data[|data| - 1].name, data[|data| - 1].path, data[|data| - 1].branches[k]);
      }
      if exists i, k :: 0 <= i < |data| && 0 <= k < |data[i].branches| && row == Row(data[i].name, data[i].path, data[i].branches[k]) {
        var i, k :| 0 <= i < |data| && 0 <= k < |data[i].branches| && row == Row(data[i].name, data[i].path, data[i].branches[k]);
        if i < |data| - 1 {
          assert init[i] == data[i];
        } else {
          assert RowsOf(last)[k] == row;
        }
      }
    }
  }

  predicate NamesUnique(data: seq<Repo>)
  {
    forall i, j :: 0 <= i < j < |data| ==> data[i].name != data[j].name
  }

  // ---------------------------------------------------------------------------
  // Colours: `_rebuild_rows` gives the repository at position `i` the colour
  // `REPO_COLORS[i % 8]`; a later repository with the same name overwrites.

  function Colors(data: seq<Repo>): (m: map<string, string>)
    ensures forall n :: n in m <==> exists i :: 0 <= i < |data| && data[i].name == n
    decreases |data|
  {
    if data == [] then map[]
    else
      var init := data[..|data| - 1];
      assert forall i :: 0 <= i < |init| ==> init[i] == data[i];
      Colors(init)[data[|data| - 1].name := RepoColors[(|data| - 1) % |RepoColors|]]
  }

  /** With distinct names, each repository has the colour of its position. */
  lemma {:induction false} ColorsByPosition(data: seq<Repo>, i: nat)
    requires NamesUnique(data) && i < |data|
    ensures Colors(data)[data[i].name] == RepoColors[i % |RepoColors|]
    decreases |data|
  {
    if i < |data| - 1 {
      var init := data[..|data| - 1];
      assert init[i] == data[i];
      ColorsByPosition(init, i);
    }
  }

  // ---------------------------------------------------------------------------
  // Row keys: `f"{repo}:{branch}:{wt_path}"`, split back with `split(":", 2)`.

  /** `str(b.worktree.path)`, or the empty text without a worktree. */
  function WtPath(b: BranchInfo): string
  {
    if b.worktree.Some? then Normalize(b.worktree.value.path) else ""
  }

  function RowKey(row: Row): string
  {
    row.repo + ":" + row.branch.name + ":" + WtPath(row.branch)
  }

  /** The repository, branch and worktree path read from a row key; missing
      fields read as empty. */
  function SplitRowKey(key: string): (f: (string, string, string))
  {
    var parts := SplitN(key, ':', 2);
    (parts[0], if |parts| > 1 then parts[1] else "", if |parts| > 2 then parts[2] else "")
  }

  /** A key reads back into its row's fields. Git refuses `:` in branch
      names; the repository name must not contain one either. The worktree
      path may. */
  lemma RowKeyRoundTrip(row: Row)
    requires ':' !in row.repo && ':' !in row.branch.name
    ensures SplitRowKey(RowKey(row)) == (row.repo, row.branch.name, WtPath(row.branch))
  {
    SplitTwoOfJoined(row.repo, row.branch.name, WtPath(row.branch), ':');
    assert RowKey(row) == row.repo + [':'] + row.branch.name + [':'] + WtPath(row.branch);
  }

  // ---------------------------------------------------------------------------
  // Pins and scope.

  /** `_pinned_branches(repo)`: the branch part of every pin of `repo`. */
  function PinnedBranches(pins: set<string>, repo: string): set<string>
  {
    set key | key in pins && StartsWith(key, repo + ":") :: key[|repo| + 1..]
  }

  /** A branch is listed exactly when its pin is stored. */
  lemma PinnedBranchesMeaning(pins: set<string>, repo: string, branch: string)
    ensures branch in PinnedBranches(pins, repo) <==> PinKey(repo, branch) in pins
  {
    if branch in PinnedBranches(pins, repo) {
      var key :| key in pins && StartsWith(key, repo + ":") && key[|repo| + 1..] == branch;
      assert key == key[..|repo| + 1] + key[|repo| + 1..];
    }
    if PinKey(repo, branch) in pins {
      var key := PinKey(repo, branch);
      assert StartsWith(key, repo + ":") && key[|repo| + 1..] == branch;
    }
  }

  /** `self._current_repo` is truthy: set and not empty. */
  predicate Truthy(s: Option<string>)
  {
    s.Some? && s.value != ""
  }

  function InRepo(repo: string): Row -> bool
  {
    (r: Row) => r.repo == repo
  }

  /** The rows in scope: one repository's, unless every repository is shown
      or there is no current repository. */
  function InScope(rows: seq<Row>, showAll: bool, current: Option<string>): seq<Row>
  {
    if !showAll && Truthy(current) then Filter(rows, InRepo(current.value)) else rows
  }

  /** The row of the branch a pane was last switched to. */
  function IsActive(active: Option<string>): Row -> bool
  {
    (r: Row) => active == Some(PinKey(r.repo, r.branch.name))
  }

  function NotActive(active: Option<string>): Row -> bool
  {
    (r: Row) => active != Some(PinKey(r.repo, r.branch.name))
  }

  function Pinned(pins: set<string>): Row -> bool
  {
    (r: Row) => PinKey(r.repo, r.branch.name) in pins
  }

  function NotPinned(pins: set<string>): Row -> bool
  {
    (r: Row) => PinKey(r.repo, r.branch.name) !in pins
  }

  /** `_scoped_rows()`: the active row, then the pinned rows, then the rest. */
  function Scoped(rows: seq<Row>, showAll: bool, current: Option<string>, active: Option<string>, pins: set<string>): seq<Row>
  {
    var inScope := InScope(rows, showAll, current);
    var rest := Filter(inScope, NotActive(active));
    Filter(inScope, IsActive(active)) + Filter(rest, Pinned(pins)) + Filter(rest, NotPinned(pins))
  }

  function PinnedOnly(active: Option<string>, pins: set<string>): Row -> bool
  {
    (r: Row) => active != Some(PinKey(r.repo, r.branch.name)) && PinKey(r.repo, r.branch.name) in pins
  }

  function Neither(active: Option<string>, pins: set<string>): Row -> bool
  {
    (r: Row) => active != Some(PinKey(r.repo, r.branch.name)) && PinKey(r.repo, r.branch.name) !in pins
  }

  /** The three groups, each in the order of the rows in scope: the pinned
      group holds no active row. */
  lemma ScopedGroups(rows: seq<Row>, showAll: bool, current: Option<string>, active: Option<string>, pins: set<string>)
    ensures var s := InScope(rows, showAll, current);
      Scoped(rows, showAll, current, active, pins)
        == Filter(s, IsActive(active)) + Filter(s, PinnedOnly(active, pins)) + Filter(s, Neither(active, pins))
  {
    var s := InScope(rows, showAll, current);
    FilterFilter(s, NotActive(active), Pinned(pins), PinnedOnly(active, pins));
    FilterFilter(s, NotActive(active), NotPinned(pins), Neither(active, pins));
  }

  /** The scoped rows are the rows in scope, reordered: none lost, none added,
      none repeated. */
  lemma ScopedPermutation(rows: seq<Row>, showAll: bool, current: Option<string>, active: Option<string>, pins: set<string>)
    ensures multiset(Scoped(rows, showAll, current, active, pins)) == multiset(InScope(rows, showAll, current))
  {
    var s := InScope(rows, showAll, current);
    var rest := Filter(s, NotActive(active));
    FilterSplitsMultiset(s, IsActive(active), NotActive(active));
    FilterSplitsMultiset(rest, Pinned(pins), NotPinned(pins));
  }

  /** The scope keeps exactly the rows of the current repository. */
  lemma InScopeMembership(rows: seq<Row>, showAll: bool, current: Option<string>, row: Row)
    ensures row in InScope(rows, showAll, current) <==>
      row in rows && (showAll || !Truthy(current) || row.repo == current.value)
  {
    if !showAll && Truthy(current) {
      FilterMembership(rows, InRepo(current.value), row);
    }
  }

  // ---------------------------------------------------------------------------
  // `_apply_filter(query)`: a case-insensitive substring match on the branch
  // or the repository name.

  function Matches(q: string): Row -> bool
  {
    (r: Row) => IsSubstring(q, Lower(r.branch.name)) || IsSubstring(q, Lower(r.repo))
  }

  function FilterRows(rows: seq<Row>, query: string): seq<Row>
  {
    var q := Lower(query);
    if q != "" then Filter(rows, Matches(q)) else rows
  }

  /** A row is kept when it matches the lower-cased query; an empty query
      keeps every row. */
  lemma FilterRowsMembership(rows: seq<Row>, query: string, row: Row)
    ensures row in FilterRows(rows, query) <==>
      row in rows && (query == "" || Matches(Lower(query))(row))
  {
    if query != "" {
      FilterMembership(rows, Matches(Lower(query)), row);
    }
  }

  /** The filter does not see the case of the query. */
  lemma FilterRowsCaseInsensitive(rows: seq<Row>, query: string)
    ensures FilterRows(rows, Lower(query)) == FilterRows(rows, query)
  {
    LowerIdempotent(query);
  }

  lemma LowerIdempotent(s: string)
    ensures Lower(Lower(s)) == Lower(s)
  {
    forall i | 0 <= i < |s|
      ensures Lower(Lower(s))[i] == Lower(s)[i]
    {
      var c := s[i];
      assert Lower(Lower(s))[i] == LowerChar(LowerChar(c));
    }
  }

  // ---------------------------------------------------------------------------
  // Group starts: `_populate` records the index of every row whose repository
  // differs from the previous row's.

  function GroupStarts(repos: seq<string>): (g: seq<nat>)
    ensures forall k :: 0 <= k < |g| ==> g[k] < |repos|
    decreases |repos|
  {
    if repos == [] then []
    else
      var n := |repos| - 1;
      GroupStarts(repos[..n]) + (if n == 0 || repos[n] != repos[n - 1] then [n] else [])
  }

  predicate StrictlyIncreasing(g: seq<nat>)
  {
    forall i, j :: 0 <= i < j < |g| ==> g[i] < g[j]
  }

  /** The group starts are listed in increasing order. */
  lemma {:induction false} GroupStartsIncreasing(repos: seq<string>)
    ensures StrictlyIncreasing(GroupStarts(repos))
    decreases |repos|
  {
    if repos != [] {
      GroupStartsIncreasing(repos[..|repos| - 1]);
    }
  }

  /** A group starts at the first row and wherever the repository changes. */
  lemma {:induction false} GroupStartsMembership(repos: seq<string>, i: int)
    ensures i in GroupStarts(repos) <==> 0 <= i < |repos| && (i == 0 || repos[i] != repos[i - 1])
    decreases |repos|
  {
    if repos != [] {
      var n := |repos| - 1;
      var init := repos[..n];
      GroupStartsMembership(init, i);
      if 0 < i < n {
        assert init[i] == repos[i] && init[i - 1] == repos[i - 1];
      }
    }
  }

  /** The first row starts the first group. */
  lemma {:induction false} GroupStartsFirst(repos: seq<string>)
    requires repos != []
    ensures var g := GroupStarts(repos); g != [] && g[0] == 0
    decreases |repos|
  {
    if |repos| > 1 {
      GroupStartsFirst(repos[..|repos| - 1]);
    }
  }

  function RepoOf(r: Row): string
  {
    r.repo
  }

  // ---------------------------------------------------------------------------
  // The refresh fingerprint.

  /** What `_data_fingerprint` records of one branch. The repository path,
      the branch's `is_current` flag and the worktree's HEAD and branch are
      not part of it. */
  datatype Print = Print(
    repo: string, branch: string, timestamp: int, dirty: bool,
    aheadUpstream: int, behindUpstream: int, aheadMain: int, behindMain: int,
    isDefault: bool, deletable: bool, deleteReason: Option<string>,
    wtPath: string, commit: string)

  function PrintOf(row: Row): Print
  {
    var b := row.branch;
    Print(row.repo, b.name, b.timestamp, b.dirty, b.aheadUpstream, b.behindUpstream,
      b.aheadMain, b.behindMain, b.isDefault, b.deletable, b.deleteReason, WtPath(b), b.commit)
  }

  function Fingerprint(data: seq<Repo>): seq<Print>
  {
    Map(Flatten(data), PrintOf)
  }

  /** Skipping a refresh with an equal fingerprint never misses a change of
      the rows' keys: equal fingerprints mean the same keys, in order. */
  lemma FingerprintKeys(a: seq<Repo>, b: seq<Repo>)
    requires Fingerprint(a) == Fingerprint(b)
    ensures Map(Flatten(a), RowKey) == Map(Flatten(b), RowKey)
  {
    var fa, fb := Flatten(a), Flatten(b);
    MapIndex(fa, PrintOf);
    MapIndex(fb, PrintOf);
    MapIndex(fa, RowKey);
    MapIndex(fb, RowKey);
    forall i | 0 <= i < |fa|
      ensures RowKey(fa[i]) == RowKey(fb[i])
    {
      assert PrintOf(fa[i]) == PrintOf(fb[i]);
    }
  }

  /** A branch becoming current, and nothing else, leaves the fingerprint
      as it was. */
  lemma FingerprintIgnoresCurrent(data: seq<Repo>, i: nat, k: nat)
    requires i < |data| && k < |data[i].branches|
    ensures var r := data[i];
      var b := r.branches[k];
      Fingerprint(data[i := r.(branches := r.branches[k := b.(isCurrent := !b.isCurrent)])]) == Fingerprint(data)
  {
    var r := data[i];
    var b := r.branches[k];
    var r2 := r.(branches := r.branches[k := b.(isCurrent := !b.isCurrent)]);
    SamePrintsRepo(r, r2);
    SamePrintsUpdate(data, i, r2);
  }

  lemma SamePrintsRepo(r: Repo, r2: Repo)
    requires r.name == r2.name && |r.branches| == |r2.branches|
    requires forall k :: 0 <= k < |r.branches| ==> PrintOf(Row(r.name, r.path, r.branches[k])) == PrintOf(Row(r2.name, r2.path, r2.branches[k]))
    ensures Map(RowsOf(r), PrintOf) == Map(RowsOf(r2), PrintOf)
  {
    MapIndex(RowsOf(r), PrintOf);
    MapIndex(RowsOf(r2), PrintOf);
  }

  lemma {:induction false} SamePrintsUpdate(data: seq<Repo>, i: nat, r2: Repo)
    requires i < |data|
    requires Map(RowsOf(data[i]), PrintOf) == Map(RowsOf(r2), PrintOf)
    ensures Fingerprint(data[i := r2]) == Fingerprint(data)
    decreases |data|
  {
    var n := |data| - 1;
    var init := data[..n];
    var upd := data[i := r2];
    assert upd[..n] == if i < n then init[i := r2] else init;
    MapAppend(Flatten(upd[..n]), RowsOf(upd[n]), PrintOf);
    MapAppend(Flatten(init), RowsOf(data[n]), PrintOf);
    if i < n {
      SamePrintsUpdate(init, i, r2);
    }
  }

  // ---------------------------------------------------------------------------
  // `_apply_refresh` sets the current repository to the last repository
  // holding a current branch: its `break` leaves only the inner loop.

  predicate HasCurrent(r: Repo)
  {
    exists k :: 0 <= k < |r.branches| && r.branches[k].isCurrent
  }

  function LastCurrent(data: seq<Repo>, current: Option<string>): Option<string>
    decreases |data|
  {
    if data == [] then current
    else if HasCurrent(data[|data| - 1]) then Some(data[|data| - 1].name)
    else LastCurrent(data[..|data| - 1], current)
  }

  /** The current repository stays when no repository holds a current
      branch; otherwise it is the last one that does. */
  lemma {:induction false} LastCurrentMeaning(data: seq<Repo>, current: Option<string>)
    ensures (forall i :: 0 <= i < |data| ==> !HasCurrent(data[i])) ==> LastCurrent(data, current) == current
    ensures (exists i :: 0 <= i < |data| && HasCurrent(data[i])) ==>
      exists i :: 0 <= i < |data| && HasCurrent(data[i]) && LastCurrent(data, current) == Some(data[i].name)
        && forall j :: i < j < |data| ==> !HasCurrent(data[j])
    decreases |data|
  {
    if data != [] && !HasCurrent(data[|data| - 1]) {
      var init := data[..|data| - 1];
      LastCurrentMeaning(init, current);
      assert forall i :: 0 <= i < |init| ==> init[i] == data[i];
    }
  }

  // ---------------------------------------------------------------------------
  // Lookups by repository name.

  /** The position of the first repository with this name, or the length. */
  function FirstNamed(data: seq<Repo>, name: string): (i: nat)
    ensures i <= |data|
    ensures i < |data| ==> data[i].name == name
    ensures forall j :: 0 <= j < i ==> data[j].name != name
    decreases |data|
  {
    if data == [] then 0
    else if data[0].name == name then 0
    else 1 + FirstNamed(data[1..], name)
  }

  /** The guard of `action_delete_branch`: the first repository with this
      name has a branch of this name, and the name is `main` or `master`. */
  predicate IsMainBranch(data: seq<Repo>, repo: string, name: string)
  {
    var i := FirstNamed(data, repo);
    && i < |data|
    && (name == "main" || name == "master")
    && exists k :: 0 <= k < |data[i].branches| && data[i].branches[k].name == name
  }

  /** Every `main` or `master` row of the table is guarded. */
  lemma MainRowsGuarded(data: seq<Repo>, row: Row)
    requires NamesUnique(data)
    requires row in Flatten(data)
    requires row.branch.name == "main" || row.branch.name == "master"
    ensures IsMainBranch(data, row.repo, row.branch.name)
  {
    FlattenMembership(data, row);
    var i, k :| 0 <= i < |data| && 0 <= k < |data[i].branches| && row == Row(data[i].name, data[i].path, data[i].branches[k]);
    assert FirstNamed(data, row.repo) == i;
  }

  /** `_get_cursor_row_data`: the first row whose repository and branch name
      are those of the key. */
  function FindRow(rows: seq<Row>, repo: string, branch: string): (r: Option<Row>)
    ensures r.Some? ==> r.value in rows && r.value.repo == repo && r.value.branch.name == branch
    ensures r.None? ==> forall i :: 0 <= i < |rows| ==> !(rows[i].repo == repo && rows[i].branch.name == branch)
    decreases |rows|
  {
    if rows == [] then None
    else if rows[0].repo == repo && rows[0].branch.name == branch then Some(rows[0])
    else FindRow(rows[1..], repo, branch)
  }

  // ---------------------------------------------------------------------------
  // `_remove_row` and `_merge_discovered`, on values.

  function Keep(repo: string, branch: string): Row -> bool
  {
    (r: Row) => !(r.repo == repo && r.branch.name == branch)
  }

  function OtherName(branch: string): BranchInfo -> bool
  {
    (b: BranchInfo) => b.name != branch
  }

  /** The snapshot with `branch` dropped from the first repository named
      `repo`. */
  function RemoveBranch(data: seq<Repo>, repo: string, branch: string): (d: seq<Repo>)
    ensures |d| == |data|
    ensures forall j :: 0 <= j < |d| ==> d[j].name == data[j].name && d[j].path == data[j].path
    ensures forall j :: 0 <= j < |d| && j != FirstNamed(data, repo) ==> d[j] == data[j]
    ensures var i := FirstNamed(data, repo);
      i < |d| ==> d[i].branches == Filter(data[i].branches, OtherName(branch))
  {
    Removed(data, FirstNamed(data, repo), branch)
  }

  /** With distinct repository names, removing the rows of a branch from the
      table's rows and removing the branch from the snapshot agree. */
  lemma RemoveBranchFlatten(data: seq<Repo>, repo: string, branch: string)
    requires NamesUnique(data)
    ensures Filter(Flatten(data), Keep(repo, branch)) == Flatten(RemoveBranch(data, repo, branch))
  {
    RemoveAt(data, FirstNamed(data, repo), repo, branch);
  }

  lemma {:induction false} RemoveAt(data: seq<Repo>, i: nat, repo: string, branch: string)
    requires i <= |data|
    requires forall j :: 0 <= j < |data| && j != i ==> data[j].name != repo
    requires i < |data| ==> data[i].name == repo
    ensures Filter(Flatten(data), Keep(repo, branch)) == Flatten(Removed(data, i, branch))
    decreases |data|
  {
    if data != [] {
      var n := |data| - 1;
      var init := data[..n];
      FilterAppend(Flatten(init), RowsOf(data[n]), Keep(repo, branch));
      if i == n {
        RemoveAt(init, n, repo, branch);
        FilterRowsOf(data[n], repo, branch);
        RemovedLast(data, branch);
      } else {
        RemoveAt(init, if i < n then i else n, repo, branch);
        KeepAll(data[n], repo, branch);
        RemovedBefore(data, i, branch);
      }
    }
  }

  /** The snapshot with `branch` dropped from the repository at `i`, if any. */
  function Removed(data: seq<Repo>, i: nat, branch: string): seq<Repo>
  {
    if i < |data| then data[i := data[i].(branches := Filter(data[i].branches, OtherName(branch)))] else data
  }

  lemma RemovedLast(data: seq<Repo>, branch: string)
    requires data != []
    ensures var n := |data| - 1;
      Flatten(Removed(data, n, branch)) == Flatten(data[..n]) + RowsOf(data[n].(branches := Filter(data[n].branches, OtherName(branch))))
  {
    var n := |data| - 1;
    assert Removed(data, n, branch)[..n] == data[..n];
  }

  lemma RemovedBefore(data: seq<Repo>, i: nat, branch: string)
    requires data != [] && i != |data| - 1
    ensures var n := |data| - 1;
      Flatten(Removed(data, i, branch)) == Flatten(Removed(data[..n], if i < n then i else n, branch)) + RowsOf(data[n])
  {
    var n := |data| - 1;
    if i < n {
      assert Removed(data, i, branch)[..n] == Removed(data[..n], i, branch);
    }
  }

  /** Another repository's rows are all kept. */
  lemma KeepAll(r: Repo, repo: string, branch: string)
    requires r.name != repo
    ensures Filter(RowsOf(r), Keep(repo, branch)) == RowsOf(r)
  {
    FilterAll(RowsOf(r), Keep(repo, branch));
  }

  /** Filtering a repository's rows is filtering its branches. */
  lemma {:induction false} FilterRowsOf(r: Repo, repo: string, branch: string)
    requires r.name == repo
    ensures Filter(RowsOf(r), Keep(repo, branch)) == RowsOf(r.(branches := Filter(r.branches, OtherName(branch))))
    decreases |r.branches|
  {
    if r.branches != [] {
      var tail := r.(branches := r.branches[1..]);
      FilterRowsOf(tail, repo, branch);
      assert RowsOf(r) == [Row(r.name, r.path, r.branches[0])] + RowsOf(tail);
      FilterAppend([Row(r.name, r.path, r.branches[0])], RowsOf(tail), Keep(repo, branch));
      var kept := r.(branches := Filter(r.branches, OtherName(branch)));
      var keptTail := tail.(branches := Filter(tail.branches, OtherName(branch)));
      if r.branches[0].name != branch {
        assert RowsOf(kept) == [Row(r.name, r.path, r.branches[0])] + RowsOf(keptTail);
      } else {
        assert kept.branches == keptTail.branches;
      }
    }
  }

  function NameSet(data: seq<Repo>): set<string>
  {
    set r | r in data :: r.name
  }

  function NotIn(names: set<string>): Repo -> bool
  {
    (r: Repo) => r.name !in names
  }

  /** What `_merge_discovered` appends: every discovered repository whose
      name the snapshot did not have before the merge began. */
  function Merged(data: seq<Repo>, discovered: seq<Repo>): seq<Repo>
  {
    data + Filter(discovered, NotIn(NameSet(data)))
  }

  /** Merging keeps repository names distinct when the discovered ones are. */
  lemma MergedNamesUnique(data: seq<Repo>, discovered: seq<Repo>)
    requires NamesUnique(data) && NamesUnique(discovered)
    ensures NamesUnique(Merged(data, discovered))
  {
    var added := Filter(discovered, NotIn(NameSet(data)));
    FilterKeepsNamesUnique(discovered, NotIn(NameSet(data)));
    forall i, j | 0 <= i < |data| && 0 <= j < |added|
      ensures data[i].name != added[j].name
    {
      FilterMembership(discovered, NotIn(NameSet(data)), added[j]);
      assert data[i] in data;
    }
    var m := Merged(data, discovered);
    forall i, j | 0 <= i < j < |m|
      ensures m[i].name != m[j].name
    {
      if j < |data| {
        assert m[i] == data[i] && m[j] == data[j];
      } else if i < |data| {
        assert m[i] == data[i] && m[j] == added[j - |data|];
      } else {
        assert m[i] == added[i - |data|] && m[j] == added[j - |data|];
      }
    }
  }

  lemma {:induction false} FilterKeepsNamesUnique(s: seq<Repo>, p: Repo -> bool)
    requires NamesUnique(s)
    ensures NamesUnique(Filter(s, p))
    decreases |s|
  {
    if s != [] {
      FilterKeepsNamesUnique(s[1..], p);
      var rest := Filter(s[1..], p);
      forall j | 0 <= j < |rest|
        ensures s[0].name != rest[j].name
      {
        FilterMembership(s[1..], p, rest[j]);
        var k :| 0 <= k < |s[1..]| && s[1..][k] == rest[j];
        assert s[k + 1] == rest[j];
      }
    }
  }

  /** The names are read once, before the loop: two discovered repositories
      with the same new name are both appended. */
  lemma MergedTakesRepeatedNewNames(data: seq<Repo>, r: Repo)
    requires r.name !in NameSet(data)
    ensures Merged(data, [r, r]) == data + [r, r]
  {
    assert Filter([r, r], NotIn(NameSet(data))) == [r] + Filter([r], NotIn(NameSet(data)));
  }

  // ---------------------------------------------------------------------------
  // Steps of the loops that build these values.

  lemma RowsOfSnoc(r: Repo, k: nat)
    requires k < |r.branches|
    ensures RowsOf(r.(branches := r.branches[..k + 1]))
      == RowsOf(r.(branches := r.branches[..k])) + [Row(r.name, r.path, r.branches[k])]
  {
  }

  lemma FlattenPrefixStep(data: seq<Repo>, i: nat)
    requires i < |data|
    ensures Flatten(data[..i + 1]) == Flatten(data[..i]) + RowsOf(data[i])
    ensures Colors(data[..i + 1]) == Colors(data[..i])[data[i].name := RepoColors[i % |RepoColors|]]
  {
    assert data[..i + 1][..i] == data[..i];
  }

  lemma GroupStartsSnoc(rows: seq<Row>, i: nat)
    requires i < |rows|
    ensures GroupStarts(Map(rows[..i + 1], RepoOf)) == GroupStarts(Map(rows[..i], RepoOf))
      + (if i == 0 || rows[i].repo != rows[i - 1].repo then [i] else [])
  {
    assert rows[..i + 1] == rows[..i] + [rows[i]];
    MapSnoc(rows[..i], rows[i], RepoOf);
    var repos := Map(rows[..i + 1], RepoOf);
    assert repos[..i] == Map(rows[..i], RepoOf);
    if i > 0 {
      MapIndex(rows[..i], RepoOf);
      assert repos[i - 1] == rows[i - 1].repo;
    }
  }

  /** Between the cursor and the next group start every row belongs to the
      cursor's repository, and the start opens a different one: the jump
      lands on the first row of the next repository. */
  lemma {:induction false} SameGroupUntilNextStart(repos: seq<string>, c: nat, t: nat)
    requires c < t < |repos|
    requires forall j :: c < j < t ==> j !in GroupStarts(repos)
    ensures forall j :: c <= j < t ==> repos[j] == repos[c]
    ensures t in GroupStarts(repos) ==> repos[t] != repos[t - 1]
    decreases t - c
  {
    GroupStartsMembership(repos, t);
    if c + 1 < t {
      SameGroupUntilNextStart(repos, c, t - 1);
      GroupStartsMembership(repos, t - 1);
    }
  }

  // ---------------------------------------------------------------------------
  // What the table shows.

  /** The rows the table shows: the scoped rows, narrowed by the filter while
      it is open. */
  function View(rows: seq<Row>, showAll: bool, current: Option<string>, active: Option<string>,
                pins: set<string>, filtering: bool, query: string): seq<Row>
  {
    var s := Scoped(rows, showAll, current, active, pins);
    if filtering then FilterRows(s, query) else s
  }

  /** The table only shows rows of the snapshot. */
  lemma ViewFromRows(rows: seq<Row>, showAll: bool, current: Option<string>, active: Option<string>,
                     pins: set<string>, filtering: bool, query: string, r: Row)
    requires r in View(rows, showAll, current, active, pins, filtering, query)
    ensures r in rows
  {
    var s := Scoped(rows, showAll, current, active, pins);
    if filtering {
      FilterRowsMembership(s, query, r);
    }
    ScopedPermutation(rows, showAll, current, active, pins);
    assert r in multiset(InScope(rows, showAll, current));
    InScopeMembership(rows, showAll, current, r);
  }

  /** The row under the cursor, looked up from its key, is the row shown
      there: same repository and branch name. */
  lemma KeyFindsShownRow(rows: seq<Row>, shown: seq<Row>, c: nat)
    requires c < |shown| && shown[c] in rows
    requires ':' !in shown[c].repo && ':' !in shown[c].branch.name
    ensures var f := SplitRowKey(Map(shown, RowKey)[c]);
      var found := FindRow(rows, f.0, f.1);
      found.Some? && found.value.repo == shown[c].repo && found.value.branch.name == shown[c].branch.name
  {
    MapIndex(shown, RowKey);
    RowKeyRoundTrip(shown[c]);
  }
}
