/** `app.py`: the `GbbApp` screen. The branch table is modelled by the keys of
    its rows, in order, and the row under the cursor; cell text and styles
    are left to `AppFormat`. Background workers are modelled by what their
    results do once they are handed back to the UI thread. */
module App {
  import opened Seqs
  import opened Git
  import opened Pins
  import opened Rows
  import AppFormat

  // ---------------------------------------------------------------------------
  // The cursor after the table is rebuilt.

  /** The key of the row at `c`, if the table has that row. */
  function KeyAt(keys: seq<string>, c: nat): (k: Option<string>)
    ensures k.Some? <==> c < |keys|
    ensures k.Some? ==> k.value in keys
  {
    if c < |keys| then Some(keys[c]) else None
  }

  function Min(a: nat, b: nat): nat
  {
    if a <= b then a else b
  }

  /** Where `_apply_refresh` and `_repopulate` leave the cursor: on the first
      row with the followed key while the table still has one, else on the
      old row number clamped to the table. */
  predicate Anchored(key: Option<string>, oldCursor: nat, keys: seq<string>, c: nat)
  {
    if key.Some? && key.value != "" && key.value in keys then
      c < |keys| && keys[c] == key.value && key.value !in keys[..c]
    else if keys != [] then c == Min(oldCursor, |keys| - 1)
    else c == 0
  }

  // ---------------------------------------------------------------------------
  // Cursor wrap-around.

  /** `action_cursor_down`: the last row wraps to the first. */
  function Down(c: nat, n: nat): (d: nat)
    requires n > 0
    ensures d < n
  {
    if c >= n - 1 then 0 else c + 1
  }

  /** `action_cursor_up`: the first row wraps to the last. */
  function Up(c: nat, n: nat): (u: nat)
    requires c < n
    ensures u < n
  {
    if c == 0 then n - 1 else c - 1
  }

  /** Up undoes down and down undoes up on every row of the table. */
  lemma UpDownInverse(c: nat, n: nat)
    requires c < n
    ensures Up(Down(c, n), n) == c
    ensures Down(Up(c, n), n) == c
  {
  }

  /** `k` presses of the down key from row `c`. */
  function DownTimes(c: nat, n: nat, k: nat): (d: nat)
    requires c < n
    ensures d < n
  {
    if k == 0 then c else Down(DownTimes(c, n, k - 1), n)
  }

  /** Up to `n` presses of the down key move on `k` rows, wrapping past the
      last row once; `n` presses come back to the starting row. */
  lemma {:induction false} DownTimesWraps(c: nat, n: nat, k: nat)
    requires c < n && k <= n
    ensures DownTimes(c, n, k) == if c + k < n then c + k else c + k - n
    ensures k == n ==> DownTimes(c, n, k) == c
  {
    if k > 0 {
      DownTimesWraps(c, n, k - 1);
    }
  }

  // ---------------------------------------------------------------------------
  // Pins.

  /** `action_toggle_pin` on the pin set. */
  function Toggled(pins: set<string>, key: string): (p: set<string>)
    ensures key in p <==> key !in pins
    ensures forall k :: k != key ==> (k in p <==> k in pins)
  {
    if key in pins then pins - {key} else pins + {key}
  }

  /** Pinning twice leaves the pins as they were. */
  lemma ToggledTwice(pins: set<string>, key: string)
    ensures Toggled(Toggled(pins, key), key) == pins
  {
  }

  // ---------------------------------------------------------------------------
  // The steps the UI thread runs once a worker hands its result back.

  /** `_rebuild_rows`, inner loop: the rows of one repository, appended. */
  method AppendBranchRows(rows: seq<Row>, r: Repo) returns (out: seq<Row>)
    ensures out == rows + RowsOf(r)
  {
    out := rows;
    for k := 0 to |r.branches|
      invariant out == rows + RowsOf(r.(branches := r.branches[..k]))
    {
      RowsOfSnoc(r, k);
      out := out + [Row(r.name, r.path, r.branches[k])];
    }
    assert r.branches[..|r.branches|] == r.branches;
  }

  /** The loop of `_apply_refresh` that looks for the current repository: a
      repository holding the current branch replaces the previous answer, so
      the last such repository wins. */
  method FindCurrentRepo(data: seq<Repo>, current: Option<string>) returns (r: Option<string>)
    ensures r == LastCurrent(data, current)
  {
    r := current;
    for i := 0 to |data|
      invariant r == LastCurrent(data[..i], current)
    {
      assert data[..i + 1][..i] == data[..i];
      var found := HasCurrentBranch(data[i]);
      if found {
        r := Some(data[i].name);
      }
    }
    assert data[..|data|] == data;
  }

  /** The inner loop: does the repository hold the current branch? */
  method HasCurrentBranch(repo: Repo) returns (found: bool)
    ensures found <==> HasCurrent(repo)
  {
    for k := 0 to |repo.branches|
      invariant forall j :: 0 <= j < k ==> !repo.branches[j].isCurrent
    {
      if repo.branches[k].isCurrent {
        return true;
      }
    }
    return false;
  }

  // ---------------------------------------------------------------------------
  // Deleting a branch.

  /** What `action_delete_branch` does with the row under the cursor. */
  datatype DeleteStep =
    | Ignored                    // filtering, or a delete already pending
    | NoRow                      // the table is empty or the key matches no row
    | RefuseCurrent              // "Cannot delete current branch"
    | RefuseMain                 // "Cannot delete main branch"
    | CheckWorktree(row: Row)    // pending; the worktree check runs next
    | Execute(row: Row)          // deleted without asking
    | ConfirmForce(row: Row)     // pending; the confirmation bar asks

  /** The decision of `action_delete_branch`, from the flags, the row under
      the cursor and the snapshot. */
  function DeleteDecision(filtering: bool, pending: bool, data: Option<Row>, repoData: seq<Repo>): DeleteStep
  {
    if filtering || pending then Ignored
    else if data.None? then NoRow
    else if data.value.branch.isCurrent then RefuseCurrent
    else if IsMainBranch(repoData, data.value.repo, data.value.branch.name) then RefuseMain
    else if data.value.branch.worktree.Some? then CheckWorktree(data.value)
    else if data.value.branch.deletable then Execute(data.value)
    else ConfirmForce(data.value)
  }

  predicate Acts(step: DeleteStep)
  {
    step.CheckWorktree? || step.Execute? || step.ConfirmForce?
  }

  /** A delete goes ahead only for a row of the table that is neither the
      checked-out branch nor a repository's `main` or `master`, and never
      while the filter is open or another delete is pending. Only a branch
      that is known to be safe to drop is deleted without a question. */
  lemma DeleteDecisionSafe(filtering: bool, pending: bool, data: Option<Row>, repoData: seq<Repo>)
    requires NamesUnique(repoData)
    requires data.Some? ==> data.value in Flatten(repoData)
    ensures var step := DeleteDecision(filtering, pending, data, repoData);
      Acts(step) ==>
        && !filtering && !pending
        && data == Some(step.row)
        && step.row in Flatten(repoData)
        && !step.row.branch.isCurrent
        && step.row.branch.name != "main" && step.row.branch.name != "master"
        && (step.Execute? ==> step.row.branch.worktree.None? && step.row.branch.deletable)
  {
    var step := DeleteDecision(filtering, pending, data, repoData);
    if Acts(step) {
      var row := data.value;
      if row.branch.name == "main" || row.branch.name == "master" {
        MainRowsGuarded(repoData, row);
      }
    }
  }

  /** A git call of `_do_delete`, in the order it is made. */
  datatype GitCall =
    | RemoveWorktree(repoPath: string, worktreePath: string)
    | ForceDeleteBranch(repoPath: string, branch: string)

  /** What the worktree check found: the reasons the dialog lists, or none
      and the branch is deleted at once. */
  datatype DialogStep = DeleteNow | Ask(reasons: seq<string>)

  /** What selecting a row does: leave the app with the chosen path, or, in
      kitty mode, switch the panes to a path, checking out the branch when
      it has no worktree. */
  datatype Selection =
    | ExitWith(path: string, branch: string, hasWorktree: bool)
    | SwitchPanes(target: string, checkout: Option<string>)
    | StayPut

  /** The path of the first repository with this name. */
  function RepoPathOf(data: seq<Repo>, name: string): (p: Option<string>)
    ensures p.Some? <==> exists i :: 0 <= i < |data| && data[i].name == name
    ensures p.Some? ==>
      exists i :: 0 <= i < |data| && data[i].name == name && p.value == data[i].path &&
        forall j :: 0 <= j < i ==> data[j].name != name
  {
    var i := FirstNamed(data, name);
    if i < |data| then Some(data[i].path) else None
  }

  /** The loop of `on_data_table_row_selected` over the snapshot. */
  method RepoPathLoop(data: seq<Repo>, name: string) returns (p: Option<string>)
    ensures p == RepoPathOf(data, name)
  {
    for i := 0 to |data|
      invariant forall j :: 0 <= j < i ==> data[j].name != name
    {
      if data[i].name == name {
        return Some(data[i].path);
      }
    }
    return None;
  }

  /** The loop of `_remove_row` over the snapshot: the first repository of
      this name loses the branch, and the loop stops there. */
  method DropBranch(data: seq<Repo>, repo: string, branch: string) returns (d: seq<Repo>)
    ensures d == RemoveBranch(data, repo, branch)
  {
    d := data;
    for i := 0 to |data|
      invariant d == data
      invariant forall j :: 0 <= j < i ==> data[j].name != repo
    {
      if data[i].name == repo {
        var r := data[i];
        d := data[i := Repo(r.name, r.path, Filter(r.branches, OtherName(branch)))];
        return;
      }
    }
  }

  /** The loop of `_merge_discovered`: the names are collected once, before
      the loop, so a repository discovered twice is appended twice. */
  method AppendDiscovered(data: seq<Repo>, discovered: seq<Repo>) returns (d: seq<Repo>)
    ensures d == Merged(data, discovered)
  {
    var existing := NameSet(data);
    d := data;
    for i := 0 to |discovered|
      invariant d == data + Filter(discovered[..i], NotIn(existing))
    {
      assert discovered[..i + 1] == discovered[..i] + [discovered[i]];
      FilterSnoc(discovered[..i], discovered[i], NotIn(existing));
      if discovered[i].name !in existing {
        d := d + [discovered[i]];
      }
    }
    assert discovered[..|discovered|] == discovered;
  }

  /** The first row of the given repository and branch name, by the loop of
      `_get_cursor_row_data`. */
  method FindRowLoop(rows: seq<Row>, repo: string, branch: string) returns (r: Option<Row>)
    ensures r == FindRow(rows, repo, branch)
  {
    for i := 0 to |rows|
      invariant FindRow(rows, repo, branch) == FindRow(rows[i..], repo, branch)
    {
      assert rows[i..][1..] == rows[i + 1..];
      if rows[i].repo == repo && rows[i].branch.name == branch {
        return Some(rows[i]);
      }
    }
    return None;
  }

  /** The main-branch guard of `action_delete_branch`: only the first
      repository with the row's name is looked at. */
  method IsMainLoop(data: seq<Repo>, repo: string, name: string) returns (isMain: bool)
    ensures isMain == IsMainBranch(data, repo, name)
  {
    for i := 0 to |data|
      invariant forall j :: 0 <= j < i ==> data[j].name != repo
    {
      if data[i].name == repo {
        var branches := data[i].branches;
        for k := 0 to |branches|
          invariant forall j :: 0 <= j < k ==> !((branches[j].name == "main" || branches[j].name == "master") && branches[j].name == name)
        {
          if (branches[k].name == "main" || branches[k].name == "master") && name == branches[k].name {
            return true;
          }
        }
        return false;
      }
    }
    return false;
  }

  /** The loop of `_rebuild_rows`: the rows are the snapshot flattened, and
      the i-th repository takes colour `i mod 8`. */
  method FlattenWithColors(data: seq<Repo>) returns (rows: seq<Row>, colors: map<string, string>)
    ensures rows == Flatten(data)
    ensures colors == Colors(data)
  {
    rows := [];
    colors := map[];
    for i := 0 to |data|
      invariant rows == Flatten(data[..i])
      invariant colors == Colors(data[..i])
    {
      FlattenPrefixStep(data, i);
      colors := colors[data[i].name := RepoColors[i % |RepoColors|]];
      rows := AppendBranchRows(rows, data[i]);
    }
    assert data[..|data|] == data;
  }

  /** The loop of `_populate`: one key per row, and a group start wherever
      the repository differs from the previous row's. */
  method BuildTable(rows: seq<Row>) returns (keys: seq<string>, groups: seq<nat>)
    ensures keys == Map(rows, RowKey)
    ensures groups == GroupStarts(Map(rows, RepoOf))
  {
    keys := [];
    groups := [];
    var lastRepo: Option<string> := None;
    for i := 0 to |rows|
      invariant keys == Map(rows[..i], RowKey)
      invariant groups == GroupStarts(Map(rows[..i], RepoOf))
      invariant lastRepo == if i == 0 then None else Some(rows[i - 1].repo)
    {
      var row := rows[i];
      GroupStartsSnoc(rows, i);
      MapPrefixStep(rows, i, RowKey);
      if lastRepo != Some(row.repo) {
        groups := groups + [i];
        lastRepo := Some(row.repo);
      }
      keys := keys + [RowKey(row)];
    }
    assert rows[..|rows|] == rows;
  }

  /** The cursor's loop of `_apply_refresh` and `_repopulate`. */
  method FindAnchor(keys: seq<string>, key: Option<string>, oldCursor: nat) returns (c: nat)
    ensures Anchored(key, oldCursor, keys, c)
  {
    if key.Some? && key.value != "" && |keys| > 0 {
      for i := 0 to |keys|
        invariant key.value !in keys[..i]
      {
        assert keys[..i + 1] == keys[..i] + [keys[i]];
        if keys[i] == key.value {
          return i;
        }
      }
      assert keys[..|keys|] == keys;
    }
    c := if |keys| > 0 then Min(oldCursor, |keys| - 1) else 0;
  }

  /** The loop of `action_next_group`: the position of the first group
      start below the cursor's row, or the length when there is none. */
  method FirstAbove(groups: seq<nat>, c: nat) returns (i: nat)
    ensures i <= |groups|
    ensures forall j :: 0 <= j < i ==> groups[j] <= c
    ensures i < |groups| ==> groups[i] > c
  {
    i := 0;
    while i < |groups|
      invariant i <= |groups|
      invariant forall j :: 0 <= j < i ==> groups[j] <= c
    {
      if groups[i] > c {
        return;
      }
      i := i + 1;
    }
  }

  /** The loop of `action_prev_group`, which walks the group starts in
      reverse: the position of the last start above the cursor's row, or -1
      when there is none. */
  method LastBelow(groups: seq<nat>, c: nat) returns (i: int)
    ensures -1 <= i < |groups|
    ensures forall j :: i < j < |groups| ==> groups[j] >= c
    ensures i >= 0 ==> groups[i] < c
  {
    i := |groups| - 1;
    while i >= 0
      invariant -1 <= i < |groups|
      invariant forall j :: i < j < |groups| ==> groups[j] >= c
    {
      if groups[i] < c {
        return;
      }
      i := i - 1;
    }
  }

  /** What `action_cancel` did. */
  datatype CancelStep = Dismissed | FilterClosed | Quit

  class GbbApp {
    /** The snapshot: each repository's name, path and branches. */
    var repoData: seq<Repo>
    /** `_all_rows`: the snapshot flattened. */
    var allRows: seq<Row>
    var repoColors: map<string, string>
    /** `_group_indices`: where each repository's rows begin in the table. */
    var groupIndices: seq<nat>
    var pins: set<string>
    var activeBranchKey: Option<string>
    var currentRepo: Option<string>
    var showAll: bool
    /** `_pending_delete`: the row whose deletion awaits an answer. */
    var pendingDelete: Option<Row>
    var loadingOthers: bool
    var filtering: bool
    /** The filter bar's text. */
    var filterText: string
    /** Whether the confirmation bar is shown. */
    var confirmShown: bool
    var kittyMode: bool
    /** The table: its row keys in order, and the cursor's row. */
    var tableKeys: seq<string>
    var cursor: nat

    /** The cursor is on a row, or on row 0 of an empty table, and the group
        starts are rows of the table in increasing order. */
    predicate Valid()
      reads this`tableKeys, this`cursor, this`groupIndices
    {
      && (if tableKeys == [] then cursor == 0 else cursor < |tableKeys|)
      && StrictlyIncreasing(groupIndices)
      && (forall k :: 0 <= k < |groupIndices| ==> groupIndices[k] < |tableKeys|)
    }

    /** The table holds one row per given row, in order, keyed by its row
        key, and a group starts wherever the repository changes. */
    predicate Shows(rows: seq<Row>)
      reads this`tableKeys, this`groupIndices
    {
      && tableKeys == Map(rows, RowKey)
      && groupIndices == GroupStarts(Map(rows, RepoOf))
    }

    /** `__init__`: no data yet; the pins are those read from the pins file
        and the kitty mode is whether the app runs inside kitty. */
    constructor(showAll: bool, pins: set<string>, kittyMode: bool)
      ensures Valid()
      ensures this.showAll == showAll && this.pins == pins && this.kittyMode == kittyMode
      ensures repoData == [] && allRows == [] && repoColors == map[] && groupIndices == []
      ensures activeBranchKey.None? && currentRepo.None? && pendingDelete.None?
      ensures !loadingOthers && !filtering && filterText == "" && !confirmShown
      ensures tableKeys == [] && cursor == 0
    {
      repoData := [];
      allRows := [];
      repoColors := map[];
      groupIndices := [];
      this.pins := pins;
      activeBranchKey := None;
      currentRepo := None;
      this.showAll := showAll;
      pendingDelete := None;
      loadingOthers := false;
      filtering := false;
      filterText := "";
      confirmShown := false;
      this.kittyMode := kittyMode;
      tableKeys := [];
      cursor := 0;
    }

    /** `_scoped_rows`. */
    function ScopedRows(): seq<Row>
      reads this`allRows, this`showAll, this`currentRepo, this`activeBranchKey, this`pins
    {
      Scoped(allRows, showAll, currentRepo, activeBranchKey, pins)
    }

    /** The rows the table is rebuilt from: the scoped rows, filtered by the
        filter bar's text while filtering. */
    function Displayed(): seq<Row>
      reads this`allRows, this`showAll, this`currentRepo, this`activeBranchKey, this`pins,
        this`filtering, this`filterText
    {
      View(allRows, showAll, currentRepo, activeBranchKey, pins, filtering, filterText)
    }

    /** `_populate`: the table is cleared, which puts the cursor on row 0,
        and refilled with one row per given row, keyed by its row key; a
        group starts wherever the repository changes. */
    method Populate(rows: seq<Row>)
      modifies this`tableKeys, this`groupIndices, this`cursor
      ensures Valid()
      ensures Shows(rows)
      ensures cursor == 0
    {
      var keys, groups := BuildTable(rows);
      GroupStartsIncreasing(Map(rows, RepoOf));
      tableKeys := keys;
      groupIndices := groups;
      cursor := 0;
    }

    /** `_apply_filter`: the scoped rows whose branch or repository name
        contains the query, ignoring case; all of them for an empty query. */
    method ApplyFilter(query: string)
      modifies this`tableKeys, this`groupIndices, this`cursor
      ensures Valid() && cursor == 0
      ensures Shows(FilterRows(ScopedRows(), query))
    {
      Populate(FilterRows(ScopedRows(), query));
    }

    /** The step shared by refresh, removal, scope and pin changes: filter by
        the bar's text while filtering, else show the scoped rows. */
    method Redisplay()
      modifies this`tableKeys, this`groupIndices, this`cursor
      ensures Valid() && cursor == 0
      ensures Shows(Displayed())
    {
      if filtering {
        ApplyFilter(filterText);
      } else {
        Populate(ScopedRows());
      }
    }

    /** `_rebuild_rows`. */
    method RebuildRows()
      modifies this`allRows, this`repoColors
      ensures allRows == Flatten(repoData)
      ensures repoColors == Colors(repoData)
    {
      allRows, repoColors := FlattenWithColors(repoData);
    }

    /** Redisplays, then moves the cursor to the first row with the
        followed key, or clamps the old row number to the table. */
    method RedisplayAt(key: Option<string>, oldCursor: nat)
      modifies this`tableKeys, this`groupIndices, this`cursor
      ensures Valid()
      ensures Shows(Displayed())
      ensures Anchored(key, oldCursor, tableKeys, cursor)
    {
      Redisplay();
      var c := FindAnchor(tableKeys, key, oldCursor);
      cursor := c;
    }

    /** `_apply_refresh`. While a delete is pending, or when the new snapshot
        has the fingerprint of the old one, nothing changes. Otherwise the
        snapshot is replaced, the rows and colours rebuilt, the current
        repository re-read, the table redisplayed and the cursor put back on
        the row it was on (by key), or clamped. */
    method ApplyRefresh(newData: seq<Repo>)
      requires Valid()
      modifies this`repoData, this`allRows, this`repoColors, this`currentRepo,
        this`tableKeys, this`groupIndices, this`cursor
      ensures Valid()
      ensures pendingDelete.Some? || Fingerprint(newData) == Fingerprint(old(repoData)) ==>
        unchanged(this)
      ensures pendingDelete.None? && Fingerprint(newData) != Fingerprint(old(repoData)) ==>
        && repoData == newData
        && allRows == Flatten(newData)
        && repoColors == Colors(newData)
        && currentRepo == LastCurrent(newData, old(currentRepo))
        && Shows(Displayed())
        && Anchored(KeyAt(old(tableKeys), old(cursor)), old(cursor), tableKeys, cursor)
    {
      if pendingDelete.Some? {
        return;
      }
      var same := Fingerprint(newData) == Fingerprint(repoData);
      if same {
        return;
      }
      Replace(newData);
    }

    /** `_apply_refresh` once the guards have let the new snapshot through. */
    method Replace(newData: seq<Repo>)
      requires Valid()
      modifies this`repoData, this`allRows, this`repoColors, this`currentRepo,
        this`tableKeys, this`groupIndices, this`cursor
      ensures Valid()
      ensures repoData == newData
      ensures allRows == Flatten(newData)
      ensures repoColors == Colors(newData)
      ensures currentRepo == LastCurrent(newData, old(currentRepo))
      ensures Shows(Displayed())
      ensures Anchored(KeyAt(old(tableKeys), old(cursor)), old(cursor), tableKeys, cursor)
    {
      var cursorKey := KeyAt(tableKeys, cursor);
      var cursorRow := cursor;
      var rows, colors := FlattenWithColors(newData);
      var current := FindCurrentRepo(newData, currentRepo);
      repoData, allRows, repoColors, currentRepo := newData, rows, colors, current;
      RedisplayAt(cursorKey, cursorRow);
    }

    /** `_repopulate`: redisplays and keeps the cursor on the followed key,
        by default the key of the cursor's row. */
    method Repopulate(followKey: Option<string>)
      requires Valid()
      modifies this`tableKeys, this`groupIndices, this`cursor
      ensures Valid()
      ensures Shows(Displayed())
      ensures Anchored(if followKey.None? then KeyAt(old(tableKeys), old(cursor)) else followKey,
        old(cursor), tableKeys, cursor)
    {
      var cursorRow := cursor;
      var key := followKey;
      if key.None? && |tableKeys| > 0 {
        key := KeyAt(tableKeys, cursorRow);
      }
      RedisplayAt(key, cursorRow);
    }

    // -------------------------------------------------------------------------
    // Discovery, refresh timers and removal.

    /** `_merge_discovered`: appends the discovered repositories whose names
        were not in the snapshot, rebuilds the rows and ends the loading
        state; the table is redisplayed only when it shows all repositories
        or there is no current repository. */
    method MergeDiscovered(discovered: seq<Repo>)
      requires Valid()
      modifies this`repoData, this`allRows, this`repoColors, this`loadingOthers,
        this`tableKeys, this`groupIndices, this`cursor
      ensures Valid()
      ensures repoData == Merged(old(repoData), discovered) && Rebuilt() && !loadingOthers
      ensures showAll || currentRepo.None? ==> Shows(ScopedRows()) && cursor == 0
      ensures !(showAll || currentRepo.None?) ==>
        unchanged(this`tableKeys, this`groupIndices, this`cursor)
    {
      MergeData(discovered);
      if showAll || currentRepo.None? {
        ShowScoped();
      }
    }

    /** The data half of `_merge_discovered`: the discovered repositories
        are appended and the rows and colours rebuilt from the result. */
    method MergeData(discovered: seq<Repo>)
      modifies this`repoData, this`allRows, this`repoColors, this`loadingOthers
      ensures repoData == Merged(old(repoData), discovered) && Rebuilt() && !loadingOthers
    {
      var merged := AppendDiscovered(repoData, discovered);
      var rows, colors := FlattenWithColors(merged);
      repoData, allRows, repoColors := merged, rows, colors;
      loadingOthers := false;
    }

    /** The rows and colours are those of the repository data. */
    predicate Rebuilt()
      reads this`repoData, this`allRows, this`repoColors
    {
      allRows == Flatten(repoData) && repoColors == Colors(repoData)
    }

    /** `_populate(_scoped_rows())`: the table shows the scoped rows,
        unfiltered, with the cursor on the first row. */
    method ShowScoped()
      modifies this`tableKeys, this`groupIndices, this`cursor
      ensures Valid() && Shows(ScopedRows()) && cursor == 0
    {
      Populate(ScopedRows());
    }

    /** `_refresh_tick`: a refresh starts only when no delete is pending,
        the other repositories are not loading and there is data. Nothing
        changes here; the refresh result arrives through `ApplyRefresh`. */
    method RefreshTick() returns (started: bool)
      ensures started <==> pendingDelete.None? && !loadingOthers && repoData != []
    {
      if pendingDelete.Some? {
        return false;
      }
      if loadingOthers {
        return false;
      }
      if repoData == [] {
        return false;
      }
      return true;
    }

    /** `_post_fetch_refresh`: after a fetch, a refresh starts unless a
        delete is pending or the other repositories are loading. */
    method PostFetchRefresh() returns (started: bool)
      ensures started <==> pendingDelete.None? && !loadingOthers
    {
      started := pendingDelete.None? && !loadingOthers;
    }

    /** `_remove_row`: the rows of this repository and branch leave the
        table's rows, the first repository of this name loses the branch,
        and the table is redisplayed. */
    method RemoveRow(repo: string, branch: string)
      modifies this`allRows, this`repoData, this`tableKeys, this`groupIndices, this`cursor
      ensures allRows == Filter(old(allRows), Keep(repo, branch))
      ensures repoData == RemoveBranch(old(repoData), repo, branch)
      ensures Valid() && Shows(Displayed()) && cursor == 0
    {
      var d := DropBranch(repoData, repo, branch);
      allRows, repoData := Filter(allRows, Keep(repo, branch)), d;
      Redisplay();
    }

    // -------------------------------------------------------------------------
    // Deleting a branch.

    /** `_get_cursor_row_data`: the row named by the key under the cursor. */
    function CursorRow(): Option<Row>
      reads this`tableKeys, this`cursor, this`allRows
    {
      if cursor < |tableKeys| then
        var f := SplitRowKey(tableKeys[cursor]);
        FindRow(allRows, f.0, f.1)
      else None
    }

    method GetCursorRowData() returns (data: Option<Row>)
      requires Valid()
      ensures data == CursorRow()
    {
      if |tableKeys| == 0 {
        return None;
      }
      var parts := SplitRowKey(tableKeys[cursor]);
      data := FindRowLoop(allRows, parts.0, parts.1);
    }

    /** On a table built from the displayed rows, the cursor's row is found
        again by its key: same repository, same branch name. */
    lemma CursorOnShownRow()
      requires Valid() && Shows(Displayed()) && tableKeys != []
      requires ':' !in Displayed()[cursor].repo && ':' !in Displayed()[cursor].branch.name
      ensures CursorRow().Some?
      ensures CursorRow().value.repo == Displayed()[cursor].repo
      ensures CursorRow().value.branch.name == Displayed()[cursor].branch.name
    {
      var shown := Displayed();
      ViewFromRows(allRows, showAll, currentRepo, activeBranchKey, pins, filtering, filterText, shown[cursor]);
      KeyFindsShownRow(allRows, shown, cursor);
    }

    /** `action_delete_branch`. */
    method DeleteBranch() returns (step: DeleteStep)
      requires Valid()
      modifies this`pendingDelete, this`confirmShown
      ensures step == DeleteDecision(filtering, old(pendingDelete).Some?, CursorRow(), repoData)
      ensures pendingDelete == match step
        case CheckWorktree(row) => Some(row)
        case ConfirmForce(row) => Some(row)
        case Execute(_) => None
        case _ => old(pendingDelete)
      ensures confirmShown == (step.ConfirmForce? || old(confirmShown))
    {
      if filtering || pendingDelete.Some? {
        return Ignored;
      }
      var data := GetCursorRowData();
      if data.None? {
        return NoRow;
      }
      var row := data.value;
      if row.branch.isCurrent {
        return RefuseCurrent;
      }
      var isMain := IsMainLoop(repoData, row.repo, row.branch.name);
      if isMain {
        return RefuseMain;
      }
      if row.branch.worktree.Some? {
        pendingDelete := Some(row);
        step := CheckWorktree(row);
      } else if row.branch.deletable {
        pendingDelete := None;
        step := Execute(row);
      } else {
        pendingDelete := Some(row);
        confirmShown := true;
        step := ConfirmForce(row);
      }
    }

    /** `_show_delete_dialog`: with nothing to warn about the branch is
        deleted at once and the pending delete cleared; otherwise the dialog
        lists the reasons and the delete stays pending. */
    method ShowDeleteDialog(row: Row, dirty: bool, entries: seq<string>) returns (step: DialogStep)
      modifies this`pendingDelete
      ensures var reasons := AppFormat.DeleteReasons(dirty, entries, row.branch.deletable);
        step == if reasons == [] then DeleteNow else Ask(reasons)
      ensures step.DeleteNow? <==> !dirty && entries == [] && row.branch.deletable
      ensures pendingDelete == if step.DeleteNow? then None else old(pendingDelete)
    {
      var reasons := AppFormat.DeleteReasons(dirty, entries, row.branch.deletable);
      if reasons == [] {
        pendingDelete := None;
        return DeleteNow;
      }
      return Ask(reasons);
    }

    /** The dialog's answer: the pending delete ends either way, and the
        branch is deleted only when confirmed. */
    method AnswerDialog(confirmed: bool) returns (delete: bool)
      modifies this`pendingDelete
      ensures pendingDelete.None?
      ensures delete == confirmed
    {
      pendingDelete := None;
      delete := confirmed;
    }

    /** `_dismiss_confirm`. */
    method DismissConfirm()
      modifies this`pendingDelete, this`confirmShown
      ensures pendingDelete.None? && !confirmShown
    {
      pendingDelete := None;
      confirmShown := false;
    }

    /** `on_key` while a delete is pending: with the confirmation bar shown,
        `y` deletes the pending row and `n` or `escape` drop it; any other
        key, or any key while the worktree check runs, changes nothing. */
    method OnKey(key: string) returns (delete: Option<Row>)
      modifies this`pendingDelete, this`confirmShown
      ensures var answered := old(pendingDelete).Some? && old(confirmShown);
        && (answered && key == "y" ==> delete == old(pendingDelete))
        && (!(answered && key == "y") ==> delete.None?)
        && (answered && (key == "y" || key == "n" || key == "escape") ==> pendingDelete.None? && !confirmShown)
        && (!(answered && (key == "y" || key == "n" || key == "escape")) ==>
              pendingDelete == old(pendingDelete) && confirmShown == old(confirmShown))
    {
      delete := None;
      if pendingDelete.Some? {
        if !confirmShown {
          return;
        }
        if key == "y" {
          delete := pendingDelete;
          DismissConfirm();
        } else if key == "n" || key == "escape" {
          DismissConfirm();
        }
      }
    }

    /** `_do_delete`, with the outcome of each git call given: the worktree
        is removed first, a failure stops everything, and the row leaves the
        table only when every call succeeded. */
    method DoDelete(repoName: string, repoPath: string, branch: BranchInfo, worktreeFails: bool, branchFails: bool)
      returns (calls: seq<GitCall>, removed: bool)
      modifies this`allRows, this`repoData, this`tableKeys, this`groupIndices, this`cursor
      ensures var wt := branch.worktree;
        calls == (if wt.Some? then [RemoveWorktree(repoPath, wt.value.path)] else [])
          + (if wt.Some? && worktreeFails then [] else [ForceDeleteBranch(repoPath, branch.name)])
      ensures removed <==> !(branch.worktree.Some? && worktreeFails) && !branchFails
      ensures !removed ==> unchanged(this)
      ensures removed ==>
        && allRows == Filter(old(allRows), Keep(repoName, branch.name))
        && repoData == RemoveBranch(old(repoData), repoName, branch.name)
        && Valid() && Shows(Displayed())
    {
      calls := [];
      removed := false;
      if branch.worktree.Some? {
        calls := calls + [RemoveWorktree(repoPath, branch.worktree.value.path)];
        if worktreeFails {
          return;
        }
      }
      calls := calls + [ForceDeleteBranch(repoPath, branch.name)];
      if branchFails {
        return;
      }
      RemoveRow(repoName, branch.name);
      removed := true;
    }

    // -------------------------------------------------------------------------
    // Scope, pins and the filter bar.

    /** `action_toggle_scope`: without a current repository nothing
        changes; otherwise the scope flips and the table is redisplayed. */
    method ToggleScope()
      modifies this`showAll, this`tableKeys, this`groupIndices, this`cursor
      ensures currentRepo.None? ==> unchanged(this)
      ensures currentRepo.Some? ==>
        showAll == !old(showAll) && Valid() && Shows(Displayed()) && cursor == 0
    {
      if currentRepo.None? {
        return;
      }
      showAll := !showAll;
      Redisplay();
    }

    /** `action_toggle_pin`: while filtering, with a delete pending or with no
        row under the cursor nothing changes. Otherwise the row's pin key is
        added to or taken from the pins, the pins file is rewritten with
        exactly the new pins, and the table shows the scoped rows. */
    method TogglePin(store: PinStore)
      requires Valid()
      modifies this`pins, this`tableKeys, this`groupIndices, this`cursor, store
      ensures filtering || pendingDelete.Some? || old(CursorRow()).None? ==>
        unchanged(this) && unchanged(store)
      ensures !filtering && pendingDelete.None? && old(CursorRow()).Some? ==>
        var row := old(CursorRow()).value;
        && pins == Toggled(old(pins), PinKey(row.repo, row.branch.name))
        && store.file.Some? && Elems(store.file.value) == pins
        && Valid() && Shows(ScopedRows()) && cursor == 0
    {
      if filtering || pendingDelete.Some? {
        return;
      }
      var data := GetCursorRowData();
      if data.None? {
        return;
      }
      PinRow(store, data.value);
    }

    /** `action_toggle_pin` once a row is found: toggle its pin key, save the
        pins and show the scoped rows. */
    method PinRow(store: PinStore, row: Row)
      modifies this`pins, this`tableKeys, this`groupIndices, this`cursor, store
      ensures pins == Toggled(old(pins), PinKey(row.repo, row.branch.name))
      ensures store.file.Some? && Elems(store.file.value) == pins
      ensures Valid() && Shows(ScopedRows()) && cursor == 0
    {
      pins := Toggled(pins, PinKey(row.repo, row.branch.name));
      store.Save(pins);
      ShowScoped();
    }

    /** `action_start_filter`: opens the filter bar with empty text; the table
        is untouched until the text changes. */
    method StartFilter()
      modifies this`filtering, this`filterText
      ensures filtering
      ensures filterText == if old(filtering) then old(filterText) else ""
    {
      if filtering {
        return;
      }
      filtering := true;
      filterText := "";
    }

    /** `_close_filter`: the bar closes, its text is cleared and the table
        shows every scoped row again. */
    method CloseFilter()
      modifies this`filtering, this`filterText, this`tableKeys, this`groupIndices, this`cursor
      ensures !filtering && filterText == ""
      ensures Valid() && Shows(ScopedRows()) && cursor == 0
    {
      filtering, filterText := false, "";
      ShowScoped();
    }

    /** `on_input_changed`: the table shows the scoped rows matching the new
        text. */
    method InputChanged(value: string)
      modifies this`filterText, this`tableKeys, this`groupIndices, this`cursor
      ensures filterText == value
      ensures Valid() && Shows(FilterRows(ScopedRows(), value)) && cursor == 0
    {
      filterText := value;
      ApplyFilter(value);
    }

    /** `on_input_submitted`: the bar closes but keeps its text, and the
        filtered table stays as it is. */
    method InputSubmitted()
      modifies this`filtering
      ensures !filtering
    {
      filtering := false;
    }

    /** `action_cancel`: a pending delete is dropped first; else an open
        filter closes; else the app quits, changing nothing. */
    method Cancel() returns (step: CancelStep)
      modifies this`pendingDelete, this`confirmShown, this`filtering, this`filterText,
        this`tableKeys, this`groupIndices, this`cursor
      ensures step == if old(pendingDelete).Some? then Dismissed
        else if old(filtering) then FilterClosed else Quit
      ensures step.Dismissed? ==>
        && pendingDelete.None? && !confirmShown
        && unchanged(this`filtering, this`filterText, this`tableKeys, this`groupIndices, this`cursor)
      ensures step.FilterClosed? ==>
        && !filtering && filterText == ""
        && Valid() && Shows(ScopedRows()) && cursor == 0
        && unchanged(this`pendingDelete, this`confirmShown)
      ensures step.Quit? ==> unchanged(this)
    {
      if pendingDelete.Some? {
        DismissConfirm();
        return Dismissed;
      } else if filtering {
        CloseFilter();
        return FilterClosed;
      }
      return Quit;
    }

    // -------------------------------------------------------------------------
    // Moving the cursor.

    /** `action_cursor_down`: on an empty table nothing moves; the last row
        wraps to the first. */
    method CursorDown()
      requires Valid()
      modifies this`cursor
      ensures Valid()
      ensures tableKeys == [] ==> cursor == old(cursor)
      ensures tableKeys != [] ==> cursor == Down(old(cursor), |tableKeys|)
    {
      if |tableKeys| == 0 {
        return;
      }
      if cursor >= |tableKeys| - 1 {
        cursor := 0;
      } else {
        cursor := cursor + 1;
      }
    }

    /** `action_cursor_up`: on an empty table nothing moves; the first row
        wraps to the last. */
    method CursorUp()
      requires Valid()
      modifies this`cursor
      ensures Valid()
      ensures tableKeys == [] ==> cursor == old(cursor)
      ensures tableKeys != [] ==> cursor == Up(old(cursor), |tableKeys|)
    {
      if |tableKeys| == 0 {
        return;
      }
      if cursor == 0 {
        cursor := |tableKeys| - 1;
      } else {
        cursor := cursor - 1;
      }
    }

    /** `action_next_group`: the cursor moves to the nearest group start
        below it, or wraps to the first group start; without groups it stays. */
    method NextGroup()
      requires Valid()
      modifies this`cursor
      ensures Valid()
      ensures groupIndices == [] ==> cursor == old(cursor)
      ensures groupIndices != [] ==> cursor in groupIndices
      ensures forall k :: 0 <= k < |groupIndices| && groupIndices[k] > old(cursor) ==>
        old(cursor) < cursor <= groupIndices[k]
      ensures groupIndices != [] && (forall k :: 0 <= k < |groupIndices| ==> groupIndices[k] <= old(cursor)) ==>
        cursor == groupIndices[0]
    {
      var i := FirstAbove(groupIndices, cursor);
      if i < |groupIndices| {
        cursor := groupIndices[i];
      } else if groupIndices != [] {
        cursor := groupIndices[0];
      }
    }

    /** `action_prev_group`: the cursor moves to the nearest group start
        above it, or wraps to the last group start; without groups it stays. */
    method PrevGroup()
      requires Valid()
      modifies this`cursor
      ensures Valid()
      ensures groupIndices == [] ==> cursor == old(cursor)
      ensures groupIndices != [] ==> cursor in groupIndices
      ensures forall k :: 0 <= k < |groupIndices| && groupIndices[k] < old(cursor) ==>
        groupIndices[k] <= cursor < old(cursor)
      ensures groupIndices != [] && (forall k :: 0 <= k < |groupIndices| ==> groupIndices[k] >= old(cursor)) ==>
        cursor == groupIndices[|groupIndices| - 1]
    {
      var i := LastBelow(groupIndices, cursor);
      if i >= 0 {
        cursor := groupIndices[i];
      } else if groupIndices != [] {
        cursor := groupIndices[|groupIndices| - 1];
      }
    }

    // -------------------------------------------------------------------------
    // Selecting a row.

    /** `on_data_table_row_selected`. The key is read back into repository,
        branch and worktree path. In kitty mode the row becomes the active
        branch, the table is redisplayed following the key, and the panes
        switch to the worktree, or to the repository with the branch checked
        out (nowhere when no repository has that name). Otherwise the app
        exits with the worktree path or the repository's path (empty when
        unknown), the branch and whether it has a worktree. */
    method RowSelected(key: string) returns (sel: Selection)
      requires Valid()
      modifies this`activeBranchKey, this`tableKeys, this`groupIndices, this`cursor
      ensures var f := SplitRowKey(key);
        var repoPath := RepoPathOf(repoData, f.0);
        if kittyMode then
          && activeBranchKey == Some(PinKey(f.0, f.1))
          && Valid() && Shows(Displayed())
          && Anchored(Some(key), old(cursor), tableKeys, cursor)
          && sel == (if f.2 != "" then SwitchPanes(f.2, None)
                     else if repoPath.Some? then SwitchPanes(repoPath.value, Some(f.1))
                     else StayPut)
        else
          && unchanged(this)
          && sel == ExitWith(if f.2 != "" then f.2 else if repoPath.Some? then repoPath.value else "",
                             f.1, f.2 != "")
    {
      if kittyMode {
        Follow(key);
      }
      sel := Choose(key);
    }

    /** The kitty-mode step of a selection: the row becomes the active
        branch and the table is redisplayed following its key. */
    method Follow(key: string)
      requires Valid()
      modifies this`activeBranchKey, this`tableKeys, this`groupIndices, this`cursor
      ensures var f := SplitRowKey(key);
        && activeBranchKey == Some(PinKey(f.0, f.1))
        && Valid() && Shows(Displayed())
        && Anchored(Some(key), old(cursor), tableKeys, cursor)
    {
      var f := SplitRowKey(key);
      activeBranchKey := Some(PinKey(f.0, f.1));
      Repopulate(Some(key));
    }

    /** Where a selection leads, by the key and the snapshot. */
    method Choose(key: string) returns (sel: Selection)
      ensures var f := SplitRowKey(key);
        var repoPath := RepoPathOf(repoData, f.0);
        sel == if kittyMode then
            (if f.2 != "" then SwitchPanes(f.2, None)
             else if repoPath.Some? then SwitchPanes(repoPath.value, Some(f.1))
             else StayPut)
          else ExitWith(if f.2 != "" then f.2 else if repoPath.Some? then repoPath.value else "",
                        f.1, f.2 != "")
    {
      var f := SplitRowKey(key);
      var hasWorktree := f.2 != "";
      if kittyMode {
        if hasWorktree {
          return SwitchPanes(f.2, None);
        }
        var repoPath := RepoPathLoop(repoData, f.0);
        if repoPath.Some? {
          return SwitchPanes(repoPath.value, Some(f.1));
        }
        return StayPut;
      }
      var path := f.2;
      if !hasWorktree {
        var repoPath := RepoPathLoop(repoData, f.0);
        path := if repoPath.Some? then repoPath.value else "";
      }
      return ExitWith(path, f.1, hasWorktree);
    }

    /** `_execute_delete`: the pending delete ends, then `_do_delete` runs. */
    method ExecuteDelete(repoName: string, repoPath: string, branch: BranchInfo,
                         worktreeFails: bool, branchFails: bool)
      returns (calls: seq<GitCall>, removed: bool)
      modifies this`pendingDelete, this`allRows, this`repoData, this`tableKeys,
        this`groupIndices, this`cursor
      ensures pendingDelete.None?
      ensures var wt := branch.worktree;
        calls == (if wt.Some? then [RemoveWorktree(repoPath, wt.value.path)] else [])
          + (if wt.Some? && worktreeFails then [] else [ForceDeleteBranch(repoPath, branch.name)])
      ensures removed <==> !(branch.worktree.Some? && worktreeFails) && !branchFails
      ensures !removed ==> unchanged(this`allRows, this`repoData, this`tableKeys, this`groupIndices, this`cursor)
      ensures removed ==>
        && allRows == Filter(old(allRows), Keep(repoName, branch.name))
        && repoData == RemoveBranch(old(repoData), repoName, branch.name)
        && Valid() && Shows(Displayed())
    {
      pendingDelete := None;
      calls, removed := DoDelete(repoName, repoPath, branch, worktreeFails, branchFails);
    }
  }
}
