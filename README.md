# gbb in Dafny

`gbb` is a terminal dashboard of the git branches of several repositories. It
lists every branch with its age, its distance from upstream and from `main`, and
its worktree. The user moves through the table, filters it, pins branches,
deletes merged ones, and in kitty mode switches the sibling terminal panes to a
branch's directory. This project models the logic of that dashboard and proves
what it promises.

The model has one Dafny module per part of the program:

- `Git` (`git.dfy`): the `Worktree` and `BranchInfo` records, and
  `parse_worktrees`, the parser for `git worktree list --porcelain`.
  - The parser is a loop over lines that fills a pending record and commits it
    at each blank line.
  - It is proved against a specification by records: the lines are cut at
    blank lines, and the records are committed one after the other.
- `Pins` (`pins.dfy`): `pin_key`, and the pins file as a `PinStore` class whose
  field is the stored list.
  - Saving writes the sorted, duplicate-free list.
  - Loading after saving gives back the same set.
- `Cleanup` (`cleanup.dfy`): `has_non_ignored_files` over the names of a
  worktree's entries.
- `Kitty` (`kitty.dfy`): the pane logic of the kitty integration, on the layout
  that `kitten @ ls` reports. It covers:
  - classifying a pane as shell, Claude or busy;
  - finding the dashboard's sibling panes and their most common working
    directory;
  - quoting a path for `cd`;
  - handing a switch command to every idle shell, with the checkout going only
    to the first shell that takes it;
  - focusing a repository's tab, and choosing a new tab title.

  Whether a pane accepted the text typed into it is an input: the set of
  failing windows.
- `Shell` (`shell.dfy`): how a POSIX shell reads one word. It is the reference
  against which path quoting is judged.
- `AppFormat` (`app_format.dfy`): the pure text helpers of `app.py`:
  - `format_age`, with the clock as a parameter;
  - `format_ahead_behind`, on its plain text;
  - `shorten_path`, with the home directory as a parameter;
  - the lines of the delete dialog and its 20-entry cap;
  - the reasons the dialog lists;
  - the name of a new worktree directory.
- `Rows` (`app_rows.dfy`): the row logic of `app.py` on values:
  - flattening the snapshot into rows, and the colour of each repository;
  - row keys `repo:branch:worktree` and how they are split back;
  - the scope, the active row, and pinned rows first;
  - the filter;
  - group starts;
  - the refresh fingerprint;
  - removing a branch, and merging discovered repositories.
- `App` (`app.dfy`): the `GbbApp` screen as a class. Its fields are the ones the
  program keeps:
  - the snapshot, the rows, the colours and the group starts;
  - the pins, the active branch key, the current repository and the scope;
  - the pending delete, the loading flag and the filter bar;
  - the table, held only as the keys of its rows plus the cursor.

  Each handler is a method. It states the whole new state in terms of the
  functions of `Rows`, and the invariant `Valid()`: the cursor is on a row and
  the group starts are rows, in increasing order.

`Seqs`, `Text` and `Paths` hold the generic pieces: `Filter`/`Map` on
sequences; Python's `splitlines`, `split` with a limit, `replace`, `lower` and
`str(int)`; and POSIX `pathlib` parsing and rendering.

## Model

| member | source | states |
|---|---|---|
| `Git.Partition` | src/gbb/git.py:42 | a line with a space splits into the text before the first space and the rest; a line without one is all key and an empty value |
| `Git.PartitionOfPair` | src/gbb/git.py:42-43 | a `key value` line with a space-free key reads back as that key and value |
| `Git.Take` | src/gbb/git.py:36 | `s[:7]` is the first `min(7, |s|)` characters of `s` |
| `Git.Commit` | src/gbb/git.py:32-38 | a record without a branch, or with a branch in parentheses, adds nothing; otherwise a missing `worktree` or `HEAD` raises `KeyError` for that key; otherwise the branch, stripped of `refs/heads/`, is mapped to a worktree with that path and the head cut to 7 characters, and every other entry is kept |
| `Git.ParseWorktrees` | src/gbb/git.py:26-45 | the loop over the lines returns what committing the blank-line-terminated records in order returns |
| `Git.CommitRecord` | src/gbb/git.py:32-39 | the blank-line branch of the loop commits the pending record as `Commit` says |
| `Git.BlankLineStep` | src/gbb/git.py:31-40 | a blank line closes the pending record, commits it, and leaves an empty one |
| `Git.KeyValueLineStep` | src/gbb/git.py:42-43 | any other line closes nothing and sets its key in the pending record, overwriting an earlier value |
| `Git.ClosedPrefixFails` | src/gbb/git.py:32-38 | a `KeyError` in a committed record ends the whole parse with that error |
| `Git.ParsedKeyedByBranch` | src/gbb/git.py:33-37 | every entry of the result is keyed by its own `branch` field |
| `Git.ClosedRecordCommitted` | src/gbb/git.py:31-40 | a record followed by a blank line is committed on top of what came before |
| `Git.UnclosedRecordDropped` | src/gbb/git.py:30-45 | a last record with no blank line after it changes nothing |
| `Git.RecordOfLastWins` | src/gbb/git.py:42-43 | in a record, a key's value is the one on its last line |
| `Git.RecordOfKeys` | src/gbb/git.py:42-43 | a key is in a record iff some line of the record has that key |
| `Git.ParsedSizeBound` | src/gbb/git.py:31-39 | there are never more worktrees than blank lines |
| `Git.DetachedRecordIgnored` | src/gbb/git.py:32 | a record whose branch is `(detached)` yields no worktree, as in the repository's bare-worktree test |
| `Git.DetachedNotBranch` | src/gbb/git.py:32 | a `branch (detached)` line does not name a branch |
| `Pins.PinKey` | src/gbb/pins.py:7-8 | the key is the repository name, `:`, then the branch name |
| `Pins.PinKeyRoundTrip` | src/gbb/pins.py:7-8 | for a repository name without `:`, the key splits back at its first `:` into the two names |
| `Pins.PinKeyInjective` | src/gbb/pins.py:7-8 | two pins are equal only for the same repository and branch |
| `Pins.SortedListUnique` | src/gbb/pins.py:21 | a set has exactly one strictly sorted list of its elements, so `sorted(pins)` is determined by the set |
| `Pins.PinStore.Load` | src/gbb/pins.py:11-15 | no file means no pins; otherwise the pins are the file's entries |
| `Pins.PinStore.Save` | src/gbb/pins.py:18-21 | the file holds exactly the pins, strictly sorted, each once |
| `Pins.PinStore.SaveThenLoad` | src/gbb/pins.py:11-21 | loading after saving gives back exactly the saved set |
| `Cleanup.HasNonIgnoredFiles` | src/gbb/cleanup.py:4-10 | true iff some entry is neither `.git` nor an ignore pattern |
| `Cleanup.OrderIrrelevant` | src/gbb/cleanup.py:6-10 | the answer does not depend on the order of the listing |
| `Cleanup.MorePatternsFewerKept` | src/gbb/cleanup.py:5-10 | more ignore patterns can only turn true into false |
| `Cleanup.OnlyGitIsEmpty` | src/gbb/cleanup.py:5 | a directory with only `.git` is empty even with no patterns; one more entry that is not ignored makes it non-empty |
| `Kitty.IsClaudeProcess` | src/gbb/kitty.py:49-55 | true iff some argument of some foreground process has base name `claude` |
| `Kitty.Classify` | src/gbb/kitty.py:58-71 | a shell iff at a prompt: no process, an empty last command line, or a known shell as the last program, which is checked before Claude. Otherwise Claude iff some argument is `claude`, else busy with the last program's base name |
| `Kitty.ClassifyWindow` | src/gbb/kitty.py:58-71 | the method returns the classification above |
| `Kitty.Pids` | src/gbb/kitty.py:117 | the pids are exactly those the processes report |
| `Kitty.FindSelfTab` | src/gbb/kitty.py:107-110 | the search finds the first tab, in listing order, holding the dashboard's window, or reports that there is none |
| `Kitty.SiblingOf` | src/gbb/kitty.py:115-118 | a sibling record carries the window's id, its classification and its pids |
| `Kitty.SiblingsAreOthers` | src/gbb/kitty.py:111-119 | the siblings are exactly the tab's other windows |
| `Kitty.GetSiblingWindows` | src/gbb/kitty.py:102-121 | no tab with the dashboard gives no siblings; otherwise the siblings are the other windows of the first such tab, in order |
| `Kitty.ShellCwds` | src/gbb/kitty.py:134-143 | each collected directory is the non-empty directory of another pane at a prompt |
| `Kitty.MostCommon` | src/gbb/kitty.py:146-148 | the result occurs at least as often as any element, and among the most frequent it occurs first |
| `Kitty.GetSiblingCwd` | src/gbb/kitty.py:124-151 | none without the dashboard's tab or without idle shell directories; otherwise the most common directory |
| `Kitty.QuotePathSafe` | src/gbb/kitty.py:168-172 | the corrected quoting: the shell reads the quoted text back as exactly the path |
| `Kitty.QuotePathRightForSpacesAndQuotes` | src/gbb/kitty.py:168-172 | the quoting as written is right for non-empty paths of safe characters, spaces and quotes |
| `Kitty.QuotePathSplitsAmpersand` | src/gbb/kitty.py:168-172 | the quoting as written leaves `/tmp/R&D` bare, and the shell does not read that as one word |
| `Kitty.CallsIndex` | src/gbb/kitty.py:227-233 | the k-th idle shell is sent the checkout exactly when no earlier shell took its command with the checkout |
| `Kitty.OneCheckout` | src/gbb/kitty.py:229-233 | after one shell has taken its command, every later one is sent a plain `cd` |
| `Kitty.CheckoutUntilDelivered` | src/gbb/kitty.py:229-233 | each shell up to the first one that takes its command is sent the checkout |
| `Kitty.PanesClaude` | src/gbb/kitty.py:236-237 | the Claude panes are exactly the panes classified Claude, in order |
| `Kitty.PanesSkipped` | src/gbb/kitty.py:234-239 | the skipped labels are the busy panes and the shells whose command failed, in order |
| `Kitty.PanesCheckedOut` | src/gbb/kitty.py:229-233 | the checkout is spent iff there is one and some shell took its command |
| `Kitty.PanesCalls` | src/gbb/kitty.py:227-233 | one command per idle shell, in order, with the checkout as `CallsIndex` says |
| `Kitty.PanesSwitched` | src/gbb/kitty.py:228-231 | the switched count is the number of shells that took their command |
| `Kitty.PanesCount` | src/gbb/kitty.py:227-239 | every pane is counted once: switched + skipped + Claude = all panes |
| `Kitty.SwitchAllPanes` | src/gbb/kitty.py:221-241 | the loop's result and calls are those above, and every pane falls in exactly one bucket |
| `Kitty.FocusRepoTab` | src/gbb/kitty.py:244-262 | true iff some tab's title is the repository's name or starts with `name (`, the tab has a window, and focusing that window did not fail |
| `Kitty.NumberedTitle` | src/gbb/kitty.py:275-277 | `repo (n)` matches the repository's tab title test |
| `Kitty.NumberedTitleInjective` | src/gbb/kitty.py:275-277 | different numbers give different titles |
| `Kitty.Titles` | src/gbb/kitty.py:268-271 | the set holds exactly the titles of all tabs |
| `Kitty.CollectTitles` | src/gbb/kitty.py:268-271 | the loop collects exactly that set |
| `Kitty.NextTabTitle` | src/gbb/kitty.py:265-277 | the title is new and matches the repository: its name when unused, else `name (n)` for the least n ≥ 2 that is unused |
| `Kitty.NumberedTitlesBound` | src/gbb/kitty.py:274-277 | the counter stays within the number of existing titles, so the search ends |
| `AppFormat.AgeParts` | src/gbb/app.py:47-55 | the count and unit chosen by the threshold chain read the age correctly: the count is the age floored to the unit, and the unit is the largest one under its threshold |
| `AppFormat.AgePartsUnique` | src/gbb/app.py:47-55 | exactly one count and unit read an age correctly |
| `AppFormat.FormatAge` | src/gbb/app.py:47-55 | the text has at least two characters and ends with one of `m`, `h`, `d`, `w` |
| `AppFormat.FormatAgeMeaning` | src/gbb/app.py:47-55 | the text is `n` followed by `u` iff `n` and `u` read the age correctly |
| `AppFormat.FormatAgeExamples` | tests/test_app.py:14-19 | 300 s is `5m`, 7200 s is `2h`, 172800 s is `2d`, 1209600 s is `2w` |
| `AppFormat.FormatAheadBehind` | src/gbb/app.py:58-66 | empty iff both counts are zero; otherwise the up part, then the down part |
| `AppFormat.FormatAheadBehindInjective` | src/gbb/app.py:58-66 | the text determines both counts |
| `AppFormat.FormatAheadBehindExamples` | tests/test_app.py:7-11 | the four cases the repository's test checks |
| `AppFormat.ShortenPathExpands` | src/gbb/app.py:69-74 | expanding `~` in the shortened text names the same path |
| `AppFormat.ShortenUnderHome` | src/gbb/app.py:69-72 | under home the text is `~/` and the rest of the parts |
| `AppFormat.Shown` | src/gbb/app.py:118-119 | the dialog lists the first `min(20, n)` entries, in order |
| `AppFormat.EntrySectionAccounts` | src/gbb/app.py:116-122 | a blank line, one line per listed entry, and a count line exactly when more than 20; the count is the number not listed |
| `AppFormat.BuildContent` | src/gbb/app.py:109-125 | the lines the appends build are the title, the path, the reasons, the entries and the keys line |
| `AppFormat.AppendReasons` | src/gbb/app.py:112-115 | the reasons section is appended |
| `AppFormat.AppendEntries` | src/gbb/app.py:116-122 | the entry section is appended |
| `AppFormat.DeleteReasons` | src/gbb/app.py:1019-1025 | no reasons iff clean, without entries and deletable; each reason is present iff its condition holds |
| `AppFormat.Sanitize` | src/gbb/app.py:873 | the sanitized branch name has no `/` |
| `AppFormat.WorktreeDirIsSibling` | src/gbb/app.py:873-874 | the new worktree directory has the repository's parent and one more part |
| `AppFormat.DirNameIsPart` | src/gbb/app.py:874 | that part is a single significant path part |
| `AppFormat.DirNameCollides` | src/gbb/app.py:873-874 | branches `a/b` and `a-b` get the same directory |
| `Rows.RowsOf` | src/gbb/app.py:451-452 | one row per branch, in order, with the repository's name and path |
| `Rows.FlattenMembership` | src/gbb/app.py:446-452 | a row is in the flattened rows iff it is some repository's row for one of its branches |
| `Rows.Colors` | src/gbb/app.py:449-450 | every repository name, and only those, gets a colour |
| `Rows.ColorsByPosition` | src/gbb/app.py:449-450 | with distinct names the i-th repository has colour `i mod 8` |
| `Rows.RowKeyRoundTrip` | src/gbb/app.py:719 | a row key splits back with `split(":", 2)` into the repository, the branch and the worktree path |
| `Rows.PinnedBranchesMeaning` | src/gbb/app.py:454-456 | a branch is listed iff its pin key is stored |
| `Rows.ScopedGroups` | src/gbb/app.py:458-467 | the scoped rows are the active rows, then the pinned rows that are not active, then the others, each group in table order |
| `Rows.ScopedPermutation` | src/gbb/app.py:458-467 | the scoped rows are a permutation of the rows in scope |
| `Rows.InScopeMembership` | src/gbb/app.py:459-462 | the scope keeps exactly the current repository's rows, or every row when all are shown or there is no current repository |
| `Rows.FilterRowsMembership` | src/gbb/app.py:1340-1350 | a row is kept iff the empty query, or the lower-cased query occurs in the lower-cased branch or repository name |
| `Rows.FilterRowsCaseInsensitive` | src/gbb/app.py:1342 | the case of the query does not matter |
| `Rows.GroupStartsIncreasing` | src/gbb/app.py:650-656 | the group starts are strictly increasing |
| `Rows.GroupStartsMembership` | src/gbb/app.py:650-656 | a row starts a group iff it is the first row or its repository differs from the previous row's |
| `Rows.GroupStartsFirst` | src/gbb/app.py:653-656 | a non-empty table's first group starts at row 0 |
| `Rows.FingerprintKeys` | src/gbb/app.py:593-605 | snapshots with equal fingerprints give the same row keys, so a skipped refresh never hides a change of the table's rows |
| `Rows.FingerprintIgnoresCurrent` | src/gbb/app.py:593-605 | a change of the current branch alone does not change the fingerprint |
| `Rows.LastCurrentMeaning` | src/gbb/app.py:626-630 | the current repository is the last one holding a current branch, or stays as it was when none does |
| `Rows.MainRowsGuarded` | src/gbb/app.py:786-792 | with distinct names every `main` or `master` row of the table is caught by the guard |
| `Rows.FindRow` | src/gbb/app.py:767-770 | the row found has the repository and branch name looked for; none means no row has them |
| `Rows.RemoveBranch` | src/gbb/app.py:1085-1090 | only the first repository of that name changes, and it loses exactly the branches of that name; names and paths stay |
| `Rows.RemoveBranchFlatten` | src/gbb/app.py:1080-1090 | with distinct names, dropping the rows and dropping the branch from the snapshot agree |
| `Rows.MergedNamesUnique` | src/gbb/app.py:535-539 | merging keeps repository names distinct when the discovered ones are |
| `Rows.MergedTakesRepeatedNewNames` | src/gbb/app.py:536-539 | the names are read once, so a new repository discovered twice is appended twice |
| `Rows.SameGroupUntilNextStart` | src/gbb/app.py:1299-1308 | every row between the cursor and the next group start belongs to the cursor's repository, and the start opens another one |
| `Rows.ViewFromRows` | src/gbb/app.py:636-640 | the table shows only rows of the snapshot |
| `Rows.KeyFindsShownRow` | src/gbb/app.py:758-770 | the row under the cursor is found again by its key: same repository and branch |
| `App.KeyAt` | src/gbb/app.py:616-621 | the key is read only when the cursor is on a row |
| `App.Down` | src/gbb/app.py:1268-1276 | cursor down stays in the table |
| `App.Up` | src/gbb/app.py:1278-1286 | cursor up stays in the table |
| `App.UpDownInverse` | src/gbb/app.py:1268-1286 | up undoes down and down undoes up |
| `App.DownTimes` | src/gbb/app.py:1268-1276 | any number of presses stays in the table |
| `App.DownTimesWraps` | src/gbb/app.py:1268-1276 | k ≤ n presses move k rows, wrapping once; n presses come back |
| `App.Toggled` | src/gbb/app.py:987-991 | the key flips membership and no other pin changes |
| `App.ToggledTwice` | src/gbb/app.py:987-991 | pinning twice restores the pins |
| `App.AppendBranchRows` | src/gbb/app.py:451-452 | the inner loop appends the repository's rows |
| `App.FindCurrentRepo` | src/gbb/app.py:626-630 | the loop whose `break` leaves only the inner loop leaves the last repository with a current branch |
| `App.HasCurrentBranch` | src/gbb/app.py:627-630 | the inner loop finds a current branch iff there is one |
| `App.DeleteDecisionSafe` | src/gbb/app.py:772-803 | a delete acts only when not filtering and nothing is pending, on a row of the snapshot that is neither current nor `main`/`master`; it deletes without asking only a deletable branch without a worktree |
| `App.RepoPathOf` | src/gbb/app.py:1139-1142 | a path is found iff some repository has the name, and it is the path of the first one |
| `App.RepoPathLoop` | src/gbb/app.py:1151-1154 | the loop with `break` returns that path |
| `App.DropBranch` | src/gbb/app.py:1085-1090 | the loop with `break` drops the branch from the first repository of that name |
| `App.AppendDiscovered` | src/gbb/app.py:536-539 | the loop appends exactly the discovered repositories whose names were not in the snapshot before the loop, the names being read once before it |
| `App.FindRowLoop` | src/gbb/app.py:767-770 | the loop returns the first row with that repository and branch name |
| `App.IsMainLoop` | src/gbb/app.py:786-792 | the loop refuses exactly the guarded rows, looking at the first repository of that name only |
| `App.FlattenWithColors` | src/gbb/app.py:446-452 | the loop builds the flattened rows and the colour map |
| `App.BuildTable` | src/gbb/app.py:650-656 | the loop builds one key per row and the group starts |
| `App.FindAnchor` | src/gbb/app.py:636-645 | the cursor goes to the first row with the followed key, else to the old row clamped to the table |
| `App.FirstAbove` | src/gbb/app.py:1302-1305 | the first group start past the cursor, in list order, or none |
| `App.LastBelow` | src/gbb/app.py:1291-1294 | the last group start before the cursor, walking in reverse, or none |
| `App.GbbApp.constructor` | src/gbb/app.py:399-426 | no data and an empty table; the given scope, pins and kitty mode |
| `App.GbbApp.Populate` | src/gbb/app.py:647-720 | the table holds one key per row, in order, with its group starts; the cursor is on row 0 |
| `App.GbbApp.ApplyFilter` | src/gbb/app.py:1340-1350 | the table shows the scoped rows that match the query |
| `App.GbbApp.Redisplay` | src/gbb/app.py:1091-1095 | the table shows the filtered rows while filtering, else the scoped rows |
| `App.GbbApp.RebuildRows` | src/gbb/app.py:446-452 | the rows and colours are rebuilt from the snapshot |
| `App.GbbApp.RedisplayAt` | src/gbb/app.py:636-645 | after redisplaying, the cursor is anchored by key or clamped |
| `App.GbbApp.ApplyRefresh` | src/gbb/app.py:607-645 | with a pending delete or an equal fingerprint nothing changes. Otherwise: the new snapshot, its rows and colours, the last repository with a current branch, the table redisplayed, and the cursor on the old key or clamped |
| `App.GbbApp.Replace` | src/gbb/app.py:615-645 | the accepted refresh, as above |
| `App.GbbApp.Repopulate` | src/gbb/app.py:1158-1176 | redisplay following the given key, by default the key under the cursor |
| `App.GbbApp.MergeDiscovered` | src/gbb/app.py:535-544 | the snapshot gains the new repositories and the rows are rebuilt, loading ends, and the scoped rows are shown only when all repositories are shown or there is no current repository; otherwise the table is untouched |
| `App.GbbApp.MergeData` | src/gbb/app.py:536-542 | the snapshot and rows after merging, and loading ended |
| `App.GbbApp.ShowScoped` | src/gbb/app.py:543-544 | the table shows the scoped rows, unfiltered, cursor on row 0 |
| `App.GbbApp.RefreshTick` | src/gbb/app.py:564-571 | a refresh starts iff nothing is pending, nothing is loading and there is data |
| `App.GbbApp.PostFetchRefresh` | src/gbb/app.py:553-556 | a refresh starts iff nothing is pending and nothing is loading |
| `App.GbbApp.RemoveRow` | src/gbb/app.py:1080-1095 | exactly the rows of that repository and branch leave the rows, the first repository of that name loses the branch, and the table is redisplayed |
| `App.GbbApp.GetCursorRowData` | src/gbb/app.py:758-770 | the row named by the key under the cursor, if the table has rows |
| `App.GbbApp.CursorOnShownRow` | src/gbb/app.py:758-770 | on a table built from the displayed rows, that row is the one under the cursor |
| `App.GbbApp.DeleteBranch` | src/gbb/app.py:772-803 | the step is the decision for the cursor's row. The pending delete is set for a worktree check or a forced delete, cleared for an immediate delete, and untouched otherwise; the confirmation bar shows only for a forced delete |
| `App.GbbApp.ShowDeleteDialog` | src/gbb/app.py:1011-1029 | delete at once iff clean, without entries and deletable, which clears the pending delete; otherwise ask with the reasons |
| `App.GbbApp.AnswerDialog` | src/gbb/app.py:1031-1034 | the pending delete ends either way; the branch is deleted iff confirmed |
| `App.GbbApp.DismissConfirm` | src/gbb/app.py:1074-1078 | nothing pending and the bar hidden |
| `App.GbbApp.OnKey` | src/gbb/app.py:1108-1121 | with the bar shown, `y` deletes the pending row and `n` or `escape` drop it; any other key, or any key without the bar, changes nothing |
| `App.GbbApp.DoDelete` | src/gbb/app.py:1053-1066 | the worktree is removed before the branch; a failure stops the calls; the row is removed iff every call succeeded, and nothing changes otherwise |
| `App.GbbApp.ExecuteDelete` | src/gbb/app.py:1046-1051 | the pending delete ends, then the delete runs as above |
| `App.GbbApp.ToggleScope` | src/gbb/app.py:729-740 | without a current repository nothing changes; otherwise the scope flips and the table is redisplayed |
| `App.GbbApp.TogglePin` | src/gbb/app.py:980-997 | while filtering, pending, or without a row under the cursor nothing changes. Otherwise the row's pin flips, the file holds exactly the new pins, and the scoped rows are shown |
| `App.GbbApp.PinRow` | src/gbb/app.py:986-997 | the pin flip, save and redisplay for a found row |
| `App.GbbApp.StartFilter` | src/gbb/app.py:1310-1317 | the filter opens with empty text, unless already open |
| `App.GbbApp.CloseFilter` | src/gbb/app.py:1319-1326 | the filter closes with its text cleared, and the table shows every scoped row |
| `App.GbbApp.InputChanged` | src/gbb/app.py:1328-1330 | the table shows the scoped rows that match the new text |
| `App.GbbApp.InputSubmitted` | src/gbb/app.py:1332-1338 | the filter closes and the table keeps its rows |
| `App.GbbApp.Cancel` | src/gbb/app.py:749-756 | drop a pending delete first; else close the filter; else quit, changing nothing |
| `App.GbbApp.CursorDown` | src/gbb/app.py:1268-1276 | nothing moves on an empty table; otherwise the cursor moves down, wrapping from the last row to the first |
| `App.GbbApp.CursorUp` | src/gbb/app.py:1278-1286 | nothing moves on an empty table; otherwise the cursor moves up, wrapping from the first row to the last |
| `App.GbbApp.NextGroup` | src/gbb/app.py:1299-1308 | the cursor moves to the nearest group start below it, or wraps to the first; it stays without groups |
| `App.GbbApp.PrevGroup` | src/gbb/app.py:1288-1297 | the cursor moves to the nearest group start above it, or wraps to the last; it stays without groups |
| `App.GbbApp.RowSelected` | src/gbb/app.py:1123-1156 | in kitty mode the row becomes active, the table follows its key, and the panes switch to the worktree, or to the repository with a checkout, or nowhere. Otherwise the app exits with the path, the branch and whether it has a worktree |
| `App.GbbApp.Follow` | src/gbb/app.py:1132-1134 | the active branch key is `repo:branch`, and the table follows the selected key |
| `App.GbbApp.Choose` | src/gbb/app.py:1135-1156 | where the selection leads, by the key's worktree path and the first repository of its name |

## Left out

- Textual UI: screens, CSS, cell text styling, icons, `notify`, the footer
  timer, the help screen and modal plumbing. The table is only its row keys
  plus a cursor.
  - `DataTable.clear()` is taken to put the cursor on row 0.
  - `move_cursor` is taken to land on the row asked for.
- Background workers and threads (`@work`, the thread pool, cancellation,
  `call_from_thread`). Each callback is a sequential method. `RefreshTick` and
  `PostFetchRefresh` return whether a refresh would start, and its result
  arrives through `ApplyRefresh`.
- `on_mount`, repository discovery and fetching, `action_fetch_refresh`, the
  worktree creation and workspace actions, `action_open_root`, the Claude
  restart dialogs, and the kitty pane switch itself (`_do_kitty_switch`,
  `_handle_switch_result`). `RowSelected` returns the switch it would ask for.
- The git commands behind deletes are not part of this model. `DoDelete` takes
  whether removing the worktree and deleting the branch fail, and returns the
  calls it makes. `is_dirty` and `list_non_ignored_entries` are the inputs of
  `ShowDeleteDialog`.
- The branch fields `deletable`, `delete_reason`, `is_default`, `is_current` and
  `dirty` are inputs. The branch-classification code is not part of this model.
- `main.py` and `config.py` are not part of this model. The app's constructor
  takes the pins and the kitty mode as parameters instead of reading the pins
  file and the environment.
- kitty I/O: `_kitty_ls` JSON parsing and its errors, `send_text`,
  `_kitten_cmd`, `is_kitty`, `self_window_id`, `restart_claude_pane`,
  `create_workspace_tab` and `clear_idle_panes`.
  - The layout is given as already parsed tabs.
  - Failed sends and focus calls are given as a set of failing window ids.
- Files: the pins file is the `file` field of `PinStore`, holding the list of
  strings the JSON file would hold. A malformed file, and the directories
  created on save, are not modelled. A worktree's directory is the list of its
  top-level entry names.
- `str.lower` is modelled as ASCII lower-casing only.
- `Path` values are strings. `pathlib` normalisation is modelled only where the
  program renders a path: `shorten_path`, the worktree directory, `.name` in
  pane classification, and the returned sibling directory.
  - The worktree path handed to the pane switch is passed on as written.
- `Populate`: the colour lookup `self._repo_colors[repo_name]` raises `KeyError`
  for a row whose repository has no colour. The rows shown always come from the
  snapshot that the colours were built from, so the model does not carry the
  error.
- `Populate`: Textual's `DataTable.add_row` raises `DuplicateKey` when a row key
  repeats, and the model does not carry that error. Keys repeat when two
  repositories share a name and both hold a branch of the same name without a
  worktree, which `_merge_discovered` allows (`Rows.MergedTakesRepeatedNewNames`).
  The program then stops part-way through `_populate`, after `clear()`. The
  model instead builds a table with the repeated keys and goes on.
- `Paths.Parse` treats a leading `//` as the `/` anchor, where `PurePosixPath`
  keeps `//` as an anchor of its own, so `shorten_path` of such a path differs.
  git does not report worktree paths of that form.
- The text typed into a pane, `SwitchPaneText`, keeps the quoting of
  `_quote_path` as written. `SafeSwitchPaneText` is the same text with the
  corrected quoting of the finding below, which no handler of the program uses.
- `GetCursorRowData` reads the key's first two fields with `SplitRowKey`, which
  gives an empty branch when the key has no `:`. The program would raise
  `IndexError` there, but every key it builds has two `:`.
- `StartFilter` and `CloseFilter` leave out the `Input.Changed` event that
  setting the bar's value to empty may raise. That event is `InputChanged("")`,
  which shows the scoped rows again.
- `ShortenPathExpands`: stated for absolute paths and an absolute home only, the
  case `Path.home()` and the program's worktree paths are in.
- `RowKeyRoundTrip`: stated for repository and branch names without `:`. Git
  refuses `:` in branch names, and repository names are directory names; the
  worktree path may hold `:`.
- `MostCommon`: stated as the first most frequent element. This is how
  `Counter.most_common(1)` breaks ties, by first insertion.

## Findings

| source | as written | input that shows it | evidently intended | confidence | as-written member | corrected member |
|---|---|---|---|---|---|---|
| src/gbb/kitty.py:168-172 | the path is quoted only when it holds a space or `'`, so other shell metacharacters (`&`, `;`, `$`, `*`, …) pass through bare into the typed `cd` | `/tmp/R&D`: the shell runs `cd /tmp/R` in the background and then `D` | quote any path that is not made only of characters that are safe unquoted | high, not executed | `Kitty.QuotePathSplitsAmpersand` | `Kitty.QuotePathSafe` |
