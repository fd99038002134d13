/** The pure display helpers of `app.py`: the age of a commit, the
    ahead/behind counters, a path shortened to the home directory, the text
    of the delete confirmation dialog, and the directory a new worktree gets. */
module AppFormat {
  import opened Seqs
  import opened Text
  import opened Paths

  // ---------------------------------------------------------------------------
  // `format_age(timestamp)`, with the clock reading `now` as a parameter.

  const Minute: nat := 60
  const Hour: nat := 3600
  const Day: nat := 86400
  const Week: nat := 604800

  predicate IsUnit(u: char)
  {
    u == 'm' || u == 'h' || u == 'd' || u == 'w'
  }

  /** Seconds in the unit named by its suffix. */
  function UnitSeconds(u: char): nat
  {
    match u
    case 'm' => Minute
    case 'h' => Hour
    case 'd' => Day
    case _ => Week
  }

  /** The next larger unit; weeks are the largest. */
  function NextUnit(u: char): char
  {
    match u
    case 'm' => 'h'
    case 'h' => 'd'
    case _ => 'w'
  }

  /** Reading `n` followed by unit `u` for an age of `delta` seconds: `n` is
      the age in that unit rounded down (Python's `//`, so a timestamp in the
      future gives a negative count), and `u` is the largest unit the age
      reaches, minutes below one hour. */
  predicate ShowsAge(delta: int, n: int, u: char)
  {
    && IsUnit(u)
    && n * UnitSeconds(u) <= delta < (n + 1) * UnitSeconds(u)
    && (u == 'm' || UnitSeconds(u) <= delta)
    && (u == 'w' || delta < UnitSeconds(NextUnit(u)))
  }

  /** The count and unit `format_age` picks, by its chain of thresholds. */
  function AgeParts(delta: int): (p: (int, char))
    ensures ShowsAge(delta, p.0, p.1)
  {
    if delta < Hour then (delta / Minute, 'm')
    else if delta < Day then (delta / Hour, 'h')
    else if delta < Week then (delta / Day, 'd')
    else (delta / Week, 'w')
  }

  /** Only one count and unit read correctly for a given age. */
  lemma AgePartsUnique(delta: int, n: int, u: char)
    requires ShowsAge(delta, n, u)
    ensures (n, u) == AgeParts(delta)
  {
    var p := AgeParts(delta);
    assert u == p.1;
    FloorUnique(delta, UnitSeconds(u), n, p.0);
  }

  lemma FloorUnique(delta: int, s: nat, n: int, m: int)
    requires s > 0
    requires n * s <= delta < (n + 1) * s
    requires m * s <= delta < (m + 1) * s
    ensures n == m
  {
    if n < m {
      assert (n + 1) * s <= m * s by {
        MulMonotone(n + 1, m, s);
      }
    } else if m < n {
      assert (m + 1) * s <= n * s by {
        MulMonotone(m + 1, n, s);
      }
    }
  }

  lemma MulMonotone(a: int, b: int, s: nat)
    requires a <= b
    ensures a * s <= b * s
  {
    assert b * s - a * s == (b - a) * s;
  }

  /** `format_age(ts)` read at time `now`. */
  function FormatAge(now: int, ts: int): (r: string)
    ensures |r| >= 2 && IsUnit(r[|r| - 1])
  {
    var p := AgeParts(now - ts);
    IntStr(p.0) + [p.1]
  }

  /** The text shows `n` and `u` exactly when they read the age correctly. */
  lemma FormatAgeMeaning(now: int, ts: int, n: int, u: char)
    ensures FormatAge(now, ts) == IntStr(n) + [u] <==> ShowsAge(now - ts, n, u)
  {
    var p := AgeParts(now - ts);
    if FormatAge(now, ts) == IntStr(n) + [u] {
      var r := FormatAge(now, ts);
      assert r[..|r| - 1] == IntStr(p.0) == IntStr(n);
      IntStrInjective(p.0, n);
    }
    if ShowsAge(now - ts, n, u) {
      AgePartsUnique(now - ts, n, u);
    }
  }

  /** The ages the repository's tests check. */
  lemma FormatAgeExamples(now: int)
    ensures FormatAge(now, now - 300) == "5m"
    ensures FormatAge(now, now - 7200) == "2h"
    ensures FormatAge(now, now - 172800) == "2d"
    ensures FormatAge(now, now - 1209600) == "2w"
  {
    assert NatStr(5) == "5" && NatStr(2) == "2";
  }

  // ---------------------------------------------------------------------------
  // `format_ahead_behind(ahead, behind)`, as its plain text.

  const Up: char := '\U{2191}'
  const Down: char := '\U{2193}'

  function UpPart(ahead: int): string
  {
    if ahead != 0 then [Up] + IntStr(ahead) else ""
  }

  function DownPart(behind: int): string
  {
    if behind != 0 then [Down] + IntStr(behind) else ""
  }

  /** Empty when both counts are zero; otherwise the ahead count after an up
      arrow when it is not zero, then the behind count after a down arrow
      when it is not zero. Python's truthiness: negative counts are shown. */
  function FormatAheadBehind(ahead: int, behind: int): (r: string)
    ensures r == "" <==> ahead == 0 && behind == 0
    ensures r == UpPart(ahead) + DownPart(behind)
  {
    if ahead == 0 && behind == 0 then ""
    else UpPart(ahead) + DownPart(behind)
  }

  /** The text determines both counts: different counters never look alike. */
  lemma FormatAheadBehindInjective(a: int, b: int, c: int, d: int)
    requires FormatAheadBehind(a, b) == FormatAheadBehind(c, d)
    ensures a == c && b == d
  {
    UpPartShape(a);
    UpPartShape(c);
    DownPartShape(b);
    DownPartShape(d);
    FieldsAgree(UpPart(a), DownPart(b), UpPart(c), DownPart(d));
    if a != 0 && c != 0 {
      assert IntStr(a) == UpPart(a)[1..];
      IntStrInjective(a, c);
    }
    if b != 0 && d != 0 {
      assert IntStr(b) == DownPart(b)[1..];
      IntStrInjective(b, d);
    }
  }

  lemma UpPartShape(a: int)
    ensures var s := UpPart(a); (s == "") == (a == 0) && (s != "" ==> s[0] == Up && Down !in s)
  {
    if a != 0 {
      var s := UpPart(a);
      assert forall k :: 1 <= k < |s| ==> s[k] == IntStr(a)[k - 1];
    }
  }

  lemma DownPartShape(b: int)
    ensures var s := DownPart(b); (s == "") == (b == 0) && (s != "" ==> s[0] == Down)
  {
  }

  /** Where the down arrow starts the second field, the fields are read back. */
  lemma FieldsAgree(x: string, y: string, x2: string, y2: string)
    requires x + y == x2 + y2
    requires Down !in x && Down !in x2
    requires y == "" || y[0] == Down
    requires y2 == "" || y2[0] == Down
    ensures x == x2 && y == y2
  {
    BeforeField(x, y);
    BeforeField(x2, y2);
    assert y == (x + y)[|x|..];
  }

  /** The text before the first down arrow. */
  function BeforeDown(s: string): string
  {
    if Down in s then s[..FirstIndex(s, Down)] else s
  }

  lemma BeforeField(x: string, y: string)
    requires Down !in x
    requires y == "" || y[0] == Down
    ensures BeforeDown(x + y) == x
  {
    if y == "" {
      assert x + y == x;
    } else {
      assert (x + y)[|x|] == Down;
      assert forall k :: 0 <= k < |x| ==> (x + y)[k] != Down;
      assert FirstIndex(x + y, Down) == |x|;
    }
  }

  /** The counters the repository's tests check. */
  lemma FormatAheadBehindExamples()
    ensures FormatAheadBehind(0, 0) == ""
    ensures FormatAheadBehind(3, 0) == [Up, '3']
    ensures FormatAheadBehind(0, 2) == [Down, '2']
    ensures FormatAheadBehind(5, 1) == [Up, '5', Down, '1']
  {
    assert NatStr(3) == "3" && NatStr(2) == "2" && NatStr(5) == "5" && NatStr(1) == "1";
  }

  // ---------------------------------------------------------------------------
  // `shorten_path(path)`, with the home directory as a parameter.

  predicate IsPrefix<T(==)>(a: seq<T>, b: seq<T>)
  {
    |a| <= |b| && b[..|a|] == a
  }

  /** `"~/" + str(path.relative_to(home))` when the path lies under home,
      otherwise `str(path)`. A path equal to home becomes `~/.`. */
  function ShortenPath(path: string, home: string): (r: string)
  {
    var p := Parse(path);
    var h := Parse(home);
    if p.absolute == h.absolute && IsPrefix(h.parts, p.parts) then
      "~/" + Render(PurePath(false, p.parts[|h.parts|..]))
    else Render(p)
  }

  /** Expanding `~` in the shortened text gives back the same path. The
      home directory is absolute, and so are the worktree paths shown. */
  lemma ShortenPathExpands(path: string, home: string)
    requires Parse(path).absolute && Parse(home).absolute
    ensures Normalize(ExpandUser(ShortenPath(path, home), home)) == Normalize(path)
  {
    var p := Parse(path);
    var h := Parse(home);
    if IsPrefix(h.parts, p.parts) {
      var rest := p.parts[|h.parts|..];
      ShortenUnderHome(path, home);
      ExpandUnderHome(home, rest);
      assert p.parts == h.parts + rest;
    } else {
      assert ShortenPath(path, home) == Render(p);
      RenderedKept(p, home);
    }
  }

  /** Under home, the text is `~/` followed by the rest of the parts. */
  lemma ShortenUnderHome(path: string, home: string)
    requires Parse(path).absolute && Parse(home).absolute
    requires IsPrefix(Parse(home).parts, Parse(path).parts)
    ensures ShortenPath(path, home) == "~/" + Render(PurePath(false, Parse(path).parts[|Parse(home).parts|..]))
  {
  }

  /** An absolute path's text is not expanded, and reads back as itself. */
  lemma RenderedKept(p: PurePath, home: string)
    requires p.absolute && CleanParts(p.parts)
    ensures Normalize(ExpandUser(Render(p), home)) == Render(p)
  {
    var r := Render(p);
    assert r[0] == '/';
    assert ExpandUser(r, home) == r;
    ParseRender(p);
  }

  /** Expanding `~/rest` puts the parts of `rest` after those of home. */
  lemma ExpandUnderHome(home: string, rest: seq<string>)
    requires Parse(home).absolute && CleanParts(rest)
    ensures var s := "~/" + Render(PurePath(false, rest));
      Parse(ExpandUser(s, home)) == PurePath(true, Parse(home).parts + rest)
  {
    var rel := PurePath(false, rest);
    var s := "~/" + Render(rel);
    assert StartsWith(s, "~/") && s[1..] == "/" + Render(rel);
    var base := RStripSlash(home);
    assert ExpandUser(s, home) == base + "/" + Render(rel);
    ParseConcat(base, Render(rel));
    ParseRStrip(home);
    ParseRender(rel);
    RStripKeepsAnchor(home);
  }

  /** Removing trailing separators keeps a leading one, or leaves nothing. */
  lemma RStripKeepsAnchor(s: string)
    requires |s| > 0 && s[0] == '/'
    ensures var r := RStripSlash(s); r == [] || r[0] == '/'
  {
  }

  // ---------------------------------------------------------------------------
  // The delete confirmation dialog.

  /** At most this many untracked entries are listed. */
  const EntryCap: nat := 20

  function ReasonLine(reason: string): string
  {
    "[yellow]  " + reason + "[/yellow]"
  }

  function EntryLine(entry: string): string
  {
    "  " + entry
  }

  /** The line counting the entries beyond the cap. */
  function MoreLine(remaining: int): string
  {
    "  [dim]... and " + IntStr(remaining) + " more[/dim]"
  }

  /** The entries the dialog lists: the first twenty, in order. */
  function Shown(entries: seq<string>): (s: seq<string>)
    ensures |s| == if |entries| < EntryCap then |entries| else EntryCap
    ensures s == entries[..|s|]
  {
    if |entries| <= EntryCap then entries else entries[..EntryCap]
  }

  /** The entry section: a blank line, the listed entries, and the count of
      the rest when there is one; nothing when there are no entries. */
  function EntrySection(entries: seq<string>): seq<string>
  {
    if entries == [] then []
    else
      [""] + Map(Shown(entries), EntryLine)
      + (if |entries| > EntryCap then [MoreLine(|entries| - EntryCap)] else [])
  }

  function ReasonSection(reasons: seq<string>): seq<string>
  {
    if reasons == [] then [] else [""] + Map(reasons, ReasonLine)
  }

  function TitleLine(branch: string): string
  {
    "[bold]Delete '" + branch + "'?[/bold]"
  }

  const KeysLine: string := "[dim]y[/dim] delete  [dim]n[/dim] cancel"

  /** The lines of the dialog, which `_build_content` joins with newlines. */
  function ContentLines(branch: string, path: string, reasons: seq<string>, entries: seq<string>): seq<string>
  {
    [TitleLine(branch), ""] + [path] + ReasonSection(reasons) + EntrySection(entries) + [""] + [KeysLine]
  }

  /** Every entry is either listed or counted in the summary line, and the
      summary line appears only when some entry is not listed. */
  lemma EntrySectionAccounts(entries: seq<string>)
    requires entries != []
    ensures var sec := EntrySection(entries); var n := |Shown(entries)|;
      && |sec| == 1 + n + (if |entries| > EntryCap then 1 else 0)
      && (forall i :: 0 <= i < n ==> sec[1 + i] == EntryLine(entries[i]))
      && (|entries| > EntryCap ==> sec[|sec| - 1] == MoreLine(|entries| - n))
      && n <= EntryCap
  {
    var shown := Shown(entries);
    var lines := Map(shown, EntryLine);
    var tail := if |entries| > EntryCap then [MoreLine(|entries| - EntryCap)] else [];
    var sec := [""] + lines + tail;
    assert sec == EntrySection(entries);
    MapIndex(shown, EntryLine);
    forall i | 0 <= i < |shown|
      ensures sec[1 + i] == EntryLine(entries[i])
    {
      assert sec[1 + i] == lines[i];
    }
  }

  /** `_build_content`: the list of lines built by appending. */
  method BuildContent(branch: string, path: string, reasons: seq<string>, entries: seq<string>)
    returns (lines: seq<string>)
    ensures lines == ContentLines(branch, path, reasons, entries)
  {
    lines := [TitleLine(branch), ""];
    lines := lines + [path];
    lines := AppendReasons(lines, reasons);
    lines := AppendEntries(lines, entries);
    lines := lines + [""];
    lines := lines + [KeysLine];
  }

  /** The reason lines, after a blank line when there are reasons. */
  method AppendReasons(head: seq<string>, reasons: seq<string>) returns (lines: seq<string>)
    ensures lines == head + ReasonSection(reasons)
  {
    lines := head;
    if reasons != [] {
      lines := AppendEach(lines + [""], reasons, ReasonLine);
    }
  }

  /** The listed entries and the count of the rest, after a blank line when
      there are entries. */
  method AppendEntries(head: seq<string>, entries: seq<string>) returns (lines: seq<string>)
    ensures lines == head + EntrySection(entries)
  {
    lines := head;
    if entries != [] {
      var listed := AppendEach([""], Shown(entries), EntryLine);
      var remaining := |entries| - EntryCap;
      if remaining > 0 {
        listed := listed + [MoreLine(remaining)];
      }
      assert listed == EntrySection(entries);
      lines := lines + listed;
    }
  }

  /** A loop appending one formatted line per item. */
  method AppendEach(head: seq<string>, items: seq<string>, format: string -> string)
    returns (lines: seq<string>)
    ensures lines == head + Map(items, format)
  {
    lines := head;
    var i := 0;
    while i < |items|
      invariant 0 <= i <= |items|
      invariant lines == head + Map(items[..i], format)
    {
      MapSnoc(items[..i], items[i], format);
      assert items[..i + 1] == items[..i] + [items[i]];
      lines := lines + [format(items[i])];
      i := i + 1;
    }
    assert items[..i] == items;
  }

  /** The reasons `_show_delete_dialog` gives for asking before a worktree
      branch is deleted, in this order. */
  function DeleteReasons(dirty: bool, entries: seq<string>, deletable: bool): (rs: seq<string>)
    ensures rs == [] <==> !dirty && entries == [] && deletable
    ensures "uncommitted changes" in rs <==> dirty
    ensures "untracked files" in rs <==> entries != []
    ensures "not detected as merged" in rs <==> !deletable
    ensures |rs| <= 3
  {
    (if dirty then ["uncommitted changes"] else [])
    + (if entries != [] then ["untracked files"] else [])
    + (if !deletable then ["not detected as merged"] else [])
  }

  // ---------------------------------------------------------------------------
  // The directory of a new worktree: next to the repository, named after
  // the repository and the branch with every `/` turned into `-`.

  function Sanitize(branch: string): (r: string)
    ensures '/' !in r
  {
    ReplaceRemoves(branch);
    Replace(branch, '/', "-")
  }

  lemma {:induction false} ReplaceRemoves(s: string)
    ensures '/' !in Replace(s, '/', "-")
    decreases |s|
  {
    if s != [] {
      ReplaceRemoves(s[1..]);
    }
  }

  /** `path.parent`: the path without its last part; `/` and `.` are their
      own parents. */
  function Parent(p: PurePath): PurePath
  {
    if p.parts == [] then p else PurePath(p.absolute, p.parts[..|p.parts| - 1])
  }

  /** `f"{repo_path.name}.{sanitized}"`. */
  function DirName(repoPath: string, branch: string): string
  {
    Name(repoPath) + "." + Sanitize(branch)
  }

  /** `repo_path.parent / f"{repo_path.name}.{sanitized}"`. */
  function WorktreeDir(repoPath: string, branch: string): string
  {
    Normalize(Render(Parent(Parse(repoPath))) + "/" + DirName(repoPath, branch))
  }

  /** The worktree directory is a sibling of the repository: same parent, and
      its one new part is the repository's name, a dot and the branch. */
  lemma WorktreeDirIsSibling(repoPath: string, branch: string)
    requires Parse(repoPath).parts != []
    ensures var p := Parse(repoPath);
      Parse(WorktreeDir(repoPath, branch)) == PurePath(p.absolute, Parent(p).parts + [DirName(repoPath, branch)])
  {
    var p := Parse(repoPath);
    var parent := Parent(p);
    var part := DirName(repoPath, branch);
    DirNameIsPart(repoPath, branch);
    ParseRender(parent);
    RenderAnchor(parent);
    ParseConcat(Render(parent), part);
    OnePart(part);
    ParseRender(PurePath(p.absolute, parent.parts + [part]));
  }

  /** The new directory's name is one significant part. */
  lemma DirNameIsPart(repoPath: string, branch: string)
    requires Parse(repoPath).parts != []
    ensures var part := DirName(repoPath, branch); '/' !in part && Significant(part)
  {
    NameIsLastPart(repoPath);
    var part := DirName(repoPath, branch);
    assert part[|Name(repoPath)|] == '.' && part != ".";
  }

  /** The directory name does not tell `/` from `-` in the branch name:
      `feature/x` and `feature-x` get the same directory, which is why the
      source refuses a directory that already exists. */
  lemma DirNameCollides(repoPath: string, x: string, y: string)
    ensures DirName(repoPath, x + "/" + y) == DirName(repoPath, x + "-" + y)
  {
    ReplaceAppend(x + "/", y, '/', "-");
    ReplaceAppend(x, "/", '/', "-");
    ReplaceAppend(x + "-", y, '/', "-");
    ReplaceAppend(x, "-", '/', "-");
  }

  /** A text without separators that is not `.` parses as one relative part. */
  lemma OnePart(part: string)
    requires '/' !in part && Significant(part)
    ensures Parse(part) == PurePath(false, [part])
  {
    SplitAllNone(part, '/');
    assert part[0] in part;
  }

  lemma RenderAnchor(p: PurePath)
    requires CleanParts(p.parts)
    ensures Render(p) != [] && (Render(p)[0] == '/' <==> p.absolute)
  {
    if !p.absolute && p.parts != [] {
      JoinStartsWithFirst(p.parts);
      assert p.parts[0][0] in p.parts[0];
    }
  }
}
