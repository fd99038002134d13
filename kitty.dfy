/** `kitty.py`: reading the terminal's window layout, classifying the panes
    next to the dashboard, and typing `cd` commands into them.

    The layout that `kitten @ ls` prints is a parameter: a list of OS windows,
    each a list of tabs, each tab a list of windows with their foreground
    processes. A missing JSON field is modelled by the default the code reads
    it with (`[]` for a command line, `""` for a title or a directory). What
    the terminal does with a command is an oracle: the set of window ids whose
    call fails. */
module Kitty {
  import opened Seqs
  import opened Text
  import opened Paths
  import Shell

  datatype Process = Process(cmdline: seq<string>, pid: Option<int>)
  datatype Window = Window(id: int, foreground: seq<Process>, cwd: string)
  datatype Tab = Tab(title: string, windows: seq<Window>)

  datatype WindowType = ShellWindow | ClaudeWindow | BusyWindow

  datatype KittyWindow = KittyWindow(id: int, foregroundCommand: string, windowType: WindowType, pids: seq<int>)

  datatype SwitchResult = SwitchResult(switched: nat, skipped: seq<string>, claudeWindows: seq<KittyWindow>)

  const KnownShells: set<string> := {"zsh", "bash", "fish", "nu", "sh", "dash", "ksh", "tcsh", "csh"}

  // ---------------------------------------------------------------------------
  // Classifying a pane by its foreground processes.

  /** Some argument of the command line is a program named `claude`. */
  predicate ClaudeArg(cmdline: seq<string>)
  {
    exists j :: 0 <= j < |cmdline| && Name(cmdline[j]) == "claude"
  }

  /** Some argument of some foreground process is a program named `claude`. */
  predicate ClaudeIn(procs: seq<Process>)
  {
    exists i :: 0 <= i < |procs| && ClaudeArg(procs[i].cmdline)
  }

  /** `_is_claude_process(procs)`. */
  method IsClaudeProcess(procs: seq<Process>) returns (r: bool)
    ensures r <==> ClaudeIn(procs)
  {
    for i := 0 to |procs|
      invariant !ClaudeIn(procs[..i])
    {
      var cmdline := procs[i].cmdline;
      for j := 0 to |cmdline|
        invariant !ClaudeArg(cmdline[..j])
      {
        ClaudeArgSnoc(cmdline, j);
        if Name(cmdline[j]) == "claude" {
          ClaudeInSnoc(procs, i);
          return true;
        }
      }
      assert cmdline[..|cmdline|] == cmdline;
      ClaudeInSnoc(procs, i);
    }
    assert procs[..|procs|] == procs;
    return false;
  }

  lemma ClaudeArgSnoc(cmdline: seq<string>, j: nat)
    requires j < |cmdline|
    ensures ClaudeArg(cmdline[..j + 1]) <==> ClaudeArg(cmdline[..j]) || Name(cmdline[j]) == "claude"
  {
    var a, b := cmdline[..j], cmdline[..j + 1];
    if ClaudeArg(b) {
      var k :| 0 <= k < |b| && Name(b[k]) == "claude";
      if k < j {
        assert a[k] == b[k];
      }
    }
    if ClaudeArg(a) {
      var k :| 0 <= k < |a| && Name(a[k]) == "claude";
      assert b[k] == a[k];
    }
    if Name(cmdline[j]) == "claude" {
      assert b[j] == cmdline[j];
    }
  }

  lemma ClaudeInSnoc(procs: seq<Process>, i: nat)
    requires i < |procs|
    ensures ClaudeIn(procs[..i + 1]) <==> ClaudeIn(procs[..i]) || ClaudeArg(procs[i].cmdline)
  {
    var a, b := procs[..i], procs[..i + 1];
    if ClaudeIn(b) {
      var k :| 0 <= k < |b| && ClaudeArg(b[k].cmdline);
      if k < i {
        assert a[k] == b[k];
      }
    }
    if ClaudeIn(a) {
      var k :| 0 <= k < |a| && ClaudeArg(a[k].cmdline);
      assert b[k] == a[k];
    }
    if ClaudeArg(procs[i].cmdline) {
      assert b[i] == procs[i];
    }
  }

  /** Whether the pane is at a prompt: no foreground process, an empty
      command line, or a known shell as the last foreground program. */
  predicate AtPrompt(procs: seq<Process>)
  {
    procs == [] || procs[|procs| - 1].cmdline == [] || Name(procs[|procs| - 1].cmdline[0]) in KnownShells
  }

  /** What `classify_window(procs)` returns: the pane's type and command. */
  function Classify(procs: seq<Process>): (r: (WindowType, string))
    ensures r.0 == ShellWindow <==> AtPrompt(procs)
    ensures r.0 == ShellWindow ==> r.1 == "unknown" || r.1 in KnownShells
    ensures r.0 == ClaudeWindow <==> !AtPrompt(procs) && ClaudeIn(procs)
    ensures r.0 == ClaudeWindow ==> r.1 == "claude"
    ensures r.0 == BusyWindow ==>
      r.1 == Name(procs[|procs| - 1].cmdline[0]) && r.1 !in KnownShells && r.1 != "claude"
  {
    if procs == [] then (ShellWindow, "unknown")
    else
      var cmdline := procs[|procs| - 1].cmdline;
      if cmdline == [] then (ShellWindow, "unknown")
      else
        var binary := Name(cmdline[0]);
        if binary in KnownShells then (ShellWindow, binary)
        else if ClaudeIn(procs) then (ClaudeWindow, "claude")
        else (BusyWindow, binary)
  }

  /** `classify_window(procs)`. */
  method ClassifyWindow(procs: seq<Process>) returns (r: (WindowType, string))
    ensures r == Classify(procs)
  {
    if procs == [] {
      return (ShellWindow, "unknown");
    }
    var cmdline := procs[|procs| - 1].cmdline;
    if cmdline == [] {
      return (ShellWindow, "unknown");
    }
    var binary := Name(cmdline[0]);
    if binary in KnownShells {
      return (ShellWindow, binary);
    }
    var claude := IsClaudeProcess(procs);
    if claude {
      return (ClaudeWindow, "claude");
    }
    return (BusyWindow, binary);
  }

  /** `[p["pid"] for p in procs if "pid" in p]`. */
  function Pids(procs: seq<Process>): (r: seq<int>)
    ensures |r| <= |procs|
    ensures forall x :: x in r <==> exists i :: 0 <= i < |procs| && procs[i].pid == Some(x)
    decreases |procs|
  {
    if procs == [] then []
    else
      var rest := Pids(procs[1..]);
      assert forall i :: 1 <= i < |procs| ==> procs[1..][i - 1] == procs[i];
      (if procs[0].pid.Some? then [procs[0].pid.value] else []) + rest
  }

  // ---------------------------------------------------------------------------
  // Finding the dashboard's own tab and its sibling panes.

  predicate HasWindow(tab: Tab, id: int)
  {
    exists k :: 0 <= k < |tab.windows| && tab.windows[k].id == id
  }

  /** No tab of any OS window holds window `id`. */
  predicate NoTabWith(data: seq<seq<Tab>>, id: int)
  {
    forall i, j :: 0 <= i < |data| && 0 <= j < |data[i]| ==> !HasWindow(data[i][j], id)
  }

  /** Tab `j` of OS window `i` is the first tab, in listing order, that holds
      window `id`. */
  predicate FirstTabAt(data: seq<seq<Tab>>, id: int, i: int, j: int)
  {
    && 0 <= i < |data| && 0 <= j < |data[i]| && HasWindow(data[i][j], id)
    && (forall i', j' :: 0 <= i' < i && 0 <= j' < |data[i']| ==> !HasWindow(data[i'][j'], id))
    && (forall j' :: 0 <= j' < j ==> !HasWindow(data[i][j'], id))
  }

  /** There is at most one first tab. */
  lemma FirstTabUnique(data: seq<seq<Tab>>, id: int, i: int, j: int, i2: int, j2: int)
    requires FirstTabAt(data, id, i, j) && FirstTabAt(data, id, i2, j2)
    ensures i == i2 && j == j2
  {
  }

  /** The search `get_sibling_windows` and `get_sibling_cwd` both start
      with: the first tab listing window `myId`. */
  method FindSelfTab(data: seq<seq<Tab>>, myId: int) returns (tab: Option<Tab>)
    ensures tab.None? <==> NoTabWith(data, myId)
    ensures tab.Some? ==> exists i, j :: FirstTabAt(data, myId, i, j) && tab.value == data[i][j]
  {
    for i := 0 to |data|
      invariant forall i', j' :: 0 <= i' < i && 0 <= j' < |data[i']| ==> !HasWindow(data[i'][j'], myId)
    {
      for j := 0 to |data[i]|
        invariant forall i', j' :: 0 <= i' < i && 0 <= j' < |data[i']| ==> !HasWindow(data[i'][j'], myId)
        invariant forall j' :: 0 <= j' < j ==> !HasWindow(data[i][j'], myId)
      {
        var t := data[i][j];
        var windowIds := Map(t.windows, (w: Window) => w.id);
        if myId in windowIds {
          MapIndex(t.windows, (w: Window) => w.id);
          var k :| 0 <= k < |windowIds| && windowIds[k] == myId;
          assert t.windows[k].id == myId;
          assert FirstTabAt(data, myId, i, j);
          return Some(t);
        }
        assert !HasWindow(t, myId) by {
          MapIndex(t.windows, (w: Window) => w.id);
        }
      }
    }
    return None;
  }

  /** The record of one sibling pane. */
  function SiblingOf(w: Window): (kw: KittyWindow)
    ensures kw.id == w.id && kw.pids == Pids(w.foreground)
    ensures (kw.windowType, kw.foregroundCommand) == Classify(w.foreground)
  {
    var c := Classify(w.foreground);
    KittyWindow(w.id, c.1, c.0, Pids(w.foreground))
  }

  /** The panes of a tab other than `myId`, in order. */
  function SiblingsOf(ws: seq<Window>, myId: int): seq<KittyWindow>
    decreases |ws|
  {
    if ws == [] then []
    else
      var last := ws[|ws| - 1];
      SiblingsOf(ws[..|ws| - 1], myId) + (if last.id == myId then [] else [SiblingOf(last)])
  }

  /** The siblings are exactly the other panes of the tab: the dashboard's
      own pane never appears, and every other pane does. */
  lemma {:induction false} SiblingsAreOthers(ws: seq<Window>, myId: int)
    ensures forall kw :: kw in SiblingsOf(ws, myId) ==> kw.id != myId
    ensures forall kw :: kw in SiblingsOf(ws, myId) ==> exists w :: w in ws && kw == SiblingOf(w)
    ensures forall w :: w in ws && w.id != myId ==> SiblingOf(w) in SiblingsOf(ws, myId)
    decreases |ws|
  {
    if ws != [] {
      var init := ws[..|ws| - 1];
      SiblingsAreOthers(init, myId);
      assert ws == init + [ws[|ws| - 1]];
      forall w | w in ws && w.id != myId
        ensures SiblingOf(w) in SiblingsOf(ws, myId)
      {
        if w != ws[|ws| - 1] {
          assert w in init;
        }
      }
    }
  }

  /** `get_sibling_windows()` for the layout `data` and the dashboard's own
      window `myId`. */
  method GetSiblingWindows(data: seq<seq<Tab>>, myId: int) returns (windows: seq<KittyWindow>)
    ensures NoTabWith(data, myId) ==> windows == []
    ensures forall i, j :: FirstTabAt(data, myId, i, j) ==> windows == SiblingsOf(data[i][j].windows, myId)
  {
    var tab := FindSelfTab(data, myId);
    if tab.None? {
      return [];
    }
    var ws := tab.value.windows;
    windows := [];
    for k := 0 to |ws|
      invariant windows == SiblingsOf(ws[..k], myId)
    {
      assert ws[..k + 1][..k] == ws[..k];
      var w := ws[k];
      if w.id == myId {
        continue;
      }
      var c := ClassifyWindow(w.foreground);
      var pids := Pids(w.foreground);
      windows := windows + [KittyWindow(w.id, c.1, c.0, pids)];
    }
    assert ws[..|ws|] == ws;
    forall i, j | FirstTabAt(data, myId, i, j)
      ensures windows == SiblingsOf(data[i][j].windows, myId)
    {
      var i2, j2 :| FirstTabAt(data, myId, i2, j2) && tab.value == data[i2][j2];
      FirstTabUnique(data, myId, i, j, i2, j2);
    }
  }

  // ---------------------------------------------------------------------------
  // The working directory of the idle shells next to the dashboard.

  /** The non-empty directories of the idle shell panes other than `myId`. */
  function ShellCwds(ws: seq<Window>, myId: int): (r: seq<string>)
    ensures forall c :: c in r ==>
      c != "" && exists w :: w in ws && w.id != myId && AtPrompt(w.foreground) && w.cwd == c
    decreases |ws|
  {
    if ws == [] then []
    else
      var last := ws[|ws| - 1];
      var init := ws[..|ws| - 1];
      var rest := ShellCwds(init, myId);
      assert forall w :: w in init ==> w in ws;
      rest + (if last.id != myId && Classify(last.foreground).0 == ShellWindow && last.cwd != "" then [last.cwd] else [])
  }

  /** `Counter(s).most_common(1)[0][0]`: a most frequent element, the one
      seen first among equally frequent ones. */
  function MostCommon(s: seq<string>): (r: string)
    requires s != []
    ensures r in s
    ensures forall x :: x in s ==> Count(s, x) <= Count(s, r)
    ensures forall x :: x in s && Count(s, x) == Count(s, r) ==> FirstIndex(s, r) <= FirstIndex(s, x)
  {
    var b := BestFrom(s, 1, 0);
    forall x | x in s
      ensures Count(s, x) <= Count(s, s[b])
      ensures Count(s, x) == Count(s, s[b]) ==> b <= FirstIndex(s, x)
    {
      var k := FirstIndex(s, x);
      assert s[k] == x;
    }
    s[b]
  }

  /** Scanning `s[i..]` with `b` the best index of `s[..i]`: an element
      replaces the best only when strictly more frequent. */
  function BestFrom(s: seq<string>, i: nat, b: nat): (r: nat)
    requires 0 <= b < i <= |s|
    requires FirstIndex(s, s[b]) == b
    requires forall k :: 0 <= k < i ==> Count(s, s[k]) <= Count(s, s[b])
    requires forall k :: 0 <= k < i && Count(s, s[k]) == Count(s, s[b]) ==> b <= k
    ensures r < |s| && FirstIndex(s, s[r]) == r
    ensures forall k :: 0 <= k < |s| ==> Count(s, s[k]) <= Count(s, s[r])
    ensures forall k :: 0 <= k < |s| && Count(s, s[k]) == Count(s, s[r]) ==> r <= k
    decreases |s| - i
  {
    if i == |s| then b
    else if Count(s, s[i]) > Count(s, s[b]) then
      NewBest(s, i, b);
      BestFrom(s, i + 1, i)
    else
      KeepBest(s, i, b);
      BestFrom(s, i + 1, b)
  }

  /** A strictly more frequent element is met for the first time, and
      becomes the best of the longer prefix. */
  lemma NewBest(s: seq<string>, i: nat, b: nat)
    requires 0 <= b < i < |s|
    requires forall k :: 0 <= k < i ==> Count(s, s[k]) <= Count(s, s[b])
    requires Count(s, s[i]) > Count(s, s[b])
    ensures FirstIndex(s, s[i]) == i
    ensures forall k :: 0 <= k < i + 1 ==> Count(s, s[k]) <= Count(s, s[i])
    ensures forall k :: 0 <= k < i + 1 && Count(s, s[k]) == Count(s, s[i]) ==> i <= k
  {
  }

  /** An element no more frequent than the best leaves it the best. */
  lemma KeepBest(s: seq<string>, i: nat, b: nat)
    requires 0 <= b < i < |s|
    requires forall k :: 0 <= k < i ==> Count(s, s[k]) <= Count(s, s[b])
    requires forall k :: 0 <= k < i && Count(s, s[k]) == Count(s, s[b]) ==> b <= k
    requires Count(s, s[i]) <= Count(s, s[b])
    ensures forall k :: 0 <= k < i + 1 ==> Count(s, s[k]) <= Count(s, s[b])
    ensures forall k :: 0 <= k < i + 1 && Count(s, s[k]) == Count(s, s[b]) ==> b <= k
  {
  }

  /** `get_sibling_cwd()`: the most common directory among the idle shell
      panes of the dashboard's tab, as a path. */
  method GetSiblingCwd(data: seq<seq<Tab>>, myId: int) returns (cwd: Option<string>)
    ensures NoTabWith(data, myId) ==> cwd == None
    ensures forall i, j :: FirstTabAt(data, myId, i, j) ==>
      var cwds := ShellCwds(data[i][j].windows, myId);
      cwd == if cwds == [] then None else Some(Normalize(MostCommon(cwds)))
  {
    var tab := FindSelfTab(data, myId);
    if tab.None? {
      return None;
    }
    var ws := tab.value.windows;
    var cwds: seq<string> := [];
    for k := 0 to |ws|
      invariant cwds == ShellCwds(ws[..k], myId)
    {
      assert ws[..k + 1][..k] == ws[..k];
      var w := ws[k];
      if w.id == myId {
        continue;
      }
      var c := ClassifyWindow(w.foreground);
      if c.0 == ShellWindow {
        if w.cwd != "" {
          cwds := cwds + [w.cwd];
        }
      }
    }
    assert ws[..|ws|] == ws;
    if cwds == [] {
      cwd := None;
    } else {
      cwd := Some(Normalize(MostCommon(cwds)));
    }
    forall i, j | FirstTabAt(data, myId, i, j)
      ensures data[i][j] == tab.value
    {
      var i2, j2 :| FirstTabAt(data, myId, i2, j2) && tab.value == data[i2][j2];
      FirstTabUnique(data, myId, i, j, i2, j2);
    }
  }

  // ---------------------------------------------------------------------------
  // Typing `cd` into panes.

  /** `_quote_path(path)` as written: quoted only when the text holds a space
      or a single quote. */
  function QuotePath(p: string): string
  {
    if ' ' in p || '\'' in p then Shell.SingleQuoted(p) else p
  }

  /** The quoting the typed command needs: text made only of characters that
      stand for themselves is left as it is, anything else is single-quoted. */
  function QuotePathSafe(p: string): (q: string)
    ensures Shell.ShellWord(q) == Some(p)
  {
    if p != [] && forall i :: 0 <= i < |p| ==> Shell.SafeChar(p[i]) then
      Shell.SafeRoundTrip(p);
      p
    else
      Shell.SingleQuotedRoundTrip(p);
      Shell.SingleQuoted(p)
  }

  /** The quoting as written is right for paths whose characters are safe,
      spaces or single quotes. */
  lemma QuotePathRightForSpacesAndQuotes(p: string)
    requires p != []
    requires forall i :: 0 <= i < |p| ==> Shell.SafeChar(p[i]) || p[i] == ' ' || p[i] == '\''
    ensures Shell.ShellWord(QuotePath(p)) == Some(p)
  {
    if ' ' in p || '\'' in p {
      Shell.SingleQuotedRoundTrip(p);
    } else {
      assert forall i :: 0 <= i < |p| ==> Shell.SafeChar(p[i]) by {
        forall i | 0 <= i < |p|
          ensures Shell.SafeChar(p[i])
        {
          assert p[i] in p;
        }
      }
      Shell.SafeRoundTrip(p);
    }
  }

  /** The quoting as written passes `&` through: the shell reads
      `cd /tmp/R&D` as `cd /tmp/R` in the background followed by a command
      `D`, not as one path. */
  lemma QuotePathSplitsAmpersand()
    ensures QuotePath("/tmp/R&D") == "/tmp/R&D"
    ensures Shell.ShellWord(QuotePath("/tmp/R&D")) == None
  {
    var p := "/tmp/R&D";
    assert ' ' !in p && '\'' !in p by {
      assert forall i :: 0 <= i < |p| ==> p[i] != ' ' && p[i] != '\'';
    }
    assert p == "/tmp/R" + "&D";
    Shell.ReadSafe("/tmp/R", "&D");
    assert Shell.Read("&D") == None;
  }

  /** A Python `str | None` used as a condition: present and non-empty. */
  predicate Truthy(b: Option<string>)
  {
    b.Some? && b.value != ""
  }

  /** The text `switch_pane` types: a `cd`, and a checkout when a branch is given. */
  function CdCommand(pathStr: string, branch: Option<string>): string
  {
    if Truthy(branch) then "cd " + pathStr + " && git checkout " + branch.value + "\n"
    else "cd " + pathStr + "\n"
  }

  /** The label of a pane left alone. */
  function SkipLabel(w: KittyWindow): string
  {
    w.foregroundCommand + " (pane " + IntStr(w.id) + ")"
  }

  predicate IsShell(w: KittyWindow) { w.windowType == ShellWindow }
  predicate IsClaude(w: KittyWindow) { w.windowType == ClaudeWindow }

  /** The panes `switch_all_panes` reports as skipped: busy panes, and idle
      shells whose `cd` could not be sent. */
  function SkippedBy(failing: set<int>): KittyWindow -> bool
  {
    (w: KittyWindow) => w.windowType == BusyWindow || (w.windowType == ShellWindow && w.id in failing)
  }

  /** Whether some idle shell of `shells` took its command. */
  predicate AnyDelivered(shells: seq<KittyWindow>, failing: set<int>)
    decreases |shells|
  {
    shells != [] && (AnyDelivered(shells[..|shells| - 1], failing) || shells[|shells| - 1].id !in failing)
  }

  lemma {:induction false} AnyDeliveredMeans(shells: seq<KittyWindow>, failing: set<int>)
    ensures AnyDelivered(shells, failing) <==> exists k :: 0 <= k < |shells| && shells[k].id !in failing
    decreases |shells|
  {
    if shells != [] {
      var init := shells[..|shells| - 1];
      AnyDeliveredMeans(init, failing);
      if exists k :: 0 <= k < |shells| && shells[k].id !in failing {
        var k :| 0 <= k < |shells| && shells[k].id !in failing;
        if k < |init| {
          assert init[k] == shells[k];
        }
      }
      if exists k :: 0 <= k < |init| && init[k].id !in failing {
        var k :| 0 <= k < |init| && init[k].id !in failing;
        assert init[k] == shells[k];
      }
    }
  }

  /** The branch each idle shell is given, in order: the checkout until a
      shell has taken a command that carried it, nothing after that. */
  function Calls(shells: seq<KittyWindow>, checkout: Option<string>, failing: set<int>): (r: seq<(int, Option<string>)>)
    ensures |r| == |shells|
    decreases |shells|
  {
    if shells == [] then []
    else
      var init := shells[..|shells| - 1];
      var w := shells[|shells| - 1];
      Calls(init, checkout, failing) + [(w.id, BranchFor(init, checkout, failing))]
  }

  function BranchFor(earlier: seq<KittyWindow>, checkout: Option<string>, failing: set<int>): Option<string>
  {
    if Truthy(checkout) && AnyDelivered(earlier, failing) then None else checkout
  }

  /** Call `k` goes to shell `k`; it carries the checkout exactly when no
      earlier shell took its command. */
  lemma {:induction false} CallsIndex(shells: seq<KittyWindow>, checkout: Option<string>, failing: set<int>, k: int)
    requires 0 <= k < |shells|
    ensures Calls(shells, checkout, failing)[k] == (shells[k].id, BranchFor(shells[..k], checkout, failing))
    decreases |shells|
  {
    var init := shells[..|shells| - 1];
    if k < |init| {
      CallsIndex(init, checkout, failing, k);
      assert init[..k] == shells[..k];
    }
  }

  /** At most one delivered command carries the checkout: once a shell has
      taken its command, every later shell is typed the plain `cd`. */
  lemma OneCheckout(shells: seq<KittyWindow>, target: string, checkout: Option<string>, failing: set<int>, k1: int, k2: int)
    requires 0 <= k1 < k2 < |shells| && shells[k1].id !in failing
    ensures SwitchPaneText(target, Calls(shells, checkout, failing)[k2].1) == SwitchPaneText(target, None)
  {
    CallsIndex(shells, checkout, failing, k2);
    AnyDeliveredMeans(shells[..k2], failing);
    assert shells[..k2][k1] == shells[k1];
  }

  /** The first idle shell is given the checkout, and so is every shell up
      to the first one that takes its command. */
  lemma CheckoutUntilDelivered(shells: seq<KittyWindow>, checkout: Option<string>, failing: set<int>, k: int)
    requires 0 <= k < |shells|
    requires forall k' :: 0 <= k' < k ==> shells[k'].id in failing
    ensures Calls(shells, checkout, failing)[k] == (shells[k].id, checkout)
  {
    CallsIndex(shells, checkout, failing, k);
    AnyDeliveredMeans(shells[..k], failing);
  }

  /** The text `switch_pane(id, target, branch)` types, quoted as written. */
  function SwitchPaneText(target: string, branch: Option<string>): string
  {
    CdCommand(QuotePath(target), branch)
  }

  /** The text `switch_pane` would type with the corrected quoting. */
  function SafeSwitchPaneText(target: string, branch: Option<string>): string
  {
    CdCommand(QuotePathSafe(target), branch)
  }

  function Delivered(failing: set<int>): KittyWindow -> bool
  {
    (w: KittyWindow) => w.id !in failing
  }

  /** What `switch_all_panes` has gathered after some of the panes. */
  datatype Progress = Progress(
    switched: nat, skipped: seq<string>, claudeWindows: seq<KittyWindow>,
    calls: seq<(int, Option<string>)>, checkedOut: bool)

  /** One pane of `switch_all_panes`: an idle shell is switched (with the
      checkout until one shell has taken it), a Claude pane is set aside,
      anything else is skipped. */
  function PaneOutcome(p: Progress, w: KittyWindow, checkout: Option<string>, failing: set<int>): Progress
  {
    match w.windowType
    case ShellWindow =>
      var branch := if !p.checkedOut then checkout else None;
      var calls := p.calls + [(w.id, branch)];
      if w.id !in failing then
        p.(switched := p.switched + 1, calls := calls, checkedOut := p.checkedOut || Truthy(branch))
      else
        p.(skipped := p.skipped + [SkipLabel(w)], calls := calls)
    case ClaudeWindow => p.(claudeWindows := p.claudeWindows + [w])
    case BusyWindow => p.(skipped := p.skipped + [SkipLabel(w)])
  }

  /** The panes taken one after the other, from nothing gathered. */
  function Panes(windows: seq<KittyWindow>, checkout: Option<string>, failing: set<int>): Progress
    decreases |windows|
  {
    if windows == [] then Progress(0, [], [], [], false)
    else PaneOutcome(Panes(windows[..|windows| - 1], checkout, failing), windows[|windows| - 1], checkout, failing)
  }

  /** The last pane of `windows` is taken after the others. */
  lemma PanesSnoc(windows: seq<KittyWindow>, checkout: Option<string>, failing: set<int>)
    requires windows != []
    ensures Panes(windows, checkout, failing) ==
      PaneOutcome(Panes(windows[..|windows| - 1], checkout, failing), windows[|windows| - 1], checkout, failing)
  {
  }

  lemma {:induction false} PanesClaude(windows: seq<KittyWindow>, checkout: Option<string>, failing: set<int>)
    ensures Panes(windows, checkout, failing).claudeWindows == Filter(windows, IsClaude)
    decreases |windows|
  {
    if windows != [] {
      var k := |windows| - 1;
      var init, w := windows[..k], windows[k];
      PanesClaude(init, checkout, failing);
      assert windows == init + [w];
      FilterSnoc(init, w, IsClaude);
      ClaudeStep(Panes(init, checkout, failing), w, checkout, failing);
    }
  }

  /** A pane joins the Claude panes exactly when it is one. */
  lemma ClaudeStep(p: Progress, w: KittyWindow, checkout: Option<string>, failing: set<int>)
    ensures PaneOutcome(p, w, checkout, failing).claudeWindows ==
      p.claudeWindows + (if IsClaude(w) then [w] else [])
  {
    if !IsClaude(w) {
      assert p.claudeWindows + [] == p.claudeWindows;
    }
  }

  lemma {:induction false} PanesSkipped(windows: seq<KittyWindow>, checkout: Option<string>, failing: set<int>)
    ensures Panes(windows, checkout, failing).skipped == Map(Filter(windows, SkippedBy(failing)), SkipLabel)
    decreases |windows|
  {
    if windows != [] {
      var k := |windows| - 1;
      var init, w := windows[..k], windows[k];
      PanesSkipped(init, checkout, failing);
      assert windows == init + [w];
      FilterSnoc(init, w, SkippedBy(failing));
      SkipStep(Panes(init, checkout, failing), w, checkout, failing);
      MapStep(Filter(init, SkippedBy(failing)), w, SkippedBy(failing)(w));
    }
  }

  /** The labels grow with the skipped panes. */
  lemma MapStep(before: seq<KittyWindow>, w: KittyWindow, skip: bool)
    ensures Map(before + (if skip then [w] else []), SkipLabel) ==
      Map(before, SkipLabel) + (if skip then [SkipLabel(w)] else [])
  {
    if skip {
      MapSnoc(before, w, SkipLabel);
    } else {
      assert before + [] == before;
    }
  }

  /** A pane adds its label to the skipped ones exactly when it is skipped. */
  lemma SkipStep(p: Progress, w: KittyWindow, checkout: Option<string>, failing: set<int>)
    ensures PaneOutcome(p, w, checkout, failing).skipped ==
      p.skipped + (if SkippedBy(failing)(w) then [SkipLabel(w)] else [])
  {
    if !SkippedBy(failing)(w) {
      assert p.skipped + [] == p.skipped;
    }
  }

  /** The checkout has been handed out exactly when some idle shell took a
      command and there was a checkout to hand. */
  lemma {:induction false} PanesCheckedOut(windows: seq<KittyWindow>, checkout: Option<string>, failing: set<int>)
    ensures Panes(windows, checkout, failing).checkedOut <==> Truthy(checkout) && AnyDelivered(Filter(windows, IsShell), failing)
    decreases |windows|
  {
    if windows != [] {
      var k := |windows| - 1;
      var w := windows[k];
      var init := windows[..k];
      PanesCheckedOut(init, checkout, failing);
      assert windows == init + [w];
      var shells := Filter(init, IsShell);
      FilterSnoc(init, w, IsShell);
      var p := Panes(init, checkout, failing);
      if IsShell(w) {
        AnyDeliveredSnoc(shells, w, failing);
        var branch := if !p.checkedOut then checkout else None;
        assert PaneOutcome(p, w, checkout, failing).checkedOut == (p.checkedOut || (w.id !in failing && Truthy(branch)));
      } else {
        assert shells + [] == shells;
        assert PaneOutcome(p, w, checkout, failing).checkedOut == p.checkedOut;
      }
    }
  }

  lemma {:induction false} PanesCalls(windows: seq<KittyWindow>, checkout: Option<string>, failing: set<int>)
    ensures Panes(windows, checkout, failing).calls == Calls(Filter(windows, IsShell), checkout, failing)
    decreases |windows|
  {
    if windows != [] {
      var k := |windows| - 1;
      var w := windows[k];
      var init := windows[..k];
      PanesCalls(init, checkout, failing);
      PanesCheckedOut(init, checkout, failing);
      assert windows == init + [w];
      var shells := Filter(init, IsShell);
      FilterSnoc(init, w, IsShell);
      var p := Panes(init, checkout, failing);
      if IsShell(w) {
        ShellCall(p, shells, w, checkout, failing);
      } else {
        assert shells + [] == shells;
        assert PaneOutcome(p, w, checkout, failing).calls == p.calls;
      }
    }
  }

  /** An idle shell adds the call `Calls` expects next. */
  lemma ShellCall(p: Progress, shells: seq<KittyWindow>, w: KittyWindow, checkout: Option<string>, failing: set<int>)
    requires IsShell(w) && p.calls == Calls(shells, checkout, failing)
    requires p.checkedOut <==> Truthy(checkout) && AnyDelivered(shells, failing)
    ensures PaneOutcome(p, w, checkout, failing).calls == Calls(shells + [w], checkout, failing)
  {
    CallsSnoc(shells, w, checkout, failing);
  }

  lemma {:induction false} PanesSwitched(windows: seq<KittyWindow>, checkout: Option<string>, failing: set<int>)
    ensures Panes(windows, checkout, failing).switched == |Filter(Filter(windows, IsShell), Delivered(failing))|
    decreases |windows|
  {
    if windows != [] {
      var k := |windows| - 1;
      var w := windows[k];
      var init := windows[..k];
      PanesSwitched(init, checkout, failing);
      assert windows == init + [w];
      var shells := Filter(init, IsShell);
      FilterSnoc(init, w, IsShell);
      if IsShell(w) {
        FilterSnoc(shells, w, Delivered(failing));
      } else {
        assert shells + [] == shells;
      }
    }
  }

  lemma {:induction false} PanesCount(windows: seq<KittyWindow>, checkout: Option<string>, failing: set<int>)
    ensures var p := Panes(windows, checkout, failing);
      p.switched + |p.skipped| + |p.claudeWindows| == |windows|
    decreases |windows|
  {
    if windows != [] {
      PanesCount(windows[..|windows| - 1], checkout, failing);
    }
  }

  /** `switch_all_panes(target, checkout)` over the sibling panes `windows`;
      `failing` holds the panes whose `send_text` fails. Besides the result,
      `calls` lists the `switch_pane` calls made, as the pane and the branch
      passed; `SwitchPaneText` is what each types. */
  method SwitchAllPanes(windows: seq<KittyWindow>, target: string, checkout: Option<string>, failing: set<int>)
    returns (result: SwitchResult, calls: seq<(int, Option<string>)>)
    ensures result.claudeWindows == Filter(windows, IsClaude)
    ensures result.skipped == Map(Filter(windows, SkippedBy(failing)), SkipLabel)
    ensures result.switched + |result.skipped| + |result.claudeWindows| == |windows|
    ensures calls == Calls(Filter(windows, IsShell), checkout, failing)
    ensures result.switched == |Filter(Filter(windows, IsShell), Delivered(failing))|
  {
    var switched: nat, skipped: seq<string>, claudeWindows: seq<KittyWindow> := 0, [], [];
    calls := [];
    var checkedOut := false;
    for k := 0 to |windows|
      invariant Panes(windows[..k], checkout, failing) == Progress(switched, skipped, claudeWindows, calls, checkedOut)
    {
      var w := windows[k];
      assert windows[..k + 1][..k] == windows[..k];
      if w.windowType == ShellWindow {
        var branch := if !checkedOut then checkout else None;
        calls := calls + [(w.id, branch)];
        if w.id !in failing {
          switched := switched + 1;
          if Truthy(branch) {
            checkedOut := true;
          }
        } else {
          skipped := skipped + [SkipLabel(w)];
        }
      } else if w.windowType == ClaudeWindow {
        claudeWindows := claudeWindows + [w];
      } else {
        skipped := skipped + [SkipLabel(w)];
      }
    }
    assert windows[..|windows|] == windows;
    PanesClaude(windows, checkout, failing);
    PanesSkipped(windows, checkout, failing);
    PanesCalls(windows, checkout, failing);
    PanesSwitched(windows, checkout, failing);
    PanesCount(windows, checkout, failing);
    result := SwitchResult(switched, skipped, claudeWindows);
  }

  lemma AnyDeliveredSnoc(shells: seq<KittyWindow>, w: KittyWindow, failing: set<int>)
    ensures AnyDelivered(shells + [w], failing) == (AnyDelivered(shells, failing) || w.id !in failing)
  {
    assert (shells + [w])[..|shells|] == shells;
  }

  lemma CallsSnoc(shells: seq<KittyWindow>, w: KittyWindow, checkout: Option<string>, failing: set<int>)
    ensures Calls(shells + [w], checkout, failing) ==
      Calls(shells, checkout, failing) + [(w.id, BranchFor(shells, checkout, failing))]
  {
    assert (shells + [w])[..|shells|] == shells;
  }

  // ---------------------------------------------------------------------------
  // Tabs named after a repository.

  /** The title test of `focus_repo_tab`: the repository's name, alone or
      followed by ` (`. */
  predicate TitleMatches(title: string, repo: string)
  {
    title == repo || StartsWith(title, repo + " (")
  }

  /** A tab the dashboard can focus for `repo`: its title matches, it has a
      window, and focusing that first window does not fail. */
  predicate Focusable(tab: Tab, repo: string, failing: set<int>)
  {
    TitleMatches(tab.title, repo) && tab.windows != [] && tab.windows[0].id !in failing
  }

  /** `focus_repo_tab(repo)`: a failing focus call (a timeout or a missing
      `kitten`) moves the search on to the next matching tab. */
  method FocusRepoTab(data: seq<seq<Tab>>, repo: string, failing: set<int>) returns (focused: bool)
    ensures focused <==> exists i, j :: 0 <= i < |data| && 0 <= j < |data[i]| && Focusable(data[i][j], repo, failing)
  {
    for i := 0 to |data|
      invariant forall i', j' :: 0 <= i' < i && 0 <= j' < |data[i']| ==> !Focusable(data[i'][j'], repo, failing)
    {
      for j := 0 to |data[i]|
        invariant forall i', j' :: 0 <= i' < i && 0 <= j' < |data[i']| ==> !Focusable(data[i'][j'], repo, failing)
        invariant forall j' :: 0 <= j' < j ==> !Focusable(data[i][j'], repo, failing)
      {
        var title := data[i][j].title;
        if title == repo || StartsWith(title, repo + " (") {
          var windows := data[i][j].windows;
          if windows != [] {
            var wid := windows[0].id;
            if wid !in failing {
              return true;
            }
          }
        }
      }
    }
    return false;
  }

  /** The numbered title `repo (n)`. */
  function NumberedTitle(repo: string, n: nat): (t: string)
    ensures TitleMatches(t, repo)
  {
    var t := repo + " (" + NatStr(n) + ")";
    assert t[..|repo + " ("|] == repo + " (";
    t
  }

  /** Different numbers give different titles. */
  lemma NumberedTitleInjective(repo: string, m: nat, n: nat)
    requires NumberedTitle(repo, m) == NumberedTitle(repo, n)
    ensures m == n
  {
    var a, b := NumberedTitle(repo, m), NumberedTitle(repo, n);
    assert |NatStr(m)| == |NatStr(n)|;
    assert NatStr(m) == a[|repo| + 2..|a| - 1];
    assert NatStr(n) == b[|repo| + 2..|b| - 1];
    NatStrInjective(m, n);
  }

  /** Every title of the layout, as `next_tab_title` collects them. */
  function Titles(data: seq<seq<Tab>>): (r: set<string>)
    ensures forall i, j :: 0 <= i < |data| && 0 <= j < |data[i]| ==> data[i][j].title in r
    ensures forall t :: t in r ==> exists i, j :: 0 <= i < |data| && 0 <= j < |data[i]| && data[i][j].title == t
  {
    set i, j | 0 <= i < |data| && 0 <= j < |data[i]| :: data[i][j].title
  }

  /** `next_tab_title(repo)`: the repository's name when no tab has it,
      otherwise `repo (n)` for the least `n >= 2` that no tab has. */
  method NextTabTitle(data: seq<seq<Tab>>, repo: string) returns (title: string)
    ensures title !in Titles(data)
    ensures TitleMatches(title, repo)
    ensures repo !in Titles(data) ==> title == repo
    ensures repo in Titles(data) ==>
      exists n :: n >= 2 && title == NumberedTitle(repo, n)
        && forall m :: 2 <= m < n ==> NumberedTitle(repo, m) in Titles(data)
  {
    var existing := CollectTitles(data);
    if repo !in existing {
      return repo;
    }
    var n := 2;
    while NumberedTitle(repo, n) in existing
      invariant n >= 2
      invariant forall m :: 2 <= m < n ==> NumberedTitle(repo, m) in existing
      decreases |existing| + 2 - n
    {
      n := n + 1;
      NumberedTitlesBound(repo, n, existing);
    }
    title := NumberedTitle(repo, n);
  }

  /** The loop of `next_tab_title` that gathers the titles. */
  method CollectTitles(data: seq<seq<Tab>>) returns (existing: set<string>)
    ensures existing == Titles(data)
  {
    existing := {};
    for i := 0 to |data|
      invariant forall t :: t in existing <==>
        exists i', j :: 0 <= i' < i && 0 <= j < |data[i']| && data[i'][j].title == t
    {
      for j := 0 to |data[i]|
        invariant forall t :: t in existing <==>
          (exists i', j' :: 0 <= i' < i && 0 <= j' < |data[i']| && data[i'][j'].title == t)
          || (exists j' :: 0 <= j' < j && data[i][j'].title == t)
      {
        existing := existing + {data[i][j].title};
      }
    }
  }

  /** The numbered titles `repo (2)` up to `repo (n - 1)` are distinct, so a
      set holding them all has at least `n - 2` elements. */
  lemma {:induction false} NumberedTitlesBound(repo: string, n: nat, existing: set<string>)
    requires n >= 2
    requires forall m :: 2 <= m < n ==> NumberedTitle(repo, m) in existing
    ensures n - 2 <= |existing|
    decreases n
  {
    if n > 2 {
      var t := NumberedTitle(repo, n - 1);
      var rest := existing - {t};
      forall m | 2 <= m < n - 1
        ensures NumberedTitle(repo, m) in rest
      {
        if NumberedTitle(repo, m) == t {
          NumberedTitleInjective(repo, m, n - 1);
        }
      }
      NumberedTitlesBound(repo, n - 1, rest);
    }
  }
}
