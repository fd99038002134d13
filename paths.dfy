/** POSIX `pathlib` paths as the modelled code uses them: parsing a string into
    an anchor and its significant parts, rendering back with `str(path)`,
    `.name`, and home-directory expansion of a leading `~/`. */
module Paths {
  import opened Seqs
  import opened Text

  /** A parsed path: whether it is anchored at `/`, and its parts. */
  datatype PurePath = PurePath(absolute: bool, parts: seq<string>)

  /** `pathlib` drops empty parts (from repeated or trailing `/`) and `.` parts. */
  const Significant: string -> bool := (x: string) => x != "" && x != "."

  predicate CleanParts(parts: seq<string>)
  {
    forall i :: 0 <= i < |parts| ==> '/' !in parts[i] && Significant(parts[i])
  }

  /** `PurePosixPath(s)`. */
  function Parse(s: string): (p: PurePath)
    ensures CleanParts(p.parts)
  {
    var parts := Filter(SplitAll(s, '/'), Significant);
    SplitPartsClean(SplitAll(s, '/'));
    PurePath(|s| > 0 && s[0] == '/', parts)
  }

  lemma SplitPartsClean(split: seq<string>)
    requires forall k :: 0 <= k < |split| ==> '/' !in split[k]
    ensures CleanParts(Filter(split, Significant))
  {
    var parts := Filter(split, Significant);
    forall i | 0 <= i < |parts|
      ensures '/' !in parts[i] && Significant(parts[i])
    {
      FilterMembership(split, Significant, parts[i]);
    }
  }

  /** `str(path)`. */
  function Render(p: PurePath): string
  {
    if p.absolute then "/" + Join(p.parts, "/")
    else if p.parts == [] then "."
    else Join(p.parts, "/")
  }

  /** `str(Path(s))`. */
  function Normalize(s: string): string
  {
    Render(Parse(s))
  }

  /** `Path(s).name`: the last significant part, or the empty string for `/`
      and `.`. */
  function Name(s: string): (r: string)
    ensures '/' !in r
  {
    LastPart(SplitAll(s, '/'))
  }

  /** The last significant part of a split path, or the empty string. */
  function LastPart(split: seq<string>): (r: string)
    requires forall k :: 0 <= k < |split| ==> '/' !in split[k]
    ensures '/' !in r
    decreases |split|
  {
    if split == [] then ""
    else if Significant(split[|split| - 1]) then split[|split| - 1]
    else LastPart(split[..|split| - 1])
  }

  /** `os.path.expanduser` for a path starting with `~/`: the home directory,
      without trailing separators, replaces the `~`. */
  function ExpandUser(s: string, home: string): string
  {
    if StartsWith(s, "~/") then RStripSlash(home) + s[1..] else s
  }

  function RStripSlash(s: string): (r: string)
    ensures |r| <= |s| && r == s[..|r|]
    ensures forall i :: |r| <= i < |s| ==> s[i] == '/'
    decreases |s|
  {
    if s != [] && s[|s| - 1] == '/' then RStripSlash(s[..|s| - 1]) else s
  }

  // ---------------------------------------------------------------------------
  // Parsing and rendering are inverse on clean parts.

  /** A text without the separator is one part. */
  lemma {:induction false} SplitAllNone(s: string, c: char)
    requires c !in s
    ensures SplitAll(s, c) == [s]
    decreases |s|
  {
    if s != [] {
      assert c !in s[1..];
      SplitAllNone(s[1..], c);
      assert [s[0]] + s[1..] == s;
    }
  }

  /** Splitting two texts joined by the separator splits each of them. */
  lemma {:induction false} SplitAllConcat(x: string, y: string, c: char)
    ensures SplitAll(x + [c] + y, c) == SplitAll(x, c) + SplitAll(y, c)
    decreases |x|
  {
    if x == [] {
      SplitAllCons(c, y, c);
      assert x + [c] + y == [c] + y;
    } else {
      var t := x[1..] + [c] + y;
      assert x == [x[0]] + x[1..] && x + [c] + y == [x[0]] + t;
      SplitAllConcat(x[1..], y, c);
      SplitAllCons(x[0], t, c);
      SplitAllCons(x[0], x[1..], c);
      PushFirst(x[0], SplitAll(x[1..], c), SplitAll(y, c), c);
    }
  }

  /** What one leading character does to the parts of the rest. */
  function PushChar(h: char, parts: seq<string>, c: char): seq<string>
    requires parts != []
  {
    if h == c then [""] + parts else [[h] + parts[0]] + parts[1..]
  }

  lemma SplitAllCons(h: char, t: string, c: char)
    ensures SplitAll([h] + t, c) == PushChar(h, SplitAll(t, c), c)
  {
    assert ([h] + t)[1..] == t;
  }

  lemma PushFirst(h: char, a: seq<string>, b: seq<string>, c: char)
    requires a != []
    ensures PushChar(h, a + b, c) == PushChar(h, a, c) + b
  {
    assert (a + b)[1..] == a[1..] + b;
  }

  lemma {:induction false} SplitAllJoin(parts: seq<string>)
    requires parts != []
    requires forall i :: 0 <= i < |parts| ==> '/' !in parts[i]
    ensures SplitAll(Join(parts, "/"), '/') == parts
    decreases |parts|
  {
    if |parts| > 1 {
      SplitAllConcat(parts[0], Join(parts[1..], "/"), '/');
      assert Join(parts, "/") == parts[0] + ['/'] + Join(parts[1..], "/");
      SplitAllJoin(parts[1..]);
      SplitAllNone(parts[0], '/');
      assert parts == [parts[0]] + parts[1..];
    } else {
      SplitAllNone(parts[0], '/');
    }
  }

  lemma {:induction false} ParseOfJoin(parts: seq<string>)
    requires CleanParts(parts)
    ensures Filter(SplitAll(Join(parts, "/"), '/'), Significant) == parts
  {
    if parts == [] {
      assert SplitAll("", '/') == [""];
    } else {
      SplitAllJoin(parts);
      FilterAll(parts, Significant);
    }
  }

  /** Rendering a parsed path and parsing it again gives the same path. */
  lemma ParseRender(p: PurePath)
    requires CleanParts(p.parts)
    ensures Parse(Render(p)) == p
  {
    ParseOfJoin(p.parts);
    if p.absolute {
      ParseRenderAbsolute(p.parts);
    } else if p.parts == [] {
      SplitAllNone(".", '/');
    } else {
      ParseRenderRelative(p.parts);
    }
  }

  lemma ParseRenderAbsolute(parts: seq<string>)
    requires CleanParts(parts)
    requires Filter(SplitAll(Join(parts, "/"), '/'), Significant) == parts
    ensures Parse("/" + Join(parts, "/")) == PurePath(true, parts)
  {
    var j := Join(parts, "/");
    SplitAllConcat("", j, '/');
    assert "" + ['/'] + j == "/" + j;
    FilterAppend([""], SplitAll(j, '/'), Significant);
  }

  lemma ParseRenderRelative(parts: seq<string>)
    requires CleanParts(parts) && parts != []
    requires Filter(SplitAll(Join(parts, "/"), '/'), Significant) == parts
    ensures Parse(Join(parts, "/")) == PurePath(false, parts)
  {
    JoinStartsWithFirst(parts);
    assert parts[0][0] in parts[0];
  }

  lemma {:induction false} JoinStartsWithFirst(parts: seq<string>)
    requires parts != [] && parts[0] != ""
    ensures |Join(parts, "/")| > 0 && Join(parts, "/")[0] == parts[0][0]
  {
  }

  /** `.name` is the last of the parts `pathlib` keeps. */
  lemma NameIsLastPart(s: string)
    ensures var parts := Parse(s).parts;
      Name(s) == if parts == [] then "" else parts[|parts| - 1]
  {
    LastPartOfFilter(SplitAll(s, '/'));
  }

  lemma {:induction false} LastPartOfFilter(split: seq<string>)
    requires forall k :: 0 <= k < |split| ==> '/' !in split[k]
    ensures var parts := Filter(split, Significant);
      LastPart(split) == if parts == [] then "" else parts[|parts| - 1]
    decreases |split|
  {
    if split != [] {
      var init, last := split[..|split| - 1], split[|split| - 1];
      assert split == init + [last];
      FilterSnoc(init, last, Significant);
      LastPartOfFilter(init);
      if !Significant(last) {
        assert Filter(init, Significant) + [] == Filter(init, Significant);
      }
    }
  }

  /** `str(Path(str(Path(s))))` is `str(Path(s))`. */
  lemma NormalizeIdempotent(s: string)
    ensures Normalize(Normalize(s)) == Normalize(s)
  {
    ParseRender(Parse(s));
  }

  /** Joining two paths with `/` concatenates their parts; the anchor is the
      first path's. */
  lemma ParseConcat(x: string, y: string)
    ensures Parse(x + "/" + y).parts == Parse(x).parts + Parse(y).parts
    ensures Parse(x + "/" + y).absolute == (Parse(x).absolute || x == [])
  {
    SplitAllConcat(x, y, '/');
    FilterAppend(SplitAll(x, '/'), SplitAll(y, '/'), Significant);
    if x != [] {
      assert (x + "/" + y)[0] == x[0];
    }
  }

  /** Trailing separators do not change a path. */
  lemma {:induction false} ParseRStrip(s: string)
    ensures Parse(RStripSlash(s)).parts == Parse(s).parts
    decreases |s|
  {
    if s != [] && s[|s| - 1] == '/' {
      var t := s[..|s| - 1];
      assert RStripSlash(s) == RStripSlash(t);
      ParseRStrip(t);
      assert s == t + "/" + "";
      ParseConcat(t, "");
      assert SplitAll("", '/') == [""];
      assert Parse("").parts == [];
    }
  }
}
