/** The pieces of Python's `str` that the modelled code relies on: whitespace
    and line boundaries, prefixes, substring search, `split`, `join`,
    `replace`, ASCII `lower`, `splitlines` and decimal formatting of integers. */
module Text {
  import opened Seqs

  /** `c.isspace()`: the characters Python treats as whitespace. */
  predicate IsSpace(c: char)
  {
    c == ' ' || c == '\t' || c == '\n' || c == '\r' || c == '\U{000B}' || c == '\U{000C}'
    || ('\U{001C}' <= c <= '\U{001F}') || c == '\U{0085}' || c == '\U{00A0}' || c == '\U{1680}'
    || ('\U{2000}' <= c <= '\U{200A}') || c == '\U{2028}' || c == '\U{2029}'
    || c == '\U{202F}' || c == '\U{205F}' || c == '\U{3000}'
  }

  /** `not s.strip()`: the string is empty or all whitespace. */
  predicate IsBlank(s: string)
  {
    forall i :: 0 <= i < |s| ==> IsSpace(s[i])
  }

  predicate StartsWith(s: string, prefix: string)
  {
    |prefix| <= |s| && s[..|prefix|] == prefix
  }

  /** `s.removeprefix(prefix)`. */
  function RemovePrefix(s: string, prefix: string): (r: string)
    ensures StartsWith(s, prefix) ==> prefix + r == s
    ensures !StartsWith(s, prefix) ==> r == s
  {
    if StartsWith(s, prefix) then
      assert s == s[..|prefix|] + s[|prefix|..];
      s[|prefix|..]
    else s
  }

  lemma RemovePrefixOfConcat(prefix: string, rest: string)
    ensures StartsWith(prefix + rest, prefix)
    ensures RemovePrefix(prefix + rest, prefix) == rest
  {
    assert (prefix + rest)[..|prefix|] == prefix;
  }

  /** `q in s` for strings: `q` occurs in `s` as a contiguous substring. */
  predicate IsSubstring(q: string, s: string)
    decreases |s|
  {
    StartsWith(s, q) || (s != [] && IsSubstring(q, s[1..]))
  }

  /** `s.lower()`, restricted to the ASCII letters. */
  function Lower(s: string): (r: string)
    ensures |r| == |s|
    ensures forall i :: 0 <= i < |s| ==> r[i] == LowerChar(s[i])
  {
    seq(|s|, i requires 0 <= i < |s| => LowerChar(s[i]))
  }

  function LowerChar(c: char): char
  {
    if 'A' <= c <= 'Z' then (c as int + 32) as char else c
  }

  /** `s.replace(c, rep)` for a one-character pattern. */
  function Replace(s: string, c: char, rep: string): (r: string)
    ensures c !in s ==> r == s
    decreases |s|
  {
    if s == [] then []
    else (if s[0] == c then rep else [s[0]]) + Replace(s[1..], c, rep)
  }

  lemma {:induction false} ReplaceAppend(a: string, b: string, c: char, rep: string)
    ensures Replace(a + b, c, rep) == Replace(a, c, rep) + Replace(b, c, rep)
    decreases |a|
  {
    if a == [] {
      assert a + b == b;
    } else {
      assert (a + b)[1..] == a[1..] + b;
      ReplaceAppend(a[1..], b, c, rep);
    }
  }

  /** `sep.join(parts)`. */
  function Join(parts: seq<string>, sep: string): string
    decreases |parts|
  {
    if parts == [] then []
    else if |parts| == 1 then parts[0]
    else parts[0] + sep + Join(parts[1..], sep)
  }

  /** `s.split(c, n)`: at most `n` splits, from the left. */
  function SplitN(s: string, c: char, n: nat): (parts: seq<string>)
    ensures 1 <= |parts| <= n + 1
    decreases |s|
  {
    if n == 0 || c !in s then [s]
    else
      var i := FirstIndex(s, c);
      [s[..i]] + SplitN(s[i + 1..], c, n - 1)
  }

  /** One split of `a + [c] + rest` yields `a` when `a` does not contain
      the separator. */
  lemma SplitNFirst(a: string, c: char, rest: string, n: nat)
    requires c !in a && n > 0
    ensures SplitN(a + [c] + rest, c, n) == [a] + SplitN(rest, c, n - 1)
  {
    var s := a + [c] + rest;
    assert s[|a|] == c;
    var i := FirstIndex(s, c);
    assert i == |a|;
    assert s[..i] == a && s[i + 1..] == rest;
  }

  /** Splitting at two separators that the first two fields do not contain
      gives back the three fields; the third field may contain the separator. */
  lemma SplitTwoOfJoined(a: string, b: string, d: string, c: char)
    requires c !in a && c !in b
    ensures SplitN(a + [c] + b + [c] + d, c, 2) == [a, b, d]
  {
    assert a + [c] + b + [c] + d == a + [c] + (b + [c] + d);
    SplitNFirst(a, c, b + [c] + d, 2);
    SplitNFirst(b, c, d, 1);
  }

  /** `s.split(c)`: every occurrence splits. Built from the right: the first
      character either is a separator, opening a new part, or joins the
      first part of the rest. */
  function SplitAll(s: string, c: char): (parts: seq<string>)
    ensures |parts| >= 1
    ensures forall k :: 0 <= k < |parts| ==> c !in parts[k]
    decreases |s|
  {
    if s == [] then [""]
    else
      var rest := SplitAll(s[1..], c);
      if s[0] == c then [""] + rest
      else [[s[0]] + rest[0]] + rest[1..]
  }

  /** The line boundaries `str.splitlines` recognises. */
  predicate IsLineBreak(c: char)
  {
    c == '\n' || c == '\r' || c == '\U{000B}' || c == '\U{000C}' || c == '\U{001C}'
    || c == '\U{001D}' || c == '\U{001E}' || c == '\U{0085}' || c == '\U{2028}' || c == '\U{2029}'
  }

  /** Index of the first line boundary at or after `i`, or `|s|`. */
  function NextBreak(s: string, i: nat): (j: nat)
    requires i <= |s|
    ensures i <= j <= |s|
    ensures j < |s| ==> IsLineBreak(s[j])
    ensures forall k :: i <= k < j ==> !IsLineBreak(s[k])
    decreases |s| - i
  {
    if i == |s| || IsLineBreak(s[i]) then i else NextBreak(s, i + 1)
  }

  /** `s.splitlines()`: `\r\n` is one boundary, and a final boundary does
      not open an empty last line. */
  function SplitLines(s: string): (lines: seq<string>)
    ensures forall i, k :: 0 <= i < |lines| && 0 <= k < |lines[i]| ==> !IsLineBreak(lines[i][k])
    decreases |s|
  {
    if s == [] then []
    else
      var j := NextBreak(s, 0);
      if j == |s| then [s]
      else
        var width := if s[j] == '\r' && j + 1 < |s| && s[j + 1] == '\n' then 2 else 1;
        [s[..j]] + SplitLines(s[j + width..])
  }

  // ---------------------------------------------------------------------------
  // Decimal formatting of integers (`f"{n}"`) and its inverse.

  predicate IsDigit(c: char)
  {
    '0' <= c <= '9'
  }

  function DigitChar(d: nat): (c: char)
    requires d < 10
    ensures IsDigit(c)
  {
    ('0' as int + d) as char
  }

  function DigitValue(c: char): nat
    requires IsDigit(c)
  {
    c as int - '0' as int
  }

  /** `str(n)` for a natural number. */
  function NatStr(n: nat): (r: string)
    ensures |r| >= 1
    ensures forall i :: 0 <= i < |r| ==> IsDigit(r[i])
    decreases n
  {
    if n < 10 then [DigitChar(n)] else NatStr(n / 10) + [DigitChar(n % 10)]
  }

  /** `str(i)` for an integer. */
  function IntStr(i: int): (r: string)
    ensures |r| >= 1
    ensures forall k :: 0 <= k < |r| ==> IsDigit(r[k]) || (k == 0 && r[k] == '-')
  {
    if i < 0 then "-" + NatStr(-i) else NatStr(i)
  }

  /** The value of a string of decimal digits. */
  function ParseNat(s: string): nat
    requires forall i :: 0 <= i < |s| ==> IsDigit(s[i])
    decreases |s|
  {
    if s == [] then 0 else 10 * ParseNat(s[..|s| - 1]) + DigitValue(s[|s| - 1])
  }

  /** Reading back the decimal text of a number gives the number. */
  lemma {:induction false} NatStrRoundTrip(n: nat)
    ensures ParseNat(NatStr(n)) == n
    decreases n
  {
    if n >= 10 {
      NatStrRoundTrip(n / 10);
      var s := NatStr(n);
      assert s[..|s| - 1] == NatStr(n / 10);
    }
  }

  /** Distinct numbers have distinct decimal texts. */
  lemma NatStrInjective(m: nat, n: nat)
    requires NatStr(m) == NatStr(n)
    ensures m == n
  {
    NatStrRoundTrip(m);
    NatStrRoundTrip(n);
  }

  /** Distinct integers have distinct decimal texts: the sign is not a digit. */
  lemma IntStrInjective(m: int, n: int)
    requires IntStr(m) == IntStr(n)
    ensures m == n
  {
    assert (m < 0) == (IntStr(m)[0] == '-');
    assert (n < 0) == (IntStr(n)[0] == '-');
    if m < 0 {
      assert NatStr(-m) == IntStr(m)[1..];
      NatStrInjective(-m, -n);
    } else {
      NatStrInjective(m, n);
    }
  }
}
