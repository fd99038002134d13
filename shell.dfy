/** How a POSIX shell reads one word of a command line: the reference against
    which the quoting of paths in typed commands is judged. A word reads to
    the text it stands for, or to nothing when it would not stay one literal
    word (an operator, a space, an expansion or an unterminated quote). */
module Shell {
  import opened Seqs
  import opened Text

  /** Characters that stand for themselves outside quotes, anywhere in a word:
      ASCII letters and digits, `/._-+,:@%=` and every non-ASCII character. */
  predicate SafeChar(c: char)
  {
    ('a' <= c <= 'z') || ('A' <= c <= 'Z') || ('0' <= c <= '9')
    || c == '/' || c == '.' || c == '_' || c == '-' || c == '+' || c == ','
    || c == ':' || c == '@' || c == '%' || c == '=' || c as int >= 128
  }

  function Prepend(x: string, o: Option<string>): Option<string>
  {
    if o.Some? then Some(x + o.value) else None
  }

  /** The text a run of word characters stands for: single quotes take
      everything up to the next single quote literally, a backslash takes
      the next character literally, safe characters stand for themselves. */
  function Read(s: string): Option<string>
    decreases |s|
  {
    if s == [] then Some([])
    else if s[0] == '\'' then
      if '\'' in s[1..] then
        var k := FirstIndex(s[1..], '\'');
        Prepend(s[1..][..k], Read(s[1..][k + 1..]))
      else None
    else if s[0] == '\\' then
      if |s| >= 2 && s[1] != '\n' then Prepend([s[1]], Read(s[2..])) else None
    else if SafeChar(s[0]) then Prepend([s[0]], Read(s[1..]))
    else None
  }

  /** The argument a shell passes for `s`, when `s` is one literal word. */
  function ShellWord(s: string): Option<string>
  {
    if s == [] then None else Read(s)
  }

  /** Unquoted safe text reads as itself. */
  lemma {:induction false} ReadSafe(p: string, t: string)
    requires forall i :: 0 <= i < |p| ==> SafeChar(p[i])
    ensures Read(p + t) == Prepend(p, Read(t))
    decreases |p|
  {
    if p != [] {
      assert (p + t)[1..] == p[1..] + t;
      ReadSafe(p[1..], t);
      var o := Read(t);
      if o.Some? {
        assert [p[0]] + (p[1..] + o.value) == p + o.value;
      }
    } else {
      assert p + t == t;
      if Read(t).Some? {
        assert p + Read(t).value == Read(t).value;
      }
    }
  }

  /** The single-quoted form: a quote inside is written `'\''`. */
  function SingleQuoted(p: string): string
  {
    "'" + Replace(p, '\'', "'\\''") + "'"
  }

  /** A quoted run without a quote inside reads as its inside. */
  lemma ReadQuotedRun(a: string, u: string)
    requires '\'' !in a
    ensures Read("'" + a + "'" + u) == Prepend(a, Read(u))
  {
    var s := "'" + a + "'" + u;
    assert s[1..] == a + "'" + u;
    assert s[1..][|a|] == '\'';
    assert FirstIndex(s[1..], '\'') == |a|;
    assert s[1..][..|a|] == a && s[1..][|a| + 1..] == u;
  }

  /** A backslash takes the next character literally. */
  lemma ReadEscaped(c: char, u: string)
    requires c != '\n'
    ensures Read("\\" + [c] + u) == Prepend([c], Read(u))
  {
    var s := "\\" + [c] + u;
    assert s[1] == c && s[2..] == u;
  }

  lemma PrependAssoc(x: string, y: string, o: Option<string>)
    ensures Prepend(x, Prepend(y, o)) == Prepend(x + y, o)
  {
    if o.Some? {
      assert x + (y + o.value) == (x + y) + o.value;
    }
  }

  /** Quoting text with a quote at `|a|`: the run before it, the escaped
      quote, and the quoted rest. */
  lemma QuotedShape(a: string, rest: string, t: string)
    requires '\'' !in a
    ensures SingleQuoted(a + "'" + rest) + t == "'" + a + "'" + ("\\'" + (SingleQuoted(rest) + t))
  {
    ReplaceAtQuote(a, rest);
    var r := Replace(rest, '\'', "'\\''");
    assert SingleQuoted(a + "'" + rest) + t == "'" + (a + "'\\''" + r) + "'" + t;
    assert SingleQuoted(rest) + t == "'" + r + "'" + t;
    RegroupQuoted(a, r, t);
  }

  lemma ReplaceAtQuote(a: string, rest: string)
    requires '\'' !in a
    ensures Replace(a + "'" + rest, '\'', "'\\''") == a + "'\\''" + Replace(rest, '\'', "'\\''")
  {
    var rep := "'\\''";
    ReplaceAppend(a + "'", rest, '\'', rep);
    ReplaceAppend(a, "'", '\'', rep);
    assert Replace("'", '\'', rep) == rep;
  }

  lemma RegroupQuoted(a: string, r: string, t: string)
    ensures "'" + (a + "'\\''" + r) + "'" + t == "'" + a + "'" + ("\\'" + ("'" + r + "'" + t))
  {
  }

  /** A single-quoted word reads back as exactly the text inside. */
  lemma {:induction false} ReadSingleQuoted(p: string, t: string)
    ensures Read(SingleQuoted(p) + t) == Prepend(p, Read(t))
    decreases |p|
  {
    if '\'' !in p {
      assert SingleQuoted(p) + t == "'" + p + "'" + t;
      ReadQuotedRun(p, t);
    } else {
      var i := FirstIndex(p, '\'');
      var a, rest := p[..i], p[i + 1..];
      assert p == a + "'" + rest;
      ReadSingleQuoted(rest, t);
      ReadQuoteStep(a, rest, t);
    }
  }

  /** One step of the above: the text up to the first quote inside. */
  lemma ReadQuoteStep(a: string, rest: string, t: string)
    requires '\'' !in a
    requires Read(SingleQuoted(rest) + t) == Prepend(rest, Read(t))
    ensures Read(SingleQuoted(a + "'" + rest) + t) == Prepend(a + "'" + rest, Read(t))
  {
    var e := "\\'" + (SingleQuoted(rest) + t);
    QuotedShape(a, rest, t);
    ReadQuotedRun(a, e);
    ReadEscapedQuote(SingleQuoted(rest) + t, rest, Read(t));
    PrependQuoted(a, rest, Read(t));
  }

  lemma PrependQuoted(a: string, rest: string, o: Option<string>)
    ensures Prepend(a, Prepend("'" + rest, o)) == Prepend(a + "'" + rest, o)
  {
    PrependAssoc(a, "'" + rest, o);
    assert a + ("'" + rest) == a + "'" + rest;
  }

  lemma ReadEscapedQuote(inner: string, rest: string, o: Option<string>)
    requires Read(inner) == Prepend(rest, o)
    ensures Read("\\'" + inner) == Prepend("'" + rest, o)
  {
    assert "\\'" + inner == "\\" + ['\''] + inner;
    ReadEscaped('\'', inner);
    PrependAssoc(['\''], rest, o);
  }

  /** The quoted form of any text is one word that reads back as the text. */
  lemma SingleQuotedRoundTrip(p: string)
    ensures ShellWord(SingleQuoted(p)) == Some(p)
  {
    ReadSingleQuoted(p, "");
    assert SingleQuoted(p) + "" == SingleQuoted(p);
    assert Read("") == Some([]);
    assert p + [] == p;
  }

  /** Text of safe characters alone is one word that reads back as itself. */
  lemma SafeRoundTrip(p: string)
    requires p != []
    requires forall i :: 0 <= i < |p| ==> SafeChar(p[i])
    ensures ShellWord(p) == Some(p)
  {
    ReadSafe(p, "");
    assert p + "" == p;
    assert p + [] == p;
  }
}
