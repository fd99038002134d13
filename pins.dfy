/** `pins.py`: a pin is the text `repo:branch`; the set of pins lives in one
    file as a JSON list written in sorted order. The file is modelled as a
    store that is either absent or holds a list of strings. */
module Pins {
  import opened Seqs
  import opened Text

  /** `pin_key(repo, branch)`. */
  function PinKey(repo: string, branch: string): (k: string)
    ensures |k| == |repo| + 1 + |branch|
    ensures StartsWith(k, repo + ":")
    ensures k[|repo| + 1..] == branch
  {
    repo + ":" + branch
  }

  /** Reading a pin back: the repository is the text before the first `:`. */
  function SplitPinKey(k: string): (rb: (string, string))
    ensures ':' in k ==> k == PinKey(rb.0, rb.1) && ':' !in rb.0
  {
    if ':' in k then
      var i := FirstIndex(k, ':');
      assert k == k[..i] + ":" + k[i + 1..];
      (k[..i], k[i + 1..])
    else (k, "")
  }

  /** Repository names are directory names and never contain `:`, so a pin
      names exactly one repository and branch. */
  lemma PinKeyRoundTrip(repo: string, branch: string)
    requires ':' !in repo
    ensures SplitPinKey(PinKey(repo, branch)) == (repo, branch)
  {
    var k := PinKey(repo, branch);
    assert k[|repo|] == ':';
    assert FirstIndex(k, ':') == |repo|;
    assert k[..|repo|] == repo;
  }

  lemma PinKeyInjective(r1: string, b1: string, r2: string, b2: string)
    requires ':' !in r1 && ':' !in r2
    requires PinKey(r1, b1) == PinKey(r2, b2)
    ensures r1 == r2 && b1 == b2
  {
    PinKeyRoundTrip(r1, b1);
    PinKeyRoundTrip(r2, b2);
  }

  // ---------------------------------------------------------------------------
  // Python's string order: code point by code point, a proper prefix first.

  predicate StrLt(a: string, b: string)
    decreases |a|
  {
    if a == [] then b != []
    else b != [] && (a[0] < b[0] || (a[0] == b[0] && StrLt(a[1..], b[1..])))
  }

  lemma {:induction false} StrLtIrreflexive(a: string)
    ensures !StrLt(a, a)
    decreases |a|
  {
    if a != [] {
      StrLtIrreflexive(a[1..]);
    }
  }

  lemma {:induction false} StrLtTransitive(a: string, b: string, c: string)
    requires StrLt(a, b) && StrLt(b, c)
    ensures StrLt(a, c)
    decreases |a|
  {
    if a != [] && a[0] == b[0] && b[0] == c[0] {
      StrLtTransitive(a[1..], b[1..], c[1..]);
    }
  }

  lemma {:induction false} StrLtTotal(a: string, b: string)
    ensures a == b || StrLt(a, b) || StrLt(b, a)
    decreases |a|
  {
    if a != [] && b != [] && a[0] == b[0] {
      StrLtTotal(a[1..], b[1..]);
      if a[1..] == b[1..] {
        assert a == [a[0]] + a[1..] && b == [b[0]] + b[1..];
      }
    }
  }

  lemma StrLtAsymmetric(a: string, b: string)
    requires StrLt(a, b)
    ensures !StrLt(b, a)
  {
    if StrLt(b, a) {
      StrLtTransitive(a, b, a);
      StrLtIrreflexive(a);
    }
  }

  /** Strictly increasing: `sorted` of a set, which has no repeats. */
  predicate StrictlySorted(s: seq<string>)
  {
    forall i, j :: 0 <= i < j < |s| ==> StrLt(s[i], s[j])
  }

  predicate IsLeast(m: string, s: set<string>)
  {
    m in s && forall y :: y in s && y != m ==> StrLt(m, y)
  }

  /** Every non-empty set of strings has a least element. */
  lemma {:induction false} LeastExists(s: set<string>)
    requires s != {}
    ensures exists m :: IsLeast(m, s)
    decreases |s|
  {
    var x :| x in s;
    if s - {x} == {} {
      assert s == {x};
      assert IsLeast(x, s);
    } else {
      LeastExists(s - {x});
      var m :| IsLeast(m, s - {x});
      StrLtTotal(x, m);
      if StrLt(x, m) {
        forall y | y in s && y != x
          ensures StrLt(x, y)
        {
          if y != m {
            StrLtTransitive(x, m, y);
          }
        }
        assert IsLeast(x, s);
      } else {
        assert IsLeast(m, s);
      }
    }
  }

  /** A set has exactly one sorted list of its elements: what `sorted`
      returns does not depend on the set's iteration order. */
  lemma {:induction false} SortedListUnique(a: seq<string>, b: seq<string>)
    requires StrictlySorted(a) && StrictlySorted(b)
    requires Elems(a) == Elems(b)
    ensures a == b
    decreases |a|
  {
    if a != [] {
      assert a[0] in Elems(b);
      assert b != [];
      assert a[0] == b[0] by {
        if a[0] != b[0] {
          assert b[0] in Elems(a);
          var i :| 0 <= i < |b| && b[i] == a[0];
          var j :| 0 <= j < |a| && a[j] == b[0];
          assert StrLt(b[0], a[0]);
          assert StrLt(a[0], b[0]);
          StrLtAsymmetric(a[0], b[0]);
        }
      }
      assert Elems(a[1..]) == Elems(b[1..]) by {
        forall x | x in Elems(a[1..])
          ensures x in Elems(b[1..])
        {
          var i :| 1 <= i < |a| && a[i] == x;
          assert StrLt(a[0], x);
          StrLtIrreflexive(x);
          assert x in Elems(b) && x in b;
          var j :| 0 <= j < |b| && b[j] == x;
          assert j != 0;
          assert b[1..][j - 1] == x;
        }
        forall x | x in Elems(b[1..])
          ensures x in Elems(a[1..])
        {
          var j :| 1 <= j < |b| && b[j] == x;
          assert StrLt(b[0], x);
          StrLtIrreflexive(x);
          assert x in Elems(a) && x in a;
          var i :| 0 <= i < |a| && a[i] == x;
          assert i != 0;
          assert a[1..][i - 1] == x;
        }
      }
      SortedListUnique(a[1..], b[1..]);
      assert a == [a[0]] + a[1..] && b == [b[0]] + b[1..];
    } else {
      ElemsEmpty(b);
    }
  }

  /** The pins file: absent, or holding the JSON list of pins. Malformed
      JSON is not part of this model. */
  class PinStore {
    var file: Option<seq<string>>

    constructor(file: Option<seq<string>>)
      ensures this.file == file
    {
      this.file := file;
    }

    /** `load_pins()`: no file means no pins. */
    method Load() returns (pins: set<string>)
      ensures file.None? ==> pins == {}
      ensures file.Some? ==> forall x :: x in pins <==> x in file.value
    {
      if file.None? {
        return {};
      }
      pins := Elems(file.value);
    }

    /** `save_pins(pins)`: the file holds the pins in sorted order, each once. */
    method Save(pins: set<string>)
      modifies this
      ensures file.Some? && StrictlySorted(file.value)
      ensures Elems(file.value) == pins && |file.value| == |pins|
    {
      var rest := pins;
      var sorted: seq<string> := [];
      while rest != {}
        invariant StrictlySorted(sorted)
        invariant Elems(sorted) + rest == pins && Elems(sorted) !! rest
        invariant |sorted| + |rest| == |pins|
        invariant forall x, y :: x in sorted && y in rest ==> StrLt(x, y)
        decreases |rest|
      {
        LeastExists(rest);
        var m :| IsLeast(m, rest);
        sorted := sorted + [m];
        rest := rest - {m};
      }
      file := Some(sorted);
    }

    /** Saving and loading again gives back the same pins. */
    method SaveThenLoad(pins: set<string>) returns (loaded: set<string>)
      modifies this
      ensures loaded == pins
    {
      Save(pins);
      loaded := Load();
    }
  }
}
