/** Sets, and the sequences that list their elements. */
module Collections {
  method AnyOf<T(==)>(elements: set<T>) returns (x: T)
    requires elements != {}
    ensures x in elements
  {
    x :| x in elements;
  }

  lemma SomeOf<T>(elements: set<T>) returns (x: T)
    requires elements != {}
    ensures x in elements
  {
    x :| x in elements;
  }

  ghost predicate Distinct<T>(s: seq<T>) {
    forall i, j :: 0 <= i < j < |s| ==> s[i] != s[j]
  }

  ghost function Elements<T>(s: seq<T>): set<T> {
    set x | x in s
  }

  lemma ElementsNext<T>(s: seq<T>)
    requires s != []
    ensures Elements(s) == Elements(s[..|s| - 1]) + {s[|s| - 1]}
  {
    assert s == s[..|s| - 1] + [s[|s| - 1]];
  }

  lemma {:induction false} ElementsAtMost<T>(s: seq<T>)
    ensures |Elements(s)| <= |s|
  {
    if s == [] {
      assert Elements(s) == {};
    } else {
      ElementsNext(s);
      ElementsAtMost(s[..|s| - 1]);
    }
  }

  /** A sequence has as many elements as it is long exactly if it repeats none. */
  lemma {:induction false} ElementsCount<T>(s: seq<T>)
    ensures |Elements(s)| == |s| <==> Distinct(s)
  {
    if s == [] {
      assert Elements(s) == {};
    } else {
      var n := |s| - 1;
      ElementsNext(s);
      ElementsCount(s[..n]);
      ElementsAtMost(s[..n]);
      if s[n] in s[..n] {
        assert s[n] in Elements(s[..n]);
      }
    }
  }
}
