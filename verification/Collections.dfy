/** Sequences without repeats and the sets they list. */
module Collections {
  function Elems<T(!new)>(s: seq<T>): (r: set<T>)
    ensures forall x :: x in r <==> x in s
  {
    set x | x in s
  }

  ghost predicate NoRepeats<T>(s: seq<T>) {
    forall i, j :: 0 <= i < j < |s| ==> s[i] != s[j]
  }

  lemma {:induction false} CountElems<T(!new)>(s: seq<T>)
    ensures |Elems(s)| <= |s|
    ensures NoRepeats(s) <==> |Elems(s)| == |s|
  {
    if s != [] {
      var n := |s| - 1;
      CountElems(s[..n]);
      assert s == s[..n] + [s[n]];
      assert Elems(s) == Elems(s[..n]) + {s[n]};
    }
  }

  /** Lists a set in some order. */
  method Enumerate<T(!new)>(s: set<T>) returns (q: seq<T>)
    ensures NoRepeats(q) && Elems(q) == s
  {
    q := [];
    var rest := s;
    while rest != {}
      invariant NoRepeats(q) && rest <= s && Elems(q) == s - rest
      decreases rest
    {
      var x :| x in rest;
      q := q + [x];
      rest := rest - {x};
    }
  }

  lemma SubsetSameSize<T>(a: set<T>, b: set<T>)
    requires a <= b && |a| == |b|
    ensures a == b
  {
    assert b == a + (b - a);
    assert |b| == |a| + |b - a|;
  }

  lemma {:induction false} Listed<T(!new)>(s: set<T>) returns (q: seq<T>)
    ensures NoRepeats(q) && Elems(q) == s
    decreases s
  {
    if s == {} {
      q := [];
    } else {
      var x :| x in s;
      q := Listed(s - {x});
      q := q + [x];
      assert Elems(q) == (s - {x}) + {x};
    }
  }
}
