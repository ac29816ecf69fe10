/** Sequence facts the search model relies on: distinctness and the size
    of the set of elements of a sequence. */
module Seqs {

  predicate Distinct<T(==)>(s: seq<T>) {
    forall i, j | 0 <= i < j < |s| :: s[i] != s[j]
  }

  function Elems<T(==)>(s: seq<T>): set<T> {
    set i | 0 <= i < |s| :: s[i]
  }

  function Last<T>(s: seq<T>): T
    requires |s| > 0
  {
    s[|s| - 1]
  }

  lemma ElemsSnoc<T>(s: seq<T>, x: T)
    ensures Elems(s + [x]) == Elems(s) + {x}
  {
    var t := s + [x];
    forall y | y in Elems(t) ensures y in Elems(s) + {x} {
      var i :| 0 <= i < |t| && t[i] == y;
      if i < |s| {
        assert s[i] == y;
      }
    }
    forall y | y in Elems(s) ensures y in Elems(t) {
      var i :| 0 <= i < |s| && s[i] == y;
      assert t[i] == y;
    }
    assert t[|s|] == x;
  }

  /** A sequence has at most as many distinct elements as it has positions,
      and exactly as many when it is distinct. */
  lemma {:induction false} ElemsSize<T>(s: seq<T>)
    ensures |Elems(s)| <= |s|
    ensures Distinct(s) ==> |Elems(s)| == |s|
  {
    if |s| > 0 {
      var p := s[..|s| - 1];
      var x := s[|s| - 1];
      assert s == p + [x];
      ElemsSnoc(p, x);
      ElemsSize(p);
      if Distinct(s) {
        assert Distinct(p);
        assert x !in Elems(p);
      }
    }
  }

  lemma SubsetSize<T>(a: set<T>, b: set<T>)
    requires a <= b
    ensures |a| <= |b|
  {
    assert b == a + (b - a);
  }

  /** A distinct sequence drawn from the elements of a distinct sequence
      `u` is no longer than `u`. */
  lemma DistinctWithin<T>(w: seq<T>, u: seq<T>)
    requires Distinct(w) && Distinct(u)
    requires forall i | 0 <= i < |w| :: w[i] in u
    ensures |w| <= |u|
  {
    ElemsSize(w);
    ElemsSize(u);
    assert Elems(w) <= Elems(u) by {
      forall y | y in Elems(w) ensures y in Elems(u) {
        var i :| 0 <= i < |w| && w[i] == y;
        var j :| 0 <= j < |u| && u[j] == y;
      }
    }
    SubsetSize(Elems(w), Elems(u));
  }
}
