/** Ordered views of sets of ids: the `ORDER BY id` of the store's queries. */
module Sequences {

  /** Strictly ascending, hence without duplicates. */
  predicate Increasing(s: seq<int>) {
    forall i, j :: 0 <= i < j < |s| ==> s[i] < s[j]
  }

  /** m is the least element of s. */
  predicate IsLeast(m: int, s: set<int>) {
    m in s && forall x :: x in s ==> m <= x
  }

  /** Some element of s exists. Emptiness is decided this way throughout, which
      hands the verifier a witness for every non-empty case. */
  predicate NonEmpty(s: set<int>) {
    exists x :: x in s
  }

  lemma {:induction false} HasLeast(s: set<int>)
    requires NonEmpty(s)
    ensures exists m :: IsLeast(m, s)
    decreases s
  {
    var y :| y in s;
    var rest := s - {y};
    if NonEmpty(rest) {
      HasLeast(rest);
      var m :| IsLeast(m, rest);
      var least := if y < m then y else m;
      forall x | x in s
        ensures least <= x
      {
        if x != y {
          assert x in rest;
        }
      }
      assert IsLeast(least, s);
    } else {
      forall x | x in s
        ensures y <= x
      {
        assert x !in rest;
      }
      assert IsLeast(y, s);
    }
  }

  /** The least element of a non-empty set. */
  function Min(s: set<int>): (m: int)
    requires NonEmpty(s)
    ensures IsLeast(m, s)
  {
    HasLeast(s);
    var m :| IsLeast(m, s);
    m
  }

  /** The elements of s in ascending order. */
  function SortedElements(s: set<int>): (r: seq<int>)
    ensures Increasing(r)
    ensures forall x :: x in r <==> x in s
    ensures |r| == |s|
    decreases s
  {
    if NonEmpty(s) then
      var m := Min(s);
      [m] + SortedElements(s - {m})
    else
      assert forall x :: x in s <==> x in {};
      assert s == {};
      []
  }
}
