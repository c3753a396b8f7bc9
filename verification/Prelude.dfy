/**
  Small vocabulary shared by the model: optional values, sequences without repeats, and the two
  JavaScript collection idioms the gate relies on (`filter`, and a `Set` iterated in insertion order).
 */
module Prelude {

  datatype Option<+T> = None | Some(value: T) {
    function GetOr(default: T): T {
      if Some? then value else default
    }
  }

  predicate Distinct<T(==)>(s: seq<T>) {
    forall i, j :: 0 <= i < j < |s| ==> s[i] != s[j]
  }

  function Elements<T>(s: seq<T>): set<T> {
    set x | x in s
  }

  /** A sequence repeats nothing exactly when it has as many elements as positions. */
  lemma {:induction false} DistinctByCardinality<T>(s: seq<T>)
    ensures |Elements(s)| <= |s|
    ensures Distinct(s) <==> |Elements(s)| == |s|
  {
    if s != [] {
      var front, last := s[..|s| - 1], s[|s| - 1];
      DistinctByCardinality(front);
      assert s == front + [last];
      assert Elements(s) == Elements(front) + {last};
      if last in front {
        assert Elements(s) == Elements(front);
        var i :| 0 <= i < |front| && front[i] == last;
        assert s[i] == s[|s| - 1];
      } else {
        assert Distinct(front) ==> Distinct(s);
        assert Distinct(s) ==> Distinct(front) by {
          assert forall i :: 0 <= i < |front| ==> front[i] == s[i];
        }
      }
    }
  }

  /** `Array.prototype.filter`. */
  function Filter<T(!new)>(p: T -> bool, s: seq<T>): (r: seq<T>)
    ensures forall x :: x in r <==> x in s && p(x)
  {
    if s == [] then []
    else
      var front := Filter(p, s[..|s| - 1]);
      var last := s[|s| - 1];
      assert s == s[..|s| - 1] + [last];
      if p(last) then front + [last] else front
  }

  /** `Set.prototype.add` on a set kept in insertion order. */
  function Insert<T(==,!new)>(s: seq<T>, x: T): (r: seq<T>)
    ensures forall y :: y in r <==> y in s || y == x
    ensures Distinct(s) ==> Distinct(r)
  {
    if x in s then s else s + [x]
  }

  function InsertAll<T(==,!new)>(s: seq<T>, xs: seq<T>): (r: seq<T>)
    ensures forall y :: y in r <==> y in s || y in xs
    ensures Distinct(s) ==> Distinct(r)
  {
    if xs == [] then s
    else
      assert xs == xs[..|xs| - 1] + [xs[|xs| - 1]];
      Insert(InsertAll(s, xs[..|xs| - 1]), xs[|xs| - 1])
  }
}
