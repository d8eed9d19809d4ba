/** Putting one element into a list. */
module Insertion {

  function Inserted<T>(r: seq<T>, p: nat, x: T): (d: seq<T>)
    requires p <= |r|
    ensures |d| == |r| + 1
    ensures forall a :: 0 <= a < |d| ==> d[a] == if a < p then r[a] else if a == p then x else r[a - 1]
  {
    r[..p] + [x] + r[p..]
  }

  lemma InsertAdds<T>(r: seq<T>, p: nat, x: T)
    requires p <= |r|
    ensures multiset(Inserted(r, p, x)) == multiset(r) + multiset{x}
  {
    assert r == r[..p] + r[p..];
  }

  lemma InsertedMembers<T>(r: seq<T>, p: nat, x: T)
    requires p <= |r|
    ensures forall y :: y in Inserted(r, p, x) <==> y in r || y == x
  {
    var d := Inserted(r, p, x);
    forall y | y in r ensures y in d {
      var a :| 0 <= a < |r| && r[a] == y;
      assert d[if a < p then a else a + 1] == y;
    }
    assert d[p] == x;
  }
}
