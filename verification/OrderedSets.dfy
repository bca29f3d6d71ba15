/** Finite sets, and finite sets of numbers in ascending order, as a std::set or the keys of a
    std::map are iterated. */
module OrderedSets {

  predicate IsLeast(s: set<int>, x: int) {
    x in s && forall y :: y in s ==> x <= y
  }

  lemma Member<T>(s: set<T>) returns (x: T)
    requires s != {}
    ensures x in s
  {
    x :| x in s;
  }

  lemma SubsetCount<T>(a: set<T>, b: set<T>)
    requires a <= b
    ensures |a| <= |b|
    ensures |a| == |b| ==> a == b
  {
    assert b == a + (b - a);
  }

  lemma LeastOf(s: set<int>) returns (least: int)
    requires s != {}
    ensures IsLeast(s, least)
    decreases s
  {
    var x := Member(s);
    least := x;
    if s != {x} {
      var y := LeastOf(s - {x});
      assert forall z :: z in s ==> z == x || z in s - {x};
      least := if x < y then x else y;
    }
  }

  lemma LeastExists(s: set<int>)
    requires s != {}
    ensures exists x :: IsLeast(s, x)
  {
    var x := LeastOf(s);
  }

  lemma LeastNatExists(s: set<nat>)
    requires s != {}
    ensures exists x: nat :: IsLeast(s, x)
  {
    var x := LeastOf(s);
  }

  ghost function Least(s: set<int>): (x: int)
    requires s != {}
    ensures IsLeast(s, x)
  {
    LeastExists(s);
    var x :| IsLeast(s, x);
    x
  }

  ghost function Sorted(s: set<int>): (r: seq<int>)
    ensures forall x :: x in r <==> x in s
    decreases s
  {
    if s == {} then [] else [Least(s)] + Sorted(s - {Least(s)})
  }
}
