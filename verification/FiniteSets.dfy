/** Cardinality facts for the counting arguments. */
module FiniteSets {

  lemma {:induction false} SubsetSize<T>(a: set<T>, b: set<T>)
    requires a <= b
    ensures |a| <= |b|
  {
    if a != {} {
      var x :| x in a;
      SubsetSize(a - {x}, b - {x});
    }
  }

  function Interval(from: int, count: nat): (s: set<int>)
    ensures forall i :: i in s <==> from <= i < from + count
    ensures |s| == count
  {
    if count == 0 then {} else Interval(from, count - 1) + {from + count - 1}
  }
}
