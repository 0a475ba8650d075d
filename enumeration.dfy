/**
 * Iteration orders: the analyser walks hash maps and hash sets, whose order
 * is unspecified. A pure mapping over such a collection is modelled with the
 * order as a parameter, a sequence that lists each element exactly once.
 * The sizes of finite sets the counts rely on are stated here too.
 */
module Enumerations {
  /** A sequence without repeated elements. */
  ghost predicate Distinct<T>(s: seq<T>) {
    |s| == 0 || (s[0] !in s[1..] && Distinct(s[1..]))
  }

  /** A sequence that lists every element of a set exactly once: an iteration order of that set. */
  ghost predicate Enumerates<T(!new)>(order: seq<T>, s: set<T>) {
    (forall x :: x in s <==> x in order) && Distinct(order)
  }

  /** An enumeration of a set is as long as the set is large. */
  lemma {:induction false} EnumerationSize<T(!new)>(order: seq<T>, s: set<T>)
    requires Enumerates(order, s)
    ensures |order| == |s|
    decreases |order|
  {
    if |order| > 0 {
      var rest := s - {order[0]};
      forall x
        ensures x in rest <==> x in order[1..]
      {
        if x in order && x != order[0] {
          var k :| 0 <= k < |order| && order[k] == x;
          assert order[1..][k - 1] == x;
        }
      }
      EnumerationSize(order[1..], rest);
    }
  }

  /** A subset is no larger than the set it is drawn from. */
  lemma SubsetCard<T>(a: set<T>, b: set<T>)
    requires a <= b
    ensures |a| <= |b|
  {
    assert b == a + (b - a);
  }
}
