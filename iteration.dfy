/**
 * Iteration over a Rust `HashMap`: every key exactly once, in an order
 * that the program does not control. The model represents such an order
 * as a sequence of keys and lets the specifications quantify over it.
 */
module Iteration {

  predicate Distinct(s: seq<string>)
  {
    forall i, j :: 0 <= i < j < |s| ==> s[i] != s[j]
  }

  /** `order` lists every key of `keys` exactly once. */
  predicate Enumerates(order: seq<string>, keys: set<string>)
  {
    && (forall k :: k in order ==> k in keys)
    && (forall k :: k in keys ==> k in order)
    && Distinct(order)
  }

  /** The order in which `HashMap::iter` visits `keys`: some enumeration, chosen freely. */
  method IterationOrder(keys: set<string>) returns (order: seq<string>)
    ensures Enumerates(order, keys)
  {
    order := [];
    var rest := keys;
    while rest != {}
      invariant rest <= keys
      invariant forall k :: k in order <==> k in keys - rest
      invariant Distinct(order)
      decreases |rest|
    {
      var k :| k in rest;
      assert k !in order;
      assert forall x :: x in order + [k] <==> x in order || x == k;
      order := order + [k];
      rest := rest - {k};
    }
  }

  /** An enumeration has as many entries as the key set. */
  lemma {:induction false} EnumerationSize(order: seq<string>, keys: set<string>)
    requires Enumerates(order, keys)
    ensures |order| == |keys|
    decreases |order|
  {
    if order != [] {
      var last := order[|order| - 1];
      var init := order[..|order| - 1];
      assert forall k :: k in init <==> k in keys - {last} by {
        forall k ensures k in init <==> k in keys - {last} {
          if k in init {
            var i :| 0 <= i < |init| && init[i] == k;
            assert order[i] == k && order[|order| - 1] == last;
          }
          if k in keys - {last} {
            var i :| 0 <= i < |order| && order[i] == k;
            assert i != |order| - 1;
            assert init[i] == k;
          }
        }
      }
      EnumerationSize(init, keys - {last});
    } else {
      assert forall k :: k !in keys;
      assert keys == {};
    }
  }
}
