/** Generic operations on sequences of parts: flattening and element-wise
    mapping, with the facts the collection phase needs about them. */
module Sequences {

  /** The parts one after the other. */
  function Flatten<T>(parts: seq<seq<T>>): seq<T> {
    if |parts| == 0 then [] else parts[0] + Flatten(parts[1..])
  }

  /** Flattening two lists of parts one after the other appends the
      results. */
  lemma {:induction false} FlattenAppend<T>(a: seq<seq<T>>, b: seq<seq<T>>)
    ensures Flatten(a + b) == Flatten(a) + Flatten(b)
    decreases |a|
  {
    if |a| == 0 {
      assert a + b == b;
    } else {
      assert (a + b)[1..] == a[1..] + b;
      FlattenAppend(a[1..], b);
    }
  }

  lemma FlattenOne<T>(p: seq<T>)
    ensures Flatten([p]) == p
  {
    assert [p][1..] == [];
  }

  /** An element is in the flattened parts exactly when it is in one of the
      parts. */
  lemma {:induction false} FlattenHas<T>(parts: seq<seq<T>>)
    ensures forall x :: x in Flatten(parts) <==> exists k :: 0 <= k < |parts| && x in parts[k]
    decreases |parts|
  {
    if |parts| > 0 {
      FlattenHas(parts[1..]);
      forall x
        ensures x in Flatten(parts) <==> exists k :: 0 <= k < |parts| && x in parts[k]
      {
        if x in Flatten(parts[1..]) {
          var k :| 0 <= k < |parts[1..]| && x in parts[1..][k];
          assert x in parts[k + 1];
        }
        if exists k :: 0 <= k < |parts| && x in parts[k] {
          var k :| 0 <= k < |parts| && x in parts[k];
          if k > 0 {
            assert parts[1..][k - 1] == parts[k];
          }
        }
      }
    }
  }

  /** `f` applied to each element. */
  function Map<A, B>(f: A -> B, s: seq<A>): (r: seq<B>)
    ensures |r| == |s|
  {
    seq(|s|, k requires 0 <= k < |s| => f(s[k]))
  }

  lemma MapAppend<A, B>(f: A -> B, a: seq<A>, b: seq<A>)
    ensures Map(f, a + b) == Map(f, a) + Map(f, b)
  {
  }

  /** Parts of two elements each, flattened: element `2k` and `2k + 1`
      come from part `k`. */
  lemma {:induction false} FlattenPairs<T>(parts: seq<seq<T>>, k: nat)
    requires forall i :: 0 <= i < |parts| ==> |parts[i]| == 2
    requires k < |parts|
    ensures |Flatten(parts)| == 2 * |parts|
    ensures Flatten(parts)[2 * k] == parts[k][0] && Flatten(parts)[2 * k + 1] == parts[k][1]
    decreases k
  {
    if k > 0 {
      FlattenPairs(parts[1..], k - 1);
      assert parts[1..][k - 1] == parts[k];
    } else {
      FlattenPairsLength(parts);
    }
  }

  lemma {:induction false} FlattenPairsLength<T>(parts: seq<seq<T>>)
    requires forall i :: 0 <= i < |parts| ==> |parts[i]| == 2
    ensures |Flatten(parts)| == 2 * |parts|
    decreases |parts|
  {
    if |parts| > 0 {
      FlattenPairsLength(parts[1..]);
    }
  }
}
