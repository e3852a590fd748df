/** Keep-first duplicate removal over whole values: what
    `drop_duplicates(keep='first')` does to the rows of a frame when the
    subset names every column, and what the graph builder's "not yet in
    `unique_ids`" test does to the sequence of hostnames it visits. */
module Distinct {

  /** No value occurs twice in `s`. */
  predicate NoDups<T(==)>(s: seq<T>) {
    forall i, j :: 0 <= i < j < |s| ==> s[i] != s[j]
  }

  /** `s` without its last element. */
  function Front<T>(s: seq<T>): seq<T>
    requires |s| > 0
  {
    s[..|s| - 1]
  }

  lemma FrontLast<T>(s: seq<T>)
    requires |s| > 0
    ensures s == Front(s) + [s[|s| - 1]]
    ensures forall x :: x in s <==> x in Front(s) || x == s[|s| - 1]
  {
  }

  /** `s` with every occurrence of a value after its first removed. The
      survivors keep their relative order. */
  function DistinctFirst<T(==)>(s: seq<T>): (r: seq<T>)
    ensures NoDups(r)
    ensures forall i :: 0 <= i < |s| ==> s[i] in r
    ensures forall i :: 0 <= i < |r| ==> r[i] in s
    ensures |r| <= |s|
  {
    if |s| == 0 then []
    else
      var r := DistinctFirst(Front(s));
      FrontLast(s);
      if s[|s| - 1] in r then r else r + [s[|s| - 1]]
  }

  /** The survivors are exactly the values of `s`. */
  lemma DistinctFirstHas<T>(s: seq<T>, x: T)
    ensures x in DistinctFirst(s) <==> x in s
  {
    if x in s {
      var j :| 0 <= j < |s| && s[j] == x;
    }
    if x in DistinctFirst(s) {
      var j :| 0 <= j < |DistinctFirst(s)| && DistinctFirst(s)[j] == x;
    }
  }

  /** The index of the first occurrence of `x` in `s`. */
  function FirstIndex<T(==)>(s: seq<T>, x: T): (i: nat)
    requires x in s
    ensures i < |s| && s[i] == x && x !in s[..i]
  {
    if s[0] == x then 0
    else
      assert x in s[1..];
      var i := FirstIndex(s[1..], x);
      assert s[..i + 1] == [s[0]] + s[1..][..i];
      i + 1
  }

  /** An occurrence with none before it is the first. */
  lemma FirstIndexIs<T>(s: seq<T>, x: T, k: nat)
    requires k < |s| && s[k] == x && x !in s[..k]
    ensures FirstIndex(s, x) == k
  {
    var i := FirstIndex(s, x);
    assert forall m :: 0 <= m < k ==> s[..k][m] == s[m];
    assert forall m :: 0 <= m < i ==> s[..i][m] == s[m];
  }

  /** The first index of a value that already occurs in a prefix is its
      first index in that prefix. */
  lemma FirstIndexPrefix<T>(s: seq<T>, n: nat, x: T)
    requires n <= |s| && x in s[..n]
    ensures FirstIndex(s, x) == FirstIndex(s[..n], x)
  {
    var j := FirstIndex(s[..n], x);
    assert s[..n][..j] == s[..j];
    FirstIndexIs(s, x, j);
  }

  /** A value absent from all of `s` but its last element is first found
      there. */
  lemma FirstIndexLast<T>(s: seq<T>)
    requires |s| > 0 && s[|s| - 1] !in Front(s)
    ensures FirstIndex(s, s[|s| - 1]) == |s| - 1
  {
    FirstIndexIs(s, s[|s| - 1], |s| - 1);
  }

  /** The elements of `r` occur in `s` in the order of their first
      occurrences. */
  ghost predicate InFirstOrder<T>(s: seq<T>, r: seq<T>) {
    forall i, j :: 0 <= i < j < |r| ==> r[i] in s && r[j] in s && FirstIndex(s, r[i]) < FirstIndex(s, r[j])
  }

  /** The survivors appear in the order of their first occurrences in `s`:
      together with the membership facts of `DistinctFirst`, this determines
      the result. */
  lemma {:induction false} DistinctFirstOrdered<T>(s: seq<T>)
    ensures InFirstOrder(s, DistinctFirst(s))
  {
    if |s| > 0 {
      var f := Front(s);
      DistinctFirstOrdered(f);
      FrontLast(s);
      var p, r := DistinctFirst(f), DistinctFirst(s);
      assert r[..|p|] == p;
      forall i, j | 0 <= i < j < |r|
        ensures r[i] in s && r[j] in s && FirstIndex(s, r[i]) < FirstIndex(s, r[j])
      {
        assert r[i] == p[i] && r[i] in f;
        FirstIndexPrefix(s, |s| - 1, r[i]);
        if j < |p| {
          assert r[j] == p[j] && r[j] in f;
          FirstIndexPrefix(s, |s| - 1, r[j]);
        } else {
          FirstIndexLast(s);
        }
      }
    }
  }

  /** A sequence without duplicates is its own `DistinctFirst`. */
  lemma {:induction false} DistinctFirstOfNoDups<T>(s: seq<T>)
    requires NoDups(s)
    ensures DistinctFirst(s) == s
  {
    if |s| > 0 {
      var f := Front(s);
      assert NoDups(f);
      DistinctFirstOfNoDups(f);
      FrontLast(s);
      assert s[|s| - 1] !in f;
    }
  }

  /** Removing duplicates twice removes nothing more. */
  lemma DistinctFirstIdempotent<T>(s: seq<T>)
    ensures DistinctFirst(DistinctFirst(s)) == DistinctFirst(s)
  {
    DistinctFirstOfNoDups(DistinctFirst(s));
  }

  /** Appending `b` keeps the survivors of `a` in front; whatever follows
      them comes from `b` and does not occur in `a`. */
  lemma {:induction false} DistinctFirstAppend<T>(a: seq<T>, b: seq<T>)
    ensures var p, r := DistinctFirst(a), DistinctFirst(a + b);
      && |p| <= |r| && r[..|p|] == p
      && forall k :: |p| <= k < |r| ==> r[k] in b && r[k] !in a
    decreases |b|
  {
    if |b| == 0 {
      assert a + b == a;
    } else {
      var b' := Front(b);
      DistinctFirstAppend(a, b');
      FrontLast(b);
      assert Front(a + b) == a + b';
    }
  }

  /** Appending values that all occur already changes nothing. */
  lemma {:induction false} DistinctFirstAbsorbs<T>(a: seq<T>, b: seq<T>)
    requires forall x :: x in b ==> x in a
    ensures DistinctFirst(a + b) == DistinctFirst(a)
    decreases |b|
  {
    if |b| == 0 {
      assert a + b == a;
    } else {
      var b' := Front(b);
      FrontLast(b);
      DistinctFirstAbsorbs(a, b');
      assert Front(a + b) == a + b';
    }
  }

  /** The hashing loop a data-frame library runs: walk the values once and
      keep those not seen before. */
  method DropDuplicates<T(==)>(s: seq<T>) returns (r: seq<T>)
    ensures r == DistinctFirst(s)
  {
    var seen: set<T> := {};
    r := [];
    for i := 0 to |s|
      invariant r == DistinctFirst(s[..i])
      invariant forall x :: x in seen <==> x in r
    {
      assert s[..i + 1] == s[..i] + [s[i]];
      assert Front(s[..i + 1]) == s[..i];
      if s[i] !in seen {
        r := r + [s[i]];
        seen := seen + {s[i]};
      }
    }
    assert s[..|s|] == s;
  }
}
