/** Character classes and literal searches used by the regular expressions
    of the topology script. Positions are absolute indices into the text. */
module Text {
  import opened Wrappers

  /** `pat` is a prefix of `t`. */
  predicate StartsWith(t: string, pat: string) {
    |pat| <= |t| && t[..|pat|] == pat
  }

  /** `pat` occurs in `t` starting at index `i`. */
  predicate OccursAt(t: string, pat: string, i: int) {
    0 <= i && i + |pat| <= |t| && forall k :: 0 <= k < |pat| ==> t[i + k] == pat[k]
  }

  /** An occurrence of `a + c` is an occurrence of `a` followed directly by
      one of `c`. */
  lemma OccursConcat(t: string, a: string, c: string, i: int)
    ensures OccursAt(t, a + c, i) <==> OccursAt(t, a, i) && OccursAt(t, c, i + |a|)
  {
    if OccursAt(t, a, i) && OccursAt(t, c, i + |a|) {
      forall k | 0 <= k < |a + c|
        ensures t[i + k] == (a + c)[k]
      {
        if k >= |a| {
          assert t[i + |a| + (k - |a|)] == c[k - |a|];
        }
      }
    }
    if OccursAt(t, a + c, i) {
      forall k | 0 <= k < |a|
        ensures t[i + k] == a[k]
      {
        assert t[i + k] == (a + c)[k];
      }
      forall k | 0 <= k < |c|
        ensures t[i + |a| + k] == c[k]
      {
        assert t[i + (|a| + k)] == (a + c)[|a| + k];
      }
    }
  }

  /** A one-character pattern occurs where that character stands. */
  lemma OccursChar(t: string, c: char, i: int)
    ensures OccursAt(t, [c], i) <==> 0 <= i < |t| && t[i] == c
  {
    if 0 <= i < |t| && OccursAt(t, [c], i) {
      assert t[i + 0] == [c][0];
    }
  }

  /** Inside an occurrence of `w` at `x`, `pat` occurs at `x + p` in `t`
      exactly when it occurs at `p` in `w`. */
  lemma OccursWithin(t: string, w: string, x: int, pat: string, p: int)
    requires OccursAt(t, w, x)
    requires 0 <= p && p + |pat| <= |w|
    ensures OccursAt(t, pat, x + p) <==> OccursAt(w, pat, p)
  {
    if OccursAt(w, pat, p) {
      forall k | 0 <= k < |pat|
        ensures t[x + p + k] == pat[k]
      {
        assert t[x + (p + k)] == w[p + k];
      }
    }
    if OccursAt(t, pat, x + p) {
      forall k | 0 <= k < |pat|
        ensures w[p + k] == pat[k]
      {
        assert t[x + (p + k)] == w[p + k];
      }
    }
  }

  /** Every text occurs in itself at 0. */
  lemma OccursSelf(t: string)
    ensures OccursAt(t, t, 0)
  {
  }

  /** The character at `j` inside an occurrence of `w` at `x`. */
  lemma OccursIndex(t: string, w: string, x: int, j: int)
    requires OccursAt(t, w, x) && x <= j < x + |w|
    ensures t[j] == w[j - x]
  {
    assert t[x + (j - x)] == w[j - x];
  }

  /** The leftmost occurrence of the literal `pat` in `t` at or after `from`,
      which is what a regex engine finds when it scans for a fixed string.
      `IndexOfFirst` states that it is the leftmost one. */
  function IndexOf(t: string, pat: string, from: nat): (r: Option<nat>)
    ensures r.Some? ==> from <= r.value && OccursAt(t, pat, r.value)
    decreases |t| - from
  {
    if from + |pat| > |t| then None
    else if OccursAt(t, pat, from) then Some(from)
    else IndexOf(t, pat, from + 1)
  }

  /** `IndexOf` finds no occurrence before the one it returns, and returns
      nothing only when there is no occurrence at all. */
  lemma {:induction false} IndexOfFirst(t: string, pat: string, from: nat)
    ensures IndexOf(t, pat, from).Some? ==> forall j :: from <= j < IndexOf(t, pat, from).value ==> !OccursAt(t, pat, j)
    ensures IndexOf(t, pat, from).None? ==> forall j :: from <= j ==> !OccursAt(t, pat, j)
    decreases |t| - from
  {
    if from + |pat| <= |t| && !OccursAt(t, pat, from) {
      IndexOfFirst(t, pat, from + 1);
    }
  }

  /** An occurrence with none before it (from `from` on) is what `IndexOf`
      returns. */
  lemma IndexOfIs(t: string, pat: string, from: nat, j: nat)
    requires from <= j && OccursAt(t, pat, j)
    requires forall x :: from <= x < j ==> !OccursAt(t, pat, x)
    ensures IndexOf(t, pat, from) == Some(j)
  {
    IndexOfFirst(t, pat, from);
  }

  /** An occurrence at `j` bounds the first occurrence from `from` on. */
  lemma IndexOfWithin(t: string, pat: string, from: nat, j: int)
    requires from <= j && OccursAt(t, pat, j)
    ensures IndexOf(t, pat, from).Some? && IndexOf(t, pat, from).value <= j
  {
    IndexOfFirst(t, pat, from);
  }

  /** The leftmost position at or after `from` holding the character `c`;
      `CharIndexFirst` states that it is the leftmost one. */
  function CharIndex(t: string, c: char, from: nat): (r: Option<nat>)
    ensures r.Some? ==> from <= r.value < |t| && t[r.value] == c
    decreases |t| - from
  {
    if from >= |t| then None
    else if t[from] == c then Some(from)
    else CharIndex(t, c, from + 1)
  }

  /** `CharIndex` passes over no earlier `c`, and returns nothing only when
      there is no `c` from `from` on. */
  lemma {:induction false} CharIndexFirst(t: string, c: char, from: nat)
    ensures CharIndex(t, c, from).Some? ==> forall j :: from <= j < CharIndex(t, c, from).value ==> t[j] != c
    ensures CharIndex(t, c, from).None? ==> forall j :: from <= j < |t| ==> t[j] != c
    decreases |t| - from
  {
    if from < |t| && t[from] != c {
      CharIndexFirst(t, c, from + 1);
    }
  }

  /** A `c` with none before it (from `from` on) is what `CharIndex`
      returns. */
  lemma {:induction false} CharIndexIs(t: string, c: char, from: nat, j: nat)
    requires from <= j < |t| && t[j] == c
    requires forall x :: from <= x < j ==> t[x] != c
    ensures CharIndex(t, c, from) == Some(j)
    decreases j - from
  {
    if from < j {
      CharIndexIs(t, c, from + 1, j);
    }
  }

  /** A `c` at `j` bounds the first one from `from` on. */
  lemma CharIndexWithin(t: string, c: char, from: nat, j: nat)
    requires from <= j < |t| && t[j] == c
    ensures CharIndex(t, c, from).Some? && CharIndex(t, c, from).value <= j
  {
    CharIndexFirst(t, c, from);
  }

  /** Python's `\s` on `str` patterns: every code point for which
      `str.isspace()` holds. `\S` is its complement. */
  predicate IsSpace(c: char) {
    var n := c as int;
    || n == 0x20
    || (0x09 <= n <= 0x0D)
    || (0x1C <= n <= 0x1F)
    || n == 0x85
    || n == 0xA0
    || n == 0x1680
    || (0x2000 <= n <= 0x200A)
    || n == 0x2028
    || n == 0x2029
    || n == 0x202F
    || n == 0x205F
    || n == 0x3000
  }

  /** Every character of `s` is whitespace. */
  predicate AllSpace(s: string) {
    forall k :: 0 <= k < |s| ==> IsSpace(s[k])
  }

  /** Every character of `s` is non-whitespace. */
  predicate NoSpace(s: string) {
    forall k :: 0 <= k < |s| ==> !IsSpace(s[k])
  }

  /** The end of the maximal run starting at `i` of characters whose
      whitespace-ness is `space`: what a greedy `\s+` or `\S+` consumes.
      `RunEndMaximal` states that the run is maximal. */
  function RunEnd(t: string, i: nat, space: bool): (e: nat)
    requires i <= |t|
    ensures i <= e <= |t|
    decreases |t| - i
  {
    if i == |t| || IsSpace(t[i]) != space then i
    else RunEnd(t, i + 1, space)
  }

  /** Every character of the run has the class, and the run stops at the
      end of the text or at a character of the other class. */
  lemma {:induction false} RunEndMaximal(t: string, i: nat, space: bool)
    requires i <= |t|
    ensures forall k :: i <= k < RunEnd(t, i, space) ==> IsSpace(t[k]) == space
    ensures RunEnd(t, i, space) == |t| || IsSpace(t[RunEnd(t, i, space)]) != space
    decreases |t| - i
  {
    if i < |t| && IsSpace(t[i]) == space {
      RunEndMaximal(t, i + 1, space);
    }
  }

  /** A run that is followed by a character of the other class is exactly
      the maximal run. */
  lemma {:induction false} RunEndAt(t: string, i: nat, e: nat, space: bool)
    requires i <= e < |t|
    requires forall k :: i <= k < e ==> IsSpace(t[k]) == space
    requires IsSpace(t[e]) != space
    ensures RunEnd(t, i, space) == e
    decreases e - i
  {
    if i < e {
      RunEndAt(t, i + 1, e, space);
    }
  }
}
