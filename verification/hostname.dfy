/** The hostname search of line 35 of network-automation-and-topology-scripts.py:
    `re.search(r'(\S+)\s+uptime', text).group(1)` over the `show version`
    output. When nothing matches, `search` returns `None` and `.group`
    raises, which the model reports as an error value. */
module Hostname {
  import opened Wrappers
  import opened Text

  const Uptime: string := "uptime"

  /** Why no hostname was produced: the pattern matched nowhere. */
  datatype HostnameError = NoUptimeLine

  /** The pattern matches at `i`, its group spanning `[i, j)` and its
      whitespace run `[j, e)`: the language of the regular expression,
      independent of how an engine searches for it. */
  ghost predicate MatchesAt(t: string, i: nat, j: nat, e: nat) {
    && i < j < e
    && OccursAt(t, Uptime, e)
    && (forall k :: i <= k < j ==> !IsSpace(t[k]))
    && (forall k :: j <= k < e ==> IsSpace(t[k]))
  }

  /** The end of the group when the pattern matches at `i`. `\S+` takes the
      whole run of non-whitespace; giving characters back cannot help, since
      `\s` could not match the non-whitespace character that would follow.
      Likewise `\s+` takes the whole run of whitespace before `uptime`. */
  function TokenAt(t: string, i: nat): Option<nat>
    requires i <= |t|
  {
    var j := RunEnd(t, i, false);
    if j == i || j == |t| then None
    else if OccursAt(t, Uptime, RunEnd(t, j, true)) then Some(j)
    else None
  }

  /** What `TokenAt` reports is a match of the pattern. */
  lemma TokenAtSound(t: string, i: nat)
    requires i <= |t| && TokenAt(t, i).Some?
    ensures var j := TokenAt(t, i).value; MatchesAt(t, i, j, RunEnd(t, j, true))
  {
    var j := TokenAt(t, i).value;
    RunEndMaximal(t, i, false);
    RunEndMaximal(t, j, true);
  }

  /** Every match of the pattern at `i` has the group `TokenAt` reports: the
      match at a given start is unique. */
  lemma TokenAtComplete(t: string, i: nat, j: nat, e: nat)
    requires MatchesAt(t, i, j, e)
    ensures TokenAt(t, i) == Some(j)
    ensures RunEnd(t, j, true) == e
  {
    RunEndAt(t, i, j, false);
    assert !IsSpace(t[e]) by {
      assert t[e + 0] == Uptime[0];
    }
    RunEndAt(t, j, e, true);
  }

  /** The leftmost start at or after `from` where the pattern matches, with
      the end of its group. */
  function SearchFrom(t: string, from: nat): (r: Option<(nat, nat)>)
    requires from <= |t|
    ensures r.Some? ==> from <= r.value.0 < |t| && TokenAt(t, r.value.0) == Some(r.value.1)
    decreases |t| - from
  {
    if from == |t| then None
    else match TokenAt(t, from)
      case Some(j) => Some((from, j))
      case None => SearchFrom(t, from + 1)
  }

  /** No start from `from` on before the one `SearchFrom` returns (or none
      at all when it returns nothing) admits a match. */
  lemma {:induction false} SearchFromLeftmost(t: string, from: nat, i: nat, j: nat, e: nat)
    requires from <= i && MatchesAt(t, i, j, e)
    ensures from <= |t|
    ensures SearchFrom(t, from).Some? && SearchFrom(t, from).value.0 <= i
    decreases |t| - from
  {
    if TokenAt(t, from).None? {
      if from == i {
        TokenAtComplete(t, i, j, e);
      }
      SearchFromLeftmost(t, from + 1, i, j, e);
    }
  }

  /** The hostname: group 1 of the leftmost match, or the error raised by
      `.group` on `None`. */
  function FindHostname(t: string): (r: Result<string, HostnameError>)
    ensures r.Ok? ==> |r.value| > 0 && NoSpace(r.value)
  {
    match SearchFrom(t, 0)
    case None => Err(NoUptimeLine)
    case Some((i, j)) =>
      TokenAtSound(t, i);
      var h := t[i..j];
      assert forall k :: 0 <= k < |h| ==> h[k] == t[i + k];
      Ok(h)
  }

  /** A hostname is found exactly when the pattern matches somewhere; it is
      then the group of a match that starts no later than any other. */
  lemma FindHostnameLeftmost(t: string)
    ensures FindHostname(t).Ok? ==>
      exists i: nat, j: nat, e: nat :: MatchesAt(t, i, j, e) && FindHostname(t).value == t[i..j] &&
        forall i': nat, j': nat, e': nat :: MatchesAt(t, i', j', e') ==> i <= i'
    ensures FindHostname(t).Err? ==> forall i: nat, j: nat, e: nat :: !MatchesAt(t, i, j, e)
  {
    match SearchFrom(t, 0)
    case None =>
      forall i, j, e | MatchesAt(t, i, j, e)
        ensures false
      {
        SearchFromLeftmost(t, 0, i, j, e);
      }
    case Some((i, j)) =>
      TokenAtSound(t, i);
      forall i', j', e' | MatchesAt(t, i', j', e')
        ensures i <= i'
      {
        SearchFromLeftmost(t, 0, i', j', e');
      }
      assert MatchesAt(t, i, j, RunEnd(t, j, true));
  }

  /** A device whose output starts with its name and the uptime line yields
      that name. */
  lemma FindHostnameOfUptimeLine(name: string, rest: string)
    requires |name| > 0 && NoSpace(name)
    ensures FindHostname(name + " " + Uptime + rest) == Ok(name)
  {
    var t := name + " " + Uptime + rest;
    var j := |name|;
    assert forall k :: 0 <= k < j ==> t[k] == name[k];
    assert t[j] == ' ';
    assert OccursAt(t, Uptime, j + 1) by {
      assert forall k :: 0 <= k < |Uptime| ==> t[j + 1 + k] == Uptime[k];
    }
    TokenAtComplete(t, 0, j, j + 1);
    assert t[0..j] == name;
  }
}
