/** The interface-name shortener of network-automation-and-topology-scripts.py
    (`convert_interface_name`): an ordered table of anchored literal prefixes,
    the first of which that starts the name is replaced by its short form. */
module InterfaceNames {
  import opened Text

  /** One rewrite rule: a leading `long` prefix becomes `short`. */
  datatype Rule = Rule(long: string, short: string)

  /** The rule table, in the dictionary's insertion (= iteration) order. None
      of the patterns holds a regex metacharacter (`-` is literal outside a
      character class), so each `^pattern` is a plain prefix test. */
  const Rules: seq<Rule> := [
    Rule("GigabitEthernet", "Gi"),
    Rule("FastEthernet", "Fa"),
    Rule("TenGigabitEthernet", "Te"),
    Rule("TwentyFiveGigE", "Tw"),
    Rule("FortyGigE", "Fo"),
    Rule("HundredGigE", "Hu"),
    Rule("Serial", "Se"),
    Rule("Port-channel", "Po"),
    Rule("Vlan", "Vl"),
    Rule("Loopback", "Lo")
  ]

  /** No rule's long prefix is a prefix of another rule's long prefix, so at
      most one rule can match any name. */
  ghost predicate PrefixFree(rules: seq<Rule>) {
    forall i, j :: 0 <= i < |rules| && 0 <= j < |rules| && i != j ==>
      !StartsWith(rules[j].long, rules[i].long)
  }

  /** No rule of `rules` matches `name`. */
  ghost predicate NoneMatch(rules: seq<Rule>, name: string) {
    forall i :: 0 <= i < |rules| ==> !StartsWith(name, rules[i].long)
  }

  /** The name with rule `rule`'s prefix replaced. */
  function Replace(rule: Rule, name: string): string
    requires StartsWith(name, rule.long)
  {
    rule.short + name[|rule.long|..]
  }

  /** First-match rewriting: the loop of lines 22-25 over any rule table. */
  function Rewrite(rules: seq<Rule>, name: string): (r: string)
    ensures NoneMatch(rules, name) ==> r == name
    ensures forall i :: 0 <= i < |rules| && StartsWith(name, rules[i].long) &&
                        (forall j :: 0 <= j < i ==> !StartsWith(name, rules[j].long)) ==>
                        r == Replace(rules[i], name)
  {
    if |rules| == 0 then name
    else if StartsWith(name, rules[0].long) then Replace(rules[0], name)
    else
      var r := Rewrite(rules[1..], name);
      assert forall i :: 1 <= i < |rules| ==> rules[1..][i - 1] == rules[i];
      r
  }

  /** Two prefixes of one string: the shorter is a prefix of the longer. */
  lemma PrefixesNest(name: string, a: string, b: string)
    requires StartsWith(name, a) && StartsWith(name, b) && |a| <= |b|
    ensures StartsWith(b, a)
  {
    assert b[..|a|] == name[..|b|][..|a|];
  }

  /** In a prefix-free table the matching rule, if any, is unique, so its
      replacement is the result whatever its position. */
  lemma RewriteUnique(rules: seq<Rule>, name: string, i: nat)
    requires PrefixFree(rules)
    requires i < |rules| && StartsWith(name, rules[i].long)
    ensures Rewrite(rules, name) == Replace(rules[i], name)
  {
    forall j | 0 <= j < i
      ensures !StartsWith(name, rules[j].long)
    {
      if StartsWith(name, rules[j].long) {
        if |rules[j].long| <= |rules[i].long| {
          PrefixesNest(name, rules[j].long, rules[i].long);
        } else {
          PrefixesNest(name, rules[i].long, rules[j].long);
        }
      }
    }
  }

  /** The result does not depend on rule order: any two prefix-free tables
      holding the same rules rewrite every name identically. */
  lemma RewriteOrderIndependent(rules1: seq<Rule>, rules2: seq<Rule>, name: string)
    requires PrefixFree(rules1) && PrefixFree(rules2)
    requires forall rule :: rule in rules1 <==> rule in rules2
    ensures Rewrite(rules1, name) == Rewrite(rules2, name)
  {
    if i :| 0 <= i < |rules1| && StartsWith(name, rules1[i].long) {
      assert rules1[i] in rules2;
      var j :| 0 <= j < |rules2| && rules2[j] == rules1[i];
      RewriteUnique(rules1, name, i);
      RewriteUnique(rules2, name, j);
    } else {
      forall j | 0 <= j < |rules2|
        ensures !StartsWith(name, rules2[j].long)
      {
        assert rules2[j] in rules1;
      }
    }
  }

  /** The first two letters of a name, as the index of the rule whose long
      prefix starts with them (-1 for none). */
  function Family(name: string): int {
    if |name| < 2 then -1
    else
      var a, b := name[0], name[1];
      if a == 'G' && b == 'i' then 0
      else if a == 'F' && b == 'a' then 1
      else if a == 'T' && b == 'e' then 2
      else if a == 'T' && b == 'w' then 3
      else if a == 'F' && b == 'o' then 4
      else if a == 'H' && b == 'u' then 5
      else if a == 'S' && b == 'e' then 6
      else if a == 'P' && b == 'o' then 7
      else if a == 'V' && b == 'l' then 8
      else if a == 'L' && b == 'o' then 9
      else -1
  }

  /** Each long prefix begins with letters that identify its own rule, and
      has a letter in its third position. */
  lemma FamilyOfRule(i: nat)
    requires i < |Rules|
    ensures |Rules[i].long| >= 3 && Family(Rules[i].long) == i
    ensures !('0' <= Rules[i].long[2] <= '9')
  {
    match i
    case 0 => case 1 => case 2 => case 3 => case 4 =>
    case 5 => case 6 => case 7 => case 8 => case 9 =>
  }

  /** The ten rules are prefix-free. */
  lemma RulesPrefixFree()
    ensures PrefixFree(Rules)
  {
    forall i, j | 0 <= i < |Rules| && 0 <= j < |Rules| && i != j
      ensures !StartsWith(Rules[j].long, Rules[i].long)
    {
      FamilyOfRule(i);
      FamilyOfRule(j);
    }
  }

  /** `convert_interface_name` (lines 9-25). */
  function ConvertInterfaceName(name: string): (r: string)
    ensures forall i :: 0 <= i < |Rules| && StartsWith(name, Rules[i].long) ==>
                        r == Rules[i].short + name[|Rules[i].long|..]
    ensures NoneMatch(Rules, name) ==> r == name
  {
    RulesPrefixFree();
    forall i | 0 <= i < |Rules| && StartsWith(name, Rules[i].long)
      ensures Rewrite(Rules, name) == Replace(Rules[i], name)
    {
      RewriteUnique(Rules, name, i);
    }
    Rewrite(Rules, name)
  }

  /** Every long form followed by any suffix becomes the short form followed
      by the same suffix. */
  lemma ConvertLongForm(i: nat, suffix: string)
    requires i < |Rules|
    ensures ConvertInterfaceName(Rules[i].long + suffix) == Rules[i].short + suffix
  {
    var name := Rules[i].long + suffix;
    assert StartsWith(name, Rules[i].long);
    assert name[|Rules[i].long|..] == suffix;
  }

  /** A name is left unchanged exactly when no rule matches it. */
  lemma ConvertFixedIff(name: string)
    ensures ConvertInterfaceName(name) == name <==> NoneMatch(Rules, name)
  {
    if !NoneMatch(Rules, name) {
      var i :| 0 <= i < |Rules| && StartsWith(name, Rules[i].long);
      assert |Rules[i].short| < |Rules[i].long|;
      assert |ConvertInterfaceName(name)| < |name|;
    }
  }

  /** A slot suffix: empty, or starting with a decimal digit. */
  predicate SlotSuffix(s: string) {
    |s| == 0 || '0' <= s[0] <= '9'
  }

  /** A short form followed by a slot suffix matches no rule: every long
      prefix has a letter in its third position. */
  lemma ShortFormMatchesNothing(i: nat, suffix: string)
    requires i < |Rules| && SlotSuffix(suffix)
    ensures NoneMatch(Rules, Rules[i].short + suffix)
  {
    var name := Rules[i].short + suffix;
    forall j | 0 <= j < |Rules|
      ensures !StartsWith(name, Rules[j].long)
    {
      FamilyOfRule(j);
    }
  }

  /** An already canonical name (short form plus slot suffix) is a fixed
      point of the conversion. */
  lemma CanonicalIsFixed(i: nat, suffix: string)
    requires i < |Rules| && SlotSuffix(suffix)
    ensures ConvertInterfaceName(Rules[i].short + suffix) == Rules[i].short + suffix
  {
    ShortFormMatchesNothing(i, suffix);
  }

  /** Converting twice equals converting once whenever the remainder after a
      matched long prefix is a slot suffix. */
  lemma ConvertIdempotentOnSlotNames(name: string)
    requires forall i :: 0 <= i < |Rules| && StartsWith(name, Rules[i].long) ==>
                           SlotSuffix(name[|Rules[i].long|..])
    ensures ConvertInterfaceName(ConvertInterfaceName(name)) == ConvertInterfaceName(name)
  {
    if i :| 0 <= i < |Rules| && StartsWith(name, Rules[i].long) {
      CanonicalIsFixed(i, name[|Rules[i].long|..]);
    }
  }

  /** Every short form is the first two letters of its long form. */
  lemma ShortIsPrefix(i: nat)
    requires i < |Rules|
    ensures |Rules[i].long| >= 3 && Rules[i].short == Rules[i].long[..2]
  {
    match i
    case 0 => case 1 => case 2 => case 3 => case 4 =>
    case 5 => case 6 => case 7 => case 8 => case 9 =>
  }

  /** Putting back the first two letters of a word in front of the rest of
      it, before a suffix. */
  lemma Regrow(long: string, short: string, suffix: string)
    requires |long| >= 2 && short == long[..2]
    ensures short + (long[2..] + suffix) == long + suffix
    ensures long + long[2..] + suffix == long + (long[2..] + suffix)
  {
    assert short + long[2..] == long;
  }

  /** A long prefix followed by the rest of that prefix after its first two
      letters is rewritten into the long prefix again. */
  lemma ConvertReformsPrefix(i: nat, suffix: string)
    requires i < |Rules|
    ensures var long := Rules[i].long;
      ConvertInterfaceName(long + long[2..] + suffix) == long + suffix
  {
    ShortIsPrefix(i);
    Regrow(Rules[i].long, Rules[i].short, suffix);
    ConvertLongForm(i, Rules[i].long[2..] + suffix);
  }

  /** Conversion is not idempotent: the second application shortens such a
      name once more, as in `GigabitEthernetgabitEthernet0`,
      `GigabitEthernet0`, `Gi0`. */
  lemma ConvertNotIdempotent(i: nat, suffix: string)
    requires i < |Rules|
    ensures var long, short := Rules[i].long, Rules[i].short;
      var x := long + long[2..] + suffix;
      && ConvertInterfaceName(x) == long + suffix
      && ConvertInterfaceName(ConvertInterfaceName(x)) == short + suffix
      && ConvertInterfaceName(ConvertInterfaceName(x)) != ConvertInterfaceName(x)
  {
    ConvertReformsPrefix(i, suffix);
    ConvertLongForm(i, suffix);
    ShortIsPrefix(i);
  }
}
