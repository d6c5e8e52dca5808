/** Role-based authorization: who may use a resource, and which names a caller is told. */
module Rbac {
  import opened Wrappers
  import opened Config

  datatype Claims = Claims(subject: string, email: string, groups: seq<string>)

  predicate Covers(resources: seq<string>, name: string) {
    "*" in resources || name in resources
  }

  predicate RuleGrants(rule: RBACRule, groups: seq<string>, resource: string, permission: string) {
    rule.group in groups && Covers(rule.resources, resource) && permission in rule.permissions
  }

  predicate RuleNames(rule: RBACRule, groups: seq<string>, name: string) {
    rule.group in groups && Covers(rule.resources, name)
  }

  /** What Check decides; a nil claims pointer is None. */
  predicate Granted(rules: seq<RBACRule>, claims: Option<Claims>, resource: string, permission: string) {
    claims.Some? && exists i :: 0 <= i < |rules| && RuleGrants(rules[i], claims.value.groups, resource, permission)
  }

  /** What list_resources shows of a managed name: a rule of one of the caller's groups
      names it or the wildcard, whatever the rule permits. */
  predicate Listed(rules: seq<RBACRule>, claims: Option<Claims>, name: string) {
    claims.Some? && exists i :: 0 <= i < |rules| && RuleNames(rules[i], claims.value.groups, name)
  }

  /** What a grant and a listing are, on the rules' own fields. */
  lemma GrantedExactly(rules: seq<RBACRule>, claims: Option<Claims>, resource: string, permission: string)
    ensures Granted(rules, claims, resource, permission) <==>
            claims.Some? && exists i | 0 <= i < |rules| ::
              && rules[i].group in claims.value.groups
              && ("*" in rules[i].resources || resource in rules[i].resources)
              && permission in rules[i].permissions
  {
    if i :| 0 <= i < |rules| && claims.Some? && rules[i].group in claims.value.groups
            && ("*" in rules[i].resources || resource in rules[i].resources) && permission in rules[i].permissions {
      assert RuleGrants(rules[i], claims.value.groups, resource, permission);
    }
  }

  lemma ListedExactly(rules: seq<RBACRule>, claims: Option<Claims>, name: string)
    ensures Listed(rules, claims, name) <==>
            claims.Some? && exists i | 0 <= i < |rules| ::
              && rules[i].group in claims.value.groups && ("*" in rules[i].resources || name in rules[i].resources)
  {
    if i :| 0 <= i < |rules| && claims.Some? && rules[i].group in claims.value.groups
            && ("*" in rules[i].resources || name in rules[i].resources) {
      assert RuleNames(rules[i], claims.value.groups, name);
    }
  }

  /** Every resource name in the matching rules, repeats included. */
  function Named(rules: seq<RBACRule>, groups: seq<string>): seq<string> {
    if rules == [] then []
    else
      var last := rules[|rules| - 1];
      Named(rules[..|rules| - 1], groups) + if last.group in groups then last.resources else []
  }

  /** Only the first occurrence of each. */
  function FirstOccurrences(names: seq<string>): (r: seq<string>)
    ensures forall n :: n in r <==> n in names
    ensures forall i, j :: 0 <= i < j < |r| ==> r[i] != r[j]
  {
    if names == [] then []
    else
      var front, last := names[..|names| - 1], names[|names| - 1];
      assert forall n :: n in names <==> n in front || n == last;
      var r := FirstOccurrences(front);
      if last in front then r else r + [last]
  }

  class RBACAuthorizer {
    const rules: seq<RBACRule>

    constructor (rules: seq<RBACRule>)
      ensures this.rules == rules
    {
      this.rules := rules;
    }

    /** True exactly when one rule has a group of the caller, the resource or "*", and the
        permission asked for. */
    method Check(claims: Option<Claims>, resource: string, permission: string) returns (ok: bool)
      ensures ok <==> claims.Some? && exists i | 0 <= i < |rules| ::
                && rules[i].group in claims.value.groups
                && ("*" in rules[i].resources || resource in rules[i].resources)
                && permission in rules[i].permissions
      ensures ok <==> Granted(rules, claims, resource, permission)
    {
      GrantedExactly(rules, claims, resource, permission);
      if claims == None { return false; }
      for i := 0 to |rules|
        invariant forall j :: 0 <= j < i ==> !RuleGrants(rules[j], claims.value.groups, resource, permission)
      {
        var rule := rules[i];
        if rule.group !in claims.value.groups { continue; }
        if !Covers(rule.resources, resource) { continue; }
        if permission !in rule.permissions { continue; }
        return true;
      }
      return false;
    }

    /** Every name in the rules of the caller's groups, each once, in the order of first
        appearance. */
    method AllowedResources(claims: Option<Claims>) returns (result: seq<string>)
      ensures forall name :: name in result <==>
                claims.Some? && exists i | 0 <= i < |rules| ::
                  && rules[i].group in claims.value.groups && name in rules[i].resources
      ensures forall i, j :: 0 <= i < j < |result| ==> result[i] != result[j]
      ensures result == if claims == None then [] else FirstOccurrences(Named(rules, claims.value.groups))
    {
      result := [];
      if claims == None { return; }
      hide FirstOccurrences, Named;
      var groups := claims.value.groups;
      forall name ensures name in Named(rules, groups) <==>
                exists i :: 0 <= i < |rules| && rules[i].group in groups && name in rules[i].resources
      {
        NamedBySomeRule(rules, groups, name);
      }
      var seen: set<string> := {};
      NamedNone(groups);
      for i := 0 to |rules|
        invariant result == FirstOccurrences(Named(rules[..i], groups))
        invariant forall n :: n in seen <==> n in result
      {
        var rule := rules[i];
        NamedNext(rules, groups, i);
        if rule.group !in groups { continue; }
        seen, result := AddUnseen(seen, result, rule.resources, Named(rules[..i], groups));
      }
      assert rules[..|rules|] == rules;
    }
  }

  method AddUnseen(seen0: set<string>, result0: seq<string>, resources: seq<string>, ghost before: seq<string>)
    returns (seen: set<string>, result: seq<string>)
    requires result0 == FirstOccurrences(before) && forall n :: n in seen0 <==> n in result0
    ensures result == FirstOccurrences(before + resources) && forall n :: n in seen <==> n in result
  {
    hide FirstOccurrences;
    seen, result := seen0, result0;
    assert before + resources[..0] == before;
    for k := 0 to |resources|
      invariant result == FirstOccurrences(before + resources[..k])
      invariant forall n :: n in seen <==> n in result
    {
      var name := resources[k];
      assert before + resources[..k + 1] == before + resources[..k] + [name];
      OccurrencesNext(before + resources[..k], name);
      if name !in seen {
        seen := seen + {name};
        result := result + [name];
      }
    }
    assert resources[..|resources|] == resources;
  }

  /** The names of two lists of rules are those of the first, then those of the second. */
  lemma {:induction false} NamedJoins(a: seq<RBACRule>, b: seq<RBACRule>, groups: seq<string>)
    ensures Named(a + b, groups) == Named(a, groups) + Named(b, groups)
    ensures |b| == 1 ==> Named(b, groups) == if b[0].group in groups then b[0].resources else []
  {
    hide Named;
    NamedEmpty(groups);
    if b == [] {
      assert a + b == a;
    } else {
      var front := b[..|b| - 1];
      NamedJoins(a, front, groups);
      NamedLast(b, groups);
      NamedLast(a + b, groups);
      assert (a + b)[..|a + b| - 1] == a + front;
      assert |b| == 1 ==> front == [];
    }
  }

  lemma NamedEmpty(groups: seq<string>)
    ensures Named([], groups) == []
  {
  }

  lemma NamedLast(rules: seq<RBACRule>, groups: seq<string>)
    requires rules != []
    ensures var last := rules[|rules| - 1];
            Named(rules, groups) ==
            Named(rules[..|rules| - 1], groups) + if last.group in groups then last.resources else []
  {
  }

  /** An earlier result appears before any occurrence of a later one. */
  lemma {:induction false} OccurrencesInOrder(names: seq<string>, i: nat, j: nat)
    requires i < j < |FirstOccurrences(names)|
    ensures var r := FirstOccurrences(names);
            exists k :: 0 <= k < |names| && names[k] == r[i] && r[j] !in names[..k + 1]
  {
    var front, r := names[..|names| - 1], FirstOccurrences(names);
    if j < |FirstOccurrences(front)| {
      OccurrencesInOrder(front, i, j);
      var k :| 0 <= k < |front| && front[k] == r[i] && r[j] !in front[..k + 1];
      assert names[..k + 1] == front[..k + 1] && names[k] == r[i];
    } else {
      assert r[i] in FirstOccurrences(front) && r[i] in front && r[j] !in front;
      var k :| 0 <= k < |front| && front[k] == r[i];
      assert names[k] == r[i];
      assert r[j] !in names[..k + 1] by { assert names[..k + 1] == front[..k + 1]; }
    }
  }

  lemma NamedNone(groups: seq<string>)
    ensures FirstOccurrences(Named([], groups)) == []
  {
  }

  lemma NamedNext(rules: seq<RBACRule>, groups: seq<string>, i: nat)
    requires i < |rules|
    ensures Named(rules[..i + 1], groups) ==
            var before := Named(rules[..i], groups);
            if rules[i].group in groups then before + rules[i].resources else before
  {
    assert rules[..i + 1][..i] == rules[..i];
  }

  lemma OccurrencesNext(names: seq<string>, name: string)
    ensures FirstOccurrences(names + [name]) ==
            if name in names then FirstOccurrences(names) else FirstOccurrences(names) + [name]
  {
  }

  lemma {:induction false} NamedBySomeRule(rules: seq<RBACRule>, groups: seq<string>, name: string)
    ensures name in Named(rules, groups) <==>
            exists i :: 0 <= i < |rules| && rules[i].group in groups && name in rules[i].resources
  {
    if rules != [] {
      var last := |rules| - 1;
      NamedBySomeRule(rules[..last], groups, name);
      if i :| 0 <= i < |rules| && rules[i].group in groups && name in rules[i].resources && i != last {
        assert name in rules[..last][i].resources;
      }
    }
  }

  /** The two loops agree one way always: what may be read is listed. */
  lemma ReadableIsListed(rules: seq<RBACRule>, claims: Option<Claims>, name: string)
    requires Granted(rules, claims, name, "read")
    ensures Listed(rules, claims, name)
  {
  }

  /** Every managed resource that a rule names, or covers by "*", can be read through some
      rule of the same group. */
  ghost predicate ReadCovered(rules: seq<RBACRule>, managed: set<string>) {
    forall i, name :: 0 <= i < |rules| && name in managed && Covers(rules[i].resources, name) ==>
      ReadableInGroup(rules, rules[i].group, name)
  }

  ghost predicate ReadableInGroup(rules: seq<RBACRule>, group: string, name: string) {
    exists j :: 0 <= j < |rules| && RuleGrants(rules[j], [group], name, "read")
  }

  /** They agree the other way, on all managed names and for all callers, exactly for such
      rules and resources. */
  lemma ListedIsReadableExactly(rules: seq<RBACRule>, managed: set<string>)
    ensures ReadCovered(rules, managed) <==>
            forall claims, name :: name in managed && Listed(rules, claims, name) ==>
              Granted(rules, claims, name, "read")
  {
    if ReadCovered(rules, managed) {
      forall claims, name | name in managed && Listed(rules, claims, name)
        ensures Granted(rules, claims, name, "read")
      {
        CoveredIsReadable(rules, managed, claims, name);
      }
    } else {
      var i, name :| 0 <= i < |rules| && name in managed && Covers(rules[i].resources, name)
                     && !ReadableInGroup(rules, rules[i].group, name);
      var claims := Some(Claims("", "", [rules[i].group]));
      assert RuleNames(rules[i], claims.value.groups, name);
      assert Listed(rules, claims, name) && !Granted(rules, claims, name, "read");
    }
  }

  lemma CoveredIsReadable(rules: seq<RBACRule>, managed: set<string>, claims: Option<Claims>, name: string)
    requires ReadCovered(rules, managed) && name in managed && Listed(rules, claims, name)
    ensures Granted(rules, claims, name, "read")
  {
    var i :| 0 <= i < |rules| && RuleNames(rules[i], claims.value.groups, name);
    assert ReadableInGroup(rules, rules[i].group, name);
    var j :| 0 <= j < |rules| && RuleGrants(rules[j], [rules[i].group], name, "read");
    assert RuleGrants(rules[j], claims.value.groups, name, "read");
  }

  /** The condition can fail: a rule that names a resource and permits nothing lists it to a
      group that may not read it. */
  lemma ListedCanBeUnreadable()
    ensures var rules, claims := [RBACRule("g", ["db"], [])], Some(Claims("u", "", ["g"]));
            Listed(rules, claims, "db") && !Granted(rules, claims, "db", "read") && !ReadCovered(rules, {"db"})
  {
    var rules, claims := [RBACRule("g", ["db"], [])], Some(Claims("u", "", ["g"]));
    assert RuleNames(rules[0], claims.value.groups, "db");
    ListedIsReadableExactly(rules, {"db"});
  }

  /** Rules that all grant "read" are one case, whatever is managed. */
  lemma AllReadIsCovered(rules: seq<RBACRule>, managed: set<string>)
    requires forall i :: 0 <= i < |rules| ==> "read" in rules[i].permissions
    ensures ReadCovered(rules, managed)
  {
    forall i, name | 0 <= i < |rules| && name in managed && Covers(rules[i].resources, name)
      ensures ReadableInGroup(rules, rules[i].group, name)
    {
      assert RuleGrants(rules[i], [rules[i].group], name, "read");
    }
  }

  /** More rules or more groups never take a permission or a listing away. */
  lemma MoreNeverTakesAway(rules: seq<RBACRule>, rules': seq<RBACRule>, claims: Claims, claims': Claims,
                           name: string, permission: string)
    requires forall rule :: rule in rules ==> rule in rules'
    requires forall g :: g in claims.groups ==> g in claims'.groups
    ensures Granted(rules, Some(claims), name, permission) ==> Granted(rules', Some(claims'), name, permission)
    ensures Listed(rules, Some(claims), name) ==> Listed(rules', Some(claims'), name)
  {
    if i :| 0 <= i < |rules| && RuleGrants(rules[i], claims.groups, name, permission) {
      assert rules[i] in rules';
      var j :| 0 <= j < |rules'| && rules'[j] == rules[i];
      assert RuleGrants(rules'[j], claims'.groups, name, permission);
    }
    if i :| 0 <= i < |rules| && RuleNames(rules[i], claims.groups, name) {
      assert rules[i] in rules';
      var j :| 0 <= j < |rules'| && rules'[j] == rules[i];
      assert RuleNames(rules'[j], claims'.groups, name);
    }
  }
}
