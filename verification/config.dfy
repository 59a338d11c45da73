/** The stored configuration (`ConfigService`) and its updates. Loading and saving the JSON
    file is not modelled: every update is a function from the old configuration to the new
    one, and the caller saves it. */
module ConfigService {
  import opened Wrappers
  import opened Sequences

  /** One rules file that takes part in composition. */
  datatype CompositionRule = CompositionRule(name: string, path: string, priority: Option<int>, enabled: bool)

  /** `Config`: every field is optional in the stored file. */
  datatype Config = Config(disabledRules: Option<seq<string>>,
                           baseRulesPath: Option<string>,
                           augment: Option<bool>,
                           compositionRules: Option<seq<CompositionRule>>)

  /** The configuration when no file exists or it does not parse. */
  const EMPTY_CONFIG := Config(None, None, None, None)

  /** `getDisabledRules`: an unset list reads as empty. */
  function GetDisabledRules(c: Config): seq<string> {
    c.disabledRules.GetOr([])
  }

  /** `disableRule`: append the shortcode unless it is already listed; an already listed
      shortcode leaves the configuration untouched. */
  function DisableRule(c: Config, shortcode: string): (r: Config)
    ensures forall x :: x in GetDisabledRules(r) <==> x == shortcode || x in GetDisabledRules(c)
    ensures GetDisabledRules(c) <= GetDisabledRules(r)
    ensures multiset(GetDisabledRules(r))[shortcode]
         == if shortcode in GetDisabledRules(c) then multiset(GetDisabledRules(c))[shortcode] else 1
    ensures NoDuplicates(GetDisabledRules(c)) ==> NoDuplicates(GetDisabledRules(r))
    ensures r.baseRulesPath == c.baseRulesPath && r.augment == c.augment
    ensures r.compositionRules == c.compositionRules
    ensures shortcode in GetDisabledRules(c) ==> r == c
  {
    var disabled := GetDisabledRules(c);
    if shortcode in disabled then c
    else
      assert multiset(disabled)[shortcode] == 0;
      c.(disabledRules := Some(disabled + [shortcode]))
  }

  /** `enableRule`: drop every occurrence of the shortcode, keep the rest in order; the
      list is written back even when nothing was removed. */
  function EnableRule(c: Config, shortcode: string): (r: Config)
    ensures shortcode !in GetDisabledRules(r)
    ensures forall x :: x != shortcode ==> multiset(GetDisabledRules(r))[x] == multiset(GetDisabledRules(c))[x]
    ensures IsSubsequence(GetDisabledRules(r), GetDisabledRules(c))
    ensures r.disabledRules.Some?
    ensures r.baseRulesPath == c.baseRulesPath && r.augment == c.augment
    ensures r.compositionRules == c.compositionRules
  {
    c.(disabledRules := Some(RemoveAll(GetDisabledRules(c), shortcode)))
  }

  lemma {:induction false} RemoveAllSnoc(xs: seq<string>, x: string)
    ensures RemoveAll(xs + [x], x) == RemoveAll(xs, x)
    decreases |xs|
  {
    if |xs| == 0 {
      assert [x][1..] == [];
    } else {
      assert (xs + [x])[1..] == xs[1..] + [x];
      RemoveAllSnoc(xs[1..], x);
    }
  }

  /** Disabling and then enabling a shortcode leaves it enabled and every other shortcode as
      it was; when it was not disabled before, the list comes back exactly. */
  lemma DisableThenEnable(c: Config, shortcode: string)
    ensures shortcode !in GetDisabledRules(EnableRule(DisableRule(c, shortcode), shortcode))
    ensures forall x :: x != shortcode ==>
              (x in GetDisabledRules(EnableRule(DisableRule(c, shortcode), shortcode)) <==> x in GetDisabledRules(c))
    ensures shortcode !in GetDisabledRules(c) ==>
              GetDisabledRules(EnableRule(DisableRule(c, shortcode), shortcode)) == GetDisabledRules(c)
  {
    var disabled := GetDisabledRules(c);
    var r := GetDisabledRules(EnableRule(DisableRule(c, shortcode), shortcode));
    forall x | x != shortcode ensures x in r <==> x in disabled {
      assert x in r <==> multiset(r)[x] > 0;
      assert x in disabled <==> multiset(disabled)[x] > 0;
    }
    if shortcode !in disabled {
      RemoveAllSnoc(disabled, shortcode);
    }
  }

  /** `setBaseRulesPath` (`None` clears it). */
  function SetBaseRulesPath(c: Config, path: Option<string>): (r: Config)
    ensures r.baseRulesPath == path
    ensures r.disabledRules == c.disabledRules && r.augment == c.augment
    ensures r.compositionRules == c.compositionRules
  {
    c.(baseRulesPath := path)
  }

  /** `setAugmentPreference`. */
  function SetAugmentPreference(c: Config, augment: bool): (r: Config)
    ensures r.augment == Some(augment)
    ensures r.disabledRules == c.disabledRules && r.baseRulesPath == c.baseRulesPath
    ensures r.compositionRules == c.compositionRules
  {
    c.(augment := Some(augment))
  }

  // ---------------------------------------------------------------------------
  // composition rules
  // ---------------------------------------------------------------------------

  function GetCompositionRules(c: Config): seq<CompositionRule> {
    c.compositionRules.GetOr([])
  }

  /** Position of the first rule with this name. */
  function IndexOfName(rules: seq<CompositionRule>, name: string): (r: Option<nat>)
    ensures r.Some? ==> r.value < |rules| && rules[r.value].name == name
    ensures r.Some? ==> forall j :: 0 <= j < r.value ==> rules[j].name != name
    ensures r.None? ==> forall j :: 0 <= j < |rules| ==> rules[j].name != name
    decreases |rules|
  {
    if |rules| == 0 then None
    else if rules[0].name == name then Some(0)
    else
      match IndexOfName(rules[1..], name)
      case None => None
      case Some(k) => Some(k + 1)
  }

  /** Adding a rule whose name is already present replaces that rule where it stands;
      otherwise the rule is appended. */
  function UpsertRule(rules: seq<CompositionRule>, rule: CompositionRule): (r: seq<CompositionRule>)
    ensures rule in r
    ensures |r| == if exists j :: 0 <= j < |rules| && rules[j].name == rule.name then |rules| else |rules| + 1
    ensures forall j :: 0 <= j < |rules| && rules[j].name != rule.name ==> r[j] == rules[j]
    ensures forall j :: 0 <= j < |rules| && rules[j].name == rule.name ==>
              r[j] == rule || exists i :: 0 <= i < j && rules[i].name == rule.name
  {
    match IndexOfName(rules, rule.name)
    case None => rules + [rule]
    case Some(k) =>
      var r := rules[k := rule];
      assert rules[k].name == rule.name && r[k] == rule;
      assert exists j :: 0 <= j < |rules| && rules[j].name == rule.name;
      forall j | k < j < |rules| && rules[j].name == rule.name
        ensures exists i :: 0 <= i < j && rules[i].name == rule.name
      {
        assert 0 <= k < j && rules[k].name == rule.name;
      }
      r
  }

  /** `addCompositionRule`. */
  function AddCompositionRule(c: Config, rule: CompositionRule): (r: Config)
    ensures r.disabledRules == c.disabledRules && r.baseRulesPath == c.baseRulesPath
    ensures r.augment == c.augment
  {
    c.(compositionRules := Some(UpsertRule(GetCompositionRules(c), rule)))
  }

  /** The rules without those named `name`, the others in order. */
  function RemoveByName(rules: seq<CompositionRule>, name: string): (r: seq<CompositionRule>)
    ensures forall j :: 0 <= j < |r| ==> r[j].name != name
    ensures forall x :: x in r <==> x in rules && x.name != name
    ensures IsSubsequence(r, rules)
    decreases |rules|
  {
    if |rules| == 0 then []
    else
      var rest := RemoveByName(rules[1..], name);
      SubsequenceSkip(rest, rules);
      if rules[0].name == name then rest
      else
        assert ([rules[0]] + rest)[1..] == rest;
        [rules[0]] + rest
  }

  /** `removeCompositionRule`. */
  function RemoveCompositionRule(c: Config, name: string): (r: Config)
    ensures r.disabledRules == c.disabledRules && r.baseRulesPath == c.baseRulesPath
    ensures r.augment == c.augment
  {
    c.(compositionRules := Some(RemoveByName(GetCompositionRules(c), name)))
  }

  /** The sort key: a missing priority counts as 0. */
  function Priority(rule: CompositionRule): int {
    rule.priority.GetOr(0)
  }

  predicate ByPriority(rules: seq<CompositionRule>) {
    forall i, j :: 0 <= i < j < |rules| ==> Priority(rules[i]) <= Priority(rules[j])
  }

  /** Insert after every rule of lower or equal priority, so equal priorities keep their
      order. */
  function InsertByPriority(rule: CompositionRule, rules: seq<CompositionRule>): (r: seq<CompositionRule>)
    requires ByPriority(rules)
    ensures ByPriority(r)
    ensures multiset(r) == multiset(rules) + multiset{rule}
    decreases |rules|
  {
    if |rules| == 0 || Priority(rule) < Priority(rules[0]) then
      FirstIsLeast(rules);
      ConsByPriority(rule, rules);
      [rule] + rules
    else
      var rest := InsertByPriority(rule, rules[1..]);
      InsertBehindFirst(rule, rules, rest);
      [rules[0]] + rest
  }

  /** The first rule of an ordered list has the lowest priority. */
  lemma FirstIsLeast(rules: seq<CompositionRule>)
    requires ByPriority(rules)
    ensures forall x :: x in rules ==> Priority(rules[0]) <= Priority(x)
  {}

  /** A rule of no higher priority than any of an ordered list can go in front of it. */
  lemma ConsByPriority(rule: CompositionRule, rules: seq<CompositionRule>)
    requires ByPriority(rules)
    requires forall x :: x in rules ==> Priority(rule) <= Priority(x)
    ensures ByPriority([rule] + rules)
  {
    var r := [rule] + rules;
    forall a, b | 0 <= a < b < |r| ensures Priority(r[a]) <= Priority(r[b]) {
      assert r[b] == rules[b - 1];
      if a > 0 { assert r[a] == rules[a - 1]; } else { assert r[b] in rules; }
    }
  }

  /** The step of `InsertByPriority` that keeps the first rule in front. */
  lemma InsertBehindFirst(rule: CompositionRule, rules: seq<CompositionRule>, rest: seq<CompositionRule>)
    requires |rules| > 0 && ByPriority(rules) && Priority(rules[0]) <= Priority(rule)
    requires ByPriority(rest) && multiset(rest) == multiset(rules[1..]) + multiset{rule}
    ensures ByPriority([rules[0]] + rest)
    ensures multiset([rules[0]] + rest) == multiset(rules) + multiset{rule}
  {
    FirstIsLeast(rules);
    forall x | x in rest ensures Priority(rules[0]) <= Priority(x) {
      assert x in multiset(rest);
      if x != rule { assert x in multiset(rules[1..]); assert x in rules[1..]; }
    }
    ConsByPriority(rules[0], rest);
    assert rules == [rules[0]] + rules[1..];
  }

  function SortByPriority(rules: seq<CompositionRule>): (r: seq<CompositionRule>)
    ensures ByPriority(r)
    ensures multiset(r) == multiset(rules)
    decreases |rules|
  {
    if |rules| == 0 then []
    else
      var n := |rules| - 1;
      assert rules == rules[..n] + [rules[n]];
      InsertByPriority(rules[n], SortByPriority(rules[..n]))
  }

  function EnabledOnly(rules: seq<CompositionRule>): (r: seq<CompositionRule>)
    ensures forall x :: x in r ==> x.enabled
    ensures forall x: CompositionRule :: x.enabled ==> multiset(r)[x] == multiset(rules)[x]
    ensures forall x: CompositionRule :: !x.enabled ==> multiset(r)[x] == 0
    decreases |rules|
  {
    if |rules| == 0 then []
    else
      var rest := EnabledOnly(rules[1..]);
      assert rules == [rules[0]] + rules[1..];
      if rules[0].enabled then [rules[0]] + rest else rest
  }

  /** `getEnabledCompositionRules`: the enabled rules, each as often as it is stored, in
      ascending priority. */
  function GetEnabledCompositionRules(c: Config): (r: seq<CompositionRule>)
    ensures ByPriority(r)
    ensures forall x :: x in r ==> x.enabled
    ensures forall x: CompositionRule :: x.enabled ==> multiset(r)[x] == multiset(GetCompositionRules(c))[x]
  {
    var r := SortByPriority(EnabledOnly(GetCompositionRules(c)));
    assert forall x :: x in r ==> x in multiset(EnabledOnly(GetCompositionRules(c)));
    r
  }

  /** A rule of the highest priority so far goes last. */
  lemma {:induction false} InsertAtEnd(rule: CompositionRule, rules: seq<CompositionRule>)
    requires ByPriority(rules)
    requires forall k :: 0 <= k < |rules| ==> Priority(rules[k]) <= Priority(rule)
    ensures InsertByPriority(rule, rules) == rules + [rule]
    decreases |rules|
  {
    if |rules| > 0 {
      InsertAtEnd(rule, rules[1..]);
      assert rules == [rules[0]] + rules[1..];
    }
  }

  /** Sorting is stable: rules already in priority order stay as they are. */
  lemma {:induction false} SortSorted(rules: seq<CompositionRule>)
    requires ByPriority(rules)
    ensures SortByPriority(rules) == rules
    decreases |rules|
  {
    if |rules| > 0 {
      var n := |rules| - 1;
      SortSorted(rules[..n]);
      InsertAtEnd(rules[n], rules[..n]);
      assert rules[..n] + [rules[n]] == rules;
    }
  }

  lemma {:induction false} EnabledOnlyAll(rules: seq<CompositionRule>)
    requires forall k :: 0 <= k < |rules| ==> rules[k].enabled
    ensures EnabledOnly(rules) == rules
    decreases |rules|
  {
    if |rules| > 0 {
      assert forall k :: 0 <= k < |rules[1..]| ==> rules[1..][k] == rules[k + 1];
      EnabledOnlyAll(rules[1..]);
      assert rules[0].enabled;
      assert rules == [rules[0]] + rules[1..];
    }
  }

  /** Enabled rules stored in priority order come back exactly as stored. */
  lemma EnabledInOrder(c: Config)
    requires forall k :: 0 <= k < |GetCompositionRules(c)| ==> GetCompositionRules(c)[k].enabled
    requires ByPriority(GetCompositionRules(c))
    ensures GetEnabledCompositionRules(c) == GetCompositionRules(c)
  {
    EnabledOnlyAll(GetCompositionRules(c));
    SortSorted(GetCompositionRules(c));
  }

  /** Adding a rule under a new name appends it. */
  lemma UpsertNew(rules: seq<CompositionRule>, rule: CompositionRule)
    requires forall j :: 0 <= j < |rules| ==> rules[j].name != rule.name
    ensures UpsertRule(rules, rule) == rules + [rule]
  {
    assert IndexOfName(rules, rule.name).None?;
  }
}
