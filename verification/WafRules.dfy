/** A rule document becomes one AND rule per Boolean alternative, or nothing. */
module WafRules {
  import opened Options
  import opened WafConditions

  /** A test input of the source semantics. */
  datatype Input = Input(
    modality: string, method_: Option<string>, pathKey: Option<string>, path: Option<string>,
    scheme: Option<string>, authority: Option<string>, payload: Option<string>)

  datatype Semantics = Semantics(components: map<string, Component>, inputs: map<string, Input>)

  datatype Route =
    | Opaque(method_: string, pathKey: string)
    | Rendered(method_: string, path: string, scheme: Option<string>, authority: Option<string>)
    | OtherRoute

  datatype Binding = Binding(component: string, inputRefs: seq<string>)

  datatype Bound = Bound(alternative: string, components: seq<string>, route: Route, bindings: seq<Binding>)

  datatype Document = Document(rules: seq<Rule>, placement: Option<string>, coverage: seq<seq<string>>, routes: seq<Bound>)

  /** The approved route profile, case folding of header names, and the character
      tables of the shape gate. */
  datatype Profile = Profile(
    paths: map<string, string>, fold: string -> string, space: char -> bool, lower: char -> char)

  datatype AlternativeId = Unbound(index: nat) | RouteBound(id: string, variant: Option<nat>)

  /** `components` names the coverage alternative the AND rule stands for. */
  datatype TargetRule = TargetRule(alternative: AlternativeId, components: seq<string>, conditions: seq<Condition>)

  // ------------------------------------------------------------------ the rule table

  ghost predicate RulesFine(rules: seq<Rule>, sem: Semantics, fold: string -> string) {
    && (forall k :: 0 <= k < |rules| ==> Ruled(rules[k], sem, fold))
    && (forall j, k :: 0 <= j < k < |rules| ==> rules[j].component != rules[k].component && rules[j].id != rules[k].id)
  }

  predicate Ruled(r: Rule, sem: Semantics, fold: string -> string) {
    Given(r.component) && r.component.value in sem.components && RuleFine(r, sem.components[r.component.value].location, fold)
  }

  function KeyOf(r: Rule): CarrierKey
    requires r.name.Some? && r.component.Some?
  {
    CarrierKey(r.carrier, r.name.value, r.component.value)
  }

  ghost predicate RuledComponent(rules: seq<Rule>, c: string) {
    exists k :: 0 <= k < |rules| && rules[k].component == Some(c)
  }

  /** The table holds, for each component, the condition of its one rule. */
  ghost predicate TableOf(rules: seq<Rule>, sem: Semantics, fold: string -> string, table: map<string, Condition>)
    requires RulesFine(rules, sem, fold)
  {
    && (forall c :: c in table <==> RuledComponent(rules, c))
    && forall k :: 0 <= k < |rules| ==>
         rules[k].component.value in table
         && table[rules[k].component.value] == ConditionOf(rules[k], sem.components[rules[k].component.value].location, fold)
  }

  ghost predicate KeysOf(rules: seq<Rule>, keys: seq<CarrierKey>) {
    |keys| == |rules| && forall k :: 0 <= k < |rules| ==> rules[k].name.Some? && rules[k].component.Some? && keys[k] == KeyOf(rules[k])
  }

  /** The loop over the rules. */
  method CollectRules(rules: seq<Rule>, sem: Semantics, fold: string -> string)
    returns (out: Option<(map<string, Condition>, seq<CarrierKey>)>)
    ensures out.Some? <==> RulesFine(rules, sem, fold)
    ensures out.Some? ==> TableOf(rules, sem, fold, out.value.0) && KeysOf(rules, out.value.1)
  {
    hide RulesFine, TableOf, KeysOf, IdsOf, ConditionOf, RuleFine;
    var table: map<string, Condition> := map[];
    var keys: seq<CarrierKey> := [];
    var ids: set<string> := {};
    NoRules(sem, fold);
    for i := 0 to |rules|
      invariant RulesFine(rules[..i], sem, fold) && TableOf(rules[..i], sem, fold, table)
      invariant KeysOf(rules[..i], keys) && IdsOf(rules[..i], ids)
    {
      var r := rules[i];
      if r.component.None? || r.component.value == "" || r.component.value in table || r.component.value !in sem.components {
        NoTable(rules, i, sem, fold, table);
        return None;
      }
      var l := sem.components[r.component.value].location;
      if r.id.None? || r.name.None? || !RuleFine(r, l, fold) || r.id.value in ids || KeyOf(r) in keys {
        IdTaken(rules, i, sem, fold, keys, ids);
        return None;
      }
      assert rules[..i + 1] == rules[..i] + [r];
      OneMoreFine(rules[..i], r, sem, fold, table, ids);
      OneMoreEntry(rules[..i], r, sem, fold, table);
      KeysStep(rules, i, keys, ids);
      table := table[r.component.value := ConditionOf(r, l, fold)];
      keys := keys + [KeyOf(r)];
      ids := ids + {r.id.value};
    }
    assert rules[..|rules|] == rules;
    return Some((table, keys));
  }

  ghost predicate IdsOf(rules: seq<Rule>, ids: set<string>) {
    forall id :: id in ids <==> exists k :: 0 <= k < |rules| && rules[k].id == Some(id)
  }

  lemma NoRules(sem: Semantics, fold: string -> string)
    ensures RulesFine([], sem, fold) && TableOf([], sem, fold, map[]) && KeysOf([], []) && IdsOf([], {})
  {}

  lemma NoTable(rules: seq<Rule>, i: nat, sem: Semantics, fold: string -> string, table: map<string, Condition>)
    requires i < |rules| && RulesFine(rules[..i], sem, fold) && TableOf(rules[..i], sem, fold, table)
    requires !Given(rules[i].component) || rules[i].component.value !in sem.components || rules[i].component.value in table
    ensures !RulesFine(rules, sem, fold)
  {
    hide RuleFine, ConditionOf;
    if Given(rules[i].component) && rules[i].component.value in table {
      var k :| 0 <= k < i && rules[..i][k].component == rules[i].component;
    }
  }

  lemma IdTaken(rules: seq<Rule>, i: nat, sem: Semantics, fold: string -> string, keys: seq<CarrierKey>, ids: set<string>)
    requires i < |rules| && Given(rules[i].component) && rules[i].component.value in sem.components
    requires KeysOf(rules[..i], keys) && IdsOf(rules[..i], ids)
    requires rules[i].id.None? || rules[i].name.None?
             || !RuleFine(rules[i], sem.components[rules[i].component.value].location, fold)
             || rules[i].id.value in ids || KeyOf(rules[i]) in keys
    ensures !RulesFine(rules, sem, fold)
  {
    hide SemanticCarrier, SameCarrier, AnyField;
    if rules[i].name.Some? && KeyOf(rules[i]) in keys {
      var k :| 0 <= k < i && keys[k] == KeyOf(rules[i]);
      assert rules[..i][k] == rules[k];
    } else if rules[i].id.Some? && rules[i].id.value in ids {
      var k :| 0 <= k < i && rules[..i][k].id == rules[i].id;
    } else {
      assert !Ruled(rules[i], sem, fold);
    }
  }

  lemma KeysStep(rules: seq<Rule>, i: nat, keys: seq<CarrierKey>, ids: set<string>)
    requires i < |rules| && KeysOf(rules[..i], keys) && IdsOf(rules[..i], ids)
    requires rules[i].name.Some? && rules[i].component.Some? && rules[i].id.Some?
    ensures KeysOf(rules[..i + 1], keys + [KeyOf(rules[i])]) && IdsOf(rules[..i + 1], ids + {rules[i].id.value})
  {
    var done, all := rules[..i], rules[..i + 1];
    assert all == done + [rules[i]];
    forall id ensures id in ids + {rules[i].id.value} <==> exists k :: 0 <= k < |all| && all[k].id == Some(id) {
      assert all[i].id == rules[i].id;
      if id in ids {
        var k :| 0 <= k < |done| && done[k].id == Some(id);
        assert all[k].id == Some(id);
      }
    }
  }

  lemma OneMoreFine(done: seq<Rule>, r: Rule, sem: Semantics, fold: string -> string, table: map<string, Condition>, ids: set<string>)
    requires RulesFine(done, sem, fold) && TableOf(done, sem, fold, table) && IdsOf(done, ids)
    requires Ruled(r, sem, fold) && r.component.value !in table && r.id.Some? && r.id.value !in ids
    ensures RulesFine(done + [r], sem, fold)
  {
    hide RuleFine, ConditionOf;
    var all := done + [r];
    forall j, k | 0 <= j < k < |all| ensures all[j].component != all[k].component && all[j].id != all[k].id {
      if k == |done| { assert done[j].component.value in table && Ruled(done[j], sem, fold); }
    }
  }

  lemma OneMoreEntry(done: seq<Rule>, r: Rule, sem: Semantics, fold: string -> string, table: map<string, Condition>)
    requires RulesFine(done, sem, fold) && TableOf(done, sem, fold, table) && RulesFine(done + [r], sem, fold)
    requires Ruled(r, sem, fold) && r.component.value !in table
    ensures TableOf(done + [r], sem, fold, table[r.component.value := ConditionOf(r, sem.components[r.component.value].location, fold)])
  {
    var all, c0 := done + [r], r.component.value;
    var t' := table[c0 := ConditionOf(r, sem.components[c0].location, fold)];
    hide RuleFine, ConditionOf;
    forall c ensures RuledComponent(all, c) <==> RuledComponent(done, c) || c == c0 {
      assert all[|done|].component == Some(c0);
      if RuledComponent(done, c) {
        var k :| 0 <= k < |done| && done[k].component == Some(c);
        assert all[k].component == Some(c);
      }
    }
    forall k | 0 <= k < |all|
      ensures all[k].component.value in t'
      ensures t'[all[k].component.value] == ConditionOf(all[k], sem.components[all[k].component.value].location, fold)
    {
      if k < |done| { assert all[k] == done[k] && done[k].component.value in table; }
    }
  }
}
