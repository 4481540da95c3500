/** Whole rule and carrier documents, and what the emitted rules mean. */
module WafDocuments {
  import opened Options
  import opened WafConditions
  import opened WafRules
  import opened WafRoutes
  import opened WafGate

  predicate Independent(placement: Option<string>) { placement == None || placement == Some("") }

  predicate KnownPlacement(placement: Option<string>) { Independent(placement) || placement == Some("route-bound-v1") }

  // --------------------------------------------------------------- what is accepted

  ghost predicate CoverageFine(coverage: seq<seq<string>>, rules: seq<Rule>) {
    && (forall i :: 0 <= i < |coverage| ==> coverage[i] != [] && forall c :: c in coverage[i] ==> RuledComponent(rules, c))
    && forall i, j :: 0 <= i < j < |coverage| ==> coverage[i] != coverage[j]
  }

  ghost predicate RoutesFine(doc: Document, sem: Semantics, profile: Profile) {
    && (forall i :: 0 <= i < |doc.routes| ==> BoundFine(doc.routes[i], doc.coverage, doc.rules, sem, profile))
    && (forall i, j :: 0 <= i < j < |doc.routes| ==> doc.routes[i].alternative != doc.routes[j].alternative)
    && forall a :: a in doc.coverage ==> exists i :: 0 <= i < |doc.routes| && doc.routes[i].components == a
  }

  /** A document that can be expressed without loss. */
  ghost predicate Expressible(doc: Document, sem: Semantics, profile: Profile) {
    && doc.rules != [] && KnownPlacement(doc.placement) && doc.coverage != []
    && RulesFine(doc.rules, sem, profile.fold)
    && if Independent(doc.placement) then CoverageFine(doc.coverage, doc.rules)
       else doc.routes != [] && RoutesFine(doc, sem, profile)
  }

  // ---------------------------------------------------------------- what is meant

  /** Some rule asks the test `t` of component `c`. */
  ghost predicate AsksOf(rules: seq<Rule>, sem: Semantics, fold: string -> string, c: string, t: Test) {
    exists k :: 0 <= k < |rules| && rules[k].component == Some(c) && c in sem.components
                && RuleTest(rules[k], sem.components[c].location, fold) == Some(t)
  }

  /** The tests of the components in an alternative; on a route, of those that are
      not on the path. */
  ghost predicate Conjunction(rules: seq<Rule>, sem: Semantics, fold: string -> string, comps: seq<string>, routed: bool, tests: set<Test>) {
    forall t :: t in tests <==> AskedBySome(rules, sem, fold, comps, routed, t)
  }

  ghost predicate AskedBySome(rules: seq<Rule>, sem: Semantics, fold: string -> string, comps: seq<string>, routed: bool, t: Test) {
    exists c :: c in comps && Counts(sem, routed, c) && AsksOf(rules, sem, fold, c, t)
  }

  /** The conjunctions whose disjunction the document denotes. */
  ghost predicate IsAlternative(doc: Document, sem: Semantics, profile: Profile, comps: seq<string>, tests: set<Test>) {
    && comps in doc.coverage
    && if Independent(doc.placement) then Conjunction(doc.rules, sem, profile.fold, comps, false, tests)
       else exists i, path, rest :: 0 <= i < |doc.routes| && IsRouted(doc, sem, profile, doc.routes[i], comps, path, rest, tests)
  }

  ghost predicate IsRouted(doc: Document, sem: Semantics, profile: Profile, b: Bound, comps: seq<string>, path: string, rest: set<Test>, tests: set<Test>) {
    && b.components == comps
    && Conjunction(doc.rules, sem, profile.fold, comps, true, rest)
    && exists name :: RouteAsks(sem, profile, b, name, path) && tests == rest + {PathIs(path), MethodIs(name)}
  }

  /** The tests of an emitted AND rule. */
  function TestsOf(conditions: seq<Condition>, fold: string -> string): set<Test> {
    set c | c in conditions && Reading(c, fold).Some? :: Reading(c, fold).value
  }

  predicate Readable(conditions: seq<Condition>, fold: string -> string) {
    forall c :: c in conditions ==> Reading(c, fold).Some?
  }

  /** Every emitted rule is one of the document's alternatives. */
  ghost predicate OnlyAlternatives(doc: Document, sem: Semantics, profile: Profile, rules: seq<TargetRule>) {
    forall k :: 0 <= k < |rules| ==>
      Readable(rules[k].conditions, profile.fold)
      && IsAlternative(doc, sem, profile, rules[k].components, TestsOf(rules[k].conditions, profile.fold))
  }

  ghost predicate Stands(rules: seq<TargetRule>, comps: seq<string>, tests: set<Test>, fold: string -> string) {
    exists k :: 0 <= k < |rules| && rules[k].components == comps && TestsOf(rules[k].conditions, fold) == tests
  }

  /** Every one of the document's alternatives is an emitted rule. */
  ghost predicate AllAlternatives(doc: Document, sem: Semantics, profile: Profile, rules: seq<TargetRule>) {
    forall comps, tests :: IsAlternative(doc, sem, profile, comps, tests) ==> Stands(rules, comps, tests, profile.fold)
  }

  ghost predicate Covered(coverage: seq<seq<string>>, rules: seq<TargetRule>) {
    forall a :: a in coverage ==> exists k :: 0 <= k < |rules| && rules[k].components == a
  }

  /** The component's own condition is emitted: it is not replaced by the route. */
  predicate Counts(sem: Semantics, routed: bool, c: string) { !(routed && IsPathComponent(sem, c)) }

  ghost predicate RightComponents(sem: Semantics, comps: seq<string>, routed: bool) {
    forall c :: c in comps && Counts(sem, routed, c) ==> c in sem.components && RightPlace(sem.components[c].location)
  }

  /** Every component that some alternative uses is inspected where it is. */
  ghost predicate RightlyPlaced(doc: Document, sem: Semantics) {
    forall a :: a in doc.coverage ==> RightComponents(sem, a, !Independent(doc.placement))
  }

  ghost predicate PresentableComponent(rules: seq<Rule>, sem: Semantics, profile: Profile, c: string) {
    forall k :: 0 <= k < |rules| && rules[k].component == Some(c) && c in sem.components ==>
      rules[k].name.Some? && Presentable(rules[k], sem.components[c].location, profile.space, profile.lower)
  }

  ghost predicate PresentableAll(rules: seq<Rule>, sem: Semantics, profile: Profile, comps: seq<string>, routed: bool) {
    forall c :: c in comps && Counts(sem, routed, c) ==> PresentableComponent(rules, sem, profile, c)
  }

  /** Every rule that some alternative uses is presentable to the shape gate. */
  ghost predicate Gated(doc: Document, sem: Semantics, profile: Profile) {
    forall a :: a in doc.coverage ==> PresentableAll(doc.rules, sem, profile, a, !Independent(doc.placement))
  }

  ghost predicate AllPass(rules: seq<TargetRule>, profile: Profile) {
    forall k :: 0 <= k < |rules| ==> RulePasses(rules[k], profile)
  }

  /** A place that emitted conditions can inspect. */
  predicate Emittable(t: Test) {
    t.Matches? ==>
      && !t.place.FormField? && !t.place.PartName? && !t.place.XmlNode? && !t.place.OtherField? && t.place != JsonField("*")
      && (t.place.Query? || t.place.Header? || t.place.Cookie? ==> t.place.occurrence == 0)
  }

  ghost predicate AllEmittable(tests: set<Test>) { forall t :: t in tests ==> Emittable(t) }

  /** What is emitted for a conjunction: it keeps every test that can be emitted,
      and is the conjunction where all of them can. */
  ghost predicate Mirrors(emitted: set<Test>, source: set<Test>) {
    && AllEmittable(emitted) && (forall t :: t in source && Emittable(t) ==> t in emitted)
    && (AllEmittable(source) ==> emitted == source)
  }

  ghost predicate MirrorsSome(doc: Document, sem: Semantics, profile: Profile, r: TargetRule) {
    && Readable(r.conditions, profile.fold)
    && exists tests :: IsAlternative(doc, sem, profile, r.components, tests) && Mirrors(TestsOf(r.conditions, profile.fold), tests)
  }

  ghost predicate HasMirror(rules: seq<TargetRule>, comps: seq<string>, tests: set<Test>, fold: string -> string) {
    exists k :: 0 <= k < |rules| && rules[k].components == comps && Mirrors(TestsOf(rules[k].conditions, fold), tests)
  }

  /** Every emitted rule mirrors an alternative over its components, and every
      alternative has such a rule. */
  ghost predicate Mirrored(doc: Document, sem: Semantics, profile: Profile, rules: seq<TargetRule>) {
    && (forall k :: 0 <= k < |rules| ==> MirrorsSome(doc, sem, profile, rules[k]))
    && forall comps, tests :: IsAlternative(doc, sem, profile, comps, tests) ==> HasMirror(rules, comps, tests, profile.fold)
  }

  // -------------------------------------------------------- conditions of a conjunction

  ghost predicate ConditionsOf(sem: Semantics, table: map<string, Condition>, comps: seq<string>, routed: bool, conditions: seq<Condition>) {
    forall x :: x in conditions <==> exists c :: c in comps && Counts(sem, routed, c) && c in table && table[c] == x
  }

  /** The rule of a component in the table. */
  lemma RuleOf(rules: seq<Rule>, sem: Semantics, fold: string -> string, table: map<string, Condition>, c: string) returns (k: nat)
    requires RulesFine(rules, sem, fold) && TableOf(rules, sem, fold, table) && c in table
    ensures k < |rules| && rules[k].component == Some(c) && Ruled(rules[k], sem, fold) && c in sem.components
    ensures table[c] == ConditionOf(rules[k], sem.components[c].location, fold)
    ensures forall j :: 0 <= j < |rules| && rules[j].component == Some(c) ==> j == k
  {
    hide ConditionOf, RuleFine;
    k :| 0 <= k < |rules| && rules[k].component == Some(c);
    assert Ruled(rules[k], sem, fold);
  }

  /** A component's condition in the table makes an emittable test, and asks what
      its rule asks where it inspects the right place. */
  lemma TableReads(rules: seq<Rule>, sem: Semantics, fold: string -> string, table: map<string, Condition>, c: string)
    requires RulesFine(rules, sem, fold) && TableOf(rules, sem, fold, table) && KeepsStar(fold) && c in table
    ensures Reading(table[c], fold).Some? && Emittable(Reading(table[c], fold).value) && c in sem.components
    ensures RightPlace(sem.components[c].location) ==> forall t :: AsksOf(rules, sem, fold, c, t) <==> Reading(table[c], fold) == Some(t)
    ensures exists t :: AsksOf(rules, sem, fold, c, t)
    ensures forall t :: AsksOf(rules, sem, fold, c, t) ==> (Emittable(t) <==> RightPlace(sem.components[c].location))
  {
    var k := RuleOf(rules, sem, fold, table, c);
    var l := sem.components[c].location;
    ConditionMeaning(rules[k], l, fold);
    ConditionEmittable(rules[k], l, fold);
    RightTest(rules[k], l, fold);
    hide *;
    AsksOnce(rules, sem, fold, c, k);
  }

  lemma AsksOnce(rules: seq<Rule>, sem: Semantics, fold: string -> string, c: string, k: nat)
    requires k < |rules| && rules[k].component == Some(c) && c in sem.components
    requires forall j :: 0 <= j < |rules| && rules[j].component == Some(c) ==> j == k
    ensures forall t :: AsksOf(rules, sem, fold, c, t) <==> RuleTest(rules[k], sem.components[c].location, fold) == Some(t)
  {
    hide RuleTest;
  }

  lemma ConditionEmittable(r: Rule, l: Location, fold: string -> string)
    requires RuleFine(r, l, fold)
    ensures var t := Reading(ConditionOf(r, l, fold), fold); t.Some? ==> Emittable(t.value)
  {
    match l.kind {
      case "http-query" =>
      case "http-header" =>
      case "http-cookie" =>
      case "http-body-structured" =>
      case "http-body-raw" =>
      case "http-path" =>
      case "http-method" =>
    }
  }

  /** A rule's test can be emitted exactly where its component is rightly placed. */
  lemma RightTest(r: Rule, l: Location, fold: string -> string)
    requires RuleTest(r, l, fold).Some?
    ensures Emittable(RuleTest(r, l, fold).value) <==> RightPlace(l)
  {}

  /** The conditions of an alternative's components mirror its conjunction, and
      are it where the components are inspected in the right places. */
  lemma ConditionsMean(rules: seq<Rule>, sem: Semantics, fold: string -> string, table: map<string, Condition>,
                       comps: seq<string>, routed: bool, conditions: seq<Condition>, source: set<Test>)
    requires RulesFine(rules, sem, fold) && TableOf(rules, sem, fold, table) && KeepsStar(fold)
    requires (forall c :: c in comps ==> c in table) && ConditionsOf(sem, table, comps, routed, conditions)
    requires Conjunction(rules, sem, fold, comps, routed, source)
    ensures Readable(conditions, fold) && Mirrors(TestsOf(conditions, fold), source)
    ensures RightComponents(sem, comps, routed) ==> TestsOf(conditions, fold) == source
  {
    hide RulesFine, TableOf, KeepsStar, AsksOf, Reading, RightPlace, Emittable;
    forall c | c in table
      ensures Reading(table[c], fold).Some? && Emittable(Reading(table[c], fold).value) && c in sem.components
      ensures RightPlace(sem.components[c].location) ==> forall t :: AsksOf(rules, sem, fold, c, t) <==> Reading(table[c], fold) == Some(t)
      ensures forall t :: AsksOf(rules, sem, fold, c, t) ==> (Emittable(t) <==> RightPlace(sem.components[c].location))
      ensures exists t :: AsksOf(rules, sem, fold, c, t)
    {
      TableReads(rules, sem, fold, table, c);
    }
    forall t | t in source && Emittable(t) ensures t in TestsOf(conditions, fold) {
      var c :| c in comps && Counts(sem, routed, c) && AsksOf(rules, sem, fold, c, t);
      assert table[c] in conditions;
    }
    if AllEmittable(source) || RightComponents(sem, comps, routed) {
      forall t | t in TestsOf(conditions, fold) ensures t in source {
        var x :| x in conditions && Reading(x, fold) == Some(t);
        var c :| c in comps && Counts(sem, routed, c) && c in table && table[c] == x;
        var t' :| AsksOf(rules, sem, fold, c, t');
        assert AskedBySome(rules, sem, fold, comps, routed, t');
        assert RightPlace(sem.components[c].location);
        assert AsksOf(rules, sem, fold, c, t);
      }
    }
    if RightComponents(sem, comps, routed) {
      forall t | t in source ensures Emittable(t) {
        var c :| c in comps && Counts(sem, routed, c) && AsksOf(rules, sem, fold, c, t);
      }
    }
  }

  /** The gate passes the conditions of an alternative's components exactly when
      their rules are presentable. */
  lemma ConditionsPass(rules: seq<Rule>, sem: Semantics, profile: Profile, table: map<string, Condition>,
                       comps: seq<string>, routed: bool, conditions: seq<Condition>)
    requires RulesFine(rules, sem, profile.fold) && TableOf(rules, sem, profile.fold, table)
    requires (forall c :: c in comps ==> c in table) && ConditionsOf(sem, table, comps, routed, conditions)
    ensures (forall x :: x in conditions ==> ConditionPasses(x, profile.space, profile.lower))
            <==> PresentableAll(rules, sem, profile, comps, routed)
  {
    hide RulesFine, TableOf, ConditionPasses, PresentableComponent, IsPathComponent;
    forall c | c in table
      ensures ConditionPasses(table[c], profile.space, profile.lower) <==> PresentableComponent(rules, sem, profile, c)
    {
      ComponentPasses(rules, sem, profile, table, c);
    }
    if forall x :: x in conditions ==> ConditionPasses(x, profile.space, profile.lower) {
      forall c | c in comps && Counts(sem, routed, c) ensures PresentableComponent(rules, sem, profile, c) {
        assert table[c] in conditions;
      }
    }
    if PresentableAll(rules, sem, profile, comps, routed) {
      forall x | x in conditions ensures ConditionPasses(x, profile.space, profile.lower) {
        var c :| c in comps && Counts(sem, routed, c) && c in table && table[c] == x;
      }
    }
  }

  lemma ComponentPasses(rules: seq<Rule>, sem: Semantics, profile: Profile, table: map<string, Condition>, c: string)
    requires RulesFine(rules, sem, profile.fold) && TableOf(rules, sem, profile.fold, table) && c in table
    ensures ConditionPasses(table[c], profile.space, profile.lower) <==> PresentableComponent(rules, sem, profile, c)
  {
    var k := RuleOf(rules, sem, profile.fold, table, c);
    hide RulesFine, TableOf, ConditionOf, ConditionPasses, Presentable;
    GateOfCondition(rules[k], sem.components[c].location, profile.fold, profile.space, profile.lower);
  }

  lemma {:induction false} OffPathIs(sem: Semantics, table: map<string, Condition>, comps: seq<string>)
    ensures ConditionsOf(sem, table, comps, true, OffPath(sem, table, comps))
  {
    if comps != [] {
      var before, last := comps[..|comps| - 1], comps[|comps| - 1];
      OffPathIs(sem, table, before);
      assert comps == before + [last];
      forall c ensures c in comps <==> c in before || c == last {}
    }
  }

  /** A bound alternative's conditions mirror its conjunction and ask its route. */
  lemma BoundMeans(doc: Document, sem: Semantics, profile: Profile, table: map<string, Condition>, b: Bound, path: string, rest: set<Test>)
    requires RulesFine(doc.rules, sem, profile.fold) && TableOf(doc.rules, sem, profile.fold, table)
    requires KeepsStar(profile.fold) && forall c :: c in b.components ==> c in table
    requires Conjunction(doc.rules, sem, profile.fold, b.components, true, rest)
    ensures var tests, asked := TestsOf(BoundConditions(sem, table, b, path), profile.fold), rest + {PathIs(path), MethodIs(MethodName(b.route))};
            && Readable(BoundConditions(sem, table, b, path), profile.fold) && Mirrors(tests, asked)
            && (RightComponents(sem, b.components, true) ==> tests == asked)
  {
    hide RulesFine, TableOf, KeepsStar, Conjunction, RightComponents;
    var off := OffPath(sem, table, b.components);
    OffPathIs(sem, table, b.components);
    ConditionsMean(doc.rules, sem, profile.fold, table, b.components, true, off, rest);
    RouteTests(off, path, MethodName(b.route), profile.fold);
    MirrorsMore(TestsOf(off, profile.fold), rest, {PathIs(path), MethodIs(MethodName(b.route))});
  }

  lemma MirrorsMore(emitted: set<Test>, source: set<Test>, more: set<Test>)
    requires Mirrors(emitted, source) && AllEmittable(more)
    ensures Mirrors(emitted + more, source + more)
  {
    hide Emittable;
    if AllEmittable(source + more) {
      forall t | t in source ensures Emittable(t) { assert t in source + more; }
    }
  }

  /** The gate passes a bound alternative exactly when its rules are presentable:
      the path and the method are never empty. */
  lemma BoundPasses(doc: Document, sem: Semantics, profile: Profile, table: map<string, Condition>, b: Bound, path: string)
    requires RulesFine(doc.rules, sem, profile.fold) && TableOf(doc.rules, sem, profile.fold, table)
    requires (forall c :: c in b.components ==> c in table) && RoutePath(sem, profile, b, path)
    ensures (forall x :: x in BoundConditions(sem, table, b, path) ==> ConditionPasses(x, profile.space, profile.lower))
            <==> PresentableAll(doc.rules, sem, profile, b.components, true)
  {
    var off := OffPath(sem, table, b.components);
    OffPathIs(sem, table, b.components);
    ConditionsPass(doc.rules, sem, profile, table, b.components, true, off);
    var p, m := ExactPath(path), ExactMethod(MethodName(b.route));
    OneMethod(sem, profile, b, path);
    RouteIs(sem, profile, b, MethodName(b.route), path);
    assert ConditionPasses(p, profile.space, profile.lower) && ConditionPasses(m, profile.space, profile.lower);
    hide *;
    FirstTwo(p, m, off, profile.space, profile.lower);
    assert BoundConditions(sem, table, b, path) == [p, m] + off by { BoundIs(sem, table, b, path); }
  }

  lemma BoundIs(sem: Semantics, table: map<string, Condition>, b: Bound, path: string)
    ensures BoundConditions(sem, table, b, path) == [ExactPath(path), ExactMethod(MethodName(b.route))] + OffPath(sem, table, b.components)
  {}

  lemma FirstTwo(p: Condition, m: Condition, off: seq<Condition>, space: char -> bool, lower: char -> char)
    requires ConditionPasses(p, space, lower) && ConditionPasses(m, space, lower)
    ensures (forall x :: x in [p, m] + off ==> ConditionPasses(x, space, lower)) <==> forall x :: x in off ==> ConditionPasses(x, space, lower)
  {
    hide ConditionPasses;
    forall x ensures x in [p, m] + off <==> x == p || x == m || x in off {}
  }

  lemma RouteTests(off: seq<Condition>, path: string, name: string, fold: string -> string)
    requires Readable(off, fold)
    ensures var all := [ExactPath(path), ExactMethod(name)] + off;
            Readable(all, fold) && TestsOf(all, fold) == TestsOf(off, fold) + {PathIs(path), MethodIs(name)}
  {
    var p, m := ExactPath(path), ExactMethod(name);
    assert Reading(p, fold) == Some(PathIs(path)) && Reading(m, fold) == Some(MethodIs(name));
    hide Reading, ExactPath, ExactMethod;
    var all := [p, m] + off;
    forall c ensures c in all <==> c == p || c == m || c in off {}
  }

  /** The tests of an alternative's components. */
  ghost function SourceTests(rules: seq<Rule>, sem: Semantics, fold: string -> string, comps: seq<string>, routed: bool): (tests: set<Test>)
    ensures Conjunction(rules, sem, fold, comps, routed, tests)
  {
    set c, k | c in comps && 0 <= k < |rules| && Counts(sem, routed, c) && Asked(rules[k], sem, fold, c).Some? :: Asked(rules[k], sem, fold, c).value
  }

  function Asked(r: Rule, sem: Semantics, fold: string -> string, c: string): Option<Test> {
    if r.component == Some(c) && c in sem.components then RuleTest(r, sem.components[c].location, fold) else None
  }

  // ------------------------------------------------------------ independent alternatives

  function Looked(table: map<string, Condition>, comps: seq<string>): seq<Condition>
    requires forall c :: c in comps ==> c in table
  {
    seq(|comps|, i requires 0 <= i < |comps| => table[comps[i]])
  }

  lemma LookedIs(sem: Semantics, table: map<string, Condition>, comps: seq<string>)
    requires forall c :: c in comps ==> c in table
    ensures ConditionsOf(sem, table, comps, false, Looked(table, comps))
  {
    var all := Looked(table, comps);
    forall x ensures x in all <==> exists c :: c in comps && c in table && table[c] == x {
      if x in all {
        var i :| 0 <= i < |all| && all[i] == x;
        assert comps[i] in comps && table[comps[i]] == x;
      }
      if exists c :: c in comps && c in table && table[c] == x {
        var c :| c in comps && c in table && table[c] == x;
        var i :| 0 <= i < |comps| && comps[i] == c;
        assert all[i] == x;
      }
    }
  }

  ghost predicate EmittedEach(coverage: seq<seq<string>>, table: map<string, Condition>, rules: seq<TargetRule>) {
    && |rules| == |coverage|
    && forall i :: 0 <= i < |rules| ==>
         && rules[i].alternative == Unbound(i) && rules[i].components == coverage[i]
         && (forall c :: c in coverage[i] ==> c in table)
         && rules[i].conditions == Looked(table, coverage[i])
  }

  method TranslateIndependent(coverage: seq<seq<string>>, table: map<string, Condition>, ghost rules: seq<Rule>) returns (out: Option<seq<TargetRule>>)
    requires forall c :: c in table <==> RuledComponent(rules, c)
    ensures out.Some? <==> CoverageFine(coverage, rules)
    ensures out.Some? ==> EmittedEach(coverage, table, out.value)
  {
    hide RuledComponent;
    var made := [];
    for i := 0 to |coverage|
      invariant EmittedEach(coverage[..i], table, made)
      invariant forall k :: 0 <= k < i ==> coverage[k] != [] && forall c :: c in coverage[k] ==> RuledComponent(rules, c)
      invariant forall j, k :: 0 <= j < k < i ==> coverage[j] != coverage[k]
    {
      var comps := coverage[i];
      if comps == [] || comps in coverage[..i] { return None; }
      if exists c :: c in comps && c !in table { return None; }
      made := made + [TargetRule(Unbound(i), comps, Looked(table, comps))];
      assert coverage[..i + 1] == coverage[..i] + [comps];
    }
    assert coverage[..|coverage|] == coverage;
    return Some(made);
  }

  lemma IndependentMeans(doc: Document, sem: Semantics, profile: Profile, table: map<string, Condition>, rules: seq<TargetRule>)
    requires Independent(doc.placement) && KeepsStar(profile.fold)
    requires RulesFine(doc.rules, sem, profile.fold) && TableOf(doc.rules, sem, profile.fold, table)
    requires EmittedEach(doc.coverage, table, rules)
    ensures Mirrored(doc, sem, profile, rules)
  {
    hide RulesFine, TableOf, KeepsStar, Conjunction, Readable, TestsOf, ConditionsOf, Mirrors, RightComponents;
    forall k, tests | 0 <= k < |rules| && Conjunction(doc.rules, sem, profile.fold, doc.coverage[k], false, tests)
      ensures Readable(rules[k].conditions, profile.fold) && Mirrors(TestsOf(rules[k].conditions, profile.fold), tests)
    {
      LookedIs(sem, table, doc.coverage[k]);
      ConditionsMean(doc.rules, sem, profile.fold, table, doc.coverage[k], false, rules[k].conditions, tests);
    }
    forall k | 0 <= k < |rules| ensures MirrorsSome(doc, sem, profile, rules[k]) {
      var tests := SourceTests(doc.rules, sem, profile.fold, doc.coverage[k], false);
      assert IsAlternative(doc, sem, profile, rules[k].components, tests);
    }
    forall comps, tests | IsAlternative(doc, sem, profile, comps, tests) ensures HasMirror(rules, comps, tests, profile.fold) {
      var k :| 0 <= k < |doc.coverage| && doc.coverage[k] == comps;
      assert rules[k].components == comps;
    }
  }

  lemma IndependentPasses(doc: Document, sem: Semantics, profile: Profile, table: map<string, Condition>, rules: seq<TargetRule>)
    requires Independent(doc.placement) && RulesFine(doc.rules, sem, profile.fold) && TableOf(doc.rules, sem, profile.fold, table)
    requires EmittedEach(doc.coverage, table, rules) && forall k :: 0 <= k < |doc.coverage| ==> doc.coverage[k] != []
    ensures AllPass(rules, profile) <==> Gated(doc, sem, profile)
  {
    hide RulesFine, TableOf, ConditionsOf, PresentableAll, ConditionPasses;
    forall k | 0 <= k < |rules| ensures RulePasses(rules[k], profile) <==> PresentableAll(doc.rules, sem, profile, doc.coverage[k], false) {
      LookedIs(sem, table, doc.coverage[k]);
      ConditionsPass(doc.rules, sem, profile, table, doc.coverage[k], false, rules[k].conditions);
      PassesEach(rules[k], profile);
    }
    if AllPass(rules, profile) {
      forall a | a in doc.coverage ensures PresentableAll(doc.rules, sem, profile, a, false) {
        var k :| 0 <= k < |doc.coverage| && doc.coverage[k] == a;
        assert RulePasses(rules[k], profile);
      }
    }
    if Gated(doc, sem, profile) {
      forall k | 0 <= k < |rules| ensures RulePasses(rules[k], profile) { assert doc.coverage[k] in doc.coverage; }
    }
  }

  lemma PassesEach(r: TargetRule, profile: Profile)
    ensures RulePasses(r, profile) <==>
            r.conditions != [] && forall x :: x in r.conditions ==> ConditionPasses(x, profile.space, profile.lower)
  {
    hide ConditionPasses;
    if r.conditions != [] && forall x :: x in r.conditions ==> ConditionPasses(x, profile.space, profile.lower) {
      forall k | 0 <= k < |r.conditions| ensures ConditionPasses(r.conditions[k], profile.space, profile.lower) {
        assert r.conditions[k] in r.conditions;
      }
    }
  }

  // -------------------------------------------------------------- route-bound documents

  /** The rules emitted for these bound alternatives are theirs and all of theirs. */
  ghost predicate EmittedFrom(sem: Semantics, profile: Profile, table: map<string, Condition>, routes: seq<Bound>, rules: seq<TargetRule>) {
    && (forall k :: 0 <= k < |rules| ==> FromSomeBound(sem, profile, table, routes, rules[k]))
    && (forall i, path :: 0 <= i < |routes| && RoutePath(sem, profile, routes[i], path) ==>
         Emits(rules, routes[i].components, BoundConditions(sem, table, routes[i], path)))
    && (forall i :: 0 <= i < |routes| ==> Stood(rules, routes[i].components))
  }

  ghost predicate FromSomeBound(sem: Semantics, profile: Profile, table: map<string, Condition>, routes: seq<Bound>, r: TargetRule) {
    exists i :: 0 <= i < |routes| && EmittedFor(sem, profile, table, routes[i], r)
  }

  ghost predicate Stood(rules: seq<TargetRule>, comps: seq<string>) {
    exists k :: 0 <= k < |rules| && rules[k].components == comps
  }

  lemma EmittedStep(sem: Semantics, profile: Profile, table: map<string, Condition>, routes: seq<Bound>, rules: seq<TargetRule>, b: Bound, more: seq<TargetRule>)
    requires EmittedFrom(sem, profile, table, routes, rules)
    requires |more| > 0 && forall k :: 0 <= k < |more| ==> EmittedFor(sem, profile, table, b, more[k])
    requires forall path :: RoutePath(sem, profile, b, path) ==> Emits(more, b.components, BoundConditions(sem, table, b, path))
    ensures EmittedFrom(sem, profile, table, routes + [b], rules + more)
  {
    hide RoutePath, BoundConditions;
    var bs, all := routes + [b], rules + more;
    assert bs[|routes|] == b;
    forall k | 0 <= k < |all| ensures FromSomeBound(sem, profile, table, bs, all[k]) {
      if k < |rules| {
        assert FromSomeBound(sem, profile, table, routes, rules[k]);
        var i :| 0 <= i < |routes| && EmittedFor(sem, profile, table, routes[i], rules[k]);
        assert bs[i] == routes[i] && all[k] == rules[k];
      } else {
        assert all[k] == more[k - |rules|];
        assert EmittedFor(sem, profile, table, bs[|routes|], all[k]);
      }
    }
    forall comps, conditions | Emits(rules, comps, conditions) || Emits(more, comps, conditions) ensures Emits(all, comps, conditions) {
      EmitsWider(rules, more, comps, conditions);
    }
    forall i, path | 0 <= i < |bs| && RoutePath(sem, profile, bs[i], path)
      ensures Emits(all, bs[i].components, BoundConditions(sem, table, bs[i], path))
    {
      if i < |routes| { assert bs[i] == routes[i]; }
    }
    assert all[|rules|] == more[0];
    forall i | 0 <= i < |bs| ensures Stood(all, bs[i].components) {
      if i < |routes| {
        assert bs[i] == routes[i];
        var k :| 0 <= k < |rules| && rules[k].components == bs[i].components;
        assert all[k].components == bs[i].components;
      }
    }
  }

  lemma EmitsWider(rules: seq<TargetRule>, more: seq<TargetRule>, comps: seq<string>, conditions: seq<Condition>)
    requires Emits(rules, comps, conditions) || Emits(more, comps, conditions)
    ensures Emits(rules + more, comps, conditions)
  {
    var all := rules + more;
    if Emits(rules, comps, conditions) {
      var k :| 0 <= k < |rules| && rules[k].components == comps && rules[k].conditions == conditions;
      assert all[k] == rules[k];
    } else {
      var k :| 0 <= k < |more| && more[k].components == comps && more[k].conditions == conditions;
      assert all[|rules| + k] == more[k];
    }
  }

  method TranslateRoutes(doc: Document, sem: Semantics, profile: Profile, table: map<string, Condition>) returns (out: Option<seq<TargetRule>>)
    requires forall c :: c in table <==> RuledComponent(doc.rules, c)
    ensures out.Some? <==> RoutesFine(doc, sem, profile)
    ensures out.Some? ==> EmittedFrom(sem, profile, table, doc.routes, out.value)
  {
    hide EmittedFrom, BoundFine, RuledComponent, RoutePath;
    var made: seq<TargetRule> := [];
    var seen: set<string> := {};
    var represented: set<seq<string>> := {};
    NothingEmitted(sem, profile, table);
    for i := 0 to |doc.routes|
      invariant EmittedFrom(sem, profile, table, doc.routes[..i], made)
      invariant forall k :: 0 <= k < i ==> BoundFine(doc.routes[k], doc.coverage, doc.rules, sem, profile)
      invariant forall j, k :: 0 <= j < k < i ==> doc.routes[j].alternative != doc.routes[k].alternative
      invariant forall a :: a in seen <==> exists k :: 0 <= k < i && doc.routes[k].alternative == a
      invariant forall a :: a in represented <==> exists k :: 0 <= k < i && doc.routes[k].components == a
    {
      var b := doc.routes[i];
      if b.alternative in seen { return None; }
      var more := TranslateBound(b, doc.coverage, doc.rules, sem, profile, table);
      if more.None? { return None; }
      assert doc.routes[..i + 1] == doc.routes[..i] + [b];
      EmittedStep(sem, profile, table, doc.routes[..i], made, b, more.value);
      made := made + more.value;
      seen := seen + {b.alternative};
      represented := represented + {b.components};
    }
    assert doc.routes[..|doc.routes|] == doc.routes;
    var keys := set a | a in doc.coverage;
    forall a | a in represented ensures a in keys { InCoverage(doc, sem, profile, a); }
    if represented != keys {
      var a :| a in keys && a !in represented;
      return None;
    }
    forall a | a in doc.coverage ensures exists i :: 0 <= i < |doc.routes| && doc.routes[i].components == a { assert a in keys; }
    return Some(made);
  }

  lemma InCoverage(doc: Document, sem: Semantics, profile: Profile, a: seq<string>)
    requires exists k :: 0 <= k < |doc.routes| && doc.routes[k].components == a && BoundFine(doc.routes[k], doc.coverage, doc.rules, sem, profile)
    ensures a in doc.coverage
  {}

  lemma NothingEmitted(sem: Semantics, profile: Profile, table: map<string, Condition>)
    ensures EmittedFrom(sem, profile, table, [], [])
  {}

  lemma RoutesMean(doc: Document, sem: Semantics, profile: Profile, table: map<string, Condition>, rules: seq<TargetRule>)
    requires !Independent(doc.placement) && KeepsStar(profile.fold)
    requires RulesFine(doc.rules, sem, profile.fold) && TableOf(doc.rules, sem, profile.fold, table)
    requires RoutesFine(doc, sem, profile) && EmittedFrom(sem, profile, table, doc.routes, rules)
    ensures Mirrored(doc, sem, profile, rules)
  {
    forall k | 0 <= k < |rules| ensures MirrorsSome(doc, sem, profile, rules[k]) {
      hide *;
      RuleMirrors(doc, sem, profile, table, rules, k);
    }
    forall comps, tests | IsAlternative(doc, sem, profile, comps, tests) ensures HasMirror(rules, comps, tests, profile.fold) {
      hide *;
      AlternativeMirrored(doc, sem, profile, table, rules, comps, tests);
    }
  }

  lemma RoutesPass(doc: Document, sem: Semantics, profile: Profile, table: map<string, Condition>, rules: seq<TargetRule>)
    requires !Independent(doc.placement) && RulesFine(doc.rules, sem, profile.fold) && TableOf(doc.rules, sem, profile.fold, table)
    requires RoutesFine(doc, sem, profile) && EmittedFrom(sem, profile, table, doc.routes, rules)
    ensures AllPass(rules, profile) <==> Gated(doc, sem, profile)
  {
    forall k | 0 <= k < |rules|
      ensures RulePasses(rules[k], profile) <==> PresentableAll(doc.rules, sem, profile, rules[k].components, true)
      ensures rules[k].components in doc.coverage
    {
      hide *;
      RoutePasses(doc, sem, profile, table, rules, k);
    }
    if AllPass(rules, profile) {
      forall a | a in doc.coverage ensures PresentableAll(doc.rules, sem, profile, a, true) {
        var k := RouteStands(doc, sem, profile, table, rules, a);
        assert RulePasses(rules[k], profile);
      }
    }
    hide RulesFine, TableOf, RoutesFine, EmittedFrom, PresentableAll, RulePasses;
  }

  lemma RouteStands(doc: Document, sem: Semantics, profile: Profile, table: map<string, Condition>, rules: seq<TargetRule>, a: seq<string>) returns (k: nat)
    requires RoutesFine(doc, sem, profile) && EmittedFrom(sem, profile, table, doc.routes, rules) && a in doc.coverage
    ensures k < |rules| && rules[k].components == a
  {
    hide BoundFine, EmittedFor, RoutePath;
    var i :| 0 <= i < |doc.routes| && doc.routes[i].components == a;
    assert Stood(rules, doc.routes[i].components);
    k :| 0 <= k < |rules| && rules[k].components == a;
  }

  /** Which bound alternative, on which path, a rule was emitted for. */
  lemma RuleOrigin(doc: Document, sem: Semantics, profile: Profile, table: map<string, Condition>, rules: seq<TargetRule>, k: nat)
    returns (i: nat, path: string)
    requires EmittedFrom(sem, profile, table, doc.routes, rules) && k < |rules|
    ensures i < |doc.routes| && rules[k].components == doc.routes[i].components
    ensures RoutePath(sem, profile, doc.routes[i], path) && rules[k].conditions == BoundConditions(sem, table, doc.routes[i], path)
  {
    hide RoutePath, BoundConditions;
    assert FromSomeBound(sem, profile, table, doc.routes, rules[k]);
    i :| 0 <= i < |doc.routes| && EmittedFor(sem, profile, table, doc.routes[i], rules[k]);
    path :| RoutePath(sem, profile, doc.routes[i], path) && rules[k].conditions == BoundConditions(sem, table, doc.routes[i], path);
  }

  lemma RoutePasses(doc: Document, sem: Semantics, profile: Profile, table: map<string, Condition>, rules: seq<TargetRule>, k: nat)
    requires RulesFine(doc.rules, sem, profile.fold) && TableOf(doc.rules, sem, profile.fold, table)
    requires RoutesFine(doc, sem, profile) && EmittedFrom(sem, profile, table, doc.routes, rules) && k < |rules|
    ensures RulePasses(rules[k], profile) <==> PresentableAll(doc.rules, sem, profile, rules[k].components, true)
    ensures rules[k].components in doc.coverage
  {
    hide *;
    var i, path := RuleOrigin(doc, sem, profile, table, rules, k);
    BoundRuled(doc, sem, profile, table, i);
    BoundPasses(doc, sem, profile, table, doc.routes[i], path);
    PassesEach(rules[k], profile);
    BoundIs(sem, table, doc.routes[i], path);
  }

  lemma BoundRuled(doc: Document, sem: Semantics, profile: Profile, table: map<string, Condition>, i: nat)
    requires RulesFine(doc.rules, sem, profile.fold) && TableOf(doc.rules, sem, profile.fold, table)
    requires RoutesFine(doc, sem, profile) && i < |doc.routes|
    ensures doc.routes[i].components in doc.coverage && forall c :: c in doc.routes[i].components ==> c in table
  {
    hide Expected, RulesFine, ConditionOf, BindingsFine, BoundTo, IsPathComponent;
    var b := doc.routes[i];
    assert BoundFine(b, doc.coverage, doc.rules, sem, profile);
    forall c | c in b.components ensures c in table { assert ComponentBound(b, doc.rules, sem, c); }
  }

  lemma RuleMirrors(doc: Document, sem: Semantics, profile: Profile, table: map<string, Condition>, rules: seq<TargetRule>, k: nat)
    requires !Independent(doc.placement) && KeepsStar(profile.fold)
    requires RulesFine(doc.rules, sem, profile.fold) && TableOf(doc.rules, sem, profile.fold, table)
    requires RoutesFine(doc, sem, profile) && EmittedFrom(sem, profile, table, doc.routes, rules) && k < |rules|
    ensures MirrorsSome(doc, sem, profile, rules[k])
  {
    hide *;
    var i, path := RuleOrigin(doc, sem, profile, table, rules, k);
    var b := doc.routes[i];
    BoundRuled(doc, sem, profile, table, i);
    var rest := SourceTests(doc.rules, sem, profile.fold, b.components, true);
    BoundMeans(doc, sem, profile, table, b, path, rest);
    RoutedAlternative(doc, sem, profile, i, path, rest, rest + {PathIs(path), MethodIs(MethodName(b.route))}, rules[k]);
  }

  lemma RoutedAlternative(doc: Document, sem: Semantics, profile: Profile, i: nat, path: string, rest: set<Test>, tests: set<Test>, r: TargetRule)
    requires !Independent(doc.placement) && i < |doc.routes| && doc.routes[i].components in doc.coverage
    requires RoutePath(sem, profile, doc.routes[i], path)
    requires Conjunction(doc.rules, sem, profile.fold, doc.routes[i].components, true, rest)
    requires tests == rest + {PathIs(path), MethodIs(MethodName(doc.routes[i].route))}
    requires r.components == doc.routes[i].components && Readable(r.conditions, profile.fold) && Mirrors(TestsOf(r.conditions, profile.fold), tests)
    ensures MirrorsSome(doc, sem, profile, r)
  {
    OneMethod(sem, profile, doc.routes[i], path);
    hide RoutePath, RouteAsks, Conjunction, Mirrors, Readable, TestsOf;
    assert IsRouted(doc, sem, profile, doc.routes[i], doc.routes[i].components, path, rest, tests);
    assert IsAlternative(doc, sem, profile, r.components, tests);
  }

  lemma AlternativeMirrored(doc: Document, sem: Semantics, profile: Profile, table: map<string, Condition>, rules: seq<TargetRule>,
                            comps: seq<string>, tests: set<Test>)
    requires !Independent(doc.placement) && KeepsStar(profile.fold)
    requires RulesFine(doc.rules, sem, profile.fold) && TableOf(doc.rules, sem, profile.fold, table)
    requires RoutesFine(doc, sem, profile) && EmittedFrom(sem, profile, table, doc.routes, rules)
    requires IsAlternative(doc, sem, profile, comps, tests)
    ensures HasMirror(rules, comps, tests, profile.fold)
  {
    hide RulesFine, TableOf, KeepsStar, RightComponents, RoutesFine, Conjunction, RoutePath, RouteAsks, PathFrom, ResolvedPath, BoundConditions, TestsOf, OffPath, Readable, Mirrors;
    var i, path, rest :| 0 <= i < |doc.routes| && IsRouted(doc, sem, profile, doc.routes[i], comps, path, rest, tests);
    var b := doc.routes[i];
    var name :| RouteAsks(sem, profile, b, name, path) && tests == rest + {PathIs(path), MethodIs(name)};
    RouteIs(sem, profile, b, name, path);
    OneMethod(sem, profile, b, path);
    BoundRuled(doc, sem, profile, table, i);
    BoundMeans(doc, sem, profile, table, b, path, rest);
    assert Emits(rules, b.components, BoundConditions(sem, table, b, path));
  }

  // ------------------------------------------------------------- only right places

  /** Every component of a coverage alternative has its rule. */
  lemma CoverageRuled(doc: Document, sem: Semantics, profile: Profile, a: seq<string>, c: string)
    requires Expressible(doc, sem, profile) && a in doc.coverage && c in a
    ensures RuledComponent(doc.rules, c) && RulesFine(doc.rules, sem, profile.fold)
  {
    hide RulesFine, RuledComponent, Expected, BindingsFine, BoundTo;
    if Independent(doc.placement) {
      var i :| 0 <= i < |doc.coverage| && doc.coverage[i] == a;
    } else {
      var i :| 0 <= i < |doc.routes| && doc.routes[i].components == a;
      assert BoundFine(doc.routes[i], doc.coverage, doc.rules, sem, profile);
      assert ComponentBound(doc.routes[i], doc.rules, sem, c);
    }
  }

  /** An alternative asks something that no emitted rule asks exactly when one of
      its components is wrongly placed. */
  lemma WrongAlternative(doc: Document, sem: Semantics, profile: Profile, a: seq<string>, tests: set<Test>)
    requires Expressible(doc, sem, profile) && IsAlternative(doc, sem, profile, a, tests)
    ensures AllEmittable(tests) <==> RightComponents(sem, a, !Independent(doc.placement))
  {
    hide Expressible, RightPlace, AsksOf, Emittable, RoutePath, RouteAsks, IsPathComponent, RulesFine;
    var routed := !Independent(doc.placement);
    if !RightComponents(sem, a, routed) {
      var c :| c in a && Counts(sem, routed, c) && !(c in sem.components && RightPlace(sem.components[c].location));
      CoverageRuled(doc, sem, profile, a, c);
      var t := WrongAsk(doc.rules, sem, profile.fold, c);
      assert AskedBySome(doc.rules, sem, profile.fold, a, routed, t);
      assert t in tests;
    } else {
      forall t | t in tests ensures Emittable(t) {
        if AskedBySome(doc.rules, sem, profile.fold, a, routed, t) {
          var c :| c in a && Counts(sem, routed, c) && AsksOf(doc.rules, sem, profile.fold, c, t);
          RightAsk(doc.rules, sem, profile.fold, c, t);
        } else {
          assert t.PathIs? || t.MethodIs?;
          RouteEmittable(t);
        }
      }
    }
  }

  lemma RouteEmittable(t: Test)
    requires t.PathIs? || t.MethodIs?
    ensures Emittable(t)
  {}

  lemma RightAsk(rules: seq<Rule>, sem: Semantics, fold: string -> string, c: string, t: Test)
    requires AsksOf(rules, sem, fold, c, t) && RightPlace(sem.components[c].location)
    ensures Emittable(t)
  {
    hide RightPlace, Emittable;
    var k :| 0 <= k < |rules| && rules[k].component == Some(c) && RuleTest(rules[k], sem.components[c].location, fold) == Some(t);
    RightTest(rules[k], sem.components[c].location, fold);
  }

  lemma WrongAsk(rules: seq<Rule>, sem: Semantics, fold: string -> string, c: string) returns (t: Test)
    requires RulesFine(rules, sem, fold) && RuledComponent(rules, c)
    requires !(c in sem.components && RightPlace(sem.components[c].location))
    ensures AsksOf(rules, sem, fold, c, t) && !Emittable(t)
  {
    hide Emittable, RightPlace;
    var k :| 0 <= k < |rules| && rules[k].component == Some(c);
    assert Ruled(rules[k], sem, fold);
    RuleAsks(rules[k], sem.components[c].location, fold);
    t := RuleTest(rules[k], sem.components[c].location, fold).value;
    RightTest(rules[k], sem.components[c].location, fold);
  }

  lemma RuleAsks(r: Rule, l: Location, fold: string -> string)
    requires RuleFine(r, l, fold)
    ensures RuleTest(r, l, fold).Some?
  {
    match l.kind {
      case "http-query" =>
      case "http-header" =>
      case "http-cookie" =>
      case "http-body-structured" =>
      case "http-body-raw" =>
      case "http-path" =>
      case "http-method" =>
    }
  }

  /** Emitted rules that mirror the alternatives are they exactly where every used
      component is rightly placed. */
  lemma MirroredMeans(doc: Document, sem: Semantics, profile: Profile, rules: seq<TargetRule>)
    requires Expressible(doc, sem, profile) && Covered(doc.coverage, rules) && Mirrored(doc, sem, profile, rules)
    ensures OnlyAlternatives(doc, sem, profile, rules) <==> RightlyPlaced(doc, sem)
    ensures RightlyPlaced(doc, sem) ==> AllAlternatives(doc, sem, profile, rules)
  {
    hide Expressible, RightComponents, IsAlternative, AllEmittable, Readable, TestsOf;
    forall comps, tests | IsAlternative(doc, sem, profile, comps, tests)
      ensures AllEmittable(tests) <==> RightComponents(sem, comps, !Independent(doc.placement))
      ensures comps in doc.coverage
    {
      WrongAlternative(doc, sem, profile, comps, tests);
      AlternativeCovered(doc, sem, profile, comps, tests);
    }
    forall k | 0 <= k < |rules| ensures MirrorsSome(doc, sem, profile, rules[k]) {}
    if OnlyAlternatives(doc, sem, profile, rules) {
      forall a | a in doc.coverage ensures RightComponents(sem, a, !Independent(doc.placement)) {
        var k :| 0 <= k < |rules| && rules[k].components == a;
      }
    }
    if RightlyPlaced(doc, sem) {
      forall comps, tests | IsAlternative(doc, sem, profile, comps, tests) ensures Stands(rules, comps, tests, profile.fold) {
        assert HasMirror(rules, comps, tests, profile.fold);
      }
    }
  }

  lemma AlternativeCovered(doc: Document, sem: Semantics, profile: Profile, comps: seq<string>, tests: set<Test>)
    requires IsAlternative(doc, sem, profile, comps, tests)
    ensures comps in doc.coverage
  {}

  // ---------------------------------------------------------------- rule documents

  /** `_translate_rule_document`: everything or nothing.  What is emitted is exactly
      the document's alternatives if and only if every component they use is
      inspected where it is; and it passes the shape gate if and only if every
      rule they use is presentable.  In any case the emitted rules mirror the
      alternatives. */
  method TranslateRuleDocument(doc: Document, sem: Semantics, profile: Profile) returns (out: Option<(seq<TargetRule>, seq<CarrierKey>)>)
    ensures out.Some? <==> Expressible(doc, sem, profile)
    ensures out.Some? ==> out.value.0 != [] && KeysOf(doc.rules, out.value.1) && Covered(doc.coverage, out.value.0)
    ensures out.Some? ==> (AllPass(out.value.0, profile) <==> Gated(doc, sem, profile))
    ensures out.Some? && KeepsStar(profile.fold) ==>
              && Mirrored(doc, sem, profile, out.value.0)
              && (OnlyAlternatives(doc, sem, profile, out.value.0) <==> RightlyPlaced(doc, sem))
              && (RightlyPlaced(doc, sem) ==> AllAlternatives(doc, sem, profile, out.value.0))
  {
    hide RulesFine, KeepsStar, RightlyPlaced, RoutesFine, OnlyAlternatives, AllAlternatives, KeysOf, Covered, EmittedEach, EmittedFrom,
         Mirrored, AllPass, Gated;
    if doc.rules == [] || !KnownPlacement(doc.placement) || doc.coverage == [] { return None; }
    if !Independent(doc.placement) && doc.routes == [] { return None; }
    var collected := CollectRules(doc.rules, sem, profile.fold);
    if collected.None? { return None; }
    var table, keys := collected.value.0, collected.value.1;
    var rules;
    if Independent(doc.placement) {
      rules := TranslateIndependent(doc.coverage, table, doc.rules);
      if rules.None? { return None; }
      CoveredEach(doc.coverage, table, rules.value);
      IndependentPasses(doc, sem, profile, table, rules.value);
      if KeepsStar(profile.fold) { IndependentMeans(doc, sem, profile, table, rules.value); }
    } else {
      rules := TranslateRoutes(doc, sem, profile, table);
      if rules.None? { return None; }
      CoveredRoutes(doc, sem, profile, table, rules.value);
      RoutesPass(doc, sem, profile, table, rules.value);
      if KeepsStar(profile.fold) { RoutesMean(doc, sem, profile, table, rules.value); }
    }
    if KeepsStar(profile.fold) { MirroredMeans(doc, sem, profile, rules.value); }
    return Some((rules.value, keys));
  }

  lemma CoveredEach(coverage: seq<seq<string>>, table: map<string, Condition>, rules: seq<TargetRule>)
    requires EmittedEach(coverage, table, rules) && coverage != []
    ensures Covered(coverage, rules) && rules != []
  {
    forall a | a in coverage ensures exists k :: 0 <= k < |rules| && rules[k].components == a {
      var k :| 0 <= k < |coverage| && coverage[k] == a;
      assert rules[k].components == a;
    }
  }

  lemma CoveredRoutes(doc: Document, sem: Semantics, profile: Profile, table: map<string, Condition>, rules: seq<TargetRule>)
    requires RoutesFine(doc, sem, profile) && EmittedFrom(sem, profile, table, doc.routes, rules) && doc.routes != []
    ensures Covered(doc.coverage, rules) && rules != []
  {
    hide BoundFine, EmittedFor, RoutePath;
    assert Stood(rules, doc.routes[0].components);
    forall a | a in doc.coverage ensures exists k :: 0 <= k < |rules| && rules[k].components == a {
      var i :| 0 <= i < |doc.routes| && doc.routes[i].components == a;
      assert Stood(rules, doc.routes[i].components);
    }
  }

  // --------------------------------------------------------------- carrier documents

  datatype CarrierBinding = CarrierBinding(carrier: string, name: Option<string>, component: Option<string>)

  /** A binding agrees with its component, or names a carrier and, where that needs
      one, a selector. */
  predicate CarrierFine(b: CarrierBinding, sem: Semantics, fold: string -> string) {
    && b.carrier in CONDITION_TYPES && b.name.Some? && Given(b.component)
    && if b.component.value in sem.components
       then
         var l := sem.components[b.component.value].location;
         && SemanticCarrier(l).Some?
         && (SameCarrier(b.carrier, b.name.value, SemanticCarrier(l).value, fold) || AnyField(l, b.carrier, b.name.value))
       else (b.carrier == "header" || b.carrier == "cookie") ==> b.name.value != ""
  }

  function BindingKey(b: CarrierBinding): CarrierKey
    requires b.name.Some? && b.component.Some?
  {
    CarrierKey(b.carrier, b.name.value, b.component.value)
  }

  ghost predicate CarriersFine(bindings: seq<CarrierBinding>, sem: Semantics, fold: string -> string) {
    && bindings != []
    && (forall k :: 0 <= k < |bindings| ==> CarrierFine(bindings[k], sem, fold))
    && forall j, k :: 0 <= j < k < |bindings| ==> bindings[j] != bindings[k]
  }

  ghost predicate BindingKeys(bindings: seq<CarrierBinding>, keys: seq<CarrierKey>) {
    |keys| == |bindings| && forall k :: 0 <= k < |keys| ==> bindings[k].name.Some? && bindings[k].component.Some? && keys[k] == BindingKey(bindings[k])
  }

  /** A binding of a known component goes by what the component goes by, and one of an
      unknown component names a header or cookie. */
  lemma CarrierFineExactly(b: CarrierBinding, sem: Semantics, fold: string -> string)
    ensures CarrierFine(b, sem, fold) <==>
            exists name, c :: b.name == Some(name) && b.component == Some(c) && c != ""
              && if c in sem.components then GoesBy(sem.components[c].location, b.carrier, name, fold)
                 else if b.carrier == "header" || b.carrier == "cookie" then name != ""
                 else b.carrier in {"query", "path", "body", "method"}
  {
    if b.name.Some? && b.component.Some? {
      if b.component.value in sem.components { GoesByExactly(sem.components[b.component.value].location, b.carrier, b.name.value, fold); }
      hide SemanticCarrier, SameCarrier, AnyField;
      GoesByKnown(sem, b.component.value, b.carrier, b.name.value, fold);
    }
  }

  lemma GoesByKnown(sem: Semantics, c: string, carrier: string, name: string, fold: string -> string)
    ensures c in sem.components && GoesBy(sem.components[c].location, carrier, name, fold) ==> carrier in CONDITION_TYPES
  {}

  /** `_translate_carrier_document`. */
  method TranslateCarriers(bindings: seq<CarrierBinding>, sem: Semantics, fold: string -> string) returns (out: Option<seq<CarrierKey>>)
    ensures out.Some? <==> CarriersFine(bindings, sem, fold)
    ensures out.Some? ==> BindingKeys(bindings, out.value)
  {
    if bindings == [] { return None; }
    var keys := [];
    for i := 0 to |bindings|
      invariant BindingKeys(bindings[..i], keys)
      invariant forall k :: 0 <= k < i ==> CarrierFine(bindings[k], sem, fold) && keys[k] == BindingKey(bindings[k])
      invariant forall j, k :: 0 <= j < k < i ==> bindings[j] != bindings[k]
    {
      hide SemanticCarrier, SameCarrier, AnyField;
      var b := bindings[i];
      if !CarrierFine(b, sem, fold) { return None; }
      if BindingKey(b) in keys {
        var k :| 0 <= k < |keys| && keys[k] == BindingKey(b);
        assert bindings[k] == bindings[i];
        return None;
      }
      keys := keys + [BindingKey(b)];
    }
    assert bindings[..|bindings|] == bindings;
    return Some(keys);
  }
}
