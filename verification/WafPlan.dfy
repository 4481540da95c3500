/** The translation plan of a whole candidate: every cooperating artifact is
    translated, or nothing is. */
module WafPlan {
  import opened Options
  import opened WafConditions
  import opened WafRules
  import opened WafDocuments
  import opened WafGate

  /** A decoded artifact: `rules` and `bindings` are present when the document has
      those members. */
  datatype Artifact = Artifact(id: string, rules: Option<Document>, bindings: Option<seq<CarrierBinding>>)

  datatype Ref = Ref(kind: string, scope: string, id: string)

  datatype Directive = Directive(id: string, artifact: Option<string>, kind: string, value: string, required: bool)

  datatype ObligationMapping = ObligationMapping(obligation: string, artifactRefs: seq<Ref>, directiveRefs: seq<Ref>)

  datatype Candidate = Candidate(bundle: string, artifacts: seq<Artifact>, directives: seq<Directive>, mappings: seq<ObligationMapping>)

  datatype TargetDirective = TargetDirective(source: string, target: string, kind: string, value: string, required: bool)

  datatype TargetMapping = TargetMapping(obligation: string, targets: seq<string>)

  datatype Plan = Plan(rules: seq<TargetRule>, directives: seq<TargetDirective>, mappings: seq<TargetMapping>)

  // --------------------------------------------------------------- the documents

  ghost predicate ArtifactFine(a: Artifact, sem: Semantics, profile: Profile) {
    if a.rules.Some? then Expressible(a.rules.value, sem, profile)
    else a.bindings.Some? && CarriersFine(a.bindings.value, sem, profile.fold)
  }

  /** A carrier of an executable rule. */
  ghost predicate RuleCarrier(arts: seq<Artifact>, key: CarrierKey) {
    exists i :: 0 <= i < |arts| && CarrierOfRules(arts[i], key)
  }

  ghost predicate CarrierOfRules(a: Artifact, key: CarrierKey) {
    a.rules.Some? && exists k :: 0 <= k < |a.rules.value.rules| && KeyIs(a.rules.value.rules[k], key)
  }

  predicate KeyIs(r: Rule, key: CarrierKey) { r.carrier == key.carrier && r.name == Some(key.name) && r.component == Some(key.component) }

  /** A carrier that a binding document declares. */
  ghost predicate BoundCarrier(arts: seq<Artifact>, key: CarrierKey) {
    exists i :: 0 <= i < |arts| && CarrierOfBindings(arts[i], key)
  }

  ghost predicate CarrierOfBindings(a: Artifact, key: CarrierKey) {
    a.rules.None? && a.bindings.Some? && exists k :: 0 <= k < |a.bindings.value| && BindingIs(a.bindings.value[k], key)
  }

  predicate BindingIs(b: CarrierBinding, key: CarrierKey) { b.carrier == key.carrier && b.name == Some(key.name) && b.component == Some(key.component) }

  /** The emitted rules are the alternatives of the rule documents: all of them and
      no others. */
  ghost predicate Faithful(arts: seq<Artifact>, sem: Semantics, profile: Profile, rules: seq<TargetRule>) {
    && (forall k :: 0 <= k < |rules| ==> FromSome(arts, sem, profile, rules[k]))
    && (forall i, comps, tests :: 0 <= i < |arts| && AlternativeOf(arts[i], sem, profile, comps, tests) ==> Stands(rules, comps, tests, profile.fold))
  }

  ghost predicate FromSome(arts: seq<Artifact>, sem: Semantics, profile: Profile, r: TargetRule) {
    && Readable(r.conditions, profile.fold)
    && exists i :: 0 <= i < |arts| && AlternativeOf(arts[i], sem, profile, r.components, TestsOf(r.conditions, profile.fold))
  }

  ghost predicate AlternativeOf(a: Artifact, sem: Semantics, profile: Profile, comps: seq<string>, tests: set<Test>) {
    a.rules.Some? && IsAlternative(a.rules.value, sem, profile, comps, tests)
  }

  /** Every emitted rule mirrors an alternative of some document, and every
      alternative has such a rule. */
  ghost predicate AllMirrored(arts: seq<Artifact>, sem: Semantics, profile: Profile, rules: seq<TargetRule>) {
    && (forall k :: 0 <= k < |rules| ==> MirrorsOne(arts, sem, profile, rules[k]))
    && (forall i, comps, tests :: 0 <= i < |arts| && AlternativeOf(arts[i], sem, profile, comps, tests) ==> HasMirror(rules, comps, tests, profile.fold))
  }

  ghost predicate MirrorsOne(arts: seq<Artifact>, sem: Semantics, profile: Profile, r: TargetRule) {
    && Readable(r.conditions, profile.fold)
    && exists i, tests :: 0 <= i < |arts| && AlternativeOf(arts[i], sem, profile, r.components, tests) && Mirrors(TestsOf(r.conditions, profile.fold), tests)
  }

  ghost predicate AllCovered(arts: seq<Artifact>, rules: seq<TargetRule>) {
    forall i :: 0 <= i < |arts| && arts[i].rules.Some? ==> Covered(arts[i].rules.value.coverage, rules)
  }

  /** Every component that some alternative uses is inspected where it is. */
  ghost predicate AllRight(arts: seq<Artifact>, sem: Semantics) {
    forall i :: 0 <= i < |arts| && arts[i].rules.Some? ==> RightlyPlaced(arts[i].rules.value, sem)
  }

  /** Every rule that some alternative uses is presentable to the shape gate. */
  ghost predicate AllGated(arts: seq<Artifact>, sem: Semantics, profile: Profile) {
    forall i :: 0 <= i < |arts| && arts[i].rules.Some? ==> Gated(arts[i].rules.value, sem, profile)
  }

  lemma MirroredStep(arts: seq<Artifact>, sem: Semantics, profile: Profile, rules: seq<TargetRule>, a: Artifact, more: seq<TargetRule>)
    requires AllMirrored(arts, sem, profile, rules)
    requires if a.rules.Some? then Mirrored(a.rules.value, sem, profile, more) else more == []
    ensures AllMirrored(arts + [a], sem, profile, rules + more)
  {
    hide IsAlternative, TestsOf, Readable, Mirrors;
    var bs, all := arts + [a], rules + more;
    assert bs[|arts|] == a;
    forall k | 0 <= k < |all| ensures MirrorsOne(bs, sem, profile, all[k]) {
      if k < |rules| {
        assert all[k] == rules[k];
        assert MirrorsOne(arts, sem, profile, rules[k]);
        var i, tests :| 0 <= i < |arts| && AlternativeOf(arts[i], sem, profile, all[k].components, tests) && Mirrors(TestsOf(all[k].conditions, profile.fold), tests);
        assert bs[i] == arts[i];
      } else {
        assert all[k] == more[k - |rules|];
        assert MirrorsSome(a.rules.value, sem, profile, all[k]);
        var tests :| IsAlternative(a.rules.value, sem, profile, all[k].components, tests) && Mirrors(TestsOf(all[k].conditions, profile.fold), tests);
        assert AlternativeOf(bs[|arts|], sem, profile, all[k].components, tests);
      }
    }
    forall i, comps, tests | 0 <= i < |bs| && AlternativeOf(bs[i], sem, profile, comps, tests)
      ensures HasMirror(all, comps, tests, profile.fold)
    {
      if i < |arts| { assert AlternativeOf(arts[i], sem, profile, comps, tests); }
      MirrorWider(rules, more, comps, tests, profile.fold);
    }
  }

  lemma MirrorWider(rules: seq<TargetRule>, more: seq<TargetRule>, comps: seq<string>, tests: set<Test>, fold: string -> string)
    requires HasMirror(rules, comps, tests, fold) || HasMirror(more, comps, tests, fold)
    ensures HasMirror(rules + more, comps, tests, fold)
  {
    hide TestsOf, Mirrors;
    var all := rules + more;
    if HasMirror(rules, comps, tests, fold) {
      var k :| 0 <= k < |rules| && rules[k].components == comps && Mirrors(TestsOf(rules[k].conditions, fold), tests);
      assert all[k] == rules[k];
    } else {
      var k :| 0 <= k < |more| && more[k].components == comps && Mirrors(TestsOf(more[k].conditions, fold), tests);
      assert all[|rules| + k] == more[k];
    }
  }

  lemma CoveredStep(arts: seq<Artifact>, rules: seq<TargetRule>, a: Artifact, more: seq<TargetRule>)
    requires AllCovered(arts, rules) && (a.rules.Some? ==> Covered(a.rules.value.coverage, more))
    ensures AllCovered(arts + [a], rules + more)
  {
    var bs, all := arts + [a], rules + more;
    forall i, alt | 0 <= i < |bs| && bs[i].rules.Some? && alt in bs[i].rules.value.coverage
      ensures exists k :: 0 <= k < |all| && all[k].components == alt
    {
      if i < |arts| {
        assert bs[i] == arts[i];
        var k :| 0 <= k < |rules| && rules[k].components == alt;
        assert all[k].components == alt;
      } else {
        var k :| 0 <= k < |more| && more[k].components == alt;
        assert all[|rules| + k].components == alt;
      }
    }
  }

  lemma CarrierStep(arts: seq<Artifact>, a: Artifact, key: CarrierKey)
    ensures RuleCarrier(arts + [a], key) <==> RuleCarrier(arts, key) || CarrierOfRules(a, key)
    ensures BoundCarrier(arts + [a], key) <==> BoundCarrier(arts, key) || CarrierOfBindings(a, key)
  {
    hide CarrierOfRules, CarrierOfBindings;
    var bs := arts + [a];
    assert bs[|arts|] == a;
    if RuleCarrier(arts, key) {
      var i :| 0 <= i < |arts| && CarrierOfRules(arts[i], key);
      assert CarrierOfRules(bs[i], key);
    }
    if BoundCarrier(arts, key) {
      var i :| 0 <= i < |arts| && CarrierOfBindings(arts[i], key);
      assert CarrierOfBindings(bs[i], key);
    }
  }

  /** One artifact: its rules and the carriers it executes or declares. */
  method TranslateArtifact(a: Artifact, sem: Semantics, profile: Profile)
    returns (out: Option<(seq<TargetRule>, set<CarrierKey>, set<CarrierKey>)>)
    ensures out.Some? <==> ArtifactFine(a, sem, profile)
    ensures out.Some? ==>
              && (forall key :: key in out.value.1 <==> CarrierOfRules(a, key))
              && (forall key :: key in out.value.2 <==> CarrierOfBindings(a, key))
              && (if a.rules.Some? then out.value.0 != [] && Covered(a.rules.value.coverage, out.value.0) else out.value.0 == [])
    ensures out.Some? ==> (AllPass(out.value.0, profile) <==> (a.rules.Some? ==> Gated(a.rules.value, sem, profile)))
    ensures out.Some? && a.rules.Some? && KeepsStar(profile.fold) ==> Mirrored(a.rules.value, sem, profile, out.value.0)
  {
    hide Expressible, CarriersFine, Covered, OnlyAlternatives, AllAlternatives, Mirrored, KeepsStar, RightlyPlaced, Gated;
    if a.rules.Some? {
      var made := TranslateRuleDocument(a.rules.value, sem, profile);
      if made.None? { return None; }
      var keys := set key | key in made.value.1;
      RuleKeys(a, made.value.1);
      return Some((made.value.0, keys, {}));
    }
    if a.bindings.None? { return None; }
    var declared := TranslateCarriers(a.bindings.value, sem, profile.fold);
    if declared.None? { return None; }
    var keys := set key | key in declared.value;
    DeclaredKeys(a, declared.value);
    return Some(([], {}, keys));
  }

  lemma RuleKeys(a: Artifact, keys: seq<CarrierKey>)
    requires a.rules.Some? && KeysOf(a.rules.value.rules, keys)
    ensures forall key :: key in keys <==> CarrierOfRules(a, key)
  {
    forall key ensures key in keys <==> CarrierOfRules(a, key) {
      if CarrierOfRules(a, key) {
        var k :| 0 <= k < |a.rules.value.rules| && KeyIs(a.rules.value.rules[k], key);
        assert keys[k] == key;
      }
      if key in keys {
        var k :| 0 <= k < |keys| && keys[k] == key;
        assert KeyIs(a.rules.value.rules[k], key);
      }
    }
  }

  lemma DeclaredKeys(a: Artifact, keys: seq<CarrierKey>)
    requires a.rules.None? && a.bindings.Some? && BindingKeys(a.bindings.value, keys)
    ensures forall key :: key in keys <==> CarrierOfBindings(a, key)
  {
    forall key ensures key in keys <==> CarrierOfBindings(a, key) {
      if CarrierOfBindings(a, key) {
        var k :| 0 <= k < |a.bindings.value| && BindingIs(a.bindings.value[k], key);
        assert keys[k] == key;
      }
      if key in keys {
        var k :| 0 <= k < |keys| && keys[k] == key;
        assert BindingIs(a.bindings.value[k], key);
      }
    }
  }

  ghost predicate DocumentsFine(arts: seq<Artifact>, sem: Semantics, profile: Profile) {
    && (forall i :: 0 <= i < |arts| ==> ArtifactFine(arts[i], sem, profile))
    && (exists i :: 0 <= i < |arts| && arts[i].rules.Some?)
    && forall key :: RuleCarrier(arts, key) <==> BoundCarrier(arts, key)
  }

  /** The loop over the artifacts and the comparison of the carriers. */
  method TranslateDocuments(arts: seq<Artifact>, sem: Semantics, profile: Profile) returns (out: Option<seq<TargetRule>>)
    ensures out.Some? <==> DocumentsFine(arts, sem, profile)
    ensures out.Some? ==> out.value != [] && AllCovered(arts, out.value)
    ensures out.Some? ==> (AllPass(out.value, profile) <==> AllGated(arts, sem, profile))
    ensures out.Some? && KeepsStar(profile.fold) ==>
              AllMirrored(arts, sem, profile, out.value) && (Faithful(arts, sem, profile, out.value) <==> AllRight(arts, sem))
  {
    hide ArtifactFine, RuleCarrier, BoundCarrier, CarrierOfRules, CarrierOfBindings, Faithful, AllCovered, Covered,
         KeepsStar, RightlyPlaced, Gated, AllPass, Mirrored, AllMirrored, AllRight, AllGated;
    var rules: seq<TargetRule> := [];
    var executed: set<CarrierKey> := {};
    var declared: set<CarrierKey> := {};
    NoArtifacts(sem, profile);
    for i := 0 to |arts|
      invariant forall k :: 0 <= k < i ==> ArtifactFine(arts[k], sem, profile)
      invariant rules != [] <==> exists k :: 0 <= k < i && arts[k].rules.Some?
      invariant forall key :: key in executed <==> RuleCarrier(arts[..i], key)
      invariant forall key :: key in declared <==> BoundCarrier(arts[..i], key)
      invariant AllCovered(arts[..i], rules)
      invariant AllPass(rules, profile) <==> AllGated(arts[..i], sem, profile)
      invariant KeepsStar(profile.fold) ==> AllMirrored(arts[..i], sem, profile, rules)
    {
      var made := TranslateArtifact(arts[i], sem, profile);
      if made.None? { return None; }
      var (more, ran, bound) := made.value;
      assert arts[..i + 1] == arts[..i] + [arts[i]];
      CoveredStep(arts[..i], rules, arts[i], more);
      GatedStep(arts[..i], sem, profile, arts[i]);
      PassStep(rules, more, profile);
      if KeepsStar(profile.fold) { MirroredStep(arts[..i], sem, profile, rules, arts[i], more); }
      forall key
        ensures RuleCarrier(arts[..i + 1], key) <==> RuleCarrier(arts[..i], key) || CarrierOfRules(arts[i], key)
        ensures BoundCarrier(arts[..i + 1], key) <==> BoundCarrier(arts[..i], key) || CarrierOfBindings(arts[i], key)
      {
        CarrierStep(arts[..i], arts[i], key);
      }
      rules := rules + more;
      executed := executed + ran;
      declared := declared + bound;
    }
    assert arts[..|arts|] == arts;
    if rules == [] { return None; }
    if declared != executed {
      var key :| (key in declared) != (key in executed);
      return None;
    }
    if KeepsStar(profile.fold) { FaithfulExactly(arts, sem, profile, rules); }
    return Some(rules);
  }

  lemma GatedStep(arts: seq<Artifact>, sem: Semantics, profile: Profile, a: Artifact)
    ensures AllGated(arts + [a], sem, profile) <==> AllGated(arts, sem, profile) && (a.rules.Some? ==> Gated(a.rules.value, sem, profile))
  {
    hide Gated;
    var bs := arts + [a];
    assert bs[|arts|] == a;
    forall i | 0 <= i < |arts| ensures bs[i] == arts[i] {}
  }

  lemma PassStep(rules: seq<TargetRule>, more: seq<TargetRule>, profile: Profile)
    ensures AllPass(rules + more, profile) <==> AllPass(rules, profile) && AllPass(more, profile)
  {
    hide RulePasses;
    var all := rules + more;
    forall k | 0 <= k < |rules| ensures all[k] == rules[k] {}
    forall k | 0 <= k < |more| ensures all[|rules| + k] == more[k] {}
  }

  /** Emitted rules that mirror the alternatives are they exactly where every used
      component is rightly placed. */
  lemma FaithfulExactly(arts: seq<Artifact>, sem: Semantics, profile: Profile, rules: seq<TargetRule>)
    requires forall i :: 0 <= i < |arts| ==> ArtifactFine(arts[i], sem, profile)
    requires AllCovered(arts, rules) && AllMirrored(arts, sem, profile, rules)
    ensures Faithful(arts, sem, profile, rules) <==> AllRight(arts, sem)
  {
    hide Expressible, IsAlternative, AllEmittable, Readable, TestsOf, RightComponents;
    forall i, comps, tests | 0 <= i < |arts| && AlternativeOf(arts[i], sem, profile, comps, tests)
      ensures AllEmittable(tests) <==> RightComponents(sem, comps, !Independent(arts[i].rules.value.placement))
      ensures comps in arts[i].rules.value.coverage
    {
      assert ArtifactFine(arts[i], sem, profile);
      WrongAlternative(arts[i].rules.value, sem, profile, comps, tests);
      AlternativeCovered(arts[i].rules.value, sem, profile, comps, tests);
    }
    forall k | 0 <= k < |rules| ensures MirrorsOne(arts, sem, profile, rules[k]) {}
    if Faithful(arts, sem, profile, rules) {
      forall i, a | 0 <= i < |arts| && arts[i].rules.Some? && a in arts[i].rules.value.coverage
        ensures RightComponents(sem, a, !Independent(arts[i].rules.value.placement))
      {
        var k :| 0 <= k < |rules| && rules[k].components == a;
        assert FromSome(arts, sem, profile, rules[k]);
        var m :| 0 <= m < |arts| && AlternativeOf(arts[m], sem, profile, a, TestsOf(rules[k].conditions, profile.fold));
        assert ArtifactFine(arts[i], sem, profile);
        RightEitherWay(arts[i].rules.value, sem, profile, a, !Independent(arts[m].rules.value.placement));
      }
    }
    if AllRight(arts, sem) {
      forall i, comps, tests | 0 <= i < |arts| && AlternativeOf(arts[i], sem, profile, comps, tests) ensures Stands(rules, comps, tests, profile.fold) {
        assert HasMirror(rules, comps, tests, profile.fold);
      }
      forall k | 0 <= k < |rules| ensures FromSome(arts, sem, profile, rules[k]) {
        assert MirrorsOne(arts, sem, profile, rules[k]);
      }
    }
  }

  /** Path components are always rightly placed, so routing does not matter. */
  lemma RightEitherWay(doc: Document, sem: Semantics, profile: Profile, a: seq<string>, routed: bool)
    requires Expressible(doc, sem, profile) && a in doc.coverage && RightComponents(sem, a, routed)
    ensures RightComponents(sem, a, !Independent(doc.placement))
  {
    hide Expressible, RightPlace, RulesFine, RuledComponent;
    forall c | c in a && Counts(sem, !Independent(doc.placement), c) ensures c in sem.components && RightPlace(sem.components[c].location) {
      if !Counts(sem, routed, c) { PathIsRight(sem.components[c].location); }
    }
  }

  lemma PathIsRight(l: Location)
    requires l.kind == "http-path"
    ensures RightPlace(l)
  {}

  lemma NoArtifacts(sem: Semantics, profile: Profile)
    ensures AllCovered([], []) && AllMirrored([], sem, profile, []) && AllGated([], sem, profile) && AllPass([], profile)
    ensures forall key :: !RuleCarrier([], key) && !BoundCarrier([], key)
  {}

  // ------------------------------------------------------------------- references

  ghost predicate RefsFine(refs: seq<Ref>, kind: string, scope: string, known: set<string>, allowEmpty: bool) {
    && (refs == [] ==> allowEmpty)
    && (forall k :: 0 <= k < |refs| ==> refs[k].kind == kind && refs[k].scope == scope && refs[k].id in known)
    && forall j, k :: 0 <= j < k < |refs| ==> refs[j] != refs[k]
  }

  /** `_ref_ids`. */
  method RefIds(refs: seq<Ref>, kind: string, scope: string, known: set<string>, allowEmpty: bool) returns (out: Option<seq<string>>)
    ensures out.Some? <==> RefsFine(refs, kind, scope, known, allowEmpty)
    ensures out.Some? ==> |out.value| == |refs| && forall k :: 0 <= k < |refs| ==> out.value[k] == refs[k].id && out.value[k] in known
  {
    if refs == [] && !allowEmpty { return None; }
    var ids := [];
    for i := 0 to |refs|
      invariant |ids| == i
      invariant forall k :: 0 <= k < i ==> refs[k].kind == kind && refs[k].scope == scope && ids[k] == refs[k].id && ids[k] in known
      invariant forall j, k :: 0 <= j < k < i ==> refs[j] != refs[k]
    {
      var r := refs[i];
      if r.kind != kind || r.scope != scope || r.id !in known { return None; }
      if r.id in ids {
        var k :| 0 <= k < |ids| && ids[k] == r.id;
        assert refs[k] == refs[i];
        return None;
      }
      ids := ids + [r.id];
    }
    return Some(ids);
  }

  ghost predicate Indexed(ids: seq<string>) {
    "" !in ids && forall j, k :: 0 <= j < k < |ids| ==> ids[j] != ids[k]
  }

  /** `_index`: the identities, when none is empty or repeated. */
  method Index(ids: seq<string>) returns (out: Option<set<string>>)
    ensures out.Some? <==> Indexed(ids)
    ensures out.Some? ==> forall x :: x in out.value <==> x in ids
  {
    var seen := {};
    for i := 0 to |ids|
      invariant forall x :: x in seen <==> exists k :: 0 <= k < i && ids[k] == x
      invariant "" !in ids[..i] && forall j, k :: 0 <= j < k < i ==> ids[j] != ids[k]
    {
      if ids[i] == "" || ids[i] in seen {
        if ids[i] in seen { var k :| 0 <= k < i && ids[k] == ids[i]; }
        return None;
      }
      seen := seen + {ids[i]};
    }
    assert ids[..|ids|] == ids;
    return Some(seen);
  }

  function ArtifactIds(arts: seq<Artifact>): seq<string> { seq(|arts|, i requires 0 <= i < |arts| => arts[i].id) }

  function DirectiveIds(ds: seq<Directive>): seq<string> { seq(|ds|, i requires 0 <= i < |ds| => ds[i].id) }

  // ----------------------------------------------------------- directives and mappings

  ghost predicate DirectivesFine(ds: seq<Directive>, known: seq<string>) {
    Indexed(DirectiveIds(ds)) && forall k :: 0 <= k < |ds| ==> ds[k].artifact.Some? && ds[k].artifact.value in known
  }

  /** The directive as it was, under its own id, now of the target. */
  predicate IsRedirected(d: Directive, target: string, t: TargetDirective) {
    t.source == d.id && t.target == target && t.kind == d.kind && t.value == d.value && t.required == d.required
  }

  method TranslateDirectives(ds: seq<Directive>, known: set<string>, target: string) returns (out: Option<seq<TargetDirective>>)
    ensures out.Some? <==> forall k :: 0 <= k < |ds| ==> ds[k].artifact.Some? && ds[k].artifact.value in known
    ensures out.Some? ==> |out.value| == |ds| && forall k :: 0 <= k < |ds| ==> IsRedirected(ds[k], target, out.value[k])
  {
    var made := [];
    for i := 0 to |ds|
      invariant |made| == i && forall k :: 0 <= k < i ==> IsRedirected(ds[k], target, made[k])
      invariant forall k :: 0 <= k < i ==> ds[k].artifact.Some? && ds[k].artifact.value in known
    {
      if ds[i].artifact.None? || ds[i].artifact.value !in known { return None; }
      made := made + [TargetDirective(ds[i].id, target, ds[i].kind, ds[i].value, ds[i].required)];
    }
    return Some(made);
  }

  ghost predicate MappingFine(m: ObligationMapping, bundle: string, artifacts: set<string>, directives: set<string>) {
    RefsFine(m.artifactRefs, "artifact", bundle, artifacts, false) && RefsFine(m.directiveRefs, "directive", bundle, directives, true)
  }

  /** Each obligation goes to the one emitted artifact. */
  method TranslateMappings(ms: seq<ObligationMapping>, bundle: string, artifacts: set<string>, directives: set<string>, target: string)
    returns (out: Option<seq<TargetMapping>>)
    ensures out.Some? <==> forall k :: 0 <= k < |ms| ==> MappingFine(ms[k], bundle, artifacts, directives)
    ensures out.Some? ==> |out.value| == |ms| && forall k :: 0 <= k < |ms| ==> out.value[k] == TargetMapping(ms[k].obligation, [target])
  {
    hide RefsFine;
    var made := [];
    for i := 0 to |ms|
      invariant |made| == i && forall k :: 0 <= k < i ==> made[k] == TargetMapping(ms[k].obligation, [target])
      invariant forall k :: 0 <= k < i ==> MappingFine(ms[k], bundle, artifacts, directives)
    {
      var sources := RefIds(ms[i].artifactRefs, "artifact", bundle, artifacts, false);
      if sources.None? { return None; }
      var named := RefIds(ms[i].directiveRefs, "directive", bundle, directives, true);
      if named.None? { return None; }
      SomeSource(ms[i].artifactRefs, "artifact", bundle, artifacts);
      var targets := [];
      for j := 0 to |sources.value|
        invariant targets == if j == 0 then [] else [target]
      {
        if target !in targets { targets := targets + [target]; }
      }
      made := made + [TargetMapping(ms[i].obligation, targets)];
    }
    return Some(made);
  }

  lemma SomeSource(refs: seq<Ref>, kind: string, scope: string, known: set<string>)
    requires RefsFine(refs, kind, scope, known, false)
    ensures refs != []
  {}

  // ------------------------------------------------------------------------ the plan

  ghost predicate PlanFine(cand: Candidate, obligations: set<string>, sem: Semantics, profile: Profile, technology: string) {
    && technology == "akamai-waf"
    && Indexed(ArtifactIds(cand.artifacts)) && DocumentsFine(cand.artifacts, sem, profile)
    && DirectivesFine(cand.directives, ArtifactIds(cand.artifacts))
    && (forall k :: 0 <= k < |cand.mappings| ==>
         MappingFine(cand.mappings[k], cand.bundle, set x | x in ArtifactIds(cand.artifacts), set x | x in DirectiveIds(cand.directives)))
    && forall o :: o in obligations <==> exists k :: 0 <= k < |cand.mappings| && cand.mappings[k].obligation == o
  }

  /** Every obligation has its mapping to the emitted artifact, every directive is
      carried over unchanged. */
  ghost predicate Accounted(cand: Candidate, obligations: set<string>, plan: Plan, target: string) {
    && (forall o :: o in obligations ==> exists k :: 0 <= k < |plan.mappings| && plan.mappings[k] == TargetMapping(o, [target]))
    && (forall k :: 0 <= k < |plan.mappings| ==> plan.mappings[k].obligation in obligations)
    && |plan.directives| == |cand.directives|
    && forall k :: 0 <= k < |cand.directives| ==> IsRedirected(cand.directives[k], target, plan.directives[k])
  }

  /** Every component that some alternative uses is a first occurrence or of any
      name, and where it is in a structured body it is a JSON pointer or any field. */
  ghost predicate AllPlain(arts: seq<Artifact>, sem: Semantics) {
    forall i, a, c :: 0 <= i < |arts| && UsedIn(arts[i], a, c) ==> c in sem.components ==> PlainLocation(sem.components[c].location)
  }

  ghost predicate UsedIn(art: Artifact, a: seq<string>, c: string) {
    art.rules.Some? && a in art.rules.value.coverage && c in a
  }

  /** `build_waf_translation_plan`: a plan is produced exactly when everything is
      expressible and every used rule is presentable; and its rules are exactly
      the source's alternatives if and only if every used component is plainly
      located.  `name` is the content address of the
      emitted rules. */
  method BuildPlan(cand: Candidate, obligations: set<string>, sem: Semantics, profile: Profile, technology: string,
                   name: seq<TargetRule> -> string) returns (out: Option<Plan>)
    ensures out.Some? <==> PlanFine(cand, obligations, sem, profile, technology) && AllGated(cand.artifacts, sem, profile)
    ensures out.Some? ==>
              && out.value.rules != [] && AllCovered(cand.artifacts, out.value.rules) && AllPass(out.value.rules, profile)
              && Accounted(cand, obligations, out.value, name(out.value.rules))
    ensures out.Some? && KeepsStar(profile.fold) ==>
              && AllMirrored(cand.artifacts, sem, profile, out.value.rules)
              && (Faithful(cand.artifacts, sem, profile, out.value.rules) <==> AllPlain(cand.artifacts, sem))
  {
    hide DocumentsFine, AllCovered, AllMirrored, Faithful, KeepsStar, AllRight, AllGated, AllPlain, MappingFine, Indexed, RulePasses;
    if technology != "akamai-waf" { return None; }
    var artifactIds := ArtifactIds(cand.artifacts);
    var artifacts := Index(artifactIds);
    if artifacts.None? { return None; }
    assert artifacts.value == set x | x in artifactIds;
    var rules := TranslateDocuments(cand.artifacts, sem, profile);
    if rules.None? { return None; }
    for i := 0 to |rules.value|
      invariant forall k :: 0 <= k < i ==> RulePasses(rules.value[k], profile)
    {
      var ok := CheckRule(rules.value[i], profile);
      if !ok { return None; }
    }
    GatedIsPlain(cand.artifacts, sem, profile);
    var target := name(rules.value);
    var directiveIds := DirectiveIds(cand.directives);
    var directives := Index(directiveIds);
    if directives.None? { return None; }
    assert directives.value == set x | x in directiveIds;
    var redirected := TranslateDirectives(cand.directives, artifacts.value, target);
    if redirected.None? { return None; }
    var mappings := TranslateMappings(cand.mappings, cand.bundle, artifacts.value, directives.value, target);
    if mappings.None? { return None; }
    var mapped := set k | 0 <= k < |mappings.value| :: mappings.value[k].obligation;
    MappedObligations(cand.mappings, mappings.value, target, mapped);
    if mapped != obligations {
      var o :| (o in mapped) != (o in obligations);
      return None;
    }
    return Some(Plan(rules.value, redirected.value, mappings.value));
  }

  /** Behind the gate no used field is spelled `*`, so that right places are plain
      locations. */
  lemma GatedIsPlain(arts: seq<Artifact>, sem: Semantics, profile: Profile)
    requires AllGated(arts, sem, profile) && DocumentsFine(arts, sem, profile)
    ensures AllRight(arts, sem) <==> AllPlain(arts, sem)
  {
    hide Expressible, RightPlace, PlainLocation;
    forall i, a, c | 0 <= i < |arts| && UsedIn(arts[i], a, c)
      ensures c in sem.components
      ensures !Counts(sem, !Independent(arts[i].rules.value.placement), c) ==> PlainLocation(sem.components[c].location)
      ensures Counts(sem, !Independent(arts[i].rules.value.placement), c) ==>
                (RightPlace(sem.components[c].location) <==> PlainLocation(sem.components[c].location))
    {
      assert ArtifactFine(arts[i], sem, profile);
      GatedComponent(arts[i].rules.value, sem, profile, a, c);
    }
    if AllRight(arts, sem) {
      forall i, a, c | 0 <= i < |arts| && UsedIn(arts[i], a, c) ensures PlainLocation(sem.components[c].location) {
        assert RightComponents(sem, a, !Independent(arts[i].rules.value.placement));
      }
    }
    if AllPlain(arts, sem) {
      forall i, a, c | 0 <= i < |arts| && UsedIn(arts[i], a, c) && Counts(sem, !Independent(arts[i].rules.value.placement), c)
        ensures RightPlace(sem.components[c].location) {}
      forall i | 0 <= i < |arts| && arts[i].rules.Some? ensures RightlyPlaced(arts[i].rules.value, sem) {
        forall a, c | a in arts[i].rules.value.coverage && c in a && Counts(sem, !Independent(arts[i].rules.value.placement), c)
          ensures c in sem.components && RightPlace(sem.components[c].location)
        {
          assert UsedIn(arts[i], a, c);
        }
      }
    }
  }

  lemma GatedComponent(doc: Document, sem: Semantics, profile: Profile, a: seq<string>, c: string)
    requires Expressible(doc, sem, profile) && Gated(doc, sem, profile) && a in doc.coverage && c in a
    ensures c in sem.components
    ensures !Counts(sem, !Independent(doc.placement), c) ==> PlainLocation(sem.components[c].location)
    ensures Counts(sem, !Independent(doc.placement), c) ==> (RightPlace(sem.components[c].location) <==> PlainLocation(sem.components[c].location))
  {
    CoverageRuled(doc, sem, profile, a, c);
    hide Expressible;
    var k :| 0 <= k < |doc.rules| && doc.rules[k].component == Some(c);
    assert Ruled(doc.rules[k], sem, profile.fold);
    if Counts(sem, !Independent(doc.placement), c) {
      assert PresentableAll(doc.rules, sem, profile, a, !Independent(doc.placement));
      assert PresentableComponent(doc.rules, sem, profile, c);
      PresentableIsNoStar(doc.rules[k], sem.components[c].location, profile);
    }
  }

  lemma PresentableIsNoStar(r: Rule, l: Location, profile: Profile)
    requires RuleFine(r, l, profile.fold) && Presentable(r, l, profile.space, profile.lower)
    ensures !StarSelector(l)
  {}

  lemma MappedObligations(ms: seq<ObligationMapping>, made: seq<TargetMapping>, target: string, mapped: set<string>)
    requires |made| == |ms| && forall k :: 0 <= k < |ms| ==> made[k] == TargetMapping(ms[k].obligation, [target])
    requires mapped == set k | 0 <= k < |made| :: made[k].obligation
    ensures forall o :: o in mapped <==> exists k :: 0 <= k < |ms| && ms[k].obligation == o
    ensures forall o :: o in mapped ==> exists k :: 0 <= k < |made| && made[k] == TargetMapping(o, [target])
    ensures forall k :: 0 <= k < |made| ==> made[k].obligation in mapped
  {
    forall o ensures o in mapped <==> exists k :: 0 <= k < |ms| && ms[k].obligation == o {
      if exists k :: 0 <= k < |ms| && ms[k].obligation == o {
        var k :| 0 <= k < |ms| && ms[k].obligation == o;
        assert made[k].obligation == o;
      }
    }
  }

  // ------------------------------------------------------------------------ meaning

  ghost predicate Fires(r: TargetRule, fold: string -> string, ask: Test -> bool) {
    forall c :: c in r.conditions ==> Reading(c, fold).Some? && ask(Reading(c, fold).value)
  }

  ghost predicate SomeFires(rules: seq<TargetRule>, fold: string -> string, ask: Test -> bool) {
    exists k :: 0 <= k < |rules| && Fires(rules[k], fold, ask)
  }

  ghost predicate AllHold(tests: set<Test>, ask: Test -> bool) { forall t :: t in tests ==> ask(t) }

  /** Some coverage alternative of some rule document holds of the request. */
  ghost predicate Denoted(arts: seq<Artifact>, sem: Semantics, profile: Profile, ask: Test -> bool) {
    exists i, comps, tests :: 0 <= i < |arts| && AlternativeOf(arts[i], sem, profile, comps, tests) && AllHold(tests, ask)
  }

  /** Whatever a request answers to each test, the OR of the emitted AND rules is
      the OR of the source's coverage alternatives. */
  lemma PlanMeaning(arts: seq<Artifact>, sem: Semantics, profile: Profile, rules: seq<TargetRule>, ask: Test -> bool)
    requires Faithful(arts, sem, profile, rules)
    ensures SomeFires(rules, profile.fold, ask) <==> Denoted(arts, sem, profile, ask)
  {
    hide AlternativeOf, Reading;
    if SomeFires(rules, profile.fold, ask) {
      var k :| 0 <= k < |rules| && Fires(rules[k], profile.fold, ask);
      var r := rules[k];
      assert FromSome(arts, sem, profile, r);
      var i :| 0 <= i < |arts| && AlternativeOf(arts[i], sem, profile, r.components, TestsOf(r.conditions, profile.fold));
      assert AllHold(TestsOf(r.conditions, profile.fold), ask);
    }
    if Denoted(arts, sem, profile, ask) {
      var i, comps, tests :| 0 <= i < |arts| && AlternativeOf(arts[i], sem, profile, comps, tests) && AllHold(tests, ask);
      assert Stands(rules, comps, tests, profile.fold);
      var k :| 0 <= k < |rules| && rules[k].components == comps && TestsOf(rules[k].conditions, profile.fold) == tests;
      assert FromSome(arts, sem, profile, rules[k]);
      forall c | c in rules[k].conditions ensures Reading(c, profile.fold).Some? && ask(Reading(c, profile.fold).value) {
        assert Reading(c, profile.fold).value in tests;
      }
      assert Fires(rules[k], profile.fold, ask);
    }
  }

  /** Some alternative asks only what can be emitted, and nothing beyond these tests. */
  ghost predicate Subsumed(arts: seq<Artifact>, sem: Semantics, profile: Profile, tests: set<Test>) {
    exists i, comps, fewer :: 0 <= i < |arts| && AlternativeOf(arts[i], sem, profile, comps, fewer) && AllEmittable(fewer) && fewer <= tests
  }

  ghost predicate AllSubsumed(arts: seq<Artifact>, sem: Semantics, profile: Profile) {
    forall i, comps, tests :: 0 <= i < |arts| && AlternativeOf(arts[i], sem, profile, comps, tests) ==> Subsumed(arts, sem, profile, tests)
  }

  /** A plan answers every request as its source does if and only if every
      alternative that asks what cannot be emitted adds nothing to one that does
      not: otherwise some request separates the two. */
  lemma PlanMeaningExactly(arts: seq<Artifact>, sem: Semantics, profile: Profile, rules: seq<TargetRule>)
    requires AllMirrored(arts, sem, profile, rules)
    ensures (forall ask: Test -> bool :: SomeFires(rules, profile.fold, ask) <==> Denoted(arts, sem, profile, ask))
            <==> AllSubsumed(arts, sem, profile)
  {
    hide AllMirrored, AlternativeOf, SomeFires, Denoted, Subsumed;
    if AllSubsumed(arts, sem, profile) {
      forall ask: Test -> bool ensures SomeFires(rules, profile.fold, ask) <==> Denoted(arts, sem, profile, ask) {
        if SomeFires(rules, profile.fold, ask) { FiredIsDenoted(arts, sem, profile, rules, ask); }
        if Denoted(arts, sem, profile, ask) { DenotedFires(arts, sem, profile, rules, ask); }
      }
    }
    if forall ask: Test -> bool :: SomeFires(rules, profile.fold, ask) <==> Denoted(arts, sem, profile, ask) {
      forall i, comps, tests | 0 <= i < |arts| && AlternativeOf(arts[i], sem, profile, comps, tests) ensures Subsumed(arts, sem, profile, tests) {
        SameAnswersSubsume(arts, sem, profile, rules, i, comps, tests);
      }
    }
  }

  /** A rule fires exactly when its tests hold, once it can be read. */
  lemma FiresIs(r: TargetRule, fold: string -> string, ask: Test -> bool)
    requires Readable(r.conditions, fold)
    ensures Fires(r, fold, ask) <==> AllHold(TestsOf(r.conditions, fold), ask)
  {
    hide Reading;
    if AllHold(TestsOf(r.conditions, fold), ask) {
      forall c | c in r.conditions ensures Reading(c, fold).Some? && ask(Reading(c, fold).value) {
        assert Reading(c, fold).value in TestsOf(r.conditions, fold);
      }
    }
  }

  lemma FiredIsDenoted(arts: seq<Artifact>, sem: Semantics, profile: Profile, rules: seq<TargetRule>, ask: Test -> bool)
    requires AllMirrored(arts, sem, profile, rules) && AllSubsumed(arts, sem, profile) && SomeFires(rules, profile.fold, ask)
    ensures Denoted(arts, sem, profile, ask)
  {
    hide AlternativeOf, TestsOf, Readable, Emittable, HasMirror, Fires;
    var k :| 0 <= k < |rules| && Fires(rules[k], profile.fold, ask);
    assert MirrorsOne(arts, sem, profile, rules[k]);
    var i, tests :| 0 <= i < |arts| && AlternativeOf(arts[i], sem, profile, rules[k].components, tests) && Mirrors(TestsOf(rules[k].conditions, profile.fold), tests);
    FiresIs(rules[k], profile.fold, ask);
    assert Subsumed(arts, sem, profile, tests);
    var j, comps, fewer :| 0 <= j < |arts| && AlternativeOf(arts[j], sem, profile, comps, fewer) && AllEmittable(fewer) && fewer <= tests;
    assert AllHold(fewer, ask);
  }

  lemma DenotedFires(arts: seq<Artifact>, sem: Semantics, profile: Profile, rules: seq<TargetRule>, ask: Test -> bool)
    requires AllMirrored(arts, sem, profile, rules) && AllSubsumed(arts, sem, profile) && Denoted(arts, sem, profile, ask)
    ensures SomeFires(rules, profile.fold, ask)
  {
    hide AlternativeOf, TestsOf, Readable, Emittable, Fires;
    var i, comps, tests :| 0 <= i < |arts| && AlternativeOf(arts[i], sem, profile, comps, tests) && AllHold(tests, ask);
    assert Subsumed(arts, sem, profile, tests);
    var j, comps', fewer :| 0 <= j < |arts| && AlternativeOf(arts[j], sem, profile, comps', fewer) && AllEmittable(fewer) && fewer <= tests;
    assert HasMirror(rules, comps', fewer, profile.fold);
    var k :| 0 <= k < |rules| && rules[k].components == comps' && Mirrors(TestsOf(rules[k].conditions, profile.fold), fewer);
    assert MirrorsOne(arts, sem, profile, rules[k]);
    FiresIs(rules[k], profile.fold, ask);
  }

  /** Where all requests are answered alike: the request that meets just this
      alternative fires a rule, and the request that meets just that rule meets an
      alternative, which asks no more than either. */
  lemma SameAnswersSubsume(arts: seq<Artifact>, sem: Semantics, profile: Profile, rules: seq<TargetRule>, i: nat, comps: seq<string>, tests: set<Test>)
    requires AllMirrored(arts, sem, profile, rules)
    requires forall ask: Test -> bool :: SomeFires(rules, profile.fold, ask) <==> Denoted(arts, sem, profile, ask)
    requires i < |arts| && AlternativeOf(arts[i], sem, profile, comps, tests)
    ensures Subsumed(arts, sem, profile, tests)
  {
    hide AlternativeOf, TestsOf, Readable, Emittable, Fires, HasMirror;
    var met := (t: Test) => t in tests;
    assert AllHold(tests, met);
    assert Denoted(arts, sem, profile, met);
    var k :| 0 <= k < |rules| && Fires(rules[k], profile.fold, met);
    assert MirrorsOne(arts, sem, profile, rules[k]);
    FiresIs(rules[k], profile.fold, met);
    var emitted := TestsOf(rules[k].conditions, profile.fold);
    var fired := (t: Test) => t in emitted;
    FiresIs(rules[k], profile.fold, fired);
    assert SomeFires(rules, profile.fold, fired);
    var j, comps', fewer :| 0 <= j < |arts| && AlternativeOf(arts[j], sem, profile, comps', fewer) && AllHold(fewer, fired);
    assert fewer <= emitted <= tests;
  }
}
