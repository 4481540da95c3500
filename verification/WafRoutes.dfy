/** Route-bound alternatives: the path components of an alternative are replaced
    by the resolved route, once for every authenticated path payload. */
module WafRoutes {
  import opened Options
  import opened WafConditions
  import opened WafRules
  import opened PathSegments

  // ------------------------------------------------------------- what a route asks

  /** `_source_input_route`. */
  function InputRoute(i: Input): Option<Route> {
    if !Given(i.method_) then None
    else if i.modality == "http-request-template" then
      if Given(i.pathKey) then Some(Opaque(i.method_.value, i.pathKey.value)) else None
    else if i.modality == "http-request" && Given(i.path) then
      Some(Rendered(i.method_.value, i.path.value, IfGiven(i.scheme), IfGiven(i.authority)))
    else None
  }

  function IfGiven(s: Option<string>): Option<string> { if Given(s) then s else None }

  /** The input travels this route: a template by its method and path key, a rendered
      request by its method and path, and by its scheme and authority where it
      gives them. */
  predicate Travels(i: Input, route: Route) {
    match route
    case Opaque(name, key) => i.modality == "http-request-template" && i.method_ == Some(name) && name != "" && i.pathKey == Some(key) && key != ""
    case Rendered(name, path, scheme, authority) =>
      && i.modality == "http-request" && i.method_ == Some(name) && name != "" && i.path == Some(path) && path != ""
      && States(i.scheme, scheme) && States(i.authority, authority)
    case OtherRoute => false
  }

  predicate States(given: Option<string>, stated: Option<string>) {
    if stated.Some? then given == stated && stated.value != "" else given == None || given == Some("")
  }

  lemma TravelsExactly(i: Input, route: Route)
    ensures InputRoute(i) == Some(route) <==> Travels(i, route)
  {}

  predicate OnRoute(sem: Semantics, ref: string, route: Route) { ref in sem.inputs && Travels(sem.inputs[ref], route) }

  /** The component's inputs that travel this route, in order. */
  function Expected(sem: Semantics, refs: seq<string>, route: Route): (out: seq<string>)
    ensures forall ref :: ref in out <==> ref in refs && OnRoute(sem, ref, route)
  {
    if refs == [] then []
    else
      var before, last := Expected(sem, refs[..|refs| - 1], route), refs[|refs| - 1];
      assert refs == refs[..|refs| - 1] + [last];
      if last in sem.inputs then TravelsExactly(sem.inputs[last], route); if InputRoute(sem.inputs[last]) == Some(route) then before + [last] else before
      else before
  }

  /** Inputs are kept or left out one by one, and stay in order. */
  lemma {:induction false} ExpectedFilters(sem: Semantics, a: seq<string>, b: seq<string>, route: Route)
    ensures Expected(sem, a + b, route) == Expected(sem, a, route) + Expected(sem, b, route)
    ensures forall ref :: Expected(sem, [ref], route) == if OnRoute(sem, ref, route) then [ref] else []
  {
    hide *;
    forall ref ensures Expected(sem, [ref], route) == if OnRoute(sem, ref, route) then [ref] else [] { ExpectedOne(sem, ref, route); }
    if b == [] {
      ExpectedNone(sem, route);
      assert a + b == a && Expected(sem, a, route) + [] == Expected(sem, a, route);
    } else {
      var front, last := b[..|b| - 1], b[|b| - 1];
      assert a + b == (a + front) + [last] && b == front + [last];
      ExpectedSnoc(sem, a + front, last, route);
      ExpectedSnoc(sem, front, last, route);
      ExpectedFilters(sem, a, front, route);
      var x, y, z := Expected(sem, a, route), Expected(sem, front, route), Expected(sem, [last], route);
      assert x + y + z == x + (y + z);
    }
  }

  lemma ExpectedNone(sem: Semantics, route: Route)
    ensures Expected(sem, [], route) == []
  {}

  lemma ExpectedSnoc(sem: Semantics, refs: seq<string>, last: string, route: Route)
    ensures Expected(sem, refs + [last], route) == Expected(sem, refs, route) + Expected(sem, [last], route)
  {
    var all := refs + [last];
    assert all[..|all| - 1] == refs && all[|all| - 1] == last && [last][..0] == [];
    ExpectedNone(sem, route);
    hide InputRoute, OnRoute;
  }

  lemma ExpectedOne(sem: Semantics, ref: string, route: Route)
    ensures Expected(sem, [ref], route) == if OnRoute(sem, ref, route) then [ref] else []
  {
    assert [ref][..0] == [] && Expected(sem, [], route) == [];
    if ref in sem.inputs { TravelsExactly(sem.inputs[ref], route); }
    hide InputRoute, Travels;
  }

  /** The method and path that a route stands for under the profile. */
  function ResolvedPath(route: Route, paths: map<string, string>): Option<string> {
    match route
    case Opaque(m, key) => if m != "" && key in paths && paths[key] != "" then Some(paths[key]) else None
    case Rendered(m, path, _, _) => if m != "" && path != "" then Some(path) else None
    case OtherRoute => None
  }

  function MethodName(route: Route): string {
    match route case Opaque(m, _) => m case Rendered(m, _, _, _) => m case OtherRoute => ""
  }

  /** The route has this method and leads to this path under the profile. */
  predicate Resolves(route: Route, paths: map<string, string>, name: string, base: string) {
    && name != "" && base != ""
    && (|| (route.Opaque? && route.method_ == name && route.pathKey in paths && paths[route.pathKey] == base)
        || (route.Rendered? && route.method_ == name && route.path == base))
  }

  /** `_resolved_route_conditions` asks for that method and path. */
  lemma ResolvesExactly(route: Route, paths: map<string, string>, name: string, base: string)
    ensures Resolves(route, paths, name, base) <==> ResolvedPath(route, paths) == Some(base) && MethodName(route) == name
  {}

  predicate IsPathComponent(sem: Semantics, c: string) {
    c in sem.components && sem.components[c].location.kind == "http-path"
  }

  /** A payload authenticated for a path component of the bound alternative. */
  ghost predicate IsPayload(sem: Semantics, comps: seq<string>, route: Route, payload: string) {
    exists c, ref :: c in comps && IsPathComponent(sem, c) && PayloadAt(sem, c, ref, route, payload)
  }

  predicate PayloadAt(sem: Semantics, c: string, ref: string, route: Route, payload: string) {
    c in sem.components && ref in sem.components[c].inputRefs && OnRoute(sem, ref, route) && sem.inputs[ref].payload == Some(payload)
  }

  /** The base extended by a payload, or, where there is none, the base. */
  ghost predicate PathFrom(sem: Semantics, b: Bound, base: string, path: string) {
    if exists payload :: IsPayload(sem, b.components, b.route, payload)
    then exists payload :: IsPayload(sem, b.components, b.route, payload) && Extends(base, payload, path)
    else path == base
  }

  /** The paths a bound alternative admits: one per payload, or the route's own. */
  ghost predicate RoutePath(sem: Semantics, profile: Profile, b: Bound, path: string) {
    exists name :: RouteAsks(sem, profile, b, name, path)
  }

  /** With the method of the route. */
  ghost predicate RouteAsks(sem: Semantics, profile: Profile, b: Bound, name: string, path: string) {
    exists base :: Resolves(b.route, profile.paths, name, base) && PathFrom(sem, b, base, path)
  }

  lemma RouteIs(sem: Semantics, profile: Profile, b: Bound, name: string, path: string)
    ensures RouteAsks(sem, profile, b, name, path) <==>
            && ResolvedPath(b.route, profile.paths).Some? && MethodName(b.route) == name
            && PathFrom(sem, b, ResolvedPath(b.route, profile.paths).value, path)
    ensures RouteAsks(sem, profile, b, name, path) ==> path != "" && name != ""
  {
    hide PathFrom;
    forall base ensures Resolves(b.route, profile.paths, name, base) <==> ResolvedPath(b.route, profile.paths) == Some(base) && MethodName(b.route) == name {
      ResolvesExactly(b.route, profile.paths, name, base);
    }
    if base :| Resolves(b.route, profile.paths, name, base) && PathFrom(sem, b, base, path) { PathNotEmpty(sem, b, base, path); }
    if ResolvedPath(b.route, profile.paths).Some? { assert ResolvedPath(b.route, profile.paths) == Some(ResolvedPath(b.route, profile.paths).value); }
  }

  lemma PathNotEmpty(sem: Semantics, b: Bound, base: string, path: string)
    requires base != "" && PathFrom(sem, b, base, path)
    ensures path != ""
  {
    hide IsPayload, EscapeSegment;
  }

  /** On one route, different payloads give different rules: the payload of a path
      can be read off it, and the path of a payload is one. */
  lemma PayloadsApart(base: string, p: string, q: string, path: string, other: string)
    requires Extends(base, p, path) && Extends(base, q, other)
    ensures path == other <==> p == q
  {
    hide Extends, Joined;
    JoinedExactly(base, p, path);
    JoinedExactly(base, q, other);
    JoinedExactly(base, q, path);
    if path == other { PathsApart(base, p, q, path); }
  }

  // --------------------------------------------------------------- what is accepted

  ghost predicate BindingsFine(bindings: seq<Binding>) {
    && (forall k :: 0 <= k < |bindings| ==> bindings[k].component != "")
    && forall j, k :: 0 <= j < k < |bindings| ==> bindings[j].component != bindings[k].component
  }

  ghost predicate BoundTo(bindings: seq<Binding>, c: string, refs: seq<string>) {
    exists k :: 0 <= k < |bindings| && bindings[k] == Binding(c, refs)
  }

  /** The component is known, ruled, bound to exactly its inputs on this route, and
      has its payloads where the route is a template. */
  ghost predicate ComponentBound(b: Bound, rules: seq<Rule>, sem: Semantics, c: string) {
    && c in sem.components && RuledComponent(rules, c)
    && var expected := Expected(sem, sem.components[c].inputRefs, b.route);
    && expected != [] && BoundTo(b.bindings, c, expected)
    && (IsPathComponent(sem, c) && b.route.Opaque? ==> forall ref :: ref in expected ==> Given(sem.inputs[ref].payload))
  }

  ghost predicate BoundFine(b: Bound, coverage: seq<seq<string>>, rules: seq<Rule>, sem: Semantics, profile: Profile) {
    && b.alternative != "" && b.components != [] && b.components in coverage
    && BindingsFine(b.bindings)
    && (forall c :: c in b.components <==> exists k :: 0 <= k < |b.bindings| && b.bindings[k].component == c)
    && (forall c :: c in b.components ==> ComponentBound(b, rules, sem, c))
    && exists name, base :: Resolves(b.route, profile.paths, name, base)
  }

  // -------------------------------------------------------------------- the loops

  method IndexBindings(bindings: seq<Binding>) returns (out: Option<map<string, seq<string>>>)
    ensures out.Some? <==> BindingsFine(bindings)
    ensures out.Some? ==> forall c :: c in out.value <==> exists k :: 0 <= k < |bindings| && bindings[k].component == c
    ensures out.Some? ==> forall c, refs :: BoundTo(bindings, c, refs) <==> c in out.value && out.value[c] == refs
  {
    var index: map<string, seq<string>> := map[];
    for i := 0 to |bindings|
      invariant BindingsFine(bindings[..i])
      invariant forall k :: 0 <= k < i ==> bindings[k].component in index && index[bindings[k].component] == bindings[k].inputRefs
      invariant forall c :: c in index ==> exists k :: 0 <= k < i && bindings[k].component == c
    {
      var b := bindings[i];
      if b.component == "" || b.component in index {
        if b.component in index {
          var k :| 0 <= k < i && bindings[k].component == b.component;
        }
        return None;
      }
      forall j, k | 0 <= j < k < i + 1 ensures bindings[j].component != bindings[k].component {
        if k < i { assert bindings[..i][j].component != bindings[..i][k].component; }
      }
      index := index[b.component := b.inputRefs];
    }
    assert bindings[..|bindings|] == bindings;
    forall c, refs ensures BoundTo(bindings, c, refs) <==> c in index && index[c] == refs {
      if c in index && index[c] == refs {
        var k :| 0 <= k < |bindings| && bindings[k].component == c;
        assert bindings[k] == Binding(c, refs);
      }
    }
    return Some(index);
  }

  /** The payloads of one path component, added to those already found. */
  method AddPayloads(sem: Semantics, refs: seq<string>, route: Route, found: seq<string>) returns (out: Option<seq<string>>)
    requires forall ref :: ref in refs ==> ref in sem.inputs
    ensures out.Some? <==> (route.Opaque? ==> forall ref :: ref in refs ==> Given(sem.inputs[ref].payload))
    ensures out.Some? ==> forall p :: p in out.value <==> p in found || exists ref :: ref in refs && sem.inputs[ref].payload == Some(p)
  {
    var all := found;
    for i := 0 to |refs|
      invariant route.Opaque? ==> forall k :: 0 <= k < i ==> Given(sem.inputs[refs[k]].payload)
      invariant forall p :: p in all <==> p in found || exists k :: 0 <= k < i && sem.inputs[refs[k]].payload == Some(p)
    {
      var payload := sem.inputs[refs[i]].payload;
      if route.Opaque? && !Given(payload) { return None; }
      if payload.Some? && payload.value !in all { all := all + [payload.value]; }
    }
    return Some(all);
  }

  /** One component of a bound alternative. */
  method BindComponent(b: Bound, rules: seq<Rule>, sem: Semantics, table: map<string, Condition>, index: map<string, seq<string>>,
                       c: string, found: seq<string>) returns (out: Option<seq<string>>)
    requires c in table <==> RuledComponent(rules, c)
    requires c in index && forall refs :: BoundTo(b.bindings, c, refs) <==> index[c] == refs
    ensures out.Some? <==> ComponentBound(b, rules, sem, c)
    ensures out.Some? ==> forall p :: p in out.value <==>
                            p in found || (IsPathComponent(sem, c) && exists ref :: PayloadAt(sem, c, ref, b.route, p))
  {
    hide RuledComponent, BoundTo;
    if c !in sem.components || c !in table { return None; }
    var expected := Expected(sem, sem.components[c].inputRefs, b.route);
    if index[c] != expected || expected == [] { return None; }
    if sem.components[c].location.kind != "http-path" { return Some(found); }
    out := AddPayloads(sem, expected, b.route, found);
    if out.Some? {
      forall p ensures (exists ref :: ref in expected && sem.inputs[ref].payload == Some(p)) <==> exists ref :: PayloadAt(sem, c, ref, b.route, p) {
        if exists ref :: ref in expected && sem.inputs[ref].payload == Some(p) {
          var ref :| ref in expected && sem.inputs[ref].payload == Some(p);
          assert PayloadAt(sem, c, ref, b.route, p);
        }
        if exists ref :: PayloadAt(sem, c, ref, b.route, p) {
          var ref :| PayloadAt(sem, c, ref, b.route, p);
          assert ref in expected;
        }
      }
    }
  }

  /** The loop over a bound alternative's components. */
  method BoundPayloads(b: Bound, rules: seq<Rule>, sem: Semantics, table: map<string, Condition>, index: map<string, seq<string>>)
    returns (out: Option<seq<string>>)
    requires forall c :: c in table <==> RuledComponent(rules, c)
    requires forall c :: c in b.components ==> c in index
    requires forall c, refs :: BoundTo(b.bindings, c, refs) <==> c in index && index[c] == refs
    ensures out.Some? <==> forall c :: c in b.components ==> ComponentBound(b, rules, sem, c)
    ensures out.Some? ==> forall p :: p in out.value <==> IsPayload(sem, b.components, b.route, p)
  {
    hide RuledComponent, BoundTo, ComponentBound, PayloadAt;
    var found := [];
    for i := 0 to |b.components|
      invariant forall k :: 0 <= k < i ==> ComponentBound(b, rules, sem, b.components[k])
      invariant forall p :: p in found <==> IsPayload(sem, b.components[..i], b.route, p)
    {
      hide IsPayload;
      var c := b.components[i];
      assert c in b.components;
      assert b.components[..i + 1] == b.components[..i] + [c];
      forall p ensures IsPayload(sem, b.components[..i + 1], b.route, p) <==>
                       IsPayload(sem, b.components[..i], b.route, p)
                       || (IsPathComponent(sem, c) && exists ref :: PayloadAt(sem, c, ref, b.route, p)) {
        PayloadStep(sem, b.components[..i], c, b.route, p);
      }
      var more := BindComponent(b, rules, sem, table, index, c, found);
      if more.None? { return None; }
      found := more.value;
    }
    assert b.components[..|b.components|] == b.components;
    return Some(found);
  }

  lemma PayloadStep(sem: Semantics, comps: seq<string>, c: string, route: Route, p: string)
    ensures IsPayload(sem, comps + [c], route, p) <==>
            IsPayload(sem, comps, route, p) || (IsPathComponent(sem, c) && exists ref :: PayloadAt(sem, c, ref, route, p))
  {
    var all := comps + [c];
    forall x ensures x in all <==> x in comps || x == c {}
    if IsPayload(sem, all, route, p) {
      var x, ref :| x in all && IsPathComponent(sem, x) && PayloadAt(sem, x, ref, route, p);
      if x in comps { assert IsPayload(sem, comps, route, p); }
    }
    if IsPayload(sem, comps, route, p) {
      var x, ref :| x in comps && IsPathComponent(sem, x) && PayloadAt(sem, x, ref, route, p);
      assert x in all;
    }
    if IsPathComponent(sem, c) && exists ref :: PayloadAt(sem, c, ref, route, p) {
      var ref :| PayloadAt(sem, c, ref, route, p);
      assert c in all;
    }
  }

  // ------------------------------------------------------------------ what is emitted

  function ExactPath(path: string): Condition {
    Condition("pathMatch", true, true, path, "exact", None, None, None, [], None, None, None)
  }

  function ExactMethod(name: string): Condition {
    Condition("requestMethodMatch", true, true, name, "exact", None, None, None, [], None, None, None)
  }

  /** The conditions of the components that are not on the path. */
  function OffPath(sem: Semantics, table: map<string, Condition>, comps: seq<string>): seq<Condition> {
    if comps == [] then []
    else
      var before, last := OffPath(sem, table, comps[..|comps| - 1]), comps[|comps| - 1];
      if last in table && !IsPathComponent(sem, last) then before + [table[last]] else before
  }

  function BoundConditions(sem: Semantics, table: map<string, Condition>, b: Bound, path: string): seq<Condition> {
    [ExactPath(path), ExactMethod(MethodName(b.route))] + OffPath(sem, table, b.components)
  }

  ghost predicate Emits(rules: seq<TargetRule>, comps: seq<string>, conditions: seq<Condition>) {
    exists k :: 0 <= k < |rules| && rules[k].components == comps && rules[k].conditions == conditions
  }

  /** The rule stands for the bound alternative on one of its paths. */
  ghost predicate EmittedFor(sem: Semantics, profile: Profile, table: map<string, Condition>, b: Bound, r: TargetRule) {
    r.alternative.RouteBound? && r.alternative.id == b.alternative && r.components == b.components && exists path :: RoutePath(sem, profile, b, path) && r.conditions == BoundConditions(sem, table, b, path)
  }

  /** One bound alternative: one AND rule for each of its paths, or nothing. */
  method TranslateBound(b: Bound, coverage: seq<seq<string>>, rules: seq<Rule>, sem: Semantics, profile: Profile, table: map<string, Condition>)
    returns (out: Option<seq<TargetRule>>)
    requires forall c :: c in table <==> RuledComponent(rules, c)
    ensures out.Some? <==> BoundFine(b, coverage, rules, sem, profile)
    ensures out.Some? ==> forall path :: RoutePath(sem, profile, b, path) ==> Emits(out.value, b.components, BoundConditions(sem, table, b, path))
    ensures out.Some? ==> |out.value| > 0 && forall k :: 0 <= k < |out.value| ==>
                            EmittedFor(sem, profile, table, b, out.value[k]) && out.value[k].alternative.variant == if |out.value| == 1 then None else Some(k)
  {
    hide RuledComponent, BindingsFine, BoundTo, ComponentBound, IsPayload, BoundConditions;
    if b.alternative == "" || b.components == [] || b.components !in coverage { return None; }
    var index := IndexBindings(b.bindings);
    if index.None? { return None; }
    var bound, named := index.value.Keys, set c | c in b.components;
    if bound != named {
      var c :| (c in bound) != (c in named);
      return None;
    }
    forall c ensures c in b.components <==> c in index.value { assert c in bound <==> c in named; }
    var payloads := BoundPayloads(b, rules, sem, table, index.value);
    if payloads.None? { return None; }
    var base := ResolvedPath(b.route, profile.paths);
    forall name, at ensures Resolves(b.route, profile.paths, name, at) <==> base == Some(at) && MethodName(b.route) == name {
      ResolvesExactly(b.route, profile.paths, name, at);
    }
    hide Resolves, ResolvedPath;
    if base.None? { return None; }
    assert Resolves(b.route, profile.paths, MethodName(b.route), base.value);
    var made := EmitVariants(b, sem, table, base.value, payloads.value, profile);
    return Some(made);
  }

  method EmitVariants(b: Bound, sem: Semantics, table: map<string, Condition>, base: string, payloads: seq<string>, profile: Profile)
    returns (made: seq<TargetRule>)
    requires ResolvedPath(b.route, profile.paths) == Some(base)
    requires forall p :: p in payloads <==> IsPayload(sem, b.components, b.route, p)
    ensures forall path :: RoutePath(sem, profile, b, path) ==> Emits(made, b.components, BoundConditions(sem, table, b, path))
    ensures |made| > 0 && forall k :: 0 <= k < |made| ==> EmittedFor(sem, profile, table, b, made[k]) && made[k].alternative.variant == if |made| == 1 then None else Some(k)
  {
    hide IsPayload, BoundConditions, RoutePath, EmittedFor, Emits, Joined, ResolvedPath;
    made := [];
    if payloads == [] {
      made := [TargetRule(RouteBound(b.alternative, None), b.components, BoundConditions(sem, table, b, base))];
      assert AsVariants(b, sem, table, [base], true, made);
      VariantsStand(b, sem, profile, table, base, payloads, [base], made);
      return;
    }
    ghost var paths: seq<string> := [];
    for i := 0 to |payloads|
      invariant |paths| == i && (forall k :: 0 <= k < i ==> paths[k] == Joined(base, payloads[k])) && AsVariants(b, sem, table, paths, |payloads| == 1, made)
    {
      var path := Joined(base, payloads[i]);
      made := made + [TargetRule(RouteBound(b.alternative, if |payloads| == 1 then None else Some(i)), b.components,
                                 BoundConditions(sem, table, b, path))];
      paths := paths + [path];
    }
    VariantsStand(b, sem, profile, table, base, payloads, paths, made);
  }

  /** One rule for each of the paths, numbered unless there is one. */
  ghost predicate AsVariants(b: Bound, sem: Semantics, table: map<string, Condition>, paths: seq<string>, single: bool, made: seq<TargetRule>) {
    |made| == |paths| && forall k :: 0 <= k < |made| ==>
      && made[k].alternative == RouteBound(b.alternative, if single then None else Some(k))
      && made[k].components == b.components && made[k].conditions == BoundConditions(sem, table, b, paths[k])
  }

  lemma VariantsStand(b: Bound, sem: Semantics, profile: Profile, table: map<string, Condition>, base: string, payloads: seq<string>,
                      paths: seq<string>, made: seq<TargetRule>)
    requires ResolvedPath(b.route, profile.paths) == Some(base)
    requires forall p :: p in payloads <==> IsPayload(sem, b.components, b.route, p)
    requires if payloads == [] then paths == [base] else |paths| == |payloads| && forall k :: 0 <= k < |paths| ==> paths[k] == Joined(base, payloads[k])
    requires AsVariants(b, sem, table, paths, |payloads| <= 1, made)
    ensures forall path :: RoutePath(sem, profile, b, path) ==> Emits(made, b.components, BoundConditions(sem, table, b, path))
    ensures |made| > 0 && forall k :: 0 <= k < |made| ==> EmittedFor(sem, profile, table, b, made[k]) && made[k].alternative.variant == if |made| == 1 then None else Some(k)
  {
    forall path ensures RoutePath(sem, profile, b, path) <==> path in paths { PathsExactly(b, sem, profile, base, payloads, paths, path); }
    hide IsPayload, BoundConditions, RoutePath, Joined, ResolvedPath;
    forall path | RoutePath(sem, profile, b, path) ensures Emits(made, b.components, BoundConditions(sem, table, b, path)) {
      var k :| 0 <= k < |paths| && paths[k] == path;
      assert made[k].components == b.components;
    }
    forall k | 0 <= k < |made| ensures EmittedFor(sem, profile, table, b, made[k]) { assert paths[k] in paths; }
  }

  lemma PathsExactly(b: Bound, sem: Semantics, profile: Profile, base: string, payloads: seq<string>, paths: seq<string>, path: string)
    requires ResolvedPath(b.route, profile.paths) == Some(base)
    requires forall p :: p in payloads <==> IsPayload(sem, b.components, b.route, p)
    requires if payloads == [] then paths == [base] else |paths| == |payloads| && forall k :: 0 <= k < |paths| ==> paths[k] == Joined(base, payloads[k])
    ensures RoutePath(sem, profile, b, path) <==> path in paths
  {
    RouteIs(sem, profile, b, MethodName(b.route), path);
    OneMethod(sem, profile, b, path);
    forall payload ensures Extends(base, payload, path) <==> path == Joined(base, payload) { JoinedExactly(base, payload, path); }
    hide IsPayload, RoutePath, RouteAsks, Extends, Joined, ResolvedPath;
    if payloads != [] {
      assert payloads[0] in payloads;
      if payload :| payload in payloads && path == Joined(base, payload) {
        var k :| 0 <= k < |payloads| && payloads[k] == payload;
        assert paths[k] == path;
      }
      if path in paths {
        var k :| 0 <= k < |paths| && paths[k] == path;
        assert payloads[k] in payloads;
      }
    }
  }

  lemma OneMethod(sem: Semantics, profile: Profile, b: Bound, path: string)
    ensures RoutePath(sem, profile, b, path) <==> RouteAsks(sem, profile, b, MethodName(b.route), path)
  {
    hide RouteAsks;
    if name :| RouteAsks(sem, profile, b, name, path) { RouteIs(sem, profile, b, name, path); }
  }
}
