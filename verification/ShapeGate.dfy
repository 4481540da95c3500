/** The shape gate every candidate rule passes through, and which compiled rules
    pass it. */
module ShapeGate {
  import opened Json
  import opened Options
  import opened PercentEncoding
  import opened Operators
  import opened RuleCompiler
  import opened GateTables
  import opened Tokenizer

  datatype GateError =
    | NotAnObject
    | EmbeddedAction(keys: seq<string>)
    | BadOperation
    | NoConditions
    | UnknownKind(index: nat)
    | BadPositiveMatch(index: nat)
    | BadValue(index: nat)
    | MissingParameter(index: nat)
    | MissingHeader(index: nat)
    | SyntheticHeader(index: nat)
    | StrayHeader(index: nat)

  // --------------------------------------------------------------------- the gate

  predicate ValidConditionValue(value: Json) {
    match value
    case Str(s) => s != ""
    case Arr(items) => items != [] && forall k :: 0 <= k < |items| ==> items[k].Str? && items[k].s != ""
    case _ => false
  }

  function Check(ok: bool, error: GateError): seq<GateError> {
    if ok then [] else [error]
  }

  function ConditionErrors(u: Unicode, index: nat, c: Json): seq<GateError> {
    var kind := if Get(c, "type").Str? then Get(c, "type").s else "";
    var header := Get(c, "header");
    var parameter := Get(c, "parameter");
    Check(kind in CONDITION_KINDS, UnknownKind(index)) +
    Check(Get(c, "positiveMatch").Bool?, BadPositiveMatch(index)) +
    Check(ValidConditionValue(Get(c, "value")), BadValue(index)) +
    Check(kind == "argsPostJSONMatch" ==> parameter.Str? && !Blank(u.space, parameter.s), MissingParameter(index)) +
    (if kind == "requestHeaderValueMatch" then
       if !header.Str? || Blank(u.space, header.s) then [MissingHeader(index)]
       else Check(!Synthetic(u.space, u.lower, header.s), SyntheticHeader(index))
     else Check(!Has(c, "header"), StrayHeader(index)))
  }

  function AllConditionErrors(u: Unicode, items: seq<Json>): seq<GateError> {
    if items == [] then []
    else
      var n := |items| - 1;
      AllConditionErrors(u, items[..n]) + ConditionErrors(u, n, items[n])
  }

  /** A condition list decodes when every element is an object or null. */
  predicate IsConditionList(j: Json) {
    j.Arr? && j.items != [] && forall k :: 0 <= k < |j.items| ==> j.items[k].Obj? || j.items[k].Null?
  }

  const FORBIDDEN_KEYS: seq<string> := ["action", "alert", "deny"]

  /** The action keys embedded in the rule body. */
  function ForbiddenIn(rule: Json, count: nat): seq<string>
    requires count <= |FORBIDDEN_KEYS|
  {
    if count == 0 then []
    else ForbiddenIn(rule, count - 1) + if Has(rule, FORBIDDEN_KEYS[count - 1]) then [FORBIDDEN_KEYS[count - 1]] else []
  }

  function ActionErrors(rule: Json): seq<GateError> {
    var keys := ForbiddenIn(rule, |FORBIDDEN_KEYS|);
    Check(keys == [], EmbeddedAction(keys))
  }

  function BodyErrors(u: Unicode, conditions: Json): seq<GateError> {
    if IsConditionList(conditions) then AllConditionErrors(u, conditions.items) else [NoConditions]
  }

  function GateErrors(u: Unicode, rule: Json): seq<GateError> {
    if !rule.Obj? && !rule.Null? then [NotAnObject]
    else
      ActionErrors(rule) +
      Check(Get(rule, "operation") == Str("AND") || Get(rule, "operation") == Str("OR"), BadOperation) +
      BodyErrors(u, Get(rule, "conditions"))
  }

  // ------------------------------------------------------------ what is accepted

  /** A nonempty text, or a nonempty list of nonempty texts. */
  ghost predicate IsValue(j: Json) {
    IsText(j) || (j.Arr? && |j.items| > 0 && forall k :: 0 <= k < |j.items| ==> IsText(j.items[k]))
  }

  ghost predicate IsText(j: Json) { exists s :: j == Str(s) && s != "" }

  /** The object states a known kind, a polarity and values; the JSON kind names its
      field, the header kind a real header, and no other kind a header. */
  ghost predicate IsCondition(u: Unicode, j: Json) {
    && (exists kind :: Get(j, "type") == Str(kind) && KindFits(u, j, kind))
    && (Get(j, "positiveMatch") == Bool(true) || Get(j, "positiveMatch") == Bool(false))
    && IsValue(Get(j, "value"))
  }

  ghost predicate KindFits(u: Unicode, j: Json, kind: string) {
    && kind in CONDITION_KINDS
    && (kind == "argsPostJSONMatch" ==> exists p :: Get(j, "parameter") == Str(p) && !AllBlank(u.space, p))
    && if kind == "requestHeaderValueMatch" then exists h :: Get(j, "header") == Str(h) && NamesHeader(u, h) else !Has(j, "header")
  }

  /** Without the blanks around it, the name is none of the synthetic ones in any case. */
  ghost predicate NamesHeader(u: Unicode, h: string) {
    && !AllBlank(u.space, h)
    && forall a, core, b :: Trimmed(u.space, h, a, core, b) ==> Lower(u.lower, core) !in SYNTHETIC_HEADERS
  }

  /** An object without an action, with an operation and conditions. */
  ghost predicate IsRule(u: Unicode, j: Json) {
    && j.Obj? && "action" !in j.fields && "alert" !in j.fields && "deny" !in j.fields
    && (Get(j, "operation") == Str("AND") || Get(j, "operation") == Str("OR"))
    && var conditions := Get(j, "conditions");
       conditions.Arr? && conditions.items != [] && forall k :: 0 <= k < |conditions.items| ==> IsCondition(u, conditions.items[k])
  }

  lemma BlankExactly(u: Unicode, s: string)
    ensures Blank(u.space, s) <==> AllBlank(u.space, s)
    ensures !Blank(u.space, s) && !Synthetic(u.space, u.lower, s) <==> NamesHeader(u, s)
  {
    var a, b := TrimExactly(u.space, s);
    forall x, core, y | Trimmed(u.space, s, x, core, y) ensures core == Trim(u.space, s) { TrimIsOne(u.space, s, x, core, y); }
  }

  lemma ConditionExactly(u: Unicode, index: nat, j: Json)
    ensures ConditionErrors(u, index, j) == [] <==> IsCondition(u, j)
  {
    forall s ensures (Blank(u.space, s) <==> AllBlank(u.space, s)) && (!Blank(u.space, s) && !Synthetic(u.space, u.lower, s) <==> NamesHeader(u, s)) {
      BlankExactly(u, s);
    }
    hide Blank, AllBlank, NamesHeader, Synthetic;
    ValueExactly(Get(j, "value"));
    hide ValidConditionValue, IsValue;
    if Get(j, "type").Str? {
      assert KindFits(u, j, Get(j, "type").s) ==> IsCondition(u, j) || Get(j, "positiveMatch") !in {Bool(true), Bool(false)} || !IsValue(Get(j, "value"));
    }
  }

  lemma ValueExactly(j: Json)
    ensures ValidConditionValue(j) <==> IsValue(j)
  {
    forall t: Json ensures IsText(t) <==> t.Str? && t.s != "" {
      if t.Str? && t.s != "" { assert t == Str(t.s); }
    }
    hide IsText;
  }

  /** Whatever the candidate: it is accepted exactly when it is such a rule. */
  lemma AcceptedExactly(u: Unicode, rule: Json)
    ensures GateErrors(u, rule) == [] <==> IsRule(u, rule)
  {
    var conditions := Get(rule, "conditions");
    NoActions(rule);
    if conditions.Arr? {
      AllPass(u, conditions.items);
      forall k | 0 <= k < |conditions.items|
        ensures ConditionErrors(u, k, conditions.items[k]) == [] <==> IsCondition(u, conditions.items[k])
        ensures IsCondition(u, conditions.items[k]) ==> conditions.items[k].Obj?
      {
        ConditionExactly(u, k, conditions.items[k]);
      }
    }
    hide ConditionErrors, AllConditionErrors, IsCondition, ForbiddenIn;
  }

  method BodyErrorsLoop(u: Unicode, conditions: Json) returns (errors: seq<GateError>)
    ensures errors == BodyErrors(u, conditions)
  {
    hide ConditionErrors;
    if !IsConditionList(conditions) { return [NoConditions]; }
    errors := [];
    for k := 0 to |conditions.items|
      invariant errors == AllConditionErrors(u, conditions.items[..k])
    {
      assert conditions.items[..k + 1][..k] == conditions.items[..k];
      errors := errors + ConditionErrors(u, k, conditions.items[k]);
    }
    assert conditions.items[..|conditions.items|] == conditions.items;
  }

  /** `ValidateSyntax`, on the decoded candidate. */
  method ValidateSyntax(u: Unicode, rule: Json) returns (errors: seq<GateError>)
    ensures errors == GateErrors(u, rule)
    ensures errors == [] <==> IsRule(u, rule)
  {
    AcceptedExactly(u, rule);
    hide BodyErrors, IsRule;
    if !rule.Obj? && !rule.Null? { return [NotAnObject]; }
    errors := [];
    var forbidden: seq<string> := [];
    for k := 0 to |FORBIDDEN_KEYS|
      invariant forbidden == ForbiddenIn(rule, k)
    {
      if Has(rule, FORBIDDEN_KEYS[k]) { forbidden := forbidden + [FORBIDDEN_KEYS[k]]; }
    }
    if |forbidden| > 0 { errors := errors + [EmbeddedAction(forbidden)]; }
    var operation := Get(rule, "operation");
    if operation != Str("AND") && operation != Str("OR") { errors := errors + [BadOperation]; }
    var more := BodyErrorsLoop(u, Get(rule, "conditions"));
    errors := errors + more;
  }

  // ------------------------------------------------------------- compiled candidates

  function Texts(values: seq<string>): (j: Json)
    ensures j.Arr? && |j.items| == |values|
    ensures forall k :: 0 <= k < |values| ==> j.items[k] == Str(values[k])
  {
    Arr(seq(|values|, k requires 0 <= k < |values| => Str(values[k])))
  }

  /** The emitted JSON of one condition. */
  function ConditionJson(c: Condition): Json {
    var base := map["type" := Str(c.kind), "positiveMatch" := Bool(c.positive), "value" := Texts(c.value)];
    var selected := if c.selectorKey == "" then base else base[c.selectorKey := Str(c.selector)];
    Obj(if c.flags.None? then selected
        else selected["valueCase" := Bool(c.flags.value.0)]["valueWildcard" := Bool(c.flags.value.1)])
  }

  function ConditionsJson(cs: seq<Condition>): (items: seq<Json>)
    ensures |items| == |cs|
    ensures forall k :: 0 <= k < |cs| ==> items[k] == ConditionJson(cs[k])
  {
    seq(|cs|, k requires 0 <= k < |cs| => ConditionJson(cs[k]))
  }

  /** The emitted JSON of the rule, with its name, description and tags. */
  function RuleJson(c: Compiled, name: string, description: string, tags: seq<string>): Json {
    Obj(map["name" := Str(name), "description" := Str(description), "operation" := Str(c.operation),
            "conditions" := Arr(ConditionsJson(c.conditions)), "tag" := Texts(tags)])
  }

  /** What every compiled condition looks like. */
  predicate GoodCondition(c: Condition) {
    && c.kind in CONDITION_KINDS && c.kind != "argsPostJSONMatch"
    && c.value != [] && (forall k :: 0 <= k < |c.value| ==> c.value[k] != "")
    && (c.selectorKey == "" || c.selectorKey == "parameter" || c.selectorKey == "header" || c.selectorKey == "name")
    && (c.selectorKey == "header" <==> c.kind == "requestHeaderValueMatch")
    && (c.selectorKey == "" ==> c.selector == "")
  }

  lemma ValuesStayGood(u: Unicode, collection: string, comp: Component, m: Match)
    requires m.values != [] && forall k :: 0 <= k < |m.values| ==> m.values[k] != ""
    ensures var values := ConditionValues(u, collection, comp, m);
            values != [] && forall k :: 0 <= k < |values| ==> values[k] != ""
  {
    hide EncodingVariants, Upper;
    var values := ConditionValues(u, collection, comp, m);
    if collection == "REQUEST_METHOD" {
      var upper := UpperAll(u, m.values);
      assert upper[0] in Unique(upper);
      forall k | 0 <= k < |values| ensures values[k] != "" {
        assert values[k] in upper;
        var j :| 0 <= j < |upper| && upper[j] == values[k];
        assert |Upper(u, m.values[j])| == |m.values[j]|;
      }
    } else if comp.encodable && !m.wildcard {
      EncodingVariantsKeep(m.values);
      assert m.values[0] in values;
      forall k | 0 <= k < |values| ensures values[k] != "" {
        var i := EncodingVariantsDecode(m.values, values[k]);
      }
    }
  }

  lemma ConditionIsGood(u: Unicode, v: Variable, rule: SecRule, m: Match, sensitive: bool)
    requires m.values != [] && forall k :: 0 <= k < |m.values| ==> m.values[k] != ""
    requires BuildCondition(u, v, rule, m, sensitive).Some?
    ensures var c := BuildCondition(u, v, rule, m, sensitive).value;
            && GoodCondition(c)
            && (c.selectorKey == "header" ==> c.selector == v.selector)
            && (c.selectorKey == "header" <==> v.collection == "REQUEST_HEADERS" && v.selector != "")
  {
    hide ConditionValues;
    ValuesStayGood(u, v.collection, ComponentOf(v.collection).value, m);
  }

  /** The header a variable selects is one the gate takes for real. */
  predicate RealHeader(u: Unicode, v: Variable) {
    v.collection == "REQUEST_HEADERS" && v.selector != "" ==> RealHeaderName(u.space, u.lower, v.selector)
  }

  predicate RealHeaders(u: Unicode, rules: seq<SecRule>) {
    forall i :: 0 <= i < |rules| ==> forall v :: 0 <= v < |rules[i].variables| ==> RealHeader(u, rules[i].variables[v])
  }

  lemma JsonOfCondition(c: Condition)
    requires GoodCondition(c)
    ensures var j := ConditionJson(c);
            && j.Obj? && Get(j, "type") == Str(c.kind) && Get(j, "positiveMatch") == Bool(c.positive)
            && Get(j, "value") == Texts(c.value)
            && (Has(j, "header") <==> c.selectorKey == "header")
            && (c.selectorKey == "header" ==> Get(j, "header") == Str(c.selector))
            && (forall key :: key in {"parameter", "header", "name"} ==> Get(j, key) == if c.selectorKey == key then Str(c.selector) else Null)
            && Get(j, "valueCase") == (if c.flags.Some? then Bool(c.flags.value.0) else Null)
            && Get(j, "valueWildcard") == (if c.flags.Some? then Bool(c.flags.value.1) else Null)
  {}

  /** Nothing of a condition is lost in its JSON. */
  lemma EmittedApart(c: Condition, d: Condition)
    requires GoodCondition(c) && GoodCondition(d) && ConditionJson(c) == ConditionJson(d)
    ensures c == d
  {
    JsonOfCondition(c);
    JsonOfCondition(d);
    hide ConditionJson;
    var j := ConditionJson(c);
    assert Texts(c.value).items == Texts(d.value).items;
    forall k | 0 <= k < |c.value| ensures c.value[k] == d.value[k] { assert Texts(c.value).items[k] == Str(c.value[k]) && Texts(d.value).items[k] == Str(d.value[k]); }
    forall key | key in {"parameter", "header", "name"} ensures Get(j, key) == (if c.selectorKey == key then Str(c.selector) else Null)
      ensures Get(j, key) == if d.selectorKey == key then Str(d.selector) else Null {}
    if c.selectorKey != "" { assert Get(j, c.selectorKey) == Str(c.selector); }
    if d.selectorKey != "" { assert Get(j, d.selectorKey) == Str(d.selector); }
  }

  /** A compiled condition passes exactly when the header it names is real. */
  lemma ConditionPasses(u: Unicode, index: nat, c: Condition)
    requires GoodCondition(c)
    ensures ConditionErrors(u, index, ConditionJson(c)) == [] <==>
            (c.selectorKey == "header" ==> RealHeaderName(u.space, u.lower, c.selector))
  {
    hide Blank, Synthetic, ConditionJson;
    JsonOfCondition(c);
    assert ValidConditionValue(Texts(c.value));
  }

  lemma {:induction false} AllPass(u: Unicode, items: seq<Json>)
    ensures AllConditionErrors(u, items) == [] <==>
            forall k :: 0 <= k < |items| ==> ConditionErrors(u, k, items[k]) == []
  {
    hide ConditionErrors;
    if items != [] {
      var n := |items| - 1;
      AllPass(u, items[..n]);
      if AllConditionErrors(u, items) == [] {
        forall k | 0 <= k < |items| ensures ConditionErrors(u, k, items[k]) == [] {
          if k < n { assert items[..n][k] == items[k]; }
        }
      }
      if forall k :: 0 <= k < |items| ==> ConditionErrors(u, k, items[k]) == [] {
        forall k | 0 <= k < n ensures ConditionErrors(u, k, items[..n][k]) == [] {
          assert items[..n][k] == items[k];
        }
      }
    }
  }

  lemma {:induction false} BuildAllGood(u: Unicode, rule: SecRule, m: Match, n: nat)
    requires n <= |rule.variables| && BuildAll(u, rule, m, n).Some?
    requires m.values != [] && forall k :: 0 <= k < |m.values| ==> m.values[k] != ""
    ensures var c := BuildAll(u, rule, m, n).value;
            && |c| == n
            && forall k :: 0 <= k < n ==>
                 && GoodCondition(c[k])
                 && ((c[k].selectorKey == "header" ==> RealHeaderName(u.space, u.lower, c[k].selector))
                     <==> RealHeader(u, rule.variables[k]))
  {
    hide BuildCondition, GoodCondition, Blank, Synthetic;
    if n > 0 {
      BuildAllGood(u, rule, m, n - 1);
      var sensitive := !(m.caseInsensitive || "lowercase" in rule.transformations);
      ConditionIsGood(u, rule.variables[n - 1], rule, m, sensitive);
    }
  }

  ghost predicate Passes(u: Unicode, c: Condition) {
    c.selectorKey == "header" ==> RealHeaderName(u.space, u.lower, c.selector)
  }

  lemma {:induction false} BuildRulesGood(u: Unicode, rules: seq<SecRule>)
    requires BuildRules(u, rules).Some?
    ensures var c := BuildRules(u, rules).value.conditions;
            && (forall k :: 0 <= k < |c| ==> GoodCondition(c[k]))
            && ((forall k :: 0 <= k < |c| ==> Passes(u, c[k])) <==> RealHeaders(u, rules))
  {
    hide OperatorMatch, BuildAll, GoodCondition, Blank, Synthetic, RealHeader;
    if rules != [] {
      var n := |rules| - 1;
      BuildRulesGood(u, rules[..n]);
      var last := rules[n];
      var m := OperatorMatch(u, last.operator, last.argument).value;
      OperatorValues(u, last.operator, last.argument);
      BuildAllGood(u, last, m, |last.variables|);
      var front, back := BuildRules(u, rules[..n]).value.conditions, BuildAll(u, last, m, |last.variables|).value;
      var c := BuildRules(u, rules).value.conditions;
      assert c == front + back;
      assert RealHeaders(u, rules) <==> RealHeaders(u, rules[..n]) && (forall k :: 0 <= k < |back| ==> Passes(u, back[k])) by {
        SplitHeaders(u, rules);
        assert forall k :: 0 <= k < |back| ==> (Passes(u, back[k]) <==> RealHeader(u, last.variables[k]));
      }
      SplitPasses(u, front, back);
    }
  }

  lemma SplitHeaders(u: Unicode, rules: seq<SecRule>)
    requires rules != []
    ensures var n := |rules| - 1;
            RealHeaders(u, rules) <==>
            RealHeaders(u, rules[..n]) && forall v :: 0 <= v < |rules[n].variables| ==> RealHeader(u, rules[n].variables[v])
  {
    hide RealHeader;
    var n := |rules| - 1;
    assert forall i :: 0 <= i < n ==> rules[..n][i] == rules[i];
    if RealHeaders(u, rules[..n]) && forall v :: 0 <= v < |rules[n].variables| ==> RealHeader(u, rules[n].variables[v]) {
      forall i, v | 0 <= i < |rules| && 0 <= v < |rules[i].variables| ensures RealHeader(u, rules[i].variables[v]) {
        if i < n { assert rules[..n][i] == rules[i]; }
      }
    }
  }

  lemma SplitPasses(u: Unicode, front: seq<Condition>, back: seq<Condition>)
    ensures (forall k :: 0 <= k < |front + back| ==> Passes(u, (front + back)[k])) <==>
            (forall k :: 0 <= k < |front| ==> Passes(u, front[k])) && (forall k :: 0 <= k < |back| ==> Passes(u, back[k]))
  {
    hide Passes;
    var c := front + back;
    assert forall k :: 0 <= k < |front| ==> front[k] == c[k];
    assert forall k :: 0 <= k < |back| ==> back[k] == c[|front| + k];
    assert forall k :: 0 <= k < |c| ==> c[k] == if k < |front| then front[k] else back[k - |front|];
  }

  /** A compiled rule passes the gate exactly when no header selector is blank
      or synthetic: the compiler guarantees every other clause. */
  lemma CompiledPasses(u: Unicode, rules: seq<SecRule>, name: string, description: string, tags: seq<string>)
    requires Compile(u, rules).Some?
    ensures GateErrors(u, RuleJson(Compile(u, rules).value, name, description, tags)) == [] <==> RealHeaders(u, rules)
  {
    hide BuildRules, GoodCondition, RealHeaders, ConditionJson, ConditionErrors, AllConditionErrors;
    var c := Compile(u, rules).value;
    BuildRulesGood(u, rules);
    var items := ConditionsJson(c.conditions);
    AllPass(u, items);
    forall k | 0 <= k < |items|
      ensures items[k].Obj? && (ConditionErrors(u, k, items[k]) == [] <==> Passes(u, c.conditions[k]))
    {
      JsonOfCondition(c.conditions[k]);
      ConditionPasses(u, k, c.conditions[k]);
    }
    assert IsConditionList(Arr(items));
    NoActions(RuleJson(c, name, description, tags));
  }

  lemma NoActions(rule: Json)
    ensures ActionErrors(rule) == [] <==> !Has(rule, "action") && !Has(rule, "alert") && !Has(rule, "deny")
  {
    assert ForbiddenIn(rule, 0) == [];
    assert ForbiddenIn(rule, 1) == ForbiddenIn(rule, 0) + if Has(rule, "action") then ["action"] else [];
    assert ForbiddenIn(rule, 2) == ForbiddenIn(rule, 1) + if Has(rule, "alert") then ["alert"] else [];
    assert ForbiddenIn(rule, 3) == ForbiddenIn(rule, 2) + if Has(rule, "deny") then ["deny"] else [];
  }
}
