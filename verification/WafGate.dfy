/** The shape gate that every emitted rule passes through before a plan is made,
    and which rules it lets through. */
module WafGate {
  import opened Options
  import opened GateTables
  import opened WafConditions
  import opened WafRules

  /** The condition names a JSON field, or says that it means any field. */
  predicate FieldNamed(c: Condition, space: char -> bool) {
    || (c.parameter.Some? && !Blank(space, c.parameter.value))
    || (c.locationKind == Some("http-body-structured") && c.selectorType == Some("any-field")
        && (c.selector == Some("") || c.selector == Some("*")))
  }

  predicate HeaderNamed(c: Condition, space: char -> bool, lower: char -> char) {
    if c.kind == "requestHeaderValueMatch" then c.header.Some? && RealHeaderName(space, lower, c.header.value)
    else c.header.None?
  }

  /** `_condition_errors` finds nothing. */
  predicate ConditionPasses(c: Condition, space: char -> bool, lower: char -> char) {
    && c.kind in CONDITION_KINDS && c.value != ""
    && (c.kind == "argsPostJSONMatch" ==> FieldNamed(c, space))
    && HeaderNamed(c, space, lower)
  }

  /** `_rule_errors` finds nothing; the operation is always AND and no action is
      embedded. */
  predicate RulePasses(r: TargetRule, profile: Profile) {
    r.conditions != [] && forall k :: 0 <= k < |r.conditions| ==> ConditionPasses(r.conditions[k], profile.space, profile.lower)
  }

  method CheckRule(r: TargetRule, profile: Profile) returns (ok: bool)
    ensures ok <==> RulePasses(r, profile)
  {
    ok := r.conditions != [];
    for i := 0 to |r.conditions|
      invariant ok <==> r.conditions != [] && forall k :: 0 <= k < i ==> ConditionPasses(r.conditions[k], profile.space, profile.lower)
    {
      if !ConditionPasses(r.conditions[i], profile.space, profile.lower) { ok := false; }
    }
  }

  // ------------------------------------------------------- what that asks of a rule

  /** A header selector is a real header, and a field of a structured body that is
      not any field has a name, which is neither blank nor `*`. */
  predicate Presentable(r: Rule, l: Location, space: char -> bool, lower: char -> char)
    requires r.name.Some?
  {
    && (r.carrier == "header" && r.name.value != "*" ==> RealHeaderName(space, lower, r.name.value))
    && (l.kind == "http-body-structured" && l.selectorType != Some("any-field") ==>
          r.name.value != "*" && !Blank(space, r.name.value))
  }

  /** The gate lets a rule's condition through exactly when the rule is presentable. */
  lemma GateOfCondition(r: Rule, l: Location, fold: string -> string, space: char -> bool, lower: char -> char)
    requires RuleFine(r, l, fold)
    ensures ConditionPasses(ConditionOf(r, l, fold), space, lower) <==> Presentable(r, l, space, lower)
  {
    hide RealHeaderName;
    BlankEmpty(space);
    match l.kind {
      case "http-query" =>
      case "http-header" =>
      case "http-cookie" =>
      case "http-body-structured" =>
      case "http-body-raw" =>
      case "http-path" =>
      case "http-method" =>
    }
  }

  lemma BlankEmpty(space: char -> bool)
    ensures Blank(space, "")
  {}

  /** No structured field spelled `*` gets past it, whatever its selector type. */
  lemma StarSelectorRefused(r: Rule, l: Location, fold: string -> string, space: char -> bool, lower: char -> char)
    requires RuleFine(r, l, fold) && StarSelector(l)
    ensures !ConditionPasses(ConditionOf(r, l, fold), space, lower)
  {
    GateOfCondition(r, l, fold, space, lower);
  }

  /** A form field passes every check of its rule and the gate, and becomes a JSON
      condition. */
  lemma FormFieldBecomesJson(fold: string -> string, space: char -> bool, lower: char -> char)
    requires !Blank(space, "user")
    ensures exists r, l :: RuleFine(r, l, fold) && ConditionPasses(ConditionOf(r, l, fold), space, lower)
                           && SourcePlace(l, fold) == Some(FormField("user"))
                           && EmittedPlace(ConditionOf(r, l, fold), fold) == Some(JsonField("user"))
  {
    var l := Location("http-body-structured", None, None, Some("form-field"), Some("user"));
    var r := Rule(Some("r1"), "body", Some("user"), Some("c1"), Some("evil"), Some([]), Some([]));
    assert RuleFine(r, l, fold);
    GateOfCondition(r, l, fold, space, lower);
  }

  /** So does a second occurrence: its condition inspects the first. */
  lemma OccurrenceIsDropped(fold: string -> string, space: char -> bool, lower: char -> char)
    ensures exists r, l :: RuleFine(r, l, fold) && ConditionPasses(ConditionOf(r, l, fold), space, lower)
                           && SourcePlace(l, fold) == Some(Query("q", 1))
                           && EmittedPlace(ConditionOf(r, l, fold), fold) == Some(Query("q", 0))
  {
    var l := Location("http-query", Some("q"), Some(1), None, None);
    var r := Rule(Some("r1"), "query", Some("q"), Some("c1"), Some("evil"), Some([]), Some([]));
    assert RuleFine(r, l, fold);
    GateOfCondition(r, l, fold, space, lower);
  }
}
