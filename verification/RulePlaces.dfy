/** Which part of a request a directive's variables name, and which part an emitted
    condition inspects. */
module RulePlaces {
  import opened Options
  import opened Operators
  import opened RuleCompiler

  /** `UriPart` is the path with the query string. */
  datatype Region = QueryPart | BodyPart | XmlPart | HeaderPart | UriPart | PathPart | CookiePart | MethodPart | AddressPart

  /** A part of the request as a whole, or what a selector names in it. */
  datatype Cell = Cell(part: Region, selector: Option<string>)

  // ----------------------------------------------------------------- what is named

  /** The parts that a ModSecurity collection takes its texts from. */
  function PartsOf(collection: string): seq<Region> {
    match collection
    case "ARGS" => [QueryPart, BodyPart]
    case "ARGS_GET" => [QueryPart]
    case "ARGS_POST" => [BodyPart]
    case "QUERY_STRING" => [QueryPart]
    case "REQUEST_BODY" => [BodyPart]
    case "REQUEST_COOKIES" => [CookiePart]
    case "REQUEST_FILENAME" => [PathPart]
    case "REQUEST_HEADERS" => [HeaderPart]
    case "REQUEST_METHOD" => [MethodPart]
    case "REQUEST_URI" => [UriPart]
    case "REQUEST_URI_RAW" => [UriPart]
    case "REMOTE_ADDR" => [AddressPart]
    case "XML" => [XmlPart]
    case _ => []
  }

  function Selector(v: Variable): Option<string> { if v.selector == "" then None else Some(v.selector) }

  function Cells(v: Variable): set<Cell> { set p | p in PartsOf(v.collection) :: Cell(p, Selector(v)) }

  // -------------------------------------------------------------- what is inspected

  /** The cell that an emitted condition inspects, read from its own fields. */
  function Inspected(c: Condition): Option<Cell> {
    match c.kind
    case "argsPostMatch" => Some(Cell(BodyPart, Named(c, "parameter")))
    case "argsPostXMLMatch" => Some(Cell(XmlPart, Named(c, "parameter")))
    case "uriQueryMatch" => Some(Cell(QueryPart, Named(c, "parameter")))
    case "pathMatch" => Some(Cell(PathPart, None))
    case "requestHeaderMatch" => Some(Cell(HeaderPart, None))
    case "requestHeaderValueMatch" => if c.selectorKey == "header" then Some(Cell(HeaderPart, Some(c.selector))) else None
    case "cookieMatch" => Some(Cell(CookiePart, Named(c, "name")))
    case "requestMethodMatch" => Some(Cell(MethodPart, None))
    case "ipMatch" => Some(Cell(AddressPart, None))
    case _ => None
  }

  function Named(c: Condition, key: string): Option<string> { if c.selectorKey == key then Some(c.selector) else None }

  // ---------------------------------------------------------------- what is admitted

  /** Collections whose coverage note admits that a part is not inspected: the query
      of `ARGS` and the query string of the URI. */
  predicate Noted(collection: string) { collection == "ARGS" || collection == "REQUEST_URI" || collection == "REQUEST_URI_RAW" }

  /** Collections whose condition type has a key for the selector. */
  predicate Carries(collection: string) {
    collection == "ARGS" || collection == "ARGS_POST" || collection == "REQUEST_HEADERS" || collection == "REQUEST_COOKIES"
  }

  /** The cell that is left of a variable's cells. */
  function Kept(v: Variable): Cell
    requires PartsOf(v.collection) != []
  {
    Cell(if v.collection == "ARGS" then BodyPart else if Noted(v.collection) then PathPart else PartsOf(v.collection)[0],
         if Carries(v.collection) then Selector(v) else None)
  }

  predicate Covered(v: Variable) { !Noted(v.collection) && (v.selector == "" || Carries(v.collection)) }

  lemma BuiltFields(u: Unicode, v: Variable, rule: SecRule, m: Match, sensitive: bool)
    requires BuildCondition(u, v, rule, m, sensitive).Some?
    ensures ComponentOf(v.collection).Some?
    ensures var c, comp := BuildCondition(u, v, rule, m, sensitive).value, ComponentOf(v.collection).value;
            && c.kind == (if comp.selectorKey == "header" && v.selector == "" then "requestHeaderMatch" else comp.kind)
            && c.selectorKey == (if v.selector != "" then comp.selectorKey else "")
            && (comp.selectorKey != "" && v.selector != "" ==> c.selector == v.selector)
  {
    hide ComponentOf, ConditionValues;
  }

  /** Every emitted condition inspects what is left of its variable's cells; and these
      are all of them exactly where no coverage note admits a gap and the
      condition type carries the selector. */
  lemma PlaceExactly(u: Unicode, v: Variable, rule: SecRule, m: Match, sensitive: bool)
    requires BuildCondition(u, v, rule, m, sensitive).Some?
    ensures PartsOf(v.collection) != [] && Inspected(BuildCondition(u, v, rule, m, sensitive).value) == Some(Kept(v))
    ensures Cells(v) == {Kept(v)} <==> Covered(v)
  {
    BuiltFields(u, v, rule, m, sensitive);
    var c := BuildCondition(u, v, rule, m, sensitive).value;
    hide BuildCondition;
    FieldsInspect(v, c);
    KeptExactly(v);
  }

  lemma FieldsInspect(v: Variable, c: Condition)
    requires ComponentOf(v.collection).Some?
    requires var comp := ComponentOf(v.collection).value;
             && c.kind == (if comp.selectorKey == "header" && v.selector == "" then "requestHeaderMatch" else comp.kind)
             && c.selectorKey == (if v.selector != "" then comp.selectorKey else "")
             && (comp.selectorKey != "" && v.selector != "" ==> c.selector == v.selector)
    ensures PartsOf(v.collection) != [] && Inspected(c) == Some(Kept(v))
  {
    match v.collection {
      case "ARGS" =>
      case "ARGS_POST" =>
      case "ARGS_GET" =>
      case "QUERY_STRING" =>
      case "REQUEST_BODY" =>
      case "XML" =>
      case "REQUEST_HEADERS" =>
      case "REQUEST_URI" =>
      case "REQUEST_URI_RAW" =>
      case "REQUEST_FILENAME" =>
      case "REQUEST_COOKIES" =>
      case "REQUEST_METHOD" =>
      case "REMOTE_ADDR" =>
    }
  }

  lemma KeptExactly(v: Variable)
    requires PartsOf(v.collection) != []
    ensures Cells(v) == {Kept(v)} <==> Covered(v)
  {
    var parts, selector := PartsOf(v.collection), Selector(v);
    assert forall x :: x in Cells(v) <==> x.part in parts && x.selector == selector;
    if v.collection == "ARGS" {
      assert Cell(QueryPart, selector) in Cells(v) && Cell(BodyPart, selector) in Cells(v);
    } else {
      assert |parts| == 1;
      assert Cells(v) == {Cell(parts[0], selector)};
    }
  }

  // ------------------------------------------------------------------- what compiles

  /** The transformations whose absence at the edge is accepted. */
  predicate Expressible(transformation: string) {
    || transformation == "none" || transformation == "lowercase" || transformation == "urldecode" || transformation == "urldecodeuni"
    || transformation == "utf8tounicode" || transformation == "removenulls" || transformation == "compresswhitespace"
    || transformation == "normalizepath" || transformation == "htmlentitydecode"
  }

  /** A directive with values, known variables and transformations, literals where a
      method or an address is tested, and an address list for addresses only. */
  predicate RuleCompiles(u: Unicode, rule: SecRule) {
    var m := OperatorMatch(u, rule.operator, rule.argument);
    && m.Some? && (forall k :: 0 <= k < |rule.transformations| ==> Expressible(rule.transformations[k]))
    && forall k :: 0 <= k < |rule.variables| ==> VariableCompiles(rule, m.value, rule.variables[k])
  }

  predicate VariableCompiles(rule: SecRule, m: Match, v: Variable) {
    && PartsOf(v.collection) != []
    && (MethodPart in PartsOf(v.collection) || AddressPart in PartsOf(v.collection) ==> !m.wildcard)
    && (AddressPart in PartsOf(v.collection) ==> rule.operator == "ipMatch")
  }

  /** One to eight directives; more than one only with a chain, and then of one
      variable each; and some variable at all. */
  predicate Compiles(u: Unicode, rules: seq<SecRule>) {
    && 1 <= |rules| <= 8 && (forall i :: 0 <= i < |rules| ==> RuleCompiles(u, rules[i]))
    && (|rules| > 1 ==> (exists k :: 0 <= k < |rules| - 1 && rules[k].chained) && forall i :: 0 <= i < |rules| ==> |rules[i].variables| <= 1)
    && exists i :: 0 <= i < |rules| && rules[i].variables != []
  }

  lemma ConditionCompiles(u: Unicode, v: Variable, rule: SecRule, m: Match, sensitive: bool)
    ensures BuildCondition(u, v, rule, m, sensitive).Some? <==> VariableCompiles(rule, m, v)
  {
    hide ConditionValues;
    match v.collection {
      case "ARGS" =>
      case "ARGS_POST" =>
      case "ARGS_GET" =>
      case "QUERY_STRING" =>
      case "REQUEST_BODY" =>
      case "XML" =>
      case "REQUEST_HEADERS" =>
      case "REQUEST_URI" =>
      case "REQUEST_URI_RAW" =>
      case "REQUEST_FILENAME" =>
      case "REQUEST_COOKIES" =>
      case "REQUEST_METHOD" =>
      case "REMOTE_ADDR" =>
      case _ =>
    }
  }

  lemma {:induction false} BuildAllCompiles(u: Unicode, rule: SecRule, m: Match, n: nat)
    requires n <= |rule.variables|
    ensures BuildAll(u, rule, m, n).Some? <==> forall k :: 0 <= k < n ==> VariableCompiles(rule, m, rule.variables[k])
    ensures BuildAll(u, rule, m, n).Some? ==> |BuildAll(u, rule, m, n).value| == n
  {
    hide BuildCondition, VariableCompiles;
    if n > 0 {
      BuildAllCompiles(u, rule, m, n - 1);
      ConditionCompiles(u, rule.variables[n - 1], rule, m, !(m.caseInsensitive || "lowercase" in rule.transformations));
    }
  }

  lemma RuleBuilds(u: Unicode, rule: SecRule)
    ensures BuildRule(u, rule).Some? <==> RuleCompiles(u, rule)
    ensures BuildRule(u, rule).Some? ==> |BuildRule(u, rule).value.conditions| == |rule.variables|
  {
    forall t: string ensures t in ALLOWED_TRANSFORMATIONS <==> Expressible(t) {}
    hide OperatorMatch, BuildAll, VariableCompiles, Expressible;
    var m := OperatorMatch(u, rule.operator, rule.argument);
    if m.Some? { BuildAllCompiles(u, rule, m.value, |rule.variables|); }
  }

  lemma {:induction false} RulesBuild(u: Unicode, rules: seq<SecRule>)
    ensures BuildRules(u, rules).Some? <==> forall i :: 0 <= i < |rules| ==> RuleCompiles(u, rules[i])
    ensures BuildRules(u, rules).Some? ==>
              (BuildRules(u, rules).value.conditions != [] <==> exists i :: 0 <= i < |rules| && rules[i].variables != [])
  {
    hide BuildRule, RuleCompiles;
    if rules != [] {
      var n := |rules| - 1;
      RulesBuild(u, rules[..n]);
      RuleBuilds(u, rules[n]);
      forall i | 0 <= i < n ensures rules[..n][i] == rules[i] {}
    }
  }

  /** A list of directives is compiled exactly when it is such a list. */
  lemma CompiledExactly(u: Unicode, rules: seq<SecRule>)
    ensures Compile(u, rules).Some? <==> Compiles(u, rules)
  {
    RulesBuild(u, rules);
    hide BuildRules, RuleCompiles;
  }
}
