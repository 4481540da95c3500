/** One component's rule and the Akamai condition it becomes. */
module WafConditions {
  import opened Options

  /** Optional fields are `None` when absent or of the wrong JSON type. */
  datatype Location = Location(
    kind: string, name: Option<string>, occurrence: Option<nat>, selectorType: Option<string>, selector: Option<string>)

  datatype Component = Component(location: Location, inputRefs: seq<string>)

  datatype Rule = Rule(
    id: Option<string>, carrier: string, name: Option<string>, component: Option<string>,
    pattern: Option<string>, flags: Option<seq<string>>, transformations: Option<seq<string>>)

  datatype Condition = Condition(
    kind: string, positive: bool, caseSensitive: bool, value: string, operator: string,
    header: Option<string>, parameter: Option<string>, cookie: Option<string>, transformations: seq<string>,
    locationKind: Option<string>, selectorType: Option<string>, selector: Option<string>)

  datatype CarrierKey = CarrierKey(carrier: string, name: string, component: string)

  const CONDITION_TYPES: map<string, string> := map[
    "query" := "uriQueryMatch", "header" := "requestHeaderValueMatch", "cookie" := "cookieMatch",
    "path" := "pathMatch", "body" := "argsPostMatch", "method" := "requestMethodMatch"]

  // ------------------------------------------------------------ what is inspected

  /** The part of a request that a test looks at. */
  datatype Place =
    | Query(name: string, occurrence: nat) | AnyQuery
    | Header(folded: string, occurrence: nat) | AnyHeader
    | Cookie(name: string, occurrence: nat) | AnyCookie
    | JsonField(pointer: string) | AnyJsonField
    | FormField(name: string) | PartName(name: string) | XmlNode(xpath: string)
    | OtherField(selectorType: Option<string>, selector: string)
    | Body | Path | Method

  /** What may be asked of a request. */
  datatype Test =
    | Matches(place: Place, pattern: string, caseSensitive: bool, transformations: seq<string>)
    | PathIs(path: string)
    | MethodIs(name: string)

  /** Which of several fields of one name: the first, unless the location says. */
  function Occurrence(l: Location): nat { if l.occurrence.Some? then l.occurrence.value else 0 }

  /** The place a component's location names; a `*` name means any. */
  function SourcePlace(l: Location, fold: string -> string): Option<Place> {
    match l.kind
    case "http-query" => if l.name.None? then None else Some(if l.name.value == "*" then AnyQuery else Query(l.name.value, Occurrence(l)))
    case "http-header" => if l.name.None? then None else Some(if l.name.value == "*" then AnyHeader else Header(fold(l.name.value), Occurrence(l)))
    case "http-cookie" => if l.name.None? then None else Some(if l.name.value == "*" then AnyCookie else Cookie(l.name.value, Occurrence(l)))
    case "http-body-structured" =>
      if l.selectorType == Some("any-field") then Some(AnyJsonField)
      else if l.selector.None? then None
      else Some(FieldPlace(l.selectorType, l.selector.value))
    case "http-body-raw" => Some(Body)
    case "http-path" => Some(Path)
    case "http-method" => Some(Method)
    case _ => None
  }

  /** A field of a structured body, by the kind of its selector. */
  function FieldPlace(selectorType: Option<string>, selector: string): Place {
    match selectorType
    case Some("json-pointer") => JsonField(selector)
    case Some("form-field") => FormField(selector)
    case Some("multipart-name") => PartName(selector)
    case Some("xpath") => XmlNode(selector)
    case _ => OtherField(selectorType, selector)
  }

  /** The place an emitted condition inspects, read from its own fields.  It has
      none for an occurrence, and so inspects what a location without one names. */
  function EmittedPlace(c: Condition, fold: string -> string): Option<Place> {
    match c.kind
    case "uriQueryMatch" => Some(if c.parameter.Some? then Query(c.parameter.value, 0) else AnyQuery)
    case "requestHeaderValueMatch" => if c.header.Some? then Some(Header(fold(c.header.value), 0)) else None
    case "requestHeaderMatch" => Some(AnyHeader)
    case "cookieMatch" => Some(if c.cookie.Some? then Cookie(c.cookie.value, 0) else AnyCookie)
    case "argsPostJSONMatch" => Some(if c.parameter.Some? then JsonField(c.parameter.value) else AnyJsonField)
    case "argsPostMatch" => Some(if c.parameter.Some? then FormField(c.parameter.value) else Body)
    case "pathMatch" => Some(Path)
    case "requestMethodMatch" => Some(Method)
    case _ => None
  }

  /** The test an emitted condition makes. */
  function Reading(c: Condition, fold: string -> string): Option<Test> {
    var place := EmittedPlace(c, fold);
    if place.None? || !c.positive then None
    else if c.operator == "regex" then Some(Matches(place.value, c.value, c.caseSensitive, c.transformations))
    else if c.operator == "exact" && place.value.Path? then Some(PathIs(c.value))
    else if c.operator == "exact" && place.value.Method? then Some(MethodIs(c.value))
    else None
  }

  /** The test a rule asks of its component. */
  function RuleTest(r: Rule, l: Location, fold: string -> string): Option<Test> {
    var place := SourcePlace(l, fold);
    if place.None? || r.pattern.None? || r.flags.None? || r.transformations.None? then None
    else if (exists f :: f in r.flags.value && f != "i") || r.pattern.value == "" || "" in r.transformations.value then None
    else Some(Matches(place.value, r.pattern.value, "i" !in r.flags.value, r.transformations.value))
  }

  // --------------------------------------------------------------- the translation

  /** `_semantic_carrier`. */
  function SemanticCarrier(l: Location): Option<(string, string)> {
    match l.kind
    case "http-query" => Named("query", l.name)
    case "http-header" => Named("header", l.name)
    case "http-cookie" => Named("cookie", l.name)
    case "http-body-structured" =>
      if l.selectorType == Some("any-field") then Some(("body", "*")) else Named("body", l.selector)
    case "http-body-raw" => Some(("body", ""))
    case "http-path" => Some(("path", ""))
    case "http-method" => Some(("method", ""))
    case _ => None
  }

  function Named(carrier: string, name: Option<string>): Option<(string, string)> {
    if name.None? || name.value == "" then None else Some((carrier, name.value))
  }

  /** `_same_carrier_binding`: header names compare without case. */
  predicate SameCarrier(carrier: string, name: string, expected: (string, string), fold: string -> string) {
    && carrier == expected.0
    && if carrier == "header" then fold(name) == fold(expected.1) else name == expected.1
  }

  /** The any-field exception, which the comparison above already admits. */
  predicate AnyField(l: Location, carrier: string, name: string) {
    l.kind == "http-body-structured" && l.selectorType == Some("any-field") && carrier == "body" && name == "*"
  }

  predicate Given(s: Option<string>) { s.Some? && s.value != "" }

  predicate RuleFine(r: Rule, l: Location, fold: string -> string) {
    && Given(r.id) && r.carrier in CONDITION_TYPES && r.name.Some?
    && SemanticCarrier(l).Some?
    && (SameCarrier(r.carrier, r.name.value, SemanticCarrier(l).value, fold) || AnyField(l, r.carrier, r.name.value))
    && Given(r.component) && Given(r.pattern)
    && r.flags.Some? && (forall f :: f in r.flags.value ==> f == "i")
    && r.transformations.Some? && (forall t :: t in r.transformations.value ==> t != "")
  }

  /** `_component_condition` for a rule that passes its checks. */
  function ConditionOf(r: Rule, l: Location, fold: string -> string): Condition
    requires RuleFine(r, l, fold)
  {
    var name := r.name.value;
    var kind := if l.kind == "http-body-structured" then "argsPostJSONMatch"
                else if r.carrier == "header" && name == "*" then "requestHeaderMatch"
                else CONDITION_TYPES[r.carrier];
    Condition(kind, true, "i" !in r.flags.value, r.pattern.value, "regex",
              if r.carrier == "header" && name != "*" then Some(name) else None,
              if (r.carrier == "query" || r.carrier == "body") && name != "" && name != "*" then Some(name) else None,
              if r.carrier == "cookie" && name != "*" then Some(name) else None,
              r.transformations.value, Some(l.kind), l.selectorType, Some(name))
  }

  /** Folding case maps only `*` to `*`. */
  ghost predicate KeepsStar(fold: string -> string) {
    forall s :: fold(s) == fold("*") <==> s == "*"
  }

  /** The code emits a JSON condition for every field of a structured body.  That
      is right for a JSON pointer and for any field; and the pointer must not be
      spelled `*`, which is emitted without a parameter. */
  predicate JsonSelector(l: Location) {
    l.kind == "http-body-structured" ==> l.selectorType == Some("any-field") || l.selectorType == Some("json-pointer")
  }

  predicate StarSelector(l: Location) {
    l.kind == "http-body-structured" && l.selectorType != Some("any-field") && l.selector == Some("*")
  }

  /** The code emits nothing for an occurrence, which is right for the first and
      where the name is any. */
  predicate FirstOccurrence(l: Location) {
    (l.kind == "http-query" || l.kind == "http-header" || l.kind == "http-cookie") && l.name != Some("*") ==> Occurrence(l) == 0
  }

  predicate PlainLocation(l: Location) { JsonSelector(l) && FirstOccurrence(l) }

  predicate RightPlace(l: Location) { PlainLocation(l) && !StarSelector(l) }

  /** The emitted condition asks exactly what the rule asks of its component, if
      and only if the component is a first occurrence or of any name, and where it
      is in a structured body it is any field of it, or a JSON pointer other than
      `*`. */
  lemma ConditionMeaning(r: Rule, l: Location, fold: string -> string)
    requires RuleFine(r, l, fold) && KeepsStar(fold)
    ensures Reading(ConditionOf(r, l, fold), fold).Some? && RuleTest(r, l, fold).Some?
    ensures Reading(ConditionOf(r, l, fold), fold) == RuleTest(r, l, fold) <==> RightPlace(l)
  {
    CarrierCases(r, l, fold);
    PlaceKept(r, l, fold);
    hide ConditionOf, EmittedPlace, SourcePlace, RuleFine;
  }

  lemma CarrierCases(r: Rule, l: Location, fold: string -> string)
    requires RuleFine(r, l, fold)
    ensures var c := ConditionOf(r, l, fold);
            && c.positive && c.operator == "regex" && c.value == r.pattern.value
            && c.caseSensitive == ("i" !in r.flags.value) && c.transformations == r.transformations.value
            && r.pattern.Some? && r.flags.Some? && r.transformations.Some?
  {}

  lemma PlaceKept(r: Rule, l: Location, fold: string -> string)
    requires RuleFine(r, l, fold) && KeepsStar(fold)
    ensures EmittedPlace(ConditionOf(r, l, fold), fold).Some? && SourcePlace(l, fold).Some?
    ensures EmittedPlace(ConditionOf(r, l, fold), fold) == SourcePlace(l, fold) <==> RightPlace(l)
  {
    hide KeepsStar;
    match l.kind {
      case "http-query" =>
      case "http-header" => HeaderPlace(r, l, fold);
      case "http-cookie" =>
      case "http-body-structured" =>
      case "http-body-raw" =>
      case "http-path" =>
      case "http-method" =>
    }
  }

  lemma HeaderPlace(r: Rule, l: Location, fold: string -> string)
    requires RuleFine(r, l, fold) && KeepsStar(fold) && l.kind == "http-header"
    ensures EmittedPlace(ConditionOf(r, l, fold), fold).Some? && SourcePlace(l, fold).Some?
    ensures EmittedPlace(ConditionOf(r, l, fold), fold) == SourcePlace(l, fold) <==> FirstOccurrence(l)
  {
    var name, expected := r.name.value, l.name.value;
    assert fold(name) == fold(expected);
    assert name == "*" <==> expected == "*";
  }

  /** The carrier and the name a location goes by. */
  predicate GoesBy(l: Location, carrier: string, name: string, fold: string -> string) {
    match l.kind
    case "http-query" => carrier == "query" && l.name == Some(name) && name != ""
    case "http-header" => carrier == "header" && l.name.Some? && l.name.value != "" && fold(l.name.value) == fold(name)
    case "http-cookie" => carrier == "cookie" && l.name == Some(name) && name != ""
    case "http-body-structured" =>
      carrier == "body" && if l.selectorType == Some("any-field") then name == "*" else l.selector == Some(name) && name != ""
    case "http-body-raw" => carrier == "body" && name == ""
    case "http-path" => carrier == "path" && name == ""
    case "http-method" => carrier == "method" && name == ""
    case _ => false
  }

  lemma GoesByExactly(l: Location, carrier: string, name: string, fold: string -> string)
    ensures GoesBy(l, carrier, name, fold) <==>
            SemanticCarrier(l).Some? && (SameCarrier(carrier, name, SemanticCarrier(l).value, fold) || AnyField(l, carrier, name))
  {
    match l.kind {
      case "http-query" =>
      case "http-header" =>
      case "http-cookie" =>
      case "http-body-structured" =>
      case "http-body-raw" =>
      case "http-path" =>
      case "http-method" =>
      case _ =>
    }
  }

  /** A rule maps without loss exactly when it has an id, a component and a carrier
      and name its component goes by, and asks a test that has a meaning. */
  lemma RuleFineExactly(r: Rule, l: Location, fold: string -> string)
    ensures RuleFine(r, l, fold) <==>
            && (exists id :: r.id == Some(id) && id != "") && (exists c :: r.component == Some(c) && c != "")
            && (exists name :: r.name == Some(name) && GoesBy(l, r.carrier, name, fold)) && RuleTest(r, l, fold).Some?
  {
    if r.name.Some? { GoesByExactly(l, r.carrier, r.name.value, fold); }
    hide SemanticCarrier, SameCarrier, AnyField;
    match l.kind {
      case "http-query" =>
      case "http-header" =>
      case "http-cookie" =>
      case "http-body-structured" =>
      case "http-body-raw" =>
      case "http-path" =>
      case "http-method" =>
      case _ =>
    }
  }
}
