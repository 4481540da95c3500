/** From parsed SecRule directives to one custom rule: conditions, the operation
    that joins them, and what the whole rule means. */
module RuleCompiler {
  import opened Options
  import opened PercentEncoding
  import opened Expansion
  import opened RegexTranslation
  import opened Operators

  const MAX_RULES := 8

  datatype Variable = Variable(collection: string, selector: string)

  datatype SecRule = SecRule(
    variables: seq<Variable>, negated: bool, operator: string, argument: string,
    transformations: seq<string>, chained: bool)

  /** How one ModSecurity collection maps onto the target. */
  datatype Component = Component(
    kind: string, selectorKey: string, encodable: bool, literalOnly: bool)

  function ComponentOf(collection: string): Option<Component> {
    match collection
    case "ARGS" => Some(Component("argsPostMatch", "parameter", true, false))
    case "ARGS_POST" => Some(Component("argsPostMatch", "parameter", true, false))
    case "ARGS_GET" => Some(Component("uriQueryMatch", "", true, false))
    case "QUERY_STRING" => Some(Component("uriQueryMatch", "", true, false))
    case "REQUEST_BODY" => Some(Component("argsPostMatch", "", true, false))
    case "XML" => Some(Component("argsPostXMLMatch", "", false, false))
    case "REQUEST_HEADERS" => Some(Component("requestHeaderValueMatch", "header", false, false))
    case "REQUEST_URI" => Some(Component("pathMatch", "", true, false))
    case "REQUEST_URI_RAW" => Some(Component("pathMatch", "", true, false))
    case "REQUEST_FILENAME" => Some(Component("pathMatch", "", true, false))
    case "REQUEST_COOKIES" => Some(Component("cookieMatch", "name", false, false))
    case "REQUEST_METHOD" => Some(Component("requestMethodMatch", "", false, true))
    case "REMOTE_ADDR" => Some(Component("ipMatch", "", false, true))
    case _ => None
  }

  datatype Condition = Condition(
    kind: string, positive: bool, selectorKey: string, selector: string,
    flags: Option<(bool, bool)>, value: seq<string>)

  function Upper(u: Unicode, s: string): (t: string)
    ensures |t| == |s|
  {
    seq(|s|, k requires 0 <= k < |s| => u.upper(s[k]))
  }

  function UpperAll(u: Unicode, values: seq<string>): (out: seq<string>)
    ensures |out| == |values|
    ensures forall k :: 0 <= k < |values| ==> out[k] == Upper(u, values[k])
  {
    seq(|values|, k requires 0 <= k < |values| => Upper(u, values[k]))
  }

  /** The values a condition carries: methods upper-cased, literal values of an
      encodable component with their transport encodings, others as they are. */
  function ConditionValues(u: Unicode, collection: string, comp: Component, m: Match): seq<string> {
    if collection == "REQUEST_METHOD" then Unique(UpperAll(u, m.values))
    else if comp.encodable && !m.wildcard then EncodingVariants(m.values)
    else m.values
  }

  function BuildCondition(u: Unicode, v: Variable, rule: SecRule, m: Match, caseSensitive: bool): Option<Condition> {
    match ComponentOf(v.collection)
    case None => None
    case Some(comp) =>
      var kind := if comp.selectorKey == "header" && v.selector == "" then "requestHeaderMatch" else comp.kind;
      if comp.literalOnly && m.wildcard then None
      else if v.collection == "REMOTE_ADDR" && rule.operator != "ipMatch" then None
      else
        var named := comp.selectorKey != "" && v.selector != "";
        Some(Condition(
               kind, !rule.negated, if named then comp.selectorKey else "", if named then v.selector else "",
               if kind != "requestMethodMatch" && kind != "ipMatch" then Some((caseSensitive, m.wildcard)) else None,
               ConditionValues(u, v.collection, comp, m)))
  }

  const ALLOWED_TRANSFORMATIONS: set<string> := {
    "none", "lowercase", "urldecode", "urldecodeuni", "utf8tounicode", "removenulls",
    "compresswhitespace", "normalizepath", "htmlentitydecode"}

  predicate AllowedTransformations(rule: SecRule) {
    forall k :: 0 <= k < |rule.transformations| ==> rule.transformations[k] in ALLOWED_TRANSFORMATIONS
  }

  // --------------------------------------------------------------- specification

  datatype Built = Built(conditions: seq<Condition>, lossy: bool, narrowed: bool)

  function BuildAll(u: Unicode, rule: SecRule, m: Match, count: nat): Option<seq<Condition>>
    requires count <= |rule.variables|
  {
    if count == 0 then Some([])
    else
      var before := BuildAll(u, rule, m, count - 1);
      var sensitive := !(m.caseInsensitive || "lowercase" in rule.transformations);
      var last := BuildCondition(u, rule.variables[count - 1], rule, m, sensitive);
      if before.None? || last.None? then None else Some(before.value + [last.value])
  }

  /** What one directive contributes. */
  function BuildRule(u: Unicode, rule: SecRule): Option<Built> {
    var m := OperatorMatch(u, rule.operator, rule.argument);
    if m.None? || !AllowedTransformations(rule) then None
    else
      var conditions := BuildAll(u, rule, m.value, |rule.variables|);
      var any := rule.variables != [];
      if conditions.None? then None
      else Some(Built(conditions.value, any && m.value.lossy, any && m.value.narrowed))
  }

  function BuildRules(u: Unicode, rules: seq<SecRule>): Option<Built> {
    if rules == [] then Some(Built([], false, false))
    else
      var before, last := BuildRules(u, rules[..|rules| - 1]), BuildRule(u, rules[|rules| - 1]);
      if before.None? || last.None? then None
      else Some(Built(before.value.conditions + last.value.conditions,
                      before.value.lossy || last.value.lossy, before.value.narrowed || last.value.narrowed))
  }

  /** Some directive before the last one chains. */
  predicate AnyChained(rules: seq<SecRule>) {
    exists k :: 0 <= k < |rules| - 1 && rules[k].chained
  }

  datatype Compiled = Compiled(operation: string, conditions: seq<Condition>, lossy: bool, narrowed: bool) {
    predicate Equivalent() { !lossy && !narrowed }
  }

  predicate OneVariableEach(rules: seq<SecRule>) {
    forall k :: 0 <= k < |rules| ==> |rules[k].variables| <= 1
  }

  function Compile(u: Unicode, rules: seq<SecRule>): Option<Compiled> {
    if rules == [] || |rules| > MAX_RULES || (|rules| > 1 && !(AnyChained(rules) && OneVariableEach(rules))) then None
    else
      var built := BuildRules(u, rules);
      if built.None? || built.value.conditions == [] then None
      else
        var b := built.value;
        Some(Compiled(if |b.conditions| == 1 || AnyChained(rules) then "AND" else "OR",
                      b.conditions, b.lossy, b.narrowed))
  }

  // ------------------------------------------------------------------- the loops

  /** `strings.Fields` and `strings.FieldsFunc`: one scan that cuts at separators. */
  method FieldsLoop(sep: char -> bool, s: string) returns (out: seq<string>)
    ensures out == Fields(sep, s, 0)
  {
    out := [];
    var i := 0;
    while i < |s|
      invariant i <= |s| && Fields(sep, s, 0) == out + Fields(sep, s, i)
    {
      if sep(s[i]) {
        i := i + 1;
      } else {
        var e := i;
        while e < |s| && !sep(s[e])
          invariant i <= e <= |s| && FieldEnd(sep, s, i) == FieldEnd(sep, s, e)
        {
          e := e + 1;
        }
        FieldCut(sep, s, i, e, out);
        out := out + [s[i..e]];
        i := e;
      }
    }
  }

  lemma FieldCut(sep: char -> bool, s: string, i: nat, e: nat, out: seq<string>)
    requires i < |s| && !sep(s[i]) && e == FieldEnd(sep, s, i)
    ensures out + Fields(sep, s, i) == (out + [s[i..e]]) + Fields(sep, s, e)
  {
    assert Fields(sep, s, i) == [s[i..e]] + Fields(sep, s, e);
  }

  method DistinctFieldsLoop(sep: char -> bool, s: string) returns (out: seq<string>)
    ensures out == DistinctFields(sep, s)
  {
    var fields := FieldsLoop(sep, s);
    out := UniqueLoop(fields);
  }

  method SurroundLoop(items: seq<string>) returns (out: seq<string>)
    ensures out == Surround(items)
  {
    out := [];
    for k := 0 to |items|
      invariant |out| == k && forall j :: 0 <= j < k ==> out[j] == Decorate(items[j], false, false)
    {
      out := out + ["*" + items[k] + "*"];
    }
  }

  /** `operatorMatch`: the dispatch, with the field, unique and phrase loops. */
  method OperatorMatchLoop(u: Unicode, operator: string, argument: string) returns (r: Option<Match>)
    ensures r == OperatorMatch(u, operator, argument)
  {
    hide Translate, Fields, Unique;
    if operator == "rx" {
      var t := TranslateRegex(u.alnum, argument);
      if t.None? { return None; }
      return Some(Match(t.value.values, t.value.wildcard, t.value.caseInsensitive, t.value.lossy, t.value.narrowed));
    }
    if operator == "contains" || operator == "beginsWith" || operator == "endsWith" || operator == "streq" || operator == "eq" {
      if argument == "" { return None; }
      assert Decorate(argument, false, true) == "*" + argument && Decorate(argument, true, false) == argument + "*";
      if operator == "contains" { return Some(Match(["*" + argument + "*"], true, false, false, false)); }
      if operator == "beginsWith" { return Some(Match([argument + "*"], true, false, false, false)); }
      if operator == "endsWith" { return Some(Match(["*" + argument], true, false, false, false)); }
      return Some(Match([argument], false, false, false, false));
    }
    if operator == "within" || operator == "ipMatch" {
      var members := DistinctFieldsLoop(if operator == "within" then u.space else AddressSeparator(u), argument);
      if |members| == 0 { return None; }
      return Some(Match(members, false, false, false, false));
    }
    if operator == "pm" {
      var members := DistinctFieldsLoop(u.space, argument);
      if |members| == 0 || |members| > MAX_VALUES { return None; }
      var values := SurroundLoop(members);
      return Some(Match(values, true, true, false, false));
    }
    return None;
  }

  method BuildRuleLoop(u: Unicode, rule: SecRule) returns (r: Option<Built>)
    ensures r == BuildRule(u, rule)
  {
    hide OperatorMatch, BuildCondition;
    var m := OperatorMatchLoop(u, rule.operator, rule.argument);
    if m.None? { return None; }
    var conditions: seq<Condition> := [];
    var lossy, narrowed := false, false;
    var sensitive := !(m.value.caseInsensitive || "lowercase" in rule.transformations);
    for k := 0 to |rule.variables|
      invariant BuildAll(u, rule, m.value, k) == Some(conditions)
      invariant lossy == (k > 0 && m.value.lossy) && narrowed == (k > 0 && m.value.narrowed)
    {
      var c := BuildCondition(u, rule.variables[k], rule, m.value, sensitive);
      if c.None? {
        BuildFails(u, rule, m.value, k + 1, |rule.variables|);
        return None;
      }
      conditions := conditions + [c.value];
      lossy := lossy || m.value.lossy;
      narrowed := narrowed || m.value.narrowed;
    }
    for k := 0 to |rule.transformations|
      invariant forall j :: 0 <= j < k ==> rule.transformations[j] in ALLOWED_TRANSFORMATIONS
    {
      if rule.transformations[k] !in ALLOWED_TRANSFORMATIONS { return None; }
    }
    return Some(Built(conditions, lossy, narrowed));
  }

  lemma {:induction false} BuildFails(u: Unicode, rule: SecRule, m: Match, k: nat, n: nat)
    requires k <= n <= |rule.variables| && BuildAll(u, rule, m, k).None?
    ensures BuildAll(u, rule, m, n).None?
  {
    hide BuildCondition;
    if k < n { BuildFails(u, rule, m, k, n - 1); }
  }

  lemma {:induction false} RulesFail(u: Unicode, rules: seq<SecRule>, k: nat)
    requires k <= |rules| && BuildRules(u, rules[..k]).None?
    ensures BuildRules(u, rules).None?
    decreases |rules|
  {
    hide BuildRule;
    if k < |rules| {
      var n := |rules| - 1;
      assert rules[..n][..k] == rules[..k];
      RulesFail(u, rules[..n], k);
    } else {
      assert rules[..k] == rules;
    }
  }

  /** `compileAkamai`, after the directives have been parsed. */
  method CompileAkamai(u: Unicode, rules: seq<SecRule>) returns (r: Option<Compiled>)
    ensures r == Compile(u, rules)
  {
    hide BuildRule;
    if |rules| == 0 || |rules| > MAX_RULES { return None; }
    var chained := false;
    for k := 0 to |rules| - 1
      invariant chained <==> exists j :: 0 <= j < k && rules[j].chained
    {
      if rules[k].chained { chained := true; }
    }
    if |rules| > 1 && !chained { return None; }
    var conditions: seq<Condition> := [];
    var lossy, narrowed := false, false;
    for k := 0 to |rules|
      invariant BuildRules(u, rules[..k]) == Some(Built(conditions, lossy, narrowed))
      invariant |rules| > 1 ==> forall j :: 0 <= j < k ==> |rules[j].variables| <= 1
    {
      assert rules[..k + 1][..k] == rules[..k];
      if |rules| > 1 && |rules[k].variables| > 1 { return None; }
      var built := BuildRuleLoop(u, rules[k]);
      if built.None? {
        RulesFail(u, rules, k + 1);
        return None;
      }
      conditions := conditions + built.value.conditions;
      lossy := lossy || built.value.lossy;
      narrowed := narrowed || built.value.narrowed;
    }
    assert rules[..|rules|] == rules;
    if |conditions| == 0 { return None; }
    var operation := "OR";
    if |conditions| == 1 || chained { operation := "AND"; }
    return Some(Compiled(operation, conditions, lossy, narrowed));
  }

  // --------------------------------------------------------------------- meaning

  /** Truth of each test, by directive and variable. */
  type Tests = (int, int) -> bool

  /** A directive holds when some variable's test does, or fails if negated. */
  ghost predicate RuleHolds(rules: seq<SecRule>, i: int, tests: Tests)
    requires 0 <= i < |rules|
  {
    exists v :: 0 <= v < |rules[i].variables| && tests(i, v) != rules[i].negated
  }

  /** Directives a to b - 1 form one chain: linked inside, not outside. */
  predicate IsChain(rules: seq<SecRule>, a: int, b: int) {
    && 0 <= a < b <= |rules|
    && (a == 0 || !rules[a - 1].chained)
    && (b == |rules| || !rules[b - 1].chained)
    && forall k :: a <= k < b - 1 ==> rules[k].chained
  }

  ghost predicate ChainHolds(rules: seq<SecRule>, a: int, b: int, tests: Tests)
    requires 0 <= a <= b <= |rules|
  {
    forall i :: a <= i < b ==> RuleHolds(rules, i, tests)
  }

  /** The source acts when all directives of some chain hold. */
  ghost predicate SourceHolds(rules: seq<SecRule>, tests: Tests) {
    exists a, b :: IsChain(rules, a, b) && ChainHolds(rules, a, b, tests)
  }

  /** Where each condition comes from, in the order they are appended. */
  function Origins(rules: seq<SecRule>): seq<(int, int)> {
    if rules == [] then []
    else
      var n := |rules| - 1;
      Origins(rules[..n]) + seq(|rules[n].variables|, v => (n, v))
  }

  ghost predicate ConditionHolds(c: Condition, origin: (int, int), tests: Tests) {
    tests(origin.0, origin.1) == c.positive
  }

  /** The compiled rule on the same tests. */
  ghost predicate CompiledHolds(c: Compiled, origins: seq<(int, int)>, tests: Tests)
    requires |origins| == |c.conditions|
  {
    if c.operation == "AND" then forall k :: 0 <= k < |c.conditions| ==> ConditionHolds(c.conditions[k], origins[k], tests)
    else exists k :: 0 <= k < |c.conditions| && ConditionHolds(c.conditions[k], origins[k], tests)
  }

  /** Every directive but the last chains. */
  predicate Unbroken(rules: seq<SecRule>) {
    forall k :: 0 <= k < |rules| - 1 ==> rules[k].chained
  }

  predicate WellParsed(rules: seq<SecRule>) {
    forall k :: 0 <= k < |rules| ==> rules[k].variables != []
  }

  lemma {:induction false} BuildAllPolarity(u: Unicode, rule: SecRule, m: Match, n: nat)
    requires n <= |rule.variables| && BuildAll(u, rule, m, n).Some?
    ensures var c := BuildAll(u, rule, m, n).value;
            |c| == n && forall k :: 0 <= k < n ==> c[k].positive == !rule.negated
  {
    if n > 0 { BuildAllPolarity(u, rule, m, n - 1); }
  }

  /** Condition k tests variable `Origins(rules)[k]` with the directive's
      polarity. */
  lemma {:induction false} BuildRulesOrigins(u: Unicode, rules: seq<SecRule>)
    requires BuildRules(u, rules).Some?
    ensures var c, o := BuildRules(u, rules).value.conditions, Origins(rules);
            && |c| == |o|
            && forall k :: 0 <= k < |o| ==>
                 && 0 <= o[k].0 < |rules| && 0 <= o[k].1 < |rules[o[k].0].variables|
                 && c[k].positive == !rules[o[k].0].negated
  {
    hide OperatorMatch, BuildAll;
    if rules != [] {
      var n := |rules| - 1;
      BuildRulesOrigins(u, rules[..n]);
      var last := rules[n];
      BuildAllPolarity(u, last, OperatorMatch(u, last.operator, last.argument).value, |last.variables|);
      var o, front := Origins(rules), Origins(rules[..n]);
      forall k | 0 <= k < |o|
        ensures && 0 <= o[k].0 < |rules| && 0 <= o[k].1 < |rules[o[k].0].variables|
                && BuildRules(u, rules).value.conditions[k].positive == !rules[o[k].0].negated
      {
        if k < |front| {
          assert o[k] == front[k];
        } else {
          assert o[k] == (n, k - |front|);
        }
      }
    }
  }

  /** Every variable of every directive has its condition. */
  lemma {:induction false} OriginsCover(rules: seq<SecRule>, i: int, v: int) returns (k: int)
    requires 0 <= i < |rules| && 0 <= v < |rules[i].variables|
    ensures 0 <= k < |Origins(rules)| && Origins(rules)[k] == (i, v)
    decreases |rules|
  {
    var n := |rules| - 1;
    if i == n {
      k := |Origins(rules[..n])| + v;
    } else {
      k := OriginsCover(rules[..n], i, v);
    }
  }

  /** One directive: its variables are alternatives. */
  lemma SingleMeaning(u: Unicode, rules: seq<SecRule>, tests: Tests)
    requires Compile(u, rules).Some? && |rules| == 1
    ensures var c := Compile(u, rules).value;
            && |c.conditions| == |Origins(rules)|
            && (CompiledHolds(c, Origins(rules), tests) <==> SourceHolds(rules, tests))
  {
    hide BuildRules;
    var c, o := Compile(u, rules).value, Origins(rules);
    BuildRulesOrigins(u, rules);
    assert IsChain(rules, 0, 1);
    assert SourceHolds(rules, tests) <==> RuleHolds(rules, 0, tests) by {
      if RuleHolds(rules, 0, tests) { assert ChainHolds(rules, 0, 1, tests); }
      if a, b :| IsChain(rules, a, b) && ChainHolds(rules, a, b, tests) { assert a == 0 && b == 1; }
    }
    assert forall k :: 0 <= k < |o| ==> (ConditionHolds(c.conditions[k], o[k], tests) <==> tests(0, o[k].1) != rules[0].negated);
    if RuleHolds(rules, 0, tests) {
      var v :| 0 <= v < |rules[0].variables| && tests(0, v) != rules[0].negated;
      var k := OriginsCover(rules, 0, v);
      assert ConditionHolds(c.conditions[k], o[k], tests);
    }
    if CompiledHolds(c, o, tests) {
      assert exists k :: 0 <= k < |o| && ConditionHolds(c.conditions[k], o[k], tests) by {
        if c.operation == "AND" { assert ConditionHolds(c.conditions[0], o[0], tests); }
      }
    }
  }

  /** Several directives: all of them must hold. */
  lemma ChainedMeaning(u: Unicode, rules: seq<SecRule>, tests: Tests)
    requires Compile(u, rules).Some? && |rules| > 1 && WellParsed(rules)
    ensures var c := Compile(u, rules).value;
            && |c.conditions| == |Origins(rules)|
            && (CompiledHolds(c, Origins(rules), tests) <==> ChainHolds(rules, 0, |rules|, tests))
  {
    hide BuildRules;
    var c, o := Compile(u, rules).value, Origins(rules);
    BuildRulesOrigins(u, rules);
    assert c.operation == "AND";
    forall i | 0 <= i < |rules|
      ensures RuleHolds(rules, i, tests) <==> tests(i, 0) != rules[i].negated
    {
      assert |rules[i].variables| == 1;
    }
    if CompiledHolds(c, o, tests) {
      forall i | 0 <= i < |rules| ensures RuleHolds(rules, i, tests) {
        var k := OriginsCover(rules, i, 0);
        assert ConditionHolds(c.conditions[k], o[k], tests);
      }
    }
    if ChainHolds(rules, 0, |rules|, tests) {
      forall k | 0 <= k < |c.conditions| ensures ConditionHolds(c.conditions[k], o[k], tests) {
        assert RuleHolds(rules, o[k].0, tests);
      }
    }
  }

  lemma WholeChain(rules: seq<SecRule>, tests: Tests)
    requires rules != [] && Unbroken(rules)
    ensures SourceHolds(rules, tests) <==> ChainHolds(rules, 0, |rules|, tests)
  {
    assert IsChain(rules, 0, |rules|);
    if a, b :| IsChain(rules, a, b) && ChainHolds(rules, a, b, tests) {
      assert a == 0;
      assert b == |rules|;
    }
  }

  /** The chain that directive i belongs to. */
  lemma {:induction false} ChainFrom(rules: seq<SecRule>, a: int, i: int) returns (b: int)
    requires 0 <= a <= i < |rules| && (a == 0 || !rules[a - 1].chained)
    requires forall k :: a <= k < i ==> rules[k].chained
    ensures i < b && IsChain(rules, a, b)
    decreases |rules| - i
  {
    if i == |rules| - 1 || !rules[i].chained {
      b := i + 1;
    } else {
      b := ChainFrom(rules, a, i + 1);
    }
  }

  /** If all directives hold, so does some chain. */
  lemma AllImpliesSource(rules: seq<SecRule>, tests: Tests)
    requires rules != [] && ChainHolds(rules, 0, |rules|, tests)
    ensures SourceHolds(rules, tests)
  {
    var b := ChainFrom(rules, 0, 0);
    assert ChainHolds(rules, 0, b, tests);
  }

  /** The compiled rule never acts where the source does not; and it acts on
      exactly the same tests, whatever they are, if and only if there is a
      single directive or every directive but the last chains.  The compiler
      only asks that some directive chains. */
  lemma RuleMeaning(u: Unicode, rules: seq<SecRule>)
    requires Compile(u, rules).Some? && WellParsed(rules)
    ensures var c := Compile(u, rules).value;
            && |c.conditions| == |Origins(rules)|
            && (forall tests: Tests :: CompiledHolds(c, Origins(rules), tests) ==> SourceHolds(rules, tests))
            && ((forall tests: Tests :: CompiledHolds(c, Origins(rules), tests) <==> SourceHolds(rules, tests))
                <==> Unbroken(rules))
  {
    hide Compile, Origins, CompiledHolds, SourceHolds, ChainHolds;
    var c, o := Compile(u, rules).value, Origins(rules);
    CompileNonEmpty(u, rules);
    if |rules| == 1 {
      SingleMeaning(u, rules, (_, _) => true);
      forall tests: Tests ensures CompiledHolds(c, o, tests) <==> SourceHolds(rules, tests) {
        SingleMeaning(u, rules, tests);
      }
    } else {
      ChainedMeaning(u, rules, (_, _) => true);
      forall tests: Tests ensures CompiledHolds(c, o, tests) ==> SourceHolds(rules, tests) {
        ChainedMeaning(u, rules, tests);
        if CompiledHolds(c, o, tests) { AllImpliesSource(rules, tests); }
      }
      if Unbroken(rules) {
        forall tests: Tests ensures CompiledHolds(c, o, tests) <==> SourceHolds(rules, tests) {
          ChainedMeaning(u, rules, tests);
          WholeChain(rules, tests);
        }
      } else {
        var tests := BrokenTests(rules);
        ChainedMeaning(u, rules, tests);
      }
    }
  }

  lemma CompileNonEmpty(u: Unicode, rules: seq<SecRule>)
    requires Compile(u, rules).Some?
    ensures rules != [] && (|rules| == 1 ==> Unbroken(rules))
  {}

  /** At a break: tests that make the first chain hold and the rest fail. */
  lemma BrokenTests(rules: seq<SecRule>) returns (tests: Tests)
    requires WellParsed(rules) && !Unbroken(rules)
    ensures SourceHolds(rules, tests) && !ChainHolds(rules, 0, |rules|, tests)
  {
    var b := ChainFrom(rules, 0, 0);
    assert b < |rules| by {
      var k :| 0 <= k < |rules| - 1 && !rules[k].chained;
    }
    tests := (i, v) => 0 <= i < |rules| && ((i < b) != rules[i].negated);
    forall i | 0 <= i < b ensures RuleHolds(rules, i, tests) {
      assert tests(i, 0) != rules[i].negated;
    }
    assert ChainHolds(rules, 0, b, tests);
    assert !RuleHolds(rules, b, tests);
  }
}
