/** What the label "equivalent" promises of a whole rule: on the texts of every
    request, the compiled rule acts exactly where the source does. */
module RuleExactness {
  import opened Options
  import opened RegexSemantics
  import opened PercentEncoding
  import opened Expansion
  import opened Wildcards
  import opened TranslationMeaning
  import opened TranslationTheorems
  import opened Operators
  import opened RuleCompiler
  import opened LetterCase
  import opened RulePlaces
  import opened InlineFlags

  /** The text that each part of a request, or a selector in it, gives. */
  type Request = Cell -> string

  /** How characters are compared: exactly, or up to the folding of case. */
  function Compare(sensitive: bool, fold: char -> char): char -> char { if sensitive then Exact else fold }

  /** The flag of the emitted conditions. */
  predicate Sensitive(rule: SecRule, m: Match) { !(m.caseInsensitive || "lowercase" in rule.transformations) }

  /** The source's own letter case, from the operator and its text: phrase lists
      ignore it, and so does a regex whose leading flags hold `i`. */
  ghost predicate SourceIgnores(rule: SecRule) {
    rule.operator == "pm" || (rule.operator == "rx" && IgnoresCase(rule.argument))
  }

  ghost function OwnCase(rule: SecRule, fold: char -> char): char -> char { Compare(!SourceIgnores(rule), fold) }

  /** The compiler reads that letter case off every operator it accepts. */
  lemma CaseOfMatch(u: Unicode, rule: SecRule, m: Match)
    requires OperatorMatch(u, rule.operator, rule.argument) == Some(m)
    ensures m.caseInsensitive <==> SourceIgnores(rule)
  {
    hide Translate, Fields, Unique, IgnoresCase;
    if rule.operator == "rx" { FlagIsTheTexts(u.alnum, rule.argument); }
  }

  /** `t:lowercase` lowers what is inspected, unless a later `t:none` takes it back. */
  predicate Lowers(transformations: seq<string>) {
    exists k :: 0 <= k < |transformations| && transformations[k] == "lowercase"
                && forall j :: k < j < |transformations| ==> transformations[j] != "none"
  }

  function Inspects(rule: SecRule, lower: char -> char): char -> char { if Lowers(rule.transformations) then lower else Exact }

  // ------------------------------------------------------------------- the two tests

  /** What the operator asks of a text. */
  ghost predicate Asks(u: Unicode, rule: SecRule, cmp: char -> char, s: string) {
    match rule.operator
    case "rx" => Translate(u.alnum, rule.argument).Some? && Found(cmp, SourceTree(u.alnum, rule.argument), s)
    case "contains" => Occurs(cmp, rule.argument, false, false, s)
    case "beginsWith" => Occurs(cmp, rule.argument, true, false, s)
    case "endsWith" => Occurs(cmp, rule.argument, false, true, s)
    case "streq" => SameFolded(cmp, rule.argument, s)
    case "pm" => SomeOccurs(cmp, DistinctFields(u.space, rule.argument), s)
    case _ => false
  }

  /** What an emitted condition asks of a text; one without flags, exactly its values. */
  ghost predicate Matches(c: Condition, fold: char -> char, s: string) {
    if c.flags.None? then s in c.value
    else SomeValueMatches(Compare(c.flags.value.0, fold), c.value, c.flags.value.1, s)
  }

  // --------------------------------------------------------- what must hold of a rule

  /** The operator's argument is one whose values are exact. */
  ghost predicate ExactOperator(u: Unicode, rule: SecRule, cmp: char -> char) {
    match rule.operator
    case "rx" =>
      && Translate(u.alnum, rule.argument).Some?
      && var r := TreeOf(u.alnum, rule.argument);
      && PlainlyRead(r) && NoPossessive(r) && NoOptionalDot(u.alnum, r) && AnchorsReadRight(u.alnum, rule.argument)
    case "contains" => NoWildcardIn(rule.argument)
    case "beginsWith" => NoWildcardIn(rule.argument)
    case "endsWith" => NoWildcardIn(rule.argument)
    case "streq" => true
    case "pm" => KeepsWildcards(cmp) && Subsumed(cmp, DistinctFields(u.space, rule.argument))
    case _ => false
  }

  /** Parts that the edge sees before they are decoded. */
  predicate MayBeEncoded(part: Region) { part == QueryPart || part == BodyPart || part == UriPart || part == PathPart }

  /** Literals are tested there in their transport encodings. */
  predicate Encoded(part: Region, m: Match) { MayBeEncoded(part) && !m.wildcard }

  /** The emitted comparison takes the values' letter case as the source does: every
      character is compared alike, or, for literals, whatever the emitted flag lets
      through is listed as the source sees it. */
  ghost predicate KeepsCase(rule: SecRule, m: Match, fold: char -> char, lower: char -> char) {
    var own, seen, cmp := OwnCase(rule, fold), Inspects(rule, lower), Compare(Sensitive(rule, m), fold);
    if m.wildcard || SourceIgnores(rule) then forall k :: 0 <= k < |m.values| ==> ValueKept(own, seen, cmp, m.values[k], m.wildcard)
    else Listed(seen, cmp, m.values)
  }

  /** The source sees each value as it is. */
  predicate Unchanged(rule: SecRule, m: Match, lower: char -> char) {
    forall k :: 0 <= k < |m.values| ==> Seen(Inspects(rule, lower), m.values[k]) == m.values[k]
  }

  /** The values can be asked of this part: of a method, upper-case literals that the
      source compares as they are; where literals come encoded, what the source
      sees as it is; elsewhere, what keeps the letter case.  Addresses are left out. */
  ghost predicate PartFine(u: Unicode, rule: SecRule, m: Match, part: Region, fold: char -> char, lower: char -> char) {
    match part
    case AddressPart => false
    case MethodPart =>
      && !m.wildcard && !SourceIgnores(rule) && !Lowers(rule.transformations)
      && forall k :: 0 <= k < |m.values| ==> Upper(u, m.values[k]) == m.values[k]
    case _ => KeepsCase(rule, m, fold, lower) && (Encoded(part, m) ==> Unchanged(rule, m, lower))
  }

  ghost predicate ExactRule(u: Unicode, rule: SecRule, fold: char -> char, lower: char -> char) {
    var m := OperatorMatch(u, rule.operator, rule.argument);
    && m.Some? && ExactOperator(u, rule, OwnCase(rule, fold))
    && forall k :: 0 <= k < |rule.variables| ==>
         PartsOf(rule.variables[k].collection) != [] && PartFine(u, rule, m.value, Kept(rule.variables[k]).part, fold, lower)
  }

  // -------------------------------------------------------------- what is inspected

  /** The cells of all the directive's variables. */
  function Targets(rule: SecRule): set<Cell> {
    set k, x | 0 <= k < |rule.variables| && x in Cells(rule.variables[k]) :: x
  }

  /** The cells that are left for the conditions. */
  function KeptTargets(rule: SecRule): set<Cell> {
    set k | 0 <= k < |rule.variables| && PartsOf(rule.variables[k].collection) != [] :: Kept(rule.variables[k])
  }

  // ------------------------------------------------------------------ one condition

  /** Exact operators: some value matches exactly when the operator's test holds. */
  lemma OperatorExact(u: Unicode, rule: SecRule, cmp: char -> char, s: string)
    requires KnowsAscii(u.alnum) && ExactOperator(u, rule, cmp)
    requires var m := OperatorMatch(u, rule.operator, rule.argument); m.Some? && !m.value.lossy && !m.value.narrowed
    ensures var m := OperatorMatch(u, rule.operator, rule.argument).value;
            SomeValueMatches(cmp, m.values, m.wildcard, s) <==> Asks(u, rule, cmp, s)
  {
    hide Translate, Fields, Unique, GlobMatch, Found;
    match rule.operator {
      case "rx" => Exactness(cmp, u.alnum, rule.argument, s);
      case "contains" => AffixValue(cmp, rule.argument, false, false, s);
      case "beginsWith" => AffixValue(cmp, rule.argument, true, false, s);
      case "endsWith" => AffixValue(cmp, rule.argument, false, true, s);
      case "streq" => OneValueMatches(cmp, rule.argument, false, s);
      case "pm" =>
        var phrases := DistinctFields(u.space, rule.argument);
        if SomeOccurs(cmp, phrases, s) { OccurrenceMatched(cmp, phrases, s); }
        if SomeValueMatches(cmp, Surround(phrases), true, s) { SubsumedMatches(cmp, phrases, s); }
    }
  }

  lemma OneValueMatches(cmp: char -> char, v: string, wildcard: bool, s: string)
    ensures SomeValueMatches(cmp, [v], wildcard, s) <==> ValueMatches(cmp, v, wildcard, s)
  {
    hide ValueMatches;
    if ValueMatches(cmp, v, wildcard, s) { assert ValueMatches(cmp, [v][0], wildcard, s); }
  }

  lemma AffixValue(cmp: char -> char, argument: string, start: bool, end: bool, s: string)
    requires NoWildcardIn(argument)
    ensures SomeValueMatches(cmp, [Decorate(argument, start, end)], true, s) <==> Occurs(cmp, argument, start, end, s)
  {
    OneValueMatches(cmp, Decorate(argument, start, end), true, s);
    LiteralAffix(cmp, argument, start, end, s);
  }

  // -------------------------------------------------------------------- letter case

  lemma AlwaysCoarser(rule: SecRule, m: Match, fold: char -> char, lower: char -> char)
    requires FoldsTo(fold, lower) && (m.caseInsensitive <==> SourceIgnores(rule))
    ensures Coarser(OwnCase(rule, fold), Inspects(rule, lower), Compare(Sensitive(rule, m), fold))
  {
    hide IgnoresCase;
    LowerExactly(fold, lower);
  }

  /** A directive's source, by its own comparison of the text it inspects. */
  ghost predicate SourceAsks(u: Unicode, rule: SecRule, m: Match, fold: char -> char, lower: char -> char, s: string) {
    Asks(u, rule, OwnCase(rule, fold), Seen(Inspects(rule, lower), s))
  }

  ghost predicate ValuesMatch(rule: SecRule, m: Match, fold: char -> char, s: string) {
    SomeValueMatches(Compare(Sensitive(rule, m), fold), m.values, m.wildcard, s)
  }

  lemma SourceIsOwn(u: Unicode, rule: SecRule, m: Match, fold: char -> char, lower: char -> char, s: string)
    requires KnowsAscii(u.alnum) && ExactOperator(u, rule, OwnCase(rule, fold))
    requires OperatorMatch(u, rule.operator, rule.argument) == Some(m) && !m.lossy && !m.narrowed
    ensures SourceAsks(u, rule, m, fold, lower, s) <==> SomeValueMatches(OwnCase(rule, fold), m.values, m.wildcard, Seen(Inspects(rule, lower), s))
  {
    hide OperatorMatch, Asks, ExactOperator, KnowsAscii, SomeValueMatches;
    OperatorExact(u, rule, OwnCase(rule, fold), Seen(Inspects(rule, lower), s));
  }

  /** What the source accepts, the values match; and only that, where they keep the
      case. */
  lemma CaseKept(u: Unicode, rule: SecRule, m: Match, fold: char -> char, lower: char -> char, s: string)
    requires KnowsAscii(u.alnum) && FoldsTo(fold, lower) && ExactOperator(u, rule, OwnCase(rule, fold))
    requires OperatorMatch(u, rule.operator, rule.argument) == Some(m) && !m.lossy && !m.narrowed
    ensures SourceAsks(u, rule, m, fold, lower, s) ==> ValuesMatch(rule, m, fold, s)
    ensures KeepsCase(rule, m, fold, lower) ==> (ValuesMatch(rule, m, fold, s) <==> SourceAsks(u, rule, m, fold, lower, s))
  {
    var own, seen, cmp := OwnCase(rule, fold), Inspects(rule, lower), Compare(Sensitive(rule, m), fold);
    SourceIsOwn(u, rule, m, fold, lower, s);
    CaseOfMatch(u, rule, m);
    AlwaysCoarser(rule, m, fold, lower);
    hide IgnoresCase;
    if !m.wildcard && !m.caseInsensitive { ListExactly(seen, cmp, m.values); }
    hide OperatorMatch, Asks, ExactOperator, KnowsAscii, FoldsTo, ValueMatches, ValueKept, Listed, SourceAsks, Coarser;
    forall k | 0 <= k < |m.values|
      ensures ValueMatches(own, m.values[k], m.wildcard, Seen(seen, s)) ==> ValueMatches(cmp, m.values[k], m.wildcard, s)
      ensures ValueKept(own, seen, cmp, m.values[k], m.wildcard) ==>
                (ValueMatches(own, m.values[k], m.wildcard, Seen(seen, s)) <==> ValueMatches(cmp, m.values[k], m.wildcard, s))
    {
      ValueSeen(own, seen, cmp, m.values[k], m.wildcard, s);
    }
  }

  /** The emitted flag stands for the source's letter case on every text exactly when
      the values keep it, for one value and for literal lists. */
  lemma CaseExactly(u: Unicode, rule: SecRule, m: Match, fold: char -> char, lower: char -> char)
    requires KnowsAscii(u.alnum) && FoldsTo(fold, lower) && ExactOperator(u, rule, OwnCase(rule, fold))
    requires OperatorMatch(u, rule.operator, rule.argument) == Some(m) && !m.lossy && !m.narrowed
    requires |m.values| == 1 || !m.wildcard
    ensures (forall s: string :: ValuesMatch(rule, m, fold, s) <==> SourceAsks(u, rule, m, fold, lower, s)) <==> KeepsCase(rule, m, fold, lower)
  {
    hide *;
    forall s: string
      ensures SourceAsks(u, rule, m, fold, lower, s) <==> SomeValueMatches(OwnCase(rule, fold), m.values, m.wildcard, Seen(Inspects(rule, lower), s))
      ensures KeepsCase(rule, m, fold, lower) ==> (ValuesMatch(rule, m, fold, s) <==> SourceAsks(u, rule, m, fold, lower, s))
    {
      SourceIsOwn(u, rule, m, fold, lower, s);
      CaseKept(u, rule, m, fold, lower, s);
    }
    if forall s: string :: ValuesMatch(rule, m, fold, s) <==> SourceAsks(u, rule, m, fold, lower, s) {
      CaseOfMatch(u, rule, m);
      OnlyIfKept(rule, m, fold, lower);
    }
  }

  lemma OnlyIfKept(rule: SecRule, m: Match, fold: char -> char, lower: char -> char)
    requires FoldsTo(fold, lower) && (|m.values| == 1 || !m.wildcard) && (m.caseInsensitive <==> SourceIgnores(rule))
    requires forall s: string :: ValuesMatch(rule, m, fold, s)
                                 <==> SomeValueMatches(OwnCase(rule, fold), m.values, m.wildcard, Seen(Inspects(rule, lower), s))
    ensures KeepsCase(rule, m, fold, lower)
  {
    AlwaysCoarser(rule, m, fold, lower);
    hide IgnoresCase;
    if m.caseInsensitive { LowerExactly(fold, lower); }
    hide FoldsTo, SomeValueMatches, Coarser, Listed, Lowers;
    var own, seen, cmp := OwnCase(rule, fold), Inspects(rule, lower), Compare(Sensitive(rule, m), fold);
    if m.wildcard {
      OneValueKept(own, seen, cmp, m.values, m.wildcard);
    } else if !m.caseInsensitive {
      ListExactly(seen, cmp, m.values);
    }
  }

  lemma OneValueKept(own: char -> char, seen: char -> char, cmp: char -> char, values: seq<string>, wildcard: bool)
    requires |values| == 1 && Coarser(own, seen, cmp)
    ensures (forall s: string :: SomeValueMatches(cmp, values, wildcard, s) <==> SomeValueMatches(own, values, wildcard, Seen(seen, s)))
            <==> ValueKept(own, seen, cmp, values[0], wildcard)
  {
    hide ValueKept, ValueMatches;
    assert values == [values[0]];
    forall s: string
      ensures SomeValueMatches(cmp, values, wildcard, s) <==> ValueMatches(cmp, values[0], wildcard, s)
      ensures SomeValueMatches(own, values, wildcard, Seen(seen, s)) <==> ValueMatches(own, values[0], wildcard, Seen(seen, s))
    {
      OneValueMatches(cmp, values[0], wildcard, s);
      OneValueMatches(own, values[0], wildcard, Seen(seen, s));
    }
    ValueExactly(own, seen, cmp, values[0], wildcard);
  }

  // ------------------------------------------------------------- transport encodings

  /** The text is one of the four forms of a text that the operator accepts exactly,
      up to the emitted comparison. */
  ghost predicate FormAsked(u: Unicode, rule: SecRule, cmp: char -> char, s: string) {
    exists t, w :: Asks(u, rule, Exact, t) && w in Variants(t) && SameFolded(cmp, w, s)
  }

  /** Literal values with their encodings match exactly the four forms of what the
      operator accepts. */
  lemma FormsExact(u: Unicode, rule: SecRule, m: Match, cmp: char -> char, s: string)
    requires KnowsAscii(u.alnum) && ExactOperator(u, rule, Exact) && !m.wildcard
    requires OperatorMatch(u, rule.operator, rule.argument) == Some(m) && !m.lossy && !m.narrowed
    ensures SomeValueMatches(cmp, EncodingVariants(m.values), false, s) <==> FormAsked(u, rule, cmp, s)
  {
    forall t: string ensures Asks(u, rule, Exact, t) <==> t in m.values {
      hide *;
      OperatorExact(u, rule, Exact, t);
      IsValue(m.values, t);
    }
    hide *;
    VariantsAreForms(u, rule, m.values, cmp, s);
  }

  lemma VariantsAreForms(u: Unicode, rule: SecRule, values: seq<string>, cmp: char -> char, s: string)
    requires forall t: string :: Asks(u, rule, Exact, t) <==> t in values
    ensures SomeValueMatches(cmp, EncodingVariants(values), false, s) <==> FormAsked(u, rule, cmp, s)
  {
    hide Asks, Variants;
    var all := EncodingVariants(values);
    forall w ensures w in all <==> ComesFrom(w, values) { AllVariantsOrigin(values, w); }
    if k :| 0 <= k < |all| && ValueMatches(cmp, all[k], false, s) {
      assert all[k] in all;
      var i :| 0 <= i < |values| && all[k] in Variants(values[i]);
      assert Asks(u, rule, Exact, values[i]);
    }
    if t, w :| Asks(u, rule, Exact, t) && w in Variants(t) && SameFolded(cmp, w, s) {
      var i :| 0 <= i < |values| && values[i] == t;
      assert ComesFrom(w, values);
      var k :| 0 <= k < |all| && all[k] == w;
      assert ValueMatches(cmp, all[k], false, s);
    }
  }

  /** Those forms take in everything the source accepts; and, where the source sees
      the values as they are, each of them decodes to a text that it accepts. */
  lemma FormsDecode(u: Unicode, rule: SecRule, m: Match, fold: char -> char, lower: char -> char, s: string)
    requires KnowsAscii(u.alnum) && FoldsTo(fold, lower) && !m.wildcard && ExactOperator(u, rule, OwnCase(rule, fold))
    requires OperatorMatch(u, rule.operator, rule.argument) == Some(m) && !m.lossy && !m.narrowed
    ensures SourceAsks(u, rule, m, fold, lower, s) ==> FormAsked(u, rule, Compare(Sensitive(rule, m), fold), s)
    ensures Unchanged(rule, m, lower) && FormAsked(u, rule, Compare(Sensitive(rule, m), fold), s) ==>
              exists t, w :: SourceAsks(u, rule, m, fold, lower, t) && DecodesTo(w, t) && SameFolded(Compare(Sensitive(rule, m), fold), w, s)
  {
    var cmp := Compare(Sensitive(rule, m), fold);
    hide *;
    CaseKept(u, rule, m, fold, lower, s);
    OwnOrExact(u, rule, m, fold);
    FormsExact(u, rule, m, cmp, s);
    if ValuesMatch(rule, m, fold, s) { ValuesAreForms(rule, m, fold, s); }
    if Unchanged(rule, m, lower) && FormAsked(u, rule, cmp, s) {
      var t, w := FormDecodes(u, rule, cmp, s);
      ExactIsAsked(u, rule, m, fold, lower, t);
    }
  }

  lemma ExactIsAsked(u: Unicode, rule: SecRule, m: Match, fold: char -> char, lower: char -> char, t: string)
    requires KnowsAscii(u.alnum) && !m.wildcard && Unchanged(rule, m, lower)
    requires ExactOperator(u, rule, Exact) && ExactOperator(u, rule, OwnCase(rule, fold))
    requires OperatorMatch(u, rule.operator, rule.argument) == Some(m) && !m.lossy && !m.narrowed
    requires Asks(u, rule, Exact, t)
    ensures SourceAsks(u, rule, m, fold, lower, t)
  {
    OperatorExact(u, rule, Exact, t);
    IsValue(m.values, t);
    SourceIsOwn(u, rule, m, fold, lower, t);
    hide OperatorMatch, Asks, ExactOperator, KnowsAscii, SourceAsks;
    var k :| 0 <= k < |m.values| && m.values[k] == t;
    assert ValueMatches(OwnCase(rule, fold), m.values[k], false, Seen(Inspects(rule, lower), t));
  }

  lemma ValuesAreForms(rule: SecRule, m: Match, fold: char -> char, s: string)
    requires ValuesMatch(rule, m, fold, s) && !m.wildcard
    ensures SomeValueMatches(Compare(Sensitive(rule, m), fold), EncodingVariants(m.values), false, s)
  {
    hide Sensitive, EncodingVariants;
    var cmp, all := Compare(Sensitive(rule, m), fold), EncodingVariants(m.values);
    var k :| 0 <= k < |m.values| && ValueMatches(cmp, m.values[k], false, s);
    EncodingVariantsKeep(m.values);
    var i :| 0 <= i < |all| && all[i] == m.values[k];
    assert ValueMatches(cmp, all[i], false, s);
  }

  lemma FormDecodes(u: Unicode, rule: SecRule, cmp: char -> char, s: string) returns (t: string, w: string)
    requires FormAsked(u, rule, cmp, s)
    ensures Asks(u, rule, Exact, t) && DecodesTo(w, t) && SameFolded(cmp, w, s)
  {
    hide Asks, Variants, DecodesTo;
    t, w :| Asks(u, rule, Exact, t) && w in Variants(t) && SameFolded(cmp, w, s);
    VariantsDecode(t, w);
  }

  /** What the built condition carries: for a method its values in upper case, for
      literals on a part that may be encoded their encodings, and otherwise the
      operator's values as they are. */
  lemma BuiltValues(u: Unicode, v: Variable, rule: SecRule, m: Match, sensitive: bool)
    requires BuildCondition(u, v, rule, m, sensitive).Some? && PartsOf(v.collection) != []
    ensures var c, part := BuildCondition(u, v, rule, m, sensitive).value, Kept(v).part;
            && c.positive == !rule.negated
            && c.value == (if part == MethodPart then Unique(UpperAll(u, m.values)) else if Encoded(part, m) then EncodingVariants(m.values) else m.values)
            && c.flags == if part == MethodPart || part == AddressPart then None else Some((sensitive, m.wildcard))
  {
    hide EncodingVariants, Unique, UpperAll;
    match v.collection {
      case "ARGS" =>
      case "ARGS_POST" =>
      case "ARGS_GET" =>
      case "QUERY_STRING" =>
      case "REQUEST_BODY" =>
      case "XML" =>
      case "REQUEST_HEADERS" =>
      case "REQUEST_URI" =>
      case "REQUEST_URI_RAW" =>
      case "REQUEST_FILENAME" =>
      case "REQUEST_COOKIES" =>
      case "REQUEST_METHOD" =>
      case "REMOTE_ADDR" =>
    }
  }

  // ------------------------------------------------------------- every condition's origin

  /** The condition was built for this variable of this directive. */
  predicate BuiltFor(u: Unicode, rules: seq<SecRule>, c: Condition, o: (int, int)) {
    && 0 <= o.0 < |rules| && 0 <= o.1 < |rules[o.0].variables|
    && var rule := rules[o.0];
    && OperatorMatch(u, rule.operator, rule.argument).Some?
    && var m := OperatorMatch(u, rule.operator, rule.argument).value;
    && BuildCondition(u, rule.variables[o.1], rule, m, Sensitive(rule, m)) == Some(c)
  }

  lemma {:induction false} BuildAllFor(u: Unicode, rule: SecRule, m: Match, n: nat, k: nat)
    requires k < n <= |rule.variables| && BuildAll(u, rule, m, n).Some?
    ensures |BuildAll(u, rule, m, n).value| == n
    ensures BuildCondition(u, rule.variables[k], rule, m, Sensitive(rule, m)) == Some(BuildAll(u, rule, m, n).value[k])
  {
    hide BuildCondition;
    if n > 1 && k < n - 1 { BuildAllFor(u, rule, m, n - 1, k); }
    if n > 1 && k == n - 1 { BuildAllFor(u, rule, m, n - 1, 0); }
  }

  lemma BuiltWider(u: Unicode, rules: seq<SecRule>, n: nat, c: Condition, o: (int, int))
    requires n <= |rules| && BuiltFor(u, rules[..n], c, o)
    ensures BuiltFor(u, rules, c, o)
  {
    hide OperatorMatch, BuildCondition;
    assert rules[..n][o.0] == rules[o.0];
  }

  lemma {:induction false} BuildRulesFor(u: Unicode, rules: seq<SecRule>, k: nat)
    requires BuildRules(u, rules).Some? && k < |BuildRules(u, rules).value.conditions|
    ensures |Origins(rules)| == |BuildRules(u, rules).value.conditions|
    ensures BuiltFor(u, rules, BuildRules(u, rules).value.conditions[k], Origins(rules)[k])
    decreases |rules|
  {
    BuildRulesOrigins(u, rules);
    hide OperatorMatch, BuildCondition, BuildAll, BuiltFor;
    var n := |rules| - 1;
    var front, o := Origins(rules[..n]), Origins(rules);
    var before, last := BuildRules(u, rules[..n]).value.conditions, rules[n];
    BuildRulesOrigins(u, rules[..n]);
    if k < |front| {
      BuildRulesFor(u, rules[..n], k);
      BuiltWider(u, rules, n, before[k], front[k]);
      assert o[k] == front[k];
    } else {
      LastBuilt(u, rules, k - |front|);
      assert o[k] == (n, k - |front|);
    }
  }

  lemma LastBuilt(u: Unicode, rules: seq<SecRule>, v: nat)
    requires rules != [] && v < |rules[|rules| - 1].variables| && BuildRule(u, rules[|rules| - 1]).Some?
    ensures var b := BuildRule(u, rules[|rules| - 1]).value;
            |b.conditions| == |rules[|rules| - 1].variables| && BuiltFor(u, rules, b.conditions[v], (|rules| - 1, v))
  {
    hide OperatorMatch, BuildCondition, BuildAll;
    var rule := rules[|rules| - 1];
    BuildAllFor(u, rule, OperatorMatch(u, rule.operator, rule.argument).value, |rule.variables|, v);
  }

  // -------------------------------------------------------------------- the whole rule

  /** The compiled rule on a request, each condition where its own fields say. */
  ghost predicate CompiledActs(c: Compiled, fold: char -> char, request: Request) {
    if c.operation == "AND" then forall k :: 0 <= k < |c.conditions| ==> ConditionActs(c.conditions[k], fold, request)
    else exists k :: 0 <= k < |c.conditions| && ConditionActs(c.conditions[k], fold, request)
  }

  ghost predicate ConditionActs(c: Condition, fold: char -> char, request: Request) {
    Inspected(c).Some? && Matches(c, fold, request(Inspected(c).value)) == c.positive
  }

  /** What the source asks of one cell; literals on a part that may be encoded, in
      their four forms. */
  ghost predicate CellAsked(u: Unicode, rule: SecRule, fold: char -> char, lower: char -> char, request: Request, x: Cell) {
    var m := OperatorMatch(u, rule.operator, rule.argument);
    && m.Some?
    && if Encoded(x.part, m.value) then FormAsked(u, rule, Compare(Sensitive(rule, m.value), fold), request(x))
       else SourceAsks(u, rule, m.value, fold, lower, request(x))
  }

  /** A variable's test holds if some cell's does; negated, it fails if some cell's
      fails. */
  ghost predicate SourceTest(u: Unicode, rules: seq<SecRule>, fold: char -> char, lower: char -> char, request: Request, i: int, v: int) {
    && 0 <= i < |rules| && 0 <= v < |rules[i].variables|
    && if rules[i].negated then forall x :: x in Cells(rules[i].variables[v]) ==> CellAsked(u, rules[i], fold, lower, request, x)
       else exists x :: x in Cells(rules[i].variables[v]) && CellAsked(u, rules[i], fold, lower, request, x)
  }

  /** The source's tests on a request. */
  ghost function SourceTests(u: Unicode, rules: seq<SecRule>, fold: char -> char, lower: char -> char, request: Request): Tests {
    (i: int, v: int) => SourceTest(u, rules, fold, lower, request, i, v)
  }

  /** The same asked of the cells that are left. */
  ghost predicate KeptTest(u: Unicode, rules: seq<SecRule>, fold: char -> char, lower: char -> char, request: Request, i: int, v: int) {
    && 0 <= i < |rules| && 0 <= v < |rules[i].variables| && PartsOf(rules[i].variables[v].collection) != []
    && CellAsked(u, rules[i], fold, lower, request, Kept(rules[i].variables[v]))
  }

  ghost function KeptTests(u: Unicode, rules: seq<SecRule>, fold: char -> char, lower: char -> char, request: Request): Tests {
    (i: int, v: int) => KeptTest(u, rules, fold, lower, request, i, v)
  }

  predicate Unlabelled(u: Unicode, rule: SecRule) {
    var m := OperatorMatch(u, rule.operator, rule.argument);
    m.Some? ==> !m.value.lossy && !m.value.narrowed
  }

  /** Under the label no directive was generalized or narrowed. */
  lemma {:induction false} LabelMeans(u: Unicode, rules: seq<SecRule>, i: nat)
    requires BuildRules(u, rules).Some? && !BuildRules(u, rules).value.lossy && !BuildRules(u, rules).value.narrowed
    requires i < |rules| && rules[i].variables != []
    ensures Unlabelled(u, rules[i])
    decreases |rules|
  {
    hide OperatorMatch, BuildAll;
    var n := |rules| - 1;
    if i < n { LabelMeans(u, rules[..n], i); }
  }

  /** Upper-case method names are emitted as they are. */
  lemma MethodValues(u: Unicode, values: seq<string>, s: string)
    requires forall k :: 0 <= k < |values| ==> Upper(u, values[k]) == values[k]
    ensures s in Unique(UpperAll(u, values)) <==> SomeValueMatches(Exact, values, false, s)
  {
    assert UpperAll(u, values) == values;
    IsValue(values, s);
  }

  /** A condition matches exactly where the source's test of its cell holds. */
  lemma ConditionExact(u: Unicode, rules: seq<SecRule>, fold: char -> char, lower: char -> char, request: Request, c: Condition, o: (int, int))
    requires KnowsAscii(u.alnum) && FoldsTo(fold, lower)
    requires BuiltFor(u, rules, c, o) && ExactRule(u, rules[o.0], fold, lower) && Unlabelled(u, rules[o.0])
    ensures c.positive == !rules[o.0].negated
    ensures ConditionActs(c, fold, request) <==> KeptTest(u, rules, fold, lower, request, o.0, o.1) == c.positive
  {
    var rule := rules[o.0];
    var m, v := OperatorMatch(u, rule.operator, rule.argument).value, rule.variables[o.1];
    PlaceExactly(u, v, rule, m, Sensitive(rule, m));
    BuiltValues(u, v, rule, m, Sensitive(rule, m));
    hide *;
    CellExact(u, rule, m, c, Kept(v), fold, lower, request);
    TestOfKept(u, rules, rule, v, fold, lower, request, o);
    ActsThere(c, Kept(v), fold, request);
  }

  lemma TestOfKept(u: Unicode, rules: seq<SecRule>, rule: SecRule, v: Variable, fold: char -> char, lower: char -> char, request: Request, o: (int, int))
    requires 0 <= o.0 < |rules| && rule == rules[o.0] && 0 <= o.1 < |rule.variables| && v == rule.variables[o.1] && PartsOf(v.collection) != []
    ensures KeptTest(u, rules, fold, lower, request, o.0, o.1) <==> CellAsked(u, rule, fold, lower, request, Kept(v))
  {}

  lemma ActsThere(c: Condition, x: Cell, fold: char -> char, request: Request)
    requires Inspected(c) == Some(x)
    ensures ConditionActs(c, fold, request) <==> Matches(c, fold, request(x)) == c.positive
  {}

  lemma CellExact(u: Unicode, rule: SecRule, m: Match, c: Condition, x: Cell, fold: char -> char, lower: char -> char, request: Request)
    requires KnowsAscii(u.alnum) && FoldsTo(fold, lower) && ExactOperator(u, rule, OwnCase(rule, fold)) && PartFine(u, rule, m, x.part, fold, lower)
    requires OperatorMatch(u, rule.operator, rule.argument) == Some(m) && !m.lossy && !m.narrowed
    requires c.value == (if x.part == MethodPart then Unique(UpperAll(u, m.values)) else if Encoded(x.part, m) then EncodingVariants(m.values) else m.values)
    requires c.flags == if x.part == MethodPart || x.part == AddressPart then None else Some((Sensitive(rule, m), m.wildcard))
    ensures Matches(c, fold, request(x)) <==> CellAsked(u, rule, fold, lower, request, x)
  {
    var s := request(x);
    hide OperatorMatch, SomeValueMatches, SourceAsks, FormAsked, ExactOperator, KnowsAscii, FoldsTo, KeepsCase, Unique, EncodingVariants, Sensitive, Lowers, Seen, IgnoresCase;
    if x.part == MethodPart {
      MethodValues(u, m.values, s);
      SourceIsOwn(u, rule, m, fold, lower, s);
      SeenExactly(s);
    } else if Encoded(x.part, m) {
      OwnOrExact(u, rule, m, fold);
      FormsExact(u, rule, m, Compare(Sensitive(rule, m), fold), s);
    } else {
      CaseKept(u, rule, m, fold, lower, s);
    }
  }

  lemma SeenExactly(s: string)
    ensures Seen(Exact, s) == s
  {}

  /** Only phrase lists depend on the comparison, and they are not literal. */
  lemma OwnOrExact(u: Unicode, rule: SecRule, m: Match, fold: char -> char)
    requires OperatorMatch(u, rule.operator, rule.argument) == Some(m) && !m.wildcard && ExactOperator(u, rule, OwnCase(rule, fold))
    ensures ExactOperator(u, rule, Exact)
  {
    hide Translate, PlainlyRead, NoPossessive, NoOptionalDot, AnchorsReadRight, Fields, Unique;
  }

  /** Where a directive keeps its targets, asking what is left is asking all. */
  lemma TargetsKept(u: Unicode, rules: seq<SecRule>, fold: char -> char, lower: char -> char, request: Request, i: int)
    requires 0 <= i < |rules| && Targets(rules[i]) == KeptTargets(rules[i])
    requires forall v :: 0 <= v < |rules[i].variables| ==> PartsOf(rules[i].variables[v].collection) != []
    ensures RuleHolds(rules, i, SourceTests(u, rules, fold, lower, request)) <==> RuleHolds(rules, i, KeptTests(u, rules, fold, lower, request))
  {
    hide CellAsked, Cells, Kept;
    var rule, all, kept := rules[i], SourceTests(u, rules, fold, lower, request), KeptTests(u, rules, fold, lower, request);
    if RuleHolds(rules, i, all) {
      var v :| 0 <= v < |rule.variables| && all(i, v) != rule.negated;
      var x :| x in Cells(rule.variables[v]) && CellAsked(u, rule, fold, lower, request, x) != rule.negated;
      assert x in Targets(rule);
      var w :| 0 <= w < |rule.variables| && Kept(rule.variables[w]) == x;
      assert kept(i, w) != rule.negated;
    }
    if RuleHolds(rules, i, kept) {
      var w :| 0 <= w < |rule.variables| && kept(i, w) != rule.negated;
      var x := Kept(rule.variables[w]);
      assert x in KeptTargets(rule);
      var v :| 0 <= v < |rule.variables| && x in Cells(rule.variables[v]);
      assert all(i, v) != rule.negated;
    }
  }

  /** Whatever a request holds: a rule of exact directives, compiled under the
      label "equivalent" from one directive or an unbroken chain, acts exactly
      where the source does, if the coverage notes admit no gap in any directive's
      targets. */
  lemma EquivalentRule(u: Unicode, rules: seq<SecRule>, fold: char -> char, lower: char -> char, request: Request)
    requires KnowsAscii(u.alnum) && FoldsTo(fold, lower) && Compile(u, rules).Some? && WellParsed(rules) && Unbroken(rules)
    requires Compile(u, rules).value.Equivalent() && forall i :: 0 <= i < |rules| ==> ExactRule(u, rules[i], fold, lower)
    requires forall i :: 0 <= i < |rules| ==> Targets(rules[i]) == KeptTargets(rules[i])
    ensures CompiledActs(Compile(u, rules).value, fold, request) <==> SourceHolds(rules, SourceTests(u, rules, fold, lower, request))
  {
    KeptRule(u, rules, fold, lower, request);
    forall i | 0 <= i < |rules|
      ensures RuleHolds(rules, i, SourceTests(u, rules, fold, lower, request)) <==> RuleHolds(rules, i, KeptTests(u, rules, fold, lower, request))
    {
      HasParts(u, rules[i], fold, lower);
      hide *;
      TargetsKept(u, rules, fold, lower, request, i);
    }
    hide *;
    SameRules(rules, SourceTests(u, rules, fold, lower, request), KeptTests(u, rules, fold, lower, request));
  }

  lemma HasParts(u: Unicode, rule: SecRule, fold: char -> char, lower: char -> char)
    requires ExactRule(u, rule, fold, lower)
    ensures forall v :: 0 <= v < |rule.variables| ==> PartsOf(rule.variables[v].collection) != []
  {}

  lemma SameRules(rules: seq<SecRule>, a: Tests, b: Tests)
    requires forall i :: 0 <= i < |rules| ==> (RuleHolds(rules, i, a) <==> RuleHolds(rules, i, b))
    ensures SourceHolds(rules, a) <==> SourceHolds(rules, b)
  {
    hide RuleHolds, IsChain;
    forall x, y | IsChain(rules, x, y) ensures 0 <= x <= y <= |rules| && (ChainHolds(rules, x, y, a) <==> ChainHolds(rules, x, y, b)) {
      ChainBounds(rules, x, y);
    }
  }

  lemma ChainBounds(rules: seq<SecRule>, x: int, y: int)
    requires IsChain(rules, x, y)
    ensures 0 <= x <= y <= |rules|
  {}

  /** In any case it acts where the source would, asked only of what is left. */
  lemma KeptRule(u: Unicode, rules: seq<SecRule>, fold: char -> char, lower: char -> char, request: Request)
    requires KnowsAscii(u.alnum) && FoldsTo(fold, lower) && Compile(u, rules).Some? && WellParsed(rules) && Unbroken(rules)
    requires Compile(u, rules).value.Equivalent() && forall i :: 0 <= i < |rules| ==> ExactRule(u, rules[i], fold, lower)
    ensures CompiledActs(Compile(u, rules).value, fold, request) <==> SourceHolds(rules, KeptTests(u, rules, fold, lower, request))
  {
    var c, o, tests := Compile(u, rules).value, Origins(rules), KeptTests(u, rules, fold, lower, request);
    RuleMeaning(u, rules);
    BuildRulesOrigins(u, rules);
    forall k | 0 <= k < |c.conditions|
      ensures ConditionActs(c.conditions[k], fold, request) <==> ConditionHolds(c.conditions[k], o[k], tests)
    {
      BuildRulesFor(u, rules, k);
      LabelMeans(u, rules, o[k].0);
      hide OperatorMatch, BuildCondition, ExactRule, KnowsAscii, FoldsTo, ConditionActs, KeptTest, BuildRules, Unlabelled;
      assert BuiltFor(u, rules, c.conditions[k], o[k]);
      ConditionExact(u, rules, fold, lower, request, c.conditions[k], o[k]);
      assert tests(o[k].0, o[k].1) == KeptTest(u, rules, fold, lower, request, o[k].0, o[k].1);
    }
    hide OperatorMatch, Compile, ExactRule, KnowsAscii, FoldsTo, ConditionActs, ConditionHolds, SourceHolds, Unbroken, WellParsed;
    assert CompiledActs(c, fold, request) <==> CompiledHolds(c, o, tests);
  }

  // ------------------------------------------------------------- one directive, exactly

  /** All variables name texts that are tested by the values as they are. */
  predicate AllText(rule: SecRule, m: Match) {
    forall k :: 0 <= k < |rule.variables| ==>
      && PartsOf(rule.variables[k].collection) != []
      && var part := Kept(rule.variables[k]).part; !Encoded(part, m) && part != MethodPart && part != AddressPart
  }

  /** Some of the cells passes or, negated, fails the test. */
  ghost predicate SomeCell(cells: set<Cell>, negated: bool, test: Cell -> bool) {
    exists x :: x in cells && test(x) != negated
  }

  ghost function ValueTest(rule: SecRule, m: Match, fold: char -> char, request: Request): Cell -> bool {
    (x: Cell) => ValuesMatch(rule, m, fold, request(x))
  }

  ghost function TextTest(u: Unicode, rule: SecRule, m: Match, fold: char -> char, lower: char -> char, request: Request): Cell -> bool {
    (x: Cell) => SourceAsks(u, rule, m, fold, lower, request(x))
  }

  lemma CompiledFrom(u: Unicode, rules: seq<SecRule>)
    requires Compile(u, rules).Some?
    ensures BuildRules(u, rules).Some? && BuildRules(u, rules).value.conditions == Compile(u, rules).value.conditions != []
    ensures |rules| == 1 ==> (Compile(u, rules).value.operation == "AND" ==> |Compile(u, rules).value.conditions| == 1)
  {
    hide BuildRules;
  }

  lemma OriginsOfOne(rule: SecRule)
    ensures Origins([rule]) == seq(|rule.variables|, v => (0, v))
  {
    assert [rule][..0] == [] && Origins([]) == [];
  }

  /** One directive acts where some kept cell's text is matched, or, negated, is not. */
  lemma OneActs(u: Unicode, rule: SecRule, m: Match, fold: char -> char, request: Request)
    requires Compile(u, [rule]).Some? && OperatorMatch(u, rule.operator, rule.argument) == Some(m) && AllText(rule, m)
    ensures CompiledActs(Compile(u, [rule]).value, fold, request) <==> SomeCell(KeptTargets(rule), rule.negated, ValueTest(rule, m, fold, request))
  {
    var rules, test := [rule], ValueTest(rule, m, fold, request);
    var c := Compile(u, rules).value;
    CompiledFrom(u, rules);
    BuildRulesOrigins(u, rules);
    OriginsOfOne(rule);
    hide *;
    forall k | 0 <= k < |c.conditions|
      ensures ConditionActs(c.conditions[k], fold, request) <==> test(Kept(rule.variables[k])) != rule.negated
    {
      BuildRulesFor(u, rules, k);
      OneCondition(u, rule, m, c.conditions[k], k, fold, request);
    }
    Disjunction(rule, c, test, fold, request);
  }

  lemma Disjunction(rule: SecRule, c: Compiled, test: Cell -> bool, fold: char -> char, request: Request)
    requires |c.conditions| == |rule.variables| > 0 && (c.operation == "AND" ==> |c.conditions| == 1)
    requires forall k :: 0 <= k < |rule.variables| ==> PartsOf(rule.variables[k].collection) != []
    requires forall k :: 0 <= k < |c.conditions| ==> (ConditionActs(c.conditions[k], fold, request) <==> test(Kept(rule.variables[k])) != rule.negated)
    ensures CompiledActs(c, fold, request) <==> SomeCell(KeptTargets(rule), rule.negated, test)
  {
    hide ConditionActs, Kept;
    if CompiledActs(c, fold, request) {
      var k: nat := if c.operation == "AND" then 0 else var k :| 0 <= k < |c.conditions| && ConditionActs(c.conditions[k], fold, request); k;
      assert ConditionActs(c.conditions[k], fold, request);
      assert Kept(rule.variables[k]) in KeptTargets(rule);
    }
    if SomeCell(KeptTargets(rule), rule.negated, test) {
      var x :| x in KeptTargets(rule) && test(x) != rule.negated;
      var k :| 0 <= k < |rule.variables| && Kept(rule.variables[k]) == x;
      assert ConditionActs(c.conditions[k], fold, request);
    }
  }

  lemma OneCondition(u: Unicode, rule: SecRule, m: Match, c: Condition, k: nat, fold: char -> char, request: Request)
    requires k < |rule.variables| && OperatorMatch(u, rule.operator, rule.argument) == Some(m) && AllText(rule, m) && BuiltFor(u, [rule], c, (0, k))
    ensures PartsOf(rule.variables[k].collection) != []
    ensures ConditionActs(c, fold, request) <==> ValueTest(rule, m, fold, request)(Kept(rule.variables[k])) != rule.negated
  {
    var v := rule.variables[k];
    PlaceExactly(u, v, rule, m, Sensitive(rule, m));
    BuiltValues(u, v, rule, m, Sensitive(rule, m));
    hide BuildCondition, OperatorMatch, Sensitive, SomeValueMatches, Inspected, Kept, Encoded;
  }

  lemma EncodedAlike(v: Variable, m: Match, x: Cell)
    requires PartsOf(v.collection) != [] && x in Cells(v)
    ensures Encoded(x.part, m) <==> Encoded(Kept(v).part, m)
  {}

  /** And the source where some cell's text, of all its cells, is accepted, or not. */
  lemma OneHolds(u: Unicode, rule: SecRule, m: Match, fold: char -> char, lower: char -> char, request: Request)
    requires OperatorMatch(u, rule.operator, rule.argument) == Some(m) && AllText(rule, m)
    ensures SourceHolds([rule], SourceTests(u, [rule], fold, lower, request))
            <==> SomeCell(Targets(rule), rule.negated, TextTest(u, rule, m, fold, lower, request))
  {
    forall v, x | 0 <= v < |rule.variables| && x in Cells(rule.variables[v])
      ensures CellAsked(u, rule, fold, lower, request, x) <==> TextTest(u, rule, m, fold, lower, request)(x)
    {
      EncodedAlike(rule.variables[v], m, x);
      hide OperatorMatch, SourceAsks, Encoded, Cells, Targets;
    }
    hide OperatorMatch, SourceAsks, Encoded, Cells, CellAsked, AllText, TextTest;
    AnyCell(u, rule, fold, lower, request, TextTest(u, rule, m, fold, lower, request));
  }

  lemma AnyCell(u: Unicode, rule: SecRule, fold: char -> char, lower: char -> char, request: Request, test: Cell -> bool)
    requires forall v, x :: 0 <= v < |rule.variables| && x in Cells(rule.variables[v]) ==> (CellAsked(u, rule, fold, lower, request, x) <==> test(x))
    ensures SourceHolds([rule], SourceTests(u, [rule], fold, lower, request)) <==> SomeCell(Targets(rule), rule.negated, test)
  {
    hide CellAsked, Cells;
    var rules, tests := [rule], SourceTests(u, [rule], fold, lower, request);
    assert IsChain(rules, 0, 1);
    if SomeCell(Targets(rule), rule.negated, test) {
      var x :| x in Targets(rule) && test(x) != rule.negated;
      var v :| 0 <= v < |rule.variables| && x in Cells(rule.variables[v]);
      assert tests(0, v) != rule.negated;
      assert RuleHolds(rules, 0, tests);
      assert ChainHolds(rules, 0, 1, tests);
    }
    if SourceHolds(rules, tests) {
      assert RuleHolds(rules, 0, tests);
      var v :| 0 <= v < |rule.variables| && tests(0, v) != rule.negated;
      var x :| x in Cells(rule.variables[v]) && CellAsked(u, rule, fold, lower, request, x) != rule.negated;
      assert x in Targets(rule);
    }
  }

  /** A value that matches the empty text matches every text. */
  lemma {:induction false} StarsMatchAll(f: char -> char, v: string, t: string)
    requires GlobMatch(f, v, "") && v != ""
    ensures GlobMatch(f, v, t)
  {
    if |v| > 1 { StarsMatchAll(f, v[1..], t); assert t[0..] == t; } else { assert v[1..] == "" && t[|t|..] == ""; }
  }

  lemma EmptyMatchesAll(cmp: char -> char, values: seq<string>, wildcard: bool, t: string)
    requires SomeValueMatches(cmp, values, wildcard, "") && forall k :: 0 <= k < |values| ==> values[k] != ""
    ensures SomeValueMatches(cmp, values, wildcard, t)
  {
    var k :| 0 <= k < |values| && ValueMatches(cmp, values[k], wildcard, "");
    StarsMatchAll(cmp, values[k], t);
    assert ValueMatches(cmp, values[k], wildcard, t);
  }

  /** Some text is matched. */
  lemma SomethingMatched(cmp: char -> char, values: seq<string>, wildcard: bool) returns (t: string)
    requires values != []
    ensures SomeValueMatches(cmp, values, wildcard, t)
  {
    t := if wildcard then Least(values[0], true, ' ') else values[0];
    if wildcard { LeastMatches(cmp, values[0], ' '); }
    assert ValueMatches(cmp, values[0], wildcard, t);
  }

  /** Of all tests that some text passes and some text fails, a directive answers on
      two sets of cells alike only if the sets are the same. */
  lemma CellsDiffer(a: set<Cell>, b: set<Cell>, negated: bool, yes: string, no: string, accepts: string -> bool) returns (request: Request)
    requires a != b && accepts(yes) && !accepts(no)
    ensures SomeCell(a, negated, (x: Cell) => accepts(request(x))) != SomeCell(b, negated, (x: Cell) => accepts(request(x)))
  {
    var x :| (x in a) != (x in b);
    var here, there := if negated then no else yes, if negated then yes else no;
    request := (y: Cell) => if y == x then here else there;
    assert forall y: Cell :: accepts(request(y)) != negated <==> y == x;
  }

  ghost predicate SameAnswers(u: Unicode, rule: SecRule, fold: char -> char, lower: char -> char, request: Request)
    requires Compile(u, [rule]).Some?
  {
    CompiledActs(Compile(u, [rule]).value, fold, request) <==> SourceHolds([rule], SourceTests(u, [rule], fold, lower, request))
  }

  /** The request with one text everywhere. */
  function Everywhere(s: string): (request: Request)
    ensures forall x: Cell :: request(x) == s
  {
    (x: Cell) => s
  }

  lemma SomeTarget(rule: SecRule, m: Match)
    requires AllText(rule, m) && rule.variables != []
    ensures Targets(rule) != {} && KeptTargets(rule) != {}
  {
    var v := rule.variables[0];
    assert Kept(v) in KeptTargets(rule);
    assert Cell(PartsOf(v.collection)[0], Selector(v)) in Cells(v);
    assert Cell(PartsOf(v.collection)[0], Selector(v)) in Targets(rule);
  }

  /** One directive under the label "equivalent": the compiled rule acts exactly
      where the source does, on every request, if and only if its values keep the
      letter case, and no target is lost or gained, or the values match
      everything, which they do if they match the empty text. */
  lemma OneDirectiveExactly(u: Unicode, rule: SecRule, m: Match, fold: char -> char, lower: char -> char)
    requires KnowsAscii(u.alnum) && FoldsTo(fold, lower) && rule.variables != []
    requires Compile(u, [rule]).Some? && Compile(u, [rule]).value.Equivalent()
    requires OperatorMatch(u, rule.operator, rule.argument) == Some(m) && (|m.values| == 1 || !m.wildcard)
    requires ExactOperator(u, rule, OwnCase(rule, fold)) && AllText(rule, m)
    ensures (forall request: Request :: SameAnswers(u, rule, fold, lower, request))
            <==> KeepsCase(rule, m, fold, lower) && (Targets(rule) == KeptTargets(rule) || ValuesMatch(rule, m, fold, ""))
  {
    CompiledFrom(u, [rule]);
    LabelMeans(u, [rule], 0);
    OperatorValues(u, rule.operator, rule.argument);
    hide *;
    Unlabel(u, rule, m);
    CaseExactly(u, rule, m, fold, lower);
    SomeTarget(rule, m);
    if KeepsCase(rule, m, fold, lower) && (Targets(rule) == KeptTargets(rule) || ValuesMatch(rule, m, fold, "")) {
      forall request: Request ensures SameAnswers(u, rule, fold, lower, request) { KeptIsSame(u, rule, m, fold, lower, request); }
    }
    if forall request: Request :: SameAnswers(u, rule, fold, lower, request) {
      forall s: string ensures ValuesMatch(rule, m, fold, s) <==> SourceAsks(u, rule, m, fold, lower, s) { SameOnOneText(u, rule, m, fold, lower, s); }
      if Targets(rule) != KeptTargets(rule) && !ValuesMatch(rule, m, fold, "") { Separated(u, rule, m, fold, lower); }
    }
  }

  lemma Unlabel(u: Unicode, rule: SecRule, m: Match)
    requires OperatorMatch(u, rule.operator, rule.argument) == Some(m) && Unlabelled(u, rule)
    ensures !m.lossy && !m.narrowed
  {
    hide OperatorMatch;
  }

  lemma AnswersAre(u: Unicode, rule: SecRule, m: Match, fold: char -> char, lower: char -> char, request: Request)
    requires Compile(u, [rule]).Some? && OperatorMatch(u, rule.operator, rule.argument) == Some(m) && AllText(rule, m)
    ensures SameAnswers(u, rule, fold, lower, request) <==>
            (SomeCell(KeptTargets(rule), rule.negated, ValueTest(rule, m, fold, request))
             <==> SomeCell(Targets(rule), rule.negated, TextTest(u, rule, m, fold, lower, request)))
  {
    OneActs(u, rule, m, fold, request);
    OneHolds(u, rule, m, fold, lower, request);
    hide CompiledActs, SourceHolds, Compile, OperatorMatch, SomeCell;
  }

  lemma KeptIsSame(u: Unicode, rule: SecRule, m: Match, fold: char -> char, lower: char -> char, request: Request)
    requires Compile(u, [rule]).Some? && OperatorMatch(u, rule.operator, rule.argument) == Some(m) && AllText(rule, m) && rule.variables != []
    requires forall k :: 0 <= k < |m.values| ==> m.values[k] != ""
    requires forall s: string :: ValuesMatch(rule, m, fold, s) <==> SourceAsks(u, rule, m, fold, lower, s)
    requires Targets(rule) == KeptTargets(rule) || ValuesMatch(rule, m, fold, "")
    ensures SameAnswers(u, rule, fold, lower, request)
  {
    AnswersAre(u, rule, m, fold, lower, request);
    SomeTarget(rule, m);
    hide Compile, OperatorMatch, SourceAsks, SomeValueMatches, SameAnswers, Targets, KeptTargets, Sensitive, AllText;
    var a, b := ValueTest(rule, m, fold, request), TextTest(u, rule, m, fold, lower, request);
    forall x: Cell ensures a(x) <==> b(x) {}
    if ValuesMatch(rule, m, fold, "") {
      forall x: Cell ensures a(x) { EmptyMatchesAll(Compare(Sensitive(rule, m), fold), m.values, m.wildcard, request(x)); }
      var x, y :| x in Targets(rule) && y in KeptTargets(rule);
    }
  }

  lemma SameOnOneText(u: Unicode, rule: SecRule, m: Match, fold: char -> char, lower: char -> char, s: string)
    requires Compile(u, [rule]).Some? && OperatorMatch(u, rule.operator, rule.argument) == Some(m) && AllText(rule, m) && rule.variables != []
    requires SameAnswers(u, rule, fold, lower, Everywhere(s))
    ensures ValuesMatch(rule, m, fold, s) <==> SourceAsks(u, rule, m, fold, lower, s)
  {
    AnswersAre(u, rule, m, fold, lower, Everywhere(s));
    SomeTarget(rule, m);
    hide Compile, OperatorMatch, SourceAsks, ValuesMatch, SameAnswers, Targets, KeptTargets, AllText;
    var a, b := ValueTest(rule, m, fold, Everywhere(s)), TextTest(u, rule, m, fold, lower, Everywhere(s));
    var x, y :| x in Targets(rule) && y in KeptTargets(rule);
    assert a(y) <==> ValuesMatch(rule, m, fold, s);
    assert b(x) <==> SourceAsks(u, rule, m, fold, lower, s);
  }

  lemma Separated(u: Unicode, rule: SecRule, m: Match, fold: char -> char, lower: char -> char)
    requires Compile(u, [rule]).Some? && OperatorMatch(u, rule.operator, rule.argument) == Some(m) && AllText(rule, m) && m.values != []
    requires forall s: string :: ValuesMatch(rule, m, fold, s) <==> SourceAsks(u, rule, m, fold, lower, s)
    requires Targets(rule) != KeptTargets(rule) && !ValuesMatch(rule, m, fold, "")
    ensures exists request: Request :: !SameAnswers(u, rule, fold, lower, request)
  {
    var yes := SomethingMatched(Compare(Sensitive(rule, m), fold), m.values, m.wildcard);
    var accepts := (s: string) => ValuesMatch(rule, m, fold, s);
    var request := CellsDiffer(KeptTargets(rule), Targets(rule), rule.negated, yes, "", accepts);
    AnswersAre(u, rule, m, fold, lower, request);
    hide Compile, OperatorMatch, SourceAsks, ValuesMatch, SameAnswers, Targets, KeptTargets, AllText;
    var test := (x: Cell) => accepts(request(x));
    SameTests(KeptTargets(rule), rule.negated, test, ValueTest(rule, m, fold, request));
    SameTests(Targets(rule), rule.negated, test, TextTest(u, rule, m, fold, lower, request));
    assert !SameAnswers(u, rule, fold, lower, request);
  }

  lemma SameTests(cells: set<Cell>, negated: bool, a: Cell -> bool, b: Cell -> bool)
    requires forall x: Cell :: a(x) <==> b(x)
    ensures SomeCell(cells, negated, a) <==> SomeCell(cells, negated, b)
  {}

  /** `SecRule XML "@streq ABC" "t:lowercase"` compiles under the label "equivalent";
      the source lowers the text and never equals `ABC`, the compiled rule acts on
      `ABC` in any case. */
  lemma UpperArgumentOverMatches(u: Unicode, fold: char -> char, lower: char -> char)
    requires FoldsTo(fold, lower) && lower('A') != 'A'
    ensures var rules := [SecRule([Variable("XML", "")], false, "streq", "ABC", ["lowercase"], false)];
            && Compile(u, rules).Some? && Compile(u, rules).value.Equivalent()
            && CompiledActs(Compile(u, rules).value, fold, Everywhere("ABC"))
            && forall request: Request :: !SourceHolds(rules, SourceTests(u, rules, fold, lower, request))
  {
    var rule := SecRule([Variable("XML", "")], false, "streq", "ABC", ["lowercase"], false);
    var m := Match(["ABC"], false, false, false, false);
    UpperCompiles(u, rule, m);
    hide *;
    OneActs(u, rule, m, fold, Everywhere("ABC"));
    UpperActs(rule, m, fold);
    forall request: Request ensures !SourceHolds([rule], SourceTests(u, [rule], fold, lower, request)) {
      OneHolds(u, rule, m, fold, lower, request);
      NeverLowerUpper(u, rule, m, fold, lower, request);
    }
  }

  lemma UpperActs(rule: SecRule, m: Match, fold: char -> char)
    requires rule.variables != [] && AllText(rule, m) && !rule.negated && m.values == ["ABC"] && !m.wildcard
    ensures SomeCell(KeptTargets(rule), rule.negated, ValueTest(rule, m, fold, Everywhere("ABC")))
  {
    OneValueMatches(Compare(Sensitive(rule, m), fold), "ABC", false, "ABC");
    SomeTarget(rule, m);
    hide KeptTargets, Targets, Sensitive, SomeValueMatches;
    var x :| x in KeptTargets(rule);
    assert ValueTest(rule, m, fold, Everywhere("ABC"))(x);
  }

  lemma NeverLowerUpper(u: Unicode, rule: SecRule, m: Match, fold: char -> char, lower: char -> char, request: Request)
    requires rule == SecRule([Variable("XML", "")], false, "streq", "ABC", ["lowercase"], false)
    requires FoldsTo(fold, lower) && lower('A') != 'A'
    ensures !SomeCell(Targets(rule), rule.negated, TextTest(u, rule, m, fold, lower, request))
  {
    assert Lowers(rule.transformations) by { assert rule.transformations[0] == "lowercase"; }
    hide Lowers, IgnoresCase, Targets;
    assert !SourceIgnores(rule);
    forall x: char ensures lower(x) != 'A' {}
    forall y: Cell ensures !SourceAsks(u, rule, m, fold, lower, request(y)) {
      var t := Seen(lower, request(y));
      assert !SameFolded(Exact, "ABC", t) by { if |t| == 3 { assert t[0] == lower(request(y)[0]) && "ABC"[0] == 'A'; } }
    }
  }

  lemma UpperCompiles(u: Unicode, rule: SecRule, m: Match)
    requires rule == SecRule([Variable("XML", "")], false, "streq", "ABC", ["lowercase"], false)
    requires m == Match(["ABC"], false, false, false, false)
    ensures OperatorMatch(u, rule.operator, rule.argument) == Some(m) && AllText(rule, m)
    ensures Compile(u, [rule]).Some? && Compile(u, [rule]).value.Equivalent()
  {
    UpperBuilt(u, rule, m);
    hide OperatorMatch, BuildCondition;
    assert rule.transformations == ["lowercase"] && AllowedTransformations(rule);
    assert BuildAll(u, rule, m, 0) == Some([]);
    assert BuildAll(u, rule, m, 1).Some? && |BuildAll(u, rule, m, 1).value| == 1;
    assert BuildRule(u, rule).Some?;
    assert [rule][..0] == [];
    assert BuildRules(u, [rule][..0]) == Some(Built([], false, false));
  }

  lemma UpperBuilt(u: Unicode, rule: SecRule, m: Match)
    requires rule == SecRule([Variable("XML", "")], false, "streq", "ABC", ["lowercase"], false) && m == Match(["ABC"], false, false, false, false)
    ensures OperatorMatch(u, rule.operator, rule.argument) == Some(m) && AllText(rule, m)
    ensures BuildCondition(u, rule.variables[0], rule, m, Sensitive(rule, m)).Some?
  {
    hide Translate, Fields, Unique, EncodingVariants, Sensitive;
    assert ComponentOf("XML") == Some(Component("argsPostXMLMatch", "", false, false));
  }
}
