/** The work accounting of a bypass-validation result: every planned dimension
    of every campaign is either executed under an attempt id of its own or
    declared unsupported. */
module BypassAccounting {
  import opened Options
  import PercentEncoding
  import Timestamps

  datatype Error =
    | CampaignResultsInvalid
    | CampaignAccounting
    | EmptyCampaign
    | DimensionInvalid
    | OutcomeInvalid
    | AttemptAccounting
    | MappingMismatch
    | ResolutionInvalid
    | SilentDisposition
    | BoundsDiffer

  datatype Outcome<T> = Ok(value: T) | Err(error: Error)

  /** The identifying fields that a listed plan fixes. */
  datatype Key = Key(carrier: string, transformation: string, input: string, component: string)

  datatype Wire = Wire(digest: string, baseline: string, chain: seq<string>)

  /** `known`: no field outside the allowed ones.  `wire`: present when the wire
      evidence has its prescribed shape.  `template`: the input is a request
      template, so that an attempt needs a resolution. */
  datatype Dimension = Dimension(
    key: Key, known: bool, template: bool, family: Option<string>, supported: Option<bool>,
    attempt: Option<string>, disposition: Option<string>, detail: Option<string>, wire: Option<Wire>)

  /** What the profile expects of a campaign: the listed dimensions, or whatever
      the governed derivation says of the ones given. */
  datatype Plan = Listed(keys: seq<Key>) | Governed(ok: bool)

  /** A resolution by its canonical bytes, and whether it is the one expected of the
      attempt in its place. */
  datatype Resolution = Resolution(canonical: string, expected: bool)

  datatype Campaign = Campaign(
    obligation: string, plan: Plan, dimensions: seq<Dimension>, attemptRefs: seq<string>,
    resolutions: seq<Resolution>, noBypass: bool, mapped: bool)

  datatype Tally = Tally(
    planned: nat, executed: nat, unsupported: nat, attempts: set<string>,
    families: set<string>, plannedFamilies: set<string>, executedFamilies: set<string>, unsupportedFamilies: set<string>)

  /** The search bounds: counts, and sorted lists of families. */
  datatype Bounds = Bounds(
    budget: int, executed: int, attempted: seq<string>,
    requested: seq<string>, enabled: seq<string>, planned: seq<string>, generated: seq<string>, ran: seq<string>,
    skipped: seq<string>, unsupported: seq<string>, outOfScope: seq<string>)

  /** The result around its campaigns. */
  datatype Report = Report(counterexamples: nat, feedback: nat, resolutions: seq<string>, bounds: Bounds)

  const ENABLED := ["baseline", "case-normalization", "encoding", "semantic-domain"]

  /** The list is `sorted(s)`: ascending, without repetition, the members of s. */
  predicate SortedListOf(list: seq<string>, s: set<string>) {
    && (forall i :: 1 <= i < |list| ==> Timestamps.TextLess(list[i - 1], list[i]))
    && (forall x :: x in list ==> x in s) && (forall x :: x in s ==> x in list)
  }

  // ------------------------------------------------------- what is to be accepted

  /** Executed: an attempt of its own, blocked or stopped, with wire evidence that
      is no identity where an encoding was claimed. */
  predicate Executed(d: Dimension) {
    && d.supported == Some(true)
    && d.attempt.Some? && d.attempt.value != "" && d.detail.None?
    && (d.disposition == Some("blocked") || d.disposition == Some("safety-stop"))
    && d.wire.Some?
    && (d.family == Some("encoding") ==> d.wire.value.chain != [] && d.wire.value.digest != d.wire.value.baseline)
  }

  /** Declared unsupported, with a reason and no attempt. */
  predicate Unsupported(d: Dimension) {
    && d.supported == Some(false)
    && d.attempt.None? && d.disposition.None? && d.detail.Some? && d.detail.value != ""
  }

  predicate Accounted(d: Dimension) {
    d.known && d.family != Some("") && (Executed(d) || Unsupported(d))
  }

  function Keys(dims: seq<Dimension>): seq<Key> {
    seq(|dims|, i requires 0 <= i < |dims| => dims[i].key)
  }

  predicate Planned(c: Campaign) {
    match c.plan
    case Listed(keys) => keys == Keys(c.dimensions)
    case Governed(ok) => ok
  }

  function AttemptIds(dims: seq<Dimension>): seq<string> {
    if dims == [] then []
    else
      var d := dims[|dims| - 1];
      AttemptIds(dims[..|dims| - 1]) + if d.supported == Some(true) && d.attempt.Some? then [d.attempt.value] else []
  }

  /** Attempts against request templates. */
  function TemplateCount(dims: seq<Dimension>): nat {
    if dims == [] then 0
    else
      var d := dims[|dims| - 1];
      TemplateCount(dims[..|dims| - 1]) + if d.supported == Some(true) && d.attempt.Some? && d.template then 1 else 0
  }

  predicate Resolved(c: Campaign) {
    |c.resolutions| == TemplateCount(c.dimensions) && forall k :: 0 <= k < |c.resolutions| ==> c.resolutions[k].expected
  }

  function UnsupportedCount(dims: seq<Dimension>): nat {
    if dims == [] then 0
    else UnsupportedCount(dims[..|dims| - 1]) + if dims[|dims| - 1].supported == Some(false) then 1 else 0
  }

  /** The dimensions as planned and accounted for. */
  ghost predicate DimensionsFine(c: Campaign) {
    && c.dimensions != [] && Planned(c)
    && forall k :: 0 <= k < |c.dimensions| ==> Accounted(c.dimensions[k])
  }

  ghost predicate Complete(c: Campaign) {
    && DimensionsFine(c)
    && c.attemptRefs == AttemptIds(c.dimensions)
    && Resolved(c) && c.noBypass && c.mapped
  }

  ghost predicate Distinct(ids: seq<string>) {
    forall i, j :: 0 <= i < j < |ids| ==> ids[i] != ids[j]
  }

  function AllAttempts(cs: seq<Campaign>): seq<string> {
    if cs == [] then [] else AllAttempts(cs[..|cs| - 1]) + AttemptIds(cs[|cs| - 1].dimensions)
  }

  function AllDimensions(cs: seq<Campaign>): seq<Dimension> {
    if cs == [] then [] else AllDimensions(cs[..|cs| - 1]) + cs[|cs| - 1].dimensions
  }

  function Canonicals(rs: seq<Resolution>): seq<string> {
    seq(|rs|, i requires 0 <= i < |rs| => rs[i].canonical)
  }

  /** The resolutions of all campaigns, in order. */
  function AllResolutions(cs: seq<Campaign>): seq<string> {
    if cs == [] then [] else AllResolutions(cs[..|cs| - 1]) + Canonicals(cs[|cs| - 1].resolutions)
  }

  function Obligations(cs: seq<Campaign>): seq<string> {
    seq(|cs|, i requires 0 <= i < |cs| => cs[i].obligation)
  }

  /** Every campaign complete, every attempt id used once in the whole result. */
  ghost predicate AllComplete(cs: seq<Campaign>) {
    && (forall i :: 0 <= i < |cs| ==> Complete(cs[i]))
    && Distinct(AllAttempts(cs))
  }

  ghost predicate Accepted(cs: seq<Campaign>, obligations: set<string>, report: Report) {
    && Distinct(Obligations(cs)) && "" !in Obligations(cs)
    && (forall o :: o in obligations <==> o in Obligations(cs))
    && AllComplete(cs)
    && report.counterexamples == 0 && report.feedback == 0
    && report.resolutions == PercentEncoding.Unique(AllResolutions(cs))
    && report.bounds.budget == |AllDimensions(cs)| && report.bounds.executed == |AllAttempts(cs)|
    && FamiliesListed(AllDimensions(cs), report.bounds)
  }

  /** The list holds, sorted, exactly the strings with the property. */
  ghost predicate Lists(list: seq<string>, member: string -> bool) {
    && (forall i :: 1 <= i < |list| ==> Timestamps.TextLess(list[i - 1], list[i]))
    && forall x :: x in list <==> member(x)
  }

  /** The families the bounds list are those of the dimensions: by transformation,
      or, where families are governed, as planned, executed and unsupported. */
  ghost predicate FamiliesListed(dims: seq<Dimension>, b: Bounds) {
    var governed := exists f :: HasFamily(dims, f, None);
    if !governed then Lists(b.attempted, f => HasTransformation(dims, f))
    else
      && Lists(b.attempted, f => HasFamily(dims, f, Some(true)))
      && b.requested == ENABLED && b.enabled == ENABLED && b.skipped == []
      && Lists(b.planned, f => HasFamily(dims, f, None))
      && Lists(b.generated, f => HasFamily(dims, f, Some(true))) && Lists(b.ran, f => HasFamily(dims, f, Some(true)))
      && Lists(b.unsupported, f => HasFamily(dims, f, Some(false)))
      && Lists(b.outOfScope, f => f in ENABLED && !HasFamily(dims, f, None))
  }

  // ----------------------------------------------------------- sequences as sets

  function AsSet(ids: seq<string>): set<string> { set id | id in ids }

  lemma {:induction false} CountedOnce(ids: seq<string>)
    ensures |AsSet(ids)| <= |ids|
    ensures |AsSet(ids)| == |ids| <==> Distinct(ids)
  {
    if ids != [] {
      var before, last := ids[..|ids| - 1], ids[|ids| - 1];
      CountedOnce(before);
      assert ids == before + [last];
      assert AsSet(ids) == AsSet(before) + {last};
      if Distinct(before) && last !in before {
        forall i, j | 0 <= i < j < |ids| ensures ids[i] != ids[j] {
          if j == |ids| - 1 { assert before[i] == ids[i]; }
        }
      }
      if last in before {
        var i :| 0 <= i < |before| && before[i] == last;
        assert ids[i] == ids[|ids| - 1];
      }
    }
  }

  lemma DistinctConcat(a: seq<string>, b: seq<string>)
    ensures Distinct(a + b) <==> Distinct(a) && Distinct(b) && AsSet(a) !! AsSet(b)
    ensures AsSet(a + b) == AsSet(a) + AsSet(b)
  {
    var c := a + b;
    if Distinct(c) {
      forall i, j | 0 <= i < j < |a| ensures a[i] != a[j] { assert c[i] == a[i] && c[j] == a[j]; }
      forall i, j | 0 <= i < j < |b| ensures b[i] != b[j] { assert c[|a| + i] == b[i] && c[|a| + j] == b[j]; }
      forall x | x in a ensures x !in b {
        var i :| 0 <= i < |a| && a[i] == x;
        forall j | 0 <= j < |b| ensures b[j] != x { assert c[i] == x && c[|a| + j] == b[j]; }
      }
    }
    if Distinct(a) && Distinct(b) && AsSet(a) !! AsSet(b) {
      forall i, j | 0 <= i < j < |c| ensures c[i] != c[j] {
        if i < |a| <= j {
          assert c[i] in AsSet(a) && c[j] in AsSet(b);
        }
      }
    }
  }

  // ------------------------------------------------------------------ conservation

  /** Per campaign: planned work is executed work plus unsupported work. */
  lemma {:induction false} DimensionsConserved(dims: seq<Dimension>)
    requires forall k :: 0 <= k < |dims| ==> Accounted(dims[k])
    ensures |dims| == |AttemptIds(dims)| + UnsupportedCount(dims)
  {
    if dims != [] {
      DimensionsConserved(dims[..|dims| - 1]);
      assert Accounted(dims[|dims| - 1]);
    }
  }

  lemma {:induction false} UnsupportedConcat(a: seq<Dimension>, b: seq<Dimension>)
    ensures UnsupportedCount(a + b) == UnsupportedCount(a) + UnsupportedCount(b)
  {
    if b == [] {
      assert a + b == a;
    } else {
      assert (a + b)[..|a + b| - 1] == a + b[..|b| - 1];
      UnsupportedConcat(a, b[..|b| - 1]);
    }
  }

  /** Over all campaigns, and each executed dimension under its own attempt id. */
  lemma {:induction false} WorkConserved(cs: seq<Campaign>)
    requires AllComplete(cs)
    ensures |AllDimensions(cs)| == |AllAttempts(cs)| + UnsupportedCount(AllDimensions(cs))
    ensures |AllAttempts(cs)| == |AsSet(AllAttempts(cs))|
  {
    CountedOnce(AllAttempts(cs));
    if cs != [] {
      var before, c := cs[..|cs| - 1], cs[|cs| - 1];
      DistinctConcat(AllAttempts(before), AttemptIds(c.dimensions));
      WorkConserved(before);
      DimensionsConserved(c.dimensions);
      UnsupportedConcat(AllDimensions(before), c.dimensions);
    }
  }

  // --------------------------------------------------------------------- families

  ghost predicate HasFamily(dims: seq<Dimension>, f: string, among: Option<bool>) {
    exists k :: 0 <= k < |dims| && dims[k].family == Some(f) && (among.Some? ==> dims[k].supported == among)
  }

  ghost predicate HasTransformation(dims: seq<Dimension>, f: string) {
    exists k :: 0 <= k < |dims| && dims[k].key.transformation == f
  }

  /** The tally says of these dimensions what is so. */
  ghost predicate Tallied(t: Tally, dims: seq<Dimension>) {
    && t.planned == |dims| && t.unsupported == UnsupportedCount(dims)
    && (forall f :: f in t.families <==> HasTransformation(dims, f))
    && (forall f :: f in t.plannedFamilies <==> HasFamily(dims, f, None))
    && (forall f :: f in t.executedFamilies <==> HasFamily(dims, f, Some(true)))
    && (forall f :: f in t.unsupportedFamilies <==> HasFamily(dims, f, Some(false)))
  }

  function FamilyIf(c: bool, f: Option<string>): set<string> { if c && f.Some? then {f.value} else {} }

  function CountDimension(t: Tally, d: Dimension): Tally {
    t.(planned := t.planned + 1,
       unsupported := t.unsupported + if d.supported == Some(false) then 1 else 0,
       families := t.families + {d.key.transformation},
       plannedFamilies := t.plannedFamilies + FamilyIf(true, d.family),
       executedFamilies := t.executedFamilies + FamilyIf(d.supported == Some(true), d.family),
       unsupportedFamilies := t.unsupportedFamilies + FamilyIf(d.supported == Some(false), d.family))
  }

  lemma FamilyStep(dims: seq<Dimension>, d: Dimension, f: string, among: Option<bool>)
    ensures HasFamily(dims + [d], f, among) <==>
            HasFamily(dims, f, among) || (d.family == Some(f) && (among.Some? ==> d.supported == among))
  {
    var all := dims + [d];
    assert all[|dims|] == d;
    if HasFamily(dims, f, among) {
      var k :| 0 <= k < |dims| && dims[k].family == Some(f) && (among.Some? ==> dims[k].supported == among);
      assert all[k] == dims[k];
    }
  }

  lemma TransformationStep(dims: seq<Dimension>, d: Dimension, f: string)
    ensures HasTransformation(dims + [d], f) <==> HasTransformation(dims, f) || d.key.transformation == f
  {
    var all := dims + [d];
    assert all[|dims|] == d;
    if HasTransformation(dims, f) {
      var k :| 0 <= k < |dims| && dims[k].key.transformation == f;
      assert all[k] == dims[k];
    }
  }

  lemma TalliedStep(t: Tally, dims: seq<Dimension>, d: Dimension)
    requires Tallied(t, dims)
    ensures Tallied(CountDimension(t, d), dims + [d])
  {
    hide HasFamily, HasTransformation;
    var all := dims + [d];
    assert all[..|all| - 1] == dims;
    forall f ensures HasTransformation(all, f) <==> HasTransformation(dims, f) || d.key.transformation == f {
      TransformationStep(dims, d, f);
    }
    forall f, among ensures HasFamily(all, f, among) <==> HasFamily(dims, f, among) || (d.family == Some(f) && (among.Some? ==> d.supported == among)) {
      FamilyStep(dims, d, f, among);
    }
  }

  // -------------------------------------------------------------------- the loops

  /** The checks on one dimension, in order. */
  method CheckDimension(d: Dimension, expected: Option<Key>) returns (fault: Option<Error>)
    ensures fault.None? <==> Accounted(d) && (expected.Some? ==> d.key == expected.value)
    ensures fault == Some(OutcomeInvalid) ==> d.supported == Some(true) && d.disposition == Some("bypassed")
  {
    if !d.known || (expected.Some? && d.key != expected.value) { return Some(DimensionInvalid); }
    if d.family == Some("") { return Some(DimensionInvalid); }
    if d.supported == Some(true) {
      if d.attempt.None? || d.attempt.value == "" || d.detail.Some?
         || (d.disposition != Some("blocked") && d.disposition != Some("bypassed") && d.disposition != Some("safety-stop")) {
        return Some(DimensionInvalid);
      }
      if d.wire.None? { return Some(DimensionInvalid); }
      if d.family == Some("encoding") && (d.wire.value.chain == [] || d.wire.value.digest == d.wire.value.baseline) {
        return Some(DimensionInvalid);
      }
      if d.disposition == Some("bypassed") { return Some(OutcomeInvalid); }
      return None;
    }
    if d.supported == Some(false) {
      if d.attempt.Some? || d.disposition.Some? || d.detail.None? || d.detail.value == "" { return Some(DimensionInvalid); }
      return None;
    }
    return Some(DimensionInvalid);
  }

  /** The dimension loop of one campaign. */
  method CountDimensions(c: Campaign, t: Tally, ghost seen: seq<Dimension>) returns (out: Outcome<(Tally, seq<string>, nat)>)
    requires Tallied(t, seen)
    ensures out.Ok? <==> DimensionsFine(c)
    ensures out.Ok? ==>
              && Tallied(out.value.0, seen + c.dimensions) && out.value.1 == AttemptIds(c.dimensions) && out.value.2 == TemplateCount(c.dimensions)
              && out.value.0.attempts == t.attempts && out.value.0.executed == t.executed
    ensures out.Err? ==> !out.error.SilentDisposition?
  {
    hide Tallied, CountDimension, Accounted;
    if c.dimensions == [] { return Err(EmptyCampaign); }
    if c.plan.Governed? {
      if !c.plan.ok { return Err(DimensionInvalid); }
    } else if |c.plan.keys| != |c.dimensions| {
      return Err(EmptyCampaign);
    }
    var n := t;
    var ids := [];
    var templates := 0;
    assert seen + c.dimensions[..0] == seen;
    for k := 0 to |c.dimensions|
      invariant n.attempts == t.attempts && n.executed == t.executed
      invariant Tallied(n, seen + c.dimensions[..k])
      invariant ids == AttemptIds(c.dimensions[..k]) && templates == TemplateCount(c.dimensions[..k])
      invariant forall i :: 0 <= i < k ==> Accounted(c.dimensions[i]) && (c.plan.Listed? ==> c.dimensions[i].key == c.plan.keys[i])
    {
      var d := c.dimensions[k];
      var fault := CheckDimension(d, if c.plan.Listed? then Some(c.plan.keys[k]) else None);
      if fault.Some? {
        Misplanned(c, k);
        return Err(if fault.value == OutcomeInvalid then OutcomeInvalid else DimensionInvalid);
      }
      CountedKeeps(n, d);
      TalliedStep(n, seen + c.dimensions[..k], d);
      NextDimension(c.dimensions, seen, k);
      n := CountDimension(n, d);
      if d.supported == Some(true) && d.attempt.Some? {
        ids := ids + [d.attempt.value];
        if d.template { templates := templates + 1; }
      }
    }
    assert c.dimensions[..|c.dimensions|] == c.dimensions;
    if c.plan.Listed? { assert c.plan.keys == Keys(c.dimensions); }
    return Ok((n, ids, templates));
  }

  /** One campaign: its dimensions counted into the tally, its attempts bound. */
  method CountCampaign(c: Campaign, t: Tally, ghost seen: seq<Dimension>, ghost earlier: seq<string>) returns (out: Outcome<Tally>)
    requires Tallied(t, seen) && t.attempts == AsSet(earlier) && t.executed == |earlier| && Distinct(earlier)
    ensures out.Ok? <==> Complete(c) && Distinct(earlier + AttemptIds(c.dimensions))
    ensures out.Ok? ==>
              && Tallied(out.value, seen + c.dimensions)
              && out.value.attempts == AsSet(earlier + AttemptIds(c.dimensions))
              && out.value.executed == |earlier + AttemptIds(c.dimensions)|
    ensures out.Err? ==> !out.error.SilentDisposition?
  {
    hide Tallied, Accounted, Planned, Distinct, AttemptIds, TemplateCount;
    var counted := CountDimensions(c, t, seen);
    if counted.Err? { return Err(counted.error); }
    var (n, ids, templates) := counted.value;
    if c.attemptRefs != ids { return Err(AttemptAccounting); }
    CountedOnce(ids);
    DistinctConcat(earlier, ids);
    var distinct := AsSet(ids);
    if |distinct| != |ids| || distinct * t.attempts != {} { return Err(AttemptAccounting); }
    if |c.resolutions| != templates { return Err(ResolutionInvalid); }
    for k := 0 to |c.resolutions|
      invariant forall j :: 0 <= j < k ==> c.resolutions[j].expected
    {
      if !c.resolutions[k].expected { return Err(ResolutionInvalid); }
    }
    if !c.noBypass { return Err(OutcomeInvalid); }
    if !c.mapped { return Err(MappingMismatch); }
    forall x | x in AsSet(earlier) ensures x !in distinct { assert x !in distinct * t.attempts; }
    TalliedAttempts(n, seen + c.dimensions, n.executed + |ids|, n.attempts + distinct);
    return Ok(n.(executed := n.executed + |ids|, attempts := n.attempts + distinct));
  }

  lemma TalliedAttempts(t: Tally, dims: seq<Dimension>, executed: nat, attempts: set<string>)
    requires Tallied(t, dims)
    ensures Tallied(t.(executed := executed, attempts := attempts), dims)
  {}

  lemma CountedKeeps(t: Tally, d: Dimension)
    ensures CountDimension(t, d).attempts == t.attempts && CountDimension(t, d).executed == t.executed
  {}

  lemma Misplanned(c: Campaign, k: nat)
    requires k < |c.dimensions| && (c.plan.Listed? ==> |c.plan.keys| == |c.dimensions|)
    requires !Accounted(c.dimensions[k]) || (c.plan.Listed? && c.dimensions[k].key != c.plan.keys[k])
    ensures !DimensionsFine(c)
  {
    if c.plan.Listed? { assert Keys(c.dimensions)[k] == c.dimensions[k].key; }
  }

  lemma NextDimension(dims: seq<Dimension>, seen: seq<Dimension>, k: nat)
    requires k < |dims|
    ensures seen + dims[..k + 1] == (seen + dims[..k]) + [dims[k]]
    ensures dims[..k + 1][..k] == dims[..k] && dims[..k + 1][k] == dims[k]
  {}

  /** `_index` over the campaigns and the comparison with the required obligations. */
  method IndexCampaigns(cs: seq<Campaign>) returns (ids: Option<set<string>>)
    ensures ids.Some? <==> Distinct(Obligations(cs)) && "" !in Obligations(cs)
    ensures ids.Some? ==> ids.value == AsSet(Obligations(cs))
  {
    var indexed := {};
    for i := 0 to |cs|
      invariant forall o :: o in indexed <==> exists k :: 0 <= k < i && cs[k].obligation == o
      invariant forall k :: 0 <= k < i ==> cs[k].obligation != ""
      invariant forall j, k :: 0 <= j < k < i ==> cs[j].obligation != cs[k].obligation
    {
      if cs[i].obligation == "" || cs[i].obligation in indexed {
        assert Obligations(cs)[i] == cs[i].obligation;
        if cs[i].obligation in indexed {
          var k :| 0 <= k < i && cs[k].obligation == cs[i].obligation;
          assert Obligations(cs)[k] == Obligations(cs)[i];
        }
        return None;
      }
      indexed := indexed + {cs[i].obligation};
    }
    forall o ensures o in indexed <==> o in Obligations(cs) {
      if o in indexed {
        var k :| 0 <= k < |cs| && cs[k].obligation == o;
        assert Obligations(cs)[k] == o;
      }
    }
    return Some(indexed);
  }

  /** The lists of the search bounds against the families counted. */
  method CheckFamilies(t: Tally, b: Bounds, ghost dims: seq<Dimension>) returns (ok: bool)
    requires Tallied(t, dims)
    ensures ok <==> FamiliesListed(dims, b)
  {
    ghost var governed := exists f :: HasFamily(dims, f, None);
    if t.plannedFamilies == {} {
      assert !governed;
      ListsSet(b.attempted, t.families, f => HasTransformation(dims, f));
      return SortedListOf(b.attempted, t.families);
    }
    var some :| some in t.plannedFamilies;
    assert HasFamily(dims, some, None);
    var outside := (set f | f in ENABLED) - t.plannedFamilies;
    ListsSet(b.attempted, t.executedFamilies, f => HasFamily(dims, f, Some(true)));
    ListsSet(b.planned, t.plannedFamilies, f => HasFamily(dims, f, None));
    ListsSet(b.generated, t.executedFamilies, f => HasFamily(dims, f, Some(true)));
    ListsSet(b.ran, t.executedFamilies, f => HasFamily(dims, f, Some(true)));
    ListsSet(b.unsupported, t.unsupportedFamilies, f => HasFamily(dims, f, Some(false)));
    ListsSet(b.outOfScope, outside, f => f in ENABLED && !HasFamily(dims, f, None));
    hide Lists, SortedListOf, HasFamily, HasTransformation;
    return
      && SortedListOf(b.attempted, t.executedFamilies)
      && b.requested == ENABLED && b.enabled == ENABLED && b.skipped == []
      && SortedListOf(b.planned, t.plannedFamilies)
      && SortedListOf(b.generated, t.executedFamilies) && SortedListOf(b.ran, t.executedFamilies)
      && SortedListOf(b.unsupported, t.unsupportedFamilies)
      && SortedListOf(b.outOfScope, outside);
  }

  lemma ListsSet(list: seq<string>, s: set<string>, member: string -> bool)
    requires forall x :: x in s <==> member(x)
    ensures SortedListOf(list, s) <==> Lists(list, member)
  {}

  /** The counting loops of the validator and the checks behind them: accepted
      exactly when every campaign is complete, every attempt id is used once and
      the report agrees; and then nothing planned is left over, so the
      silent-disposition check never fires. */
  method CountWork(cs: seq<Campaign>, obligations: set<string>, report: Report) returns (out: Outcome<Tally>)
    ensures out.Ok? <==> Accepted(cs, obligations, report)
    ensures out.Ok? ==>
              && Tallied(out.value, AllDimensions(cs))
              && out.value.attempts == AsSet(AllAttempts(cs))
              && out.value.executed == |out.value.attempts|
              && out.value.planned == out.value.executed + out.value.unsupported
    ensures out.Err? ==> !out.error.SilentDisposition?
  {
    hide Tallied, Complete, Distinct, FamiliesListed, PercentEncoding.Unique;
    var ids := IndexCampaigns(cs);
    if ids.None? { return Err(CampaignResultsInvalid); }
    if ids.value != obligations {
      var o :| (o in ids.value) != (o in obligations);
      return Err(CampaignAccounting);
    }
    var counted, nested := CountCampaigns(cs);
    if counted.Err? { return counted; }
    var t := counted.value;
    if report.counterexamples != 0 || report.feedback != 0 { return Err(OutcomeInvalid); }
    var unique := PercentEncoding.UniqueLoop(nested);
    if report.resolutions != unique { return Err(ResolutionInvalid); }
    WorkConserved(cs);
    TalliedCounts(t, AllDimensions(cs));
    var families := CheckFamilies(t, report.bounds, AllDimensions(cs));
    return if t.executed + t.unsupported != t.planned then Err(SilentDisposition)
           else if report.bounds.budget != t.planned || report.bounds.executed != t.executed || !families then Err(BoundsDiffer)
           else Ok(t);
  }

  /** The loop over the campaigns. */
  method CountCampaigns(cs: seq<Campaign>) returns (out: Outcome<Tally>, nested: seq<string>)
    ensures out.Ok? <==> AllComplete(cs)
    ensures out.Ok? ==> Tallied(out.value, AllDimensions(cs)) && nested == AllResolutions(cs)
    ensures out.Ok? ==> out.value.attempts == AsSet(AllAttempts(cs)) && out.value.executed == |AllAttempts(cs)|
    ensures out.Err? ==> !out.error.SilentDisposition?
  {
    hide Tallied, Complete, Distinct;
    var t := Tally(0, 0, 0, {}, {}, {}, {}, {});
    nested := [];
    NothingYet(t);
    for i := 0 to |cs|
      invariant forall k :: 0 <= k < i ==> Complete(cs[k])
      invariant Distinct(AllAttempts(cs[..i])) && Tallied(t, AllDimensions(cs[..i])) && nested == AllResolutions(cs[..i])
      invariant t.attempts == AsSet(AllAttempts(cs[..i])) && t.executed == |AllAttempts(cs[..i])|
    {
      assert cs[..i + 1][..i] == cs[..i];
      var next := CountCampaign(cs[i], t, AllDimensions(cs[..i]), AllAttempts(cs[..i]));
      if next.Err? {
        if !Distinct(AllAttempts(cs[..i + 1])) { NeverDistinct(cs, i + 1); }
        return next, nested;
      }
      t := next.value;
      nested := nested + Canonicals(cs[i].resolutions);
    }
    assert cs[..|cs|] == cs;
    return Ok(t), nested;
  }

  lemma NothingYet(t: Tally)
    requires t == Tally(0, 0, 0, {}, {}, {}, {}, {})
    ensures Tallied(t, []) && Distinct([]) && t.attempts == AsSet([])
  {}

  lemma TalliedCounts(t: Tally, dims: seq<Dimension>)
    requires Tallied(t, dims)
    ensures t.planned == |dims| && t.unsupported == UnsupportedCount(dims)
  {}

  /** An attempt id used twice stays used twice. */
  lemma {:induction false} NeverDistinct(cs: seq<Campaign>, n: nat)
    requires n <= |cs| && !Distinct(AllAttempts(cs[..n]))
    ensures !Distinct(AllAttempts(cs))
  {
    if n == |cs| {
      assert cs[..n] == cs;
    } else {
      var before := cs[..|cs| - 1];
      assert before[..n] == cs[..n];
      NeverDistinct(before, n);
      DistinctConcat(AllAttempts(before), AttemptIds(cs[|cs| - 1].dimensions));
    }
  }

  // -------------------------------------------------------- source-member accounting

  datatype Accounting = Accounting(
    required: nat, accounted: nat, members: nat, represented: nat, unsupported: nat,
    requiredWork: int, disposedWork: int, unaccountedWork: int)

  datatype AccountingError = PartitionIncomplete | WorkExceeded

  datatype AccountingOutcome = Accounts(value: Accounting) | Refused(error: AccountingError)

  lemma PartitionCounts(a: set<string>, b: set<string>)
    requires a !! b
    ensures |a + b| == |a| + |b|
  {}

  /** `_accounting`: accepted exactly when the represented and the unsupported
      members partition the source members and no more work is disposed of than
      required; then the counts add up. */
  method Account(members: set<string>, inputs: seq<seq<string>>, dimensions: seq<seq<string>>, obligations: nat,
                 requiredWork: int, disposedWork: int) returns (out: AccountingOutcome)
    ensures out.Accounts? <==>
            && (forall m :: m in members <==> Mentioned(inputs, m) || Mentioned(dimensions, m))
            && (forall m :: !(Mentioned(inputs, m) && Mentioned(dimensions, m)))
            && disposedWork <= requiredWork
    ensures out.Accounts? ==>
              var a := out.value;
              && a.represented + a.unsupported == a.members == |members|
              && a.represented == |set m | m in members && Mentioned(inputs, m)| && a.unsupported == |set m | m in members && Mentioned(dimensions, m)|
              && a.required == a.accounted == obligations && a.requiredWork == requiredWork && a.disposedWork == disposedWork
              && a.disposedWork + a.unaccountedWork == a.requiredWork && a.unaccountedWork >= 0
    ensures out == Refused(WorkExceeded) ==> disposedWork > requiredWork
  {
    var represented := MentionedIds(inputs);
    var unsupported := MentionedIds(dimensions);
    if represented * unsupported != {} || represented + unsupported != members {
      if represented * unsupported != {} {
        var m :| m in represented * unsupported;
      } else {
        var m :| (m in represented + unsupported) != (m in members);
      }
      return Refused(PartitionIncomplete);
    }
    forall m ensures !(Mentioned(inputs, m) && Mentioned(dimensions, m)) {
      assert m !in represented * unsupported;
    }
    if disposedWork > requiredWork { return Refused(WorkExceeded); }
    PartitionCounts(represented, unsupported);
    assert represented == set m | m in members && Mentioned(inputs, m);
    assert unsupported == set m | m in members && Mentioned(dimensions, m);
    return Accounts(Accounting(obligations, obligations, |members|, |represented|, |unsupported|,
                               requiredWork, disposedWork, requiredWork - disposedWork));
  }

  ghost predicate Mentioned(refs: seq<seq<string>>, m: string) {
    exists i :: 0 <= i < |refs| && m in refs[i]
  }

  method MentionedIds(refs: seq<seq<string>>) returns (ids: set<string>)
    ensures forall m :: m in ids <==> Mentioned(refs, m)
  {
    ids := {};
    for i := 0 to |refs|
      invariant forall m :: m in ids <==> exists k :: 0 <= k < i && m in refs[k]
    {
      ids := ids + set m | m in refs[i];
    }
  }
}
