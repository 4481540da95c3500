/** Lineage of three upstream records: every identity that the records mention
    anywhere must be one and the same. */
module Lineage {
  import opened Options
  import opened Json

  // ------------------------------------------------------- what a document mentions

  datatype Hop = Field(name: string) | Item(index: nat)

  /** The value at the end of a path into a document. */
  function At(j: Json, path: seq<Hop>): Option<Json>
    decreases |path|
  {
    if path == [] then Some(j)
    else
      var child := Child(j, path[0]);
      if child.None? then None else At(child.value, path[1..])
  }

  function Child(j: Json, hop: Hop): Option<Json> {
    match hop
    case Field(name) => if j.Obj? && name in j.fields then Some(j.fields[name]) else None
    case Item(i) => if j.Arr? && i < |j.items| then Some(j.items[i]) else None
  }

  /** Some object in the document holds the nonempty string `text` under `key`. */
  ghost predicate Mentions(j: Json, key: string, text: string) {
    exists path :: MentionedAt(j, path, key, text)
  }

  ghost predicate MentionedAt(j: Json, path: seq<Hop>, key: string, text: string) {
    At(j, path).Some? && Holds(At(j, path).value, key, text)
  }

  predicate Holds(j: Json, key: string, text: string) {
    j.Obj? && key in j.fields && j.fields[key] == Str(text) && text != ""
  }

  /** The one value of a key in the whole document. */
  ghost predicate Unique(j: Json, key: string, text: string) {
    Mentions(j, key, text) && forall other :: Mentions(j, key, other) ==> other == text
  }

  lemma MentionsHere(j: Json, key: string, text: string)
    requires Holds(j, key, text)
    ensures Mentions(j, key, text)
  {
    assert MentionedAt(j, [], key, text);
  }

  lemma MentionsBelow(j: Json, hop: Hop, key: string, text: string)
    requires Child(j, hop).Some? && Mentions(Child(j, hop).value, key, text)
    ensures Mentions(j, key, text)
  {
    var child := Child(j, hop).value;
    var path :| MentionedAt(child, path, key, text);
    var longer := [hop] + path;
    assert longer[1..] == path;
    assert MentionedAt(j, longer, key, text);
  }

  /** What a document mentions, its root or one of its children mentions. */
  lemma MentionsSplit(j: Json, key: string, text: string)
    requires Mentions(j, key, text) && !Holds(j, key, text)
    ensures exists hop :: Child(j, hop).Some? && Mentions(Child(j, hop).value, key, text)
  {
    var path :| MentionedAt(j, path, key, text);
    var child := Child(j, path[0]).value;
    assert MentionedAt(child, path[1..], key, text);
    assert Mentions(child, key, text);
  }

  /** The traversal, its result set shared by the recursive visits. */
  class Collector {
    const key: string
    var values: set<string>

    constructor (key: string)
      ensures this.key == key && values == {}
    {
      this.key := key;
      values := {};
    }

    /** `visit`: whatever the order in which an object's members come, exactly the
        mentioned strings are added. */
    method Visit(value: Json)
      modifies this
      ensures forall text :: text in values <==> text in old(values) || Mentions(value, key, text)
      decreases value
    {
      match value
      case Obj(fields) => VisitMembers(value, fields);
      case Arr(items) =>
        for i := 0 to |items|
          invariant forall text :: text in values <==> text in old(values) || exists k :: 0 <= k < i && Mentions(items[k], key, text)
        {
          Visit(items[i]);
        }
        forall text ensures Mentions(value, key, text) <==> exists k :: 0 <= k < |items| && Mentions(items[k], key, text) {
          ItemsMention(value, key, text);
        }
      case _ =>
        forall text ensures !Mentions(value, key, text) {
          ScalarsAreSilent(value, key, text);
        }
    }

    method VisitMembers(value: Json, fields: map<string, Json>)
      requires value == Obj(fields)
      modifies this
      ensures forall text :: text in values <==> text in old(values) || Mentions(value, key, text)
      decreases value, 0
    {
      var left := fields.Keys;
      while left != {}
        invariant left <= fields.Keys
        invariant forall text :: text in values <==>
          text in old(values) || exists name :: name in fields && name !in left && MemberMentions(fields, name, key, text)
        decreases left
      {
        var name :| name in left;
        ghost var before := values;
        if name == key && fields[name].Str? && fields[name].s != "" {
          values := values + {fields[name].s};
        }
        Visit(fields[name]);
        left := left - {name};
      }
      forall text ensures Mentions(value, key, text) <==> exists name :: name in fields && MemberMentions(fields, name, key, text) {
        MembersMention(value, key, text);
      }
    }
  }

  ghost predicate MemberMentions(fields: map<string, Json>, name: string, key: string, text: string)
    requires name in fields
  {
    (name == key && fields[name] == Str(text) && text != "") || Mentions(fields[name], key, text)
  }

  lemma ItemsMention(value: Json, key: string, text: string)
    requires value.Arr?
    ensures Mentions(value, key, text) <==> exists k :: 0 <= k < |value.items| && Mentions(value.items[k], key, text)
  {
    hide Mentions;
    if Mentions(value, key, text) {
      MentionsSplit(value, key, text);
      var hop :| Child(value, hop).Some? && Mentions(Child(value, hop).value, key, text);
      assert Mentions(value.items[hop.index], key, text);
    }
    if exists k :: 0 <= k < |value.items| && Mentions(value.items[k], key, text) {
      var k :| 0 <= k < |value.items| && Mentions(value.items[k], key, text);
      MentionsBelow(value, Item(k), key, text);
    }
  }

  lemma MembersMention(value: Json, key: string, text: string)
    requires value.Obj?
    ensures Mentions(value, key, text) <==> exists name :: name in value.fields && MemberMentions(value.fields, name, key, text)
  {
    hide Mentions;
    if Mentions(value, key, text) {
      if Holds(value, key, text) {
        assert MemberMentions(value.fields, key, key, text);
      } else {
        MentionsSplit(value, key, text);
        var hop :| Child(value, hop).Some? && Mentions(Child(value, hop).value, key, text);
        assert MemberMentions(value.fields, hop.name, key, text);
      }
    }
    if exists name :: name in value.fields && MemberMentions(value.fields, name, key, text) {
      var name :| name in value.fields && MemberMentions(value.fields, name, key, text);
      if Mentions(value.fields[name], key, text) { MentionsBelow(value, Field(name), key, text); } else { MentionsHere(value, key, text); }
    }
  }

  lemma ScalarsAreSilent(value: Json, key: string, text: string)
    requires !value.Obj? && !value.Arr?
    ensures !Mentions(value, key, text)
  {
    forall path ensures !MentionedAt(value, path, key, text) {}
  }

  /** `oneValue`: a value exactly when it is the only one. */
  method OneValue(document: Json, key: string) returns (out: Option<string>)
    ensures out.Some? ==> Unique(document, key, out.value)
    ensures out.None? ==> forall text :: !Unique(document, key, text)
  {
    hide Mentions;
    var collector := new Collector(key);
    collector.Visit(document);
    var values := collector.values;
    forall text | Unique(document, key, text) ensures values == {text} {}
    if |values| != 1 { return None; }
    var text :| text in values;
    SingleMember(values, text);
    return Some(text);
  }

  lemma SingleMember(values: set<string>, text: string)
    requires |values| == 1 && text in values
    ensures values == {text}
  {
    assert |values - {text}| == 0;
  }

  // ------------------------------------------------------------------- the records

  datatype Role = Defense | Mitigation | Bypass

  const ROLES: seq<Role> := [Defense, Mitigation, Bypass]

  datatype Record = Record(
    resultId: string, terminal: string, correlation: Option<string>, subject: Option<string>,
    request: map<string, Json>, result: map<string, Json>)

  /** The command the lineage is checked against. */
  datatype Command = Command(
    references: map<Role, string>, bypassState: string, correlation: string, subject: string,
    vulnerability: string, candidate: string)

  function StrOrNull(s: Option<string>): Json { if s.Some? then Str(s.value) else Null }

  /** The whole row as one traversable object. */
  function Document(r: Record): Json {
    Obj(map["result_id" := Str(r.resultId), "terminal_state" := Str(r.terminal),
            "request" := Obj(r.request), "result" := Obj(r.result),
            "correlation_id" := StrOrNull(r.correlation), "subject_record_revision_id" := StrOrNull(r.subject)])
  }

  /** What the row mentions: in its own columns, in its request or in its result. */
  lemma DocumentMentions(r: Record, key: string, text: string)
    ensures Mentions(Document(r), key, text) <==>
            || (text != "" && ((key == "correlation_id" && r.correlation == Some(text)) || (key == "subject_record_revision_id" && r.subject == Some(text))
                               || (key == "result_id" && r.resultId == text) || (key == "terminal_state" && r.terminal == text)))
            || Mentions(Obj(r.request), key, text) || Mentions(Obj(r.result), key, text)
  {
    var d := Document(r);
    MembersMention(d, key, text);
    forall j: Json | j.Str? || j.Null? ensures !Mentions(j, key, text) { ScalarsAreSilent(j, key, text); }
    hide Mentions;
    if text != "" && key in {"correlation_id", "subject_record_revision_id", "result_id", "terminal_state"} && d.fields[key] == Str(text) {
      assert MemberMentions(d.fields, key, key, text);
    }
    if Mentions(Obj(r.request), key, text) { assert MemberMentions(d.fields, "request", key, text); }
    if Mentions(Obj(r.result), key, text) { assert MemberMentions(d.fields, "result", key, text); }
  }

  /** Both expected identities are given. */
  predicate Orchestrated(c: Command) { c.vulnerability != "" && c.candidate != "" }

  function RequiredState(c: Command, role: Role): string {
    match role case Defense => "candidate-produced" case Mitigation => "blocked" case Bypass => c.bypassState
  }

  predicate CapabilityFits(role: Role, j: Json) {
    match role
    case Defense => j == Str("defense-generation")
    case Mitigation => j == Str("mitigation-check")
    case Bypass => j == Str("bypass-validation")
  }

  predicate ContractFits(role: Role, j: Json) {
    match role
    case Defense => j == Str("defense-generation@1.0") || j == Str("defense-generation-result@1.0")
    case Mitigation => j == Str("mitigation-check@1.0")
    case Bypass => j == Str("bypass-validation@1.0")
  }

  /** `validateRecordIdentity`: absent or null members pass. */
  predicate IdentityFits(role: Role, r: Record) {
    var capability, contract := Get(Obj(r.result), "capability"), Get(Obj(r.result), "contract_id");
    (capability == Null || CapabilityFits(role, capability)) && (contract == Null || ContractFits(role, contract))
  }

  ghost predicate Admitted(c: Command, role: Role, r: Record) {
    && role in c.references && r.resultId == c.references[role]
    && r.terminal == RequiredState(c, role) && IdentityFits(role, r)
  }

  // --------------------------------------------------------------- what must agree

  /** Without an orchestration subject the record names exactly the command's
      value; with one it must only not name exactly another. */
  ghost predicate Agrees(c: Command, r: Record, key: string, value: string) {
    if Orchestrated(c) then forall v :: Unique(Document(r), key, v) ==> v == value
    else Unique(Document(r), key, value)
  }

  ghost predicate RecordAgrees(c: Command, r: Record) {
    && Agrees(c, r, "correlation_id", c.correlation)
    && ((c.subject == "" && Orchestrated(c)) || Agrees(c, r, "subject_record_revision_id", c.subject))
  }

  function Text(j: Json): string { if j.Str? then j.s else "" }

  predicate StartsWith(s: string, prefix: string) { prefix <= s }

  /** The vulnerability a record names in its role's own place. */
  ghost predicate NamesVulnerability(role: Role, r: Record, v: string) {
    && v != ""
    && match role
       case Defense =>
         var own := Text(Get(Get(Obj(r.result), "primary_candidate"), "vulnerability_id"));
         v == if own != "" then own else Text(Get(Obj(r.request), "vulnerability_id"))
       case Bypass =>
         v == Text(Get(Get(Obj(r.result), "subject"), "vulnerability_id")) && StartsWith(v, "CVE-")
       case Mitigation => Unique(Document(r), "vulnerability_id", v)
  }

  /** The source candidate a record names, never a generated test variant. */
  ghost predicate NamesCandidate(role: Role, r: Record, v: string) {
    && v != ""
    && match role
       case Defense => v == Text(Get(Get(Obj(r.result), "primary_candidate"), "candidate_id"))
       case Bypass =>
         var subject := Get(Obj(r.result), "subject");
         var source := Text(Get(subject, "source_candidate_id"));
         if source != "" then v == source
         else v == Text(Get(subject, "vulnerability_id")) && StartsWith(v, "candidate:")
       case Mitigation => Unique(Document(r), "candidate_id", v)
  }

  /** All three records tell one story, the command's where it has one. */
  ghost predicate OneStory(c: Command, records: map<Role, Record>, vulnerability: string, candidate: string)
    requires forall role :: role in records
  {
    if Orchestrated(c) then
      && vulnerability == c.vulnerability && candidate == c.candidate
      && (forall role, v :: NamesVulnerability(role, records[role], v) ==> v == vulnerability)
      && (forall role, v :: NamesCandidate(role, records[role], v) ==> v == candidate)
      && NamesVulnerability(Defense, records[Defense], vulnerability)
      && NamesCandidate(Defense, records[Defense], candidate)
    else
      forall role: Role :: Unique(Document(records[role]), "vulnerability_id", vulnerability) && Unique(Document(records[role]), "candidate_id", candidate)
  }

  /** What resolution demands of the command and the fetched records. */
  ghost predicate Resolvable(c: Command, records: map<Role, Record>, vulnerability: string, candidate: string) {
    && c.correlation != "" && (c.subject != "" || Orchestrated(c))
    && (forall role :: role in records)
    && (forall role :: Admitted(c, role, records[role]))
    && (forall role :: RecordAgrees(c, records[role]))
    && OneStory(c, records, vulnerability, candidate)
  }

  // ------------------------------------------------------------------- the resolver

  method RoleVulnerability(role: Role, r: Record) returns (v: string)
    ensures v != "" ==> NamesVulnerability(role, r, v)
    ensures forall t :: NamesVulnerability(role, r, t) ==> t == v
  {
    hide Unique;
    match role
    case Defense =>
      var own := Text(Get(Get(Obj(r.result), "primary_candidate"), "vulnerability_id"));
      return if own != "" then own else Text(Get(Obj(r.request), "vulnerability_id"));
    case Bypass =>
      var value := Text(Get(Get(Obj(r.result), "subject"), "vulnerability_id"));
      return if StartsWith(value, "CVE-") then value else "";
    case Mitigation =>
      var one := OneValue(Document(r), "vulnerability_id");
      if one.None? { return ""; }
      OnlyOne(Document(r), "vulnerability_id", one.value);
      return one.value;
  }

  method RoleCandidate(role: Role, r: Record) returns (v: string)
    ensures v != "" ==> NamesCandidate(role, r, v)
    ensures forall t :: NamesCandidate(role, r, t) ==> t == v
  {
    hide Unique;
    match role
    case Defense => return Text(Get(Get(Obj(r.result), "primary_candidate"), "candidate_id"));
    case Bypass =>
      var subject := Get(Obj(r.result), "subject");
      var source := Text(Get(subject, "source_candidate_id"));
      if source != "" { return source; }
      var legacy := Text(Get(subject, "vulnerability_id"));
      return if StartsWith(legacy, "candidate:") then legacy else "";
    case Mitigation =>
      var one := OneValue(Document(r), "candidate_id");
      if one.None? { return ""; }
      OnlyOne(Document(r), "candidate_id", one.value);
      return one.value;
  }

  lemma OnlyOne(j: Json, key: string, text: string)
    requires Unique(j, key, text)
    ensures text != "" && forall other :: Unique(j, key, other) ==> other == text
  {}

  /** The fetch loop: every record present, admitted and of its role. */
  method FetchAll(c: Command, rows: map<Role, Record>) returns (ok: bool)
    ensures ok <==> forall role :: role in rows && Admitted(c, role, rows[role])
  {
    for i := 0 to |ROLES|
      invariant forall k :: 0 <= k < i ==> ROLES[k] in rows && Admitted(c, ROLES[k], rows[ROLES[k]])
    {
      hide IdentityFits;
      var role := ROLES[i];
      if role !in rows || role !in c.references { return false; }
      if rows[role].resultId != c.references[role] { return false; }
      if rows[role].terminal != RequiredState(c, role) { return false; }
      if !IdentityFits(role, rows[role]) { return false; }
    }
    forall role ensures role in rows && Admitted(c, role, rows[role]) {
      var k := Place(role);
    }
    return true;
  }

  lemma Place(role: Role) returns (k: nat)
    ensures k < |ROLES| && ROLES[k] == role
  {
    k := match role case Defense => 0 case Mitigation => 1 case Bypass => 2;
  }

  /** One record against the command's correlation and subject. */
  method CheckRecord(c: Command, r: Record) returns (ok: bool)
    requires c.subject != "" || Orchestrated(c)
    ensures ok <==> RecordAgrees(c, r)
  {
    hide Unique, Document;
    var correlation := OneValue(Document(r), "correlation_id");
    var subject := OneValue(Document(r), "subject_record_revision_id");
    if correlation.Some? { OnlyOne(Document(r), "correlation_id", correlation.value); }
    if subject.Some? { OnlyOne(Document(r), "subject_record_revision_id", subject.value); }
    if correlation.Some? && correlation.value != c.correlation { return false; }
    if correlation.None? && !Orchestrated(c) { return false; }
    if c.subject != "" && subject.Some? && subject.value != c.subject { return false; }
    if subject.None? && !Orchestrated(c) { return false; }
    return true;
  }

  /** The loop over the roles with an orchestration subject. */
  method CheckSubject(c: Command, records: map<Role, Record>) returns (ok: bool)
    requires Orchestrated(c) && forall role :: role in records
    ensures ok <==> OneStory(c, records, c.vulnerability, c.candidate)
  {
    hide NamesVulnerability, NamesCandidate;
    for i := 0 to |ROLES|
      invariant forall k, v :: 0 <= k < i && NamesVulnerability(ROLES[k], records[ROLES[k]], v) ==> v == c.vulnerability
      invariant forall k, v :: 0 <= k < i && NamesCandidate(ROLES[k], records[ROLES[k]], v) ==> v == c.candidate
    {
      var role := ROLES[i];
      var vulnerability := RoleVulnerability(role, records[role]);
      if vulnerability != "" && vulnerability != c.vulnerability { return false; }
      if vulnerability == "" { NamesNothing(role, records[role]); }
      var candidate := RoleCandidate(role, records[role]);
      if candidate != "" && candidate != c.candidate { return false; }
      if candidate == "" { NamesNothing(role, records[role]); }
    }
    forall role, v
      ensures NamesVulnerability(role, records[role], v) ==> v == c.vulnerability
      ensures NamesCandidate(role, records[role], v) ==> v == c.candidate
    {
      var k := Place(role);
    }
    NamesNothing(Defense, records[Defense]);
    var vulnerability := RoleVulnerability(Defense, records[Defense]);
    if vulnerability == "" { return false; }
    var candidate := RoleCandidate(Defense, records[Defense]);
    if candidate == "" { return false; }
    return true;
  }

  lemma NamesNothing(role: Role, r: Record)
    ensures !NamesVulnerability(role, r, "") && !NamesCandidate(role, r, "")
  {}

  /** The loop over the roles without one: the values are collected and counted. */
  method CompareRecords(c: Command, records: map<Role, Record>) returns (out: Option<(string, string)>)
    requires !Orchestrated(c) && forall role :: role in records
    ensures out.Some? ==> OneStory(c, records, out.value.0, out.value.1)
    ensures out.None? ==> forall v, w :: !OneStory(c, records, v, w)
  {
    hide Unique, Document, Gathered;
    var vulnerabilities, candidates := {}, {};
    var first, second := "", "";
    NothingGathered(records);
    for i := 0 to |ROLES|
      invariant Gathered(records, "vulnerability_id", i, vulnerabilities) && Gathered(records, "candidate_id", i, candidates)
      invariant i > 0 ==> first in vulnerabilities && second in candidates
    {
      var role := ROLES[i];
      var vulnerability := OneValue(Document(records[role]), "vulnerability_id");
      if vulnerability.None? { return None; }
      var candidate := OneValue(Document(records[role]), "candidate_id");
      if candidate.None? { return None; }
      GatherStep(records, "vulnerability_id", i, vulnerabilities, vulnerability.value);
      GatherStep(records, "candidate_id", i, candidates, candidate.value);
      vulnerabilities := vulnerabilities + {vulnerability.value};
      candidates := candidates + {candidate.value};
      if role == Defense { first, second := vulnerability.value, candidate.value; }
    }
    AllTheSame(records, "vulnerability_id", vulnerabilities);
    AllTheSame(records, "candidate_id", candidates);
    forall v, w | OneStory(c, records, v, w) ensures |vulnerabilities| == 1 && |candidates| == 1 {
      assert vulnerabilities == {v} && candidates == {w};
    }
    if |vulnerabilities| != 1 { return None; }
    if |candidates| != 1 { return None; }
    SingleMember(vulnerabilities, first);
    SingleMember(candidates, second);
    return Some((first, second));
  }

  ghost predicate HasOneOf(j: Json, key: string, values: set<string>) {
    exists v :: v in values && Unique(j, key, v)
  }

  ghost predicate IsOneOf(records: map<Role, Record>, key: string, n: nat, v: string)
    requires (forall role :: role in records) && n <= |ROLES|
  {
    exists k :: 0 <= k < n && Unique(Document(records[ROLES[k]]), key, v)
  }

  /** The collected values are the unique values of the first `n` records. */
  ghost predicate Gathered(records: map<Role, Record>, key: string, n: nat, values: set<string>)
    requires (forall role :: role in records) && n <= |ROLES|
  {
    && (forall k :: 0 <= k < n ==> HasOneOf(Document(records[ROLES[k]]), key, values))
    && forall v :: v in values ==> IsOneOf(records, key, n, v)
  }

  lemma NothingGathered(records: map<Role, Record>)
    requires forall role :: role in records
    ensures forall key :: Gathered(records, key, 0, {})
  {}

  lemma GatherStep(records: map<Role, Record>, key: string, n: nat, values: set<string>, v: string)
    requires (forall role :: role in records) && n < |ROLES| && Gathered(records, key, n, values)
    requires Unique(Document(records[ROLES[n]]), key, v)
    ensures Gathered(records, key, n + 1, values + {v})
  {
    hide Unique, Document, HasOneOf, IsOneOf;
    forall k | 0 <= k < n + 1 ensures HasOneOf(Document(records[ROLES[k]]), key, values + {v}) {
      HasWider(Document(records[ROLES[k]]), key, values, v);
    }
    forall x | x in values + {v} ensures IsOneOf(records, key, n + 1, x) {
      OneOfMore(records, key, n, x);
    }
  }

  lemma HasWider(j: Json, key: string, values: set<string>, v: string)
    requires HasOneOf(j, key, values) || Unique(j, key, v)
    ensures HasOneOf(j, key, values + {v})
  {
    hide Unique;
    if HasOneOf(j, key, values) {
      var x :| x in values && Unique(j, key, x);
      assert x in values + {v};
    } else {
      assert v in values + {v};
    }
  }

  lemma OneOfMore(records: map<Role, Record>, key: string, n: nat, v: string)
    requires (forall role :: role in records) && n < |ROLES|
    requires IsOneOf(records, key, n, v) || Unique(Document(records[ROLES[n]]), key, v)
    ensures IsOneOf(records, key, n + 1, v)
  {
    hide Unique, Document;
  }

  /** One value was collected exactly when every record has that one value. */
  lemma AllTheSame(records: map<Role, Record>, key: string, values: set<string>)
    requires (forall role :: role in records) && Gathered(records, key, |ROLES|, values)
    ensures forall v :: values == {v} <==> forall role: Role :: Unique(Document(records[role]), key, v)
  {
    hide Unique, Document;
    forall v ensures values == {v} <==> forall role: Role :: Unique(Document(records[role]), key, v) {
      if values == {v} {
        forall role ensures Unique(Document(records[role]), key, v) {
          var k := Place(role);
          assert HasOneOf(Document(records[ROLES[k]]), key, values);
        }
      }
      if forall role: Role :: Unique(Document(records[role]), key, v) {
        SharedValue(records, key, values, v);
      }
    }
  }

  lemma SharedValue(records: map<Role, Record>, key: string, values: set<string>, v: string)
    requires (forall role :: role in records) && Gathered(records, key, |ROLES|, values)
    requires forall role: Role :: Unique(Document(records[role]), key, v)
    ensures values == {v}
  {
    hide Unique, Document, HasOneOf, IsOneOf;
    var first := Document(records[ROLES[0]]);
    assert HasOneOf(first, key, values) && Unique(first, key, v);
    IsIn(first, key, values, v);
    forall y | y in values ensures y == v {
      assert IsOneOf(records, key, |ROLES|, y);
      SameEverywhere(records, key, v, y);
    }
  }

  lemma IsIn(j: Json, key: string, values: set<string>, v: string)
    requires HasOneOf(j, key, values) && Unique(j, key, v)
    ensures v in values
  {
    hide Mentions;
  }

  lemma SameEverywhere(records: map<Role, Record>, key: string, v: string, y: string)
    requires (forall role :: role in records) && IsOneOf(records, key, |ROLES|, y)
    requires forall role: Role :: Unique(Document(records[role]), key, v)
    ensures y == v
  {
    hide Mentions, Document;
    var k :| 0 <= k < |ROLES| && Unique(Document(records[ROLES[k]]), key, y);
    assert Unique(Document(records[ROLES[k]]), key, v);
  }

  /** `ResolveProofLoop` up to the assembly of its result: it answers exactly when
      the records are resolvable, with the identities they share. */
  method ResolveLineage(c: Command, rows: map<Role, Record>) returns (out: Option<(string, string)>)
    ensures out.Some? ==> Resolvable(c, rows, out.value.0, out.value.1)
    ensures out.None? ==> forall v, w :: !Resolvable(c, rows, v, w)
  {
    hide Admitted, RecordAgrees, OneStory;
    if c.correlation == "" { return None; }
    if c.subject == "" && !Orchestrated(c) { return None; }
    var fetched := FetchAll(c, rows);
    if !fetched { return None; }
    for i := 0 to |ROLES|
      invariant forall k :: 0 <= k < i ==> RecordAgrees(c, rows[ROLES[k]])
    {
      var ok := CheckRecord(c, rows[ROLES[i]]);
      if !ok { return None; }
    }
    forall role ensures RecordAgrees(c, rows[role]) { var k := Place(role); }
    if Orchestrated(c) {
      var ok := CheckSubject(c, rows);
      forall v, w | OneStory(c, rows, v, w) ensures v == c.vulnerability && w == c.candidate { StoryIsTheCommands(c, rows, v, w); }
      return if ok then Some((c.vulnerability, c.candidate)) else None;
    }
    out := CompareRecords(c, rows);
  }

  lemma StoryIsTheCommands(c: Command, records: map<Role, Record>, v: string, w: string)
    requires Orchestrated(c) && (forall role :: role in records) && OneStory(c, records, v, w)
    ensures v == c.vulnerability && w == c.candidate
  {}

  // ------------------------------------------------------------------- the theorem

  /** Without an orchestration subject: each record mentions one correlation, one
      subject revision, one vulnerability and one candidate, wherever in the
      record they stand, and these are the command's and each other's. */
  lemma LineageAgreement(c: Command, rows: map<Role, Record>, vulnerability: string, candidate: string)
    requires Resolvable(c, rows, vulnerability, candidate) && (c.vulnerability == "" || c.candidate == "")
    ensures forall role, text ::
              && (Mentions(Document(rows[role]), "correlation_id", text) <==> text == c.correlation)
              && (Mentions(Document(rows[role]), "subject_record_revision_id", text) <==> text == c.subject)
              && (Mentions(Document(rows[role]), "vulnerability_id", text) <==> text == vulnerability)
              && (Mentions(Document(rows[role]), "candidate_id", text) <==> text == candidate)
    ensures vulnerability != "" && candidate != "" && c.correlation != "" && c.subject != ""
  {
    forall role, text
      ensures Mentions(Document(rows[role]), "correlation_id", text) <==> text == c.correlation
      ensures Mentions(Document(rows[role]), "subject_record_revision_id", text) <==> text == c.subject
      ensures Mentions(Document(rows[role]), "vulnerability_id", text) <==> text == vulnerability
      ensures Mentions(Document(rows[role]), "candidate_id", text) <==> text == candidate
    {
      hide Document, Mentions, Admitted;
      assert RecordAgrees(c, rows[role]);
    }
    OnlyOne(Document(rows[Defense]), "vulnerability_id", vulnerability);
    OnlyOne(Document(rows[Defense]), "candidate_id", candidate);
  }

  function CapabilityOf(role: Role): string {
    match role case Defense => "defense-generation" case Mitigation => "mitigation-check" case Bypass => "bypass-validation"
  }

  /** The contracts of a role: one for its requests, and for the defense role another
      for its results. */
  function ContractsOf(role: Role): set<string> {
    match role
    case Defense => {"defense-generation@1.0", "defense-generation-result@1.0"}
    case Mitigation => {"mitigation-check@1.0"}
    case Bypass => {"bypass-validation@1.0"}
  }

  /** A resolved record is its role's own: it states the role's capability and one of
      the role's contracts, or leaves them out, and so never those of another
      role; and it has its reference's id and the terminal state its role needs. */
  lemma OwnRoleOnly(c: Command, rows: map<Role, Record>, vulnerability: string, candidate: string, role: Role, other: Role)
    requires Resolvable(c, rows, vulnerability, candidate) && other != role
    ensures var capability, contract := Get(Obj(rows[role].result), "capability"), Get(Obj(rows[role].result), "contract_id");
            && capability in {Null, Str(CapabilityOf(role))} && (contract == Null || exists name :: name in ContractsOf(role) && contract == Str(name))
            && capability != Str(CapabilityOf(other)) && forall name :: name in ContractsOf(other) ==> contract != Str(name)
    ensures role in c.references && rows[role].resultId == c.references[role]
    ensures rows[role].terminal == match role case Defense => "candidate-produced" case Mitigation => "blocked" case Bypass => c.bypassState
  {
    hide RecordAgrees, OneStory;
    assert Admitted(c, role, rows[role]);
    match role case Defense => case Mitigation => case Bypass =>
  }

  /** A record that mentions two correlations passes the correlation check exactly
      when the command has an orchestration subject, whatever its own is. */
  lemma AmbiguityAdmitted(c: Command, r: Record, a: string, b: string)
    requires a != b && Mentions(Document(r), "correlation_id", a) && Mentions(Document(r), "correlation_id", b)
    ensures Agrees(c, r, "correlation_id", c.correlation) <==> Orchestrated(c)
  {
    hide Mentions, Document;
    var d := Document(r);
    forall v ensures !Unique(d, "correlation_id", v) {}
  }

  const COMMAND := Command(
    map[Defense := "d", Mitigation := "m", Bypass := "b"], "no-bypass-found", "run-1", "", "CVE-1", "candidate:1")

  const SUBJECT: map<string, Json> := map["vulnerability_id" := Str("CVE-1"), "candidate_id" := Str("candidate:1")]

  const AMBIGUOUS_ROWS: map<Role, Record> := map[
    Defense := Record("d", "candidate-produced", Some("run-2"), None, map["correlation_id" := Str("run-3")], map["primary_candidate" := Obj(SUBJECT)]),
    Mitigation := Record("m", "blocked", Some("run-1"), None, map[], SUBJECT),
    Bypass := Record("b", "no-bypass-found", Some("run-1"), None, map[], map[])]

  /** And such a record resolves: the defense row belongs to two other runs. */
  lemma AmbiguousRowsResolve()
    ensures Resolvable(COMMAND, AMBIGUOUS_ROWS, "CVE-1", "candidate:1")
    ensures var d := Document(AMBIGUOUS_ROWS[Defense]);
            Mentions(d, "correlation_id", "run-2") && Mentions(d, "correlation_id", "run-3") && COMMAND.correlation == "run-1"
  {
    AmbiguousRowsAdmitted();
    DefenseIsAmbiguous(AMBIGUOUS_ROWS[Defense]);
    AmbiguityAdmitted(COMMAND, AMBIGUOUS_ROWS[Defense], "run-2", "run-3");
    TopLevelCorrelation(COMMAND, AMBIGUOUS_ROWS[Mitigation]);
    TopLevelCorrelation(COMMAND, AMBIGUOUS_ROWS[Bypass]);
    AmbiguousRowsOneStory(COMMAND, AMBIGUOUS_ROWS);
    hide Document, OneStory, Admitted, Agrees;
    forall role ensures RecordAgrees(COMMAND, AMBIGUOUS_ROWS[role]) {
      match role case Defense => case Mitigation => case Bypass =>
    }
  }

  lemma AmbiguousRowsAdmitted()
    ensures forall role :: role in AMBIGUOUS_ROWS && Admitted(COMMAND, role, AMBIGUOUS_ROWS[role])
  {
    forall role ensures role in AMBIGUOUS_ROWS && Admitted(COMMAND, role, AMBIGUOUS_ROWS[role]) {
      match role case Defense => case Mitigation => case Bypass =>
    }
  }

  lemma DefenseIsAmbiguous(r: Record)
    requires r.correlation == Some("run-2") && r.request == map["correlation_id" := Str("run-3")]
    ensures Mentions(Document(r), "correlation_id", "run-2") && Mentions(Document(r), "correlation_id", "run-3")
  {
    var d := Document(r);
    MentionsHere(d, "correlation_id", "run-2");
    MentionsHere(Obj(r.request), "correlation_id", "run-3");
    assert Child(d, Field("request")) == Some(Obj(r.request));
    MentionsBelow(d, Field("request"), "correlation_id", "run-3");
  }

  /** A record that carries the command's correlation cannot disagree with it. */
  lemma TopLevelCorrelation(c: Command, r: Record)
    requires Orchestrated(c) && r.correlation == Some(c.correlation) && c.correlation != ""
    ensures Agrees(c, r, "correlation_id", c.correlation)
  {
    MentionsHere(Document(r), "correlation_id", c.correlation);
  }

  lemma AmbiguousRowsOneStory(c: Command, rows: map<Role, Record>)
    requires c == COMMAND && rows == AMBIGUOUS_ROWS
    ensures (forall role :: role in rows) && OneStory(c, rows, "CVE-1", "candidate:1")
  {
    forall role ensures role in rows { match role case Defense => case Mitigation => case Bypass => }
    var m := Document(rows[Mitigation]);
    MentionsHere(Obj(SUBJECT), "vulnerability_id", "CVE-1");
    MentionsHere(Obj(SUBJECT), "candidate_id", "candidate:1");
    assert Child(m, Field("result")) == Some(Obj(SUBJECT));
    MentionsBelow(m, Field("result"), "vulnerability_id", "CVE-1");
    MentionsBelow(m, Field("result"), "candidate_id", "candidate:1");
    assert Get(Get(Obj(rows[Bypass].result), "subject"), "vulnerability_id") == Null;
    assert Get(Get(Obj(rows[Bypass].result), "subject"), "source_candidate_id") == Null;
    hide Mentions, Document;
    forall role, v
      ensures NamesVulnerability(role, rows[role], v) ==> v == "CVE-1"
      ensures NamesCandidate(role, rows[role], v) ==> v == "candidate:1"
    {
      match role case Defense => case Mitigation => case Bypass =>
    }
  }
}
