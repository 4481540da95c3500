/** The two walks over the coverage groups of one semantics document: the first
    checks scope, references, cycles and declared ancestry and returns the
    source members; the second lists the components. */
module Coverage {
  datatype Ref = Ref(scope: string, kind: string, id: string)

  datatype Group = Group(memberRefs: seq<Ref>, sourceMembers: set<string>)

  /** Components are given by their source members. */
  datatype Semantics = Semantics(id: string, components: map<string, set<string>>, groups: map<string, Group>)

  datatype Error = ScopeMismatch | ReferenceInvalid | AncestryMismatch

  datatype Outcome<T> = Ok(value: T) | Err(error: Error)

  const COMPONENT := "component"
  const GROUP := "coverage-group"

  predicate IsComponent(r: Ref) { r.kind == COMPONENT }

  predicate IsGroup(sem: Semantics, r: Ref) { r.kind == GROUP && r.id in sem.groups }

  function Children(sem: Semantics, r: Ref): seq<Ref>
    requires IsGroup(sem, r)
  {
    sem.groups[r.id].memberRefs
  }

  /** Groups not yet entered: what every descent uses up. */
  function Unvisited(sem: Semantics, visiting: set<string>): set<string> { sem.groups.Keys - visiting }

  lemma DescentShrinks(sem: Semantics, visiting: set<string>, id: string)
    requires id in sem.groups && id !in visiting
    ensures |Unvisited(sem, visiting + {id})| < |Unvisited(sem, visiting)|
  {
    assert Unvisited(sem, visiting + {id}) == Unvisited(sem, visiting) - {id};
  }

  // ------------------------------------------------------------ the member walk

  /** The members below a reference, or the first fault in depth-first order. */
  function Members(sem: Semantics, visiting: set<string>, r: Ref): (out: Outcome<set<string>>)
    decreases |Unvisited(sem, visiting)|, 0
  {
    if r.scope != sem.id then Err(ScopeMismatch)
    else if IsComponent(r) then
      if r.id in sem.components then Ok(sem.components[r.id]) else Err(ReferenceInvalid)
    else if !IsGroup(sem, r) || r.id in visiting then Err(ReferenceInvalid)
    else
      DescentShrinks(sem, visiting, r.id);
      var below := MembersOfAll(sem, visiting + {r.id}, Children(sem, r));
      if below.Err? then below
      else if below.value != sem.groups[r.id].sourceMembers then Err(AncestryMismatch)
      else below
  }

  function MembersOfAll(sem: Semantics, visiting: set<string>, refs: seq<Ref>): (out: Outcome<set<string>>)
    decreases |Unvisited(sem, visiting)|, |refs|
  {
    if refs == [] then Ok({})
    else
      var before := MembersOfAll(sem, visiting, refs[..|refs| - 1]);
      if before.Err? then before
      else
        var last := Members(sem, visiting, refs[|refs| - 1]);
        if last.Err? then last else Ok(before.value + last.value)
  }

  // --------------------------------------------------------- the component walk

  /** The component ids below a reference, each once, in order of first visit. */
  function Collect(sem: Semantics, visiting: set<string>, found: seq<string>, r: Ref): (out: Outcome<seq<string>>)
    decreases |Unvisited(sem, visiting)|, 0
  {
    if IsComponent(r) then Ok(if r.id in found then found else found + [r.id])
    else if !IsGroup(sem, r) || r.id in visiting then Err(ReferenceInvalid)
    else
      DescentShrinks(sem, visiting, r.id);
      CollectAll(sem, visiting + {r.id}, found, Children(sem, r))
  }

  function CollectAll(sem: Semantics, visiting: set<string>, found: seq<string>, refs: seq<Ref>): (out: Outcome<seq<string>>)
    decreases |Unvisited(sem, visiting)|, |refs|
  {
    if refs == [] then Ok(found)
    else
      var before := CollectAll(sem, visiting, found, refs[..|refs| - 1]);
      if before.Err? then before else Collect(sem, visiting, before.value, refs[|refs| - 1])
  }

  // -------------------------------------------------------------- as they run

  /** The state shared by one walk's recursive calls. */
  class Walk {
    const sem: Semantics
    var visiting: set<string>
    var found: seq<string>

    constructor (sem: Semantics)
      ensures this.sem == sem && visiting == {} && found == []
    {
      this.sem := sem;
      visiting := {};
      found := [];
    }

    /** `walk` of `_coverage_members`. */
    method MembersOf(current: Ref) returns (out: Outcome<set<string>>)
      modifies this
      ensures out == Members(sem, old(visiting), current)
      ensures out.Ok? ==> visiting == old(visiting)
      ensures found == old(found)
      decreases |Unvisited(sem, visiting)|
    {
      if current.scope != sem.id { return Err(ScopeMismatch); }
      if current.kind == COMPONENT {
        if current.id !in sem.components { return Err(ReferenceInvalid); }
        return Ok(sem.components[current.id]);
      }
      if current.kind != GROUP || current.id !in sem.groups || current.id in visiting { return Err(ReferenceInvalid); }
      DescentShrinks(sem, visiting, current.id);
      visiting := visiting + {current.id};
      ghost var inside := visiting;
      var refs := sem.groups[current.id].memberRefs;
      var members := {};
      for i := 0 to |refs|
        invariant visiting == inside && found == old(found)
        invariant MembersOfAll(sem, inside, refs[..i]) == Ok(members)
      {
        assert refs[..i + 1][..i] == refs[..i];
        var below := MembersOf(refs[i]);
        if below.Err? {
          FirstFault(sem, inside, refs, i + 1);
          return below;
        }
        members := members + below.value;
      }
      assert refs[..|refs|] == refs;
      visiting := visiting - {current.id};
      if members != sem.groups[current.id].sourceMembers { return Err(AncestryMismatch); }
      return Ok(members);
    }

    /** `walk` of `_coverage_component_ids`. */
    method CollectFrom(current: Ref) returns (out: Outcome<seq<string>>)
      modifies this
      ensures out == Collect(sem, old(visiting), old(found), current)
      ensures out.Ok? ==> visiting == old(visiting) && found == out.value
      decreases |Unvisited(sem, visiting)|
    {
      if current.kind == COMPONENT {
        if current.id !in found { found := found + [current.id]; }
        return Ok(found);
      }
      if current.kind != GROUP || current.id !in sem.groups || current.id in visiting { return Err(ReferenceInvalid); }
      DescentShrinks(sem, visiting, current.id);
      visiting := visiting + {current.id};
      ghost var inside := visiting;
      var refs := sem.groups[current.id].memberRefs;
      for i := 0 to |refs|
        invariant visiting == inside
        invariant CollectAll(sem, inside, old(found), refs[..i]) == Ok(found)
      {
        assert refs[..i + 1][..i] == refs[..i];
        var below := CollectFrom(refs[i]);
        if below.Err? {
          FirstMissing(sem, inside, old(found), refs, i + 1);
          return below;
        }
      }
      assert refs[..|refs|] == refs;
      visiting := visiting - {current.id};
      return Ok(found);
    }
  }

  /** A fault among the first references is the fault of them all. */
  lemma {:induction false} FirstFault(sem: Semantics, visiting: set<string>, refs: seq<Ref>, n: nat)
    requires n <= |refs| && MembersOfAll(sem, visiting, refs[..n]).Err?
    ensures MembersOfAll(sem, visiting, refs) == MembersOfAll(sem, visiting, refs[..n])
  {
    if n < |refs| {
      assert refs[..|refs| - 1][..n] == refs[..n];
      FirstFault(sem, visiting, refs[..|refs| - 1], n);
    } else {
      assert refs[..n] == refs;
    }
  }

  lemma {:induction false} FirstMissing(sem: Semantics, visiting: set<string>, found: seq<string>, refs: seq<Ref>, n: nat)
    requires n <= |refs| && CollectAll(sem, visiting, found, refs[..n]).Err?
    ensures CollectAll(sem, visiting, found, refs) == CollectAll(sem, visiting, found, refs[..n])
  {
    if n < |refs| {
      assert refs[..|refs| - 1][..n] == refs[..n];
      FirstMissing(sem, visiting, found, refs[..|refs| - 1], n);
    } else {
      assert refs[..n] == refs;
    }
  }

  method CoverageMembers(r: Ref, sem: Semantics) returns (out: Outcome<set<string>>)
    ensures out.Ok? <==> Sound(sem, true, {}, r)
    ensures out.Ok? ==> forall m :: m in out.value <==> MemberBelow(sem, r, m)
    ensures out.Err? ==> exists p :: PathFrom(sem, r, p) && Fault(sem, {}, p, out.error)
  {
    var walk := new Walk(sem);
    out := walk.MembersOf(r);
    MembersExact(sem, {}, r);
    if out.Err? { MembersFault(sem, {}, r); }
  }

  method CoverageComponentIds(r: Ref, sem: Semantics) returns (out: Outcome<seq<string>>)
    ensures out.Ok? <==> Sound(sem, false, {}, r)
    ensures Members(sem, {}, r).Ok? ==> out.Ok?
    ensures out.Ok? ==> Distinct(out.value) && forall id :: id in out.value <==> LeafBelow(sem, r, id)
    ensures Members(sem, {}, r).Ok? ==> forall m :: m in Members(sem, {}, r).value <==> MemberOfSome(sem, out.value, m)
  {
    var walk := new Walk(sem);
    out := walk.CollectFrom(r);
    CollectWhenSound(sem, {}, [], r);
    if out.Ok? { CollectExact(sem, {}, [], r); }
    if Members(sem, {}, r).Ok? {
      CollectSucceeds(sem, {}, [], r);
      MembersExact(sem, {}, r);
      ListedMembers(sem, r, out.value);
    }
  }

  // -------------------------------------------------- reachability, independently

  /** A path of references, each a member reference of the group before it. */
  ghost predicate IsPath(sem: Semantics, p: seq<Ref>) {
    && |p| > 0
    && forall i :: 0 < i < |p| ==> Edge(sem, p, i)
  }

  ghost predicate Edge(sem: Semantics, p: seq<Ref>, i: nat)
    requires 0 < i < |p|
  {
    IsGroup(sem, p[i - 1]) && p[i] in Children(sem, p[i - 1])
  }

  ghost predicate PathFrom(sem: Semantics, r: Ref, p: seq<Ref>) { IsPath(sem, p) && p[0] == r }

  ghost predicate Reaches(sem: Semantics, r: Ref, t: Ref) {
    exists p :: PathFrom(sem, r, p) && p[|p| - 1] == t
  }

  /** In scope and resolvable. */
  ghost predicate Resolves(sem: Semantics, t: Ref) {
    t.scope == sem.id && if IsComponent(t) then t.id in sem.components else IsGroup(sem, t)
  }

  /** The group of reference `k` is neither being visited nor entered twice. */
  ghost predicate Fresh(sem: Semantics, visiting: set<string>, p: seq<Ref>, k: nat)
    requires k < |p|
  {
    IsGroup(sem, p[k]) ==> p[k].id !in visiting && forall j :: 0 <= j < k ==> IsGroup(sem, p[j]) ==> p[j].id != p[k].id
  }

  /** A component `id` lies below `r`. */
  ghost predicate LeafBelow(sem: Semantics, r: Ref, id: string) {
    exists t :: Reaches(sem, r, t) && IsComponent(t) && t.id == id
  }

  /** `m` is a source member of some component below `r`. */
  ghost predicate MemberBelow(sem: Semantics, r: Ref, m: string) {
    exists id :: LeafBelow(sem, r, id) && id in sem.components && m in sem.components[id]
  }

  ghost predicate MemberOfSome(sem: Semantics, ids: seq<string>, m: string) {
    exists id :: id in ids && id in sem.components && m in sem.components[id]
  }

  /** A group declares exactly the members of the components below it. */
  ghost predicate Declares(sem: Semantics, t: Ref)
    requires IsGroup(sem, t)
  {
    forall m :: m in sem.groups[t.id].sourceMembers <==> MemberBelow(sem, t, m)
  }

  /** What a walk asks of a reference: the member walk that it is in scope,
      resolvable and truly declared, the component walk only that it is a
      component or a known group. */
  ghost predicate Allowed(sem: Semantics, strict: bool, t: Ref) {
    if strict then Resolves(sem, t) && (IsGroup(sem, t) ==> Declares(sem, t)) else IsComponent(t) || IsGroup(sem, t)
  }

  /** Every path from `r` is allowed and acyclic. */
  ghost predicate Sound(sem: Semantics, strict: bool, visiting: set<string>, r: Ref) {
    forall p :: PathFrom(sem, r, p) ==> SoundPath(sem, strict, visiting, p)
  }

  ghost predicate SoundPath(sem: Semantics, strict: bool, visiting: set<string>, p: seq<Ref>) {
    forall k :: 0 <= k < |p| ==> Allowed(sem, strict, p[k]) && Fresh(sem, visiting, p, k)
  }

  /** What each error says about the end of some path. */
  ghost predicate Fault(sem: Semantics, visiting: set<string>, p: seq<Ref>, e: Error)
    requires |p| > 0
  {
    var t := p[|p| - 1];
    match e
    case ScopeMismatch => t.scope != sem.id
    case ReferenceInvalid =>
      t.scope == sem.id && (!Resolves(sem, t) || !Fresh(sem, visiting, p, |p| - 1))
    case AncestryMismatch => Resolves(sem, t) && IsGroup(sem, t) && !Declares(sem, t)
  }

  // ---------------------------------------------------------------- path algebra

  lemma PathCons(sem: Semantics, r: Ref, p: seq<Ref>)
    requires IsGroup(sem, r) && IsPath(sem, p) && p[0] in Children(sem, r)
    ensures PathFrom(sem, r, [r] + p) && ([r] + p)[|p|] == p[|p| - 1] && |[r] + p| == |p| + 1
  {
    var q := [r] + p;
    forall i | 0 < i < |q| ensures Edge(sem, q, i) {
      assert q[i] == p[i - 1];
      if i > 1 { assert q[i - 1] == p[i - 2] && Edge(sem, p, i - 1); }
    }
  }

  lemma PathTail(sem: Semantics, r: Ref, p: seq<Ref>)
    requires PathFrom(sem, r, p) && |p| > 1
    ensures IsGroup(sem, r) && p[1] in Children(sem, r) && PathFrom(sem, p[1], p[1..])
    ensures p == [r] + p[1..] && p[1..][|p| - 2] == p[|p| - 1]
  {
    var q := p[1..];
    forall i | 0 < i < |q| ensures Edge(sem, q, i) {
      assert q[i] == p[i + 1] && q[i - 1] == p[i];
      assert Edge(sem, p, i + 1);
    }
    assert Edge(sem, p, 1);
  }

  /** One step of reachability. */
  lemma ReachesCons(sem: Semantics, r: Ref, c: Ref, t: Ref)
    requires IsGroup(sem, r) && c in Children(sem, r) && Reaches(sem, c, t)
    ensures Reaches(sem, r, t)
  {
    var p :| PathFrom(sem, c, p) && p[|p| - 1] == t;
    PathCons(sem, r, p);
    var q := [r] + p;
    assert PathFrom(sem, r, q) && q[|q| - 1] == t;
  }

  lemma ReachesSelf(sem: Semantics, r: Ref)
    ensures Reaches(sem, r, r)
  {
    assert PathFrom(sem, r, [r]) && [r][|[r]| - 1] == r;
  }

  lemma ReachesSplit(sem: Semantics, r: Ref, t: Ref) returns (c: Ref)
    requires Reaches(sem, r, t) && t != r
    ensures IsGroup(sem, r) && c in Children(sem, r) && Reaches(sem, c, t)
  {
    var p :| PathFrom(sem, r, p) && p[|p| - 1] == t;
    PathTail(sem, r, p);
    c := p[1];
    var q := p[1..];
    assert PathFrom(sem, c, q) && q[|q| - 1] == t;
  }

  /** The leaves of a group are the leaves of its children. */
  lemma LeavesOfGroup(sem: Semantics, r: Ref, id: string)
    requires IsGroup(sem, r)
    ensures LeafBelow(sem, r, id) <==> exists c :: c in Children(sem, r) && LeafBelow(sem, c, id)
  {
    if LeafBelow(sem, r, id) {
      var t :| Reaches(sem, r, t) && IsComponent(t) && t.id == id;
      var c := ReachesSplit(sem, r, t);
      assert c in Children(sem, r) && LeafBelow(sem, c, id);
    }
    if exists c :: c in Children(sem, r) && LeafBelow(sem, c, id) {
      var c :| c in Children(sem, r) && LeafBelow(sem, c, id);
      var t :| Reaches(sem, c, t) && IsComponent(t) && t.id == id;
      ReachesCons(sem, r, c, t);
    }
  }

  lemma LeavesOfComponent(sem: Semantics, r: Ref, id: string)
    requires IsComponent(r)
    ensures LeafBelow(sem, r, id) <==> id == r.id
  {
    ReachesSelf(sem, r);
    if LeafBelow(sem, r, id) {
      var t :| Reaches(sem, r, t) && IsComponent(t) && t.id == id;
      var p :| PathFrom(sem, r, p) && p[|p| - 1] == t;
      if |p| > 1 { PathTail(sem, r, p); }
    }
  }

  lemma MembersOfGroup(sem: Semantics, r: Ref, m: string)
    requires IsGroup(sem, r)
    ensures MemberBelow(sem, r, m) <==> exists c :: c in Children(sem, r) && MemberBelow(sem, c, m)
  {
    hide LeafBelow;
    if MemberBelow(sem, r, m) {
      var id :| LeafBelow(sem, r, id) && id in sem.components && m in sem.components[id];
      LeavesOfGroup(sem, r, id);
      var c :| c in Children(sem, r) && LeafBelow(sem, c, id);
      assert MemberBelow(sem, c, m);
    }
    if exists c :: c in Children(sem, r) && MemberBelow(sem, c, m) {
      var c :| c in Children(sem, r) && MemberBelow(sem, c, m);
      var id :| LeafBelow(sem, c, id) && id in sem.components && m in sem.components[id];
      LeavesOfGroup(sem, r, id);
    }
  }

  lemma MembersOfComponent(sem: Semantics, r: Ref, m: string)
    requires IsComponent(r) && r.id in sem.components
    ensures MemberBelow(sem, r, m) <==> m in sem.components[r.id]
  {
    hide LeafBelow;
    LeavesOfComponent(sem, r, r.id);
    if MemberBelow(sem, r, m) {
      var id :| LeafBelow(sem, r, id) && id in sem.components && m in sem.components[id];
      LeavesOfComponent(sem, r, id);
    }
  }

  // ----------------------------------------------------------- the member theorem

  /** A group is sound when it is allowed, is new, and its children are sound once
      it is being visited. */
  lemma SoundGroup(sem: Semantics, strict: bool, visiting: set<string>, r: Ref)
    requires IsGroup(sem, r)
    ensures Sound(sem, strict, visiting, r) <==>
            && Allowed(sem, strict, r) && r.id !in visiting
            && forall c :: c in Children(sem, r) ==> Sound(sem, strict, visiting + {r.id}, c)
  {
    hide Allowed, IsPath;
    if Sound(sem, strict, visiting, r) {
      OneStep(sem, strict, visiting, r);
      forall c, p | c in Children(sem, r) && PathFrom(sem, c, p) ensures SoundPath(sem, strict, visiting + {r.id}, p) {
        PathNonempty(sem, c, p);
        PathCons(sem, r, p);
        SoundTail(sem, strict, visiting, r, p);
      }
    }
    if Allowed(sem, strict, r) && r.id !in visiting && forall c :: c in Children(sem, r) ==> Sound(sem, strict, visiting + {r.id}, c) {
      forall p | PathFrom(sem, r, p) ensures SoundPath(sem, strict, visiting, p) {
        PathNonempty(sem, r, p);
        if |p| > 1 {
          PathTail(sem, r, p);
          SoundHead(sem, strict, visiting, r, p[1..]);
        }
      }
    }
  }

  lemma PathNonempty(sem: Semantics, r: Ref, p: seq<Ref>)
    requires PathFrom(sem, r, p)
    ensures |p| > 0 && p[0] == r
  {}

  lemma OneStep(sem: Semantics, strict: bool, visiting: set<string>, r: Ref)
    requires Sound(sem, strict, visiting, r) && IsGroup(sem, r)
    ensures Allowed(sem, strict, r) && r.id !in visiting
  {
    hide Allowed;
    var p := [r];
    assert PathFrom(sem, r, p);
    assert SoundPath(sem, strict, visiting, p);
    assert Allowed(sem, strict, p[0]) && Fresh(sem, visiting, p, 0);
  }

  lemma SoundTail(sem: Semantics, strict: bool, visiting: set<string>, r: Ref, p: seq<Ref>)
    requires IsGroup(sem, r) && |p| > 0 && SoundPath(sem, strict, visiting, [r] + p)
    ensures SoundPath(sem, strict, visiting + {r.id}, p)
  {
    hide Allowed;
    var q := [r] + p;
    forall k | 0 <= k < |p| ensures Allowed(sem, strict, p[k]) && Fresh(sem, visiting + {r.id}, p, k) {
      var next := k + 1;
      assert q[next] == p[k] && q[0] == r;
      assert Fresh(sem, visiting, q, next);
      forall j | 0 <= j < k ensures IsGroup(sem, p[j]) && IsGroup(sem, p[k]) ==> p[j].id != p[k].id {
        assert q[j + 1] == p[j];
      }
    }
  }

  lemma SoundHead(sem: Semantics, strict: bool, visiting: set<string>, r: Ref, p: seq<Ref>)
    requires IsGroup(sem, r) && |p| > 0 && SoundPath(sem, strict, visiting + {r.id}, p)
    requires Allowed(sem, strict, r) && r.id !in visiting
    ensures SoundPath(sem, strict, visiting, [r] + p)
  {
    hide Allowed;
    var q := [r] + p;
    forall k | 0 <= k < |q| ensures Allowed(sem, strict, q[k]) && Fresh(sem, visiting, q, k) {
      if k > 0 {
        var prev := k - 1;
        assert q[k] == p[prev];
        assert Fresh(sem, visiting + {r.id}, p, prev);
        forall j | 0 <= j < k ensures IsGroup(sem, q[j]) && IsGroup(sem, q[k]) ==> q[j].id != q[k].id {
          if j > 0 { assert q[j] == p[j - 1]; }
        }
      }
    }
  }

  /** References that lead nowhere have only the one-step path. */
  lemma SoundEnd(sem: Semantics, strict: bool, visiting: set<string>, r: Ref)
    requires !IsGroup(sem, r)
    ensures Sound(sem, strict, visiting, r) <==> Allowed(sem, strict, r)
  {
    hide Allowed;
    var p := [r];
    assert PathFrom(sem, r, p);
    if Sound(sem, strict, visiting, r) {
      assert SoundPath(sem, strict, visiting, p);
      assert Allowed(sem, strict, p[0]);
    }
    if Allowed(sem, strict, r) {
      forall q | PathFrom(sem, r, q) ensures SoundPath(sem, strict, visiting, q) {
        if |q| > 1 { PathTail(sem, r, q); }
      }
    }
  }

  /** The walk succeeds exactly on sound references and returns the members of the
      components below. */
  lemma {:induction false} MembersExact(sem: Semantics, visiting: set<string>, r: Ref)
    ensures Members(sem, visiting, r).Ok? <==> Sound(sem, true, visiting, r)
    ensures Members(sem, visiting, r).Ok? ==> forall m :: m in Members(sem, visiting, r).value <==> MemberBelow(sem, r, m)
    decreases |Unvisited(sem, visiting)|, 0
  {
    hide Sound, MemberBelow;
    if !IsGroup(sem, r) {
      SoundEnd(sem, true, visiting, r);
      if IsComponent(r) && r.id in sem.components {
        forall m ensures MemberBelow(sem, r, m) <==> m in sem.components[r.id] { MembersOfComponent(sem, r, m); }
      }
    } else {
      SoundGroup(sem, true, visiting, r);
      if r.id !in visiting {
        DescentShrinks(sem, visiting, r.id);
        MembersOfAllExact(sem, visiting + {r.id}, Children(sem, r));
        forall m ensures MemberBelow(sem, r, m) <==> exists c :: c in Children(sem, r) && MemberBelow(sem, c, m) {
          MembersOfGroup(sem, r, m);
        }
      }
    }
  }

  lemma {:induction false} MembersOfAllExact(sem: Semantics, visiting: set<string>, refs: seq<Ref>)
    ensures MembersOfAll(sem, visiting, refs).Ok? <==> forall c :: c in refs ==> Sound(sem, true, visiting, c)
    ensures MembersOfAll(sem, visiting, refs).Ok? ==>
              forall m :: m in MembersOfAll(sem, visiting, refs).value <==> exists c :: c in refs && MemberBelow(sem, c, m)
    decreases |Unvisited(sem, visiting)|, |refs|
  {
    hide Sound, MemberBelow, Members;
    if refs != [] {
      var before, last := refs[..|refs| - 1], refs[|refs| - 1];
      MembersOfAllExact(sem, visiting, before);
      MembersExact(sem, visiting, last);
      assert refs == before + [last];
      forall c ensures c in refs <==> c in before || c == last {}
    }
  }

  /** Each error is explained by a path from the reference. */
  lemma {:induction false} MembersFault(sem: Semantics, visiting: set<string>, r: Ref)
    requires Members(sem, visiting, r).Err?
    ensures exists p :: PathFrom(sem, r, p) && Fault(sem, visiting, p, Members(sem, visiting, r).error)
    decreases |Unvisited(sem, visiting)|, 0
  {
    var e := Members(sem, visiting, r).error;
    var here := [r];
    assert PathFrom(sem, r, here);
    if r.scope != sem.id || IsComponent(r) || !IsGroup(sem, r) || r.id in visiting {
      assert Fault(sem, visiting, here, e);
    } else {
      DescentShrinks(sem, visiting, r.id);
      var inside, refs := visiting + {r.id}, Children(sem, r);
      if MembersOfAll(sem, inside, refs).Err? {
        var c := FaultAmong(sem, inside, refs);
        var p :| PathFrom(sem, c, p) && Fault(sem, inside, p, e);
        PathCons(sem, r, p);
        FaultCons(sem, visiting, r, p, e);
        assert PathFrom(sem, r, [r] + p) && Fault(sem, visiting, [r] + p, e);
      } else {
        Misdeclared(sem, visiting, r);
        assert Fault(sem, visiting, here, e);
      }
    }
  }

  lemma Misdeclared(sem: Semantics, visiting: set<string>, r: Ref)
    requires Members(sem, visiting, r) == Err(AncestryMismatch) && IsGroup(sem, r) && !IsComponent(r) && r.id !in visiting
    requires MembersOfAll(sem, visiting + {r.id}, Children(sem, r)).Ok?
    ensures !Declares(sem, r)
  {
    hide MemberBelow;
    var below := MembersOfAll(sem, visiting + {r.id}, Children(sem, r)).value;
    MembersOfAllExact(sem, visiting + {r.id}, Children(sem, r));
    forall m ensures m in below <==> MemberBelow(sem, r, m) { MembersOfGroup(sem, r, m); }
    var m :| (m in below) != (m in sem.groups[r.id].sourceMembers);
    assert m in below <==> MemberBelow(sem, r, m);
  }

  lemma FaultCons(sem: Semantics, visiting: set<string>, r: Ref, p: seq<Ref>, e: Error)
    requires IsGroup(sem, r) && |p| > 0 && Fault(sem, visiting + {r.id}, p, e)
    ensures Fault(sem, visiting, [r] + p, e)
  {
    hide Declares;
    var q := [r] + p;
    assert q[|q| - 1] == p[|p| - 1] && q[0] == r;
    var k := |p| - 1;
    if !Fresh(sem, visiting + {r.id}, p, k) {
      if p[k].id !in visiting && p[k].id != r.id {
        var j :| 0 <= j < k && IsGroup(sem, p[j]) && p[j].id == p[k].id;
        assert q[j + 1] == p[j];
      }
      assert !Fresh(sem, visiting, q, |q| - 1);
    }
  }

  lemma {:induction false} FaultAmong(sem: Semantics, visiting: set<string>, refs: seq<Ref>) returns (c: Ref)
    requires MembersOfAll(sem, visiting, refs).Err?
    ensures c in refs
    ensures exists p :: PathFrom(sem, c, p) && Fault(sem, visiting, p, MembersOfAll(sem, visiting, refs).error)
    decreases |Unvisited(sem, visiting)|, |refs|
  {
    hide Members, Fault;
    var before := refs[..|refs| - 1];
    if MembersOfAll(sem, visiting, before).Err? {
      c := FaultAmong(sem, visiting, before);
    } else {
      c := refs[|refs| - 1];
      MembersFault(sem, visiting, c);
    }
  }

  // -------------------------------------------------------- the component theorem

  ghost predicate Distinct(ids: seq<string>) {
    forall i, j :: 0 <= i < j < |ids| ==> ids[i] != ids[j]
  }

  /** Whatever the list walk returns holds what was found before and exactly the
      components below, each once. */
  lemma {:induction false} CollectExact(sem: Semantics, visiting: set<string>, found: seq<string>, r: Ref)
    requires Collect(sem, visiting, found, r).Ok? && Distinct(found)
    ensures Distinct(Collect(sem, visiting, found, r).value)
    ensures forall id :: id in Collect(sem, visiting, found, r).value <==> id in found || LeafBelow(sem, r, id)
    decreases |Unvisited(sem, visiting)|, 0
  {
    hide LeafBelow;
    if IsComponent(r) {
      forall id ensures LeafBelow(sem, r, id) <==> id == r.id { LeavesOfComponent(sem, r, id); }
    } else {
      DescentShrinks(sem, visiting, r.id);
      CollectAllExact(sem, visiting + {r.id}, found, Children(sem, r));
      forall id ensures LeafBelow(sem, r, id) <==> exists c :: c in Children(sem, r) && LeafBelow(sem, c, id) {
        LeavesOfGroup(sem, r, id);
      }
    }
  }

  lemma {:induction false} CollectAllExact(sem: Semantics, visiting: set<string>, found: seq<string>, refs: seq<Ref>)
    requires CollectAll(sem, visiting, found, refs).Ok? && Distinct(found)
    ensures Distinct(CollectAll(sem, visiting, found, refs).value)
    ensures forall id :: id in CollectAll(sem, visiting, found, refs).value <==>
                         id in found || exists c :: c in refs && LeafBelow(sem, c, id)
    decreases |Unvisited(sem, visiting)|, |refs|
  {
    hide LeafBelow, Collect, Distinct;
    if refs != [] {
      var before, last := refs[..|refs| - 1], refs[|refs| - 1];
      CollectAllExact(sem, visiting, found, before);
      CollectExact(sem, visiting, CollectAll(sem, visiting, found, before).value, last);
      assert refs == before + [last];
      forall c ensures c in refs <==> c in before || c == last {}
    }
  }

  /** The list walk succeeds exactly when every path ends in components or known
      groups and enters no group twice; scope and declarations do not matter. */
  lemma {:induction false} CollectWhenSound(sem: Semantics, visiting: set<string>, found: seq<string>, r: Ref)
    ensures Collect(sem, visiting, found, r).Ok? <==> Sound(sem, false, visiting, r)
    decreases |Unvisited(sem, visiting)|, 0
  {
    hide Sound;
    if !IsGroup(sem, r) {
      SoundEnd(sem, false, visiting, r);
    } else {
      SoundGroup(sem, false, visiting, r);
      if r.id !in visiting {
        DescentShrinks(sem, visiting, r.id);
        CollectAllWhenSound(sem, visiting + {r.id}, found, Children(sem, r));
      }
    }
  }

  lemma {:induction false} CollectAllWhenSound(sem: Semantics, visiting: set<string>, found: seq<string>, refs: seq<Ref>)
    ensures CollectAll(sem, visiting, found, refs).Ok? <==> forall c :: c in refs ==> Sound(sem, false, visiting, c)
    decreases |Unvisited(sem, visiting)|, |refs|
  {
    hide Sound, Collect;
    if refs != [] {
      var before, last := refs[..|refs| - 1], refs[|refs| - 1];
      CollectAllWhenSound(sem, visiting, found, before);
      assert refs == before + [last];
      forall c ensures c in refs <==> c in before || c == last {}
      var listed := CollectAll(sem, visiting, found, before);
      if listed.Ok? { CollectWhenSound(sem, visiting, listed.value, last); }
    }
  }

  /** Where the member walk succeeds, so does the list walk. */
  lemma {:induction false} CollectSucceeds(sem: Semantics, visiting: set<string>, found: seq<string>, r: Ref)
    requires Members(sem, visiting, r).Ok?
    ensures Collect(sem, visiting, found, r).Ok?
    decreases |Unvisited(sem, visiting)|, 0
  {
    if !IsComponent(r) {
      DescentShrinks(sem, visiting, r.id);
      CollectAllSucceeds(sem, visiting + {r.id}, found, Children(sem, r));
    }
  }

  lemma {:induction false} CollectAllSucceeds(sem: Semantics, visiting: set<string>, found: seq<string>, refs: seq<Ref>)
    requires MembersOfAll(sem, visiting, refs).Ok?
    ensures CollectAll(sem, visiting, found, refs).Ok?
    decreases |Unvisited(sem, visiting)|, |refs|
  {
    hide Members, Collect;
    if refs != [] {
      var before := refs[..|refs| - 1];
      CollectAllSucceeds(sem, visiting, found, before);
      CollectSucceeds(sem, visiting, CollectAll(sem, visiting, found, before).value, refs[|refs| - 1]);
    }
  }

  /** The listed components' members are the members of the reference. */
  lemma ListedMembers(sem: Semantics, r: Ref, ids: seq<string>)
    requires forall id :: id in ids <==> LeafBelow(sem, r, id)
    ensures forall m :: MemberBelow(sem, r, m) <==> MemberOfSome(sem, ids, m)
  {
    hide LeafBelow;
    forall m ensures MemberBelow(sem, r, m) <==> MemberOfSome(sem, ids, m) {
      if MemberBelow(sem, r, m) {
        var id :| LeafBelow(sem, r, id) && id in sem.components && m in sem.components[id];
        assert id in ids;
      }
      if MemberOfSome(sem, ids, m) {
        var id :| id in ids && id in sem.components && m in sem.components[id];
        assert LeafBelow(sem, r, id);
      }
    }
  }
}
