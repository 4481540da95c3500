/** `translateRegex`: flags and anchors, the cursor, then one value per
    alternative and encoding depth. */
module RegexTranslation {
  import opened Options
  import opened RegexSyntax
  import opened PercentEncoding
  import opened Expansion
  import opened RegexTranslator

  // ------------------------------------------------------------- ladder depths

  /** Every ladder has at least two rungs, none of them empty, and each is the
      one before encoded once more. */
  predicate GoodParts(p: Parts) {
    forall k :: 0 <= k < |p| && p[k].PartLadder? ==> GoodRungs(p[k].rungs)
  }

  predicate GoodRungs(rungs: seq<string>) {
    |rungs| >= 2 && Climbs(rungs) && forall m :: 0 <= m < |rungs| ==> rungs[m] != ""
  }

  predicate AllGood(a: seq<Parts>) {
    forall k :: 0 <= k < |a| ==> GoodParts(a[k])
  }

  lemma {:induction false} CrossGood(a: seq<Parts>, b: seq<Parts>)
    requires AllGood(a) && AllGood(b)
    ensures AllGood(Cross(a, b))
  {
    if a != [] {
      CrossGood(a[1..], b);
      forall k | 0 <= k < |b| ensures GoodParts(a[0] + b[k]) {
        assert GoodParts(a[0]) && GoodParts(b[k]);
      }
    }
  }

  lemma {:induction false} ExpandGood(alnum: char -> bool, r: Rx)
    ensures Expand(alnum, r).Some? ==> AllGood(Expand(alnum, r).value)
  {
    match r
    case Seq(h, t) =>
      ExpandGood(alnum, h);
      ExpandGood(alnum, t);
      var a, b := Expand(alnum, h), Expand(alnum, t);
      if a.Some? && b.Some? { CrossGood(a.value, b.value); }
    case Or(l, rt) =>
      ExpandGood(alnum, l);
      ExpandGood(alnum, rt);
    case Quant(a, _, _) =>
      ExpandGood(alnum, a);
      var e := Expand(alnum, a);
      if e.Some? {
        forall k | 0 <= k < |e.value| ensures GoodParts(e.value[k] + [PartAny]) {
          assert GoodParts(e.value[k]);
        }
      }
    case Group(_, b) =>
      ExpandGood(alnum, b);
      var e := Expand(alnum, b);
      if e.Some? && IsLadder(e.value) {
        assert GoodRungs(Branches(e.value)) by {
          forall m | 0 <= m < |e.value| ensures Branches(e.value)[m] != "" {
            assert IsLiteral(e.value[m]) && e.value[m] != [];
          }
        }
      }
    case _ =>
  }

  lemma {:induction false} FirstDepthInIs(p: Parts, d: nat)
    requires GoodParts(p) && DepthIs(p, d) && HasLadder(p)
    ensures FirstDepthIn(p) == d
  {
    if !p[0].PartLadder? {
      var k :| 0 <= k < |p| && p[k].PartLadder?;
      assert p[1..][k - 1] == p[k];
      FirstDepthInIs(p[1..], d);
    }
  }

  lemma {:induction false} NoLadderNoDepth(p: Parts)
    requires !HasLadder(p)
    ensures FirstDepthIn(p) == 0
  {
    if p != [] {
      assert !p[0].PartLadder?;
      assert forall k :: 0 <= k < |p| - 1 ==> p[1..][k] == p[k + 1];
      NoLadderNoDepth(p[1..]);
    }
  }

  lemma {:induction false} FirstDepthIs(a: seq<Parts>, d: nat)
    requires AllGood(a) && AllDepth(a, d) && AnyLadder(a)
    ensures FirstDepth(a) == d && d >= 2
  {
    if HasLadder(a[0]) {
      FirstDepthInIs(a[0], d);
      var k :| 0 <= k < |a[0]| && a[0][k].PartLadder?;
      assert DepthIs(a[0], d) && GoodParts(a[0]);
    } else {
      NoLadderNoDepth(a[0]);
      var k :| 0 <= k < |a| && HasLadder(a[k]);
      assert a[1..][k - 1] == a[k];
      FirstDepthIs(a[1..], d);
    }
  }

  /** Position (j, n) holds a ladder and comes before position (k, m). */
  ghost predicate Seen(a: seq<Parts>, k: int, m: int, j: int, n: int) {
    0 <= j < |a| && 0 <= n < |a[j]| && a[j][n].PartLadder? && (j < k || (j == k && n < m))
  }

  /** The depth after the positions before (k, m): zero before any ladder. */
  ghost predicate DepthSoFar(a: seq<Parts>, k: int, m: int, depth: nat) {
    if depth == 0 then forall j, n :: !Seen(a, k, m, j, n)
    else
      && (exists j, n :: Seen(a, k, m, j, n))
      && forall j, n :: Seen(a, k, m, j, n) ==> |a[j][n].rungs| == depth
  }

  lemma DepthAdvance(a: seq<Parts>, k: nat, m: nat, depth: nat)
    requires AllGood(a) && k < |a| && m < |a[k]| && DepthSoFar(a, k, m, depth)
    ensures !a[k][m].PartLadder? ==> DepthSoFar(a, k, m + 1, depth)
    ensures a[k][m].PartLadder? && (depth == 0 || depth == |a[k][m].rungs|) ==>
              DepthSoFar(a, k, m + 1, |a[k][m].rungs|)
    ensures a[k][m].PartLadder? && depth != 0 && depth != |a[k][m].rungs| ==> !AllDepth(a, FirstDepth(a))
  {
    assert GoodParts(a[k]);
    var next := m + 1;
    forall j, n | Seen(a, k, next, j, n) ensures Seen(a, k, m, j, n) || (j == k && n == m) {}
    if depth != 0 {
      var j, n :| Seen(a, k, m, j, n);
      assert Seen(a, k, m + 1, j, n);
    }
    if a[k][m].PartLadder? {
      assert Seen(a, k, m + 1, k, m);
    }
  }

  lemma DepthNextRow(a: seq<Parts>, k: nat, depth: nat)
    requires k < |a| && DepthSoFar(a, k, |a[k]|, depth)
    ensures DepthSoFar(a, k + 1, 0, depth)
  {
    var next := k + 1;
    forall j, n | Seen(a, next, 0, j, n) ensures Seen(a, k, |a[k]|, j, n) {}
    if depth != 0 {
      var j, n :| Seen(a, k, |a[k]|, j, n);
      assert Seen(a, k + 1, 0, j, n);
    }
  }

  lemma DepthAtEnd(a: seq<Parts>, depth: nat)
    requires AllGood(a) && DepthSoFar(a, |a|, 0, depth)
    ensures depth > 0 ==> AnyLadder(a) && AllDepth(a, depth) && FirstDepth(a) == depth
    ensures depth == 0 ==> !AnyLadder(a)
  {
    if depth > 0 {
      forall j | 0 <= j < |a| ensures DepthIs(a[j], depth) {
        forall n | 0 <= n < |a[j]| && a[j][n].PartLadder? ensures |a[j][n].rungs| == depth {
          assert Seen(a, |a|, 0, j, n);
        }
      }
      var j, n :| Seen(a, |a|, 0, j, n);
      assert HasLadder(a[j]);
      FirstDepthIs(a, depth);
    } else {
      forall j | 0 <= j < |a| ensures !HasLadder(a[j]) {
        forall n | 0 <= n < |a[j]| ensures !a[j][n].PartLadder? {
          assert !Seen(a, |a|, 0, j, n);
        }
      }
    }
  }

  /** `ladderDepth`. */
  method LadderDepth(a: seq<Parts>) returns (depth: nat, ok: bool)
    requires AllGood(a)
    ensures ok <==> AnyLadder(a) && AllDepth(a, FirstDepth(a))
    ensures ok ==> depth == FirstDepth(a)
  {
    depth := 0;
    for k := 0 to |a|
      invariant DepthSoFar(a, k, 0, depth)
    {
      for m := 0 to |a[k]|
        invariant DepthSoFar(a, k, m, depth)
      {
        DepthAdvance(a, k, m, depth);
        if a[k][m].PartLadder? {
          if depth == 0 {
            depth := |a[k][m].rungs|;
          } else if depth != |a[k][m].rungs| {
            return 0, false;
          }
        }
      }
      DepthNextRow(a, k, depth);
    }
    DepthAtEnd(a, depth);
    ok := depth > 0;
  }

  method HasLadderLoop(a: seq<Parts>) returns (found: bool)
    ensures found <==> AnyLadder(a)
  {
    for k := 0 to |a|
      invariant forall j :: 0 <= j < k ==> !HasLadder(a[j])
    {
      for m := 0 to |a[k]|
        invariant forall n :: 0 <= n < m ==> !a[k][n].PartLadder?
      {
        if a[k][m].PartLadder? {
          assert HasLadder(a[k]);
          return true;
        }
      }
    }
    return false;
  }

  method HasLiteralWildcardLoop(p: Parts) returns (found: bool)
    ensures found <==> HasLiteralWildcard(p)
  {
    for m := 0 to |p|
      invariant forall n :: 0 <= n < m ==> !(p[n].PartLit? && (p[n].c == '*' || p[n].c == '?'))
    {
      if p[m].PartLit? && (p[m].c == '*' || p[m].c == '?') { return true; }
    }
    return false;
  }

  // ------------------------------------------------------------------- values

  /** The values of all alternatives at one depth. */
  method RenderRow(a: seq<Parts>, depth: nat, start: bool, end: bool) returns (row: seq<string>, used: bool)
    requires forall k :: 0 <= k < |a| ==> LaddersHave(a[k], depth)
    ensures row == ValuesAt(a, depth, start, end)
    ensures used <==> AnyWildcard(a)
  {
    hide Render, LaddersHave, UsesWildcard;
    row, used := [], false;
    for k := 0 to |a|
      invariant |row| == k
      invariant forall j :: 0 <= j < k ==> row[j] == Decorate(Render(a[j], depth, false), start, end)
      invariant used <==> exists j :: 0 <= j < k && UsesWildcard(a[j])
    {
      var rendered, wild := RenderLoop(a[k], depth);
      used := used || wild;
      if !start { rendered := "*" + rendered; }
      if !end { rendered := rendered + "*"; }
      row := row + [rendered];
    }
  }

  /** One value per depth and alternative, every ladder at that depth. */
  method RenderAll(a: seq<Parts>, depths: nat, start: bool, end: bool) returns (values: seq<string>, wildcard: bool)
    requires Aligned(a, depths) && depths >= 1
    ensures values == Values(a, depths, start, end)
    ensures wildcard <==> !start || !end || AnyWildcard(a)
  {
    hide LaddersHave, AnyWildcard;
    wildcard := !start || !end;
    values := [];
    for depth := 0 to depths
      invariant values == Values(a, depth, start, end)
      invariant wildcard <==> !start || !end || (depth > 0 && AnyWildcard(a))
    {
      var row, used := RenderRow(a, depth, start, end);
      wildcard := wildcard || used;
      values := values + row;
    }
  }

  method HasEmpty(values: seq<string>) returns (found: bool)
    ensures found <==> "" in values
  {
    for k := 0 to |values|
      invariant forall j :: 0 <= j < k ==> values[j] != ""
    {
      if values[k] == "" { return true; }
    }
    return false;
  }

  method AnyLiteralWildcardLoop(a: seq<Parts>) returns (found: bool)
    ensures found <==> AnyLiteralWildcard(a)
  {
    for k := 0 to |a|
      invariant forall j :: 0 <= j < k ==> !HasLiteralWildcard(a[j])
    {
      found := HasLiteralWildcardLoop(a[k]);
      if found { return; }
    }
    return false;
  }

  /** The number of depths to emit, or none when the ladders disagree. */
  method DepthsLoop(a: seq<Parts>) returns (r: Option<nat>)
    requires AllGood(a)
    ensures r == Depths(a) && (r.Some? ==> r.value >= 1)
  {
    var depth, ok := LadderDepth(a);
    if ok {
      FirstDepthIs(a, depth);
      return Some(depth);
    }
    var ladder := HasLadderLoop(a);
    return if ladder then None else Some(1);
  }

  /** The part of `translateRegex` after the cursor has expanded the text. */
  method EmitLoop(a: seq<Parts>, start: bool, end: bool) returns (r: Option<(seq<string>, bool)>)
    requires AllGood(a)
    ensures r == Emit(a, start, end)
  {
    hide Depths, Values, Unique, AllGood, AnyWildcard, AnyLiteralWildcard;
    var depths := DepthsLoop(a);
    if depths.None? { return None; }
    DepthsAlign(a);
    var values, wildcard := RenderAll(a, depths.value, start, end);
    if |values| > MAX_VALUES { return None; }
    values := UniqueLoop(values);
    if |values| == 0 { return None; }
    var empty := HasEmpty(values);
    if empty { return None; }
    if wildcard {
      var found := AnyLiteralWildcardLoop(a);
      if found { return None; }
    }
    return Some((values, wildcard));
  }

  /** Runs the cursor over a whole body. */
  method ExpandText(alnum: char -> bool, body: string) returns (r: Option<seq<Parts>>, lossy: bool, narrowed: bool)
    ensures var p := ParseBody(alnum, body);
            && (r.None? <==> p.None? || Expand(alnum, p.value).None?)
            && (r.Some? ==>
                  && r == Expand(alnum, p.value) && AllGood(r.value)
                  && lossy == Lossy(alnum, p.value) && narrowed == Narrowed(alnum, p.value))
  {
    var t := new Translator(alnum, body);
    r := t.ParseAlternationAt(0);
    lossy, narrowed := t.lossy, t.narrowed;
    if r.Some? {
      ExpandGood(alnum, ParseAlternation(alnum, body, 0, 0).rx);
      if t.index != |t.source| { r := None; }
    }
  }

  method CheckFlags(flags: string) returns (ok: bool)
    ensures ok == KnownFlags(flags)
  {
    for k := 0 to |flags|
      invariant forall j :: 0 <= j < k ==> flags[j] == 'i' || flags[j] == 's'
    {
      if flags[k] != 'i' && flags[k] != 's' { return false; }
    }
    return true;
  }

  /** `translateRegex` computes "parse, then expand, then render". */
  method TranslateRegex(alnum: char -> bool, text: string) returns (r: Option<RegexResult>)
    ensures r == Translate(alnum, text)
  {
    if |Utf8(text)| > MAX_REGEX_LENGTH { return None; }
    var src := ReadSource(text);
    var known := CheckFlags(src.flags);
    if !known { return None; }
    var alts, lossy, narrowed := ExpandText(alnum, src.body);
    if alts.None? { return None; }
    var emitted := EmitLoop(alts.value, src.start, src.end);
    if emitted.None? { return None; }
    return Some(RegexResult(emitted.value.0, emitted.value.1, 'i' in src.flags, lossy, narrowed));
  }

  /** What every accepted translation looks like: one to thirty-two distinct,
      nonempty values. */
  lemma TranslateBounded(alnum: char -> bool, text: string)
    requires Translate(alnum, text).Some?
    ensures var values := Translate(alnum, text).value.values;
            && 1 <= |values| <= 32 && |Utf8(text)| <= 4096
            && (forall i :: 0 <= i < |values| ==> values[i] != "")
            && forall i, j :: 0 <= i < j < |values| ==> values[i] != values[j]
  {
    var src := ReadSource(text);
    var a := Expand(alnum, ParseBody(alnum, src.body).value).value;
    DepthsAlign(a);
    var all := Values(a, Depths(a).value, src.start, src.end);
    assert Translate(alnum, text).value.values == Unique(all);
    forall i | 0 <= i < |Unique(all)| ensures Unique(all)[i] != "" {
      assert Unique(all)[i] in Unique(all);
    }
  }
}
