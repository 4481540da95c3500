/** Letter case in a test: a source that inspects a text character by character as
    `seen` and compares it under `own`, and values compared with the text itself
    under `cmp`.  Exactly when do the two agree? */
module LetterCase {
  import opened RegexSemantics
  import opened Wildcards

  function Exact(c: char): char { c }

  /** The text as the source inspects it. */
  function Seen(seen: char -> char, s: string): (t: string)
    ensures |t| == |s| && forall k :: 0 <= k < |s| ==> t[k] == seen(s[k])
  {
    seq(|s|, k requires 0 <= k < |s| => seen(s[k]))
  }

  /** Both comparisons of this character with any other agree. */
  ghost predicate CharKept(own: char -> char, seen: char -> char, cmp: char -> char, c: char) {
    forall x: char :: own(c) == own(seen(x)) <==> cmp(c) == cmp(x)
  }

  predicate IsMark(wildcard: bool, c: char) { wildcard && (c == '*' || c == '?') }

  ghost predicate ValueKept(own: char -> char, seen: char -> char, cmp: char -> char, v: string, wildcard: bool) {
    forall k :: 0 <= k < |v| && !IsMark(wildcard, v[k]) ==> CharKept(own, seen, cmp, v[k])
  }

  /** The second comparison is the coarser one. */
  ghost predicate Coarser(own: char -> char, seen: char -> char, cmp: char -> char) {
    forall c: char, x: char :: own(c) == own(seen(x)) ==> cmp(c) == cmp(x)
  }

  // ----------------------------------------------------------------- kept values

  lemma {:induction false} GlobSeen(own: char -> char, seen: char -> char, cmp: char -> char, v: string, t: string)
    requires Coarser(own, seen, cmp)
    ensures GlobMatch(own, v, Seen(seen, t)) ==> GlobMatch(cmp, v, t)
    ensures ValueKept(own, seen, cmp, v, true) ==> (GlobMatch(own, v, Seen(seen, t)) <==> GlobMatch(cmp, v, t))
  {
    if v != "" {
      var u := Seen(seen, t);
      assert ValueKept(own, seen, cmp, v, true) ==> ValueKept(own, seen, cmp, v[1..], true);
      forall k | 0 <= k <= |t|
        ensures GlobMatch(own, v[1..], u[k..]) ==> GlobMatch(cmp, v[1..], t[k..])
        ensures ValueKept(own, seen, cmp, v, true) ==> (GlobMatch(own, v[1..], u[k..]) <==> GlobMatch(cmp, v[1..], t[k..]))
      {
        assert u[k..] == Seen(seen, t[k..]);
        GlobSeen(own, seen, cmp, v[1..], t[k..]);
      }
      if !IsMark(true, v[0]) && ValueKept(own, seen, cmp, v, true) { assert CharKept(own, seen, cmp, v[0]); }
    }
  }

  lemma ValueSeen(own: char -> char, seen: char -> char, cmp: char -> char, v: string, wildcard: bool, t: string)
    requires Coarser(own, seen, cmp)
    ensures ValueMatches(own, v, wildcard, Seen(seen, t)) ==> ValueMatches(cmp, v, wildcard, t)
    ensures ValueKept(own, seen, cmp, v, wildcard) ==> (ValueMatches(own, v, wildcard, Seen(seen, t)) <==> ValueMatches(cmp, v, wildcard, t))
  {
    if wildcard { GlobSeen(own, seen, cmp, v, t); }
  }

  // ------------------------------------------------------------- the shortest match

  /** The shortest string a value matches, `x` for each `?`. */
  function Least(v: string, wildcard: bool, x: char): (t: string)
  {
    if v == "" then ""
    else if IsMark(wildcard, v[0]) && v[0] == '*' then Least(v[1..], wildcard, x)
    else [if IsMark(wildcard, v[0]) then x else v[0]] + Least(v[1..], wildcard, x)
  }

  lemma {:induction false} NothingShorter(f: char -> char, v: string, x: char, t: string)
    requires GlobMatch(f, v, t)
    ensures |t| >= |Least(v, true, x)|
  {
    if v != "" {
      if v[0] == '*' {
        var k :| 0 <= k <= |t| && GlobMatch(f, v[1..], t[k..]);
        NothingShorter(f, v[1..], x, t[k..]);
      } else {
        NothingShorter(f, v[1..], x, t[1..]);
      }
    }
  }

  /** The least match of `v` with the k-th character replaced by one that only the
      coarser comparison takes: the values match it, and as seen by the source
      they do not. */
  lemma {:induction false} LeastSeparates(own: char -> char, seen: char -> char, cmp: char -> char, v: string, k: nat, x: char) returns (t: string)
    requires k < |v| && !IsMark(true, v[k]) && cmp(v[k]) == cmp(x) && own(v[k]) != own(seen(x))
    ensures |t| == |Least(v, true, x)| && GlobMatch(cmp, v, t) && !GlobMatch(own, v, Seen(seen, t))
  {
    if k == 0 {
      t := [x] + Least(v[1..], true, x);
      assert t[1..] == Least(v[1..], true, x);
      LeastMatches(cmp, v[1..], x);
    } else {
      var rest := LeastSeparates(own, seen, cmp, v[1..], k - 1, x);
      if v[0] == '*' {
        t := rest;
        assert t[0..] == rest;
        var u := Seen(seen, t);
        forall j | 0 <= j <= |u| ensures !GlobMatch(own, v[1..], u[j..]) {
          if j == 0 { assert u[0..] == u; }
          else if GlobMatch(own, v[1..], u[j..]) { NothingShorter(own, v[1..], x, u[j..]); }
        }
      } else {
        t := [if v[0] == '?' then x else v[0]] + rest;
        assert t[1..] == rest && Seen(seen, t)[1..] == Seen(seen, rest);
      }
    }
  }

  lemma {:induction false} LeastMatches(f: char -> char, v: string, x: char)
    ensures GlobMatch(f, v, Least(v, true, x))
  {
    if v != "" {
      LeastMatches(f, v[1..], x);
      var t := Least(v, true, x);
      if v[0] == '*' { assert t[0..] == t; } else { assert t[1..] == Least(v[1..], true, x); }
    }
  }

  /** One value: source and value agree on every string exactly when every character
      of the value, other than a wildcard, is compared alike. */
  lemma ValueExactly(own: char -> char, seen: char -> char, cmp: char -> char, v: string, wildcard: bool)
    requires Coarser(own, seen, cmp)
    ensures (forall t: string :: ValueMatches(own, v, wildcard, Seen(seen, t)) <==> ValueMatches(cmp, v, wildcard, t))
            <==> ValueKept(own, seen, cmp, v, wildcard)
  {
    if ValueKept(own, seen, cmp, v, wildcard) {
      forall t: string ensures ValueMatches(own, v, wildcard, Seen(seen, t)) <==> ValueMatches(cmp, v, wildcard, t) {
        ValueSeen(own, seen, cmp, v, wildcard, t);
      }
    } else {
      var t := Separator(own, seen, cmp, v, wildcard);
    }
  }

  lemma Separator(own: char -> char, seen: char -> char, cmp: char -> char, v: string, wildcard: bool) returns (t: string)
    requires Coarser(own, seen, cmp) && !ValueKept(own, seen, cmp, v, wildcard)
    ensures ValueMatches(cmp, v, wildcard, t) && !ValueMatches(own, v, wildcard, Seen(seen, t))
  {
    var k :| 0 <= k < |v| && !IsMark(wildcard, v[k]) && !CharKept(own, seen, cmp, v[k]);
    var x: char :| (own(v[k]) == own(seen(x))) != (cmp(v[k]) == cmp(x));
    if wildcard {
      t := LeastSeparates(own, seen, cmp, v, k, x);
    } else {
      t := v[k := x];
      assert Seen(seen, t)[k] == seen(x);
    }
  }

  // ------------------------------------------------------------------ lists of values

  /** Whatever a value matches, some value equals as the source sees it. */
  ghost predicate Listed(seen: char -> char, cmp: char -> char, values: seq<string>) {
    forall v, t :: v in values && SameFolded(cmp, v, t) ==> Seen(seen, t) in values
  }

  /** A list of literal values and a source that compares them exactly. */
  lemma ListExactly(seen: char -> char, cmp: char -> char, values: seq<string>)
    requires Coarser(Exact, seen, cmp)
    ensures (forall t: string :: SomeValueMatches(Exact, values, false, Seen(seen, t)) <==> SomeValueMatches(cmp, values, false, t))
            <==> Listed(seen, cmp, values)
  {
    forall t: string ensures SomeValueMatches(Exact, values, false, Seen(seen, t)) <==> Seen(seen, t) in values {
      IsValue(values, Seen(seen, t));
    }
    forall t: string ensures SomeValueMatches(cmp, values, false, t) <==> exists v :: v in values && SameFolded(cmp, v, t) {
      if v :| v in values && SameFolded(cmp, v, t) {
        var k :| 0 <= k < |values| && values[k] == v;
        assert ValueMatches(cmp, values[k], false, t);
      }
    }
    forall t: string | Seen(seen, t) in values ensures SomeValueMatches(cmp, values, false, t) {
      assert SameFolded(cmp, Seen(seen, t), t);
    }
  }

  lemma IsValue(values: seq<string>, t: string)
    ensures SomeValueMatches(Exact, values, false, t) <==> t in values
  {
    if SomeValueMatches(Exact, values, false, t) {
      var k :| 0 <= k < |values| && ValueMatches(Exact, values[k], false, t);
      assert values[k] == t;
    }
    if t in values {
      var k :| 0 <= k < |values| && values[k] == t;
      assert ValueMatches(Exact, values[k], false, t);
    }
  }

  // -------------------------------------------------------------------- lower case

  /** The comparison that ignores case compares the lower cases, and a lower case
      is its own. */
  ghost predicate FoldsTo(fold: char -> char, lower: char -> char) {
    && (forall a: char, b: char :: fold(a) == fold(b) <==> lower(a) == lower(b))
    && forall c: char :: lower(lower(c)) == lower(c)
  }

  /** Under `t:lowercase` a character is compared alike exactly when it is a lower
      case, and a list of literals exactly when it has the lower case of each. */
  lemma LowerExactly(fold: char -> char, lower: char -> char)
    requires FoldsTo(fold, lower)
    ensures Coarser(Exact, lower, fold) && Coarser(fold, lower, fold)
    ensures forall c: char :: CharKept(Exact, lower, fold, c) <==> lower(c) == c
    ensures forall c: char :: CharKept(fold, lower, fold, c)
    ensures forall values: seq<string> :: Listed(lower, fold, values) <==> forall v :: v in values ==> Seen(lower, v) in values
  {
    forall c: char ensures CharKept(Exact, lower, fold, c) <==> lower(c) == c {
      if CharKept(Exact, lower, fold, c) { assert fold(c) == fold(c); }
    }
    forall values: seq<string> ensures Listed(lower, fold, values) <==> forall v :: v in values ==> Seen(lower, v) in values {
      forall v, t: string | SameFolded(fold, v, t) ensures Seen(lower, t) == Seen(lower, v) {}
      if Listed(lower, fold, values) {
        forall v | v in values ensures Seen(lower, v) in values { assert SameFolded(fold, v, v); }
      }
    }
  }
}
