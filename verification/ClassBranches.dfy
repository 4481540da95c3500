/** Texts of one branch of single characters, escapes, dots and classes: exactly
    when do the emitted values match what the source finds?  And when is a class
    read as the class it is? */
module ClassBranches {
  import opened Options
  import opened RegexSyntax
  import opened RegexSemantics
  import opened PercentEncoding
  import opened Expansion
  import opened Wildcards
  import opened TranslationMeaning
  import opened Fidelity
  import opened TranslationTheorems
  import opened EmittedMeaning

  // ----------------------------------------------------------------------- the atoms

  /** From position i the body of a class uses only escapes with a meaning here,
      and holds nothing that would carry the class past the first bracket: no
      backslash before it and no named class. */
  predicate Closes(alnum: char -> bool, s: string, i: nat)
    requires i <= |s|
    decreases |s| - i
  {
    if i == |s| then true
    else if s[i] == '\\' then
      i + 1 < |s| && (IsSetEscape(s[i + 1]) || IsControlEscape(s[i + 1]) || !alnum(s[i + 1])) && Closes(alnum, s, i + 2)
    else if s[i] == '[' then i + 1 < |s| && s[i + 1] !in ":.=" && Closes(alnum, s, i + 1)
    else Closes(alnum, s, i + 1)
  }

  /** An atom that takes one character, and means to the source what its tree says. */
  predicate TakesOne(alnum: char -> bool, r: Rx) {
    match r
    case Lit(_) => true
    case Dot => true
    case Escape(c) => c != 'b' && c != 'B'
    case Hex(hi, lo) => ProperHex(hi, lo)
    case Class(items) => items != "" && items != "^" && Closes(alnum, items, if items[0] == '^' then 1 else 0)
    case _ => false
  }

  predicate AllTakeOne(alnum: char -> bool, atoms: seq<Rx>) { forall k :: 0 <= k < |atoms| ==> TakesOne(alnum, atoms[k]) }

  function Chain(atoms: seq<Rx>): Rx {
    if atoms == [] then Eps else Seq(atoms[0], Chain(atoms[1..]))
  }

  /** The characters that the source takes at an atom. */
  ghost predicate SourceHas(fold: char -> char, r: Rx, x: char) {
    match r
    case Hex(hi, lo) => ProperHex(hi, lo) && fold(ReadHex(hi, lo).value) == fold(x)
    case _ => IsSingle(r) && SingleHas(fold, r, x)
  }

  /** The characters that the translator reads at it. */
  ghost predicate ReadHas(fold: char -> char, alnum: char -> bool, r: Rx, x: char) {
    match r
    case Lit(c) => fold(c) == fold(x)
    case Escape(c) => IsShorthand(c) || fold(EscapedChar(c)) == fold(x)
    case Hex(hi, lo) => ReadHex(hi, lo).Some? && fold(ReadHex(hi, lo).value) == fold(x)
    case Class(items) => ClassLossy(alnum, items) || SomeMember(fold, Enumerate(alnum, items).value, x)
    case _ => true
  }

  /** Both take the same characters. */
  ghost predicate Agrees(fold: char -> char, alnum: char -> bool, r: Rx) {
    forall x: char :: SourceHas(fold, r, x) <==> ReadHas(fold, alnum, r, x)
  }

  lemma SourceEnds(fold: char -> char, alnum: char -> bool, r: Rx, s: string, i: nat, j: nat)
    requires TakesOne(alnum, r) && i <= |s|
    ensures j in Ends(fold, r, s, i) <==> i + 1 == j <= |s| && SourceHas(fold, r, s[i])
  {
    if r.Hex? { HexLeaf(fold, r.hi, r.lo, s, i, j); }
  }

  lemma {:induction false} OneOfEnds(fold: char -> char, members: seq<char>, s: string, i: nat, j: nat)
    requires members != [] && i <= |s|
    ensures j in Ends(fold, OneOf(members), s, i) <==> i + 1 == j <= |s| && SomeMember(fold, members, s[i])
  {
    if |members| > 1 {
      OneOfEnds(fold, members[1..], s, i, j);
      assert members == [members[0]] + members[1..];
      if i < |s| {
        SomeMemberAppend(fold, [members[0]], members[1..], s[i]);
        OneMember(fold, members[0], s[i]);
      }
    } else if i < |s| {
      assert members == [members[0]];
    }
  }

  lemma ReadEnds(fold: char -> char, alnum: char -> bool, r: Rx, s: string, i: nat, j: nat)
    requires TakesOne(alnum, r) && Expand(alnum, r).Some? && i <= |s|
    ensures j in Ends(fold, AsRead(alnum, r), s, i) <==> i + 1 == j <= |s| && ReadHas(fold, alnum, r, s[i])
  {
    if r.Class? && !ClassLossy(alnum, r.items) {
      ListedSome(alnum, r.items);
      OneOfEnds(fold, Enumerate(alnum, r.items).value, s, i, j);
    }
  }

  /** A class is listed exactly when it is neither empty nor negated and its body
      enumerates one to eight characters. */
  lemma ListedSome(alnum: char -> bool, items: string)
    ensures !ClassLossy(alnum, items) <==>
            && items != "" && items[0] != '^'
            && exists members :: Enumerate(alnum, items) == Some(members) && 1 <= |members| <= 8
  {
    if Enumerate(alnum, items).Some? {
      var chars := Members(alnum, items, 0).value;
      assert chars[0] in Unique(chars);
      assert Enumerate(alnum, items) == Some(Enumerate(alnum, items).value);
    }
  }

  // ----------------------------------------------------------------------- the branch

  ghost predicate SourceSpells(fold: char -> char, atoms: seq<Rx>, s: string, i: nat) {
    i + |atoms| <= |s| && forall k :: 0 <= k < |atoms| ==> SourceHas(fold, atoms[k], s[i + k])
  }

  ghost predicate ReadSpells(fold: char -> char, alnum: char -> bool, atoms: seq<Rx>, s: string, i: nat) {
    i + |atoms| <= |s| && forall k :: 0 <= k < |atoms| ==> ReadHas(fold, alnum, atoms[k], s[i + k])
  }

  lemma {:induction false} ChainSource(fold: char -> char, alnum: char -> bool, atoms: seq<Rx>, s: string, i: nat, j: nat)
    requires AllTakeOne(alnum, atoms) && i <= |s|
    ensures j in Ends(fold, Chain(atoms), s, i) <==> j == i + |atoms| && SourceSpells(fold, atoms, s, i)
    decreases |atoms|
  {
    if atoms != [] {
      hide Ends, SourceHas;
      SeqEnds(fold, atoms[0], Chain(atoms[1..]), s, i, j);
      forall m: nat | i <= m <= |s|
        ensures m in Ends(fold, atoms[0], s, i) <==> m == i + 1 && SourceHas(fold, atoms[0], s[i])
        ensures j in Ends(fold, Chain(atoms[1..]), s, m) <==> j == m + |atoms| - 1 && SourceSpells(fold, atoms[1..], s, m)
      {
        SourceEnds(fold, alnum, atoms[0], s, i, m);
        ChainSource(fold, alnum, atoms[1..], s, m, j);
      }
      if i < |s| { SourceSplits(fold, atoms, s, i); }
    }
  }

  lemma SourceSplits(fold: char -> char, atoms: seq<Rx>, s: string, i: nat)
    requires atoms != [] && i < |s|
    ensures SourceSpells(fold, atoms, s, i) <==> SourceHas(fold, atoms[0], s[i]) && SourceSpells(fold, atoms[1..], s, i + 1)
  {
    hide SourceHas;
    if SourceHas(fold, atoms[0], s[i]) && SourceSpells(fold, atoms[1..], s, i + 1) {
      forall k | 0 <= k < |atoms| ensures SourceHas(fold, atoms[k], s[i + k]) {
        if k > 0 { assert atoms[k] == atoms[1..][k - 1] && s[i + k] == s[i + 1 + (k - 1)]; }
      }
    }
    if SourceSpells(fold, atoms, s, i) {
      forall k | 0 <= k < |atoms| - 1 ensures SourceHas(fold, atoms[1..][k], s[i + 1 + k]) {
        assert atoms[1..][k] == atoms[k + 1] && s[i + 1 + k] == s[i + (k + 1)];
      }
    }
  }

  lemma {:induction false} ChainRead(fold: char -> char, alnum: char -> bool, atoms: seq<Rx>, s: string, i: nat, j: nat)
    requires AllTakeOne(alnum, atoms) && Expand(alnum, Chain(atoms)).Some? && i <= |s|
    ensures j in Ends(fold, AsRead(alnum, Chain(atoms)), s, i) <==> j == i + |atoms| && ReadSpells(fold, alnum, atoms, s, i)
    decreases |atoms|
  {
    if atoms != [] {
      assert Expand(alnum, atoms[0]).Some? && Expand(alnum, Chain(atoms[1..])).Some?;
      assert AsRead(alnum, Chain(atoms)) == Seq(AsRead(alnum, atoms[0]), AsRead(alnum, Chain(atoms[1..])));
      hide Ends, ReadHas, AsRead, Expand;
      SeqEnds(fold, AsRead(alnum, atoms[0]), AsRead(alnum, Chain(atoms[1..])), s, i, j);
      forall m: nat | i <= m <= |s|
        ensures m in Ends(fold, AsRead(alnum, atoms[0]), s, i) <==> m == i + 1 && ReadHas(fold, alnum, atoms[0], s[i])
        ensures j in Ends(fold, AsRead(alnum, Chain(atoms[1..])), s, m) <==> j == m + |atoms| - 1 && ReadSpells(fold, alnum, atoms[1..], s, m)
      {
        ReadEnds(fold, alnum, atoms[0], s, i, m);
        ChainRead(fold, alnum, atoms[1..], s, m, j);
      }
      if i < |s| { ReadSplits(fold, alnum, atoms, s, i); }
    }
  }

  lemma ReadSplits(fold: char -> char, alnum: char -> bool, atoms: seq<Rx>, s: string, i: nat)
    requires atoms != [] && i < |s|
    ensures ReadSpells(fold, alnum, atoms, s, i) <==> ReadHas(fold, alnum, atoms[0], s[i]) && ReadSpells(fold, alnum, atoms[1..], s, i + 1)
  {
    hide ReadHas;
    if ReadHas(fold, alnum, atoms[0], s[i]) && ReadSpells(fold, alnum, atoms[1..], s, i + 1) {
      forall k | 0 <= k < |atoms| ensures ReadHas(fold, alnum, atoms[k], s[i + k]) {
        if k > 0 { assert atoms[k] == atoms[1..][k - 1] && s[i + k] == s[i + 1 + (k - 1)]; }
      }
    }
    if ReadSpells(fold, alnum, atoms, s, i) {
      forall k | 0 <= k < |atoms| - 1 ensures ReadHas(fold, alnum, atoms[1..][k], s[i + 1 + k]) {
        assert atoms[1..][k] == atoms[k + 1] && s[i + 1 + k] == s[i + (k + 1)];
      }
    }
  }

  // -------------------------------------------------------------------- what separates

  /** Something is read at every atom. */
  lemma ReadSomething(fold: char -> char, alnum: char -> bool, r: Rx) returns (x: char)
    requires TakesOne(alnum, r)
    ensures ReadHas(fold, alnum, r, x)
  {
    match r
    case Lit(c) => x := c;
    case Escape(c) => x := EscapedChar(c);
    case Hex(hi, lo) => x := ReadHex(hi, lo).value;
    case Class(items) =>
      if ClassLossy(alnum, items) {
        x := ' ';
      } else {
        ListedSome(alnum, items);
        x := Enumerate(alnum, items).value[0];
      }
    case _ => x := ' ';
  }

  lemma {:induction false} ReadString(fold: char -> char, alnum: char -> bool, atoms: seq<Rx>) returns (w: string)
    requires AllTakeOne(alnum, atoms)
    ensures |w| == |atoms| && ReadSpells(fold, alnum, atoms, w, 0)
  {
    w := "";
    for k := 0 to |atoms|
      invariant |w| == k && forall m :: 0 <= m < k ==> ReadHas(fold, alnum, atoms[m], w[m])
    {
      var x := ReadSomething(fold, alnum, atoms[k]);
      w := w + [x];
    }
  }

  /** Where the source takes something at every atom, it spells some string. */
  lemma SourceString(fold: char -> char, atoms: seq<Rx>) returns (w: string)
    requires forall k :: 0 <= k < |atoms| ==> exists x: char :: SourceHas(fold, atoms[k], x)
    ensures |w| == |atoms| && SourceSpells(fold, atoms, w, 0)
  {
    w := "";
    for k := 0 to |atoms|
      invariant |w| == k && forall m :: 0 <= m < k ==> SourceHas(fold, atoms[m], w[m])
    {
      var x: char :| SourceHas(fold, atoms[k], x);
      w := w + [x];
    }
  }

  /** Where atom k takes other characters than are read, some string of just the
      branch's length is spelt by one and not by the other. */
  lemma Separator(fold: char -> char, alnum: char -> bool, atoms: seq<Rx>, k: nat) returns (w: string)
    requires AllTakeOne(alnum, atoms) && k < |atoms| && !Agrees(fold, alnum, atoms[k])
    ensures |w| == |atoms| && SourceSpells(fold, atoms, w, 0) != ReadSpells(fold, alnum, atoms, w, 0)
  {
    hide SourceHas, ReadHas;
    var x: char :| SourceHas(fold, atoms[k], x) != ReadHas(fold, alnum, atoms[k], x);
    w := ReadString(fold, alnum, atoms);
    if !SourceSpells(fold, atoms, w, 0) { return; }
    var u := w[k := x];
    if ReadHas(fold, alnum, atoms[k], x) {
      assert !SourceHas(fold, atoms[k], u[0 + k]);
      forall m | 0 <= m < |atoms| ensures ReadHas(fold, alnum, atoms[m], u[0 + m]) { if m != k { assert u[m] == w[0 + m]; } }
    } else {
      assert !ReadHas(fold, alnum, atoms[k], u[0 + k]);
      forall m | 0 <= m < |atoms| ensures SourceHas(fold, atoms[m], u[0 + m]) { if m != k { assert u[m] == w[0 + m]; } }
    }
    w := u;
  }

  // -------------------------------------------------------------------- the theorem

  lemma {:induction false} ChainHasNoLadder(alnum: char -> bool, atoms: seq<Rx>)
    requires AllTakeOne(alnum, atoms)
    ensures !Narrowed(alnum, Chain(atoms)) && !Chain(atoms).Or?
  {
    if atoms != [] {
      assert !Narrowed(alnum, atoms[0]);
      ChainHasNoLadder(alnum, atoms[1..]);
    }
  }

  /** Found in a string of the branch's own length: spelt by the whole of it. */
  lemma FoundWhole(fold: char -> char, alnum: char -> bool, atoms: seq<Rx>, start: bool, end: bool, w: string)
    requires AllTakeOne(alnum, atoms) && Expand(alnum, Chain(atoms)).Some? && |w| == |atoms|
    ensures BodyFound(fold, start, Chain(atoms), end, w) <==> SourceSpells(fold, atoms, w, 0)
    ensures BodyFound(fold, start, AsRead(alnum, Chain(atoms)), end, w) <==> ReadSpells(fold, alnum, atoms, w, 0)
  {
    hide Ends, SourceSpells, ReadSpells, Expand, AsRead, Chain;
    forall i: nat, j: nat | Window(w, start, end, i, j)
      ensures j in Ends(fold, Chain(atoms), w, i) <==> i == 0 && j == |w| && SourceSpells(fold, atoms, w, 0)
      ensures j in Ends(fold, AsRead(alnum, Chain(atoms)), w, i) <==> i == 0 && j == |w| && ReadSpells(fold, alnum, atoms, w, 0)
    {
      ChainSource(fold, alnum, atoms, w, i, j);
      ChainRead(fold, alnum, atoms, w, i, j);
    }
    assert Window(w, start, end, 0, |w|);
  }

  lemma AgreeEverywhere(fold: char -> char, alnum: char -> bool, atoms: seq<Rx>, start: bool, end: bool, s: string)
    requires AllTakeOne(alnum, atoms) && Expand(alnum, Chain(atoms)).Some?
    requires forall k :: 0 <= k < |atoms| ==> Agrees(fold, alnum, atoms[k])
    ensures BodyFound(fold, start, Chain(atoms), end, s) <==> BodyFound(fold, start, AsRead(alnum, Chain(atoms)), end, s)
  {
    hide Ends, SourceHas, ReadHas, Expand, AsRead, Chain;
    forall i: nat, j: nat | Window(s, start, end, i, j)
      ensures j in Ends(fold, Chain(atoms), s, i) <==> j in Ends(fold, AsRead(alnum, Chain(atoms)), s, i)
    {
      ChainSource(fold, alnum, atoms, s, i, j);
      ChainRead(fold, alnum, atoms, s, i, j);
    }
  }

  /** For every accepted text of one branch of single characters, escapes, dots and
      classes, lossy or not: the emitted values match exactly the strings the source
      finds, if and only if every atom is read with the characters the source
      takes there. */
  lemma ClassBranchExactly(fold: char -> char, alnum: char -> bool, text: string, atoms: seq<Rx>)
    requires KnowsAscii(alnum) && Translate(alnum, text).Some?
    requires TreeOf(alnum, text) == Chain(atoms) && AllTakeOne(alnum, atoms)
    ensures (forall s :: Found(fold, SourceTree(alnum, text), s) <==> Emitted(fold, alnum, text, s))
            <==> forall k :: 0 <= k < |atoms| ==> Agrees(fold, alnum, atoms[k])
  {
    var src := ReadSource(text);
    hide *;
    forall s
      ensures Found(fold, SourceTree(alnum, text), s) <==> BodyFound(fold, src.start, Chain(atoms), src.end, s)
      ensures Emitted(fold, alnum, text, s) <==> BodyFound(fold, src.start, AsRead(alnum, Chain(atoms)), src.end, s)
    {
      FoundAsSpelt(fold, alnum, text, atoms, s);
    }
    FoundAsSpelt(fold, alnum, text, atoms, "");
    if forall k :: 0 <= k < |atoms| ==> Agrees(fold, alnum, atoms[k]) {
      forall s ensures Found(fold, SourceTree(alnum, text), s) <==> Emitted(fold, alnum, text, s) {
        AgreeEverywhere(fold, alnum, atoms, src.start, src.end, s);
      }
    }
    if k :| 0 <= k < |atoms| && !Agrees(fold, alnum, atoms[k]) {
      var w := Separator(fold, alnum, atoms, k);
      FoundWhole(fold, alnum, atoms, src.start, src.end, w);
    }
  }

  lemma FoundAsSpelt(fold: char -> char, alnum: char -> bool, text: string, atoms: seq<Rx>, s: string)
    requires KnowsAscii(alnum) && Translate(alnum, text).Some?
    requires TreeOf(alnum, text) == Chain(atoms) && AllTakeOne(alnum, atoms)
    ensures var src := ReadSource(text);
            && (Found(fold, SourceTree(alnum, text), s) <==> BodyFound(fold, src.start, Chain(atoms), src.end, s))
            && (Emitted(fold, alnum, text, s) <==> BodyFound(fold, src.start, AsRead(alnum, Chain(atoms)), src.end, s))
            && Expand(alnum, Chain(atoms)).Some?
  {
    var src := ReadSource(text);
    ChainHasNoLadder(alnum, atoms);
    TranslateEmits(alnum, text);
    hide Found, Emitted, BodyFound, AsRead, Chain, AllTakeOne;
    AnchoredFound(fold, alnum, src.start, Chain(atoms), src.end, s);
    EmittedExactly(fold, alnum, text, s);
  }

  // ------------------------------------------------------------- when a class agrees

  /** The items of a class, after the sign that negates it. */
  function Items(items: string): seq<ClassItem> {
    if items != "" && items[0] == '^' then ClassItems(items, 1) else ClassItems(items, 0)
  }

  predicate InItem(item: ClassItem, x: char) {
    match item case Range(lo, hi) => lo <= x <= hi case AnyOf(c) => ShorthandHas(c, x)
  }

  /** Folding case does not lead into a shorthand's set or out of it. */
  ghost predicate KeepsSets(fold: char -> char) {
    forall x: char, y: char :: fold(x) == fold(y) ==> forall c: char :: ShorthandHas(c, x) <==> ShorthandHas(c, y)
  }

  /** Every character that an item spans is listed, and every listed character lies
      in an item. */
  ghost predicate ListedRight(fold: char -> char, alnum: char -> bool, items: string)
    requires !ClassLossy(alnum, items)
  {
    var members := Enumerate(alnum, items).value;
    && (forall k, x :: 0 <= k < |Items(items)| && InItem(Items(items)[k], x) ==> SomeMember(fold, members, x))
    && forall m :: m in members ==> SomeItemHas(fold, Items(items), m)
  }

  lemma ItemCloses(fold: char -> char, item: ClassItem, x: char, y: char)
    requires KeepsSets(fold) && fold(x) == fold(y)
    ensures ItemHas(fold, item, x) <==> ItemHas(fold, item, y)
    ensures InItem(item, x) ==> ItemHas(fold, item, x)
  {}

  /** A listed class is read as the class it is exactly when it is listed right. */
  lemma ListedExactly(fold: char -> char, alnum: char -> bool, items: string)
    requires KeepsSets(fold) && items != "" && !ClassLossy(alnum, items)
    ensures Agrees(fold, alnum, Class(items)) <==> ListedRight(fold, alnum, items)
  {
    var all, members := Items(items), Enumerate(alnum, items).value;
    hide Items, Enumerate, InItem, ItemHas, KeepsSets, ClassItems;
    forall x: char ensures SourceHas(fold, Class(items), x) <==> SomeItemHas(fold, all, x) { ClassIsItems(fold, items, x); }
    forall x: char ensures ReadHas(fold, alnum, Class(items), x) <==> SomeMember(fold, members, x) {}
    forall k, x | 0 <= k < |all| && InItem(all[k], x) ensures SomeItemHas(fold, all, x) { ItemCloses(fold, all[k], x, x); }
    forall m | m in members ensures SomeMember(fold, members, m) {
      var k :| 0 <= k < |members| && members[k] == m;
    }
    if ListedRight(fold, alnum, items) {
      forall x: char ensures SomeItemHas(fold, all, x) <==> SomeMember(fold, members, x) {
        if k :| 0 <= k < |members| && fold(members[k]) == fold(x) {
          assert members[k] in members;
          var n :| 0 <= n < |all| && ItemHas(fold, all[n], members[k]);
          ItemCloses(fold, all[n], members[k], x);
        }
        if n :| 0 <= n < |all| && ItemHas(fold, all[n], x) {
          var y := InItemFolded(fold, all[n], x);
          assert InItem(all[n], y);
          assert SomeMember(fold, members, y);
        }
      }
    }
  }

  lemma ClassIsItems(fold: char -> char, items: string, x: char)
    requires items != "" && items[0] != '^'
    ensures SourceHas(fold, Class(items), x) <==> SomeItemHas(fold, Items(items), x)
  {}

  lemma InItemFolded(fold: char -> char, item: ClassItem, x: char) returns (y: char)
    requires ItemHas(fold, item, x)
    ensures InItem(item, y) && fold(y) == fold(x)
  {
    match item
    case Range(lo, hi) => y :| lo <= y <= hi && fold(y) == fold(x);
    case AnyOf(_) => y := x;
  }

  /** Of the other atoms, only the escapes that stand for a set are misread. */
  lemma AtomExactly(fold: char -> char, alnum: char -> bool, r: Rx)
    requires TakesOne(alnum, r) && !r.Class? && KeepsLineFeed(fold)
    ensures Agrees(fold, alnum, r) <==> !(r.Escape? && IsSetEscape(r.c))
  {
    if r.Escape? && IsSetEscape(r.c) {
      var x := if r.c == 'v' then LINE_FEED else if r.c in "sdW" then 'a' else if r.c == 'D' then '0' else ' ';
      assert SourceHas(fold, r, x) != ReadHas(fold, alnum, r, x);
    }
  }
}
