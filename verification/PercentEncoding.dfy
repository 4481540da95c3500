/** Percent-encoding as the rule compiler applies it to match values.

    Go strings are byte strings, so a value of characters is first spelled as
    UTF-8 bytes; every byte outside the unreserved set of section 2.3 of
    RFC 3986 is then written as a percent triplet (section 2.1).
 */
module PercentEncoding {

  type Byte = b: int | 0 <= b < 256

  const PERCENT: Byte := 37
  const PLUS: Byte := 43
  const SPACE: Byte := 32

  // ------------------------------------------------------------------ bytes

  predicate IsUnreserved(b: Byte) {
    65 <= b <= 90 || 97 <= b <= 122 || 48 <= b <= 57 || b == 95 || b == 46 || b == 45 || b == 126
  }

  function HexDigit(n: int): (d: Byte)
    requires 0 <= n < 16
    ensures IsUnreserved(d) && d != PERCENT && d != PLUS && !(97 <= d <= 102)
    ensures HexValue(d) == n
  {
    if n < 10 then 48 + n else 55 + n
  }

  /** The value of a hexadecimal digit in either case, or -1. */
  function HexValue(b: Byte): (n: int)
    ensures -1 <= n < 16
  {
    if 48 <= b <= 57 then b - 48
    else if 65 <= b <= 70 then b - 55
    else if 97 <= b <= 102 then b - 87
    else -1
  }

  function QuoteByte(b: Byte): seq<Byte> {
    if IsUnreserved(b) then [b] else [PERCENT, HexDigit(b / 16), HexDigit(b % 16)]
  }

  function Quote(v: seq<Byte>): seq<Byte> {
    if v == [] then [] else QuoteByte(v[0]) + Quote(v[1..])
  }

  lemma QuoteSnoc(v: seq<Byte>, b: Byte)
    ensures Quote(v + [b]) == Quote(v) + QuoteByte(b)
  {
    if v == [] {
      assert [b][1..] == [];
      assert Quote([b]) == QuoteByte(b) + Quote([]);
    } else {
      assert (v + [b])[1..] == v[1..] + [b];
      QuoteSnoc(v[1..], b);
    }
  }

  /** The loop of `quoteAll`. */
  method QuoteLoop(v: seq<Byte>) returns (out: seq<Byte>)
    ensures out == Quote(v)
  {
    out := [];
    for i := 0 to |v|
      invariant out == Quote(v[..i])
    {
      assert v[..i + 1] == v[..i] + [v[i]];
      QuoteSnoc(v[..i], v[i]);
      if IsUnreserved(v[i]) {
        out := out + [v[i]];
      } else {
        out := out + [PERCENT, HexDigit(v[i] / 16), HexDigit(v[i] % 16)];
      }
    }
    assert v[..|v|] == v;
  }

  predicate IsTriplet(s: seq<Byte>) {
    |s| >= 3 && s[0] == PERCENT && HexValue(s[1]) >= 0 && HexValue(s[2]) >= 0
  }

  /** Percent-decoding, section 2.1 of RFC 3986; other bytes stand for themselves. */
  function Unquote(s: seq<Byte>): seq<Byte> {
    if s == [] then []
    else if IsTriplet(s) then [HexValue(s[1]) * 16 + HexValue(s[2])] + Unquote(s[3..])
    else [s[0]] + Unquote(s[1..])
  }

  lemma {:induction false} UnquoteQuote(v: seq<Byte>)
    ensures Unquote(Quote(v)) == v
  {
    if v != [] {
      var b, rest := v[0], Quote(v[1..]);
      UnquoteQuote(v[1..]);
      if IsUnreserved(b) {
        assert Quote(v)[1..] == rest;
      } else {
        assert Quote(v)[3..] == rest;
        assert IsTriplet(Quote(v));
        assert HexValue(Quote(v)[1]) * 16 + HexValue(Quote(v)[2]) == b;
      }
      assert v == [b] + v[1..];
    }
  }

  // --------------------------------------------------------------- iterates

  function QuoteTimes(v: seq<Byte>, k: nat): seq<Byte> {
    if k == 0 then v else Quote(QuoteTimes(v, k - 1))
  }

  function UnquoteTimes(s: seq<Byte>, k: nat): seq<Byte>
    decreases k
  {
    if k == 0 then s else UnquoteTimes(Unquote(s), k - 1)
  }

  /** Decoding k times undoes encoding k times, on every byte string. */
  lemma {:induction false} UnquoteTimesUndoes(v: seq<Byte>, k: nat)
    ensures UnquoteTimes(QuoteTimes(v, k), k) == v
  {
    if k > 0 {
      UnquoteQuote(QuoteTimes(v, k - 1));
      UnquoteTimesUndoes(v, k - 1);
    }
  }

  function ReservedCount(v: seq<Byte>): nat {
    if v == [] then 0 else (if IsUnreserved(v[0]) then 0 else 1) + ReservedCount(v[1..])
  }

  lemma {:induction false} ReservedCountAppend(u: seq<Byte>, v: seq<Byte>)
    ensures ReservedCount(u + v) == ReservedCount(u) + ReservedCount(v)
  {
    if u == [] {
      assert u + v == v;
    } else {
      assert (u + v)[1..] == u[1..] + v;
      ReservedCountAppend(u[1..], v);
    }
  }

  /** One encoding adds two bytes per reserved byte and keeps their number:
      the percent signs it writes are themselves reserved. */
  lemma {:induction false} QuoteGrowth(v: seq<Byte>)
    ensures |Quote(v)| == |v| + 2 * ReservedCount(v)
    ensures ReservedCount(Quote(v)) == ReservedCount(v)
  {
    if v != [] {
      QuoteGrowth(v[1..]);
      var q := QuoteByte(v[0]);
      ReservedCountAppend(q, Quote(v[1..]));
      if IsUnreserved(v[0]) {
        assert ReservedCount(q) == 0 + ReservedCount(q[1..]);
      } else {
        assert q[1..][1..] == [q[2]];
        assert ReservedCount(q) == 1 + ReservedCount(q[1..]) == 1 + ReservedCount([q[2]]) == 1;
      }
    }
  }

  lemma OneMore(k: nat, r: nat)
    requires k > 0
    ensures 2 * (k - 1) * r + 2 * r == 2 * k * r
  {}

  /** The k-th encoding has length |v| + 2kr, with r the reserved bytes of v. */
  lemma {:induction false} QuoteTimesLength(v: seq<Byte>, k: nat)
    ensures |QuoteTimes(v, k)| == |v| + 2 * k * ReservedCount(v)
    ensures ReservedCount(QuoteTimes(v, k)) == ReservedCount(v)
  {
    if k > 0 {
      QuoteTimesLength(v, k - 1);
      QuoteGrowth(QuoteTimes(v, k - 1));
      OneMore(k, ReservedCount(v));
    }
  }

  // --------------------------------------------------------------- + form

  predicate IsEncodedSpace(s: seq<Byte>) {
    |s| >= 3 && s[0] == PERCENT && s[1] == 50 && s[2] == 48
  }

  /** `strings.ReplaceAll(s, "%20", "+")`: left to right, without overlap. */
  function SpacesToPlus(s: seq<Byte>): seq<Byte> {
    if s == [] then []
    else if IsEncodedSpace(s) then [PLUS] + SpacesToPlus(s[3..])
    else [s[0]] + SpacesToPlus(s[1..])
  }

  function QuotePlus(v: seq<Byte>): seq<Byte> {
    SpacesToPlus(Quote(v))
  }

  /** Form decoding: a plus sign is a space, triplets are bytes. */
  function UnquotePlus(s: seq<Byte>): seq<Byte> {
    if s == [] then []
    else if s[0] == PLUS then [SPACE] + UnquotePlus(s[1..])
    else if IsTriplet(s) then [HexValue(s[1]) * 16 + HexValue(s[2])] + UnquotePlus(s[3..])
    else [s[0]] + UnquotePlus(s[1..])
  }

  lemma SpacesToPlusSkips(s: seq<Byte>)
    requires |s| >= 1 && s[0] != PERCENT
    ensures SpacesToPlus(s) == [s[0]] + SpacesToPlus(s[1..])
  {}

  /** Form decoding undoes the plus form: a literal plus was already escaped,
      so replacing `%20` cannot collide with one. */
  lemma {:induction false} UnquotePlusUndoes(v: seq<Byte>)
    ensures UnquotePlus(QuotePlus(v)) == v
  {
    if v != [] {
      var b, q, rest := v[0], Quote(v), Quote(v[1..]);
      UnquotePlusUndoes(v[1..]);
      var tail := SpacesToPlus(rest);
      if IsUnreserved(b) {
        assert q[1..] == rest;
        assert SpacesToPlus(q) == [b] + tail;
        assert ([b] + tail)[1..] == tail;
      } else if b == SPACE {
        assert q[3..] == rest && IsEncodedSpace(q);
        assert SpacesToPlus(q) == [PLUS] + tail;
        assert ([PLUS] + tail)[1..] == tail;
      } else {
        assert q[1..][1..][1..] == rest;
        assert !IsEncodedSpace(q) by { assert HexValue(q[1]) * 16 + HexValue(q[2]) == b; }
        SpacesToPlusSkips(q[1..]);
        SpacesToPlusSkips(q[1..][1..]);
        var out := [q[0], q[1], q[2]] + tail;
        assert SpacesToPlus(q) == [q[0]] + ([q[1]] + ([q[2]] + tail)) == out;
        assert out[3..] == tail && IsTriplet(out);
        assert HexValue(q[1]) * 16 + HexValue(q[2]) == b;
      }
      assert v == [b] + v[1..];
    }
  }

  /** Form encoding, byte by byte: a space is a plus sign. */
  function PlusForm(v: seq<Byte>): seq<Byte> {
    if v == [] then [] else (if v[0] == SPACE then [PLUS] else QuoteByte(v[0])) + PlusForm(v[1..])
  }

  /** Replacing `%20` after quoting is form encoding: no other byte's triplet is
      touched, nor any that lies across two. */
  lemma {:induction false} PlusIsForm(v: seq<Byte>)
    ensures QuotePlus(v) == PlusForm(v)
  {
    if v != [] {
      var b, q, rest := v[0], Quote(v), Quote(v[1..]);
      PlusIsForm(v[1..]);
      if IsUnreserved(b) {
        assert q[1..] == rest;
      } else if b == SPACE {
        assert q[3..] == rest && IsEncodedSpace(q);
      } else {
        assert q[1..][1..][1..] == rest;
        assert !IsEncodedSpace(q) by { assert HexValue(q[1]) * 16 + HexValue(q[2]) == b; }
        SpacesToPlusSkips(q[1..]);
        SpacesToPlusSkips(q[1..][1..]);
        assert SpacesToPlus(q) == [q[0]] + ([q[1]] + ([q[2]] + SpacesToPlus(rest)));
      }
    }
  }

  // ---------------------------------------------------------------- strings

  function Utf8Char(c: char): (bytes: seq<Byte>)
    ensures 1 <= |bytes| <= 4
    ensures (c as int) < 128 ==> bytes == [c as int]
    ensures (c as int) >= 128 ==> forall b :: b in bytes ==> b >= 128
  {
    var n := c as int;
    if n < 0x80 then [n]
    else if n < 0x800 then [0xC0 + n / 64, 0x80 + n % 64]
    else if n < 0x1_0000 then [0xE0 + n / 4096, 0x80 + n / 64 % 64, 0x80 + n % 64]
    else [0xF0 + n / 262144, 0x80 + n / 4096 % 64, 0x80 + n / 64 % 64, 0x80 + n % 64]
  }

  function Utf8(s: string): seq<Byte> {
    if s == [] then [] else Utf8Char(s[0]) + Utf8(s[1..])
  }

  predicate Ascii(s: seq<Byte>) {
    forall i :: 0 <= i < |s| ==> s[i] < 128
  }

  function AsciiText(s: seq<Byte>): (t: string)
    requires Ascii(s)
    ensures |t| == |s|
  {
    seq(|s|, i requires 0 <= i < |s| => s[i] as char)
  }

  lemma {:induction false} Utf8OfAscii(s: seq<Byte>)
    requires Ascii(s)
    ensures Utf8(AsciiText(s)) == s
  {
    if s != [] {
      assert AsciiText(s)[1..] == AsciiText(s[1..]);
      Utf8OfAscii(s[1..]);
    }
  }

  lemma {:induction false} QuoteIsAscii(v: seq<Byte>)
    ensures Ascii(Quote(v))
    ensures Ascii(QuotePlus(v))
    ensures forall i :: 0 <= i < |Quote(v)| ==> IsUnreserved(Quote(v)[i]) || Quote(v)[i] == PERCENT
  {
    QuoteBytesKnown(v);
    PlusKeepsAscii(Quote(v));
  }

  lemma {:induction false} QuoteBytesKnown(v: seq<Byte>)
    ensures forall i :: 0 <= i < |Quote(v)| ==> IsUnreserved(Quote(v)[i]) || Quote(v)[i] == PERCENT
  {
    if v != [] {
      QuoteBytesKnown(v[1..]);
    }
  }

  lemma {:induction false} PlusKeepsAscii(s: seq<Byte>)
    requires Ascii(s)
    ensures Ascii(SpacesToPlus(s))
    decreases |s|
  {
    if s != [] {
      if IsEncodedSpace(s) {
        PlusKeepsAscii(s[3..]);
      } else {
        PlusKeepsAscii(s[1..]);
      }
    }
  }

  /** `quoteAll` on text. */
  function QuoteAll(v: string): string {
    QuoteIsAscii(Utf8(v));
    AsciiText(Quote(Utf8(v)))
  }

  /** `quotePlusAll` on text. */
  function QuotePlusAll(v: string): string {
    QuoteIsAscii(Utf8(v));
    AsciiText(QuotePlus(Utf8(v)))
  }

  function QuoteAllTimes(v: string, k: nat): string {
    if k == 0 then v else QuoteAll(QuoteAllTimes(v, k - 1))
  }

  lemma {:induction false} QuoteAllTimesBytes(v: string, k: nat)
    ensures Utf8(QuoteAllTimes(v, k)) == QuoteTimes(Utf8(v), k)
  {
    if k > 0 {
      QuoteAllTimesBytes(v, k - 1);
      QuoteIsAscii(Utf8(QuoteAllTimes(v, k - 1)));
      Utf8OfAscii(Quote(Utf8(QuoteAllTimes(v, k - 1))));
    }
  }

  lemma Utf8NonEmpty(v: string)
    ensures |Utf8(v)| >= |v|
  {}

  lemma QuoteAllNonEmpty(v: string)
    requires v != ""
    ensures QuoteAll(v) != ""
  {
    Utf8NonEmpty(v);
    QuoteGrowth(Utf8(v));
  }

  lemma QuotePlusNonEmpty(v: string)
    requires v != ""
    ensures QuotePlusAll(v) != ""
  {
    Utf8NonEmpty(v);
    UnquotePlusUndoes(Utf8(v));
    assert QuotePlus(Utf8(v)) != [];
  }

  /** The first character of a text can be read off its bytes. */
  function FirstChar(bytes: seq<Byte>): int {
    if |bytes| < 1 then -1
    else if bytes[0] < 0x80 then bytes[0]
    else if bytes[0] < 0xE0 then if |bytes| < 2 then -1 else Weighed(bytes[0], 0xC0, 64) + Weighed(bytes[1], 0x80, 1)
    else if bytes[0] < 0xF0 then if |bytes| < 3 then -1 else Weighed(bytes[0], 0xE0, 4096) + Weighed(bytes[1], 0x80, 64) + Weighed(bytes[2], 0x80, 1)
    else if |bytes| < 4 then -1
    else Weighed(bytes[0], 0xF0, 262144) + Weighed(bytes[1], 0x80, 4096) + Weighed(bytes[2], 0x80, 64) + Weighed(bytes[3], 0x80, 1)
  }

  function Weighed(b: int, mark: int, weight: int): int { (b - mark) * weight }

  lemma FirstCharOf(c: char, rest: seq<Byte>)
    ensures FirstChar(Utf8Char(c) + rest) == c as int
  {
    var n, bytes := c as int, Utf8Char(c) + rest;
    forall k | 0 <= k < |Utf8Char(c)| ensures bytes[k] == Utf8Char(c)[k] {}
    if n < 0x80 {
    } else if n < 0x800 {
      assert n == n / 64 * 64 + n % 64;
    } else if n < 0x1_0000 {
      assert n / 64 / 64 == n / 4096;
      assert n == n / 4096 * 4096 + n / 64 % 64 * 64 + n % 64;
    } else {
      assert n / 64 / 64 == n / 4096 && n / 4096 / 64 == n / 262144;
      assert n == n / 262144 * 262144 + n / 4096 % 64 * 4096 + n / 64 % 64 * 64 + n % 64;
    }
  }

  /** Different texts have different bytes. */
  lemma {:induction false} Utf8Apart(s: string, t: string)
    requires Utf8(s) == Utf8(t)
    ensures s == t
  {
    if s == "" || t == "" {
      Utf8NonEmpty(s);
      Utf8NonEmpty(t);
    } else {
      FirstCharOf(s[0], Utf8(s[1..]));
      FirstCharOf(t[0], Utf8(t[1..]));
      assert s[0] == t[0];
      var n := |Utf8Char(s[0])|;
      assert Utf8(s)[n..] == Utf8(s[1..]) && Utf8(t)[n..] == Utf8(t[1..]);
      Utf8Apart(s[1..], t[1..]);
      assert s == [s[0]] + s[1..] && t == [t[0]] + t[1..];
    }
  }

  // ---------------------------------------------------- ordered duplicates

  /** `uniqueStrings` / `uniqueRunes`: first occurrences, in order. */
  function Unique<T(==,!new)>(values: seq<T>): (out: seq<T>)
    ensures forall x :: x in out <==> x in values
    ensures |out| <= |values|
    ensures forall i, j :: 0 <= i < j < |out| ==> out[i] != out[j]
  {
    if values == [] then []
    else
      var last := values[|values| - 1];
      var front := Unique(values[..|values| - 1]);
      assert forall x :: x in values <==> x in values[..|values| - 1] || x == last;
      if last in front then front else front + [last]
  }

  /** Where a member first occurs. */
  function FirstAt<T(==)>(values: seq<T>, x: T): (i: nat)
    requires x in values
    ensures i < |values| && values[i] == x && x !in values[..i]
  {
    if values[0] == x then 0 else 1 + FirstAt(values[1..], x)
  }

  lemma {:induction false} FirstIs<T>(values: seq<T>, x: T, i: nat)
    requires i < |values| && values[i] == x && x !in values[..i]
    ensures FirstAt(values, x) == i
  {
    if i > 0 {
      assert values[..i][0] == values[0];
      assert values[..i] == [values[0]] + values[1..][..i - 1];
      FirstIs(values[1..], x, i - 1);
    }
  }

  /** The members stand in the order of their first occurrences. */
  lemma {:induction false} UniqueInOrder<T(!new)>(values: seq<T>)
    ensures var out := Unique(values);
            forall i, j :: 0 <= i < j < |out| ==> FirstAt(values, out[i]) < FirstAt(values, out[j])
  {
    if values != [] {
      var n := |values| - 1;
      var front, last, out := values[..n], values[n], Unique(values);
      UniqueInOrder(front);
      forall x | x in front ensures FirstAt(values, x) == FirstAt(front, x) {
        var k := FirstAt(front, x);
        assert values[..k] == front[..k] && values[k] == front[k];
        FirstIs(values, x, k);
      }
      if last !in front { FirstIs(values, last, n); }
      forall i, j | 0 <= i < j < |out| ensures FirstAt(values, out[i]) < FirstAt(values, out[j]) {
        assert out[i] in Unique(front);
      }
    }
  }

  method UniqueLoop<T(==,!new)>(values: seq<T>) returns (out: seq<T>)
    ensures out == Unique(values)
  {
    var seen: set<T> := {};
    out := [];
    for i := 0 to |values|
      invariant out == Unique(values[..i])
      invariant forall x :: x in seen <==> x in out
    {
      assert values[..i + 1][..i] == values[..i];
      if values[i] !in seen {
        seen := seen + {values[i]};
        out := out + [values[i]];
      }
    }
    assert values[..|values|] == values;
  }

  // ----------------------------------------------------- transport variants

  function Variants(value: string): seq<string> {
    [value, QuoteAll(value), QuotePlusAll(value), QuoteAll(QuoteAll(value))]
  }

  function AllVariants(values: seq<string>): seq<string> {
    if values == [] then [] else AllVariants(values[..|values| - 1]) + Variants(values[|values| - 1])
  }

  function EncodingVariants(values: seq<string>): seq<string> {
    Unique(AllVariants(values))
  }

  method EncodingVariantsLoop(values: seq<string>) returns (variants: seq<string>)
    ensures variants == EncodingVariants(values)
  {
    variants := [];
    for i := 0 to |values|
      invariant variants == AllVariants(values[..i])
    {
      assert values[..i + 1][..i] == values[..i];
      var encodedOnce := QuoteAll(values[i]);
      variants := variants + [values[i], encodedOnce, QuotePlusAll(values[i]), QuoteAll(encodedOnce)];
    }
    assert values[..|values|] == values;
    variants := UniqueLoop(variants);
  }

  /** What it means for an observed text to be a transport form of a value. */
  predicate DecodesTo(observed: string, value: string) {
    || Utf8(observed) == Utf8(value)
    || Unquote(Utf8(observed)) == Utf8(value)
    || UnquotePlus(Utf8(observed)) == Utf8(value)
    || UnquoteTimes(Utf8(observed), 2) == Utf8(value)
  }

  lemma VariantsDecode(value: string, w: string)
    requires w in Variants(value)
    ensures DecodesTo(w, value)
    ensures value != "" ==> w != ""
  {
    var bytes := Utf8(value);
    QuoteIsAscii(bytes);
    if w == Variants(value)[1] {
      Utf8OfAscii(Quote(bytes));
      UnquoteQuote(bytes);
      if value != "" { QuoteAllNonEmpty(value); }
    } else if w == Variants(value)[2] {
      Utf8OfAscii(QuotePlus(bytes));
      UnquotePlusUndoes(bytes);
      if value != "" { QuotePlusNonEmpty(value); }
    } else if w == Variants(value)[3] {
      assert w == QuoteAllTimes(value, 2) by {
        assert QuoteAllTimes(value, 1) == QuoteAll(QuoteAllTimes(value, 0));
      }
      QuoteAllTimesBytes(value, 2);
      UnquoteTimesUndoes(bytes, 2);
      if value != "" {
        QuoteAllNonEmpty(value);
        QuoteAllNonEmpty(QuoteAll(value));
      }
    }
  }

  /** The four forms of a value: itself, quoted, form-encoded, and quoted twice. */
  lemma FormsOf(value: string, w: string)
    ensures w in Variants(value) <==>
            || w == value || Utf8(w) == Quote(Utf8(value)) || Utf8(w) == PlusForm(Utf8(value)) || Utf8(w) == QuoteTimes(Utf8(value), 2)
  {
    var bytes := Utf8(value);
    QuoteIsAscii(bytes);
    Utf8OfAscii(Quote(bytes));
    Utf8OfAscii(QuotePlus(bytes));
    PlusIsForm(bytes);
    assert QuoteAllTimes(value, 1) == QuoteAll(QuoteAllTimes(value, 0));
    assert QuoteAllTimes(value, 2) == QuoteAll(QuoteAll(value));
    QuoteAllTimesBytes(value, 2);
    hide Utf8, Quote, PlusForm, QuotePlus, QuoteTimes, QuoteAllTimes, QuoteAll, QuotePlusAll;
    OneText(value, w);
  }

  lemma OneText(value: string, w: string)
    requires Utf8(QuoteAll(value)) == Quote(Utf8(value)) && Utf8(QuotePlusAll(value)) == PlusForm(Utf8(value))
    requires Utf8(QuoteAll(QuoteAll(value))) == QuoteTimes(Utf8(value), 2)
    ensures w in Variants(value) <==>
            || w == value || Utf8(w) == Quote(Utf8(value)) || Utf8(w) == PlusForm(Utf8(value)) || Utf8(w) == QuoteTimes(Utf8(value), 2)
  {
    hide Utf8, Quote, PlusForm, QuoteTimes, QuoteAll, QuotePlusAll;
    forall t | Utf8(w) == Utf8(t) ensures w == t { Utf8Apart(w, t); }
  }

  /** `w` is a transport form of one of the values. */
  ghost predicate ComesFrom(w: string, values: seq<string>) {
    exists i :: 0 <= i < |values| && w in Variants(values[i])
  }

  lemma {:induction false} AllVariantsOrigin(values: seq<string>, w: string)
    ensures w in AllVariants(values) <==> ComesFrom(w, values)
  {
    hide Variants;
    if values != [] {
      var n := |values| - 1;
      AllVariantsOrigin(values[..n], w);
      if ComesFrom(w, values) && w !in Variants(values[n]) {
        var i :| 0 <= i < |values| && w in Variants(values[i]);
        assert values[..n][i] == values[i];
      }
      if ComesFrom(w, values[..n]) {
        var i :| 0 <= i < n && w in Variants(values[..n][i]);
        assert values[i] == values[..n][i];
      }
    }
  }

  lemma {:induction false} AllVariantsCount(values: seq<string>)
    ensures |AllVariants(values)| == 4 * |values|
  {
    if values != [] {
      AllVariantsCount(values[..|values| - 1]);
    }
  }

  /** Every value is kept, and there are at most four variants per value, none
      of them twice. */
  lemma EncodingVariantsKeep(values: seq<string>)
    ensures forall i :: 0 <= i < |values| ==> values[i] in EncodingVariants(values)
    ensures |EncodingVariants(values)| <= 4 * |values|
    ensures forall i, j :: 0 <= i < j < |EncodingVariants(values)| ==>
              EncodingVariants(values)[i] != EncodingVariants(values)[j]
  {
    AllVariantsCount(values);
    forall i | 0 <= i < |values| ensures values[i] in EncodingVariants(values)
    {
      assert Variants(values[i])[0] == values[i];
      AllVariantsOrigin(values, values[i]);
    }
  }

  /** Every emitted variant decodes back to one of the values. */
  lemma EncodingVariantsDecode(values: seq<string>, w: string) returns (i: nat)
    requires w in EncodingVariants(values)
    ensures i < |values| && DecodesTo(w, values[i])
    ensures values[i] != "" ==> w != ""
  {
    AllVariantsOrigin(values, w);
    i :| 0 <= i < |values| && w in Variants(values[i]);
    VariantsDecode(values[i], w);
  }
}
