/** Lease timestamps are stored and compared as text.  The layout has fixed
    widths, so text order is time order. */
module Timestamps {

  datatype Stamp = Stamp(year: nat, month: nat, day: nat, hour: nat, minute: nat, second: nat, micro: nat)

  predicate Valid(t: Stamp) {
    && 1 <= t.month <= 12 && 1 <= t.day <= 31
    && t.hour < 24 && t.minute < 60 && t.second < 60 && t.micro < 1_000_000
  }

  /** Byte-wise text order: SQLite's binary collation. */
  predicate TextLess(a: string, b: string) {
    if b == "" then false
    else if a == "" then true
    else a[0] < b[0] || (a[0] == b[0] && TextLess(a[1..], b[1..]))
  }

  function Pow10(w: nat): (p: nat)
    ensures p >= 1
  {
    if w == 0 then 1 else 10 * Pow10(w - 1)
  }

  function Digit(d: nat): char
    requires d < 10
  {
    (48 + d) as char
  }

  /** n in decimal, padded with zeros to width w. */
  function Digits(n: nat, w: nat): (s: string)
    requires n < Pow10(w)
    ensures |s| == w
    decreases w
  {
    if w == 0 then "" else Digits(n / 10, w - 1) + [Digit(n % 10)]
  }

  /** Decimal digits a year needs, at least four. */
  function YearWidth(y: nat): (w: nat)
    ensures w >= 4 && y < Pow10(w)
    ensures y < 10_000 ==> w == 4
  {
    FourDigits();
    if y < 10_000 then 4 else WidthFrom(y, 4)
  }

  lemma FourDigits()
    ensures Pow10(4) == 10_000 && Pow10(2) == 100 && Pow10(6) == 1_000_000
  {
    assert Pow10(1) == 10;
    assert Pow10(2) == 100;
    assert Pow10(3) == 1000;
    assert Pow10(4) == 10_000;
    assert Pow10(5) == 100_000;
  }

  function WidthFrom(y: nat, w: nat): (r: nat)
    ensures r >= w && y < Pow10(r)
    decreases y - Pow10(w)
  {
    if y < Pow10(w) then w else WidthFrom(y, w + 1)
  }

  /** Layout `2006-01-02T15:04:05.000000Z`. */
  function Format(t: Stamp): string
    requires Valid(t)
  {
    FourDigits();
    Digits(t.year, YearWidth(t.year)) +
    ("-" + (Digits(t.month, 2) + ("-" + (Digits(t.day, 2) + ("T" + (Digits(t.hour, 2) + (":" +
    (Digits(t.minute, 2) + (":" + (Digits(t.second, 2) + ("." + (Digits(t.micro, 6) + "Z"))))))))))))
  }

  /** Calendar order. */
  predicate Before(a: Stamp, b: Stamp) {
    a.year < b.year || (a.year == b.year && (
    a.month < b.month || (a.month == b.month && (
    a.day < b.day || (a.day == b.day && (
    a.hour < b.hour || (a.hour == b.hour && (
    a.minute < b.minute || (a.minute == b.minute && (
    a.second < b.second || (a.second == b.second && a.micro < b.micro)))))))))))
  }

  // ------------------------------------------------------------- text order laws

  lemma {:induction false} Irreflexive(a: string)
    ensures !TextLess(a, a)
  {
    if a != "" { Irreflexive(a[1..]); }
  }

  lemma {:induction false} TextTransitive(a: string, b: string, c: string)
    requires TextLess(a, b) && TextLess(b, c)
    ensures TextLess(a, c)
  {
    if a != "" && a[0] == b[0] && b[0] == c[0] { TextTransitive(a[1..], b[1..], c[1..]); }
  }

  lemma {:induction false} TextTotal(a: string, b: string)
    ensures TextLess(a, b) || TextLess(b, a) || a == b
  {
    if a != "" && b != "" && a[0] == b[0] {
      TextTotal(a[1..], b[1..]);
      assert a == [a[0]] + a[1..] && b == [b[0]] + b[1..];
    }
  }

  /** After parts of equal length, the first difference decides. */
  lemma {:induction false} LessConcat(a: string, x: string, b: string, y: string)
    requires |a| == |b|
    ensures TextLess(a + x, b + y) <==> TextLess(a, b) || (a == b && TextLess(x, y))
  {
    if a == "" {
      assert a + x == x && b + y == y;
    } else {
      assert (a + x)[1..] == a[1..] + x && (b + y)[1..] == b[1..] + y;
      LessConcat(a[1..], x, b[1..], y);
      assert a == [a[0]] + a[1..] && b == [b[0]] + b[1..];
    }
  }

  lemma LessChar(c: char, d: char)
    ensures TextLess([c], [d]) <==> c < d
  {
    assert [c][1..] == "" && [d][1..] == "";
  }

  /** Fixed-width decimals are ordered as numbers, and are equal only then. */
  lemma {:induction false} DigitsOrder(m: nat, n: nat, w: nat)
    requires m < Pow10(w) && n < Pow10(w)
    ensures TextLess(Digits(m, w), Digits(n, w)) <==> m < n
    ensures Digits(m, w) == Digits(n, w) <==> m == n
    decreases w
  {
    if w > 0 {
      var a, b := Digits(m / 10, w - 1), Digits(n / 10, w - 1);
      var c, d := [Digit(m % 10)], [Digit(n % 10)];
      DigitsOrder(m / 10, n / 10, w - 1);
      LessConcat(a, c, b, d);
      LessChar(c[0], d[0]);
      if Digits(m, w) == Digits(n, w) {
        assert (a + c)[..w - 1] == a && (b + d)[..w - 1] == b;
        assert (a + c)[w - 1] == c[0] && (b + d)[w - 1] == d[0];
      }
    }
  }

  /** One field, a separator, and what follows. */
  lemma FieldOrder(m: nat, n: nat, w: nat, sep: string, x: string, y: string)
    requires m < Pow10(w) && n < Pow10(w)
    ensures TextLess(Digits(m, w) + (sep + x), Digits(n, w) + (sep + y)) <==> m < n || (m == n && TextLess(x, y))
  {
    DigitsOrder(m, n, w);
    LessConcat(Digits(m, w), sep + x, Digits(n, w), sep + y);
    LessConcat(sep, x, sep, y);
    Irreflexive(sep);
  }

  /** Through year 9999 the stored texts are ordered as the times are: a lease
      expires in the queue exactly when it expires. */
  lemma TextOrderIsTimeOrder(a: Stamp, b: Stamp)
    requires Valid(a) && Valid(b) && a.year < 10_000 && b.year < 10_000
    ensures TextLess(Format(a), Format(b)) <==> Before(a, b)
  {
    FourDigits();
    hide Digits, TextLess;
    var a6, b6 := "Z", "Z";
    var a5, b5 := Digits(a.micro, 6) + a6, Digits(b.micro, 6) + b6;
    var a4, b4 := Digits(a.second, 2) + ("." + a5), Digits(b.second, 2) + ("." + b5);
    var a3, b3 := Digits(a.minute, 2) + (":" + a4), Digits(b.minute, 2) + (":" + b4);
    var a2, b2 := Digits(a.hour, 2) + (":" + a3), Digits(b.hour, 2) + (":" + b3);
    var a1, b1 := Digits(a.day, 2) + ("T" + a2), Digits(b.day, 2) + ("T" + b2);
    var a0, b0 := Digits(a.month, 2) + ("-" + a1), Digits(b.month, 2) + ("-" + b1);
    FieldOrder(a.year, b.year, 4, "-", a0, b0);
    FieldOrder(a.month, b.month, 2, "-", a1, b1);
    FieldOrder(a.day, b.day, 2, "T", a2, b2);
    FieldOrder(a.hour, b.hour, 2, ":", a3, b3);
    FieldOrder(a.minute, b.minute, 2, ":", a4, b4);
    FieldOrder(a.second, b.second, 2, ".", a5, b5);
    DigitsOrder(a.micro, b.micro, 6);
    LessConcat(Digits(a.micro, 6), a6, Digits(b.micro, 6), b6);
    Irreflexive("Z");
  }

  /** Past that year the text order turns round: the year grows a digit. */
  lemma TextOrderEndsWithYear9999(a: Stamp, b: Stamp)
    requires a == Stamp(9999, 12, 31, 23, 59, 59, 0) && b == Stamp(10_000, 1, 1, 0, 0, 0, 0)
    ensures Before(a, b) && TextLess(Format(b), Format(a))
  {
    FourDigits();
    LeadingDigits(a, b);
    var fa, fb := Format(a), Format(b);
    assert fa[0] == '9' && fb[0] == '1';
  }

  /** The order of the texts is the order of the times for all times before year
      `n` exactly when that year is at most 10000. */
  lemma TextOrderExactly(n: nat)
    ensures (forall a, b :: Valid(a) && Valid(b) && a.year < n && b.year < n ==> (TextLess(Format(a), Format(b)) <==> Before(a, b)))
            <==> n <= 10_000
  {
    hide TextLess, Format, Before;
    if n <= 10_000 {
      forall a, b | Valid(a) && Valid(b) && a.year < n && b.year < n ensures TextLess(Format(a), Format(b)) <==> Before(a, b) {
        TextOrderIsTimeOrder(a, b);
      }
    } else {
      var a, b := Stamp(9999, 12, 31, 23, 59, 59, 0), Stamp(10_000, 1, 1, 0, 0, 0, 0);
      TextOrderEndsWithYear9999(a, b);
      NotBoth(a, b);
    }
  }

  lemma NotBoth(a: Stamp, b: Stamp)
    requires Before(a, b)
    ensures !Before(b, a)
  {}

  lemma LeadingDigits(a: Stamp, b: Stamp)
    requires a == Stamp(9999, 12, 31, 23, 59, 59, 0) && b == Stamp(10_000, 1, 1, 0, 0, 0, 0)
    ensures Format(a) != "" && Format(a)[0] == '9' && Format(b) != "" && Format(b)[0] == '1'
  {
    FourDigits();
    YearDigits();
    assert YearWidth(10_000) == WidthFrom(10_000, 4) == WidthFrom(10_000, 5) == 5;
  }

  lemma YearDigits()
    ensures 9999 < Pow10(4) && 10_000 < Pow10(5)
    ensures Digits(9999, 4)[0] == '9' && Digits(10_000, 5)[0] == '1'
  {
    assert Pow10(1) == 10 && Pow10(3) == 1000 && Pow10(5) == 100_000;
    KeepsFirst(9, 1, 9);
    KeepsFirst(99, 2, 9);
    KeepsFirst(999, 3, 9);
    KeepsFirst(1, 1, 0);
    KeepsFirst(10, 2, 0);
    KeepsFirst(100, 3, 0);
    KeepsFirst(1000, 4, 0);
    assert Digits(9, 1)[0] == '9' && Digits(1, 1)[0] == '1';
  }

  /** Appending a digit keeps the first one. */
  lemma KeepsFirst(n: nat, w: nat, d: nat)
    requires w > 0 && d < 10 && n < Pow10(w)
    ensures 10 * n + d < Pow10(w + 1) && Digits(10 * n + d, w + 1)[0] == Digits(n, w)[0]
  {
    assert (10 * n + d) / 10 == n && (10 * n + d) % 10 == d;
  }
}
