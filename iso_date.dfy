/**
 * Deadlines are stored as text in the `full-date` form of RFC 3339
 * (section 5.6: four-digit year, two-digit month, two-digit day, separated by
 * hyphens), and "overdue" is decided by comparing that text with today's
 * date as strings. Section 5.1 of RFC 3339 explains why this is sound: for
 * this fixed-width, zero-padded form, string order is chronological order.
 * This module proves it.
 */
module IsoDate {
  import opened PyText

  predicate IsDigit(c: char) {
    '0' <= c <= '9'
  }

  predicate AllDigits(s: string) {
    forall i :: 0 <= i < |s| ==> IsDigit(s[i])
  }

  function DigitValue(c: char): (d: nat)
    requires IsDigit(c)
    ensures d <= 9
  {
    (c as int) - ('0' as int)
  }

  function Pow10(n: nat): (p: nat)
    ensures p >= 1
  {
    if n == 0 then 1 else 10 * Pow10(n - 1)
  }

  /** The number a string of decimal digits spells, most significant first. */
  function DecimalValue(s: string): (v: nat)
    requires AllDigits(s)
    ensures v < Pow10(|s|)
  {
    if s == [] then 0
    else
      var d, p := DigitValue(s[0]), Pow10(|s| - 1);
      assert d * p <= 9 * p;
      d * p + DecimalValue(s[1..])
  }

  /** The `full-date` production of RFC 3339: `YYYY-MM-DD`, digits only
      apart from the two hyphens. Ranges of month and day are not needed for
      ordering and are not checked here. */
  predicate IsFullDate(s: string) {
    |s| == 10 && s[4] == '-' && s[7] == '-'
    && AllDigits(s[..4]) && AllDigits(s[5..7]) && AllDigits(s[8..])
  }

  function Year(s: string): nat
    requires IsFullDate(s)
  {
    DecimalValue(s[..4])
  }

  function Month(s: string): nat
    requires IsFullDate(s)
  {
    DecimalValue(s[5..7])
  }

  function Day(s: string): nat
    requires IsFullDate(s)
  {
    DecimalValue(s[8..])
  }

  /** Calendar order: year first, then month, then day. */
  predicate Earlier(a: string, b: string)
    requires IsFullDate(a) && IsFullDate(b)
  {
    Year(a) < Year(b)
    || (Year(a) == Year(b) && (Month(a) < Month(b) || (Month(a) == Month(b) && Day(a) < Day(b))))
  }

  predicate SameDay(a: string, b: string)
    requires IsFullDate(a) && IsFullDate(b)
  {
    Year(a) == Year(b) && Month(a) == Month(b) && Day(a) == Day(b)
  }

  /** For digit strings of one length, string order is numeric order and
      string equality is numeric equality. */
  lemma {:induction false} DigitsOrder(a: string, b: string)
    requires |a| == |b| && AllDigits(a) && AllDigits(b)
    ensures LexLess(a, b) <==> DecimalValue(a) < DecimalValue(b)
    ensures a == b <==> DecimalValue(a) == DecimalValue(b)
  {
    if a != [] {
      DigitsOrder(a[1..], b[1..]);
      var da, db, p := DigitValue(a[0]), DigitValue(b[0]), Pow10(|a| - 1);
      assert a == [a[0]] + a[1..] && b == [b[0]] + b[1..];
      assert DecimalValue(a) == da * p + DecimalValue(a[1..]);
      assert DecimalValue(b) == db * p + DecimalValue(b[1..]);
      if da < db {
        LeadingDigitDecides(da, db, p, DecimalValue(a[1..]), DecimalValue(b[1..]));
      } else if db < da {
        LeadingDigitDecides(db, da, p, DecimalValue(b[1..]), DecimalValue(a[1..]));
      }
    }
  }

  /** A smaller leading digit makes a smaller number, whatever follows. */
  lemma LeadingDigitDecides(d1: nat, d2: nat, p: nat, v1: nat, v2: nat)
    requires d1 < d2 && v1 < p
    ensures d1 * p + v1 < d2 * p + v2
  {
    var k: int := d2 - d1 - 1;
    assert d2 == d1 + 1 + k;
    assert k * p >= 0;
    assert d2 * p == d1 * p + p + k * p;
  }

  /** A full-date compares as its year text, then its month text, then its
      day text, because the hyphens sit at the same places in both. */
  lemma FieldsDecide(a: string, b: string)
    requires IsFullDate(a) && IsFullDate(b)
    ensures LexLess(a, b) <==>
      LexLess(a[..4], b[..4]) || (a[..4] == b[..4] &&
        (LexLess(a[5..7], b[5..7]) || (a[5..7] == b[5..7] && LexLess(a[8..], b[8..]))))
    ensures a == b <==> a[..4] == b[..4] && a[5..7] == b[5..7] && a[8..] == b[8..]
  {
    var ya, ma, da := a[..4], a[5..7], a[8..];
    var yb, mb, db := b[..4], b[5..7], b[8..];
    assert a == ya + ("-" + (ma + ("-" + da)));
    assert b == yb + ("-" + (mb + ("-" + db)));
    LexLessAppend(ya, "-" + (ma + ("-" + da)), yb, "-" + (mb + ("-" + db)));
    LexLessAppend("-", ma + ("-" + da), "-", mb + ("-" + db));
    LexLessAppend(ma, "-" + da, mb, "-" + db);
    LexLessAppend("-", da, "-", db);
    assert !LexLess("-", "-");
  }

  /** Section 5.1 of RFC 3339 for `full-date`: comparing two dates as
      strings (Python's `<` and `==`) gives their calendar order. */
  lemma FullDateOrder(a: string, b: string)
    requires IsFullDate(a) && IsFullDate(b)
    ensures LexLess(a, b) <==> Earlier(a, b)
    ensures a == b <==> SameDay(a, b)
  {
    FieldsDecide(a, b);
    DigitsOrder(a[..4], b[..4]);
    DigitsOrder(a[5..7], b[5..7]);
    DigitsOrder(a[8..], b[8..]);
  }
}
