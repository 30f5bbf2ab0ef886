/**
 * The two pieces of Python string behaviour the to-do manager relies on:
 * `str.strip()` with no argument (applied to the title and description the
 * user typed) and the `<` operator on `str` (used to decide that a deadline
 * is already past).
 */
module PyText {

  /** Python's `str.isspace()` for one character: the characters CPython's
      `strip()` removes when called without an argument. */
  predicate IsSpace(c: char) {
    var n := c as int;
    (0x09 <= n <= 0x0D) || (0x1C <= n <= 0x20) || n == 0x85 || n == 0xA0 || n == 0x1680
    || (0x2000 <= n <= 0x200A) || n == 0x2028 || n == 0x2029 || n == 0x202F
    || n == 0x205F || n == 0x3000
  }

  /** Every character of `s` is whitespace (vacuously true of ""). */
  predicate IsBlank(s: string) {
    forall i :: 0 <= i < |s| ==> IsSpace(s[i])
  }

  /** Length of the whitespace run at the front of `s`. */
  function LeadingSpaces(s: string): (k: nat)
    ensures k <= |s|
    ensures forall i :: 0 <= i < k ==> IsSpace(s[i])
    ensures k < |s| ==> !IsSpace(s[k])
  {
    if s == [] || !IsSpace(s[0]) then 0 else 1 + LeadingSpaces(s[1..])
  }

  /** Length of the whitespace run at the back of `s`. */
  function TrailingSpaces(s: string): (k: nat)
    ensures k <= |s|
    ensures forall i :: |s| - k <= i < |s| ==> IsSpace(s[i])
    ensures k < |s| ==> !IsSpace(s[|s| - 1 - k])
  {
    if s == [] || !IsSpace(s[|s| - 1]) then 0 else 1 + TrailingSpaces(s[..|s| - 1])
  }

  /** Python's `s.strip()`: `s` without its leading and trailing whitespace.
      The result is empty exactly when `s` is blank, and otherwise it starts
      and ends with a character that is not whitespace. */
  function Strip(s: string): (r: string)
    ensures |r| <= |s|
    ensures r == [] <==> IsBlank(s)
    ensures IsStripped(r)
    ensures exists i, j :: 0 <= i <= j <= |s| && r == s[i..j] && IsBlank(s[..i]) && IsBlank(s[j..])
  {
    var k := LeadingSpaces(s);
    var rest := s[k..];
    var t := TrailingSpaces(rest);
    assert k == |s| <==> IsBlank(s);
    assert rest != [] ==> rest[0] == s[k] && t < |rest|;
    var j := |s| - t;
    assert rest[..|rest| - t] == s[k..j];
    assert IsBlank(s[..k]);
    assert s[j..] == rest[|rest| - t..];
    assert IsBlank(s[j..]);
    rest[..|rest| - t]
  }

  /** `s` has no whitespace at either end. */
  predicate IsStripped(s: string) {
    s == [] || (!IsSpace(s[0]) && !IsSpace(s[|s| - 1]))
  }

  /** `strip()` leaves a string alone exactly when it has no whitespace at
      either end. */
  lemma StripFixedPoints(s: string)
    ensures Strip(s) == s <==> IsStripped(s)
  {
    if IsStripped(s) && s != [] {
      assert LeadingSpaces(s) == 0;
      assert TrailingSpaces(s) == 0;
    }
  }

  /** Stripping twice is stripping once: a stored, already stripped title
      passes through the form unchanged. */
  lemma StripIdempotent(s: string)
    ensures Strip(Strip(s)) == Strip(s)
  {
    StripFixedPoints(Strip(s));
  }

  /** Python's `a < b` on strings: the first differing character decides,
      and a proper prefix is smaller than the longer string. */
  predicate LexLess(a: string, b: string) {
    if a == [] then b != []
    else b != [] && (a[0] < b[0] || (a[0] == b[0] && LexLess(a[1..], b[1..])))
  }

  /** `LexLess` is trichotomous: for any two strings exactly one of
      `a < b`, `a == b`, `b < a` holds. */
  lemma {:induction false} LexTrichotomy(a: string, b: string)
    ensures !(LexLess(a, b) && a == b)
    ensures !(LexLess(a, b) && LexLess(b, a))
    ensures LexLess(a, b) || a == b || LexLess(b, a)
  {
    if a != [] && b != [] {
      LexTrichotomy(a[1..], b[1..]);
      if a[0] == b[0] {
        assert a == [a[0]] + a[1..] && b == [b[0]] + b[1..];
      }
    }
  }

  /** `LexLess` is transitive; with `LexTrichotomy` it is a strict total
      order. */
  lemma {:induction false} LexTransitive(a: string, b: string, c: string)
    requires LexLess(a, b) && LexLess(b, c)
    ensures LexLess(a, c)
  {
    if a != [] && a[0] == b[0] && b[0] == c[0] {
      LexTransitive(a[1..], b[1..], c[1..]);
    }
  }

  /** Comparing two concatenations whose first parts have equal length:
      the first parts decide unless they are equal, then the second parts do. */
  lemma {:induction false} LexLessAppend(x: string, y: string, x2: string, y2: string)
    requires |x| == |x2|
    ensures LexLess(x + y, x2 + y2) <==> LexLess(x, x2) || (x == x2 && LexLess(y, y2))
  {
    if x == [] {
      assert x + y == y && x2 + y2 == y2;
    } else {
      assert (x + y)[0] == x[0] && (x2 + y2)[0] == x2[0];
      assert (x + y)[1..] == x[1..] + y && (x2 + y2)[1..] == x2[1..] + y2;
      LexLessAppend(x[1..], y, x2[1..], y2);
      assert x == x2 <==> x[0] == x2[0] && x[1..] == x2[1..] by {
        assert x == [x[0]] + x[1..] && x2 == [x2[0]] + x2[1..];
      }
    }
  }
}
