/**
 * Decimal footnote identifiers.
 *
 * A footnote id is the `\d+` group of a marker: a non-empty run of ASCII
 * digits, kept as text (the source keys its mapping by the digit string).
 * `Value` is Python's `int(...)` on such a string and `Show` is `str(...)`
 * on an integer. `Below` is the order `sorted(..., key=int)` puts ids in,
 * and `SortDistinct` is `sorted(set(ids), key=int)`.
 */
module Numerals {

  predicate IsDigit(c: char) {
    '0' <= c <= '9'
  }

  /** Every character is an ASCII digit (the empty string included). */
  predicate AllDigits(s: string) {
    forall i :: 0 <= i < |s| ==> IsDigit(s[i])
  }

  /** A non-empty digit run: what `\d+` matches. */
  predicate IsDigits(s: string) {
    |s| > 0 && AllDigits(s)
  }

  /** The form `str(n)` produces for n >= 0: no leading zero unless the id is "0". */
  predicate Canonical(s: string) {
    IsDigits(s) && (s[0] != '0' || |s| == 1)
  }

  function DigitValue(c: char): nat
    requires IsDigit(c)
  {
    c as int - '0' as int
  }

  function DigitChar(d: nat): (c: char)
    requires d < 10
    ensures IsDigit(c) && DigitValue(c) == d
  {
    ('0' as int + d) as char
  }

  /** `int(s)` for a string of ASCII digits; leading zeros are allowed. */
  function Value(s: string): nat
    requires AllDigits(s)
  {
    if |s| == 0 then 0 else 10 * Value(s[..|s| - 1]) + DigitValue(s[|s| - 1])
  }

  /** `str(n)` for n >= 0. */
  function ShowNat(n: nat): (r: string)
    ensures Canonical(r)
    ensures Value(r) == n
  {
    if n < 10 then [DigitChar(n)]
    else
      var p := ShowNat(n / 10);
      var r := p + [DigitChar(n % 10)];
      assert r[..|r| - 1] == p;
      r
  }

  /** `str(n)` for any integer: a minus sign in front of the digits when n < 0. */
  function Show(n: int): (r: string)
    ensures n >= 0 ==> Canonical(r) && Value(r) == n
    ensures n < 0 ==> |r| > 0 && r[0] == '-' && Canonical(r[1..]) && Value(r[1..]) == -n
  {
    if n < 0 then
      var r := "-" + ShowNat(-n);
      assert r[1..] == ShowNat(-n);
      r
    else ShowNat(n)
  }

  lemma {:induction false} LeadingDigitPositive(s: string)
    requires IsDigits(s) && s[0] != '0'
    ensures Value(s) > 0
    decreases |s|
  {
    if |s| > 1 {
      var p := s[..|s| - 1];
      assert p[0] == s[0];
      LeadingDigitPositive(p);
    }
  }

  /** `str(int(s)) == s` exactly when s has no superfluous leading zero. */
  lemma {:induction false} ShowValue(s: string)
    requires Canonical(s)
    ensures ShowNat(Value(s)) == s
    decreases |s|
  {
    if |s| > 1 {
      var p := s[..|s| - 1];
      assert p[0] == s[0];
      LeadingDigitPositive(p);
      ShowValue(p);
      var d := DigitValue(s[|s| - 1]);
      var v := Value(s);
      assert v == 10 * Value(p) + d;
      assert v / 10 == Value(p) && v % 10 == d;
      assert DigitChar(d) == s[|s| - 1];
      assert s == p + [s[|s| - 1]];
    }
  }

  /** Canonical ids are determined by their value. */
  lemma CanonicalByValue(a: string, b: string)
    requires Canonical(a) && Canonical(b)
    ensures Value(a) == Value(b) <==> a == b
  {
    if Value(a) == Value(b) {
      ShowValue(a);
      ShowValue(b);
    }
  }

  /** Order of ids under `key=int`; equal values (ids differing only in leading zeros) fall back to length. */
  predicate Below(a: string, b: string)
    requires AllDigits(a) && AllDigits(b)
  {
    Value(a) < Value(b) || (Value(a) == Value(b) && |a| < |b|)
  }

  lemma ScaledDigits(x: nat, d: nat, y: nat, e: nat)
    requires d < 10 && e < 10
    requires 10 * x + d == 10 * y + e
    ensures x == y && d == e
  {
    assert (10 * x + d) / 10 == x;
    assert (10 * y + e) / 10 == y;
  }

  /** Two digit strings with the same length and value are the same string. */
  lemma {:induction false} SameValueSameLength(a: string, b: string)
    requires AllDigits(a) && AllDigits(b)
    requires |a| == |b| && Value(a) == Value(b)
    ensures a == b
    decreases |a|
  {
    if |a| > 0 {
      var n := |a| - 1;
      ScaledDigits(Value(a[..n]), DigitValue(a[n]), Value(b[..n]), DigitValue(b[n]));
      SameValueSameLength(a[..n], b[..n]);
      SameLast(a, b);
    }
  }

  lemma SameLast(a: string, b: string)
    requires |a| == |b| > 0
    requires a[..|a| - 1] == b[..|b| - 1] && a[|a| - 1] == b[|b| - 1]
    ensures a == b
  {
    var n := |a| - 1;
    assert forall i :: 0 <= i < n ==> a[i] == a[..n][i] && b[i] == b[..n][i];
  }

  /** `Below` is a strict total order on digit strings. */
  lemma BelowTotal(a: string, b: string)
    requires AllDigits(a) && AllDigits(b)
    ensures a == b || Below(a, b) || Below(b, a)
    ensures !(Below(a, b) && Below(b, a))
    ensures !Below(a, a)
  {
    if Value(a) == Value(b) && |a| == |b| {
      SameValueSameLength(a, b);
    }
  }

  predicate AllIds(s: seq<string>) {
    forall i :: 0 <= i < |s| ==> IsDigits(s[i])
  }

  /** Strictly increasing under `Below`, hence free of duplicates. */
  predicate Ascending(s: seq<string>)
    requires AllIds(s)
  {
    forall i, j :: 0 <= i < j < |s| ==> Below(s[i], s[j])
  }

  /** Adds x to an ascending sequence, keeping it ascending and duplicate-free. */
  function Insert(x: string, s: seq<string>): (r: seq<string>)
    requires IsDigits(x) && AllIds(s) && Ascending(s)
    ensures AllIds(r) && Ascending(r)
    ensures forall y :: y in r <==> y == x || y in s
    decreases |s|
  {
    if |s| == 0 then [x]
    else if x == s[0] then s
    else if Below(x, s[0]) then
      assert forall j :: 0 < j < |s| ==> Below(s[0], s[j]);
      [x] + s
    else
      BelowTotal(x, s[0]);
      var t := Insert(x, s[1..]);
      assert forall y :: y in s <==> y == s[0] || y in s[1..];
      assert forall y :: y in t ==> Below(s[0], y);
      [s[0]] + t
  }

  /** `sorted(set(ids), key=int)`: the distinct ids, ascending. */
  function SortDistinct(ids: seq<string>): (r: seq<string>)
    requires AllIds(ids)
    ensures AllIds(r) && Ascending(r)
    ensures forall y :: y in r <==> y in ids
    decreases |ids|
  {
    if |ids| == 0 then []
    else
      var n := |ids| - 1;
      assert forall y :: y in ids <==> y in ids[..n] || y == ids[n];
      Insert(ids[n], SortDistinct(ids[..n]))
  }

  /** An ascending sequence is determined by its set of elements. */
  lemma {:induction false} AscendingUnique(a: seq<string>, b: seq<string>)
    requires AllIds(a) && AllIds(b) && Ascending(a) && Ascending(b)
    requires forall y :: y in a <==> y in b
    ensures a == b
    decreases |a|
  {
    assert |a| > 0 ==> a[0] in b;
    assert |b| > 0 ==> b[0] in a;
    if |a| > 0 {
      var i :| 0 <= i < |b| && b[i] == a[0];
      var j :| 0 <= j < |a| && a[j] == b[0];
      assert i == 0 || Below(b[0], a[0]);
      assert j == 0 || Below(a[0], b[0]);
      BelowTotal(a[0], b[0]);
      assert a[0] == b[0];
      assert a == [a[0]] + a[1..] && b == [b[0]] + b[1..];
      forall y
        ensures y in a[1..] <==> y in b[1..]
      {
        if y in a[1..] {
          var k :| 1 <= k < |a| && a[k] == y;
          BelowTotal(a[0], y);
          assert y in b && y != b[0];
        }
        if y in b[1..] {
          var k :| 1 <= k < |b| && b[k] == y;
          BelowTotal(b[0], y);
          assert y in a && y != a[0];
        }
      }
      AscendingUnique(a[1..], b[1..]);
    }
  }
}
