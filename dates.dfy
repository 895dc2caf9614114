/** Dates as the ledger stores them: already-normalised `yyyy-MM-dd` strings, compared with
    JavaScript's string operators. */
module Dates {
  import opened Text

  /** JavaScript's `a < b` on strings: lexicographic order of the characters, a proper
      prefix coming first. (Dafny's own `<` on sequences is the proper-prefix test.) */
  predicate LexLess(a: string, b: string)
  {
    if a == [] then b != []
    else if b == [] then false
    else if a[0] < b[0] then true
    else if a[0] > b[0] then false
    else LexLess(a[1..], b[1..])
  }

  /** `a <= b` and `a >= b` on strings, which JavaScript evaluates as `!(b < a)` and `!(a < b)`. */
  predicate LexLessEq(a: string, b: string)
  {
    !LexLess(b, a)
  }

  /** A zero-padded `yyyy-MM-dd` string. */
  predicate IsIsoDate(d: string)
  {
    |d| == 10 && d[4] == '-' && d[7] == '-' &&
    IsDigits(d[..4]) && IsDigits(d[5..7]) && IsDigits(d[8..])
  }

  function Year(d: string): nat requires IsIsoDate(d) { DecimalValue(d[..4]) }
  function Month(d: string): nat requires IsIsoDate(d) { DecimalValue(d[5..7]) }
  function Day(d: string): nat requires IsIsoDate(d) { DecimalValue(d[8..]) }

  /** Calendar order: by year, then month, then day. */
  predicate ChronoLess(a: string, b: string)
    requires IsIsoDate(a) && IsIsoDate(b)
  {
    Year(a) < Year(b) ||
    (Year(a) == Year(b) && (Month(a) < Month(b) || (Month(a) == Month(b) && Day(a) < Day(b))))
  }

  /** No string is below itself. */
  lemma {:induction false} LexIrreflexive(a: string)
    ensures !LexLess(a, a)
  {
    if a != [] {
      LexIrreflexive(a[1..]);
    }
  }

  /** Two different strings are always ordered one way or the other. */
  lemma {:induction false} LexTotal(a: string, b: string)
    requires a != b
    ensures LexLess(a, b) || LexLess(b, a)
  {
    if a != [] && b != [] && a[0] == b[0] {
      assert a == [a[0]] + a[1..] && b == [b[0]] + b[1..];
      LexTotal(a[1..], b[1..]);
    }
  }

  /** Hence `d >= s && d <= s` holds exactly when `d` is `s`. */
  lemma LexBetweenSelf(d: string, s: string)
    ensures LexLessEq(s, d) && LexLessEq(d, s) <==> d == s
  {
    if d == s {
      LexIrreflexive(d);
    } else {
      LexTotal(d, s);
    }
  }

  /** Comparing two concatenations whose first parts have equal length: the first parts
      decide, and only when they are equal do the second parts. */
  lemma {:induction false} LexConcat(x: string, y: string, x': string, y': string)
    requires |x| == |x'|
    ensures LexLess(x + y, x' + y') <==> LexLess(x, x') || (x == x' && LexLess(y, y'))
  {
    if x == [] {
      assert x + y == y && x' + y' == y';
    } else {
      assert (x + y)[1..] == x[1..] + y && (x' + y')[1..] == x'[1..] + y';
      LexConcat(x[1..], y, x'[1..], y');
      if x[0] == x'[0] && x[1..] == x'[1..] {
        assert x == [x[0]] + x[1..] && x' == [x'[0]] + x'[1..];
      }
    }
  }

  function Pow10(n: nat): (p: nat)
    ensures p >= 1
  {
    if n == 0 then 1 else 10 * Pow10(n - 1)
  }

  lemma {:induction false} DecimalValueBound(s: string)
    requires IsDigits(s)
    ensures DecimalValue(s) < Pow10(|s|)
  {
    if s != [] {
      DecimalValueBound(s[..|s| - 1]);
    }
  }

  /** The value of a digit string split after its first digit. */
  lemma {:induction false} DecimalValueHead(s: string)
    requires IsDigits(s) && s != []
    ensures DecimalValue(s) == DigitValue(s[0]) * Pow10(|s| - 1) + DecimalValue(s[1..])
  {
    if |s| > 1 {
      var init := s[..|s| - 1];
      DecimalValueHead(init);
      assert init[1..] == s[1..][..|s[1..]| - 1];
      assert init[0] == s[0];
      assert s[1..][|s[1..]| - 1] == s[|s| - 1];
      ShiftDigit(DigitValue(s[0]), Pow10(|s| - 2), DecimalValue(init[1..]), DigitValue(s[|s| - 1]));
    }
  }

  lemma ShiftDigit(d: nat, p: nat, rest: nat, last: nat)
    ensures (d * p + rest) * 10 + last == d * (10 * p) + (rest * 10 + last)
  {
  }

  lemma HeadDecides(a: nat, b: nat, p: nat, ra: nat, rb: nat)
    requires a < b && ra < p && 0 < p
    ensures a * p + ra < b * p + rb
  {
    var c: nat := b - a - 1;
    assert b * p == (a + c + 1) * p == a * p + c * p + p;
    assert c * p >= 0;
  }

  /** On digit strings of one length, string order is numeric order. */
  lemma {:induction false} LexDigits(x: string, y: string)
    requires |x| == |y| && IsDigits(x) && IsDigits(y)
    ensures LexLess(x, y) <==> DecimalValue(x) < DecimalValue(y)
  {
    if x != [] {
      DecimalValueHead(x);
      DecimalValueHead(y);
      DecimalValueBound(x[1..]);
      DecimalValueBound(y[1..]);
      var p := Pow10(|x| - 1);
      if x[0] < y[0] {
        HeadDecides(DigitValue(x[0]), DigitValue(y[0]), p, DecimalValue(x[1..]), DecimalValue(y[1..]));
      } else if x[0] > y[0] {
        HeadDecides(DigitValue(y[0]), DigitValue(x[0]), p, DecimalValue(y[1..]), DecimalValue(x[1..]));
      } else {
        LexDigits(x[1..], y[1..]);
      }
    }
  }

  /** On digit strings of one length, equal values mean equal strings. */
  lemma DigitsInjective(x: string, y: string)
    requires |x| == |y| && IsDigits(x) && IsDigits(y)
    ensures x == y <==> DecimalValue(x) == DecimalValue(y)
  {
    if x != y {
      LexTotal(x, y);
      LexDigits(x, y);
      LexDigits(y, x);
    }
  }

  /** For zero-padded `yyyy-MM-dd` strings, the string comparison `a < b` used by the range
      query is calendar order. */
  lemma LexIsChronological(a: string, b: string)
    requires IsIsoDate(a) && IsIsoDate(b)
    ensures LexLess(a, b) <==> ChronoLess(a, b)
  {
    assert a == a[..4] + ([a[4]] + (a[5..7] + ([a[7]] + a[8..])));
    assert b == b[..4] + ([b[4]] + (b[5..7] + ([b[7]] + b[8..])));
    LexConcat(a[..4], [a[4]] + (a[5..7] + ([a[7]] + a[8..])), b[..4], [b[4]] + (b[5..7] + ([b[7]] + b[8..])));
    LexConcat([a[4]], a[5..7] + ([a[7]] + a[8..]), [b[4]], b[5..7] + ([b[7]] + b[8..]));
    LexConcat(a[5..7], [a[7]] + a[8..], b[5..7], [b[7]] + b[8..]);
    LexConcat([a[7]], a[8..], [b[7]], b[8..]);
    LexIrreflexive([a[4]]);
    LexIrreflexive([a[7]]);
    LexDigits(a[..4], b[..4]);
    LexDigits(a[5..7], b[5..7]);
    LexDigits(a[8..], b[8..]);
    DigitsInjective(a[..4], b[..4]);
    DigitsInjective(a[5..7], b[5..7]);
  }

  /** The inclusive range test `d >= start && d <= end` is the calendar interval. */
  lemma InRangeIsChronological(d: string, start: string, end: string)
    requires IsIsoDate(d) && IsIsoDate(start) && IsIsoDate(end)
    ensures LexLessEq(start, d) && LexLessEq(d, end) <==> !ChronoLess(d, start) && !ChronoLess(end, d)
  {
    LexIsChronological(d, start);
    LexIsChronological(end, d);
  }
}
