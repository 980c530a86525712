/** The canonical text form of a date, `YYYY-MM-DD` (the `full-date` form of section 5.6 of
    RFC 3339), which is what Python's `str(date)` produces, and the order in which the database
    compares such strings: character by character, a proper prefix first. The point of the
    module is that on canonical strings this string order is exactly the calendar order, so
    queries that compare stored date strings compare dates. */
module IsoDate {
  import opened Wrappers
  import opened Calendar

  // ---------------------------------------------------------------------------
  // String order
  // ---------------------------------------------------------------------------

  /** Lexicographic order on strings, as the database's `$lte`/`$gte` compare them. */
  predicate StrLe(a: string, b: string)
    decreases |a|
  {
    if |a| == 0 then true
    else if |b| == 0 then false
    else if a[0] != b[0] then a[0] < b[0]
    else StrLe(a[1..], b[1..])
  }

  /** Comparing two strings whose first parts have the same length compares the first
      parts, and the second parts only when the first parts are equal. */
  lemma {:induction false} StrLeConcat(a: string, b: string, c: string, d: string)
    requires |a| == |c|
    ensures StrLe(a + b, c + d) <==> (a != c && StrLe(a, c)) || (a == c && StrLe(b, d))
    decreases |a|
  {
    if |a| == 0 {
      assert a + b == b && c + d == d;
    } else {
      assert (a + b)[0] == a[0] && (c + d)[0] == c[0];
      assert (a + b)[1..] == a[1..] + b && (c + d)[1..] == c[1..] + d;
      if a[0] == c[0] {
        StrLeConcat(a[1..], b, c[1..], d);
        assert a == [a[0]] + a[1..] && c == [c[0]] + c[1..];
        assert a == c <==> a[1..] == c[1..];
      }
    }
  }

  // ---------------------------------------------------------------------------
  // Decimal digits
  // ---------------------------------------------------------------------------

  predicate IsDigit(c: char) {
    '0' <= c <= '9'
  }

  predicate AllDigits(s: string) {
    forall i :: 0 <= i < |s| ==> IsDigit(s[i])
  }

  function Digit(n: int): (c: char)
    requires 0 <= n < 10
    ensures IsDigit(c)
  {
    (48 + n) as char
  }

  function DigitValue(c: char): (n: int)
    requires IsDigit(c)
    ensures 0 <= n < 10 && Digit(n) == c
  {
    c as int - 48
  }

  function Pow10(n: nat): (p: nat)
    ensures p >= 1
  {
    if n == 0 then 1 else 10 * Pow10(n - 1)
  }

  /** The number a string of decimal digits denotes, most significant digit first. */
  function Value(s: string): nat
    requires AllDigits(s)
  {
    if |s| == 0 then 0 else DigitValue(s[0]) * Pow10(|s| - 1) + Value(s[1..])
  }

  lemma MulMonotone(a: int, b: int, p: int)
    requires a <= b && 0 <= p
    ensures a * p <= b * p
  {
  }

  /** A string of `n` digits denotes a number below 10^n. */
  lemma {:induction false} ValueBound(s: string)
    requires AllDigits(s)
    ensures Value(s) < Pow10(|s|)
  {
    if |s| > 0 {
      ValueBound(s[1..]);
      MulMonotone(DigitValue(s[0]), 9, Pow10(|s| - 1));
    }
  }

  /** A smaller leading digit makes a smaller number, whatever the digits after it. */
  lemma LeadingDigitDecides(dx: int, dy: int, vx: int, vy: int, p: int)
    requires 0 <= dx < dy && 0 <= vx < p && 0 <= vy
    ensures dx * p + vx < dy * p + vy
  {
    MulMonotone(dx + 1, dy, p);
  }

  /** On digit strings of equal length the string order is the numeric order. */
  lemma {:induction false} StrLeIsNumericOrder(x: string, y: string)
    requires AllDigits(x) && AllDigits(y) && |x| == |y|
    ensures StrLe(x, y) <==> Value(x) <= Value(y)
    ensures x == y <==> Value(x) == Value(y)
    decreases |x|
  {
    if |x| > 0 {
      var p := Pow10(|x| - 1);
      var dx, dy := DigitValue(x[0]), DigitValue(y[0]);
      var vx, vy := Value(x[1..]), Value(y[1..]);
      ValueBound(x[1..]);
      ValueBound(y[1..]);
      assert x == [x[0]] + x[1..] && y == [y[0]] + y[1..];
      if dx < dy {
        LeadingDigitDecides(dx, dy, vx, vy, p);
      } else if dy < dx {
        LeadingDigitDecides(dy, dx, vy, vx, p);
      } else {
        assert x[0] == y[0];
        StrLeIsNumericOrder(x[1..], y[1..]);
      }
    }
  }

  /** The last two decimal digits of `n`, zero-padded (`%02d`). */
  function Digits2(n: int): (s: string)
    requires 0 <= n < 100
    ensures |s| == 2 && AllDigits(s)
  {
    [Digit(n / 10), Digit(n % 10)]
  }

  /** The last four decimal digits of `n`, zero-padded (`%04d`). */
  function Digits4(n: int): (s: string)
    requires 0 <= n < 10000
    ensures |s| == 4 && AllDigits(s)
  {
    [Digit(n / 1000), Digit(n / 100 % 10), Digit(n / 10 % 10), Digit(n % 10)]
  }

  lemma Digits2Value(n: int)
    requires 0 <= n < 100
    ensures Value(Digits2(n)) == n
  {
    var s := Digits2(n);
    assert Value(s[1..]) == n % 10;
  }

  lemma Digits4Value(n: int)
    requires 0 <= n < 10000
    ensures Value(Digits4(n)) == n
  {
    var s := Digits4(n);
    var a, b, c, d := n / 1000, n / 100 % 10, n / 10 % 10, n % 10;
    assert Pow10(3) == 1000 && Pow10(2) == 100 && Pow10(1) == 10;
    assert s[2..][1..] == s[3..];
    assert s[1..][1..] == s[2..];
    assert Value(s[3..]) == d;
    assert Value(s[2..]) == c * 10 + d;
    assert Value(s[1..]) == b * 100 + c * 10 + d;
    assert Value(s) == a * 1000 + b * 100 + c * 10 + d;
    JoinDigits4(n);
  }

  /** A number below 10000 is recovered from its four decimal digits. */
  lemma JoinDigits4(n: int)
    requires 0 <= n < 10000
    ensures n == n / 1000 * 1000 + n / 100 % 10 * 100 + n / 10 % 10 * 10 + n % 10
  {
    var q, r := n / 1000, n % 1000;
    var h, t := r / 100, r % 100;
    DivModOf(n, 100, 10 * q + h, t);
    DivModOf(n / 100, 10, q, h);
    DivModOf(n, 10, 100 * q + 10 * h + t / 10, t % 10);
    DivModOf(n / 10, 10, 10 * q + h, t / 10);
  }

  lemma ValueDigits2(s: string)
    requires AllDigits(s) && |s| == 2
    ensures Value(s) < 100 && Digits2(Value(s)) == s
  {
    var a, b := DigitValue(s[0]), DigitValue(s[1]);
    assert Pow10(1) == 10;
    assert Value(s[1..]) == b;
    assert Value(s) == a * 10 + b;
    DivModOf(a * 10 + b, 10, a, b);
  }

  lemma ValueDigits4(s: string)
    requires AllDigits(s) && |s| == 4
    ensures Value(s) < 10000 && Digits4(Value(s)) == s
  {
    var a, b, c, d := DigitValue(s[0]), DigitValue(s[1]), DigitValue(s[2]), DigitValue(s[3]);
    assert Pow10(3) == 1000 && Pow10(2) == 100 && Pow10(1) == 10;
    assert s[2..][1..] == s[3..];
    assert s[1..][1..] == s[2..];
    assert Value(s[3..]) == d;
    assert Value(s[2..]) == c * 10 + d;
    assert Value(s[1..]) == b * 100 + c * 10 + d;
    SplitDigits4(a, b, c, d);
  }

  lemma SplitDigits4(a: int, b: int, c: int, d: int)
    requires 0 <= a < 10 && 0 <= b < 10 && 0 <= c < 10 && 0 <= d < 10
    ensures var n := a * 1000 + b * 100 + c * 10 + d;
      n / 1000 == a && n / 100 % 10 == b && n / 10 % 10 == c && n % 10 == d
  {
    var n := a * 1000 + b * 100 + c * 10 + d;
    DivModOf(n, 1000, a, b * 100 + c * 10 + d);
    DivModOf(n, 100, a * 10 + b, c * 10 + d);
    DivModOf(a * 10 + b, 10, a, b);
    DivModOf(n, 10, a * 100 + b * 10 + c, d);
    DivModOf(a * 100 + b * 10 + c, 10, a * 10 + b, c);
  }

  /** Quotient and remainder are determined by `n == k * q + r` with `0 <= r < k`. */
  lemma DivModOf(n: int, k: int, q: int, r: int)
    requires 0 < k && 0 <= r < k && n == k * q + r
    ensures n / k == q && n % k == r
  {
    var q', r' := n / k, n % k;
    assert k * q' + r' == k * q + r;
    if q' < q {
      MulMonotone(q' + 1, q, k);
    } else if q < q' {
      MulMonotone(q + 1, q', k);
    }
  }

  // ---------------------------------------------------------------------------
  // Canonical text of a date
  // ---------------------------------------------------------------------------

  /** `str(date)`: the year as four digits, the month and day as two, joined by hyphens. */
  function Format(d: Date): (s: string)
    requires ValidDate(d)
  {
    Digits4(d.year) + ("-" + (Digits2(d.month) + ("-" + Digits2(d.day))))
  }

  /** Reads exactly the canonical form back: ten characters, hyphens at positions 4 and 7,
      digits elsewhere, and a date that exists in the calendar. */
  function ParseCanonical(s: string): Option<Date> {
    if |s| == 10 && s[4] == '-' && s[7] == '-'
       && AllDigits(s[..4]) && AllDigits(s[5..7]) && AllDigits(s[8..])
    then
      var d := Date(Value(s[..4]), Value(s[5..7]), Value(s[8..]));
      if ValidDate(d) then Some(d) else None
    else None
  }

  /** `s` is the canonical text of some calendar date. */
  predicate IsCanonical(s: string) {
    ParseCanonical(s).Some?
  }

  /** Reading back the text of a date gives the date. */
  lemma ParseFormat(d: Date)
    requires ValidDate(d)
    ensures ParseCanonical(Format(d)) == Some(d)
  {
    var s := Format(d);
    assert s[..4] == Digits4(d.year);
    assert s[5..7] == Digits2(d.month);
    assert s[8..] == Digits2(d.day);
    Digits4Value(d.year);
    Digits2Value(d.month);
    Digits2Value(d.day);
  }

  /** A canonical string is the text of the date it denotes: no two canonical strings denote one date. */
  lemma FormatParse(s: string)
    requires IsCanonical(s)
    ensures ValidDate(ParseCanonical(s).value) && Format(ParseCanonical(s).value) == s
  {
    var d := ParseCanonical(s).value;
    ValueDigits4(s[..4]);
    ValueDigits2(s[5..7]);
    ValueDigits2(s[8..]);
    assert s == s[..4] + ("-" + (s[5..7] + ("-" + s[8..])));
  }

  /** Comparing the texts of two dates as strings compares the dates. */
  lemma FormatOrder(a: Date, b: Date)
    requires ValidDate(a) && ValidDate(b)
    ensures StrLe(Format(a), Format(b)) <==> DateLe(a, b)
  {
    var ya, yb := Digits4(a.year), Digits4(b.year);
    var ma, mb := Digits2(a.month), Digits2(b.month);
    var da, db := Digits2(a.day), Digits2(b.day);
    Digits4Value(a.year); Digits4Value(b.year);
    Digits2Value(a.month); Digits2Value(b.month);
    Digits2Value(a.day); Digits2Value(b.day);
    StrLeIsNumericOrder(ya, yb);
    StrLeIsNumericOrder(ma, mb);
    StrLeIsNumericOrder(da, db);
    StrLeConcat(ya, "-" + (ma + ("-" + da)), yb, "-" + (mb + ("-" + db)));
    StrLeConcat("-", ma + ("-" + da), "-", mb + ("-" + db));
    StrLeConcat(ma, "-" + da, mb, "-" + db);
    StrLeConcat("-", da, "-", db);
  }

  /** On canonical strings the string order is the order of the dates they denote. */
  lemma CanonicalOrder(s: string, t: string)
    requires IsCanonical(s) && IsCanonical(t)
    ensures StrLe(s, t) <==> DateLe(ParseCanonical(s).value, ParseCanonical(t).value)
  {
    FormatParse(s);
    FormatParse(t);
    FormatOrder(ParseCanonical(s).value, ParseCanonical(t).value);
  }
}
