/**
  Due dates in the text form "YYYY-MM-DD HH:MM" that the store keeps, the
  check that `datetime.strptime(due, "%Y-%m-%d %H:%M")` performs before a
  date is accepted, and the integer stamp the scheduler orders by in place of
  `strptime(...).timestamp()`.

  The accepted form here is the strict, zero-padded one: sixteen characters,
  every field two digits wide (four for the year), a single space between
  date and time, a year from 1 on, a month 1..12, a day that exists in that
  month (leap years included), an hour 0..23 and a minute 0..59.
*/
module DueDates {
  import opened Ordering

  /** Code points of a string, the form in which strings are compared. */
  function Codes(s: string): (c: seq<int>)
    ensures |c| == |s|
    ensures forall i :: 0 <= i < |s| ==> c[i] == s[i] as int
  {
    seq(|s|, i requires 0 <= i < |s| => s[i] as int)
  }

  predicate IsDigit(c: char) { '0' <= c <= '9' }

  predicate AllDigits(s: string) { forall i :: 0 <= i < |s| ==> IsDigit(s[i]) }

  function Pow10(k: nat): (p: nat)
    ensures p >= 1
  {
    if k == 0 then 1 else 10 * Pow10(k - 1)
  }

  lemma MulMonotone(a: int, b: int, p: nat)
    requires a <= b
    ensures a * p <= b * p
  {
    assert b * p - a * p == (b - a) * p;
  }

  /** A leading digit in front of a smaller remainder stays below the next power of ten. */
  lemma DigitBound(d: int, p: nat, rest: int)
    requires 0 <= d <= 9 && 0 <= rest < p
    ensures 0 <= d * p + rest < 10 * p
  {
    MulMonotone(0, d, p);
    MulMonotone(d, 9, p);
  }

  /** Decimal value of a digit string, most significant digit first. */
  function Number(s: string): (n: nat)
    requires AllDigits(s)
    ensures n < Pow10(|s|)
  {
    if s == [] then 0
    else
      var d := s[0] as int - '0' as int;
      var p, rest := Pow10(|s| - 1), Number(s[1..]);
      DigitBound(d, p, rest);
      d * p + rest
  }

  predicate IsSeparatorPosition(i: int) { i == 4 || i == 7 || i == 10 || i == 13 }

  /** The character layout of "YYYY-MM-DD HH:MM", every field zero-padded. */
  predicate HasLayout(s: string)
  {
    && |s| == 16
    && s[4] == '-' && s[7] == '-' && s[10] == ' ' && s[13] == ':'
    && forall i :: 0 <= i < 16 && !IsSeparatorPosition(i) ==> IsDigit(s[i])
  }

  function Year(s: string): nat requires HasLayout(s) { Number(s[0..4]) }
  function Month(s: string): nat requires HasLayout(s) { Number(s[5..7]) }
  function Day(s: string): nat requires HasLayout(s) { Number(s[8..10]) }
  function Hour(s: string): nat requires HasLayout(s) { Number(s[11..13]) }
  function Minute(s: string): nat requires HasLayout(s) { Number(s[14..16]) }

  /** Gregorian leap years, as Python's calendar module has them. */
  predicate IsLeapYear(y: int)
  {
    y % 4 == 0 && (y % 100 != 0 || y % 400 == 0)
  }

  function DaysInMonth(y: int, m: int): (d: int)
    requires 1 <= m <= 12
    ensures 28 <= d <= 31
  {
    if m == 2 then (if IsLeapYear(y) then 29 else 28)
    else if m == 4 || m == 6 || m == 9 || m == 11 then 30
    else 31
  }

  /** `strptime(s, "%Y-%m-%d %H:%M")` accepts `s` (strict zero-padded form). */
  function IsValidDueDate(s: string): (r: bool)
    ensures r ==> |s| == 16 && HasLayout(s)
    ensures r ==> HasLayout(s) && (Month(s) == 2 && Day(s) == 29 ==> IsLeapYear(Year(s)))
  {
    && HasLayout(s)
    && 1 <= Year(s)
    && 1 <= Month(s) <= 12
    && 1 <= Day(s) <= DaysInMonth(Year(s), Month(s))
    && Hour(s) <= 23
    && Minute(s) <= 59
  }

  /** The twelve digits YYYYMMDDhhmm of a due date. */
  function DigitsOf(s: string): (r: string)
    requires HasLayout(s)
    ensures |r| == 12 && AllDigits(r)
  {
    var r := s[0..4] + s[5..7] + s[8..10] + s[11..13] + s[14..16];
    assert forall i :: 0 <= i < 12 ==> IsDigit(r[i]) by {
      forall i | 0 <= i < 12 ensures IsDigit(r[i]) {
        if i < 4 { assert r[i] == s[i]; }
        else if i < 6 { assert r[i] == s[i + 1]; }
        else if i < 8 { assert r[i] == s[i + 2]; }
        else if i < 10 { assert r[i] == s[i + 3]; }
        else { assert r[i] == s[i + 4]; }
      }
    }
    r
  }

  /**
    The scheduler's ordering stamp for a due date: the number YYYYMMDDhhmm.
    It orders stored dates as their text, that is wall-clock, order does;
    across a daylight-saving gap that is not the order of `timestamp()`.
  */
  function DueStamp(s: string): nat
    requires HasLayout(s)
  {
    Number(DigitsOf(s))
  }

  lemma {:induction false} LexConcat(x1: seq<int>, y1: seq<int>, x2: seq<int>, y2: seq<int>)
    requires |x1| == |x2|
    ensures LexLe(x1 + y1, x2 + y2)
        <==> (x1 != x2 && LexLe(x1, x2)) || (x1 == x2 && LexLe(y1, y2))
    decreases |x1|
  {
    if x1 != [] {
      assert (x1 + y1)[0] == x1[0] && (x2 + y2)[0] == x2[0];
      assert (x1 + y1)[1..] == x1[1..] + y1;
      assert (x2 + y2)[1..] == x2[1..] + y2;
      assert x2 != [];
      if x1[0] == x2[0] {
        LexConcat(x1[1..], y1, x2[1..], y2);
        assert LexLe(x1 + y1, x2 + y2) == LexLe(x1[1..] + y1, x2[1..] + y2);
        assert LexLe(x1, x2) == LexLe(x1[1..], x2[1..]);
        assert x1 == [x1[0]] + x1[1..] && x2 == [x2[0]] + x2[1..];
        assert x1 == x2 <==> x1[1..] == x2[1..];
      } else {
        assert x1 != x2;
        assert LexLe(x1 + y1, x2 + y2) == (x1[0] < x2[0]);
        assert LexLe(x1, x2) == (x1[0] < x2[0]);
      }
    } else {
      assert x1 + y1 == y1 && x2 + y2 == y2;
    }
  }

  /** `x` without position `k`. */
  function Without(x: seq<int>, k: nat): (r: seq<int>)
    requires k < |x|
    ensures |r| == |x| - 1
    ensures forall i :: 0 <= i < k ==> r[i] == x[i]
    ensures forall i :: k <= i < |r| ==> r[i] == x[i + 1]
  {
    x[..k] + x[k + 1..]
  }

  /** Dropping a position where both sides agree does not change their order. */
  lemma RemoveAgreeing(x: seq<int>, y: seq<int>, k: nat)
    requires |x| == |y| && k < |x| && x[k] == y[k]
    ensures LexLe(x, y) <==> LexLe(Without(x, k), Without(y, k))
  {
    var c := [x[k]];
    assert x == x[..k] + (c + x[k + 1..]);
    assert y == y[..k] + (c + y[k + 1..]);
    LexConcat(x[..k], c + x[k + 1..], y[..k], c + y[k + 1..]);
    LexConcat(c, x[k + 1..], c, y[k + 1..]);
    LexConcat(x[..k], x[k + 1..], y[..k], y[k + 1..]);
  }

  lemma MulStrict(a: int, b: int, p: nat)
    requires a < b
    ensures a * p + p <= b * p
  {
    MulMonotone(1, b - a, p);
    assert b * p - a * p == (b - a) * p;
  }

  /** For digit strings of one length, text order and numeric order agree. */
  lemma {:induction false} DigitsOrder(x: string, y: string)
    requires AllDigits(x) && AllDigits(y) && |x| == |y|
    ensures LexLe(Codes(x), Codes(y)) <==> Number(x) <= Number(y)
    ensures x == y <==> Number(x) == Number(y)
    decreases |x|
  {
    if x != [] {
      var dx, dy := x[0] as int - '0' as int, y[0] as int - '0' as int;
      var p := Pow10(|x| - 1);
      var rx, ry := Number(x[1..]), Number(y[1..]);
      assert Number(x) == dx * p + rx;
      assert Number(y) == dy * p + ry;
      assert rx < p && ry < p;
      if dx < dy {
        MulStrict(dx, dy, p);
        assert Codes(x)[0] < Codes(y)[0];
        assert x != y;
      } else if dy < dx {
        MulStrict(dy, dx, p);
        assert Codes(y)[0] < Codes(x)[0];
        assert x != y;
      } else {
        assert Codes(x)[1..] == Codes(x[1..]) && Codes(y)[1..] == Codes(y[1..]);
        DigitsOrder(x[1..], y[1..]);
        assert x == [x[0]] + x[1..] && y == [y[0]] + y[1..];
      }
    }
  }

  /** Removing the four separators from a due date's codes leaves the codes of its digits. */
  lemma SeparatorsRemoved(a: string)
    requires HasLayout(a)
    ensures Without(Without(Without(Without(Codes(a), 13), 10), 7), 4) == Codes(DigitsOf(a))
  {
    var x1 := Without(Codes(a), 13);
    var x2 := Without(x1, 10);
    var x3 := Without(x2, 7);
    var x4 := Without(x3, 4);
    var d := DigitsOf(a);
    forall i | 0 <= i < 12 ensures x4[i] == Codes(d)[i] {
      if i < 4 { assert x4[i] == x3[i] == x2[i] == x1[i]; assert d[i] == a[i]; }
      else if i < 6 { assert x4[i] == x3[i + 1] == x2[i + 1] == x1[i + 1]; assert d[i] == a[i + 1]; }
      else if i < 8 { assert x4[i] == x3[i + 1] == x2[i + 2] == x1[i + 2]; assert d[i] == a[i + 2]; }
      else if i < 10 { assert x4[i] == x3[i + 1] == x2[i + 2] == x1[i + 3]; assert d[i] == a[i + 3]; }
      else { assert x4[i] == x3[i + 1] == x2[i + 2] == x1[i + 3]; assert x1[i + 3] == Codes(a)[i + 4]; assert d[i] == a[i + 4]; }
    }
  }

  /** A due date is determined by its digits. */
  lemma DigitsDetermine(a: string, b: string)
    requires HasLayout(a) && HasLayout(b) && DigitsOf(a) == DigitsOf(b)
    ensures a == b
  {
    var d, e := DigitsOf(a), DigitsOf(b);
    forall i | 0 <= i < 16 ensures a[i] == b[i] {
      if i < 4 { assert a[i] == d[i] && b[i] == e[i]; }
      else if 4 < i < 7 { assert a[i] == d[i - 1] && b[i] == e[i - 1]; }
      else if 7 < i < 10 { assert a[i] == d[i - 2] && b[i] == e[i - 2]; }
      else if 10 < i < 13 { assert a[i] == d[i - 3] && b[i] == e[i - 3]; }
      else if 13 < i { assert a[i] == d[i - 4] && b[i] == e[i - 4]; }
    }
  }

  /** Comparing due dates as text is comparing their digits as text. */
  lemma TextOrderIsDigitOrder(a: string, b: string)
    requires HasLayout(a) && HasLayout(b)
    ensures LexLe(Codes(a), Codes(b)) <==> LexLe(Codes(DigitsOf(a)), Codes(DigitsOf(b)))
  {
    var x0, y0 := Codes(a), Codes(b);
    RemoveAgreeing(x0, y0, 13);
    var x1, y1 := Without(x0, 13), Without(y0, 13);
    RemoveAgreeing(x1, y1, 10);
    var x2, y2 := Without(x1, 10), Without(y1, 10);
    RemoveAgreeing(x2, y2, 7);
    var x3, y3 := Without(x2, 7), Without(y2, 7);
    RemoveAgreeing(x3, y3, 4);
    SeparatorsRemoved(a);
    SeparatorsRemoved(b);
  }

  /**
    Comparing two due dates as text (what SQLite's ORDER BY due_date does) and
    comparing their stamps (what the scheduler's heap does) agree.
  */
  lemma DueStampOrder(a: string, b: string)
    requires HasLayout(a) && HasLayout(b)
    ensures LexLe(Codes(a), Codes(b)) <==> DueStamp(a) <= DueStamp(b)
    ensures a == b <==> DueStamp(a) == DueStamp(b)
  {
    TextOrderIsDigitOrder(a, b);
    DigitsOrder(DigitsOf(a), DigitsOf(b));
    if DigitsOf(a) == DigitsOf(b) {
      DigitsDetermine(a, b);
    }
  }

  /**
    The strict form matters to the order: `strptime` also takes the unpadded
    "2025-9-01 00:00", which as text sorts after "2025-10-01 00:00" although
    it is the earlier date. The zero-padded check refuses it.
  */
  lemma UnpaddedDateMisorders()
    ensures !IsValidDueDate("2025-9-01 00:00")
    ensures LexLe(Codes("2025-10-01 00:00"), Codes("2025-9-01 00:00"))
    ensures !LexLe(Codes("2025-9-01 00:00"), Codes("2025-10-01 00:00"))
  {
    var a, b := Codes("2025-10-01 00:00"), Codes("2025-9-01 00:00");
    assert a[..5] == b[..5] && a[5] < b[5];
    assert LexLe(a[5..], b[5..]) && !LexLe(b[5..], a[5..]);
    assert LexLe(a[4..], b[4..]) && !LexLe(b[4..], a[4..]);
    assert LexLe(a[3..], b[3..]) && !LexLe(b[3..], a[3..]);
    assert LexLe(a[2..], b[2..]) && !LexLe(b[2..], a[2..]);
    assert LexLe(a[1..], b[1..]) && !LexLe(b[1..], a[1..]);
  }
}
