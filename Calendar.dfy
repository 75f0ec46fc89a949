/**
  Calendar dates as Python's `datetime.date` has them: proleptic Gregorian dates
  from 0001-01-01 to 9999-12-31, `date + timedelta(days = n)` (which raises
  OverflowError past the last date) and `date.isoformat()`, the zero-padded
  `YYYY-MM-DD` text the upcoming-events query compares against stored dates.
 */
module Calendar {
  import opened Wrappers
  import Text

  const MinYear := 1
  const MaxYear := 9999

  datatype Date = Date(year: int, month: int, day: int)

  /** The last date `datetime.date` can represent. */
  const LastDate := Date(MaxYear, 12, 31)

  /** The Gregorian leap-year rule. */
  predicate IsLeapYear(y: int)
  {
    y % 4 == 0 && (y % 100 != 0 || y % 400 == 0)
  }

  function DaysInMonth(y: int, m: int): (n: int)
    requires 1 <= m <= 12
    ensures 28 <= n <= 31
    ensures n == 29 <==> m == 2 && IsLeapYear(y)
    ensures n == 28 <==> m == 2 && !IsLeapYear(y)
  {
    if m == 2 then (if IsLeapYear(y) then 29 else 28)
    else if m == 4 || m == 6 || m == 9 || m == 11 then 30
    else 31
  }

  predicate Valid(d: Date)
  {
    MinYear <= d.year <= MaxYear && 1 <= d.month <= 12 && 1 <= d.day <= DaysInMonth(d.year, d.month)
  }

  /** a comes strictly before b in time. */
  predicate Before(a: Date, b: Date)
  {
    a.year < b.year || (a.year == b.year && (a.month < b.month || (a.month == b.month && a.day < b.day)))
  }

  predicate NotAfter(a: Date, b: Date)
  {
    Before(a, b) || a == b
  }

  /** The following day, or None when d is the last representable date. */
  function NextDay(d: Date): (r: Option<Date>)
    requires Valid(d)
    ensures r.None? <==> d == LastDate
    ensures r.Some? ==> Valid(r.value) && Before(d, r.value)
  {
    if d.day < DaysInMonth(d.year, d.month) then Some(Date(d.year, d.month, d.day + 1))
    else if d.month < 12 then Some(Date(d.year, d.month + 1, 1))
    else if d.year < MaxYear then Some(Date(d.year + 1, 1, 1))
    else None
  }

  /** NextDay skips no date: every valid date after d is on or after NextDay(d). */
  lemma NextDayIsImmediate(d: Date, e: Date)
    requires Valid(d) && Valid(e) && Before(d, e)
    ensures NextDay(d).Some? && NotAfter(NextDay(d).value, e)
  {
  }

  /** `d + timedelta(days = n)`; None stands for the OverflowError past LastDate. */
  function AddDays(d: Date, n: nat): (r: Option<Date>)
    requires Valid(d)
    ensures r.Some? ==> Valid(r.value) && NotAfter(d, r.value)
    ensures r.Some? && n > 0 ==> Before(d, r.value)
    decreases n
  {
    if n == 0 then Some(d)
    else match NextDay(d)
      case None => None
      case Some(e) => AddDays(e, n - 1)
  }

  /** Adding days fails only by stepping past the last representable date. */
  lemma {:induction false} AddDaysOverflow(d: Date, n: nat)
    requires Valid(d) && AddDays(d, n).None?
    ensures exists k :: 0 <= k < n && AddDays(d, k) == Some(LastDate)
    decreases n
  {
    if d == LastDate {
      assert AddDays(d, 0) == Some(LastDate);
    } else {
      var e := NextDay(d).value;
      AddDaysOverflow(e, n - 1);
      var k :| 0 <= k < n - 1 && AddDays(e, k) == Some(LastDate);
      assert AddDays(d, k + 1) == AddDays(e, k);
    }
  }

  /**
    The dates from d to AddDays(d, n), both included, are exactly the n + 1
    dates d + 0, ..., d + n.
   */
  lemma {:induction false} AddDaysSpan(d: Date, n: nat, last: Date, e: Date)
    requires Valid(d) && Valid(e) && AddDays(d, n) == Some(last)
    ensures NotAfter(d, e) && NotAfter(e, last) <==> exists k :: 0 <= k <= n && AddDays(d, k) == Some(e)
    decreases n
  {
    if n == 0 {
      assert AddDays(d, 0) == Some(d);
    } else {
      var next := NextDay(d).value;
      assert AddDays(d, n) == AddDays(next, n - 1);
      AddDaysSpan(next, n - 1, last, e);
      if NotAfter(d, e) && NotAfter(e, last) {
        if e == d {
          assert AddDays(d, 0) == Some(e);
        } else {
          NextDayIsImmediate(d, e);
          var k :| 0 <= k <= n - 1 && AddDays(next, k) == Some(e);
          assert AddDays(d, k + 1) == AddDays(next, k);
        }
      }
      assert NotAfter(d, e) && NotAfter(e, last) ==> exists k :: 0 <= k <= n && AddDays(d, k) == Some(e);
      forall k | 0 <= k <= n && AddDays(d, k) == Some(e)
        ensures NotAfter(d, e) && NotAfter(e, last)
      {
        if k > 0 {
          assert AddDays(d, k) == AddDays(next, k - 1);
          assert 0 <= k - 1 <= n - 1 && AddDays(next, k - 1) == Some(e);
          assert exists j :: 0 <= j <= n - 1 && AddDays(next, j) == Some(e);
          assert NotAfter(next, e) && NotAfter(e, last);
          assert Before(d, next);
        } else {
          assert AddDays(d, 0) == Some(d);
          assert NotAfter(d, last);
        }
      }
      assert (exists k :: 0 <= k <= n && AddDays(d, k) == Some(e)) ==> NotAfter(d, e) && NotAfter(e, last);
    }
  }

  /** Later offsets give strictly later dates, so d + 0, ..., d + n are n + 1 distinct dates. */
  lemma {:induction false} AddDaysIncreasing(d: Date, j: nat, k: nat)
    requires Valid(d) && j < k && AddDays(d, k).Some?
    ensures AddDays(d, j).Some? && Before(AddDays(d, j).value, AddDays(d, k).value)
    decreases j
  {
    var next := NextDay(d).value;
    assert AddDays(d, k) == AddDays(next, k - 1);
    if j > 0 {
      assert AddDays(d, j) == AddDays(next, j - 1);
      AddDaysIncreasing(next, j - 1, k - 1);
    }
  }

  function Digit(n: int): (c: char)
    requires 0 <= n <= 9
    ensures '0' <= c <= '9'
  {
    ('0' as int + n) as char
  }

  /** `%02d` for 0 <= n < 100. */
  function Pad2(n: int): (s: string)
    requires 0 <= n < 100
    ensures |s| == 2
  {
    [Digit(n / 10), Digit(n % 10)]
  }

  /** `%04d` for 0 <= n < 10000. */
  function Pad4(n: int): (s: string)
    requires 0 <= n < 10000
    ensures |s| == 4
  {
    Pad2(n / 100) + Pad2(n % 100)
  }

  /** `date.isoformat()`. */
  function IsoFormat(d: Date): (s: string)
    requires Valid(d)
    ensures |s| == 10 && s[4] == '-' && s[7] == '-'
  {
    Pad4(d.year) + "-" + Pad2(d.month) + "-" + Pad2(d.day)
  }

  lemma Pad2Order(a: int, b: int)
    requires 0 <= a < 100 && 0 <= b < 100
    ensures Text.Le(Pad2(a), Pad2(b)) <==> a <= b
    ensures Pad2(a) == Pad2(b) <==> a == b
  {
    var pa, pb := Pad2(a), Pad2(b);
    assert pa[1..][1..] == [] && pb[1..][1..] == [];
    assert Text.Le(pa[1..], pb[1..]) <==> pa[1] <= pb[1];
    assert Text.Le(pa, pb) <==> pa[0] < pb[0] || (pa[0] == pb[0] && pa[1] <= pb[1]);
    assert a <= b <==> a / 10 < b / 10 || (a / 10 == b / 10 && a % 10 <= b % 10);
    if pa == pb {
      assert pa[0] == pb[0] && pa[1] == pb[1];
    }
  }

  lemma Pad4Order(a: int, b: int)
    requires 0 <= a < 10000 && 0 <= b < 10000
    ensures Text.Le(Pad4(a), Pad4(b)) <==> a <= b
    ensures Pad4(a) == Pad4(b) <==> a == b
  {
    Text.LeConcat(Pad2(a / 100), Pad2(b / 100), Pad2(a % 100), Pad2(b % 100));
    Pad2Order(a / 100, b / 100);
    Pad2Order(a % 100, b % 100);
    if Pad4(a) == Pad4(b) {
      Text.LeReflexive(Pad4(a));
    }
  }

  /**
    On valid dates the text order of the ISO form is the chronological order:
    comparing zero-padded `YYYY-MM-DD` strings compares year, then month, then day.
   */
  lemma IsoFormatOrder(a: Date, b: Date)
    requires Valid(a) && Valid(b)
    ensures Text.Le(IsoFormat(a), IsoFormat(b)) <==> NotAfter(a, b)
  {
    var ma, mb := "-" + Pad2(a.month) + "-" + Pad2(a.day), "-" + Pad2(b.month) + "-" + Pad2(b.day);
    var da, db := "-" + Pad2(a.day), "-" + Pad2(b.day);
    assert IsoFormat(a) == Pad4(a.year) + ma && IsoFormat(b) == Pad4(b.year) + mb;
    assert ma == "-" + (Pad2(a.month) + da) && mb == "-" + (Pad2(b.month) + db);
    Text.LeConcat(Pad4(a.year), Pad4(b.year), ma, mb);
    Pad4Order(a.year, b.year);
    Text.LeConcat("-", "-", Pad2(a.month) + da, Pad2(b.month) + db);
    Text.LeConcat(Pad2(a.month), Pad2(b.month), da, db);
    Pad2Order(a.month, b.month);
    Text.LeConcat("-", "-", Pad2(a.day), Pad2(b.day));
    Pad2Order(a.day, b.day);
  }

  /** Distinct valid dates have distinct ISO forms. */
  lemma IsoFormatInjective(a: Date, b: Date)
    requires Valid(a) && Valid(b)
    ensures IsoFormat(a) == IsoFormat(b) <==> a == b
  {
    if IsoFormat(a) == IsoFormat(b) {
      Text.LeReflexive(IsoFormat(a));
      IsoFormatOrder(a, b);
      IsoFormatOrder(b, a);
    }
  }
}
