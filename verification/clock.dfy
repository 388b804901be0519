/** Timestamps as the handler sees them: a naive `datetime` with whole
    seconds, rendered with `DATE_FORMAT = "%Y-%m-%dT%H.%M.%S"`, and
    subtracted into whole seconds the way `datetime` does (proleptic
    Gregorian ordinal times 86400 plus the time of day).

    The main result is `FormatIsChronological`: because every field is
    zero-padded to a fixed width, comparing two rendered stamps as strings
    gives the same answer as comparing them in time. */
module Clock {
  import Arith
  import opened Text

  // ---------------------------------------------------------------------
  // Calendar (as in CPython's datetime module)
  // ---------------------------------------------------------------------

  predicate IsLeap(year: int)
  {
    year % 4 == 0 && (year % 100 != 0 || year % 400 == 0)
  }

  function DaysInYear(year: int): int
  {
    if IsLeap(year) then 366 else 365
  }

  function DaysInMonth(year: int, month: int): int
    requires 1 <= month <= 12
  {
    if month == 2 && IsLeap(year) then 29
    else [31, 28, 31, 30, 31, 30, 31, 31, 30, 31, 30, 31][month - 1]
  }

  /** Days in the years before `year`, counted from year 1. */
  function DaysBeforeYear(year: int): int
  {
    var y := year - 1;
    y * 365 + y / 4 - y / 100 + y / 400
  }

  /** Days in the months of `year` before `month`. */
  function DaysBeforeMonth(year: int, month: int): int
    requires 1 <= month <= 12
  {
    [0, 31, 59, 90, 120, 151, 181, 212, 243, 273, 304, 334][month - 1]
    + (if month > 2 && IsLeap(year) then 1 else 0)
  }

  datatype DateTime = DateTime(year: int, month: int, day: int, hour: int, minute: int, second: int)

  /** A calendar-valid timestamp whose year `%Y` renders in four digits. */
  predicate Valid(t: DateTime)
  {
    && 1000 <= t.year <= 9999
    && 1 <= t.month <= 12
    && 1 <= t.day <= DaysInMonth(t.year, t.month)
    && 0 <= t.hour <= 23
    && 0 <= t.minute <= 59
    && 0 <= t.second <= 59
  }

  type Stamp = t: DateTime | Valid(t) witness DateTime(2000, 1, 1, 0, 0, 0)

  /** `date.toordinal()`: day 1 is 0001-01-01. */
  function Ordinal(t: Stamp): int
  {
    DaysBeforeYear(t.year) + DaysBeforeMonth(t.year, t.month) + t.day
  }

  const SecondsPerDay := 86400

  /** Seconds on the proleptic Gregorian time line; the difference of two
      of these is `(a - b).total_seconds()`. */
  function Seconds(t: Stamp): (r: int)
    ensures Ordinal(t) * SecondsPerDay <= r < (Ordinal(t) + 1) * SecondsPerDay
  {
    Ordinal(t) * SecondsPerDay + t.hour * 3600 + t.minute * 60 + t.second
  }

  // ---------------------------------------------------------------------
  // DATE_FORMAT rendering
  // ---------------------------------------------------------------------

  function Pow10(w: nat): nat
  {
    if w == 0 then 1 else 10 * Pow10(w - 1)
  }

  function DigitChar(d: nat): char
    requires d <= 9
  {
    (('0' as int) + d) as char
  }

  /** `n` in decimal, zero-padded (or truncated) to `w` digits. */
  function Digits(n: nat, w: nat): (r: string)
    ensures |r| == w
    ensures forall i :: 0 <= i < w ==> '0' <= r[i] <= '9'
  {
    if w == 0 then "" else Digits(n / 10, w - 1) + [DigitChar(n % 10)]
  }

  /** Zero-padded numerals of one width compare as strings exactly as the
      numbers do, and are equal exactly when the numbers are. */
  lemma {:induction false} DigitsOrder(a: nat, b: nat, w: nat)
    requires a < Pow10(w) && b < Pow10(w)
    ensures LexLe(Digits(a, w), Digits(b, w)) <==> a <= b
    ensures Digits(a, w) == Digits(b, w) <==> a == b
  {
    if w > 0 {
      var pa, pb := Digits(a / 10, w - 1), Digits(b / 10, w - 1);
      var ca, cb := DigitChar(a % 10), DigitChar(b % 10);
      DigitsOrder(a / 10, b / 10, w - 1);
      LexLeConcat(pa, [ca], pb, [cb]);
      LexLeSingle(ca, cb);
      assert Digits(a, w) == pa + [ca] && Digits(b, w) == pb + [cb];
      assert Digits(a, w) == Digits(b, w) <==> pa == pb && ca == cb by {
        if Digits(a, w) == Digits(b, w) {
          assert Digits(a, w)[..w - 1] == pa && Digits(b, w)[..w - 1] == pb;
          assert Digits(a, w)[w - 1] == ca && Digits(b, w)[w - 1] == cb;
        }
      }
    }
  }

  /** Lexicographic order on equally long sequences of field values: the
      order Python uses to compare `datetime` values. */
  predicate FieldsLe(a: seq<int>, b: seq<int>)
    requires |a| == |b|
  {
    if |a| == 0 then true
    else if a[0] != b[0] then a[0] < b[0]
    else FieldsLe(a[1..], b[1..])
  }

  /** Fields rendered at the given widths, `seps[i]` between field `i`
      and field `i + 1`. */
  function RenderFields(vals: seq<nat>, widths: seq<nat>, seps: string): (r: string)
    requires |vals| == |widths| >= 1 && |seps| >= |vals| - 1
    ensures forall i :: 0 <= i < |r| ==> ('0' <= r[i] <= '9') || r[i] in seps
  {
    Digits(vals[0], widths[0])
    + (if |vals| == 1 then "" else [seps[0]] + RenderFields(vals[1..], widths[1..], seps[1..]))
  }

  predicate FitsWidths(vals: seq<nat>, widths: seq<nat>)
    requires |vals| == |widths|
  {
    forall i :: 0 <= i < |vals| ==> vals[i] < Pow10(widths[i])
  }

  /** Fixed-width rendering turns field-by-field order into string order,
      and distinct field sequences into distinct strings. */
  lemma {:induction false} RenderFieldsOrder(a: seq<nat>, b: seq<nat>, widths: seq<nat>, seps: string)
    requires |a| == |b| == |widths| >= 1 && |seps| >= |a| - 1
    requires FitsWidths(a, widths) && FitsWidths(b, widths)
    ensures LexLe(RenderFields(a, widths, seps), RenderFields(b, widths, seps)) <==> FieldsLe(a, b)
    ensures RenderFields(a, widths, seps) == RenderFields(b, widths, seps) <==> a == b
  {
    var da, db := Digits(a[0], widths[0]), Digits(b[0], widths[0]);
    var ta := if |a| == 1 then "" else [seps[0]] + RenderFields(a[1..], widths[1..], seps[1..]);
    var tb := if |b| == 1 then "" else [seps[0]] + RenderFields(b[1..], widths[1..], seps[1..]);
    assert RenderFields(a, widths, seps) == da + ta;
    assert RenderFields(b, widths, seps) == db + tb;
    DigitsOrder(a[0], b[0], widths[0]);
    LexLeConcat(da, ta, db, tb);
    assert a == [a[0]] + a[1..] && b == [b[0]] + b[1..];
    assert da + ta == db + tb <==> da == db && ta == tb by {
      if da + ta == db + tb {
        assert (da + ta)[..|da|] == da && (db + tb)[..|db|] == db;
        assert (da + ta)[|da|..] == ta && (db + tb)[|db|..] == tb;
      }
    }
    if |a| == 1 {
      assert LexLe(ta, tb);
      assert a[1..] == [] && b[1..] == [];
    } else {
      var ra := RenderFields(a[1..], widths[1..], seps[1..]);
      var rb := RenderFields(b[1..], widths[1..], seps[1..]);
      assert FitsWidths(a[1..], widths[1..]) by {
        forall i | 0 <= i < |a| - 1 ensures a[1..][i] < Pow10(widths[1..][i]) {
          assert a[1..][i] == a[i + 1] && widths[1..][i] == widths[i + 1];
        }
      }
      assert FitsWidths(b[1..], widths[1..]) by {
        forall i | 0 <= i < |b| - 1 ensures b[1..][i] < Pow10(widths[1..][i]) {
          assert b[1..][i] == b[i + 1] && widths[1..][i] == widths[i + 1];
        }
      }
      RenderFieldsOrder(a[1..], b[1..], widths[1..], seps[1..]);
      assert ta == [seps[0]] + ra && tb == [seps[0]] + rb;
      LexLeConcat([seps[0]], ra, [seps[0]], rb);
      assert ta == tb <==> ra == rb by {
        if ta == tb {
          assert ta[1..] == ra && tb[1..] == rb;
        }
      }
    }
  }

  /** The rendered length is the sum of the widths plus the separators. */
  lemma {:induction false} RenderFieldsLength(vals: seq<nat>, widths: seq<nat>, seps: string)
    requires |vals| == |widths| >= 1 && |seps| >= |vals| - 1
    ensures |RenderFields(vals, widths, seps)| == SumOf(widths) + |vals| - 1
  {
    if |vals| > 1 {
      RenderFieldsLength(vals[1..], widths[1..], seps[1..]);
    }
  }

  function SumOf(xs: seq<nat>): nat
  {
    if |xs| == 0 then 0 else xs[0] + SumOf(xs[1..])
  }

  const Widths: seq<nat> := [4, 2, 2, 2, 2, 2]
  const Separators: string := "--T.."

  /** The fields in significance order: the order `datetime` compares. */
  function Fields(t: Stamp): (r: seq<nat>)
    ensures |r| == 6 && FitsWidths(r, Widths)
  {
    [t.year, t.month, t.day, t.hour, t.minute, t.second]
  }

  /** `t.strftime("%Y-%m-%dT%H.%M.%S")`. */
  function Format(t: Stamp): (r: string)
    ensures |r| == 19
    ensures ' ' !in r
  {
    RenderFieldsLength(Fields(t), Widths, Separators);
    RenderFields(Fields(t), Widths, Separators)
  }

  /** `a <= b` for `datetime` values: field-by-field, most significant first. */
  predicate NotAfter(a: Stamp, b: Stamp)
  {
    FieldsLe(Fields(a), Fields(b))
  }

  /** The rendered string order is the field order, and rendering is injective. */
  lemma FormatOrder(a: Stamp, b: Stamp)
    ensures LexLe(Format(a), Format(b)) <==> NotAfter(a, b)
    ensures Format(a) == Format(b) <==> a == b
  {
    RenderFieldsOrder(Fields(a), Fields(b), Widths, Separators);
    if Fields(a) == Fields(b) {
      assert Fields(a)[0] == a.year && Fields(b)[0] == b.year;
      assert Fields(a)[1] == a.month && Fields(b)[1] == b.month;
      assert Fields(a)[2] == a.day && Fields(b)[2] == b.day;
      assert Fields(a)[3] == a.hour && Fields(b)[3] == b.hour;
      assert Fields(a)[4] == a.minute && Fields(b)[4] == b.minute;
      assert Fields(a)[5] == a.second && Fields(b)[5] == b.second;
    }
  }

  // ---------------------------------------------------------------------
  // Seconds are strictly increasing in field order
  // ---------------------------------------------------------------------

  /** One more year adds that year's length in days. */
  lemma YearStep(year: int)
    requires year >= 1
    ensures DaysBeforeYear(year + 1) == DaysBeforeYear(year) + DaysInYear(year)
  {
    Arith.DivStep(year, 4);
    Arith.DivStep(year, 100);
    Arith.DivStep(year, 400);
    if year % 400 == 0 {
      var k := year / 400;
      Arith.DivUnique(year, 100, 4 * k, 0);
      Arith.DivUnique(year, 4, 100 * k, 0);
    } else if year % 100 == 0 {
      var k := year / 100;
      Arith.DivUnique(year, 4, 25 * k, 0);
    }
  }

  /** Every day of an earlier year precedes the first day of a later one. */
  lemma {:induction false} YearsOrdered(y1: int, y2: int)
    requires 1 <= y1 < y2
    ensures DaysBeforeYear(y1) + DaysInYear(y1) <= DaysBeforeYear(y2)
    decreases y2 - y1
  {
    YearStep(y1);
    if y1 + 1 < y2 {
      YearsOrdered(y1 + 1, y2);
    }
  }

  /** The months of a year, one after another, fill the year. */
  lemma MonthsOrdered(year: int, m1: int, m2: int)
    requires 1 <= m1 < m2 <= 12
    ensures DaysBeforeMonth(year, m1) + DaysInMonth(year, m1) <= DaysBeforeMonth(year, m2)
  {
  }

  lemma MonthsFillYear(year: int, month: int)
    requires 1 <= month <= 12
    ensures DaysBeforeMonth(year, month) + DaysInMonth(year, month) <= DaysInYear(year)
  {
  }

  /** Field order written out one field at a time. */
  lemma NotAfterUnfolded(a: Stamp, b: Stamp)
    ensures NotAfter(a, b) <==>
      if a.year != b.year then a.year < b.year
      else if a.month != b.month then a.month < b.month
      else if a.day != b.day then a.day < b.day
      else if a.hour != b.hour then a.hour < b.hour
      else if a.minute != b.minute then a.minute < b.minute
      else a.second <= b.second
  {
    var fa, fb := Fields(a), Fields(b);
    var a1, b1 := [a.month, a.day, a.hour, a.minute, a.second], [b.month, b.day, b.hour, b.minute, b.second];
    var a2, b2 := [a.day, a.hour, a.minute, a.second], [b.day, b.hour, b.minute, b.second];
    var a3, b3 := [a.hour, a.minute, a.second], [b.hour, b.minute, b.second];
    var a4, b4 := [a.minute, a.second], [b.minute, b.second];
    var a5, b5 := [a.second], [b.second];
    assert fa[1..] == a1 && fb[1..] == b1;
    assert a1[1..] == a2 && b1[1..] == b2;
    assert a2[1..] == a3 && b2[1..] == b3;
    assert a3[1..] == a4 && b3[1..] == b4;
    assert a4[1..] == a5 && b4[1..] == b5;
    assert a5[1..] == [] && b5[1..] == [];
    assert FieldsLe(a5, b5) <==> a.second <= b.second;
    assert FieldsLe(a4, b4) <==> if a.minute != b.minute then a.minute < b.minute else FieldsLe(a5, b5);
    assert FieldsLe(a3, b3) <==> if a.hour != b.hour then a.hour < b.hour else FieldsLe(a4, b4);
    assert FieldsLe(a2, b2) <==> if a.day != b.day then a.day < b.day else FieldsLe(a3, b3);
    assert FieldsLe(a1, b1) <==> if a.month != b.month then a.month < b.month else FieldsLe(a2, b2);
    assert FieldsLe(fa, fb) <==> if a.year != b.year then a.year < b.year else FieldsLe(a1, b1);
  }

  /** A strictly earlier day starts at least a whole day earlier. */
  lemma EarlierDay(a: Stamp, b: Stamp)
    requires a.year < b.year
      || (a.year == b.year && a.month < b.month)
      || (a.year == b.year && a.month == b.month && a.day < b.day)
    ensures Ordinal(a) < Ordinal(b)
  {
    if a.year < b.year {
      MonthsFillYear(a.year, a.month);
      YearsOrdered(a.year, b.year);
    } else if a.month < b.month {
      MonthsOrdered(a.year, a.month, b.month);
    }
  }

  /** A stamp strictly before another in field order is strictly earlier in seconds. */
  lemma StrictlyEarlier(a: Stamp, b: Stamp)
    requires NotAfter(a, b) && a != b
    ensures Seconds(a) < Seconds(b)
  {
    NotAfterUnfolded(a, b);
    if a.year != b.year || a.month != b.month || a.day != b.day {
      EarlierDay(a, b);
    }
  }

  /** The fixed-width format is chronological: one rendered stamp is at
      most another as a string exactly when it is no later in time. */
  lemma FormatIsChronological(a: Stamp, b: Stamp)
    ensures LexLe(Format(a), Format(b)) <==> Seconds(a) <= Seconds(b)
  {
    FormatOrder(a, b);
    FormatOrder(b, a);
    LexLeTotal(Format(a), Format(b));
    if LexLe(Format(a), Format(b)) {
      if a != b {
        StrictlyEarlier(a, b);
      }
    } else {
      StrictlyEarlier(b, a);
    }
  }
}
