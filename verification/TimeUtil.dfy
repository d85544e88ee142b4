/** sylo/timeutil.py: the rendering of receipt times that file lines, index rows,
    ordering and month pruning all rest on. */
module TimeUtil {
  import opened Lex
  import opened Calendar

  const MICROS_PER_DAY := 86_400_000_000

  /** A UTC `datetime`. */
  datatype DateTime = DateTime(date: Date, hour: int, minute: int, second: int, micro: int) {
    predicate Valid() {
      date.Valid() && 0 <= hour < 24 && 0 <= minute < 60 && 0 <= second < 60 && 0 <= micro < 1_000_000
    }

    // Microseconds since the start of day 0.
    function Instant(): int
      requires Valid()
    {
      Ordinal(date) * MICROS_PER_DAY + TimeOfDay()
    }

    function TimeOfDay(): int {
      ((hour * 60 + minute) * 60 + second) * 1_000_000 + micro
    }
  }

  /** What `datetime.now(timezone.utc)` can return from the year 1000 on. */
  predicate FourDigitYear(t: DateTime) {
    t.Valid() && t.date.year >= 1000
  }

  type Timestamp = t: DateTime | FourDigitYear(t) witness DateTime(Date(2026, 7, 13), 0, 0, 0, 0)

  /** `dt.strftime("%Y-%m-%dT%H:%M:%S.%f") + "+00:00"`. `%Y` does not pad. */
  function FormatReceiptTime(t: DateTime): string
    requires t.Valid()
  {
    DayPart(t.date) + "T" + TimePart(t)
  }

  function DayPart(d: Date): string
    requires d.Valid()
  {
    MonthKeyOf(d) + "-" + Pad(d.day, 2)
  }

  function TimePart(t: DateTime): string
    requires t.Valid()
  {
    Pad(t.hour, 2) + ":" + (Pad(t.minute, 2) + ":" + (Pad(t.second, 2) + "." + (Pad(t.micro, 6) + "+00:00")))
  }

  /** `date.strftime("%Y-%m")`: the name of the month's index file. */
  function MonthKeyOf(d: Date): string
    requires d.Valid()
  {
    Dec(d.year) + "-" + Pad(d.month, 2)
  }

  /** `date.isoformat()`: the name of the day's text file. It pads the year. */
  function IsoDay(d: Date): string
    requires d.Valid()
  {
    Pad(d.year, 4) + "-" + Pad(d.month, 2) + "-" + Pad(d.day, 2)
  }

  lemma {:induction false} YearIsFourDigits(d: Date)
    requires d.Valid() && d.year >= 1000
    ensures Dec(d.year) == Pad(d.year, 4)
  {
    assert Pow10(1) == 10 && Pow10(2) == 100 && Pow10(3) == 1000 && Pow10(4) == 10000;
    DecIsPad(d.year, 4);
  }

  /** The file and month names are prefixes of the rendered time: day file, month file
      and row agree on where a message belongs. */
  lemma {:induction false} RenderedPrefixes(t: Timestamp)
    ensures |FormatReceiptTime(t)| == 32
    ensures FormatReceiptTime(t)[..7] == MonthKeyOf(t.date)
    ensures FormatReceiptTime(t)[..10] == IsoDay(t.date)
    ensures IsoDay(t.date)[..7] == MonthKeyOf(t.date)
    ensures ' ' !in FormatReceiptTime(t)
  {
    YearIsFourDigits(t.date);
    PadHasNo(t.date.year, 4, ' ');
    PadHasNo(t.date.month, 2, ' ');
    PadHasNo(t.date.day, 2, ' ');
    PadHasNo(t.hour, 2, ' ');
    PadHasNo(t.minute, 2, ' ');
    PadHasNo(t.second, 2, ' ');
    PadHasNo(t.micro, 6, ' ');
  }

  /** Where each field is, read as a number, and what is between them. */
  lemma {:induction false} RenderedFields(t: Timestamp)
    ensures var r := FormatReceiptTime(t);
            && |r| == 32 && r[4] == '-' && r[7] == '-' && r[10] == 'T' && r[13] == ':' && r[16] == ':' && r[19] == '.' && r[26..] == "+00:00"
            && AllDigits(r[..4]) && Number(r[..4]) == t.date.year
            && AllDigits(r[5..7]) && Number(r[5..7]) == t.date.month && AllDigits(r[8..10]) && Number(r[8..10]) == t.date.day
            && AllDigits(r[11..13]) && Number(r[11..13]) == t.hour && AllDigits(r[14..16]) && Number(r[14..16]) == t.minute
            && AllDigits(r[17..19]) && Number(r[17..19]) == t.second && AllDigits(r[20..26]) && Number(r[20..26]) == t.micro
  {
    hide Pad, Number, AllDigits, Dec;
    assert Pow10(1) == 10 && Pow10(2) == 100 && Pow10(3) == 1000 && Pow10(4) == 10000 && Pow10(6) == 100 * Pow10(4);
    YearIsFourDigits(t.date);
    NumberOfPad(t.date.year, 4);
    NumberOfPad(t.date.month, 2);
    NumberOfPad(t.date.day, 2);
    NumberOfPad(t.hour, 2);
    NumberOfPad(t.minute, 2);
    NumberOfPad(t.second, 2);
    NumberOfPad(t.micro, 6);
    var r := FormatReceiptTime(t);
    assert r[..4] == Pad(t.date.year, 4) && r[5..7] == Pad(t.date.month, 2) && r[8..10] == Pad(t.date.day, 2);
    assert r[11..13] == Pad(t.hour, 2) && r[14..16] == Pad(t.minute, 2) && r[17..19] == Pad(t.second, 2) && r[20..26] == Pad(t.micro, 6);
  }

  /** Every microsecond of a day is a time of day, and no other number is. */
  lemma {:induction false} EveryMicrosecond(d: Date, n: int) returns (t: DateTime)
    requires d.Valid() && 0 <= n < MICROS_PER_DAY
    ensures t.Valid() && t.date == d && t.TimeOfDay() == n && t.Instant() == Ordinal(d) * 86_400_000_000 + n
    ensures forall u: DateTime :: u.Valid() ==> 0 <= u.TimeOfDay() < 86_400_000_000
  {
    var s := n / 1_000_000;
    t := DateTime(d, s / 3600, s / 60 % 60, s % 60, n % 1_000_000);
    assert s < 86_400 && s / 60 / 60 == s / 3600;
    assert s == (s / 60) * 60 + s % 60 && s / 60 == (s / 60 / 60) * 60 + s / 60 % 60;
  }

  /** One number, digit by digit. */
  lemma {:induction false} DigitsOfANumber()
    ensures Pad(2026, 4) == "2026" && Dec(2026) == "2026" && Pad(7, 2) == "07" && Number("2026") == 2026
  {
    assert Pad(2, 1) == "2" by { assert Pad(0, 0) == []; }
    assert Pad(20, 2) == "20";
    assert Pad(202, 3) == "202";
    assert Pad(0, 1) == "0" by { assert Pad(0, 0) == []; }
    assert Dec(2) == "2" && Dec(20) == "20" && Dec(202) == "202";
    assert Pow10(1) == 10 && Pow10(2) == 100 && Pow10(3) == 1000 && Pow10(4) == 10000;
    NumberOfPad(2026, 4);
  }

  /** The rendering has its fixed width exactly from the year 1000 on. */
  lemma {:induction false} FixedWidthExactly(t: DateTime)
    requires t.Valid()
    ensures |FormatReceiptTime(t)| == 32 <==> FourDigitYear(t)
  {
    assert |FormatReceiptTime(t)| == |Dec(t.date.year)| + 28;
    var y := t.date.year;
    assert Pow10(1) == 10 && Pow10(2) == 100 && Pow10(3) == 1000 && Pow10(4) == 10000;
    if y < 10 { DecIsPad(y, 1); } else if y < 100 { DecIsPad(y, 2); } else if y < 1000 { DecIsPad(y, 3); } else { DecIsPad(y, 4); }
  }

  lemma {:induction false} Radix(x1: int, y1: int, x2: int, y2: int, base: int)
    requires 0 <= y1 < base && 0 <= y2 < base
    ensures x1 * base + y1 < x2 * base + y2 <==> x1 < x2 || (x1 == x2 && y1 < y2)
  {
    if x1 < x2 {
      assert (x1 + 1) * base <= x2 * base;
    } else if x1 > x2 {
      assert (x2 + 1) * base <= x1 * base;
    }
  }

  // One two-field comparison: a padded number, a separator, and the rest.
  lemma {:induction false} PaddedField(n: nat, m: nat, width: nat, sep: string, r: string, r': string)
    requires n < Pow10(width) && m < Pow10(width)
    ensures Lt(Pad(n, width) + sep + r, Pad(m, width) + sep + r') <==> n < m || (n == m && Lt(r, r'))
  {
    PadOrder(n, m, width);
    assert Pad(n, width) + sep + r == Pad(n, width) + (sep + r);
    assert Pad(m, width) + sep + r' == Pad(m, width) + (sep + r');
    FieldByField(Pad(n, width), sep + r, Pad(m, width), sep + r');
    FieldByField(sep, r, sep, r');
    Trichotomy(sep, sep);
  }

  lemma {:induction false} TimeOrder(a: DateTime, b: DateTime)
    requires a.Valid() && b.Valid()
    ensures Lt(TimePart(a), TimePart(b)) <==>
            a.TimeOfDay() < b.TimeOfDay()
  {
    assert Pow10(1) == 10 && Pow10(2) == 100 && Pow10(4) == 100 * 100 && Pow10(6) == 100 * Pow10(4);
    var z := "+00:00";
    var us, us' := Pad(a.micro, 6) + z, Pad(b.micro, 6) + z;
    var s, s' := Pad(a.second, 2) + "." + us, Pad(b.second, 2) + "." + us';
    var m, m' := Pad(a.minute, 2) + ":" + s, Pad(b.minute, 2) + ":" + s';
    PadOrder(a.micro, b.micro, 6);
    FieldByField(Pad(a.micro, 6), z, Pad(b.micro, 6), z);
    Trichotomy(z, z);
    PaddedField(a.second, b.second, 2, ".", us, us');
    PaddedField(a.minute, b.minute, 2, ":", s, s');
    PaddedField(a.hour, b.hour, 2, ":", m, m');
  }

  lemma {:induction false} DayOrder(a: Date, b: Date)
    requires a.Valid() && b.Valid() && a.year >= 1000 && b.year >= 1000
    ensures Lt(DayPart(a), DayPart(b)) <==> a.Before(b)
    ensures DayPart(a) == DayPart(b) <==> a == b
    ensures |DayPart(a)| == |DayPart(b)| == 10
  {
    assert Pow10(1) == 10 && Pow10(2) == 100 && Pow10(3) == 1000 && Pow10(4) == 10000;
    YearIsFourDigits(a);
    YearIsFourDigits(b);
    var d, d' := Pad(a.day, 2), Pad(b.day, 2);
    var m, m' := Pad(a.month, 2) + "-" + d, Pad(b.month, 2) + "-" + d';
    assert DayPart(a) == Pad(a.year, 4) + "-" + m;
    assert DayPart(b) == Pad(b.year, 4) + "-" + m';
    PadOrder(a.day, b.day, 2);
    PaddedField(a.month, b.month, 2, "-", d, d');
    PaddedField(b.month, a.month, 2, "-", d', d);
    PadOrder(b.day, a.day, 2);
    PaddedField(a.year, b.year, 4, "-", m, m');
    PaddedField(b.year, a.year, 4, "-", m', m);
    Trichotomy(DayPart(a), DayPart(b));
  }

  lemma {:induction false} DayThenTime(a: Timestamp, b: Timestamp)
    ensures Lt(FormatReceiptTime(a), FormatReceiptTime(b)) <==>
            a.date.Before(b.date) || (a.date == b.date && Lt(TimePart(a), TimePart(b)))
  {
    DayOrder(a.date, b.date);
    FieldByField(DayPart(a.date) + "T", TimePart(a), DayPart(b.date) + "T", TimePart(b));
    FieldByField(DayPart(a.date), "T", DayPart(b.date), "T");
    Trichotomy("T", "T");
    assert (DayPart(a.date) + "T")[..10] == DayPart(a.date) && (DayPart(b.date) + "T")[..10] == DayPart(b.date);
  }

  /** Comparing the rendered strings is comparing the instants. */
  lemma {:induction false} RenderedOrder(a: Timestamp, b: Timestamp)
    ensures Lt(FormatReceiptTime(a), FormatReceiptTime(b)) <==> a.Instant() < b.Instant()
  {
    DayThenTime(a, b);
    TimeOrder(a, b);
    OrdinalOrder(a.date, b.date);
    Radix(Ordinal(a.date), a.TimeOfDay(), Ordinal(b.date), b.TimeOfDay(), MICROS_PER_DAY);
  }

  /** No two instants share a rendering. */
  lemma {:induction false} RenderedInjective(a: Timestamp, b: Timestamp)
    requires FormatReceiptTime(a) == FormatReceiptTime(b)
    ensures a == b
  {
    hide FormatReceiptTime, Ordinal;
    RenderedOrder(a, b);
    RenderedOrder(b, a);
    Trichotomy(FormatReceiptTime(a), FormatReceiptTime(b));
    StartsWithDay(a);
    StartsWithDay(b);
    DayOrder(a.date, b.date);
  }

  lemma {:induction false} StartsWithDay(t: Timestamp)
    ensures FormatReceiptTime(t)[..10] == DayPart(t.date)
  {
    DayOrder(t.date, t.date);
  }

  /** Before the year 1000 the year is not padded and the order of strings breaks. */
  lemma {:induction false} ShortYearsBreakTheOrder()
    ensures var a, b := DateTime(Date(999, 1, 1), 0, 0, 0, 0), DateTime(Date(1000, 1, 1), 0, 0, 0, 0);
            a.Instant() < b.Instant() && Lt(FormatReceiptTime(b), FormatReceiptTime(a))
  {
    var a, b := DateTime(Date(999, 1, 1), 0, 0, 0, 0), DateTime(Date(1000, 1, 1), 0, 0, 0, 0);
    OrdinalOrder(a.date, b.date);
    assert Dec(999)[0] == '9' by { assert Dec(999) == Dec(99) + "9"; assert Dec(99) == Dec(9) + "9"; }
    assert Dec(1000)[0] == '1' by {
      assert Dec(1000) == Dec(100) + "0"; assert Dec(100) == Dec(10) + "0"; assert Dec(10) == Dec(1) + "0";
    }
    assert FormatReceiptTime(a)[0] == '9' && FormatReceiptTime(b)[0] == '1';
  }
}
