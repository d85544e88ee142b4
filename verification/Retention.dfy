/** sylo/retention/core.py: one pass drops every month that has aged out, index and text alike. */
module Retention {
  import opened Wrappers
  import opened Lex
  import opened Calendar
  import opened TimeUtil

  // ----- months -----

  /** "2026-07": year and month of a month key in canonical form, if `_month_end` accepts it. It
      takes 00 for the month before January, except that no day comes before year 1. */
  function ParseMonth(key: string): (r: Option<(int, int)>)
    ensures r.Some? ==> HasEnd(r.value.0, r.value.1)
  {
    if |key| == 7 && key[4] == '-' && AllDigits(key[..4]) && AllDigits(key[5..]) then
      var year, month := Number(key[..4]), Number(key[5..]);
      if HasEnd(year, month) then Some((year, month)) else None
    else None
  }

  predicate HasEnd(year: int, month: int) {
    1 <= year <= 9999 && 0 <= month <= 12 && (month == 0 ==> year > 1)
  }

  /** The month key of a date is read back. */
  lemma {:induction false} MonthKeyParses(d: Date)
    requires d.Valid() && d.year >= 1000
    ensures ParseMonth(MonthKeyOf(d)) == Some((d.year, d.month))
  {
    assert Pow10(1) == 10 && Pow10(2) == 100 && Pow10(3) == 1000 && Pow10(4) == 10000;
    YearIsFourDigits(d);
    NumberOfPad(d.year, 4);
    NumberOfPad(d.month, 2);
    var key := MonthKeyOf(d);
    assert key[..4] == Pad(d.year, 4) && key[5..] == Pad(d.month, 2);
  }

  /** `_month_end`, by way of the first of the next month. */
  function MonthEnd(year: int, month: int): (d: Date)
    requires HasEnd(year, month)
    ensures d.Valid()
  {
    if month == 12 then Date(year, 12, 31) else PreviousDay(Date(year, month + 1, 1))
  }

  /** It is the last day of the month, leap years included: the day before the first of the next
      month, and no later day is in the month. Month 00 ends with the year before. */
  lemma {:induction false} MonthEndIsLast(year: int, month: int, d: Date)
    requires HasEnd(year, month) && d.Valid()
    ensures month >= 1 ==> MonthEnd(year, month) == Date(year, month, DaysInMonth(year, month))
    ensures month == 0 ==> MonthEnd(year, 0) == Date(year - 1, 12, 31)
    ensures month < 12 ==> Ordinal(MonthEnd(year, month)) == Ordinal(Date(year, month + 1, 1)) - 1
    ensures month == 12 && year < 9999 ==> Ordinal(MonthEnd(year, month)) == Ordinal(Date(year + 1, 1, 1)) - 1
    ensures d.year == year && d.month == month ==> Ordinal(d) <= Ordinal(MonthEnd(year, month))
    ensures Ordinal(d) == Ordinal(MonthEnd(year, month)) + 1 ==> !(d.year == year && d.month == month)
  {
    hide DaysBeforeYear, DaysBeforeMonth;
    OrdinalOrder(MonthEnd(year, month), d);
    if month < 12 {
      PreviousDayOrdinal(Date(year, month + 1, 1));
    } else if year < 9999 {
      PreviousDayOrdinal(Date(year + 1, 1, 1));
    }
  }

  function EndOf(ym: (int, int)): int
    requires HasEnd(ym.0, ym.1)
  {
    Ordinal(MonthEnd(ym.0, ym.1))
  }

  // ----- what expires -----

  /** The last day of the month is before the cutoff. */
  predicate Aged(key: string, cutoff: int) {
    ParseMonth(key).Some? && EndOf(ParseMonth(key).value) < cutoff
  }

  // The months with an index file, in the order in which the pass visits them.
  predicate WellNamed(keys: seq<string>) {
    forall k :: k in keys ==> ParseMonth(k).Some?
  }

  function Cutoff(today: Date, retentionDays: int): int
    requires today.Valid()
  {
    Ordinal(today) - retentionDays
  }

  // The aged months but the running one, in listing order.
  function ExpiredOf(keys: seq<string>, cutoff: int, current: string): seq<string> {
    if keys == [] then [] else
      var k := keys[|keys| - 1];
      ExpiredOf(keys[..|keys| - 1], cutoff, current) + if k != current && Aged(k, cutoff) then [k] else []
  }

  lemma {:induction false} ExpiredOfExactly(keys: seq<string>, cutoff: int, current: string)
    ensures forall k :: k in ExpiredOf(keys, cutoff, current) <==> k in keys && k != current && Aged(k, cutoff)
  {
    hide Aged;
    if keys != [] {
      ExpiredOfExactly(keys[..|keys| - 1], cutoff, current);
      assert keys == keys[..|keys| - 1] + [keys[|keys| - 1]];
    }
  }

  /** With a window of at least no days the running month has not aged: the guard against it and
      both assertions never change anything. */
  lemma {:induction false} CurrentMonthNeverAges(today: Date, retentionDays: int)
    requires today.Valid() && today.year >= 1000 && retentionDays >= 0
    ensures !Aged(MonthKeyOf(today), Cutoff(today, retentionDays))
  {
    hide Ordinal;
    MonthKeyParses(today);
    MonthEndIsLast(today.year, today.month, today);
  }

  /** With a window of at least a day, so has the month of a date that is off by one, as the
      receiver's UTC date can be from the local date here. */
  lemma {:induction false} NeighbourMonthNeverAges(today: Date, other: Date, retentionDays: int)
    requires today.Valid() && other.Valid() && other.year >= 1000 && retentionDays >= 1
    requires Ordinal(today) - 1 <= Ordinal(other) <= Ordinal(today) + 1
    ensures !Aged(MonthKeyOf(other), Cutoff(today, retentionDays))
  {
    hide Ordinal;
    MonthKeyParses(other);
    MonthEndIsLast(other.year, other.month, other);
  }

  /** `_expired_month_keys`: a month key that cannot be read as a month ends the pass. */
  method ExpiredMonthKeys(keys: seq<string>, retentionDays: int, today: Date) returns (expired: Option<seq<string>>)
    requires today.Valid() && today.year >= 1000
    ensures expired == if WellNamed(keys) then Some(ExpiredOf(keys, Cutoff(today, retentionDays), MonthKeyOf(today))) else None
  {
    hide Ordinal, ParseMonth, MonthEnd, MonthKeyOf;
    var cutoff := Ordinal(today) - retentionDays;
    var currentMonthKey := MonthKeyOf(today);
    CurrentParses(today);
    var found: seq<string> := [];
    for i := 0 to |keys|
      invariant WellNamed(keys[..i])
      invariant found == ExpiredOf(keys[..i], cutoff, currentMonthKey)
    {
      assert keys[..i + 1] == keys[..i] + [keys[i]] && keys[..i + 1][..i] == keys[..i];
      if keys[i] == currentMonthKey {
        continue;
      }
      var ym := ParseMonth(keys[i]);
      if ym.None? {
        assert keys[i] in keys;
        return None;
      }
      if Ordinal(MonthEnd(ym.value.0, ym.value.1)) < cutoff {
        found := found + [keys[i]];
      }
    }
    assert keys[..|keys|] == keys;
    expired := Some(found);
  }

  /** Every month in canonical form is read back, if it has an end. */
  lemma {:induction false} CanonicalParses(year: nat, month: nat)
    requires year < 10000 && month < 100
    ensures ParseMonth(Pad(year, 4) + "-" + Pad(month, 2)) == if HasEnd(year, month) then Some((year, month)) else None
    ensures HasEnd(year, month) <==> year >= 1 && month <= 12 && !(year == 1 && month == 0)
  {
    assert Pow10(1) == 10 && Pow10(2) == 100 && Pow10(3) == 1000 && Pow10(4) == 10000;
    NumberOfPad(year, 4);
    NumberOfPad(month, 2);
    var key := Pad(year, 4) + "-" + Pad(month, 2);
    assert key[..4] == Pad(year, 4) && key[5..] == Pad(month, 2);
  }

  /** And no other name is. */
  lemma {:induction false} OnlyCanonicalParses(key: string)
    ensures ParseMonth(key).Some? ==> var (year, month) := ParseMonth(key).value; key == Pad(year, 4) + "-" + Pad(month, 2)
  {
    if ParseMonth(key).Some? {
      PadOfNumber(key[..4]);
      PadOfNumber(key[5..]);
      assert key == key[..4] + [key[4]] + key[5..];
    }
  }

  /** A month has aged exactly when its last day is before the cutoff. */
  lemma {:induction false} AgedExactly(d: Date, cutoff: int)
    requires d.Valid() && d.year >= 1000
    ensures Aged(MonthKeyOf(d), cutoff) <==> Ordinal(Date(d.year, d.month, DaysInMonth(d.year, d.month))) < cutoff
  {
    hide Ordinal, DaysInMonth;
    MonthKeyParses(d);
    MonthEndIsLast(d.year, d.month, d);
  }

  lemma {:induction false} CurrentParses(today: Date)
    requires today.Valid() && today.year >= 1000
    ensures ParseMonth(MonthKeyOf(today)).Some?
  {
    MonthKeyParses(today);
  }

  // ----- the store -----

  datatype Suffix = Main | Wal | Shm

  /** Index files by month key and suffix, text files by device directory and name. */
  datatype Store = Store(index: set<(string, Suffix)>, raw: set<(string, string)>)

  /** glob `<month>-*.log` */
  predicate InMonth(name: string, month: string) {
    |name| >= |month| + 5 && name[..|month|] == month && name[|month|] == '-' && name[|name| - 4..] == ".log"
  }

  /** The names that the pattern accepts. */
  lemma {:induction false} InMonthExactly(name: string, month: string)
    ensures InMonth(name, month) <==> exists middle: string :: name == month + "-" + middle + ".log"
  {
    if InMonth(name, month) {
      var n := |month|;
      var middle := name[n + 1..|name| - 4];
      assert name == name[..n] + [name[n]] + middle + name[|name| - 4..];
      assert name == month + "-" + middle + ".log";
    }
    forall middle: string | name == month + "-" + middle + ".log" ensures InMonth(name, month) {
      assert name[|name| - 4..] == ".log";
    }
  }

  function Dropped(s: Store, keys: set<string>): Store {
    Store(set f | f in s.index && f.0 !in keys, set f | f in s.raw && !exists k :: k in keys && InMonth(f.1, k))
  }

  // The months that have a main index file.
  function IndexMonths(s: Store): set<string> {
    set f | f in s.index && f.1 == Main && |f.0| == 7 :: f.0
  }

  method DeleteIndexMonth(s: Store, month: string, ghost today: Date) returns (s': Store, deleted: nat)
    requires today.Valid() && month != MonthKeyOf(today)      // the source asserts this
    ensures s' == s.(index := set f | f in s.index && f.0 != month)
    ensures deleted == |s.index| - |s'.index|
  {
    hide MonthKeyOf;
    s', deleted := s, 0;
    var suffixes := [Main, Wal, Shm];
    for i := 0 to 3
      invariant s'.raw == s.raw && s'.index == set f | f in s.index && !(f.0 == month && f.1 in suffixes[..i])
      invariant deleted == |s.index| - |s'.index|
    {
      var path := (month, suffixes[i]);
      assert suffixes[..i + 1] == suffixes[..i] + [suffixes[i]];
      if path in s'.index {
        s' := s'.(index := s'.index - {path});
        deleted := deleted + 1;
      }
    }
    assert suffixes[..3] == suffixes;
    forall f | f in s.index ensures f.1 in suffixes {
      match f.1
      case Main => assert suffixes[0] == f.1;
      case Wal => assert suffixes[1] == f.1;
      case Shm => assert suffixes[2] == f.1;
    }
  }

  method DeleteRawMonth(s: Store, month: string, ghost today: Date) returns (s': Store, deleted: nat)
    requires today.Valid() && month != MonthKeyOf(today)      // the source asserts this
    ensures s' == s.(raw := set f | f in s.raw && !InMonth(f.1, month))
    ensures deleted == |s.raw| - |s'.raw|
  {
    hide MonthKeyOf, InMonth;
    s', deleted := s, 0;
    var todo := s.raw;
    while todo != {}
      invariant todo <= s.raw && s'.index == s.index
      invariant s'.raw == set f | f in s.raw && (f in todo || !InMonth(f.1, month))
      invariant deleted == |s.raw| - |s'.raw|
      decreases |todo|
    {
      var f :| f in todo;
      todo := todo - {f};
      if InMonth(f.1, month) {
        s' := s'.(raw := s'.raw - {f});
        deleted := deleted + 1;
      }
    }
  }

  // ----- the pass -----

  function AgedMonths(s: Store, cutoff: int): set<string> {
    set k | k in IndexMonths(s) && Aged(k, cutoff)
  }

  /** What a pass leaves: nothing of the months that have an index file and have aged. */
  function Pass(s: Store, cutoff: int): Store {
    Dropped(s, AgedMonths(s, cutoff))
  }

  datatype Summary = Summary(droppedMonths: seq<string>, indexFilesDeleted: nat, rawFilesDeleted: nat)

  function Elems(keys: seq<string>): set<string> { set k | k in keys }

  lemma {:induction false} ElemsSnoc(keys: seq<string>, k: string)
    ensures Elems(keys + [k]) == Elems(keys) + {k}
  {
  }

  lemma {:induction false} DropOneMore(s: Store, keys: set<string>, month: string)
    ensures var s1 := Dropped(s, keys);
            Dropped(s, keys + {month}) ==
              Store(set f | f in s1.index && f.0 != month, set f | f in s1.raw && !InMonth(f.1, month))
  {
    hide InMonth;
    var a, b := Dropped(s, keys + {month}).raw, set f | f in Dropped(s, keys).raw && !InMonth(f.1, month);
    forall f | f in s.raw ensures f in a <==> f in b {
      if exists k :: k in keys && InMonth(f.1, k) {
        var k :| k in keys && InMonth(f.1, k);
        assert k in keys + {month};
      }
      assert InMonth(f.1, month) ==> month in keys + {month};
    }
    assert a == b;
  }

  lemma {:induction false} ExpiredAreAged(s: Store, keys: seq<string>, cutoff: int, current: string)
    requires forall k :: k in keys <==> k in IndexMonths(s)
    ensures Elems(ExpiredOf(keys, cutoff, current)) == AgedMonths(s, cutoff) - {current}
  {
    hide Aged, IndexMonths;
    ExpiredOfExactly(keys, cutoff, current);
  }

  // The months to drop leave out the running one, so the deletions are allowed.
  lemma {:induction false} ExpiredAreNotCurrent(keys: seq<string>, cutoff: int, current: string)
    ensures current !in ExpiredOf(keys, cutoff, current)
  {
    hide Aged;
    ExpiredOfExactly(keys, cutoff, current);
  }

  /** With a window of at least no days, what the method below does is exactly `Pass`. */
  lemma {:induction false} GuardChangesNothing(s: Store, today: Date, retentionDays: int)
    requires today.Valid() && today.year >= 1000 && retentionDays >= 0
    ensures Dropped(s, AgedMonths(s, Cutoff(today, retentionDays)) - {MonthKeyOf(today)}) == Pass(s, Cutoff(today, retentionDays))
  {
    hide Aged, MonthKeyOf, Dropped, IndexMonths;
    CurrentMonthNeverAges(today, retentionDays);
    var aged := AgedMonths(s, Cutoff(today, retentionDays));
    assert aged - {MonthKeyOf(today)} == aged;
  }

  lemma {:induction false} OneMonthOneKey(a: Date, b: Date)
    requires a.Valid() && a.year >= 1000 && b.Valid() && b.year >= 1000
    ensures MonthKeyOf(a) == MonthKeyOf(b) <==> a.year == b.year && a.month == b.month
  {
    MonthKeyParses(a);
    MonthKeyParses(b);
  }

  // A daily file is in exactly one month.
  lemma {:induction false} DailyInMonth(d: Date, k: string)
    requires d.Valid() && d.year >= 1000 && |k| == 7
    ensures InMonth(IsoDay(d) + ".log", k) <==> k == MonthKeyOf(d)
  {
    YearIsFourDigits(d);
    var name := IsoDay(d) + ".log";
    assert name == MonthKeyOf(d) + "-" + Pad(d.day, 2) + ".log";
    assert name[..7] == MonthKeyOf(d) && name[7] == '-';
    assert name[|name| - 4..] == ".log";
  }

  lemma {:induction false} DailyDropped(s: Store, keys: set<string>, dir: string, d: Date)
    requires d.Valid() && d.year >= 1000 && forall k :: k in keys ==> |k| == 7
    ensures (dir, IsoDay(d) + ".log") in Dropped(s, keys).raw <==> (dir, IsoDay(d) + ".log") in s.raw && MonthKeyOf(d) !in keys
  {
    hide InMonth, IsoDay, MonthKeyOf;
    forall k | k in keys ensures InMonth(IsoDay(d) + ".log", k) <==> k == MonthKeyOf(d) {
      DailyInMonth(d, k);
    }
  }

  /** The month of the day has an index file, is not the running month, and ended more than the
      window ago. */
  ghost predicate Outlived(s: Store, d: Date, today: Date, retentionDays: int)
    requires d.Valid() && today.Valid()
  {
    && (MonthKeyOf(d), Main) in s.index
    && !(d.year == today.year && d.month == today.month)
    && Ordinal(Date(d.year, d.month, DaysInMonth(d.year, d.month))) < Ordinal(today) - retentionDays
  }

  /** Of the daily text files, exactly those of outlived months go; and of the index files, with
      their sidecars, likewise. */
  lemma {:induction false} DroppedExactly(s: Store, today: Date, retentionDays: int, dir: string, suffix: Suffix, d: Date)
    requires today.Valid() && today.year >= 1000 && d.Valid() && d.year >= 1000
    ensures var s' := Dropped(s, AgedMonths(s, Cutoff(today, retentionDays)) - {MonthKeyOf(today)});
            GoesIfOutlived(s, s', today, retentionDays, dir, suffix, d)
  {
    var keys := AgedMonths(s, Cutoff(today, retentionDays)) - {MonthKeyOf(today)};
    IndexMonthsExactly(s, MonthKeyOf(d));
    MonthKeyLength(d);
    hide Ordinal, DaysInMonth, InMonth, IsoDay, MonthKeyOf, Aged, IndexMonths;
    forall k | k in keys ensures |k| == 7 {
      IndexMonthsExactly(s, k);
    }
    DailyDropped(s, keys, dir, d);
    AgedExactly(d, Cutoff(today, retentionDays));
    OneMonthOneKey(d, today);
  }

  lemma {:induction false} MonthKeyLength(d: Date)
    requires d.Valid() && d.year >= 1000
    ensures |MonthKeyOf(d)| == 7
  {
    YearIsFourDigits(d);
  }

  lemma {:induction false} IndexMonthsExactly(s: Store, k: string)
    ensures k in IndexMonths(s) <==> (k, Main) in s.index && |k| == 7
  {
    if k in IndexMonths(s) {
      var f :| f in s.index && f.1 == Main && |f.0| == 7 && f.0 == k;
      assert f == (k, Main);
    }
  }

  // All of them at once, for any days and directories.
  ghost predicate OnlyOutlivedGo(s: Store, s': Store, today: Date, retentionDays: int)
    requires today.Valid()
  {
    forall dir: string, suffix: Suffix, d: Date | d.Valid() && d.year >= 1000 :: GoesIfOutlived(s, s', today, retentionDays, dir, suffix, d)
  }

  ghost predicate GoesIfOutlived(s: Store, s': Store, today: Date, retentionDays: int, dir: string, suffix: Suffix, d: Date)
    requires today.Valid() && d.Valid()
  {
    && ((dir, IsoDay(d) + ".log") in s'.raw <==> (dir, IsoDay(d) + ".log") in s.raw && !Outlived(s, d, today, retentionDays))
    && ((MonthKeyOf(d), suffix) in s'.index <==> (MonthKeyOf(d), suffix) in s.index && !Outlived(s, d, today, retentionDays))
  }

  lemma {:induction false} PassesOnlyOutlived(s: Store, today: Date, retentionDays: int)
    requires today.Valid() && today.year >= 1000
    ensures OnlyOutlivedGo(s, Dropped(s, AgedMonths(s, Cutoff(today, retentionDays)) - {MonthKeyOf(today)}), today, retentionDays)
  {
    hide Outlived, Dropped, AgedMonths, Cutoff, MonthKeyOf, IsoDay, GoesIfOutlived;
    var s' := Dropped(s, AgedMonths(s, Cutoff(today, retentionDays)) - {MonthKeyOf(today)});
    forall dir: string, suffix: Suffix, d: Date | d.Valid() && d.year >= 1000
      ensures GoesIfOutlived(s, s', today, retentionDays, dir, suffix, d)
    {
      DroppedExactly(s, today, retentionDays, dir, suffix, d);
    }
  }

  /** One pass over the listing of index months. An unreadable month key fails the pass before
      anything is deleted. */
  method RunRetention(s: Store, keys: seq<string>, retentionDays: int, today: Date) returns (summary: Option<Summary>, s': Store)
    requires forall k :: k in keys <==> k in IndexMonths(s)
    requires today.Valid() && today.year >= 1000
    ensures summary.Some? <==> WellNamed(keys)
    ensures summary.None? ==> s' == s
    ensures summary.Some? ==> OnlyOutlivedGo(s, s', today, retentionDays)
    ensures summary.Some? ==>
              && s' == Dropped(s, AgedMonths(s, Cutoff(today, retentionDays)) - {MonthKeyOf(today)})
              && summary.value.droppedMonths == ExpiredOf(keys, Cutoff(today, retentionDays), MonthKeyOf(today))
              && summary.value.indexFilesDeleted + |s'.index| == |s.index|
              && summary.value.rawFilesDeleted + |s'.raw| == |s.raw|
  {
    hide IndexMonths, Aged, ExpiredOf, InMonth, Dropped, Cutoff, MonthKeyOf, ParseMonth, OnlyOutlivedGo;
    s' := s;
    var expired := ExpiredMonthKeys(keys, retentionDays, today);
    if expired.None? {
      return None, s';
    }
    var months := expired.value;
    ExpiredAreNotCurrent(keys, Cutoff(today, retentionDays), MonthKeyOf(today));
    var indexDeleted, rawDeleted := 0, 0;
    NothingDropped(s);
    assert Elems(months[..0]) == {};
    for i := 0 to |months|
      invariant s' == Dropped(s, Elems(months[..i]))
      invariant indexDeleted == |s.index| - |s'.index| && rawDeleted == |s.raw| - |s'.raw|
    {
      assert months[i] in months;
      DropOneMore(s, Elems(months[..i]), months[i]);
      assert Elems(months[..i + 1]) == Elems(months[..i]) + {months[i]} by {
        ElemsSnoc(months[..i], months[i]);
        assert months[..i + 1] == months[..i] + [months[i]];
      }
      var n;
      s', n := DeleteIndexMonth(s', months[i], today);
      indexDeleted := indexDeleted + n;
      s', n := DeleteRawMonth(s', months[i], today);
      rawDeleted := rawDeleted + n;
    }
    assert months[..|months|] == months;
    ExpiredAreAged(s, keys, Cutoff(today, retentionDays), MonthKeyOf(today));
    PassesOnlyOutlived(s, today, retentionDays);
    summary := Some(Summary(months, indexDeleted, rawDeleted));
  }

  lemma {:induction false} NothingDropped(s: Store)
    ensures Dropped(s, {}) == s
  {
    hide InMonth;
    assert Dropped(s, {}).raw == s.raw;
    assert Dropped(s, {}).index == s.index;
  }

  // ----- what a pass never does -----

  /** Without the guard: a daily text file goes if and only if its month has an index file and its
      month's last day is before the cutoff. */
  lemma {:induction false} PassExactly(s: Store, cutoff: int, dir: string, d: Date)
    requires d.Valid() && d.year >= 1000
    ensures (dir, IsoDay(d) + ".log") in Pass(s, cutoff).raw <==>
            && (dir, IsoDay(d) + ".log") in s.raw
            && !((MonthKeyOf(d), Main) in s.index && Ordinal(Date(d.year, d.month, DaysInMonth(d.year, d.month))) < cutoff)
  {
    IndexMonthsExactly(s, MonthKeyOf(d));
    MonthKeyLength(d);
    hide Ordinal, DaysInMonth, InMonth, IsoDay, MonthKeyOf, Aged, IndexMonths;
    forall k | k in AgedMonths(s, cutoff) ensures |k| == 7 {
      IndexMonthsExactly(s, k);
    }
    DailyDropped(s, AgedMonths(s, cutoff), dir, d);
    AgedExactly(d, cutoff);
  }

  /** Every daily text file it deletes is older than the cutoff. */
  lemma {:induction false} DeletedFilesAreOld(s: Store, cutoff: int, dir: string, d: Date)
    requires d.Valid() && d.year >= 1000
    requires (dir, IsoDay(d) + ".log") in s.raw && (dir, IsoDay(d) + ".log") !in Pass(s, cutoff).raw
    ensures Ordinal(d) < cutoff
  {
    hide Ordinal, IndexMonths, ParseMonth;
    var name := IsoDay(d) + ".log";
    var k :| k in AgedMonths(s, cutoff) && InMonth(name, k);
    SevenLong(k);
    YearIsFourDigits(d);
    assert name[..7] == MonthKeyOf(d);
    MonthKeyParses(d);
    MonthEndIsLast(d.year, d.month, d);
  }

  lemma {:induction false} SevenLong(k: string)
    ensures ParseMonth(k).Some? ==> |k| == 7
  {
  }

  /** Text of a month without an index file is left alone, however old. */
  lemma {:induction false} NoIndexNoDeletion(s: Store, cutoff: int, f: (string, string))
    requires f in s.raw && forall k :: k in IndexMonths(s) ==> !InMonth(f.1, k)
    ensures f in Pass(s, cutoff).raw
  {
    hide InMonth, Aged, IndexMonths;
  }

  lemma {:induction false} AgedGrows(k: string, c1: int, c2: int)
    requires c1 <= c2 && Aged(k, c1)
    ensures Aged(k, c2)
  {
    hide EndOf, ParseMonth;
  }

  /** Passing early and again later leaves what passing once later leaves; passing again with the
      same cutoff drops nothing more. */
  lemma {:induction false} TwoPasses(s: Store, c1: int, c2: int)
    requires c1 <= c2
    ensures Pass(Pass(s, c1), c2) == Pass(s, c2)
    ensures AgedMonths(Pass(s, c1), c1) == {}
  {
    hide InMonth, Aged;
    var s1 := Pass(s, c1);
    forall k | Aged(k, c1) ensures Aged(k, c2) {
      AgedGrows(k, c1, c2);
    }
    MonthsLeft(s, c1);
    assert Pass(s1, c2).index == Pass(s, c2).index;
    forall f | f in s.raw ensures f in Pass(s1, c2).raw <==> f in Pass(s, c2).raw {
      if exists k :: k in AgedMonths(s, c2) && InMonth(f.1, k) {
        var k :| k in AgedMonths(s, c2) && InMonth(f.1, k);
        assert k in AgedMonths(s, c1) || k in AgedMonths(s1, c2);
      }
      if exists k :: k in AgedMonths(s, c1) && InMonth(f.1, k) {
        var k :| k in AgedMonths(s, c1) && InMonth(f.1, k);
        assert k in AgedMonths(s, c2);
      }
      if exists k :: k in AgedMonths(s1, c2) && InMonth(f.1, k) {
        var k :| k in AgedMonths(s1, c2) && InMonth(f.1, k);
        assert k in AgedMonths(s, c2);
      }
    }
    assert Pass(s1, c2).raw == Pass(s, c2).raw;
  }

  lemma {:induction false} MonthsLeft(s: Store, cutoff: int)
    ensures IndexMonths(Pass(s, cutoff)) == IndexMonths(s) - AgedMonths(s, cutoff)
  {
    hide InMonth, Aged;
    forall k | k in IndexMonths(s) - AgedMonths(s, cutoff) ensures k in IndexMonths(Pass(s, cutoff)) {
      var f :| f in s.index && f.1 == Main && |f.0| == 7 && f.0 == k;
      assert f in Pass(s, cutoff).index;
    }
  }
}
