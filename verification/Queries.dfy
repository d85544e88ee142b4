/** The search of sylo/webapp/queries.py over the monthly index files. */
module Queries {
  import opened Wrappers
  import opened Seqs
  import opened Sorting
  import opened Envelope
  import Lex
  import IndexerCore

  datatype MessageFilter = MessageFilter(host: Option<seq<string>>, severity: Option<nat>, facility: Option<nat>,
                                         start: Option<string>, end: Option<string>, text: Option<string>, malformedOnly: bool)

  /** A month file as SQLite presents it to this query: its rows in the order in which
      `ORDER BY receipt_time DESC` returns them, ties in some fixed order. */
  datatype Partition = Partition(key: string, rows: seq<Row>)

  function Time(r: Row): string { r.receiptTime }
  function MonthName(p: Partition): string { p.key }

  // Python's truth value of an optional string.
  predicate Given(s: Option<string>) { s.Some? && s.value != "" }

  /** The WHERE clause. `fts` is what MATCH accepts. */
  predicate Matches(f: MessageFilter, fts: (string, Row) -> bool, r: Row) {
    && (Given(f.text) ==> fts(f.text.value, r))
    && (f.host.Some? && f.host.value != [] ==> r.fields.host.Some? && r.fields.host.value in f.host.value)
    && (f.severity.Some? ==> r.fields.severity == f.severity)
    && (f.facility.Some? ==> r.fields.facility == f.facility)
    && (Given(f.start) ==> Lex.Leq(f.start.value, r.receiptTime))
    && (Given(f.end) ==> Lex.Leq(r.receiptTime, f.end.value))
    && (f.malformedOnly ==> r.fields.malformed)
  }

  const NO_FILTER := MessageFilter(None, None, None, None, None, None, false)

  /** What the fields of a filter mean, one by one; with several given, all must hold. An absent field
      accepts every row, and so do an empty list of hosts and an empty text or bound. */
  lemma {:induction false} FilterMeaning(f: MessageFilter, fts: (string, Row) -> bool, r: Row)
    ensures Matches(f, fts, r) <==>
              && Matches(NO_FILTER.(host := f.host), fts, r) && Matches(NO_FILTER.(severity := f.severity), fts, r)
              && Matches(NO_FILTER.(facility := f.facility), fts, r) && Matches(NO_FILTER.(start := f.start), fts, r)
              && Matches(NO_FILTER.(end := f.end), fts, r) && Matches(NO_FILTER.(text := f.text), fts, r)
              && Matches(NO_FILTER.(malformedOnly := f.malformedOnly), fts, r)
    ensures Matches(NO_FILTER, fts, r) && Matches(NO_FILTER.(host := Some([])), fts, r)
    ensures Matches(NO_FILTER.(start := Some("")), fts, r) && Matches(NO_FILTER.(end := Some("")), fts, r)
    ensures Matches(NO_FILTER.(text := Some("")), fts, r)
    ensures forall h: string, hs: seq<string> ::
              h in hs ==> (Matches(NO_FILTER.(host := Some(hs)), fts, r.(fields := r.fields.(host := Some(h))))
                           && !Matches(NO_FILTER.(host := Some(hs)), fts, r.(fields := r.fields.(host := None))))
    ensures forall h: string, hs: seq<string> ::
              hs != [] && h !in hs ==> !Matches(NO_FILTER.(host := Some(hs)), fts, r.(fields := r.fields.(host := Some(h))))
    ensures forall n: nat, k: Option<nat> ::
              Matches(NO_FILTER.(severity := Some(n)), fts, r.(fields := r.fields.(severity := k))) <==> k == Some(n)
    ensures forall n: nat, k: Option<nat> ::
              Matches(NO_FILTER.(facility := Some(n)), fts, r.(fields := r.fields.(facility := k))) <==> k == Some(n)
    ensures forall t: string ::
              t != "" ==> (Matches(NO_FILTER.(start := Some(t)), fts, r) <==> t == r.receiptTime || Lex.Lt(t, r.receiptTime))
    ensures forall t: string ::
              t != "" ==> (Matches(NO_FILTER.(end := Some(t)), fts, r) <==> r.receiptTime == t || Lex.Lt(r.receiptTime, t))
    ensures forall t: string :: t != "" ==> (Matches(NO_FILTER.(text := Some(t)), fts, r) <==> fts(t, r))
    ensures Matches(NO_FILTER.(malformedOnly := true), fts, r) <==> r.fields.malformed
  {
    hide Lex.Lt;
  }

  function Filter(rows: seq<Row>, f: MessageFilter, fts: (string, Row) -> bool): seq<Row> {
    if rows == [] then []
    else (if Matches(f, fts, rows[0]) then [rows[0]] else []) + Filter(rows[1..], f, fts)
  }

  /** One month's query with its LIMIT. */
  function RunQuery(p: Partition, f: MessageFilter, fts: (string, Row) -> bool, limit: nat): seq<Row> {
    Take(Filter(p.rows, f, fts), limit)
  }

  // ----- which months are read -----

  function SevenLong(files: seq<Partition>): seq<Partition> {
    if files == [] then [] else (if |files[0].key| == 7 then [files[0]] else []) + SevenLong(files[1..])
  }

  /** `_available_month_keys`: month files, newest first. */
  function Available(files: seq<Partition>): seq<Partition> {
    SortDesc(SevenLong(files), MonthName)
  }

  predicate InRange(f: MessageFilter, key: string) {
    && !(Given(f.start) && Lex.Lt(key, Lex.Prefix(f.start.value, 7)))
    && !(Given(f.end) && Lex.Lt(Lex.Prefix(f.end.value, 7), key))
  }

  function OnlyInRange(f: MessageFilter, ps: seq<Partition>): seq<Partition> {
    if ps == [] then [] else (if InRange(f, ps[0].key) then [ps[0]] else []) + OnlyInRange(f, ps[1..])
  }

  /** `_relevant_month_keys` */
  function Relevant(f: MessageFilter, files: seq<Partition>, recentMonths: nat): seq<Partition> {
    if f.start.None? && f.end.None? then Take(Available(files), recentMonths) else OnlyInRange(f, Available(files))
  }

  function NameLength(p: Partition): nat { |p.key| }

  /** Without a bound the newest months are read, as many as are configured or there are: no month
      file with a proper name that is left out is newer than one that is read. */
  lemma {:induction false} DefaultMonths(f: MessageFilter, files: seq<Partition>, recentMonths: nat)
    requires f.start == None && f.end == None
    ensures var read, n := Relevant(f, files, recentMonths), |Select(files, NameLength, 7)|;
            && |read| == (if recentMonths < n then recentMonths else n)
            && multiset(read) <= multiset(files)
            && Descending(read, MonthName)
            && (forall p :: p in read ==> |p.key| == 7)
            && forall p, q :: p in read && q in files && |q.key| == 7 && q !in read ==> !Lex.Lt(p.key, q.key)
  {
    hide Lex.Lt, SortDesc, SevenLong;
    var all, read := Available(files), Relevant(f, files, recentMonths);
    SevenLongSelected(files);
    SortSorts(SevenLong(files), MonthName);
    AvailableAreFiles(files);
    SelectedMultiset(files);
    FrontIsNewest(all, |read|);
  }

  lemma {:induction false} FrontIsNewest(all: seq<Partition>, k: nat)
    requires Descending(all, MonthName) && k <= |all|
    ensures Descending(all[..k], MonthName) && multiset(all[..k]) <= multiset(all)
    ensures forall p, q :: p in all[..k] && q in all && q !in all[..k] ==> !Lex.Lt(p.key, q.key)
  {
    hide Lex.Lt;
    var read := all[..k];
    assert all == read + all[k..];
    forall p, q | p in read && q in all && q !in read ensures !Lex.Lt(p.key, q.key) {
      var i :| 0 <= i < k && all[i] == p;
      assert q in all[k..];
      var j :| 0 <= j < |all| - k && all[k..][j] == q;
      assert !Lex.Lt(MonthName(all[i]), MonthName(all[k + j]));
    }
  }

  lemma {:induction false} SevenLongSelected(files: seq<Partition>)
    ensures SevenLong(files) == Select(files, NameLength, 7)
  {
    if files != [] {
      SevenLongSelected(files[1..]);
    }
  }

  lemma {:induction false} SelectedMultiset(files: seq<Partition>)
    ensures multiset(Select(files, NameLength, 7)) <= multiset(files)
  {
    if files != [] {
      SelectedMultiset(files[1..]);
      assert files == [files[0]] + files[1..];
    }
  }

  // The rows merged from the months, each query with its own LIMIT.
  function Capped(ps: seq<Partition>, f: MessageFilter, fts: (string, Row) -> bool, limit: nat): seq<Row> {
    if ps == [] then [] else Capped(ps[..|ps| - 1], f, fts, limit) + RunQuery(ps[|ps| - 1], f, fts, limit)
  }

  // `xs[offset : offset + limit]`
  function Slice<T>(xs: seq<T>, offset: nat, limit: nat): seq<T> {
    Take(if offset <= |xs| then xs[offset..] else [], limit)
  }

  datatype SearchResult = SearchResult(rows: seq<Row>, hasMore: bool)

  // ----- the search as it is meant -----

  /** All matching rows of the months. */
  function AllMatches(ps: seq<Partition>, f: MessageFilter, fts: (string, Row) -> bool): seq<Row> {
    if ps == [] then [] else AllMatches(ps[..|ps| - 1], f, fts) + Filter(ps[|ps| - 1].rows, f, fts)
  }

  function Ranked(ps: seq<Partition>, f: MessageFilter, fts: (string, Row) -> bool): seq<Row> {
    SortDesc(AllMatches(ps, f, fts), Time)
  }

  /** A page of all matching rows, sorted. */
  function ExactPage(ranked: seq<Row>, offset: nat, limit: nat): SearchResult {
    SearchResult(Slice(ranked, offset, limit), |ranked| > offset + limit)
  }

  // What ORDER BY guarantees.
  ghost predicate Ordered(ps: seq<Partition>) {
    forall p :: p in ps ==> Descending(p.rows, Time)
  }

  lemma {:induction false} FilterDescending(rows: seq<Row>, f: MessageFilter, fts: (string, Row) -> bool)
    requires Descending(rows, Time)
    ensures Descending(Filter(rows, f, fts), Time)
    ensures forall r :: r in Filter(rows, f, fts) <==> r in rows && Matches(f, fts, r)
  {
    hide Matches, Lex.Lt;
    if rows != [] {
      FilterDescending(rows[1..], f, fts);
      assert rows == [rows[0]] + rows[1..];
      DescendingCons(rows[0], Filter(rows[1..], f, fts), Time);
    }
  }

  lemma {:induction false} TakeDescending(rows: seq<Row>, n: nat)
    requires Descending(rows, Time)
    ensures Descending(Take(rows, n), Time)
  {
    hide Lex.Lt;
  }

  lemma {:induction false} TakeTake<T>(xs: seq<T>, n: nat, k: nat)
    requires n <= k
    ensures Take(Take(xs, k), n) == Take(xs, n)
  {
  }

  /** Capping every month at k rows does not change the first k of the sorted whole. */
  lemma {:induction false} CappedIsExact(ps: seq<Partition>, f: MessageFilter, fts: (string, Row) -> bool, k: nat)
    requires Ordered(ps)
    ensures Take(SortDesc(Capped(ps, f, fts, k), Time), k) == Take(Ranked(ps, f, fts), k)
  {
    hide Filter, Matches, Descending, SortDesc, Merge, Time;
    if ps != [] {
      var before, last := ps[..|ps| - 1], ps[|ps| - 1];
      var rows, cap := Filter(last.rows, f, fts), Take(Filter(last.rows, f, fts), k);
      var a, b := SortDesc(Capped(before, f, fts, k), Time), Ranked(before, f, fts);
      CappedIsExact(before, f, fts, k);
      FilterDescending(last.rows, f, fts);
      TakeDescending(rows, k);
      SortedIsFixed(rows, Time);
      SortedIsFixed(cap, Time);
      SortConcat(Capped(before, f, fts, k), cap, Time);
      SortConcat(AllMatches(before, f, fts), rows, Time);
      TakeTake(rows, k, k);
      TakeMerge(k, a, k, cap, k, Time);
      TakeMerge(k, b, k, rows, k, Time);
    }
  }

  // A page only looks at the rows up to its end, and one more.
  lemma {:induction false} SameFront<T>(xs: seq<T>, ys: seq<T>, offset: nat, limit: nat)
    requires Take(xs, offset + limit + 1) == Take(ys, offset + limit + 1)
    ensures Slice(xs, offset, limit) == Slice(ys, offset, limit)
    ensures |xs| > offset + limit <==> |ys| > offset + limit
  {
    var n := offset + limit + 1;
    assert forall i :: 0 <= i < |xs| && i < n ==> xs[i] == Take(xs, n)[i];
    assert forall i :: 0 <= i < |ys| && i < n ==> ys[i] == Take(ys, n)[i];
  }

  // ----- the search as the code does it -----

  /** Each month capped at one row beyond the page, merged, sorted and cut: exactly the page of
      all matching rows, ties included, and has_more exactly when there are more. */
  method SearchMessages(files: seq<Partition>, recentMonths: nat, f: MessageFilter, fts: (string, Row) -> bool, offset: nat, limit: nat)
      returns (r: SearchResult)
    requires Ordered(files)
    ensures r == ExactPage(Ranked(Relevant(f, files, recentMonths), f, fts), offset, limit)
    ensures var all := Ranked(Relevant(f, files, recentMonths), f, fts);
            && (r.hasMore <==> |all| > offset + limit)
            && r.rows == (if |all| <= offset then [] else if |all| <= offset + limit then all[offset..] else all[offset..offset + limit])
  {
    PageRows(Ranked(Relevant(f, files, recentMonths), f, fts), offset, limit);
    hide Filter, Slice, RunQuery, SortDesc, Time, Relevant, AllMatches;
    var months := Relevant(f, files, recentMonths);
    var perMonthLimit := offset + limit + 1;
    var merged: seq<Row> := [];
    for i := 0 to |months|
      invariant merged == Capped(months[..i], f, fts, perMonthLimit)
    {
      assert months[..i + 1][..i] == months[..i];
      merged := merged + RunQuery(months[i], f, fts, perMonthLimit);
    }
    assert months[..|months|] == months;
    RelevantAreFiles(f, files, recentMonths);
    CappedIsExact(months, f, fts, perMonthLimit);
    var sorted := SortDesc(merged, Time);
    SameFront(sorted, Ranked(months, f, fts), offset, limit);
    r := SearchResult(Slice(sorted, offset, limit), |merged| > offset + limit);
  }

  lemma {:induction false} PageRows(all: seq<Row>, offset: nat, limit: nat)
    ensures Slice(all, offset, limit) ==
            if |all| <= offset then [] else if |all| <= offset + limit then all[offset..] else all[offset..offset + limit]
  {
  }

  lemma {:induction false} SevenLongAreFiles(files: seq<Partition>)
    ensures forall p :: p in SevenLong(files) <==> p in files && |p.key| == 7
  {
    if files != [] {
      SevenLongAreFiles(files[1..]);
      assert files == [files[0]] + files[1..];
    }
  }

  lemma {:induction false} AvailableAreFiles(files: seq<Partition>)
    ensures forall p :: p in Available(files) <==> p in files && |p.key| == 7
    ensures Descending(Available(files), MonthName)
  {
    hide SortDesc;
    SevenLongAreFiles(files);
    SortSorts(SevenLong(files), MonthName);
    forall p ensures p in Available(files) <==> p in SevenLong(files) {
      assert p in multiset(Available(files)) <==> p in multiset(SevenLong(files));
    }
  }

  lemma {:induction false} InRangeAreAvailable(f: MessageFilter, ps: seq<Partition>)
    ensures forall p :: p in OnlyInRange(f, ps) <==> p in ps && InRange(f, p.key)
  {
    hide InRange;
    if ps != [] {
      InRangeAreAvailable(f, ps[1..]);
      assert ps == [ps[0]] + ps[1..];
    }
  }

  lemma {:induction false} RelevantAreFiles(f: MessageFilter, files: seq<Partition>, recentMonths: nat)
    ensures forall p :: p in Relevant(f, files, recentMonths) ==> p in Available(files) && p in files
  {
    hide Available, InRange;
    AvailableAreFiles(files);
    InRangeAreAvailable(f, Available(files));
  }

  // ----- following the pages -----

  /** Offsets 0, L, 2L, ... until has_more is false. */
  function Browse(ranked: seq<Row>, offset: nat, limit: nat): seq<Row>
    requires limit >= 1
    decreases |ranked| - offset
  {
    var page := ExactPage(ranked, offset, limit);
    if page.hasMore then page.rows + Browse(ranked, offset + limit, limit) else page.rows
  }

  /** The pages put together are everything from the first offset on: each row exactly once. */
  lemma {:induction false} BrowseSeesAll(ranked: seq<Row>, offset: nat, limit: nat)
    requires limit >= 1 && offset <= |ranked|
    ensures Browse(ranked, offset, limit) == ranked[offset..]
    decreases |ranked| - offset
  {
    var page := ExactPage(ranked, offset, limit);
    if page.hasMore {
      BrowseSeesAll(ranked, offset + limit, limit);
      assert page.rows == ranked[offset..offset + limit];
      assert ranked[offset..] == ranked[offset..offset + limit] + ranked[offset + limit..];
    }
  }

  /** From the first page on: every matching row of the months read, exactly as often as it is
      there, newest first, ties in a fixed order. */
  lemma {:induction false} PagesAreComplete(ps: seq<Partition>, f: MessageFilter, fts: (string, Row) -> bool, limit: nat)
    requires limit >= 1
    ensures var seen := Browse(Ranked(ps, f, fts), 0, limit);
            && multiset(seen) == multiset(AllMatches(ps, f, fts))
            && Descending(seen, Time)
            && forall t :: Select(seen, Time, t) == Select(AllMatches(ps, f, fts), Time, t)
  {
    hide AllMatches, Browse;
    BrowseSeesAll(Ranked(ps, f, fts), 0, limit);
    SortSorts(AllMatches(ps, f, fts), Time);
  }

  // ----- which months are read -----

  // Every row is in the file named by the first seven characters of its time.
  ghost predicate Partitioned(ps: seq<Partition>) {
    forall p :: p in ps ==> |p.key| == 7 && forall r :: r in p.rows ==> |r.receiptTime| >= 7 && r.receiptTime[..7] == p.key
  }

  lemma {:induction false} NoneIsEmpty<T>(xs: seq<T>)
    ensures xs == [] || xs[0] in xs
  {
  }

  lemma {:induction false} OutOfRangeMatchesNothing(f: MessageFilter, fts: (string, Row) -> bool, p: Partition)
    requires Partitioned([p]) && !InRange(f, p.key) && Descending(p.rows, Time)
    ensures Filter(p.rows, f, fts) == []
  {
    hide Lex.Lt;
    FilterDescending(p.rows, f, fts);
    forall r | r in p.rows ensures !Matches(f, fts, r) {
      assert p in [p];
      if Given(f.start) && Lex.Lt(p.key, Lex.Prefix(f.start.value, 7)) {
        Lex.BeyondPrefix(r.receiptTime, f.start.value, 7);
        Lex.Trichotomy(r.receiptTime, f.start.value);
      } else {
        Lex.BeyondPrefix(r.receiptTime, f.end.value, 7);
        Lex.Trichotomy(r.receiptTime, f.end.value);
      }
    }
    NoneIsEmpty(Filter(p.rows, f, fts));
  }

  lemma {:induction false} AllMatchesCons(p: Partition, ps: seq<Partition>, f: MessageFilter, fts: (string, Row) -> bool)
    ensures AllMatches([p] + ps, f, fts) == Filter(p.rows, f, fts) + AllMatches(ps, f, fts)
  {
    hide Filter;
    if ps == [] {
      assert [p] + ps == [p] && [p][..0] == [];
    } else {
      var n := |ps| - 1;
      AllMatchesCons(p, ps[..n], f, fts);
      assert ([p] + ps)[..n + 1] == [p] + ps[..n] && ([p] + ps)[n + 1] == ps[n];
    }
  }

  /** Pruning months by the first seven characters of the bounds loses no matching row, in any
      bound's own notation, however short. */
  lemma {:induction false} PruningLosesNothing(f: MessageFilter, fts: (string, Row) -> bool, ps: seq<Partition>)
    requires Partitioned(ps) && Ordered(ps)
    ensures AllMatches(OnlyInRange(f, ps), f, fts) == AllMatches(ps, f, fts)
  {
    hide Filter, AllMatches, InRange, Descending;
    if ps != [] {
      assert ps == [ps[0]] + ps[1..];
      PruningLosesNothing(f, fts, ps[1..]);
      AllMatchesCons(ps[0], ps[1..], f, fts);
      if InRange(f, ps[0].key) {
        AllMatchesCons(ps[0], OnlyInRange(f, ps[1..]), f, fts);
      } else {
        OutOfRangeMatchesNothing(f, fts, ps[0]);
        assert OnlyInRange(f, ps) == [] + OnlyInRange(f, ps[1..]) == OnlyInRange(f, ps[1..]);
        assert [] + AllMatches(ps[1..], f, fts) == AllMatches(ps[1..], f, fts);
      }
    }
  }

  /** With a bound given, the search is over every row of every month file. */
  lemma {:induction false} BoundedSearchSeesAllMonths(f: MessageFilter, fts: (string, Row) -> bool, files: seq<Partition>, recentMonths: nat)
    requires f.start.Some? || f.end.Some?
    requires Partitioned(Available(files)) && Ordered(files)
    ensures Ranked(Relevant(f, files, recentMonths), f, fts) == Ranked(Available(files), f, fts)
  {
    hide AllMatches, OnlyInRange, Available, SortDesc;
    AvailableAreFiles(files);
    PruningLosesNothing(f, fts, Available(files));
  }

  // The rows of the month files, in some order.
  ghost predicate Presents(files: seq<Partition>, index: map<string, MonthDb>) {
    forall p :: p in files ==> p.key in index && multiset(p.rows) == multiset(index[p.key].messages)
  }

  /** Whatever the indexer inserted, the month files the search reads are partitioned by time, so
      the results that rest on it hold of every index that live ingest builds. */
  lemma {:induction false} LiveIndexIsPartitioned(files: seq<Partition>, before: map<string, MonthDb>, index: map<string, MonthDb>,
                               saved: seq<MessageEnvelope>)
    requires IndexerCore.IndexHolds(before, index, saved) && IndexerCore.InTheirMonth(before)
    requires Presents(files, index)
    ensures Partitioned(Available(files))
  {
    hide Available, IndexerCore.IndexHolds;
    AvailableAreFiles(files);
    IndexerCore.RowsAreInTheirMonth(before, index, saved);
    forall p, r | p in Available(files) && r in p.rows ensures |r.receiptTime| >= 7 && r.receiptTime[..7] == p.key {
      assert r in multiset(index[p.key].messages);
    }
  }

  ghost predicate TimeIn(key: string, t: string) { |t| >= 7 && t[..7] == key }

  /** And it reads no month in vain: one is read exactly if for each bound that is given there is a
      time in the month on the right side of it. */
  lemma {:induction false} MonthsReadExactly(f: MessageFilter, files: seq<Partition>, recentMonths: nat, p: Partition)
    requires f.start.Some? || f.end.Some?
    ensures p in Relevant(f, files, recentMonths) <==>
            && p in files && |p.key| == 7
            && (Given(f.start) ==> exists t: string :: TimeIn(p.key, t) && Lex.Leq(f.start.value, t))
            && (Given(f.end) ==> exists t: string :: TimeIn(p.key, t) && Lex.Leq(t, f.end.value))
  {
    hide Available, Lex.Lt, InRange;
    AvailableAreFiles(files);
    InRangeAreAvailable(f, Available(files));
    if |p.key| == 7 {
      InRangeExactly(f, p.key);
    }
  }

  lemma {:induction false} InRangeExactly(f: MessageFilter, key: string)
    requires |key| == 7
    ensures InRange(f, key) <==>
            && (Given(f.start) ==> exists t: string :: TimeIn(key, t) && Lex.Leq(f.start.value, t))
            && (Given(f.end) ==> exists t: string :: TimeIn(key, t) && Lex.Leq(t, f.end.value))
  {
    hide Lex.Lt, Lex.Leq;
    if Given(f.start) {
      StartReaches(f.start.value, key);
    }
    if Given(f.end) {
      EndReaches(f.end.value, key);
    }
  }

  lemma {:induction false} StartReaches(start: string, key: string)
    requires |key| == 7
    ensures !Lex.Lt(key, Lex.Prefix(start, 7)) <==> exists t: string :: TimeIn(key, t) && Lex.Leq(start, t)
  {
    hide Lex.Lt;
    var prefix := Lex.Prefix(start, 7);
    forall t: string | TimeIn(key, t) && Lex.Leq(start, t) ensures !Lex.Lt(key, prefix) {
      Lex.BeyondPrefix(t, start, 7);
      Lex.Trichotomy(t, start);
    }
    if !Lex.Lt(key, prefix) {
      var t := if key == prefix then start else key;
      Lex.Trichotomy(key, prefix);
      Lex.BeyondPrefix(key, start, 7);
      assert key[..7] == key;
      assert TimeIn(key, t) && Lex.Leq(start, t);
    }
  }

  lemma {:induction false} EndReaches(end: string, key: string)
    requires |key| == 7
    ensures !Lex.Lt(Lex.Prefix(end, 7), key) <==> exists t: string :: TimeIn(key, t) && Lex.Leq(t, end)
  {
    hide Lex.Lt;
    var prefix := Lex.Prefix(end, 7);
    forall t: string | TimeIn(key, t) && Lex.Leq(t, end) ensures !Lex.Lt(prefix, key) {
      Lex.BeyondPrefix(t, end, 7);
      Lex.Trichotomy(t, end);
    }
    if !Lex.Lt(prefix, key) {
      var t := if key == prefix then end else key;
      Lex.Trichotomy(key, prefix);
      Lex.BeyondPrefix(key, end, 7);
      assert key[..7] == key;
      assert TimeIn(key, t) && Lex.Leq(t, end);
    }
  }

  // ----- the merged list is in order before it is sorted -----

  // All times of the first list are at least those of the second.
  lemma {:induction false} DescendingConcat(a: seq<Row>, b: seq<Row>)
    requires Descending(a, Time) && Descending(b, Time)
    requires forall x, y :: x in a && y in b ==> !Lex.Lt(Time(x), Time(y))
    ensures Descending(a + b, Time)
  {
    hide Lex.Lt;
  }

  lemma {:induction false} NewerMonth(newer: string, older: string, x: Row, y: Row)
    requires !Lex.Lt(newer, older) && newer != older && |newer| == |older| == 7
    requires |x.receiptTime| >= 7 && x.receiptTime[..7] == newer && |y.receiptTime| >= 7 && y.receiptTime[..7] == older
    ensures !Lex.Lt(x.receiptTime, y.receiptTime)
  {
    hide Lex.Lt;
    Lex.Trichotomy(newer, older);
    Lex.FieldByField(x.receiptTime[..7], x.receiptTime[7..], y.receiptTime[..7], y.receiptTime[7..]);
    assert x.receiptTime == x.receiptTime[..7] + x.receiptTime[7..] && y.receiptTime == y.receiptTime[..7] + y.receiptTime[7..];
  }

  ghost predicate NewestFirst(ps: seq<Partition>) {
    && Descending(ps, MonthName)
    && Distinct(ps, MonthName)
  }

  /** Since months come newest first and rows are in their month, the merged rows already are in
      descending order, and the sort leaves them alone. */
  lemma {:induction false} MergedIsSorted(ps: seq<Partition>, f: MessageFilter, fts: (string, Row) -> bool, limit: nat)
    requires Partitioned(ps) && Ordered(ps) && NewestFirst(ps)
    ensures Descending(Capped(ps, f, fts, limit), Time)
    ensures SortDesc(Capped(ps, f, fts, limit), Time) == Capped(ps, f, fts, limit)
    ensures forall x :: x in Capped(ps, f, fts, limit) ==> exists p :: p in ps && x in p.rows
  {
    hide Filter, Matches, SortDesc, Lex.Lt;
    if ps != [] {
      var before, last := ps[..|ps| - 1], ps[|ps| - 1];
      var a, b := Capped(before, f, fts, limit), RunQuery(last, f, fts, limit);
      MergedIsSorted(before, f, fts, limit);
      FilterDescending(last.rows, f, fts);
      TakeDescending(Filter(last.rows, f, fts), limit);
      forall y | y in b ensures y in last.rows {
        assert y in Filter(last.rows, f, fts);
      }
      forall x, y | x in a && y in b ensures !Lex.Lt(Time(x), Time(y)) {
        var p :| p in before && x in p.rows;
        var i :| 0 <= i < |before| && before[i] == p;
        assert ps[i] == p;
        assert !Lex.Lt(MonthName(ps[i]), MonthName(ps[|ps| - 1]));
        NewerMonth(p.key, last.key, x, y);
      }
      DescendingConcat(a, b);
      assert last in ps;
    }
    SortedIsFixed(Capped(ps, f, fts, limit), Time);
  }

  lemma {:induction false} SevenLongDistinct(files: seq<Partition>)
    requires Distinct(files, MonthName)
    ensures Distinct(SevenLong(files), MonthName)
  {
    if files != [] {
      SevenLongDistinct(files[1..]);
      SevenLongAreFiles(files[1..]);
    }
  }

  lemma {:induction false} InRangeNewestFirst(f: MessageFilter, ps: seq<Partition>)
    requires NewestFirst(ps)
    ensures NewestFirst(OnlyInRange(f, ps))
  {
    hide InRange, Lex.Lt;
    if ps != [] {
      InRangeNewestFirst(f, ps[1..]);
      InRangeAreAvailable(f, ps[1..]);
    }
  }

  /** The months read come newest first, whichever of them are read. */
  lemma {:induction false} RelevantNewestFirst(f: MessageFilter, files: seq<Partition>, recentMonths: nat)
    requires Distinct(files, MonthName)
    ensures NewestFirst(Relevant(f, files, recentMonths))
  {
    hide InRange, Lex.Lt, SortDesc;
    SevenLongDistinct(files);
    SortSorts(SevenLong(files), MonthName);
    forall k ensures |Select(Available(files), MonthName, k)| <= 1 {
      DistinctOnce(SevenLong(files), MonthName, k);
    }
    OnceDistinct(Available(files), MonthName);
    InRangeNewestFirst(f, Available(files));
  }

  /** So on an index where rows are in their months, the search's final sort never moves a row. */
  lemma {:induction false} SortMovesNothing(f: MessageFilter, fts: (string, Row) -> bool, files: seq<Partition>, recentMonths: nat, limit: nat)
    requires Partitioned(Available(files)) && Ordered(files) && Distinct(files, MonthName)
    ensures var merged := Capped(Relevant(f, files, recentMonths), f, fts, limit); SortDesc(merged, Time) == merged
  {
    hide Relevant, Capped, NewestFirst;
    RelevantNewestFirst(f, files, recentMonths);
    RelevantAreFiles(f, files, recentMonths);
    MergedIsSorted(Relevant(f, files, recentMonths), f, fts, limit);
  }
}
