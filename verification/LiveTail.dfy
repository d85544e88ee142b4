/** The live tail of sylo/webapp/routes/messages.py: a cursor over a month's row ids. */
module LiveTail {
  import opened Wrappers
  import opened Envelope
  import opened Sorting

  datatype Stored = Stored(id: nat, row: Row)

  const BATCH: nat := 200

  // A month's table: ids start above 0 and grow with every insert.
  ghost predicate Table(t: seq<Stored>) {
    (forall i :: 0 <= i < |t| ==> t[i].id > 0) && (forall i, j :: 0 <= i < j < |t| ==> t[i].id < t[j].id)
  }

  function MaxId(t: seq<Stored>): nat
  {
    if t == [] then 0 else t[|t| - 1].id     // `MAX(id)`, or 0 when there is none
  }

  // The rows with lo < id <= hi, in id order.
  function Between(t: seq<Stored>, lo: nat, hi: nat): seq<Stored> {
    if t == [] then []
    else if lo < t[0].id <= hi then [t[0]] + Between(t[1..], lo, hi)
    else Between(t[1..], lo, hi)
  }

  // `WHERE id > lo ORDER BY id ASC`
  function Above(t: seq<Stored>, lo: nat): seq<Stored> {
    if t == [] then []
    else if lo < t[0].id then [t[0]] + Above(t[1..], lo)
    else Above(t[1..], lo)
  }

  /** `_poll_new_rows`: the first poll only seeds the cursor. */
  function PollNewRows(t: seq<Stored>, lastId: Option<nat>): (seq<Stored>, nat) {
    match lastId
    case None => ([], MaxId(t))
    case Some(id) =>
      var rows := Take(Above(t, id), BATCH);
      (rows, if rows == [] then id else rows[|rows| - 1].id)
  }

  class TailGenerator {
    var lastIdByMonth: map<string, nat>

    constructor ()
      ensures lastIdByMonth == map[]
    {
      lastIdByMonth := map[];
    }

    function Cursor(month: string): Option<nat>
      reads this
    {
      if month in lastIdByMonth then Some(lastIdByMonth[month]) else None
    }

    /** One turn of the loop, in the given current month; the month's file may not exist yet. */
    method Turn(month: string, db: Option<seq<Stored>>) returns (events: seq<Stored>)
      modifies this
      ensures db.None? ==> events == [] && lastIdByMonth == old(lastIdByMonth)
      ensures db.Some? ==>
                var (rows, last) := PollNewRows(db.value, old(Cursor(month)));
                events == rows && lastIdByMonth == old(lastIdByMonth)[month := last]
    {
      events := [];
      if db.Some? {
        var lastId := if month in lastIdByMonth then Some(lastIdByMonth[month]) else None;
        var (rows, newLastId) := PollNewRows(db.value, lastId);
        lastIdByMonth := lastIdByMonth[month := newLastId];
        for i := 0 to |rows|
          invariant events == rows[..i]
        {
          events := events + [rows[i]];
        }
      }
    }
  }

  // ----- one month, inserts and polls in any order -----

  datatype Event = Insert(row: Stored) | Poll

  datatype Tail = Tail(table: seq<Stored>, seed: nat, cursor: Option<nat>, emitted: seq<Stored>)

  function Step(s: Tail, e: Event): Tail {
    match e
    case Insert(row) => s.(table := s.table + [row])
    case Poll =>
      var (rows, last) := PollNewRows(s.table, s.cursor);
      s.(seed := if s.cursor.None? then last else s.seed, cursor := Some(last), emitted := s.emitted + rows)
  }

  ghost predicate Enabled(s: Tail, e: Event) {
    e.Insert? ==> e.row.id > MaxId(s.table)
  }

  function Run(t: seq<Stored>, events: seq<Event>): Tail {
    if events == [] then Tail(t, 0, None, []) else Step(Run(t, events[..|events| - 1]), events[|events| - 1])
  }

  ghost predicate Possible(t: seq<Stored>, events: seq<Event>) {
    events == [] || (Possible(t, events[..|events| - 1]) && Enabled(Run(t, events[..|events| - 1]), events[|events| - 1]))
  }

  ghost predicate ExactlyOnce(s: Tail) {
    && Table(s.table)
    && (s.cursor.None? ==> s.emitted == [])
    && (s.cursor.Some? ==> s.seed <= s.cursor.value <= MaxId(s.table) && s.emitted == Between(s.table, s.seed, s.cursor.value))
  }

  lemma {:induction false} BetweenConcat(a: seq<Stored>, b: seq<Stored>, lo: nat, hi: nat)
    ensures Between(a + b, lo, hi) == Between(a, lo, hi) + Between(b, lo, hi)
  {
    if a == [] {
      assert a + b == b;
    } else {
      assert (a + b)[1..] == a[1..] + b;
      BetweenConcat(a[1..], b, lo, hi);
    }
  }

  lemma {:induction false} NothingBetween(t: seq<Stored>, lo: nat, hi: nat)
    requires forall i :: 0 <= i < |t| ==> t[i].id <= lo || t[i].id > hi
    ensures Between(t, lo, hi) == []
  {
    if t != [] {
      NothingBetween(t[1..], lo, hi);
    }
  }

  lemma {:induction false} BetweenSplit(t: seq<Stored>, lo: nat, mid: nat, hi: nat)
    requires Table(t) && lo <= mid <= hi
    ensures Between(t, lo, hi) == Between(t, lo, mid) + Between(t, mid, hi)
  {
    if t != [] {
      var rest := t[1..];
      BetweenSplit(rest, lo, mid, hi);
      if t[0].id > mid {
        assert forall i :: 0 <= i < |rest| ==> rest[i].id > mid;
        NothingBetween(rest, lo, mid);
      }
    }
  }

  lemma {:induction false} AboveAreRows(t: seq<Stored>, lo: nat)
    requires Table(t)
    ensures Table(Above(t, lo)) && forall r :: r in Above(t, lo) <==> r in t && r.id > lo
  {
    if t != [] {
      var rest := Above(t[1..], lo);
      AboveAreRows(t[1..], lo);
      assert t == [t[0]] + t[1..];
      forall i | 0 <= i < |rest| ensures t[0].id < rest[i].id {
        assert rest[i] in t[1..];
      }
    }
  }

  lemma {:induction false} UptoLast(t: seq<Stored>, lo: nat, n: nat)
    requires Table(t) && n < |Above(t, lo)|
    ensures Between(t, lo, Above(t, lo)[n].id) == Above(t, lo)[..n + 1]
  {
    var all := Above(t, lo);
    AboveAreRows(t, lo);
    assert all[n] in t;
    if t[0].id <= lo {
      UptoLast(t[1..], lo, n);
    } else if n == 0 {
      NothingBetween(t[1..], lo, t[0].id);
    } else {
      UptoLast(t[1..], lo, n - 1);
      assert all[..n + 1] == [t[0]] + Above(t[1..], lo)[..n];
      AboveAreRows(t[1..], lo);
      assert all[n] == Above(t[1..], lo)[n - 1];
      assert all[n] in t[1..];
    }
  }

  // The first n rows above the cursor are those up to the last of them.
  lemma {:induction false} FirstAbove(t: seq<Stored>, lo: nat, n: nat)
    requires Table(t)
    ensures var rows := Take(Above(t, lo), n);
            && (rows != [] ==> lo < rows[|rows| - 1].id <= MaxId(t) && rows == Between(t, lo, rows[|rows| - 1].id))
            && (Above(t, lo) != [] && n > 0 ==> rows != [])
  {
    hide Above, Between;
    var all, rows := Above(t, lo), Take(Above(t, lo), n);
    AboveAreRows(t, lo);
    if rows != [] {
      UptoLast(t, lo, |rows| - 1);
      assert rows == all[..|rows|];
      assert all[|rows| - 1] in all;
    }
  }

  lemma {:induction false} InsertKeeps(s: Tail, row: Stored)
    requires ExactlyOnce(s) && row.id > MaxId(s.table)
    ensures ExactlyOnce(Step(s, Insert(row)))
  {
    if s.cursor.Some? {
      BetweenConcat(s.table, [row], s.seed, s.cursor.value);
      NothingBetween([row], s.seed, s.cursor.value);
    }
  }

  lemma {:induction false} PollKeeps(s: Tail)
    requires ExactlyOnce(s)
    ensures ExactlyOnce(Step(s, Poll))
  {
    if s.cursor.None? {
      NothingBetween(s.table, MaxId(s.table), MaxId(s.table));
    } else {
      var last := PollNewRows(s.table, s.cursor).1;
      FirstAbove(s.table, s.cursor.value, BATCH);
      if last > s.cursor.value {
        BetweenSplit(s.table, s.seed, s.cursor.value, last);
      }
    }
  }

  /** Over any interleaving of inserts and polls, what was emitted is every row inserted after the
      seeding poll, up to the cursor, in order and once, also when the table was empty then. */
  lemma {:induction false} EmittedExactlyOnce(t: seq<Stored>, events: seq<Event>)
    requires Table(t) && Possible(t, events)
    ensures ExactlyOnce(Run(t, events))
  {
    if events != [] {
      var s := Run(t, events[..|events| - 1]);
      EmittedExactlyOnce(t, events[..|events| - 1]);
      match events[|events| - 1]
      case Insert(row) => InsertKeeps(s, row);
      case Poll => PollKeeps(s);
    }
  }

  // ----- what was inserted since the first poll -----

  function InsertedRows(events: seq<Event>): seq<Stored> {
    if events == [] then [] else
      var n := |events| - 1;
      InsertedRows(events[..n]) + match events[n] case Insert(row) => [row] case Poll => []
  }

  ghost predicate OnlyInserts(events: seq<Event>) {
    forall i :: 0 <= i < |events| ==> events[i].Insert?
  }

  lemma {:induction false} BeforeThePoll(t: seq<Stored>, events: seq<Event>)
    requires OnlyInserts(events)
    ensures Run(t, events) == Tail(t + InsertedRows(events), 0, None, [])
  {
    if events == [] {
      assert t + [] == t;
    } else {
      BeforeThePoll(t, events[..|events| - 1]);
    }
  }

  // From the first poll on: the table as it was then, and the rows inserted since.
  ghost predicate Since(s: Tail, seen: seq<Stored>, later: seq<Stored>) {
    s.table == seen + later && s.cursor.Some? && s.seed == MaxId(seen)
  }

  lemma {:induction false} SinceFirstPoll(t: seq<Stored>, before: seq<Event>, after: seq<Event>)
    requires OnlyInserts(before)
    ensures Since(Run(t, before + [Poll] + after), t + InsertedRows(before), InsertedRows(after))
  {
    var seen := t + InsertedRows(before);
    if after == [] {
      BeforeThePoll(t, before);
      assert before + [Poll] + [] == before + [Poll] && (before + [Poll])[..|before|] == before;
      assert seen + [] == seen;
    } else {
      var n := |after| - 1;
      SinceFirstPoll(t, before, after[..n]);
      assert (before + [Poll] + after)[..|before| + 1 + n] == before + [Poll] + after[..n];
    }
  }

  lemma {:induction false} BetweenIsPrefix(t: seq<Stored>, lo: nat, hi: nat)
    requires Table(t) && forall i :: 0 <= i < |t| ==> t[i].id > lo
    ensures Between(t, lo, hi) <= t
    ensures (forall i :: 0 <= i < |t| ==> t[i].id <= hi) <==> Between(t, lo, hi) == t
  {
    if t != [] {
      BetweenIsPrefix(t[1..], lo, hi);
      assert t == [t[0]] + t[1..];
      if t[0].id > hi {
        NothingBetween(t[1..], lo, hi);
      }
    }
  }

  lemma {:induction false} SplitTable(seen: seq<Stored>, later: seq<Stored>)
    requires Table(seen + later)
    ensures Table(seen) && Table(later)
    ensures forall i :: 0 <= i < |seen| ==> seen[i].id <= MaxId(seen)
    ensures forall i :: 0 <= i < |later| ==> later[i].id > MaxId(seen)
  {
    var t := seen + later;
    assert forall i :: 0 <= i < |seen| ==> seen[i] == t[i];
    assert forall i :: 0 <= i < |later| ==> later[i] == t[|seen| + i];
  }

  lemma {:induction false} EmittedSince(s: Tail, seen: seq<Stored>, later: seq<Stored>)
    requires ExactlyOnce(s) && Since(s, seen, later)
    ensures s.emitted <= later && (Backlog(s) == 0 <==> s.emitted == later)
  {
    var c := s.cursor.value;
    SplitTable(seen, later);
    BetweenConcat(seen, later, s.seed, c);
    NothingBetween(seen, s.seed, c);
    assert [] + Between(later, s.seed, c) == Between(later, s.seed, c);
    BetweenIsPrefix(later, s.seed, c);
    AboveAreRows(s.table, c);
    if Backlog(s) == 0 {
      forall i | 0 <= i < |later| ensures later[i].id <= c {
        assert s.table[|seen| + i] == later[i];
        assert later[i] in s.table;
        assert later[i] !in Above(s.table, c);
      }
    } else {
      var r := Above(s.table, c)[0];
      assert r in Above(s.table, c);
      assert r in later;
    }
  }

  /** In terms of the events alone: the first poll emits nothing, and from then on what was emitted
      are the rows inserted since, in order from the first, and all of them exactly when no backlog
      is left. */
  lemma {:induction false} EmitsWhatIsInserted(t: seq<Stored>, before: seq<Event>, after: seq<Event>)
    requires Table(t) && OnlyInserts(before) && Possible(t, before + [Poll] + after)
    ensures Run(t, before).emitted == []
    ensures var s := Run(t, before + [Poll] + after);
            s.cursor.Some? && s.emitted <= InsertedRows(after) && (Backlog(s) == 0 <==> s.emitted == InsertedRows(after))
  {
    BeforeThePoll(t, before);
    SinceFirstPoll(t, before, after);
    EmittedExactlyOnce(t, before + [Poll] + after);
    EmittedSince(Run(t, before + [Poll] + after), t + InsertedRows(before), InsertedRows(after));
  }

  // ----- catching up -----

  function PollTimes(s: Tail, n: nat): Tail
    decreases n
  {
    if n == 0 then s else PollTimes(Step(s, Poll), n - 1)
  }

  function Backlog(s: Tail): nat
    requires s.cursor.Some?
  {
    |Above(s.table, s.cursor.value)|
  }

  lemma {:induction false} AboveIsBetween(t: seq<Stored>, lo: nat, hi: nat)
    requires forall i :: 0 <= i < |t| ==> t[i].id <= hi
    ensures Above(t, lo) == Between(t, lo, hi)
  {
    if t != [] {
      AboveIsBetween(t[1..], lo, hi);
    }
  }

  lemma {:induction false} PollShrinksBacklog(s: Tail)
    requires ExactlyOnce(s) && s.cursor.Some?
    ensures Backlog(Step(s, Poll)) == if Backlog(s) <= 200 then 0 else Backlog(s) - 200
  {
    var c, last := s.cursor.value, PollNewRows(s.table, s.cursor).1;
    var all, rows := Above(s.table, c), PollNewRows(s.table, s.cursor).0;
    FirstAbove(s.table, c, BATCH);
    AboveIsBetween(s.table, c, MaxId(s.table));
    AboveIsBetween(s.table, last, MaxId(s.table));
    if rows != [] {
      BetweenSplit(s.table, c, last, MaxId(s.table));
      assert |all| == |rows| + |Above(s.table, last)|;
    }
  }

  /** With no further inserts, a backlog of b rows takes ceil(b / 200) polls, and then every row of
      the table after the seed has been emitted. */
  lemma {:induction false} CatchesUp(s: Tail, polls: nat)
    requires ExactlyOnce(s) && s.cursor.Some? && polls * 200 >= Backlog(s)
    ensures var s' := PollTimes(s, polls);
            s'.table == s.table && s'.seed == s.seed && s'.cursor.Some? && Backlog(s') == 0 && s'.emitted == Above(s.table, s.seed)
    decreases polls
  {
    if polls == 0 {
      NothingLeft(s);
    } else {
      PollKeeps(s);
      PollShrinksBacklog(s);
      CatchesUp(Step(s, Poll), polls - 1);
    }
  }

  lemma {:induction false} NothingLeft(s: Tail)
    requires ExactlyOnce(s) && s.cursor.Some? && Backlog(s) == 0
    ensures s.emitted == Above(s.table, s.seed)
  {
    var m := MaxId(s.table);
    AboveIsBetween(s.table, s.seed, m);
    AboveIsBetween(s.table, s.cursor.value, m);
    BetweenSplit(s.table, s.seed, s.cursor.value, m);
  }

  /** Fewer polls do not suffice. */
  lemma {:induction false} NotSooner(s: Tail, polls: nat)
    requires ExactlyOnce(s) && s.cursor.Some? && polls * 200 < Backlog(s)
    ensures var s' := PollTimes(s, polls); s'.cursor.Some? && Backlog(s') == Backlog(s) - polls * 200
    decreases polls
  {
    if polls > 0 {
      PollKeeps(s);
      PollShrinksBacklog(s);
      NotSooner(Step(s, Poll), polls - 1);
    }
  }
}
