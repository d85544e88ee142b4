/** sylo/indexer/core.py: the one indexer, fed by all writers. Every method is a stretch of its
    coroutine between two awaits; other components run in between. */
module IndexerCore {
  import opened Seqs
  import opened Stages
  import opened Envelope
  import TimeUtil

  // The envelopes of a batch whose insert did not fail.
  function Inserted(batch: seq<MessageEnvelope>, fails: seq<bool>): seq<MessageEnvelope>
    requires |fails| == |batch|
  {
    if batch == [] then [] else
      var n := |batch| - 1;
      Inserted(batch[..n], fails[..n]) + if fails[n] then [] else [batch[n]]
  }

  // The positions that did not fail, in order, and what was at them.
  ghost predicate KeptAt(batch: seq<MessageEnvelope>, fails: seq<bool>, at: seq<nat>, kept: seq<MessageEnvelope>)
    requires |fails| == |batch|
  {
    && |at| == |kept|
    && (forall i, j :: 0 <= i < j < |at| ==> at[i] < at[j])
    && (forall k :: 0 <= k < |at| ==> at[k] < |batch| && kept[k] == batch[at[k]])
    && (forall i :: 0 <= i < |batch| ==> (i in at <==> !fails[i]))
  }

  lemma {:induction false} KeptOneMore(batch: seq<MessageEnvelope>, fails: seq<bool>, at: seq<nat>, kept: seq<MessageEnvelope>)
    requires |fails| == |batch| > 0
    requires KeptAt(batch[..|batch| - 1], fails[..|batch| - 1], at, kept)
    ensures var n := |batch| - 1;
            if fails[n] then KeptAt(batch, fails, at, kept) else KeptAt(batch, fails, at + [n], kept + [batch[n]])
  {
    var n := |batch| - 1;
    assert forall i :: 0 <= i < n ==> fails[..n][i] == fails[i];
    assert forall k :: 0 <= k < |at| ==> at[k] != n;
  }

  /** Exactly the envelopes at the positions that did not fail are inserted, each once and in order. */
  lemma {:induction false} InsertedExactly(batch: seq<MessageEnvelope>, fails: seq<bool>) returns (at: seq<nat>)
    requires |fails| == |batch|
    ensures KeptAt(batch, fails, at, Inserted(batch, fails))
  {
    at := [];
    if batch != [] {
      hide KeptAt;
      var n := |batch| - 1;
      at := InsertedExactly(batch[..n], fails[..n]);
      KeptOneMore(batch, fails, at, Inserted(batch[..n], fails[..n]));
      if !fails[n] {
        at := at + [n];
      } else {
        assert Inserted(batch[..n], fails[..n]) + [] == Inserted(batch[..n], fails[..n]);
      }
    }
  }

  lemma {:induction false} InsertedIsSubseq(batch: seq<MessageEnvelope>, fails: seq<bool>)
    requires |fails| == |batch|
    ensures Subseq(Inserted(batch, fails), batch)
  {
    if batch != [] {
      var n := |batch| - 1;
      InsertedIsSubseq(batch[..n], fails[..n]);
      var last := if fails[n] then [] else [batch[n]];
      SubseqRefl([batch[n]]);
      SubseqNil([batch[n]]);
      SubseqConcat(Inserted(batch[..n], fails[..n]), last, batch[..n], [batch[n]]);
      assert batch == batch[..n] + [batch[n]];
    }
  }

  /** The rows of a batch are appended to the month one by one; a failing row is skipped. */
  method InsertBatch(db: MonthDb, batch: seq<MessageEnvelope>, fails: seq<bool>) returns (db': MonthDb, inserted: nat)
    requires |fails| == |batch|
    ensures db'.messages == db.messages + Map(RowOf, Inserted(batch, fails))
    ensures inserted == |Inserted(batch, fails)|
    ensures db.InSync() ==> db'.InSync()
  {
    hide RowOf;
    db', inserted := db, 0;
    for i := 0 to |batch|
      invariant db'.messages == db.messages + Map(RowOf, Inserted(batch[..i], fails[..i]))
      invariant inserted == |Inserted(batch[..i], fails[..i])|
      invariant db.InSync() ==> db'.InSync()
    {
      assert batch[..i + 1][..i] == batch[..i] && fails[..i + 1][..i] == fails[..i];
      if !fails[i] {
        var rowid;
        db', rowid := InsertMessage(db', RowOf(batch[i]));
        inserted := inserted + 1;
        MapConcat(RowOf, Inserted(batch[..i], fails[..i]), [batch[i]]);
        assert Map(RowOf, [batch[i]]) == [RowOf(batch[i])];
      }
    }
    assert batch[..|batch|] == batch && fails[..|batch|] == fails;
  }

  /** How SQLite answered a batch: an error before any row, or for each row whether it failed. */
  datatype Answer = Refused | Ran(fails: seq<bool>)

  function OutcomeOf(batch: seq<MessageEnvelope>, a: Answer): Outcome<MessageEnvelope>
    requires a.Ran? ==> |a.fails| == |batch|
  {
    match a case Refused => Lost(true) case Ran(fails) => Kept(Inserted(batch, fails))
  }

  function RowsBefore(before: map<string, MonthDb>, month: string): seq<Row> {
    if month in before then before[month].messages else []
  }

  // Every row is in the file of its month, after what was there before, in the order saved.
  ghost predicate MonthHolds(before: map<string, MonthDb>, index: map<string, MonthDb>, saved: seq<MessageEnvelope>, month: string) {
    var rows := RowsBefore(before, month) + Map(RowOf, Select(saved, MonthOf, month));
    if month in index then index[month].messages == rows && index[month].InSync() else rows == []
  }

  ghost predicate IndexHolds(before: map<string, MonthDb>, index: map<string, MonthDb>, saved: seq<MessageEnvelope>) {
    forall month: string :: MonthHolds(before, index, saved, month)
  }

  lemma {:induction false} NothingSaved(before: map<string, MonthDb>)
    requires forall m :: m in before ==> before[m].InSync()
    ensures IndexHolds(before, before, [])
  {
    hide RowOf, MonthOf;
    forall m: string ensures MonthHolds(before, before, [], m) {
      assert Map(RowOf, Select([], MonthOf, m)) == [];
    }
  }

  // One month after a batch was stored in month `stored`.
  lemma {:induction false} MonthStored(before: map<string, MonthDb>, index: map<string, MonthDb>, saved: seq<MessageEnvelope>,
                    stored: string, kept: seq<MessageEnvelope>, db: MonthDb, m: string)
    requires MonthHolds(before, index, saved, m)
    requires forall x :: x in kept ==> MonthOf(x) == stored
    requires m == stored ==> db.messages == (if m in index then index[m].messages else []) + Map(RowOf, kept)
    requires m == stored && (m in index ==> index[m].InSync()) ==> db.InSync()
    ensures MonthHolds(before, index[stored := db], saved + kept, m)
  {
    hide RowOf, MonthOf, Select, MonthDb.InSync;
    SelectConcat(saved, kept, MonthOf, m);
    MapConcat(RowOf, Select(saved, MonthOf, m), Select(kept, MonthOf, m));
    if m == stored {
      SelectAll(kept, MonthOf, m);
    } else {
      SelectNone(kept, MonthOf, m);
      assert Select(saved, MonthOf, m) + [] == Select(saved, MonthOf, m);
    }
  }

  lemma {:induction false} RowsStored(before: map<string, MonthDb>, index: map<string, MonthDb>, saved: seq<MessageEnvelope>,
                   month: string, kept: seq<MessageEnvelope>, db: MonthDb)
    requires IndexHolds(before, index, saved)
    requires forall x :: x in kept ==> MonthOf(x) == month
    requires db.messages == (if month in index then index[month].messages else []) + Map(RowOf, kept)
    requires (month in index ==> index[month].InSync()) ==> db.InSync()
    ensures IndexHolds(before, index[month := db], saved + kept)
  {
    hide RowOf, MonthOf, MonthHolds;
    var index', saved' := index[month := db], saved + kept;
    forall m: string ensures MonthHolds(before, index', saved', m) {
      assert MonthHolds(before, index, saved, m);
      MonthStored(before, index, saved, month, kept, db, m);
    }
  }

  // Every row is in the file named by the first seven characters of its time.
  ghost predicate InTheirMonth(index: map<string, MonthDb>) {
    forall m, r :: m in index && r in index[m].messages ==> |r.receiptTime| >= 7 && r.receiptTime[..7] == m
  }

  /** Whatever has been inserted, each row is in the month its own time says: what month pruning
      and the newest-first merge of the search rest on. */
  lemma {:induction false} RowsAreInTheirMonth(before: map<string, MonthDb>, index: map<string, MonthDb>, saved: seq<MessageEnvelope>)
    requires IndexHolds(before, index, saved) && InTheirMonth(before)
    ensures InTheirMonth(index)
  {
    forall m, r | m in index && r in index[m].messages
      ensures |r.receiptTime| >= 7 && r.receiptTime[..7] == m
    {
      assert MonthHolds(before, index, saved, m);
      if r !in RowsBefore(before, m) {
        var ms := Select(saved, MonthOf, m);
        var i :| 0 <= i < |ms| && RowOf(ms[i]) == r;
        SelectIn(saved, MonthOf, m);
        assert ms[i] in ms;
        TimeUtil.RenderedPrefixes(ms[i].receiptTime);
      }
    }
  }

  // What is stored of a pending batch has the batch's month.
  lemma {:induction false} PendingBelongs(s: Stage<MessageEnvelope>, fails: seq<bool>)
    requires Inv(s, MonthOf) && s.pending != [] && |fails| == |s.pending[0].items|
    ensures forall x :: x in Inserted(s.pending[0].items, fails) ==> MonthOf(x) == s.pending[0].key
  {
    hide MonthOf, Inserted;
    var batch := s.pending[0].items;
    InsertedIsSubseq(batch, fails);
    SubseqLength(Inserted(batch, fails), batch);
    forall x | x in Inserted(batch, fails) ensures x in batch {
      assert x in multiset(Inserted(batch, fails));
    }
  }

  class Indexer {
    const limits: Limits
    const before: map<string, MonthDb>      // the month files found at start
    var phase: Phase
    var stopping: bool
    var queue: seq<MessageEnvelope>
    var buffer: seq<MessageEnvelope>
    var pending: seq<Batch<string, MessageEnvelope>>
    var index: map<string, MonthDb>
    // QueueStats
    var lagWarnings: nat
    var dropped: nat
    var written: nat
    // history
    ghost var queueDropped: nat
    ghost var batchDropped: nat
    ghost var saved: seq<MessageEnvelope>
    ghost var failed: multiset<MessageEnvelope>
    ghost var accepted: seq<MessageEnvelope>
    ghost var offered: nat

    ghost function State(): Stage<MessageEnvelope>
      reads this
    {
      Stage(limits, phase, stopping, queue, buffer, pending, lagWarnings, queueDropped, batchDropped, written,
            saved, failed, accepted, offered)
    }

    ghost predicate Stored()
      reads this
    {
      dropped == queueDropped + batchDropped && IndexHolds(before, index, saved)
    }

    ghost predicate Valid()
      reads this
    {
      Inv(State(), MonthOf) && Stored()
    }

    constructor (limits: Limits, before: map<string, MonthDb>)
      requires forall m :: m in before ==> before[m].InSync()
      ensures Valid() && State() == NewStage(limits) && index == before && this.before == before
    {
      this.limits, this.before, index := limits, before, before;
      phase, stopping, queue, buffer, pending := Waiting, false, [], [], [];
      lagWarnings, dropped, written := 0, 0, 0;
      queueDropped, batchDropped, saved, failed, accepted, offered := 0, 0, [], multiset{}, [], 0;
      new;
      InitiallyInv<MessageEnvelope>(limits, MonthOf);
      NothingSaved(before);
    }

    method Enqueue(x: MessageEnvelope)
      requires Valid()
      modifies this
      ensures Valid() && State() == Offer(old(State()), x) && index == old(index) && phase == old(phase)
      ensures if 0 < limits.hard && old(|queue|) == limits.hard then
                queue == old(queue) && accepted == old(accepted) && dropped == old(dropped) + 1
              else
                queue == old(queue) + [x] && accepted == old(accepted) + [x] && dropped == old(dropped)
      ensures lagWarnings == old(lagWarnings) + if old(|queue|) >= limits.soft then 1 else 0
    {
      hide Inv, IndexHolds;
      QueueIsBounded(State(), MonthOf);
      OfferInv(State(), MonthOf, x);
      if |queue| >= limits.soft {
        lagWarnings := lagWarnings + 1;
      }
      offered := offered + 1;
      if 0 < limits.hard <= |queue| {
        dropped, queueDropped := dropped + 1, queueDropped + 1;
        return;
      }
      queue := queue + [x];
      accepted := accepted + [x];
    }

    /** `_flush` up to its first await: the buffer grouped by month. */
    method StartFlush(next: Phase)
      requires Stored()
      modifies this
      ensures Stored() && State() == BeginFlush(old(State()), MonthOf, next) && index == old(index)
      ensures dropped == old(dropped) && written == old(written)
    {
      hide IndexHolds, FirstKeys, Select, MonthOf;
      var order, byMonth := GroupInto(buffer, MonthOf);
      ghost var batches := GroupBy(buffer, MonthOf);
      pending := [];
      for i := 0 to |order|
        modifies this`pending
        invariant pending == batches[..i]
      {
        assert order[i] in byMonth;
        pending := pending + [Batch(order[i], byMonth[order[i]])];
      }
      phase, buffer := next, [];
    }

    /** The head of the main loop, and all that follows it once stopping, up to the last flush. */
    method ToLoopHead()
      requires Stored()
      modifies this
      ensures Stored() && State() == LoopHead(old(State()), MonthOf) && index == old(index)
      ensures dropped == old(dropped) && written == old(written)
    {
      hide IndexHolds, GroupBy;
      if !stopping {
        phase := Waiting;
        return;
      }
      ghost var drained := MoveAll(State());
      while queue != []
        invariant Stored() && index == old(index) && dropped == old(dropped) && written == old(written)
        invariant MoveAll(State()) == drained
        decreases |queue|
      {
        assert queue == [queue[0]] + queue[1..];
        assert buffer + [queue[0]] + queue[1..] == buffer + queue;
        buffer, queue := buffer + [queue[0]], queue[1..];
      }
      assert State() == drained;
      if buffer != [] {
        StartFlush(FinalFlush);
      } else {
        phase := Done;
      }
    }

    /** `queue.get` returned. */
    method Dequeue()
      requires Valid() && phase == Waiting && queue != []
      modifies this
      ensures Valid() && State() == Take(old(State()), MonthOf) && index == old(index)
    {
      hide Inv, IndexHolds, GroupBy, LoopHead;
      TakeInv(State(), MonthOf);
      buffer, queue := buffer + [queue[0]], queue[1..];
      if |buffer| >= limits.flushMax {
        StartFlush(Flushing);
      } else {
        ToLoopHead();
      }
    }

    /** The idle timeout fired. */
    method TimedOut()
      requires Valid() && phase == Waiting
      modifies this
      ensures Valid() && State() == Idle(old(State()), MonthOf) && index == old(index)
    {
      hide Inv, IndexHolds, GroupBy, LoopHead;
      IdleInv(State(), MonthOf);
      if buffer != [] {
        StartFlush(Flushing);
      } else {
        ToLoopHead();
      }
    }

    // `_insert_batch` on the month's connection, opened on first use.
    method RunBatch(month: string, batch: seq<MessageEnvelope>, fails: seq<bool>) returns (inserted: nat)
      requires |fails| == |batch| && IndexHolds(before, index, saved)
      requires forall x :: x in Inserted(batch, fails) ==> MonthOf(x) == month
      modifies this`index
      ensures IndexHolds(before, index, saved + Inserted(batch, fails))
      ensures inserted == |Inserted(batch, fails)|
    {
      hide IndexHolds, Inserted, RowOf, MonthOf;
      var db := if month in index then index[month] else EMPTY_MONTH;
      var db';
      db', inserted := InsertBatch(db, batch, fails);
      RowsStored(before, index, saved, month, Inserted(batch, fails), db');
      index := index[month := db'];
    }

    /** The batch failed before its first row: all of it is counted as dropped. */
    method BatchRefused()
      requires Stored() && pending != []
      modifies this
      ensures Stored() && State() == EndBatch(old(State()), Lost(true)) && index == old(index)
      ensures dropped == old(dropped) + |old(pending[0].items)| && written == old(written)
    {
      hide IndexHolds;
      ghost var next := EndBatch(State(), Lost(true));
      dropped, batchDropped := dropped + |pending[0].items|, batchDropped + |pending[0].items|;
      pending := pending[1..];
      assert next.saved == saved;
      failed := next.failed;
    }

    /** The batch ran: its rows are stored but for those that failed one by one. */
    method BatchRan(fails: seq<bool>)
      requires Stored() && pending != [] && |fails| == |pending[0].items|
      requires forall x :: x in Inserted(pending[0].items, fails) ==> MonthOf(x) == pending[0].key
      modifies this
      ensures Stored() && State() == EndBatch(old(State()), Kept(Inserted(old(pending[0].items), fails)))
      ensures dropped == old(dropped) && written == old(written) + |Inserted(old(pending[0].items), fails)|
    {
      hide IndexHolds, Inserted, MonthOf, EndBatch;
      var month, batch := pending[0].key, pending[0].items;
      ghost var next := EndBatch(State(), Kept(Inserted(batch, fails)));
      BatchKept(State(), Inserted(batch, fails));
      var inserted := RunBatch(month, batch, fails);
      written := written + inserted;
      pending := pending[1..];
      saved, failed := next.saved, next.failed;
    }

    /** The await for one month's batch returned. */
    method WriteMonth(a: Answer)
      requires Valid() && pending != [] && (a.Ran? ==> |a.fails| == |pending[0].items|)
      modifies this
      ensures Valid() && State() == AfterBatch(EndBatch(old(State()), OutcomeOf(old(pending[0].items), a)), MonthOf)
      ensures a.Refused? ==> dropped == old(dropped) + |old(pending[0].items)| && written == old(written) && index == old(index)
      ensures a.Ran? ==> dropped == old(dropped) && written == old(written) + |Inserted(old(pending[0].items), a.fails)|
    {
      hide Inv, IndexHolds, LoopHead, Inserted, EndBatch, MonthOf;
      ghost var batch := pending[0].items;
      if a.Ran? {
        InsertedIsSubseq(batch, a.fails);
      } else {
        SubseqNil(batch);
      }
      BatchEndedInv(State(), MonthOf, OutcomeOf(batch, a));
      if a.Refused? {
        BatchRefused();
      } else {
        PendingBelongs(State(), a.fails);
        BatchRan(a.fails);
      }
      if pending == [] {
        if phase == FinalFlush {
          phase := Done;
        } else {
          ToLoopHead();
        }
      }
    }

    method Stop()
      requires Valid()
      modifies this
      ensures Valid() && State() == old(State()).(stopping := true) && index == old(index)
    {
      hide Inv, IndexHolds;
      StepInv(State(), MonthOf, StopAsked);
      stopping := true;
    }
  }
}
