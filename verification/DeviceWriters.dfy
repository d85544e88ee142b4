/** sylo/receiver/device_writer.py: one writer per device. Every method is a stretch of its
    coroutine between two awaits; arrivals and other components run in between. */
module DeviceWriters {
  import opened Utf8
  import opened Seqs
  import opened Stages
  import opened Envelope
  import opened IndexerCore
  import opened TextLog
  import opened ReadBack
  import Lines

  /** How the write of a batch ended: done, or an `OSError`, before the file was opened or after
      its tail was repaired. The text itself is written whole or not at all. */
  datatype Write = Written | Failed(reached: bool)

  /** `_ensure_clean_tail` and `_write_sync` on the bytes of one file. */
  method WriteFile(content: bytes, lines: seq<string>, sanitizeTail: bool, w: Write) returns (content': bytes)
    requires lines != []
    ensures content' == match w
                        case Written => WriteSync(content, EncodeAll(lines), sanitizeTail)
                        case Failed(reached) => if reached && sanitizeTail then CleanTail(content) else content
  {
    content' := content;
    if w == Failed(false) {
      return;
    }
    if sanitizeTail {
      if |content| != 0 && content[|content| - 1] != NL {
        content' := content + [NL];
      }
    }
    if w.Written? {
      JoinedText(lines);
      content' := content' + Encode(Join(lines) + "\n");
    }
  }

  function FileOf(files: map<string, bytes>, day: string): bytes {
    if day in files then files[day] else []
  }

  // A day's file: what was there when the process started, its tail repaired before the first
  // write, and then exactly the lines of the saved messages of that day. A failed first write
  // leaves at most the repaired tail.
  ghost predicate DayHolds(before: map<string, bytes>, files: map<string, bytes>, sanitized: set<string>,
                           saved: seq<MessageEnvelope>, unfailing: bool, day: string) {
    if day in sanitized then
      Select(saved, DayOf, day) != [] && day in files && files[day] == CleanTail(FileOf(before, day)) + FileText(Select(saved, DayOf, day))
    else
      && Select(saved, DayOf, day) == [] && (day in before ==> day in files)
      && (FileOf(files, day) == FileOf(before, day) || FileOf(files, day) == CleanTail(FileOf(before, day)))
      && (unfailing ==> FileOf(files, day) == FileOf(before, day) && (day in files ==> day in before))
  }

  ghost predicate FilesHold(before: map<string, bytes>, files: map<string, bytes>, sanitized: set<string>,
                            saved: seq<MessageEnvelope>, unfailing: bool) {
    forall day: string :: DayHolds(before, files, sanitized, saved, unfailing, day)
  }

  lemma {:induction false} UntouchedFiles(before: map<string, bytes>)
    ensures FilesHold(before, before, {}, [], true)
  {
    var none: seq<MessageEnvelope> := [];
    forall day: string ensures DayHolds(before, before, {}, none, true, day) {
    }
  }

  lemma {:induction false} FileTextConcat(a: seq<MessageEnvelope>, b: seq<MessageEnvelope>)
    ensures FileText(a + b) == FileText(a) + FileText(b)
  {
    hide ToLine, Encode;
    assert LinesOf(a + b) == LinesOf(a) + LinesOf(b);
    Lines.TextConcat(LinesOf(a), LinesOf(b), NL);
  }

  lemma {:induction false} CleanTailTwice(content: bytes)
    ensures CleanTail(CleanTail(content)) == CleanTail(content)
  {
  }

  lemma {:induction false} FirstWrite(base: bytes, content: bytes, lines: seq<bytes>)
    requires content == base || content == CleanTail(base)
    ensures WriteSync(content, lines, true) == CleanTail(base) + Lines.Text(lines, NL)
  {
    CleanTailTwice(base);
  }

  lemma {:induction false} LaterWrite(base: bytes, sofar: bytes, lines: seq<bytes>)
    ensures WriteSync(base + sofar, lines, false) == base + (sofar + Lines.Text(lines, NL))
  {
  }

  // The file after one more batch of the day: one clean tail, then all lines saved so far.
  lemma {:induction false} OneMoreBatch(base: bytes, content: bytes, sofar: seq<MessageEnvelope>, batch: seq<MessageEnvelope>, first: bool)
    requires if first then content == base || content == CleanTail(base) else content == CleanTail(base) + FileText(sofar)
    requires first ==> sofar == []
    ensures WriteSync(content, LinesOf(batch), first) == CleanTail(base) + FileText(sofar + batch)
  {
    hide FileText, LinesOf, CleanTail, WriteSync;
    FileTextIs(batch);
    if first {
      FirstWrite(base, content, LinesOf(batch));
      assert sofar + batch == batch;
    } else {
      FileTextConcat(sofar, batch);
      LaterWrite(CleanTail(base), FileText(sofar), LinesOf(batch));
    }
  }

  lemma {:induction false} FileTextIs(ms: seq<MessageEnvelope>)
    ensures FileText(ms) == Lines.Text(LinesOf(ms), NL)
  {
  }

  lemma {:induction false} DayWritten(before: map<string, bytes>, files: map<string, bytes>, sanitized: set<string>,
                                      saved: seq<MessageEnvelope>, unfailing: bool, written: string, batch: seq<MessageEnvelope>, day: string)
    requires DayHolds(before, files, sanitized, saved, unfailing, day)
    requires batch != [] && forall x :: x in batch ==> DayOf(x) == written
    ensures var content := WriteSync(FileOf(files, written), LinesOf(batch), written !in sanitized);
            DayHolds(before, files[written := content], sanitized + {written}, saved + batch, unfailing, day)
  {
    hide DayOf, FileText, LinesOf, WriteSync, CleanTail, Select;
    SelectConcat(saved, batch, DayOf, day);
    var sofar := Select(saved, DayOf, day);
    if day == written {
      SelectAll(batch, DayOf, day);
      OneMoreBatch(FileOf(before, day), FileOf(files, day), sofar, batch, day !in sanitized);
    } else {
      SelectNone(batch, DayOf, day);
      assert sofar + [] == sofar;
    }
  }

  lemma {:induction false} BatchWritten(before: map<string, bytes>, files: map<string, bytes>, sanitized: set<string>,
                                        saved: seq<MessageEnvelope>, unfailing: bool, written: string, batch: seq<MessageEnvelope>)
    requires FilesHold(before, files, sanitized, saved, unfailing)
    requires batch != [] && forall x :: x in batch ==> DayOf(x) == written
    ensures var content := WriteSync(FileOf(files, written), LinesOf(batch), written !in sanitized);
            FilesHold(before, files[written := content], sanitized + {written}, saved + batch, unfailing)
  {
    hide DayOf, DayHolds, LinesOf, WriteSync;
    var files' := files[written := WriteSync(FileOf(files, written), LinesOf(batch), written !in sanitized)];
    var sanitized', saved' := sanitized + {written}, saved + batch;
    forall day: string ensures DayHolds(before, files', sanitized', saved', unfailing, day) {
      assert DayHolds(before, files, sanitized, saved, unfailing, day);
      DayWritten(before, files, sanitized, saved, unfailing, written, batch, day);
    }
  }

  // A failed write that got as far as the tail, or as creating the file.
  lemma {:induction false} BatchFailed(before: map<string, bytes>, files: map<string, bytes>, sanitized: set<string>,
                                       saved: seq<MessageEnvelope>, unfailing: bool, failed: string, reached: bool)
    requires FilesHold(before, files, sanitized, saved, unfailing)
    ensures var content := FileOf(files, failed);
            var content' := if failed !in sanitized then CleanTail(content) else content;
            FilesHold(before, if reached then files[failed := content'] else files, sanitized, saved, false)
  {
    hide DayOf, FileText, Select, CleanTail;
    var content := FileOf(files, failed);
    var content' := if failed !in sanitized then CleanTail(content) else content;
    var files' := if reached then files[failed := content'] else files;
    forall day: string ensures DayHolds(before, files', sanitized, saved, false, day) {
      assert DayHolds(before, files, sanitized, saved, unfailing, day);
      CleanTailTwice(FileOf(before, day));
    }
  }

  function WriteOutcome(w: Write, batch: seq<MessageEnvelope>): Outcome<MessageEnvelope> {
    if w.Written? then Kept(batch) else Lost(false)
  }

  lemma {:induction false} KeepingFailsNothing(s: Stage<MessageEnvelope>, batch: seq<MessageEnvelope>)
    requires s.pending != [] && s.pending[0].items == batch
    ensures EndBatch(s, Kept(batch)).failed == s.failed
  {
    assert multiset(batch) - multiset(batch) == multiset{};
  }

  lemma {:induction false} LosingFails(s: Stage<MessageEnvelope>)
    requires s.pending != [] && s.pending[0].items != []
    ensures EndBatch(s, Lost(false)).failed != multiset{}
  {
    var x := s.pending[0].items[0];
    assert x in multiset(s.pending[0].items);
    assert x in EndBatch(s, Lost(false)).failed;
  }

  // The envelopes that the queued messages will become.
  function Parsed(queue: seq<RawMessage>): (xs: seq<MessageEnvelope>)
    ensures |xs| == |queue|
  {
    Map(FromRaw, queue)
  }

  lemma {:induction false} ParsedSnoc(queue: seq<RawMessage>, m: RawMessage)
    ensures Parsed(queue + [m]) == Parsed(queue) + [FromRaw(m)]
  {
    hide FromRaw;
  }

  lemma {:induction false} ParsedParts(queue: seq<RawMessage>)
    ensures queue == [] ==> Parsed(queue) == []
    ensures queue != [] ==> Parsed(queue)[0] == FromRaw(queue[0]) && Parsed(queue)[1..] == Parsed(queue[1..])
  {
    hide FromRaw;
  }

  class DeviceWriter {
    const deviceKey: string
    const limits: Limits
    const indexer: Indexer
    const before: map<string, bytes>        // the day files found at start
    var phase: Phase
    var stopping: bool
    var queue: seq<RawMessage>
    var buffer: seq<MessageEnvelope>
    var pending: seq<Batch<string, MessageEnvelope>>
    var sanitizedPaths: set<string>
    var files: map<string, bytes>
    // QueueStats
    var lagWarnings: nat
    var dropped: nat
    var written: nat
    // history
    ghost var saved: seq<MessageEnvelope>
    ghost var failed: multiset<MessageEnvelope>
    ghost var accepted: seq<MessageEnvelope>
    ghost var offered: nat

    ghost function State(): Stage<MessageEnvelope>
      reads this
    {
      Stage(limits, phase, stopping, Parsed(queue), buffer, pending, lagWarnings, dropped, 0, written,
            saved, failed, accepted, offered)
    }

    ghost predicate Stored()
      reads this
    {
      FilesHold(before, files, sanitizedPaths, saved, failed == multiset{})
    }

    ghost predicate Valid()
      reads this
    {
      Inv(State(), DayOf) && Stored()
    }

    constructor (deviceKey: string, limits: Limits, indexer: Indexer, before: map<string, bytes>)
      ensures Valid() && State() == NewStage(limits)
      ensures this.deviceKey == deviceKey && this.indexer == indexer && this.before == before && files == before
    {
      this.deviceKey, this.limits, this.indexer, this.before, files := deviceKey, limits, indexer, before, before;
      phase, stopping, queue, buffer, pending, sanitizedPaths := Waiting, false, [], [], [], {};
      lagWarnings, dropped, written := 0, 0, 0;
      saved, failed, accepted, offered := [], multiset{}, [], 0;
      new;
      InitiallyInv<MessageEnvelope>(limits, DayOf);
      UntouchedFiles(before);
      ParsedParts([]);
    }

    /** Called from the ingest callback. */
    method Enqueue(m: RawMessage)
      requires Valid()
      modifies this
      ensures Valid() && State() == Offer(old(State()), FromRaw(m))
      ensures files == old(files)
      ensures if 0 < limits.hard && old(|queue|) == limits.hard then
                queue == old(queue) && accepted == old(accepted) && dropped == old(dropped) + 1
              else
                queue == old(queue) + [m] && accepted == old(accepted) + [FromRaw(m)] && dropped == old(dropped)
      ensures lagWarnings == old(lagWarnings) + if old(|queue|) >= limits.soft then 1 else 0
    {
      hide Inv, FilesHold, FromRaw, Parsed;
      QueueIsBounded(State(), DayOf);
      OfferInv(State(), DayOf, FromRaw(m));
      if |queue| >= limits.soft {
        lagWarnings := lagWarnings + 1;
      }
      offered := offered + 1;
      if 0 < limits.hard <= |queue| {
        dropped := dropped + 1;
        return;
      }
      ParsedSnoc(queue, m);
      queue := queue + [m];
      accepted := accepted + [FromRaw(m)];
    }

    method StartFlush(next: Phase)
      requires Stored()
      modifies this
      ensures Stored() && State() == BeginFlush(old(State()), DayOf, next) && files == old(files) && queue == old(queue)
    {
      hide FilesHold, FirstKeys, Select, DayOf, FromRaw, Parsed;
      var order, byDate := GroupInto(buffer, DayOf);
      ghost var batches := GroupBy(buffer, DayOf);
      pending := [];
      for i := 0 to |order|
        modifies this`pending
        invariant pending == batches[..i]
      {
        assert order[i] in byDate;
        pending := pending + [Batch(order[i], byDate[order[i]])];
      }
      phase, buffer := next, [];
    }

    // One message from the queue to the buffer and to the indexer.
    method ForwardOne()
      requires Stored() && queue != []
      requires indexer.Valid()
      modifies this, indexer
      ensures Stored() && State() == MoveOne(old(State())) && files == old(files) && queue == old(queue)[1..]
      ensures indexer.Valid() && indexer.State() == Offer(old(indexer.State()), FromRaw(old(queue)[0]))
      ensures indexer.index == old(indexer.index) && indexer.phase == old(indexer.phase)
    {
      hide FilesHold, FromRaw, Parsed, IndexerCore.Indexer.Valid, Offer;
      var envelope := FromRaw(queue[0]);
      ParsedParts(queue);
      queue := queue[1..];
      buffer := buffer + [envelope];
      indexer.Enqueue(envelope);
    }

    // The head of the main loop, and all that follows it once stopping, up to the last flush.
    method ToLoopHead()
      requires Stored()
      requires indexer.Valid()
      modifies this, indexer
      ensures Stored() && State() == LoopHead(old(State()), DayOf) && files == old(files)
      ensures dropped == old(dropped) && written == old(written)
      ensures indexer.Valid() && indexer.index == old(indexer.index)
      ensures indexer.State() == OfferAll(old(indexer.State()), HandedOver(old(State()), State()))
    {
      hide FilesHold, GroupBy, IndexerCore.Indexer.Valid, Offer, FromRaw, Parsed;
      if !stopping {
        phase := Waiting;
        return;
      }
      ghost var drained := MoveAll(State());
      ghost var i := 0;
      while queue != []
        invariant Stored() && files == old(files) && i <= |old(queue)| && queue == old(queue)[i..]
        invariant MoveAll(State()) == drained
        invariant indexer.Valid() && indexer.index == old(indexer.index)
        invariant indexer.State() == OfferAll(old(indexer.State()), Parsed(old(queue)[..i]))
        decreases |queue|
      {
        ForwardStep(old(indexer.State()), old(queue), i);
        label L:
        ForwardOne();
        MoveOneThenAll(old@L(State()));
        i := i + 1;
      }
      assert old(queue)[..i] == old(queue);
      assert State() == drained;
      AllHandedOver(old(State()), drained);
      if buffer != [] {
        StartFlush(FinalFlush);
      } else {
        phase := Done;
      }
      assert HandedOver(old(State()), State()) == HandedOver(old(State()), drained);
    }

    /** `queue.get` returned: parse, buffer, forward, and flush when the buffer is full. */
    method Receive()
      requires Valid() && phase == Waiting && queue != []
      requires indexer.Valid()
      modifies this, indexer
      ensures Valid() && State() == Take(old(State()), DayOf) && files == old(files)
      ensures indexer.Valid() && indexer.index == old(indexer.index)
      ensures indexer.State() == OfferAll(old(indexer.State()), HandedOver(old(State()), State()))
    {
      hide Inv, FilesHold, GroupBy, LoopHead, IndexerCore.Indexer.Valid, FromRaw, Parsed;
      TakeInv(State(), DayOf);
      ghost var x := FromRaw(queue[0]);
      ParsedParts(queue);
      ForwardOne();
      ghost var between := State();
      LoopHeadOnlyTakes(between, DayOf);
      if |buffer| >= limits.flushMax {
        StartFlush(Flushing);
      } else {
        ToLoopHead();
      }
      OneThenMore(old(indexer.State()), old(State()), between, State(), x);
    }

    /** The idle timeout fired. */
    method TimedOut()
      requires Valid() && phase == Waiting
      requires indexer.Valid()
      modifies this, indexer
      ensures Valid() && State() == Idle(old(State()), DayOf) && files == old(files)
      ensures indexer.Valid() && indexer.index == old(indexer.index)
      ensures indexer.State() == OfferAll(old(indexer.State()), HandedOver(old(State()), State()))
    {
      hide Inv, FilesHold, GroupBy, LoopHead, IndexerCore.Indexer.Valid, FromRaw, Parsed;
      IdleInv(State(), DayOf);
      if buffer != [] {
        StartFlush(Flushing);
      } else {
        ToLoopHead();
      }
    }

    // `_write_sync` on the day's file, its tail repaired if this process has not written to it yet.
    method AppendLines(day: string, batch: seq<MessageEnvelope>, w: Write)
      requires Stored() && batch != [] && forall x :: x in batch ==> DayOf(x) == day
      modifies this`files, this`sanitizedPaths
      ensures w.Written? ==> FilesHold(before, files, sanitizedPaths, saved + batch, failed == multiset{})
      ensures w.Failed? ==> FilesHold(before, files, sanitizedPaths, saved, false)
    {
      hide FilesHold, DayOf, ToLine, WriteSync, CleanTail;
      var lines := Map(ToLine, batch);
      assert EncodeAll(lines) == LinesOf(batch);
      var content := WriteFile(FileOf(files, day), lines, day !in sanitizedPaths, w);
      match w
      case Written =>
        BatchWritten(before, files, sanitizedPaths, saved, failed == multiset{}, day, batch);
        files, sanitizedPaths := files[day := content], sanitizedPaths + {day};
      case Failed(reached) =>
        BatchFailed(before, files, sanitizedPaths, saved, failed == multiset{}, day, reached);
        if reached {
          files := files[day := content];
        }
    }

    // The batch is in the file.
    method BatchStored()
      requires Stored() && pending != [] && pending[0].items != []
      requires forall x :: x in pending[0].items ==> DayOf(x) == pending[0].key
      modifies this
      ensures Stored() && State() == EndBatch(old(State()), Kept(old(pending[0].items)))
      ensures dropped == old(dropped) && written == old(written) + |old(pending[0].items)|
    {
      hide FilesHold, DayOf, EndBatch, FromRaw, Parsed;
      var day, batch := pending[0].key, pending[0].items;
      BatchKept(State(), batch);
      KeepingFailsNothing(State(), batch);
      AppendLines(day, batch, Written);
      pending, written, saved := pending[1..], written + |batch|, saved + batch;
    }

    // The batch is not in the file. The error is logged and counted nowhere.
    method BatchLostToError(reached: bool)
      requires Stored() && pending != [] && pending[0].items != []
      requires forall x :: x in pending[0].items ==> DayOf(x) == pending[0].key
      modifies this
      ensures Stored() && State() == EndBatch(old(State()), Lost(false))
      ensures dropped == old(dropped) && written == old(written)
    {
      hide FilesHold, DayOf, EndBatch, FromRaw, Parsed;
      ghost var next := EndBatch(State(), Lost(false));
      BatchLost(State());
      LosingFails(State());
      AppendLines(pending[0].key, pending[0].items, Failed(reached));
      pending := pending[1..];
      saved, failed := next.saved, next.failed;
    }

    /** The await for one day's batch returned. */
    method WriteDay(w: Write)
      requires Valid() && pending != []
      requires indexer.Valid()
      modifies this, indexer
      ensures Valid()
      ensures State() == AfterBatch(EndBatch(old(State()), WriteOutcome(w, old(pending[0].items))), DayOf)
      ensures dropped == old(dropped) && written == old(written) + if w.Written? then |old(pending[0].items)| else 0
      ensures indexer.Valid() && indexer.index == old(indexer.index)
      ensures indexer.State() == OfferAll(old(indexer.State()), HandedOver(old(State()), State()))
    {
      hide Inv, FilesHold, GroupBy, LoopHead, EndBatch, IndexerCore.Indexer.Valid, FromRaw, Parsed, DayOf;
      ghost var batch, start := pending[0].items, State();
      ghost var outcome := WriteOutcome(w, batch);
      SubseqRefl(batch);
      SubseqNil(batch);
      BatchEndedInv(State(), DayOf, outcome);
      FirstBatchShaped(State());
      match w {
        case Written => BatchStored();
        case Failed(reached) => BatchLostToError(reached);
      }
      EndBatchKeepsQueue(start, outcome);
      if pending == [] {
        if phase == FinalFlush {
          phase := Done;
        } else {
          ToLoopHead();
        }
      }
    }

    method Stop()
      requires Valid()
      modifies this
      ensures Valid() && State() == old(State()).(stopping := true) && files == old(files)
    {
      hide Inv, FilesHold;
      StepInv(State(), DayOf, StopAsked);
      stopping := true;
    }
  }

  lemma {:induction false} ForwardStep(s: Stage<MessageEnvelope>, queue: seq<RawMessage>, i: nat)
    requires i < |queue|
    ensures OfferAll(s, Parsed(queue[..i + 1])) == Offer(OfferAll(s, Parsed(queue[..i])), FromRaw(queue[i]))
  {
    hide FromRaw, Offer, Parsed;
    ParsedSnoc(queue[..i], queue[i]);
    assert queue[..i + 1] == queue[..i] + [queue[i]];
    OfferAllSnoc(s, Parsed(queue[..i]), FromRaw(queue[i]));
  }

  lemma {:induction false} AllHandedOver(w: Writer, w': Writer)
    requires w'.queue == []
    ensures HandedOver(w, w') == w.queue
  {
  }

  lemma {:induction false} MoveOneThenAll(s: Stage<MessageEnvelope>)
    requires s.queue != []
    ensures MoveAll(MoveOne(s)) == MoveAll(s)
  {
    assert s.queue == [s.queue[0]] + s.queue[1..];
    assert s.buffer + [s.queue[0]] + s.queue[1..] == s.buffer + s.queue;
  }

  // Handing over the first message, then what the rest of the step hands over.
  lemma {:induction false} OneThenMore(i: Stage<MessageEnvelope>, w: Writer, between: Writer, after: Writer, x: MessageEnvelope)
    requires w.queue != [] && x == w.queue[0] && between.queue == w.queue[1..]
    requires |after.queue| <= |between.queue|
    ensures OfferAll(OfferAll(i, [x]), HandedOver(between, after)) == OfferAll(i, HandedOver(w, after))
    ensures OfferAll(i, [x]) == Offer(i, x)
  {
    hide Offer;
    OfferAllSnoc(i, [], x);
    assert [] + [x] == [x];
    OfferAllConcat(i, [x], HandedOver(between, after));
    assert [x] + HandedOver(between, after) == HandedOver(w, after);
  }

  type Writer = Stage<MessageEnvelope>

  lemma {:induction false} FirstBatchShaped(s: Stage<MessageEnvelope>)
    requires Inv(s, DayOf) && s.pending != []
    ensures s.pending[0].items != []
    ensures forall x :: x in s.pending[0].items ==> DayOf(x) == s.pending[0].key
    ensures s.phase != FinalFlush ==> s.phase == Flushing
  {
    hide DayOf;
    assert s.pending[0] in s.pending;
  }

  lemma {:induction false} EndBatchKeepsQueue(s: Stage<MessageEnvelope>, o: Outcome<MessageEnvelope>)
    requires s.pending != []
    ensures EndBatch(s, o).queue == s.queue && EndBatch(s, o).phase == s.phase
  {
  }

  /** A day's file at any moment: the lines found at start, untouched, then the lines of the
      messages written since, which are an order-preserving selection of those accepted for the
      day, and all that left the queue once the writer is done and no write failed. */
  lemma {:induction false} DayFileLines(w: DeviceWriter, day: string)
    requires w.Valid() && day in w.sanitizedPaths
    ensures day in w.files
    ensures FileLines(w.files[day]) == FileLines(FileOf(w.before, day)) + LinesOf(Select(w.saved, DayOf, day))
    ensures Subseq(Select(w.saved, DayOf, day), Select(w.accepted, DayOf, day))
    ensures w.phase == Done && w.failed == multiset{} ==> Select(w.saved, DayOf, day) == Select(Received(w.State()), DayOf, day)
  {
    hide Inv, DayOf, FileLines, LinesOf, WriteSync, Select;
    assert DayHolds(w.before, w.files, w.sanitizedPaths, w.saved, w.failed == multiset{}, day);
    SavedInOrder(w.State(), DayOf, day);
    if w.phase == Done && w.failed == multiset{} {
      DoneSavesAll(w.State(), DayOf, day);
    }
    var base, ms := FileOf(w.before, day), Select(w.saved, DayOf, day);
    LinesHaveNoBreaks(ms);
    WriteSyncLines(base, LinesOf(ms), true);
    AsOneWrite(base, ms);
  }

  lemma {:induction false} AsOneWrite(base: bytes, ms: seq<MessageEnvelope>)
    ensures WriteSync(base, LinesOf(ms), true) == CleanTail(base) + FileText(ms)
  {
  }
}
