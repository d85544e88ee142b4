/** The receiver as a whole (sylo/receiver/server.py, DeviceRegistry): one writer stage per
    source address, all feeding one indexer stage. Any component may take the next step. */
module Pipeline {
  import opened Seqs
  import opened Stages
  import opened Envelope
  import Lex
  import TimeUtil

  type Writer = Stage<MessageEnvelope>

  /** `forwarded` is every envelope handed to the indexer so far, kept or dropped. */
  datatype Server = Server(limits: Limits, writers: map<string, Writer>, indexer: Stage<MessageEnvelope>,
                           closing: bool, forwarded: seq<MessageEnvelope>)

  function NewServer(writerLimits: Limits, indexerLimits: Limits): Server {
    Server(writerLimits, map[], NewStage(indexerLimits), false, [])
  }

  datatype Event =
    | Arrival(m: RawMessage)                                          // a datagram or a TCP line
    | WriterRuns(device: string, e: Stages.Event<MessageEnvelope>)    // a writer coroutine runs to its next await
    | IndexerRuns(e: Stages.Event<MessageEnvelope>)
    | StopWriters                                                     // `stop_all`
    | StopIndexer                                                     // `Indexer.stop`, once `stop_all` has returned

  /** `get_or_create` */
  function GetOrCreate(p: Server, device: string): Writer {
    if device in p.writers then p.writers[device] else NewStage(p.limits)
  }

  ghost predicate AllDone(p: Server) {
    forall d :: d in p.writers ==> p.writers[d].phase == Done
  }

  // No new writer once closing. A writer that is already there may be sent more at any time,
  // by a TCP connection that outlives the listening socket.
  ghost predicate CanAdmit(p: Server, device: string) {
    device in p.writers || !p.closing
  }

  ghost predicate Enabled(p: Server, e: Event) {
    match e
    case Arrival(m) => CanAdmit(p, m.sourceIp)
    case WriterRuns(d, e) => d in p.writers && OwnStep(e) && Stages.Enabled(p.writers[d], e)
    case IndexerRuns(e) => OwnStep(e) && Stages.Enabled(p.indexer, e)
    case StopWriters => true
    case StopIndexer => p.closing && AllDone(p)
  }

  function Admit(p: Server, x: MessageEnvelope): Server {
    p.(writers := p.writers[DeviceOf(x) := Offer(GetOrCreate(p, DeviceOf(x)), x)])
  }

  function Step(p: Server, e: Event): Server
    requires e.WriterRuns? ==> e.device in p.writers && (e.e.Taken? ==> p.writers[e.device].queue != [])
                               && (e.e.BatchEnded? ==> p.writers[e.device].pending != [])
    requires e.IndexerRuns? ==> (e.e.Taken? ==> p.indexer.queue != []) && (e.e.BatchEnded? ==> p.indexer.pending != [])
  {
    match e
    case Arrival(m) => Admit(p, FromRaw(m))
    case WriterRuns(d, e) =>
      var w := p.writers[d];
      var w' := Stages.Step(w, DayOf, e);
      var xs := HandedOver(w, w');   // the writer hands over what it took off its queue
      p.(writers := p.writers[d := w'], indexer := OfferAll(p.indexer, xs), forwarded := p.forwarded + xs)
    case IndexerRuns(e) => p.(indexer := Stages.Step(p.indexer, MonthOf, e))
    case StopWriters => p.(closing := true, writers := map d | d in p.writers :: p.writers[d].(stopping := true))
    case StopIndexer => p.(indexer := p.indexer.(stopping := true))
  }

  // ----- the invariant -----

  ghost predicate WriterInv(w: Writer, device: string) {
    Inv(w, DayOf) && forall x :: x in w.accepted ==> DeviceOf(x) == device
  }

  function ReceivedBy(p: Server, device: string): seq<MessageEnvelope> {
    if device in p.writers then Received(p.writers[device]) else []
  }

  ghost predicate Routed(p: Server) {
    forall d: string :: Select(p.forwarded, DeviceOf, d) == ReceivedBy(p, d)
  }

  ghost predicate ServerInv(p: Server) {
    && (forall d :: d in p.writers ==> WriterInv(p.writers[d], d))
    && Inv(p.indexer, MonthOf)
    // device by device, the indexer was offered exactly what the writer received, in that order
    && Routed(p)
    && Subseq(p.indexer.accepted, p.forwarded)
    && p.indexer.offered == |p.forwarded|
    && (p.indexer.stopping ==> AllDone(p) && p.closing)
    && (p.indexer.phase == FinalFlush || p.indexer.phase == Done ==> p.indexer.queue == [])
  }

  lemma {:induction false} NewServerInv(writerLimits: Limits, indexerLimits: Limits)
    ensures ServerInv(NewServer(writerLimits, indexerLimits))
  {
    InitiallyInv<MessageEnvelope>(indexerLimits, MonthOf);
    SubseqRefl<MessageEnvelope>([]);
  }

  lemma {:induction false} OfferAllInv(s: Stage<MessageEnvelope>, xs: seq<MessageEnvelope>)
    requires Inv(s, MonthOf)
    ensures Inv(OfferAll(s, xs), MonthOf) && OfferAll(s, xs).phase == s.phase
  {
    if xs != [] {
      OfferAllInv(s, xs[..|xs| - 1]);
      OfferInv(OfferAll(s, xs[..|xs| - 1]), MonthOf, xs[|xs| - 1]);
    }
  }

  lemma {:induction false} OfferAllAccepts(s: Stage<MessageEnvelope>, xs: seq<MessageEnvelope>, forwarded: seq<MessageEnvelope>)
    requires Subseq(s.accepted, forwarded)
    ensures var s' := OfferAll(s, xs);
            Subseq(s'.accepted, forwarded + xs) && s'.offered == s.offered + |xs| && s'.stopping == s.stopping
  {
    if xs == [] {
      assert forwarded + xs == forwarded;
    } else {
      var before, x := xs[..|xs| - 1], xs[|xs| - 1];
      OfferAllAccepts(s, before, forwarded);
      var a := OfferAll(s, before).accepted;
      assert forwarded + xs == (forwarded + before) + [x];
      SubseqNil([x]);
      SubseqRefl([x]);
      SubseqConcat(a, [], forwarded + before, [x]);
      SubseqConcat(a, [x], forwarded + before, [x]);
      assert a + [] == a;
    }
  }

  lemma {:induction false} AdmitWriterInv(w: Writer, x: MessageEnvelope)
    requires WriterInv(w, DeviceOf(x))
    ensures WriterInv(Offer(w, x), DeviceOf(x)) && Received(Offer(w, x)) == Received(w)
  {
    hide DayOf, Conserved, InOrder, Counted, Shaped;
    OfferInv(w, DayOf, x);
    OfferReceivesNothing(w, x);
  }

  lemma {:induction false} NewWriterInv(limits: Limits, d: string)
    ensures WriterInv(NewStage(limits), d)
  {
    InitiallyInv<MessageEnvelope>(limits, DayOf);
  }

  lemma {:induction false} AdmitInv(p: Server, x: MessageEnvelope)
    requires ServerInv(p) && CanAdmit(p, DeviceOf(x))
    ensures ServerInv(Admit(p, x))
  {
    var d, w := DeviceOf(x), GetOrCreate(p, DeviceOf(x));
    NewWriterInv(p.limits, d);
    AdmitWriterInv(w, x);
    WriterAdmitted(p, d, Offer(w, x));
  }

  lemma {:induction false} WriterAdmitted(p: Server, d: string, w': Writer)
    requires ServerInv(p) && WriterInv(w', d)
    requires p.indexer.stopping ==> w'.phase == Done
    requires Received(w') == ReceivedBy(p, d)
    ensures ServerInv(p.(writers := p.writers[d := w']))
  {
    RoutedUnchanged(p, d, w');
  }

  lemma {:induction false} RoutedUnchanged(p: Server, d: string, w': Writer)
    requires Routed(p) && Received(w') == ReceivedBy(p, d)
    ensures Routed(p.(writers := p.writers[d := w']))
  {
    var p' := p.(writers := p.writers[d := w']);
    forall c: string ensures Select(p'.forwarded, DeviceOf, c) == ReceivedBy(p', c) {
      assert Select(p.forwarded, DeviceOf, c) == ReceivedBy(p, c);
    }
  }

  lemma {:induction false} RoutedAfter(p: Server, d: string, w': Writer, xs: seq<MessageEnvelope>)
    requires Routed(p) && d in p.writers
    requires forall x :: x in xs ==> DeviceOf(x) == d
    requires Received(w') == Received(p.writers[d]) + xs
    ensures Routed(p.(writers := p.writers[d := w'], forwarded := p.forwarded + xs))
  {
    var p' := p.(writers := p.writers[d := w'], forwarded := p.forwarded + xs);
    forall c: string ensures Select(p'.forwarded, DeviceOf, c) == ReceivedBy(p', c) {
      SelectConcat(p.forwarded, xs, DeviceOf, c);
      assert Select(p.forwarded, DeviceOf, c) == ReceivedBy(p, c);
      if c == d {
        SelectAll(xs, DeviceOf, c);
      } else {
        SelectNone(xs, DeviceOf, c);
      }
    }
  }

  // A writer's own step, on the writer alone.
  lemma {:induction false} WriterStepInv(w: Writer, d: string, e: Stages.Event<MessageEnvelope>)
    requires WriterInv(w, d) && Stages.Enabled(w, e) && OwnStep(e)
    ensures var w' := Stages.Step(w, DayOf, e);
            && WriterInv(w', d) && OnlyTakes(w, w') && w.phase != Done
            && Received(w') == Received(w) + HandedOver(w, w')
            && forall x :: x in HandedOver(w, w') ==> DeviceOf(x) == d
  {
    StepInv(w, DayOf, e);
    OwnStepOnlyTakes(w, DayOf, e);
    ReceivedGrows(w, Stages.Step(w, DayOf, e));
  }

  lemma {:induction false} WriterRunsInv(p: Server, d: string, e: Stages.Event<MessageEnvelope>)
    requires ServerInv(p) && Enabled(p, WriterRuns(d, e))
    ensures ServerInv(Step(p, WriterRuns(d, e)))
  {
    var w, w' := p.writers[d], Stages.Step(p.writers[d], DayOf, e);
    WriterStepInv(w, d, e);
    HandOverInv(p, d, w', HandedOver(w, w'));
  }

  lemma {:induction false} HandOverInv(p: Server, d: string, w': Writer, xs: seq<MessageEnvelope>)
    requires ServerInv(p) && d in p.writers && p.writers[d].phase != Done && WriterInv(w', d)
    requires Received(w') == Received(p.writers[d]) + xs
    requires forall x :: x in xs ==> DeviceOf(x) == d
    ensures ServerInv(p.(writers := p.writers[d := w'], indexer := OfferAll(p.indexer, xs), forwarded := p.forwarded + xs))
  {
    var routed := p.(writers := p.writers[d := w'], forwarded := p.forwarded + xs);
    RoutedAfter(p, d, w', xs);
    SameRouting(routed, routed.(indexer := OfferAll(p.indexer, xs)));
    assert !p.indexer.stopping;
    OfferAllInv(p.indexer, xs);
    OfferAllAccepts(p.indexer, xs, p.forwarded);
  }

  lemma {:induction false} SameRouting(p: Server, p': Server)
    requires Routed(p) && p'.writers == p.writers && p'.forwarded == p.forwarded
    ensures Routed(p')
  {
    forall c: string ensures Select(p'.forwarded, DeviceOf, c) == ReceivedBy(p', c) {
      assert Select(p.forwarded, DeviceOf, c) == ReceivedBy(p, c);
    }
  }

  lemma {:induction false} StopWritersInv(p: Server)
    requires ServerInv(p)
    ensures ServerInv(Step(p, StopWriters))
  {
    hide Inv, DayOf, MonthOf, DeviceOf;
    var p' := Step(p, StopWriters);
    forall d | d in p'.writers ensures WriterInv(p'.writers[d], d) {
      StepInv(p.writers[d], DayOf, StopAsked);
    }
    forall c: string ensures Select(p'.forwarded, DeviceOf, c) == ReceivedBy(p', c) {
      assert Select(p.forwarded, DeviceOf, c) == ReceivedBy(p, c);
    }
  }

  /** Every step of every component keeps the invariant. */
  lemma {:induction false} StepKeepsInv(p: Server, e: Event)
    requires ServerInv(p) && Enabled(p, e)
    ensures ServerInv(Step(p, e))
  {
    match e
    case Arrival(m) => AdmitInv(p, FromRaw(m));
    case WriterRuns(d, e) => WriterRunsInv(p, d, e);
    case IndexerRuns(e) => IndexerRunsInv(p, e);
    case StopWriters => StopWritersInv(p);
    case StopIndexer =>
      StepInv(p.indexer, MonthOf, StopAsked);
      SameRouting(p, Step(p, StopIndexer));
  }

  // The indexer's own step, on the indexer alone.
  lemma {:induction false} IndexerStepInv(i: Stage<MessageEnvelope>, e: Stages.Event<MessageEnvelope>)
    requires Inv(i, MonthOf) && Stages.Enabled(i, e) && OwnStep(e)
    requires Drained(i) ==> i.queue == []
    ensures var i' := Stages.Step(i, MonthOf, e);
            && Inv(i', MonthOf) && i'.accepted == i.accepted && i'.offered == i.offered && i'.stopping == i.stopping
            && (Drained(i') ==> i'.queue == [])
  {
    hide Conserved, InOrder, Counted, MonthOf, Shaped, QueueIsTail, LoopHead, BeginFlush;
    StepInv(i, MonthOf, e);
    OwnStepOnlyTakes(i, MonthOf, e);
    OwnStepOffersNothing(i, e);
    InvIsShaped(i, MonthOf);
    DrainStep(i, MonthOf, e);
  }

  lemma {:induction false} IndexerRunsInv(p: Server, e: Stages.Event<MessageEnvelope>)
    requires ServerInv(p) && Enabled(p, IndexerRuns(e))
    ensures ServerInv(Step(p, IndexerRuns(e)))
  {
    hide Inv, Routed, WriterInv, Stages.Step, Subseq, MonthOf, DayOf;
    IndexerStepInv(p.indexer, e);
    SameRouting(p, Step(p, IndexerRuns(e)));
  }

  lemma {:induction false} OwnStepOffersNothing(s: Stage<MessageEnvelope>, e: Stages.Event<MessageEnvelope>)
    requires Stages.Enabled(s, e) && OwnStep(e)
    ensures Stages.Step(s, MonthOf, e).offered == s.offered
  {
  }

  // ----- runs -----

  // A run as the states it goes through.
  ghost predicate IsRun(writerLimits: Limits, indexerLimits: Limits, states: seq<Server>) {
    && states != [] && states[0] == NewServer(writerLimits, indexerLimits)
    && forall i :: 0 < i < |states| ==> Follows(states[i - 1], states[i])
  }

  ghost predicate Follows(p: Server, p': Server) {
    exists e :: Enabled(p, e) && p' == Step(p, e)
  }

  lemma {:induction false} NewRunInv(writerLimits: Limits, indexerLimits: Limits, states: seq<Server>)
    requires |states| <= 1 && IsRun(writerLimits, indexerLimits, states)
    ensures |states| == 1 && ServerInv(states[0])
  {
    NewServerInv(writerLimits, indexerLimits);
  }

  lemma {:induction false} RunKeepsInv(writerLimits: Limits, indexerLimits: Limits, states: seq<Server>)
    requires IsRun(writerLimits, indexerLimits, states)
    ensures ServerInv(states[|states| - 1])
  {
    hide ServerInv, IsRun, Step, Enabled;
    if |states| <= 1 {
      NewRunInv(writerLimits, indexerLimits, states);
    } else {
      var n := |states| - 1;
      var e := LastStep(writerLimits, indexerLimits, states);
      RunKeepsInv(writerLimits, indexerLimits, states[..n]);
      StepKeepsInv(states[n - 1], e);
    }
  }

  // ----- only arrivals bring messages in -----

  ghost predicate Genuine(x: MessageEnvelope) {
    exists m: RawMessage :: x == FromRaw(m)
  }

  ghost predicate AllGenuine(p: Server) {
    forall d, x :: d in p.writers && x in p.writers[d].accepted ==> Genuine(x)
  }

  lemma {:induction false} StepKeepsGenuine(p: Server, e: Event)
    requires AllGenuine(p) && Enabled(p, e)
    ensures AllGenuine(Step(p, e))
  {
    match e
    case Arrival(m) => assert Genuine(FromRaw(m));
    case WriterRuns(d, e) => OwnStepOnlyTakes(p.writers[d], DayOf, e);
    case IndexerRuns(e) =>
    case StopWriters =>
    case StopIndexer =>
  }

  lemma {:induction false} RunKeepsGenuine(writerLimits: Limits, indexerLimits: Limits, states: seq<Server>)
    requires IsRun(writerLimits, indexerLimits, states)
    ensures AllGenuine(states[|states| - 1])
  {
    if |states| > 1 {
      var n := |states| - 1;
      var e := LastStep(writerLimits, indexerLimits, states);
      RunKeepsGenuine(writerLimits, indexerLimits, states[..n]);
      StepKeepsGenuine(states[n - 1], e);
    }
  }

  // ----- what a stopped receiver leaves behind -----

  ghost predicate Stopped(p: Server) {
    AllDone(p) && p.indexer.phase == Done
  }

  ghost predicate NoFileFailures(p: Server) {
    forall d :: d in p.writers ==> p.writers[d].failed == multiset{}
  }

  ghost predicate NothingDropped(s: Stage<MessageEnvelope>) {
    s.queueDropped == 0 && s.failed == multiset{}
  }

  // The messages in the text file of the device and day.
  function InFile(p: Server, device: string, day: string): seq<MessageEnvelope> {
    if device in p.writers then Select(p.writers[device].saved, DayOf, day) else []
  }

  /** The drain order: with the writers stopped first, every message a writer took off its queue
      is in its text file in order and was offered to the indexer, and each of those is an index
      row, was counted as dropped, or was lost in a failed insert. Nothing is left in the
      indexer's queue; all that was accepted is in the files exactly when nothing arrived after
      its writer had drained. */
  lemma {:induction false} StopLosesNothing(p: Server)
    requires ServerInv(p) && Stopped(p) && NoFileFailures(p)
    ensures forall d :: d in p.writers ==>
              var w := p.writers[d];
              && w.buffer == [] && w.pending == []
              && multiset(w.saved) == multiset(Received(w))
              && (multiset(w.saved) == multiset(w.accepted) <==> w.queue == [])
              && forall y :: InFile(p, d, y) == Select(Received(w), DayOf, y)
    ensures p.indexer.queue == [] && p.indexer.buffer == [] && p.indexer.pending == []
    ensures |p.forwarded| == p.indexer.written + p.indexer.queueDropped + |p.indexer.failed|
    ensures forall d :: d in p.writers ==> Select(p.forwarded, DeviceOf, d) == Received(p.writers[d])
  {
    forall d | d in p.writers
      ensures p.writers[d].pending == [] && multiset(p.writers[d].saved) == multiset(Received(p.writers[d]))
      ensures multiset(p.writers[d].saved) == multiset(p.writers[d].accepted) <==> p.writers[d].queue == []
      ensures forall y :: InFile(p, d, y) == Select(Received(p.writers[d]), DayOf, y)
      ensures Select(p.forwarded, DeviceOf, d) == Received(p.writers[d])
    {
      assert WriterInv(p.writers[d], d);
      forall y ensures InFile(p, d, y) == Select(Received(p.writers[d]), DayOf, y) {
        DoneSavesAll(p.writers[d], DayOf, y);
      }
      DoneSavesAll(p.writers[d], DayOf, "");
      DoneLeavesTheQueue(p.writers[d], DayOf);
    }
    assert Alive(p.indexer) == p.indexer.saved;
    assert |multiset(p.indexer.accepted)| == |multiset(p.indexer.saved)| + |p.indexer.failed|;
  }

  // ----- messages that arrive too late -----

  // In this step the writer of the device accepts a message although it has drained its queue.
  ghost predicate LateFor(p: Server, p': Server, d: string) {
    d in p.writers && d in p'.writers && Drained(p.writers[d]) && |p.writers[d].accepted| < |p'.writers[d].accepted|
  }

  ghost predicate NoneLateFor(states: seq<Server>, d: string) {
    forall i :: 0 < i < |states| ==> !LateFor(states[i - 1], states[i], d)
  }

  // What any step of the server does to one writer around its drain.
  ghost predicate WriterDrains(w: Writer, w': Writer) {
    && (Drained(w) ==> Drained(w') && |w'.queue| - |w.queue| == |w'.accepted| - |w.accepted| >= 0)
    && (!Drained(w) && Drained(w') ==> w'.queue == [])
  }

  lemma {:induction false} OwnStepDrains(w: Writer, e: Stages.Event<MessageEnvelope>)
    requires Inv(w, DayOf) && Stages.Enabled(w, e)
    ensures WriterDrains(w, Stages.Step(w, DayOf, e))
  {
    hide DayOf, Conserved, InOrder, Counted, LoopHead, BeginFlush;
    DrainStep(w, DayOf, e);
    if !e.Offered? {
      assert OwnStep(e) || e.StopAsked?;
      if OwnStep(e) {
        OwnStepOnlyTakes(w, DayOf, e);
      }
    }
  }

  lemma {:induction false} ServerStepDrains(p: Server, e: Event, d: string)
    requires ServerInv(p) && Enabled(p, e)
    ensures d in p.writers ==> d in Step(p, e).writers && WriterDrains(p.writers[d], Step(p, e).writers[d])
    ensures d !in p.writers && d in Step(p, e).writers ==> !Drained(Step(p, e).writers[d])
  {
    hide DayOf, MonthOf, DeviceOf, Inv, Routed, WriterDrains, FromRaw, OfferAll, Stages.Step, Drained;
    if d in p.writers {
      var w := p.writers[d];
      assert WriterInv(w, d);
      SameDrains(w);
      match e
      case Arrival(m) => OwnStepDrains(w, Offered(FromRaw(m))); OfferIsStep(w, FromRaw(m));
      case WriterRuns(c, e) => if c == d { OwnStepDrains(w, e); }
      case IndexerRuns(e) =>
      case StopWriters => OwnStepDrains(w, StopAsked); StopIsStep(w);
      case StopIndexer =>
    } else {
      match e
      case Arrival(m) => NewIsNotDrained(p.limits, FromRaw(m));
      case WriterRuns(_, e) =>
      case IndexerRuns(e) =>
      case StopWriters =>
      case StopIndexer =>
    }
  }

  lemma {:induction false} SameDrains(w: Writer)
    ensures WriterDrains(w, w)
  {
  }

  lemma {:induction false} OfferIsStep(w: Writer, x: MessageEnvelope)
    ensures Stages.Step(w, DayOf, Offered(x)) == Offer(w, x)
  {
  }

  lemma {:induction false} StopIsStep(w: Writer)
    ensures Stages.Step(w, DayOf, StopAsked) == w.(stopping := true)
  {
  }

  lemma {:induction false} NewIsNotDrained(limits: Limits, x: MessageEnvelope)
    ensures !Drained(Offer(NewStage(limits), x))
  {
  }

  // A drained writer's queue is empty exactly if it accepted nothing since.
  ghost predicate QueueTellsLate(states: seq<Server>, p: Server, d: string) {
    if d in p.writers && Drained(p.writers[d]) then p.writers[d].queue == [] <==> NoneLateFor(states, d) else NoneLateFor(states, d)
  }

  lemma {:induction false} NoneLateForSnoc(states: seq<Server>, d: string)
    requires |states| > 1
    ensures var n := |states| - 1;
            NoneLateFor(states, d) <==> NoneLateFor(states[..n], d) && !LateFor(states[n - 1], states[n], d)
  {
    hide LateFor;
    var n := |states| - 1;
    forall i | 0 < i < n ensures LateFor(states[..n][i - 1], states[..n][i], d) == LateFor(states[i - 1], states[i], d) {
    }
  }

  lemma {:induction false} QueueTellsLateStep(before: seq<Server>, states: seq<Server>, p: Server, p': Server, d: string)
    requires QueueTellsLate(before, p, d)
    requires NoneLateFor(states, d) <==> NoneLateFor(before, d) && !LateFor(p, p', d)
    requires d in p.writers ==> d in p'.writers && WriterDrains(p.writers[d], p'.writers[d])
    requires d !in p.writers && d in p'.writers ==> !Drained(p'.writers[d])
    ensures QueueTellsLate(states, p', d)
  {
    hide NoneLateFor, Drained;
  }

  lemma {:induction false} StepTellsLate(p: Server, e: Event, before: seq<Server>, states: seq<Server>, d: string)
    requires ServerInv(p) && Enabled(p, e) && QueueTellsLate(before, p, d)
    requires NoneLateFor(states, d) <==> NoneLateFor(before, d) && !LateFor(p, Step(p, e), d)
    ensures QueueTellsLate(states, Step(p, e), d)
  {
    hide ServerInv, QueueTellsLate, NoneLateFor, LateFor, WriterDrains, Drained, Step;
    ServerStepDrains(p, e, d);
    QueueTellsLateStep(before, states, p, Step(p, e), d);
  }

  lemma {:induction false} RunTellsLate(writerLimits: Limits, indexerLimits: Limits, states: seq<Server>, d: string)
    requires IsRun(writerLimits, indexerLimits, states)
    ensures QueueTellsLate(states, states[|states| - 1], d)
  {
    if |states| > 1 {
      hide ServerInv, QueueTellsLate, NoneLateFor, LateFor, WriterDrains, Drained, Step, Enabled, IsRun;
      var n := |states| - 1;
      var e := LastStep(writerLimits, indexerLimits, states);
      RunTellsLate(writerLimits, indexerLimits, states[..n], d);
      RunKeepsInv(writerLimits, indexerLimits, states[..n]);
      NoneLateForSnoc(states, d);
      StepTellsLate(states[n - 1], e, states[..n], states, d);
    } else {
      NewServerDrained(writerLimits, indexerLimits, states, d);
    }
  }

  lemma {:induction false} NewServerDrained(writerLimits: Limits, indexerLimits: Limits, states: seq<Server>, d: string)
    requires |states| <= 1 && IsRun(writerLimits, indexerLimits, states)
    ensures |states| == 1 && QueueTellsLate(states, states[0], d)
  {
  }

  lemma {:induction false} LastStep(writerLimits: Limits, indexerLimits: Limits, states: seq<Server>) returns (e: Event)
    requires |states| > 1 && IsRun(writerLimits, indexerLimits, states)
    ensures var n := |states| - 1;
            && IsRun(writerLimits, indexerLimits, states[..n])
            && Enabled(states[n - 1], e) && states[n] == Step(states[n - 1], e)
  {
    hide Step;
    var n := |states| - 1;
    assert Follows(states[n - 1], states[n]);
    e :| Enabled(states[n - 1], e) && states[n] == Step(states[n - 1], e);
  }

  /** The drain, over runs: after a stop without failed file writes, all that a writer ever accepted
      is in its files if and only if at no step of the run it accepted a message after it had
      drained its queue. */
  lemma {:induction false} StopSavesAcceptedExactly(writerLimits: Limits, indexerLimits: Limits, states: seq<Server>, d: string)
    requires IsRun(writerLimits, indexerLimits, states)
    requires var p := states[|states| - 1]; Stopped(p) && NoFileFailures(p) && d in p.writers
    ensures var w := states[|states| - 1].writers[d];
            multiset(w.saved) == multiset(w.accepted) <==> NoneLateFor(states, d)
  {
    hide NoneLateFor, Inv, DayOf, MonthOf, DeviceOf, Routed;
    var p := states[|states| - 1];
    RunKeepsInv(writerLimits, indexerLimits, states);
    RunTellsLate(writerLimits, indexerLimits, states, d);
    assert WriterInv(p.writers[d], d);
    DoneLeavesTheQueue(p.writers[d], DayOf);
  }

  // The day decides the month.
  lemma {:induction false} PlaceFixesMonth(device: string, day: string)
    ensures forall x :: PlaceOf(x) == (device, day) ==> MonthOf(x) == Lex.Prefix(day, 7)
  {
    forall x | PlaceOf(x) == (device, day) ensures MonthOf(x) == Lex.Prefix(day, 7) {
      TimeUtil.RenderedPrefixes(x.receiptTime);
    }
  }

  lemma {:induction false} IndexedArePlaced(s: Stage<MessageEnvelope>, device: string, day: string)
    requires Inv(s, MonthOf)
    ensures Subseq(Select(s.saved, PlaceOf, (device, day)), Select(s.accepted, PlaceOf, (device, day)))
  {
    hide Inv, DayOf, MonthOf, PlaceOf, DeviceOf, Lex.Prefix;
    var place, month := (device, day), Lex.Prefix(day, 7);
    PlaceFixesMonth(device, day);
    SavedInOrder(s, MonthOf, month);
    SelectRefine(s.saved, MonthOf, month, PlaceOf, place);
    SelectRefine(s.accepted, MonthOf, month, PlaceOf, place);
    SubseqSelect(Select(s.saved, MonthOf, month), Select(s.accepted, MonthOf, month), PlaceOf, place);
  }

  lemma {:induction false} PlaceFixesDevice(device: string, day: string)
    ensures forall x :: PlaceOf(x) == (device, day) ==> DeviceOf(x) == device
  {
    hide DayOf;
  }

  lemma {:induction false} ForwardedInPlace(p: Server, device: string, day: string)
    requires ServerInv(p) && AllDone(p) && NoFileFailures(p)
    ensures Select(p.forwarded, PlaceOf, (device, day)) == InFile(p, device, day)
  {
    hide DayOf, MonthOf, PlaceOf, Conserved, InOrder, Counted;
    PlaceFixesDevice(device, day);
    var place := (device, day);
    SelectRefine(p.forwarded, DeviceOf, device, PlaceOf, place);
    if device in p.writers {
      var w := p.writers[device];
      assert WriterInv(w, device);
      DoneSavesAll(w, DayOf, day);
      SamePlace(Received(w), device, day);
    }
  }

  // Within one device, the day alone tells the place.
  lemma {:induction false} SamePlace(xs: seq<MessageEnvelope>, device: string, day: string)
    requires forall x :: x in xs ==> DeviceOf(x) == device
    ensures Select(xs, PlaceOf, (device, day)) == Select(xs, DayOf, day)
  {
    if xs != [] {
      assert xs[0] in xs;
      SamePlace(xs[1..], device, day);
    }
  }

  lemma {:induction false} CompleteAtPlace(s: Stage<MessageEnvelope>, device: string, day: string)
    requires Inv(s, MonthOf) && s.phase == Done && s.queue == [] && s.failed == multiset{}
    ensures Select(s.saved, PlaceOf, (device, day)) == Select(s.accepted, PlaceOf, (device, day))
  {
    hide Inv, DayOf, MonthOf, PlaceOf, DeviceOf, Lex.Prefix;
    var place, month := (device, day), Lex.Prefix(day, 7);
    PlaceFixesMonth(device, day);
    DoneSavesAll(s, MonthOf, month);
    assert Received(s) == s.accepted;
    SelectRefine(s.saved, MonthOf, month, PlaceOf, place);
    SelectRefine(s.accepted, MonthOf, month, PlaceOf, place);
  }

  lemma {:induction false} AllAccepted(p: Server)
    requires ServerInv(p) && p.indexer.queueDropped == 0
    ensures p.indexer.accepted == p.forwarded
  {
    hide Conserved, InOrder, Shaped;
    SubseqLength(p.indexer.accepted, p.forwarded);
  }

  /** Index against text files, once stopped: for every device and day the indexed messages are
      a selection, in order, of those in the file, and all of them if nothing was dropped. */
  lemma {:induction false} IndexMatchesFiles(p: Server, device: string, day: string)
    requires ServerInv(p) && Stopped(p) && NoFileFailures(p)
    ensures Subseq(Select(p.indexer.saved, PlaceOf, (device, day)), InFile(p, device, day))
    ensures NothingDropped(p.indexer) ==> Select(p.indexer.saved, PlaceOf, (device, day)) == InFile(p, device, day)
  {
    hide Inv, DayOf, MonthOf, PlaceOf, DeviceOf, InFile;
    var place := (device, day);
    IndexedArePlaced(p.indexer, device, day);
    SubseqSelect(p.indexer.accepted, p.forwarded, PlaceOf, place);
    ForwardedInPlace(p, device, day);
    SubseqTrans(Select(p.indexer.saved, PlaceOf, place), Select(p.indexer.accepted, PlaceOf, place), InFile(p, device, day));
    if NothingDropped(p.indexer) {
      AllAccepted(p);
      CompleteAtPlace(p.indexer, device, day);
    }
  }
}
