/** sylo/receiver/server.py and DeviceRegistry: the writers and the indexer as objects. Whatever
    runs next, the objects go through a run of `Pipeline`. */
module Servers {
  import opened Wrappers
  import opened Stages
  import opened Envelope
  import opened IndexerCore
  import opened DeviceWriters
  import Pipeline
  import Seqs

  /** What a writer may be resumed for. */
  datatype WriterTurn = Receive | Timeout | WriteEnds(w: Write)

  predicate Ready(w: DeviceWriter, turn: WriterTurn)
    reads w
  {
    match turn
    case Receive => w.phase == Waiting && w.queue != []
    case Timeout => w.phase == Waiting
    case WriteEnds(_) => w.pending != []
  }

  function EventOf(w: DeviceWriter, turn: WriterTurn): Stages.Event<MessageEnvelope>
    requires Ready(w, turn)
    reads w
  {
    match turn
    case Receive => Taken
    case Timeout => TimedOut
    case WriteEnds(r) => BatchEnded(WriteOutcome(r, w.pending[0].items))
  }

  datatype IndexerTurn = Dequeue | IndexerTimeout | InsertEnds(a: Answer)

  predicate IndexerReady(ix: Indexer, turn: IndexerTurn)
    reads ix
  {
    match turn
    case Dequeue => ix.phase == Waiting && ix.queue != []
    case IndexerTimeout => ix.phase == Waiting
    case InsertEnds(a) => ix.pending != [] && (a.Ran? ==> |a.fails| == |ix.pending[0].items|)
  }

  function IndexerEvent(ix: Indexer, turn: IndexerTurn): Stages.Event<MessageEnvelope>
    requires IndexerReady(ix, turn)
    reads ix
  {
    match turn
    case Dequeue => Taken
    case IndexerTimeout => TimedOut
    case InsertEnds(a) => BatchEnded(IndexerCore.OutcomeOf(ix.pending[0].items, a))
  }

  /** What the event loop may do next. */
  datatype Turn =
    | Arrival(m: RawMessage)
    | WriterResumed(device: string, w: WriterTurn)
    | IndexerResumed(i: IndexerTurn)
    | StopAsked
    | WritersReturned

  // Whether a stage is suspended where the turn would resume it.
  predicate StageReady(s: Stage<MessageEnvelope>, turn: WriterTurn) {
    match turn
    case Receive => s.phase == Waiting && s.queue != []
    case Timeout => s.phase == Waiting
    case WriteEnds(_) => s.pending != []
  }

  predicate IndexerStageReady(s: Stage<MessageEnvelope>, turn: IndexerTurn) {
    match turn
    case Dequeue => s.phase == Waiting && s.queue != []
    case IndexerTimeout => s.phase == Waiting
    case InsertEnds(a) => s.pending != [] && (a.Ran? ==> |a.fails| == |s.pending[0].items|)
  }

  /** What a turn does to the pipeline; nothing if it cannot happen. */
  ghost function After(p: Pipeline.Server, t: Turn): Pipeline.Server {
    match t
    case Arrival(m) => if m.sourceIp in p.writers || !p.closing then Pipeline.Step(p, Pipeline.Arrival(m)) else p
    case WriterResumed(d, turn) =>
      if d in p.writers && StageReady(p.writers[d], turn) then
        Pipeline.Step(p, Pipeline.WriterRuns(d, match turn
                                               case Receive => Taken
                                               case Timeout => TimedOut
                                               case WriteEnds(r) => BatchEnded(WriteOutcome(r, p.writers[d].pending[0].items))))
      else p
    case IndexerResumed(turn) =>
      if IndexerStageReady(p.indexer, turn) then
        Pipeline.Step(p, Pipeline.IndexerRuns(match turn
                                             case Dequeue => Taken
                                             case IndexerTimeout => TimedOut
                                             case InsertEnds(a) => BatchEnded(IndexerCore.OutcomeOf(p.indexer.pending[0].items, a))))
      else p
    case StopAsked => Pipeline.Step(p, Pipeline.StopWriters)
    case WritersReturned => if p.closing && Pipeline.AllDone(p) then Pipeline.Step(p, Pipeline.StopIndexer) else p
  }

  ghost function Played(p: Pipeline.Server, schedule: seq<Turn>): Pipeline.Server {
    if schedule == [] then p else After(Played(p, schedule[..|schedule| - 1]), schedule[|schedule| - 1])
  }

  class SyslogServer {
    const limits: Limits
    const indexer: Indexer
    var writers: map<string, DeviceWriter>        // the registry
    var closing: bool
    // history
    ghost var forwarded: seq<MessageEnvelope>
    ghost var trace: seq<Pipeline.Server>

    ghost function Model(): Pipeline.Server
      reads this`writers, this`closing, this`forwarded, indexer, writers.Values
    {
      Pipeline.Server(limits, map d | d in writers :: writers[d].State(), indexer.State(), closing, forwarded)
    }

    ghost predicate Registered(d: string, w: DeviceWriter)
      reads w
    {
      w.Valid() && w.deviceKey == d && w.indexer == indexer && w.limits == limits && w.before == map[]
    }

    // The objects are as they should be, and no two devices share a writer.
    ghost predicate Wired()
      reads this`writers, indexer, writers.Values
    {
      && (forall d :: d in writers ==> Registered(d, writers[d]))
      && (forall d1, d2 :: d1 in writers && d2 in writers && d1 != d2 ==> writers[d1] != writers[d2])
      && indexer.Valid() && indexer.before == map[]
    }

    ghost predicate Traced()
      reads this, indexer, writers.Values
    {
      Pipeline.IsRun(limits, indexer.limits, trace) && trace[|trace| - 1] == Model()
    }

    ghost predicate Valid()
      reads this, indexer, writers.Values
    {
      Wired() && Traced()
    }

    constructor (limits: Limits, indexerLimits: Limits)
      ensures Valid() && fresh(indexer) && this.limits == limits && indexer.limits == indexerLimits && writers == map[]
    {
      this.limits, writers, closing, forwarded := limits, map[], false, [];
      indexer := new Indexer(indexerLimits, map[]);
      trace := [Pipeline.NewServer(limits, indexerLimits)];
      new;
      assert Model() == Pipeline.NewServer(limits, indexerLimits);
    }

    // The step just made is one of the pipeline's.
    ghost method Step(before: Pipeline.Server, e: Pipeline.Event)
      requires Wired() && Pipeline.IsRun(limits, indexer.limits, trace) && trace[|trace| - 1] == before
      requires Pipeline.Enabled(before, e) && Model() == Pipeline.Step(before, e)
      modifies this`trace
      ensures Valid() && trace == old(trace) + [Model()]
    {
      hide Pipeline.Enabled, Pipeline.Step, Registered, IndexerCore.Indexer.Valid, Pipeline.IsRun, Pipeline.Follows;
      FollowsBy(before, e);
      Extends(limits, indexer.limits, trace, Model());
      trace := trace + [Model()];
    }

    /** `get_or_create` */
    method GetOrCreate(device: string) returns (w: DeviceWriter)
      requires Wired()
      modifies this`writers
      ensures Wired() && device in writers && writers[device] == w
      ensures old(device in writers) ==> writers == old(writers)
      ensures !old(device in writers) ==> fresh(w) && writers == old(writers)[device := w] && w.State() == NewStage(limits)
      ensures fresh(writers.Values - old(writers.Values))
    {
      hide IndexerCore.Indexer.Valid, DeviceWriters.DeviceWriter.Valid;
      if device in writers {
        return writers[device];
      }
      w := new DeviceWriter(device, limits, indexer, map[]);
      writers := writers[device := w];
    }

    // One writer, new or not, is in a new state.
    lemma {:induction false} ModelWith(p: Pipeline.Server, d: string)
      requires d in writers && writers.Keys == p.writers.Keys + {d}
      requires forall c :: c in writers && c != d ==> writers[c].State() == p.writers[c]
      ensures Model() == Pipeline.Server(limits, p.writers[d := writers[d].State()], indexer.State(), closing, forwarded)
    {
      hide DeviceWriters.DeviceWriter.State, IndexerCore.Indexer.State;
      assert Model().writers == p.writers[d := writers[d].State()];
    }

    // The arrival on the objects alone.
    method EnqueueStep(m: RawMessage)
      requires Wired()
      modifies this`writers, writers.Values
      ensures Wired() && writers.Keys == old(writers.Keys) + {m.sourceIp}
      ensures writers[m.sourceIp].State() ==
              Offer(if m.sourceIp in old(writers) then old(writers[m.sourceIp].State()) else NewStage(limits), FromRaw(m))
      ensures forall c :: c in writers && c != m.sourceIp ==>
                c in old(writers) && writers[c] == old(writers[c]) && writers[c].State() == old(writers[c].State())
      ensures fresh(writers.Values - old(writers.Values))
    {
      hide IndexerCore.Indexer.Valid, DeviceWriters.DeviceWriter.Valid, DeviceWriters.DeviceWriter.State, FromRaw, Offer, NewStage;
      var w := GetOrCreate(m.sourceIp);
      w.Enqueue(m);
    }

    /** `datagram_received`, or one line of a TCP connection. */
    method Arrive(m: RawMessage)
      requires Valid() && (m.sourceIp in writers || !closing)
      modifies this, writers.Values
      ensures Valid() && trace == old(trace) + [Model()] && fresh(writers.Values - old(writers.Values))
      ensures Model() == Pipeline.Step(old(Model()), Pipeline.Arrival(m))
    {
      hide Wired, DeviceWriters.DeviceWriter.State, IndexerCore.Indexer.State, Pipeline.IsRun, FromRaw, Offer, NewStage, Pipeline.Step, Pipeline.Enabled;
      ghost var p := Model();
      EnqueueStep(m);
      ModelWith(p, m.sourceIp);
      ArrivalStep(p, m, Model());
      Step(p, Pipeline.Arrival(m));
    }

    // A writer's own stretch of code on the objects alone.
    method WriterStretch(d: string, turn: WriterTurn)
      requires Wired() && d in writers && Ready(writers[d], turn)
      modifies indexer, writers[d]
      ensures Wired() && writers[d].State() == Stages.Step(old(writers[d].State()), DayOf, old(EventOf(writers[d], turn)))
      ensures indexer.State() == OfferAll(old(indexer.State()), HandedOver(old(writers[d].State()), writers[d].State()))
      ensures forall c :: c in writers && c != d ==> writers[c].State() == old(writers[c].State())
    {
      hide IndexerCore.Indexer.Valid, DeviceWriters.DeviceWriter.State, IndexerCore.Indexer.State, OfferAll, HandedOver, Stages.Take, Stages.Idle, AfterBatch, EndBatch, Inv;
      match turn {
        case Receive => writers[d].Receive();
        case Timeout => writers[d].TimedOut();
        case WriteEnds(w) => writers[d].WriteDay(w);
      }
    }

    /** A writer coroutine is resumed. */
    method RunWriter(d: string, turn: WriterTurn)
      requires Valid() && d in writers && Ready(writers[d], turn)
      modifies this, indexer, writers[d]
      ensures Valid() && trace == old(trace) + [Model()] && writers == old(writers)
      ensures var p, e := old(Model()), old(EventOf(writers[d], turn));
              Pipeline.Enabled(p, Pipeline.WriterRuns(d, e)) && Model() == Pipeline.Step(p, Pipeline.WriterRuns(d, e))
    {
      hide Wired, DeviceWriters.DeviceWriter.State, IndexerCore.Indexer.State, Pipeline.IsRun, OfferAll, HandedOver, Stages.Step, Pipeline.Step, Pipeline.Enabled;
      ghost var p, e := Model(), EventOf(writers[d], turn);
      ReadyIsEnabled(writers[d], turn);
      WriterStretch(d, turn);
      forwarded := forwarded + HandedOver(p.writers[d], writers[d].State());
      ModelWith(p, d);
      WriterStep(p, d, e, Model());
      Step(p, Pipeline.WriterRuns(d, e));
    }

    // The indexer's own stretch of code on the object alone.
    method IndexerStretch(turn: IndexerTurn)
      requires Wired() && IndexerReady(indexer, turn)
      modifies indexer
      ensures Wired() && indexer.State() == Stages.Step(old(indexer.State()), MonthOf, old(IndexerEvent(indexer, turn)))
      ensures forall c :: c in writers ==> writers[c].State() == old(writers[c].State())
    {
      hide DeviceWriters.DeviceWriter.Valid, DeviceWriters.DeviceWriter.State, IndexerCore.Indexer.State, Stages.Take, Stages.Idle, AfterBatch, EndBatch, Inv;
      match turn {
        case Dequeue => indexer.Dequeue();
        case IndexerTimeout => indexer.TimedOut();
        case InsertEnds(a) => indexer.WriteMonth(a);
      }
    }

    /** The indexer coroutine is resumed. */
    method RunIndexer(turn: IndexerTurn)
      requires Valid() && IndexerReady(indexer, turn)
      modifies this, indexer
      ensures Valid() && trace == old(trace) + [Model()] && writers == old(writers)
      ensures var p, e := old(Model()), old(IndexerEvent(indexer, turn));
              Pipeline.Enabled(p, Pipeline.IndexerRuns(e)) && Model() == Pipeline.Step(p, Pipeline.IndexerRuns(e))
    {
      hide Wired, DeviceWriters.DeviceWriter.State, IndexerCore.Indexer.State, Pipeline.IsRun, Stages.Step, Pipeline.Step, Pipeline.Enabled;
      ghost var p, e := Model(), IndexerEvent(indexer, turn);
      IndexerReadyIsEnabled(indexer, turn);
      IndexerStretch(turn);
      SameWriters(p);
      IndexerStep(p, e, Model());
      Step(p, Pipeline.IndexerRuns(e));
    }

    lemma {:induction false} SameWriters(p: Pipeline.Server)
      requires writers.Keys == p.writers.Keys && forall c :: c in writers ==> writers[c].State() == p.writers[c]
      ensures Model() == Pipeline.Server(limits, p.writers, indexer.State(), closing, forwarded)
    {
      hide DeviceWriters.DeviceWriter.State, IndexerCore.Indexer.State;
      assert Model().writers == p.writers;
    }

    method StopOne(d: string)
      requires Wired() && d in writers
      modifies writers[d]
      ensures Wired() && writers[d].State() == old(writers[d].State()).(stopping := true)
      ensures forall c :: c in writers && c != d ==> writers[c].State() == old(writers[c].State())
    {
      hide IndexerCore.Indexer.Valid, DeviceWriters.DeviceWriter.Valid, DeviceWriters.DeviceWriter.State;
      writers[d].Stop();
    }

    // `stop_all`: every writer is asked to stop.
    method StopStretch()
      requires Wired()
      modifies writers.Values
      ensures Wired() && forall c :: c in writers ==> writers[c].State() == old(writers[c].State()).(stopping := true)
    {
      hide Wired, DeviceWriters.DeviceWriter.State;
      var todo := writers.Keys;
      while todo != {}
        invariant todo <= writers.Keys && Wired()
        invariant forall c :: c in writers ==>
                    writers[c].State() == if c in todo then old(writers[c].State()) else old(writers[c].State()).(stopping := true)
        decreases |todo|
      {
        var d :| d in todo;
        StopOne(d);
        todo := todo - {d};
      }
    }

    /** The first half of `stop`: no more writers, and those there are are asked to stop. */
    method StopWriters()
      requires Valid()
      modifies this, writers.Values
      ensures Valid() && trace == old(trace) + [Model()] && closing && writers == old(writers)
      ensures Model() == Pipeline.Step(old(Model()), Pipeline.StopWriters)
    {
      hide Wired, DeviceWriters.DeviceWriter.State, IndexerCore.Indexer.State, Pipeline.IsRun, Pipeline.Enabled, Pipeline.Step;
      ghost var p := Model();
      StopStretch();
      closing := true;
      AllStopping(p);
      StopWritersStep(p, Model());
      Step(p, Pipeline.StopWriters);
    }

    lemma {:induction false} AllStopping(p: Pipeline.Server)
      requires writers.Keys == p.writers.Keys && forall c :: c in writers ==> writers[c].State() == p.writers[c].(stopping := true)
      ensures Model() == Pipeline.Server(limits, map d | d in p.writers :: p.writers[d].(stopping := true), indexer.State(), closing, forwarded)
    {
      hide DeviceWriters.DeviceWriter.State, IndexerCore.Indexer.State;
      assert Model().writers == map d | d in p.writers :: p.writers[d].(stopping := true);
    }

    /** The second half, once all writers have returned. */
    method StopIndexer()
      requires Valid() && closing && forall d :: d in writers ==> writers[d].phase == Done
      modifies this, indexer
      ensures Valid() && trace == old(trace) + [Model()] && writers == old(writers)
      ensures Model() == Pipeline.Step(old(Model()), Pipeline.StopIndexer)
    {
      hide Wired, DeviceWriters.DeviceWriter.State, IndexerCore.Indexer.State, Pipeline.IsRun, Pipeline.Step, Pipeline.Enabled;
      ghost var p := Model();
      DoneWriters();
      StopIndexerStretch();
      SameWriters(p);
      IndexerStopStep(p, Model());
      Step(p, Pipeline.StopIndexer);
    }

    lemma {:induction false} DoneWriters()
      requires forall d :: d in writers ==> writers[d].phase == Done
      ensures Pipeline.AllDone(Model())
    {
    }

    method StopIndexerStretch()
      requires Wired()
      modifies indexer
      ensures Wired() && indexer.State() == old(indexer.State()).(stopping := true)
      ensures forall c :: c in writers ==> writers[c].State() == old(writers[c].State())
    {
      hide DeviceWriters.DeviceWriter.Valid, DeviceWriters.DeviceWriter.State, IndexerCore.Indexer.State;
      indexer.Stop();
    }

    // One turn, if it can happen.
    method ServeOne(t: Turn)
      requires Valid()
      modifies this, indexer, writers.Values
      ensures Valid() && old(trace) <= trace && fresh(writers.Values - old(writers.Values))
      ensures Model() == After(old(Model()), t)
    {
      hide Wired, Traced, After, Pipeline.Step, Model;
      Turned(t);
      match t {
        case Arrival(m) =>
          if m.sourceIp in writers || !closing { Arrive(m); }
        case WriterResumed(d, turn) =>
          if d in writers && Ready(writers[d], turn) { RunWriter(d, turn); }
        case IndexerResumed(turn) =>
          if IndexerReady(indexer, turn) { RunIndexer(turn); }
        case StopAsked =>
          StopWriters();
        case WritersReturned =>
          var done := AllReturned();
          if closing && done { StopIndexer(); }
      }
    }

    /** Any schedule at all: the objects do turn by turn what the pipeline does. What cannot happen at
        its time is passed over. */
    method Serve(schedule: seq<Turn>)
      requires Valid()
      modifies this, indexer, writers.Values
      ensures Valid() && old(trace) <= trace && fresh(writers.Values - old(writers.Values))
      ensures Model() == Played(old(Model()), schedule)
    {
      hide Valid, After, Model;
      for i := 0 to |schedule|
        invariant Valid() && old(trace) <= trace && fresh(writers.Values - old(writers.Values))
        invariant Model() == Played(old(Model()), schedule[..i])
      {
        assert schedule[..i + 1][..i] == schedule[..i];
        ServeOne(schedule[i]);
      }
      assert schedule[..|schedule|] == schedule;
    }

    // The objects tell what the model would do.
    lemma {:induction false} Turned(t: Turn)
      ensures After(Model(), t) ==
              match t
              case Arrival(m) => if m.sourceIp in writers || !closing then Pipeline.Step(Model(), Pipeline.Arrival(m)) else Model()
              case WriterResumed(d, turn) =>
                if d in writers && Ready(writers[d], turn) then
                  Pipeline.Step(Model(), Pipeline.WriterRuns(d, EventOf(writers[d], turn)))
                else Model()
              case IndexerResumed(turn) =>
                if IndexerReady(indexer, turn) then
                  Pipeline.Step(Model(), Pipeline.IndexerRuns(IndexerEvent(indexer, turn)))
                else Model()
              case StopAsked => Pipeline.Step(Model(), Pipeline.StopWriters)
              case WritersReturned =>
                if closing && forall d :: d in writers ==> writers[d].phase == Done then
                  Pipeline.Step(Model(), Pipeline.StopIndexer)
                else Model()
    {
      hide Pipeline.Step;
      if t.WritersReturned? && closing {
        if forall d :: d in writers ==> writers[d].phase == Done {
          DoneWriters();
        } else {
          var d :| d in writers && writers[d].phase != Done;
          assert Model().writers[d].phase != Done;
        }
      }
    }

    // Whether `stop_all` has returned.
    method AllReturned() returns (done: bool)
      ensures done <==> forall d :: d in writers ==> writers[d].phase == Done
    {
      var todo := writers.Keys;
      done := true;
      while todo != {}
        invariant todo <= writers.Keys
        invariant done <==> forall d :: d in writers && d !in todo ==> writers[d].phase == Done
        decreases |todo|
      {
        var d :| d in todo;
        done := done && writers[d].phase == Done;
        todo := todo - {d};
      }
    }
  }

  lemma {:induction false} ArrivalStep(p: Pipeline.Server, m: RawMessage, p': Pipeline.Server)
    requires m.sourceIp in p.writers || !p.closing
    requires p' == p.(writers := p.writers[m.sourceIp := Offer(Pipeline.GetOrCreate(p, m.sourceIp), FromRaw(m))])
    ensures Pipeline.Enabled(p, Pipeline.Arrival(m)) && p' == Pipeline.Step(p, Pipeline.Arrival(m))
  {
    hide Offer;
  }

  lemma {:induction false} WriterStep(p: Pipeline.Server, d: string, e: Stages.Event<MessageEnvelope>, p': Pipeline.Server)
    requires d in p.writers && OwnStep(e) && Stages.Enabled(p.writers[d], e)
    requires var w' := Stages.Step(p.writers[d], DayOf, e);
             var xs := HandedOver(p.writers[d], w');
             p' == p.(writers := p.writers[d := w'], indexer := OfferAll(p.indexer, xs), forwarded := p.forwarded + xs)
    ensures Pipeline.Enabled(p, Pipeline.WriterRuns(d, e)) && p' == Pipeline.Step(p, Pipeline.WriterRuns(d, e))
  {
    hide OfferAll, HandedOver, Stages.Step;
  }

  lemma {:induction false} ReadyIsEnabled(w: DeviceWriter, turn: WriterTurn)
    requires Ready(w, turn)
    ensures OwnStep(EventOf(w, turn)) && Stages.Enabled(w.State(), EventOf(w, turn))
  {
    match turn
    case Receive =>
    case Timeout =>
    case WriteEnds(r) =>
      Seqs.SubseqRefl(w.pending[0].items);
      Seqs.SubseqNil(w.pending[0].items);
  }

  lemma {:induction false} IndexerReadyIsEnabled(ix: Indexer, turn: IndexerTurn)
    requires IndexerReady(ix, turn)
    ensures OwnStep(IndexerEvent(ix, turn)) && Stages.Enabled(ix.State(), IndexerEvent(ix, turn))
  {
    match turn
    case Dequeue =>
    case IndexerTimeout =>
    case InsertEnds(a) =>
      Seqs.SubseqNil(ix.pending[0].items);
      if a.Ran? {
        InsertedIsSubseq(ix.pending[0].items, a.fails);
      }
  }

  lemma {:induction false} IndexerStep(p: Pipeline.Server, e: Stages.Event<MessageEnvelope>, p': Pipeline.Server)
    requires OwnStep(e) && Stages.Enabled(p.indexer, e)
    requires p' == p.(indexer := Stages.Step(p.indexer, MonthOf, e))
    ensures Pipeline.Enabled(p, Pipeline.IndexerRuns(e)) && p' == Pipeline.Step(p, Pipeline.IndexerRuns(e))
  {
    hide Stages.Step;
  }

  lemma {:induction false} StopWritersStep(p: Pipeline.Server, p': Pipeline.Server)
    requires p' == p.(closing := true, writers := map d | d in p.writers :: p.writers[d].(stopping := true))
    ensures Pipeline.Enabled(p, Pipeline.StopWriters) && p' == Pipeline.Step(p, Pipeline.StopWriters)
  {
  }

  lemma {:induction false} IndexerStopStep(p: Pipeline.Server, p': Pipeline.Server)
    requires p.closing && Pipeline.AllDone(p) && p' == p.(indexer := p.indexer.(stopping := true))
    ensures Pipeline.Enabled(p, Pipeline.StopIndexer) && p' == Pipeline.Step(p, Pipeline.StopIndexer)
  {
  }

  lemma {:induction false} FollowsBy(p: Pipeline.Server, e: Pipeline.Event)
    requires Pipeline.Enabled(p, e)
    ensures Pipeline.Follows(p, Pipeline.Step(p, e))
  {
    hide Pipeline.Enabled, Pipeline.Step;
  }

  lemma {:induction false} Extends(a: Limits, b: Limits, states: seq<Pipeline.Server>, p: Pipeline.Server)
    requires Pipeline.IsRun(a, b, states) && Pipeline.Follows(states[|states| - 1], p)
    ensures states != [] && Pipeline.IsRun(a, b, states + [p])
  {
    hide Pipeline.Follows;
    var more := states + [p];
    forall i | 0 < i < |more| ensures Pipeline.Follows(more[i - 1], more[i]) {
      if i < |states| {
        assert more[i - 1] == states[i - 1] && more[i] == states[i];
      }
    }
  }
}
