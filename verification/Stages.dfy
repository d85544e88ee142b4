/** The bounded queue with a batching consumer that DeviceWriter and Indexer share, as a state
    machine: one transition for every stretch of code between two `await`s. */
module Stages {
  import opened Seqs

  datatype Limits = Limits(soft: int, hard: int, flushMax: int)

  // Where the consumer coroutine is suspended: in `queue.get`, in the flush of a main-loop
  // iteration, in the flush after draining, or finished.
  datatype Phase = Waiting | Flushing | FinalFlush | Done

  /** saved, failed, accepted and offered are the history the laws are about. A batch that was
      taken off the buffer is in `pending` until its write ends. */
  datatype Stage<T> = Stage(limits: Limits, phase: Phase, stopping: bool,
                            queue: seq<T>, buffer: seq<T>, pending: seq<Batch<string, T>>,
                            lagWarnings: nat, queueDropped: nat, batchDropped: nat, written: nat,
                            saved: seq<T>, failed: multiset<T>, accepted: seq<T>, offered: nat)

  function NewStage<T>(limits: Limits): Stage<T> {
    Stage(limits, Waiting, false, [], [], [], 0, 0, 0, 0, [], multiset{}, [], 0)
  }

  // `asyncio.Queue(maxsize)`: a maximum of zero or less means no bound.
  predicate Full<T>(s: Stage<T>) {
    0 < s.limits.hard <= |s.queue|
  }

  /** `enqueue`: never waits; drops when full. */
  function Offer<T>(s: Stage<T>, x: T): Stage<T> {
    var lag := if |s.queue| >= s.limits.soft then s.lagWarnings + 1 else s.lagWarnings;
    if Full(s) then s.(offered := s.offered + 1, lagWarnings := lag, queueDropped := s.queueDropped + 1)
    else s.(offered := s.offered + 1, lagWarnings := lag, queue := s.queue + [x], accepted := s.accepted + [x])
  }

  function OfferAll<T>(s: Stage<T>, xs: seq<T>): Stage<T> {
    if xs == [] then s else Offer(OfferAll(s, xs[..|xs| - 1]), xs[|xs| - 1])
  }

  lemma {:induction false} OfferAllSnoc<T>(s: Stage<T>, xs: seq<T>, x: T)
    ensures OfferAll(s, xs + [x]) == Offer(OfferAll(s, xs), x)
  {
    assert (xs + [x])[..|xs|] == xs;
  }

  lemma {:induction false} OfferAllConcat<T>(s: Stage<T>, xs: seq<T>, ys: seq<T>)
    ensures OfferAll(s, xs + ys) == OfferAll(OfferAll(s, xs), ys)
  {
    if ys == [] {
      assert xs + ys == xs;
    } else {
      var before, y := ys[..|ys| - 1], ys[|ys| - 1];
      OfferAllConcat(s, xs, before);
      OfferAllSnoc(s, xs + before, y);
      assert xs + ys == (xs + before) + [y];
    }
  }

  // One message, or all of them, from the queue to the buffer.
  function MoveOne<T>(s: Stage<T>): Stage<T>
    requires s.queue != []
  {
    s.(queue := s.queue[1..], buffer := s.buffer + [s.queue[0]])
  }

  function MoveAll<T>(s: Stage<T>): Stage<T> {
    s.(queue := [], buffer := s.buffer + s.queue)
  }

  // `_flush` up to its first `await`.
  function BeginFlush<T>(s: Stage<T>, key: T -> string, phase: Phase): Stage<T> {
    s.(phase := phase, pending := GroupBy(s.buffer, key), buffer := [])
  }

  // The test at the head of the main loop, and everything after the loop up to the last flush.
  function LoopHead<T>(s: Stage<T>, key: T -> string): Stage<T> {
    if !s.stopping then s.(phase := Waiting)
    else
      var drained := MoveAll(s);
      if drained.buffer == [] then drained.(phase := Done) else BeginFlush(drained, key, FinalFlush)
  }

  /** A message arrives from the queue. */
  function Take<T>(s: Stage<T>, key: T -> string): Stage<T>
    requires s.queue != []
  {
    var s1 := MoveOne(s);
    if |s1.buffer| >= s1.limits.flushMax then BeginFlush(s1, key, Flushing) else LoopHead(s1, key)
  }

  /** The idle timeout fires. */
  function Idle<T>(s: Stage<T>, key: T -> string): Stage<T> {
    if s.buffer != [] then BeginFlush(s, key, Flushing) else LoopHead(s, key)
  }

  /** How the write of one batch ended. The kept items are those stored. Whether the others are
      counted as dropped is up to the component. */
  datatype Outcome<T> = Kept(items: seq<T>) | Lost(counted: bool)

  function KeptItems<T>(o: Outcome<T>): seq<T> {
    match o case Kept(items) => items case Lost(_) => []
  }

  function EndBatch<T(==)>(s: Stage<T>, o: Outcome<T>): Stage<T>
    requires s.pending != []
  {
    var batch, kept := s.pending[0].items, KeptItems(o);
    s.(pending := s.pending[1..], saved := s.saved + kept, written := s.written + |kept|,
       failed := s.failed + (multiset(batch) - multiset(kept)),
       batchDropped := s.batchDropped + if o.Lost? && o.counted then |batch| else 0)
  }

  lemma {:induction false} BatchKept<T>(s: Stage<T>, items: seq<T>)
    requires s.pending != []
    ensures var s' := EndBatch(s, Kept(items));
            s' == s.(pending := s.pending[1..], saved := s.saved + items, written := s.written + |items|, failed := s'.failed)
  {
  }

  lemma {:induction false} BatchLost<T>(s: Stage<T>)
    requires s.pending != []
    ensures var s' := EndBatch(s, Lost(false));
            s' == s.(pending := s.pending[1..], failed := s'.failed)
  {
    assert s.saved + [] == s.saved;
  }

  function AfterBatch<T>(s: Stage<T>, key: T -> string): Stage<T> {
    if s.pending != [] then s
    else if s.phase == FinalFlush then s.(phase := Done)
    else LoopHead(s, key)
  }

  datatype Event<T> = Offered(x: T) | Taken | TimedOut | BatchEnded(outcome: Outcome<T>) | StopAsked

  /** What can happen when. Messages may arrive at any time, also after the queue was drained. */
  ghost predicate Enabled<T>(s: Stage<T>, e: Event<T>) {
    match e
    case Offered(_) => true
    case Taken => s.phase == Waiting && s.queue != []
    case TimedOut => s.phase == Waiting
    case BatchEnded(o) => s.pending != [] && Subseq(KeptItems(o), s.pending[0].items)
    case StopAsked => true
  }

  function Step<T>(s: Stage<T>, key: T -> string, e: Event<T>): Stage<T>
    requires e.Taken? ==> s.queue != []
    requires e.BatchEnded? ==> s.pending != []
  {
    match e
    case Offered(x) => Offer(s, x)
    case Taken => Take(s, key)
    case TimedOut => Idle(s, key)
    case BatchEnded(o) => AfterBatch(EndBatch(s, o), key)
    case StopAsked => s.(stopping := true)
  }

  // ----- where the messages are -----

  // Everything accepted and not lost, oldest first for each key.
  function Alive<T>(s: Stage<T>): seq<T> {
    s.saved + Items(s.pending) + s.buffer + s.queue
  }

  /** Every accepted message is in exactly one place. */
  ghost predicate Conserved<T>(s: Stage<T>) {
    multiset(s.accepted) == multiset(Alive(s)) + s.failed
  }

  /** For each key, the messages are in the order in which they were accepted. */
  ghost predicate InOrder<T>(s: Stage<T>, key: T -> string) {
    forall k :: Subseq(Select(Alive(s), key, k), Select(s.accepted, key, k))
  }

  ghost predicate Counted<T>(s: Stage<T>) {
    && s.offered == |s.accepted| + s.queueDropped
    && s.written == |s.saved| && s.lagWarnings <= s.offered
    && s.batchDropped <= |s.failed|
    && (s.limits.soft <= s.limits.hard ==> s.queueDropped <= s.lagWarnings)
    && (0 < s.limits.hard ==> |s.queue| <= s.limits.hard)
  }

  ghost predicate Shaped<T>(s: Stage<T>, key: T -> string) {
    && (s.pending != [] <==> s.phase.Flushing? || s.phase.FinalFlush?)
    && (!s.phase.Waiting? ==> s.buffer == [])
    && (s.phase.FinalFlush? || s.phase.Done? ==> s.stopping)
    && (s.phase.Waiting? && s.limits.flushMax >= 1 ==> |s.buffer| < s.limits.flushMax)
    && (forall b :: b in s.pending ==> b.items != [] && forall x :: x in b.items ==> key(x) == b.key)
  }

  // The queue holds the messages accepted last.
  ghost predicate QueueIsTail<T>(s: Stage<T>) {
    |s.queue| <= |s.accepted| && s.accepted[|s.accepted| - |s.queue|..] == s.queue
  }

  ghost predicate Inv<T>(s: Stage<T>, key: T -> string) {
    Conserved(s) && InOrder(s, key) && Counted(s) && Shaped(s, key) && QueueIsTail(s)
  }

  // What has left the queue.
  function Received<T>(s: Stage<T>): seq<T> {
    if |s.queue| <= |s.accepted| then s.accepted[..|s.accepted| - |s.queue|] else []
  }

  lemma {:induction false} InitiallyInv<T>(limits: Limits, key: T -> string)
    ensures Inv(NewStage<T>(limits), key)
  {
    var s := NewStage<T>(limits);
    assert Alive(s) == [];
    forall k ensures Subseq(Select(Alive(s), key, k), Select(s.accepted, key, k)) {
      SubseqNil<T>([]);
    }
  }

  // ----- each elementary transition keeps what matters -----

  ghost predicate Safe<T>(s: Stage<T>, key: T -> string) {
    Conserved(s) && InOrder(s, key) && Counted(s) && QueueIsTail(s)
  }

  // A change of place that keeps the messages and, for each key, their order.
  lemma {:induction false} Rearranged<T>(s: Stage<T>, s': Stage<T>, key: T -> string)
    requires Safe(s, key) && QueueIsTail(s') && |s'.queue| <= |s.queue|
    requires s' == s.(phase := s'.phase, stopping := s'.stopping, queue := s'.queue, buffer := s'.buffer, pending := s'.pending)
    requires multiset(Alive(s')) == multiset(Alive(s))
    requires forall k :: Select(Alive(s'), key, k) == Select(Alive(s), key, k)
    ensures Safe(s', key)
  {
    forall k ensures Subseq(Select(Alive(s'), key, k), Select(s'.accepted, key, k)) {
      assert Select(Alive(s'), key, k) == Select(Alive(s), key, k);
    }
  }

  lemma {:induction false} OfferSafe<T>(s: Stage<T>, key: T -> string, x: T)
    requires Safe(s, key)
    ensures Safe(Offer(s, x), key)
  {
    var s' := Offer(s, x);
    if !Full(s) {
      assert Alive(s') == Alive(s) + [x];
      forall k ensures Subseq(Select(Alive(s'), key, k), Select(s'.accepted, key, k)) {
        SelectConcat(Alive(s), [x], key, k);
        SelectConcat(s.accepted, [x], key, k);
        SubseqRefl(Select([x], key, k));
        SubseqConcat(Select(Alive(s), key, k), Select([x], key, k), Select(s.accepted, key, k), Select([x], key, k));
      }
      assert s'.accepted[|s'.accepted| - |s'.queue|..] == s.accepted[|s.accepted| - |s.queue|..] + [x];
    } else {
      assert Alive(s') == Alive(s);
      assert forall k :: Select(Alive(s'), key, k) == Select(Alive(s), key, k);
    }
  }

  lemma {:induction false} MoveOneSafe<T>(s: Stage<T>, key: T -> string)
    requires Safe(s, key) && s.queue != []
    ensures Safe(MoveOne(s), key)
  {
    var s' := MoveOne(s);
    assert s.queue == [s.queue[0]] + s.queue[1..];
    assert Alive(s') == Alive(s);
    Rearranged(s, s', key);
  }

  lemma {:induction false} MoveAllSafe<T>(s: Stage<T>, key: T -> string)
    requires Safe(s, key)
    ensures Safe(MoveAll(s), key)
  {
    assert Alive(MoveAll(s)) == Alive(s);
    Rearranged(s, MoveAll(s), key);
  }

  lemma {:induction false} BeginFlushSafe<T(!new)>(s: Stage<T>, key: T -> string, phase: Phase)
    requires Safe(s, key) && s.pending == []
    ensures Safe(BeginFlush(s, key, phase), key)
  {
    hide GroupBy, FirstKeys, Select, Conserved, InOrder, Counted;
    var s' := BeginFlush(s, key, phase);
    var batched := Items(GroupBy(s.buffer, key));
    GroupByMultiset(s.buffer, key);
    assert Alive(s) == s.saved + s.buffer + s.queue;
    assert Alive(s') == s.saved + batched + s.queue;
    forall k ensures Select(Alive(s'), key, k) == Select(Alive(s), key, k) {
      GroupByKeepsOrder(s.buffer, key, k);
      SelectConcat(s.saved, s.buffer, key, k);
      SelectConcat(s.saved + s.buffer, s.queue, key, k);
      SelectConcat(s.saved, batched, key, k);
      SelectConcat(s.saved + batched, s.queue, key, k);
    }
    Rearranged(s, s', key);
  }

  // The messages whose write did not end with this batch.
  function Others<T>(s: Stage<T>): seq<T>
    requires s.pending != []
  {
    Items(s.pending[1..]) + s.buffer + s.queue
  }

  lemma {:induction false} AliveAround<T>(s: Stage<T>, o: Outcome<T>)
    requires s.pending != []
    ensures Alive(s) == s.saved + s.pending[0].items + Others(s)
    ensures Alive(EndBatch(s, o)) == s.saved + KeptItems(o) + Others(s)
  {
    hide KeptItems;
  }

  lemma {:induction false} SomeKept<T>(front: seq<T>, batch: seq<T>, kept: seq<T>, rest: seq<T>)
    requires Subseq(kept, batch)
    ensures Subseq(front + kept + rest, front + batch + rest)
    ensures multiset(front + batch + rest) == multiset(front + kept + rest) + (multiset(batch) - multiset(kept))
  {
    SubseqLength(kept, batch);
    SubseqRefl(front);
    SubseqConcat(front, kept, front, batch);
    SubseqRefl(rest);
    SubseqConcat(front + kept, rest, front + batch, rest);
  }

  lemma {:induction false} EndBatchConserves<T>(s: Stage<T>, o: Outcome<T>)
    requires Conserved(s) && s.pending != [] && Subseq(KeptItems(o), s.pending[0].items)
    ensures Conserved(EndBatch(s, o)) && Subseq(Alive(EndBatch(s, o)), Alive(s))
  {
    hide KeptItems, Subseq, Alive, Others;
    AliveAround(s, o);
    SomeKept(s.saved, s.pending[0].items, KeptItems(o), Others(s));
  }

  lemma {:induction false} EndBatchSafe<T(!new)>(s: Stage<T>, key: T -> string, o: Outcome<T>)
    requires Safe(s, key) && s.pending != [] && Subseq(KeptItems(o), s.pending[0].items)
    ensures Safe(EndBatch(s, o), key)
  {
    hide Conserved, Counted, KeptItems, Select, Subseq, Alive;
    var s' := EndBatch(s, o);
    EndBatchConserves(s, o);
    forall k ensures Subseq(Select(Alive(s'), key, k), Select(s'.accepted, key, k)) {
      SubseqSelect(Alive(s'), Alive(s), key, k);
      SubseqTrans(Select(Alive(s'), key, k), Select(Alive(s), key, k), Select(s.accepted, key, k));
    }
    LossCounted(s, o);
  }

  lemma {:induction false} LossCounted<T>(s: Stage<T>, o: Outcome<T>)
    requires Counted(s) && s.pending != []
    ensures Counted(EndBatch(s, o))
  {
    if o.Lost? {
      assert multiset(s.pending[0].items) - multiset(KeptItems(o)) == multiset(s.pending[0].items);
    }
  }

  lemma {:induction false} PhaseSafe<T>(s: Stage<T>, key: T -> string, phase: Phase, stopping: bool)
    requires Safe(s, key)
    ensures Safe(s.(phase := phase, stopping := stopping), key)
  {
    var s' := s.(phase := phase, stopping := stopping);
    assert Alive(s') == Alive(s);
    Rearranged(s, s', key);
  }

  // ----- each step keeps the invariant -----

  lemma {:induction false} BatchesShaped<T>(xs: seq<T>, key: T -> string)
    ensures forall b :: b in GroupBy(xs, key) ==> b.items != [] && forall x :: x in b.items ==> key(x) == b.key
    ensures GroupBy(xs, key) != [] <==> xs != []
  {
    forall b | b in GroupBy(xs, key) ensures b.items != [] && forall x :: x in b.items ==> key(x) == b.key {
      SelectIn(xs, key, b.key);
      assert b.key in FirstKeys(xs, key);
      var x :| x in xs && key(x) == b.key;
      assert x in b.items;
    }
  }

  lemma {:induction false} SafeAndShaped<T>(s: Stage<T>, key: T -> string)
    ensures Inv(s, key) <==> Safe(s, key) && Shaped(s, key)
  {
  }

  lemma {:induction false} LoopHeadInv<T(!new)>(s: Stage<T>, key: T -> string)
    requires Safe(s, key) && s.pending == []
    requires !s.stopping && s.limits.flushMax >= 1 ==> |s.buffer| < s.limits.flushMax
    ensures Inv(LoopHead(s, key), key)
  {
    if !s.stopping {
      PhaseSafe(s, key, Waiting, s.stopping);
    } else {
      var drained := MoveAll(s);
      MoveAllSafe(s, key);
      if drained.buffer == [] {
        PhaseSafe(drained, key, Done, s.stopping);
      } else {
        BeginFlushSafe(drained, key, FinalFlush);
        BatchesShaped(drained.buffer, key);
      }
    }
  }

  lemma {:induction false} TakeInv<T(!new)>(s: Stage<T>, key: T -> string)
    requires Inv(s, key) && s.phase == Waiting && s.queue != []
    ensures Inv(Take(s, key), key)
  {
    MoveOneSafe(s, key);
    var s1 := MoveOne(s);
    if |s1.buffer| >= s1.limits.flushMax {
      BeginFlushSafe(s1, key, Flushing);
      BatchesShaped(s1.buffer, key);
    } else {
      LoopHeadInv(s1, key);
    }
  }

  lemma {:induction false} IdleInv<T(!new)>(s: Stage<T>, key: T -> string)
    requires Inv(s, key) && s.phase == Waiting
    ensures Inv(Idle(s, key), key)
  {
    if s.buffer != [] {
      BeginFlushSafe(s, key, Flushing);
      BatchesShaped(s.buffer, key);
    } else {
      LoopHeadInv(s, key);
    }
  }

  lemma {:induction false} BatchEndedInv<T(!new)>(s: Stage<T>, key: T -> string, o: Outcome<T>)
    requires Inv(s, key) && s.pending != [] && Subseq(KeptItems(o), s.pending[0].items)
    ensures Inv(AfterBatch(EndBatch(s, o), key), key)
  {
    hide Safe, Conserved, InOrder, Counted, Subseq, KeptItems, QueueIsTail;
    var s1 := EndBatch(s, o);
    SafeAndShaped(s, key);
    EndBatchSafe(s, key, o);
    SafeAndShaped(AfterBatch(s1, key), key);
    if s1.pending == [] {
      if s1.phase == FinalFlush {
        PhaseSafe(s1, key, Done, s1.stopping);
      } else {
        LoopHeadInv(s1, key);
      }
    }
  }

  /** The laws hold at every reachable state. */
  lemma {:induction false} StepInv<T(!new)>(s: Stage<T>, key: T -> string, e: Event<T>)
    requires Inv(s, key) && Enabled(s, e)
    ensures Inv(Step(s, key, e), key)
  {
    match e
    case Offered(x) => OfferSafe(s, key, x);
    case Taken => TakeInv(s, key);
    case TimedOut => IdleInv(s, key);
    case BatchEnded(o) => BatchEndedInv(s, key, o);
    case StopAsked => PhaseSafe(s, key, s.phase, true);
  }

  // ----- what a consumer's own step does to the queue -----

  ghost predicate OwnStep<T>(e: Event<T>) {
    e.Taken? || e.TimedOut? || e.BatchEnded?
  }

  // Off the front of the queue, nothing accepted.
  ghost predicate OnlyTakes<T>(s: Stage<T>, s': Stage<T>) {
    && s'.accepted == s.accepted && s'.stopping == s.stopping
    && |s'.queue| <= |s.queue| && s'.queue == s.queue[|s.queue| - |s'.queue|..]
  }

  lemma {:induction false} LoopHeadOnlyTakes<T>(s: Stage<T>, key: T -> string)
    ensures OnlyTakes(s, LoopHead(s, key))
  {
  }

  lemma {:induction false} TakeOnlyTakes<T>(s: Stage<T>, key: T -> string)
    requires s.queue != []
    ensures OnlyTakes(s, Take(s, key))
  {
    var s1, q := MoveOne(s), Take(s, key).queue;
    LoopHeadOnlyTakes(s1, key);
    assert s.queue[1..][|s.queue| - 1 - |q|..] == s.queue[|s.queue| - |q|..];
  }

  lemma {:induction false} BatchEndOnlyTakes<T>(s: Stage<T>, key: T -> string, o: Outcome<T>)
    requires s.pending != []
    ensures OnlyTakes(s, AfterBatch(EndBatch(s, o), key))
  {
    LoopHeadOnlyTakes(EndBatch(s, o), key);
  }

  lemma {:induction false} OwnStepOnlyTakes<T>(s: Stage<T>, key: T -> string, e: Event<T>)
    requires Enabled(s, e) && OwnStep(e)
    ensures OnlyTakes(s, Step(s, key, e))
  {
    match e
    case Taken => TakeOnlyTakes(s, key);
    case TimedOut => LoopHeadOnlyTakes(s, key);
    case BatchEnded(o) => BatchEndOnlyTakes(s, key, o);
  }

  // What a step took off the queue.
  function HandedOver<T>(s: Stage<T>, s': Stage<T>): seq<T> {
    if |s'.queue| <= |s.queue| then s.queue[..|s.queue| - |s'.queue|] else []
  }

  lemma {:induction false} ReceivedGrows<T>(s: Stage<T>, s': Stage<T>)
    requires QueueIsTail(s) && OnlyTakes(s, s')
    ensures QueueIsTail(s') && Received(s') == Received(s) + HandedOver(s, s')
    ensures forall x :: x in HandedOver(s, s') ==> x in s.accepted
  {
    var a, n, k := s.accepted, |s.accepted| - |s.queue|, |s.queue| - |s'.queue|;
    assert a[n..] == s.queue;
    assert a[..n + k] == a[..n] + a[n..][..k];
    assert a[n + k..] == a[n..][k..];
  }

  lemma {:induction false} OfferInv<T(!new)>(s: Stage<T>, key: T -> string, x: T)
    requires Inv(s, key)
    ensures Inv(Offer(s, x), key)
  {
    StepInv(s, key, Offered(x));
  }

  lemma {:induction false} OfferReceivesNothing<T>(s: Stage<T>, x: T)
    requires QueueIsTail(s)
    ensures Received(Offer(s, x)) == Received(s)
  {
  }

  // ----- runs -----

  function Run<T>(s: Stage<T>, key: T -> string, events: seq<Event<T>>): Stage<T> {
    if events == [] then s else
      var before := Run(s, key, events[..|events| - 1]);
      var e := events[|events| - 1];
      if (e.Taken? && before.queue == []) || (e.BatchEnded? && before.pending == []) then before else Step(before, key, e)
  }

  ghost predicate Possible<T>(s: Stage<T>, key: T -> string, events: seq<Event<T>>) {
    events == [] ||
    (Possible(s, key, events[..|events| - 1]) && Enabled(Run(s, key, events[..|events| - 1]), events[|events| - 1]))
  }

  // The counters a health page would show add up.
  ghost predicate Accounted<T>(s: Stage<T>) {
    && s.offered == s.queueDropped + |s.accepted|
    && |s.accepted| == |s.queue| + |s.buffer| + |Items(s.pending)| + s.written + |s.failed|
  }

  /** Over any interleaving of arrivals, timeouts, batch ends and a stop request: nothing is
      duplicated or made up, every message is accounted for, the bounds hold, and for each key
      what was saved is an order-preserving selection of what was accepted. */
  lemma {:induction false} RunInv<T(!new)>(limits: Limits, key: T -> string, events: seq<Event<T>>)
    requires Possible(NewStage(limits), key, events)
    ensures var s := Run(NewStage(limits), key, events); Inv(s, key) && Accounted(s)
  {
    InitiallyInv<T>(limits, key);
    RunFromInv(NewStage(limits), key, events);
    var s := Run(NewStage(limits), key, events);
    assert |multiset(s.accepted)| == |multiset(Alive(s))| + |s.failed|;
  }

  // What left the queue and what is still in it.
  lemma {:induction false} AcceptedSplits<T>(s: Stage<T>, key: T -> string, k: string)
    requires QueueIsTail(s)
    ensures s.accepted == Received(s) + s.queue
    ensures Select(s.accepted, key, k) == Select(Received(s), key, k) + Select(s.queue, key, k)
  {
    SelectConcat(Received(s), s.queue, key, k);
  }

  // What left the queue was saved or failed, or is on its way.
  lemma {:induction false} ReceivedConserved<T>(s: Stage<T>)
    requires Conserved(s) && QueueIsTail(s)
    ensures multiset(Received(s)) == multiset(s.saved + Items(s.pending) + s.buffer) + s.failed
  {
    var handled := s.saved + Items(s.pending) + s.buffer;
    assert s.accepted == Received(s) + s.queue;
    assert Alive(s) == handled + s.queue;
    Cancel(multiset(Received(s)), multiset(handled) + s.failed, multiset(s.queue));
  }

  lemma {:induction false} Cancel<T>(a: multiset<T>, b: multiset<T>, c: multiset<T>)
    requires a + c == b + c
    ensures a == b
  {
    assert (a + c) - c == a && (b + c) - c == b;
  }

  /** When a stage is done and no batch failed, all it ever took off its queue is saved, each key
      in order. */
  lemma {:induction false} DoneSavesAll<T>(s: Stage<T>, key: T -> string, k: string)
    requires Inv(s, key) && s.phase == Done && s.failed == multiset{}
    ensures multiset(s.saved) == multiset(Received(s))
    ensures Select(s.saved, key, k) == Select(Received(s), key, k)
  {
    hide Select, Subseq;
    ReceivedConserved(s);
    assert s.saved + Items(s.pending) + s.buffer == s.saved;
    AcceptedSplits(s, key, k);
    assert Alive(s) == s.saved + s.queue;
    SelectConcat(s.saved, s.queue, key, k);
    SameSizeSelection(Alive(s), s.accepted, key, k);
    SameFront(Select(s.saved, key, k), Select(Received(s), key, k), Select(s.queue, key, k));
  }

  lemma {:induction false} SameFront<T>(a: seq<T>, b: seq<T>, q: seq<T>)
    requires a + q == b + q
    ensures a == b
  {
    assert |a + q| == |b + q|;
    assert a == (a + q)[..|a|] && b == (b + q)[..|b|];
  }

  // Everything accepted is saved but for what is still in the queue.
  lemma {:induction false} DoneLeavesTheQueue<T>(s: Stage<T>, key: T -> string)
    requires Inv(s, key) && s.phase == Done && s.failed == multiset{}
    ensures multiset(s.saved) == multiset(s.accepted) <==> s.queue == []
    ensures |s.accepted| == s.written + |s.queue|
  {
    DoneSavesAll(s, key, "");
    AcceptedSplits(s, key, "");
    assert |multiset(s.saved)| == |multiset(Received(s))|;
    if multiset(s.saved) == multiset(s.accepted) {
      assert |multiset(s.saved)| == |multiset(s.accepted)|;
    }
  }

  // ----- what is accepted, and when a flush begins -----

  /** On every reachable state: a message is dropped if and only if the queue holds exactly as many
      as the hard limit allows, and taken otherwise; it counts a lag warning if and only if the queue
      holds at least as many as the soft limit. Nothing else changes. */
  lemma {:induction false} OfferExactly<T>(s: Stage<T>, key: T -> string, x: T)
    requires Inv(s, key)
    ensures var s' := Offer(s, x);
            && s'.lagWarnings == s.lagWarnings + (if |s.queue| >= s.limits.soft then 1 else 0)
            && s'.offered == s.offered + 1
            && (if 0 < s.limits.hard && |s.queue| == s.limits.hard then
                  s'.queue == s.queue && s'.accepted == s.accepted && s'.queueDropped == s.queueDropped + 1
                else
                  s'.queue == s.queue + [x] && s'.accepted == s.accepted + [x] && s'.queueDropped == s.queueDropped)
            && s' == s.(queue := s'.queue, accepted := s'.accepted, offered := s'.offered,
                        lagWarnings := s'.lagWarnings, queueDropped := s'.queueDropped)
  {
  }

  lemma {:induction false} QueueIsBounded<T>(s: Stage<T>, key: T -> string)
    requires Inv(s, key)
    ensures 0 < s.limits.hard ==> |s.queue| <= s.limits.hard
  {
  }

  // The messages whose write begins or goes on, key by key.
  ghost predicate Writing<T>(s: Stage<T>, key: T -> string, xs: seq<T>) {
    && multiset(Items(s.pending)) == multiset(xs)
    && (forall k :: Select(Items(s.pending), key, k) == Select(xs, key, k))
    && (forall i, j :: 0 <= i < j < |s.pending| ==> s.pending[i].key != s.pending[j].key)
  }

  lemma {:induction false} BeginsWriting<T(!new)>(s: Stage<T>, key: T -> string, phase: Phase)
    ensures var s' := BeginFlush(s, key, phase);
            && Writing(s', key, s.buffer)
            && s' == s.(phase := phase, buffer := [], pending := s'.pending)
  {
    hide FirstKeys, Select;
    GroupByMultiset(s.buffer, key);
    forall k ensures Select(Items(GroupBy(s.buffer, key)), key, k) == Select(s.buffer, key, k) {
      GroupByKeepsOrder(s.buffer, key, k);
    }
  }

  // Back at the head of the loop: on with it, or everything left is drained into the last flush.
  ghost predicate BackAtHead<T>(s: Stage<T>, s': Stage<T>, key: T -> string) {
    if !s.stopping then s' == s.(phase := Waiting)
    else
      && s' == s.(phase := s'.phase, queue := [], buffer := [], pending := s'.pending)
      && (if s.buffer + s.queue == [] then s'.phase == Done && s'.pending == s.pending
          else s'.phase == FinalFlush && Writing(s', key, s.buffer + s.queue))
  }

  lemma {:induction false} LoopHeadExactly<T(!new)>(s: Stage<T>, key: T -> string)
    ensures BackAtHead(s, LoopHead(s, key), key)
  {
    hide BeginFlush, Writing;
    if s.stopping && MoveAll(s).buffer != [] {
      BeginsWriting(MoveAll(s), key, FinalFlush);
    }
  }

  /** A message from the queue starts a flush if and only if with it the buffer reaches the threshold;
      the flush is of the whole buffer. Otherwise the loop goes on. */
  lemma {:induction false} TakeExactly<T(!new)>(s: Stage<T>, key: T -> string)
    requires s.queue != []
    ensures var s', x := Take(s, key), s.queue[0];
            var moved := s.(queue := s.queue[1..], buffer := s.buffer + [x]);
            if |s.buffer| + 1 >= s.limits.flushMax then
              s' == moved.(phase := Flushing, buffer := [], pending := s'.pending) && Writing(s', key, s.buffer + [x])
            else BackAtHead(moved, s', key)
  {
    hide BeginFlush, LoopHead, Writing, BackAtHead;
    BeginsWriting(MoveOne(s), key, Flushing);
    LoopHeadExactly(MoveOne(s), key);
  }

  /** The idle timeout leaves no message waiting in the buffer. */
  lemma {:induction false} IdleExactly<T(!new)>(s: Stage<T>, key: T -> string)
    ensures var s' := Idle(s, key);
            if s.buffer != [] then
              s' == s.(phase := Flushing, buffer := [], pending := s'.pending) && Writing(s', key, s.buffer)
            else BackAtHead(s, s', key)
  {
    hide BeginFlush, LoopHead, Writing, BackAtHead;
    BeginsWriting(s, key, Flushing);
    LoopHeadExactly(s, key);
  }

  /** How a batch ended is how it is counted: what was kept is written; all of a batch that was lost
      and counted is dropped; a batch lost without being counted changes no counter. */
  lemma {:induction false} BatchEndExactly<T>(s: Stage<T>, o: Outcome<T>)
    requires s.pending != []
    ensures var s', batch := EndBatch(s, o), s.pending[0].items;
            && s'.pending == s.pending[1..]
            && (o.Kept? ==> s'.saved == s.saved + o.items && s'.written == s.written + |o.items| && s'.batchDropped == s.batchDropped)
            && (o.Lost? ==> s'.saved == s.saved && s'.written == s.written && s'.failed == s.failed + multiset(batch))
            && (o.Lost? ==> s'.batchDropped == s.batchDropped + if o.counted then |batch| else 0)
            && s' == s.(pending := s'.pending, saved := s'.saved, written := s'.written, failed := s'.failed, batchDropped := s'.batchDropped)
  {
    assert s.saved + [] == s.saved;
    assert multiset(s.pending[0].items) - multiset{} == multiset(s.pending[0].items);
  }

  // ----- the counters, from the history of a run alone -----

  datatype Counters = Counters(offered: nat, lagWarnings: nat, queueDropped: nat, batchDropped: nat, written: nat)

  function Counted1<T>(c: Counters, s: Stage<T>, e: Event<T>): Counters {
    match e
    case Offered(_) =>
      c.(offered := c.offered + 1,
         lagWarnings := c.lagWarnings + (if |s.queue| >= s.limits.soft then 1 else 0),
         queueDropped := c.queueDropped + (if 0 < s.limits.hard && |s.queue| == s.limits.hard then 1 else 0))
    case BatchEnded(Kept(items)) => c.(written := c.written + |items|)
    case BatchEnded(Lost(counted)) =>
      c.(batchDropped := c.batchDropped + (if counted && s.pending != [] then |s.pending[0].items| else 0))
    case _ => c
  }

  function CountersOf<T(==)>(limits: Limits, key: T -> string, events: seq<Event<T>>): Counters {
    if events == [] then Counters(0, 0, 0, 0, 0) else
      var n := |events| - 1;
      Counted1(CountersOf(limits, key, events[..n]), Run(NewStage(limits), key, events[..n]), events[n])
  }

  lemma {:induction false} LoopHeadCounts<T>(s: Stage<T>, key: T -> string)
    ensures var s' := LoopHead(s, key);
            && s'.offered == s.offered && s'.lagWarnings == s.lagWarnings && s'.queueDropped == s.queueDropped
            && s'.batchDropped == s.batchDropped && s'.written == s.written
  {
  }

  lemma {:induction false} StepCounts<T>(s: Stage<T>, key: T -> string, e: Event<T>, c: Counters)
    requires Inv(s, key) && Enabled(s, e)
    requires c == Counters(s.offered, s.lagWarnings, s.queueDropped, s.batchDropped, s.written)
    ensures var s' := Step(s, key, e);
            Counted1(c, s, e) == Counters(s'.offered, s'.lagWarnings, s'.queueDropped, s'.batchDropped, s'.written)
  {
    hide Inv, LoopHead, Offer, EndBatch, GroupBy;
    match e
    case Offered(x) => OfferExactly(s, key, x);
    case Taken => LoopHeadCounts(MoveOne(s), key);
    case TimedOut => LoopHeadCounts(s, key);
    case BatchEnded(o) =>
      BatchEndExactly(s, o);
      LoopHeadCounts(EndBatch(s, o), key);
    case StopAsked =>
  }

  /** After any run, every counter is what its history says: a drop for each message offered to a
      queue at its hard limit, a warning for each offered to one at its soft limit or beyond, and the
      batches as they ended. */
  lemma {:induction false} CountersTell<T(!new)>(limits: Limits, key: T -> string, events: seq<Event<T>>)
    requires Possible(NewStage(limits), key, events)
    ensures var s := Run(NewStage(limits), key, events);
            CountersOf(limits, key, events) == Counters(s.offered, s.lagWarnings, s.queueDropped, s.batchDropped, s.written)
  {
    if events != [] {
      hide Inv, Step, Enabled, Counted1;
      var n := |events| - 1;
      RunsOn(NewStage(limits), key, events);
      CountersTell(limits, key, events[..n]);
      InitiallyInv<T>(limits, key);
      RunFromInv(NewStage(limits), key, events[..n]);
      var c := CountersOf(limits, key, events[..n]);
      StepCounts(Run(NewStage(limits), key, events[..n]), key, events[n], c);
    }
  }

  // The queue is at its hard limit when the message at this position is offered.
  ghost predicate FullAt<T>(limits: Limits, key: T -> string, events: seq<Event<T>>, i: nat)
    requires i < |events|
  {
    events[i].Offered? && 0 < limits.hard && |Run(NewStage(limits), key, events[..i]).queue| == limits.hard
  }

  ghost predicate NeverFull<T>(limits: Limits, key: T -> string, events: seq<Event<T>>) {
    forall i :: 0 <= i < |events| ==> !FullAt(limits, key, events, i)
  }

  lemma {:induction false} NeverFullSnoc<T>(limits: Limits, key: T -> string, events: seq<Event<T>>)
    requires events != []
    ensures var n := |events| - 1; NeverFull(limits, key, events) <==> NeverFull(limits, key, events[..n]) && !FullAt(limits, key, events, n)
  {
    hide FullAt;
    var n := |events| - 1;
    forall i | 0 <= i < n ensures FullAt(limits, key, events[..n], i) == FullAt(limits, key, events, i) {
      FullAtPrefix(limits, key, events, n, i);
    }
  }

  lemma {:induction false} FullAtPrefix<T>(limits: Limits, key: T -> string, events: seq<Event<T>>, n: nat, i: nat)
    requires i < n <= |events|
    ensures FullAt(limits, key, events[..n], i) == FullAt(limits, key, events, i)
  {
    hide Run;
    assert events[..n][..i] == events[..i];
  }

  lemma {:induction false} RunKeepsLimits<T>(s: Stage<T>, key: T -> string, events: seq<Event<T>>)
    ensures Run(s, key, events).limits == s.limits
  {
    if events != [] {
      RunKeepsLimits(s, key, events[..|events| - 1]);
    }
  }

  lemma {:induction false} DropCounted<T>(limits: Limits, key: T -> string, events: seq<Event<T>>)
    requires events != []
    ensures var n := |events| - 1;
            CountersOf(limits, key, events).queueDropped ==
            CountersOf(limits, key, events[..n]).queueDropped + if FullAt(limits, key, events, n) then 1 else 0
  {
    hide Run;
    RunKeepsLimits(NewStage(limits), key, events[..|events| - 1]);
  }

  lemma {:induction false} DropsOnlyWhenFull<T>(limits: Limits, key: T -> string, events: seq<Event<T>>)
    ensures CountersOf(limits, key, events).queueDropped == 0 <==> NeverFull(limits, key, events)
  {
    if events != [] {
      hide CountersOf, NeverFull, FullAt;
      DropsOnlyWhenFull(limits, key, events[..|events| - 1]);
      DropCounted(limits, key, events);
      NeverFullSnoc(limits, key, events);
    }
  }

  /** A run drops nothing on arrival if and only if no message is ever offered to a queue at its hard
      limit; with a limit of zero or less none ever is. */
  lemma {:induction false} NothingIsDroppedExactly<T(!new)>(limits: Limits, key: T -> string, events: seq<Event<T>>)
    requires Possible(NewStage(limits), key, events)
    ensures var s := Run(NewStage(limits), key, events);
            && (s.queueDropped == 0 <==> NeverFull(limits, key, events))
            && (NeverFull(limits, key, events) <==> |s.accepted| == s.offered)
  {
    hide NeverFull, CountersOf;
    CountersTell(limits, key, events);
    DropsOnlyWhenFull(limits, key, events);
    InitiallyInv<T>(limits, key);
    RunFromInv(NewStage(limits), key, events);
  }

  // ----- messages that arrive too late -----

  // The queue has been drained for the last time.
  predicate Drained<T>(s: Stage<T>) {
    s.phase.FinalFlush? || s.phase.Done?
  }

  // A message is accepted after that, while the last flush is written or later.
  predicate Late<T>(s: Stage<T>, e: Event<T>) {
    e.Offered? && Drained(s) && !Full(s)
  }

  function LateArrivals<T>(s: Stage<T>, key: T -> string, events: seq<Event<T>>): nat {
    if events == [] then 0 else
      var n := |events| - 1;
      LateArrivals(s, key, events[..n]) + if Late(Run(s, key, events[..n]), events[n]) then 1 else 0
  }

  // What a step does to the queue around the drain.
  lemma {:induction false} DrainStep<T>(s: Stage<T>, key: T -> string, e: Event<T>)
    requires Shaped(s, key) && Enabled(s, e)
    ensures var s' := Step(s, key, e);
            && (Drained(s) ==> Drained(s') && s'.queue == s.queue + if Late(s, e) then [e.x] else [])
            && (!Drained(s) && Drained(s') ==> s'.queue == [])
  {
    hide GroupBy, FirstKeys, Select, Subseq;
    assert s.queue + [] == s.queue;
  }

  lemma {:induction false} LateArrivalsStay<T(!new)>(s: Stage<T>, key: T -> string, events: seq<Event<T>>)
    requires Inv(s, key) && !Drained(s) && Possible(s, key, events)
    ensures var s' := Run(s, key, events); LateArrivals(s, key, events) == if Drained(s') then |s'.queue| else 0
  {
    if events != [] {
      hide Inv, Step, Enabled;
      var n := |events| - 1;
      LateArrivalsStay(s, key, events[..n]);
      RunFromInv(s, key, events[..n]);
      RunsOn(s, key, events);
      var s1 := Run(s, key, events[..n]);
      InvIsShaped(s1, key);
      DrainStep(s1, key, events[n]);
    }
  }

  lemma {:induction false} InvIsShaped<T>(s: Stage<T>, key: T -> string)
    requires Inv(s, key)
    ensures Shaped(s, key)
  {
  }

  lemma {:induction false} RunsOn<T>(s: Stage<T>, key: T -> string, events: seq<Event<T>>)
    requires events != [] && Possible(s, key, events)
    ensures var n := |events| - 1;
            var s1 := Run(s, key, events[..n]);
            Possible(s, key, events[..n]) && Enabled(s1, events[n]) && Run(s, key, events) == Step(s1, key, events[n])
  {
  }

  /** After any run that ended with nothing failed, all that was accepted is saved if and only if no
      message was accepted after the queue was drained, and as many are missing as were. */
  lemma {:induction false} DoneSavesAcceptedExactly<T(!new)>(limits: Limits, key: T -> string, events: seq<Event<T>>)
    requires Possible(NewStage(limits), key, events)
    requires var s := Run(NewStage(limits), key, events); s.phase == Done && s.failed == multiset{}
    ensures var s, late := Run(NewStage(limits), key, events), LateArrivals(NewStage(limits), key, events);
            (multiset(s.saved) == multiset(s.accepted) <==> late == 0) && |s.accepted| == s.written + late
  {
    hide Inv, Possible;
    InitiallyInv<T>(limits, key);
    RunFromInv(NewStage(limits), key, events);
    LateArrivalsStay(NewStage(limits), key, events);
    DoneLeavesTheQueue(Run(NewStage(limits), key, events), key);
  }

  // The event at position i of the run is such an arrival.
  predicate LateAt<T>(s: Stage<T>, key: T -> string, events: seq<Event<T>>, i: nat)
    requires i < |events|
  {
    Late(Run(s, key, events[..i]), events[i])
  }

  lemma {:induction false} LateArrivalsSnoc<T>(s: Stage<T>, key: T -> string, events: seq<Event<T>>)
    requires events != []
    ensures var n := |events| - 1;
            LateArrivals(s, key, events) == LateArrivals(s, key, events[..n]) + if LateAt(s, key, events, n) then 1 else 0
  {
  }

  lemma {:induction false} LateAtPrefix<T>(s: Stage<T>, key: T -> string, events: seq<Event<T>>, n: nat, i: nat)
    requires i < n <= |events|
    ensures LateAt(s, key, events[..n], i) == LateAt(s, key, events, i)
  {
    hide Late, Run;
    assert events[..n][..i] == events[..i];
  }

  ghost predicate NoneLate<T>(s: Stage<T>, key: T -> string, events: seq<Event<T>>) {
    forall i :: 0 <= i < |events| ==> !LateAt(s, key, events, i)
  }

  lemma {:induction false} NoneLateSnoc<T>(s: Stage<T>, key: T -> string, events: seq<Event<T>>)
    requires events != []
    ensures var n := |events| - 1; NoneLate(s, key, events) <==> NoneLate(s, key, events[..n]) && !LateAt(s, key, events, n)
  {
    hide LateAt;
    var n := |events| - 1;
    forall i | 0 <= i < n ensures LateAt(s, key, events[..n], i) == LateAt(s, key, events, i) {
      LateAtPrefix(s, key, events, n, i);
    }
  }

  /** None was late exactly when at no point of the run a message was accepted after the drain. */
  lemma {:induction false} NoLateArrivals<T>(s: Stage<T>, key: T -> string, events: seq<Event<T>>)
    ensures LateArrivals(s, key, events) == 0 <==> NoneLate(s, key, events)
  {
    if events != [] {
      hide LateAt, NoneLate, LateArrivals;
      NoLateArrivals(s, key, events[..|events| - 1]);
      LateArrivalsSnoc(s, key, events);
      NoneLateSnoc(s, key, events);
    }
  }

  /** A message accepted after the drain, be it during the last flush, stays in the queue for ever:
      what left the queue is all that is ever saved or failed, and it is not counted as dropped. */
  lemma {:induction false} LateArrivalIsLost<T(!new)>(s: Stage<T>, key: T -> string, x: T, events: seq<Event<T>>)
    requires Inv(s, key) && Late(s, Offered(x)) && Possible(Offer(s, x), key, events)
    ensures var s' := Run(Offer(s, x), key, events);
            && Drained(s') && s.queue + [x] <= s'.queue && s.accepted + [x] <= s'.accepted
            && Received(s') == Received(s) && multiset(s'.saved) + s'.failed <= multiset(Received(s))
            && s'.offered == s'.queueDropped + |s'.accepted|
  {
    var s' := Run(Offer(s, x), key, events);
    LateArrivalStays(s, key, x, events);
    OfferInv(s, key, x);
    RunFromInv(Offer(s, x), key, events);
    ReceivedConserved(s');
  }

  lemma {:induction false} LateArrivalStays<T(!new)>(s: Stage<T>, key: T -> string, x: T, events: seq<Event<T>>)
    requires Inv(s, key) && Late(s, Offered(x)) && Possible(Offer(s, x), key, events)
    ensures var s' := Run(Offer(s, x), key, events);
            Drained(s') && s.queue + [x] <= s'.queue && s.accepted + [x] <= s'.accepted && Received(s') == Received(s)
  {
    if events == [] {
      OfferReceivesNothing(s, x);
    } else {
      hide Inv, Step, Enabled, Offer, Possible, Run, QueueIsTail, Received;
      var n := |events| - 1;
      RunsOn(Offer(s, x), key, events);
      LateArrivalStays(s, key, x, events[..n]);
      OfferInv(s, key, x);
      RunFromInv(Offer(s, x), key, events[..n]);
      var s1 := Run(Offer(s, x), key, events[..n]);
      InvIsShaped(s1, key);
      DrainStep(s1, key, events[n]);
      DrainedStepReceives(s1, key, events[n]);
    }
  }

  lemma {:induction false} DrainedStepReceives<T>(s: Stage<T>, key: T -> string, e: Event<T>)
    requires Inv(s, key) && Drained(s) && Enabled(s, e)
    ensures s.accepted <= Step(s, key, e).accepted && Received(Step(s, key, e)) == Received(s)
  {
    hide GroupBy, FirstKeys, Select, Subseq, Conserved, InOrder, Counted;
    if e.Offered? {
      OfferReceivesNothing(s, e.x);
    }
  }

  function Itself(s: string): string { s }

  const START: Stage<string> := NewStage(Limits(1000, 5000, 100))

  // A stop, one message that is drained and saved, and one that arrives while it is being written.
  function LosingRun(): seq<Event<string>> {
    [StopAsked, Offered("a"), TimedOut, Offered("b"), BatchEnded(Kept(["a"]))]
  }

  // The message is drained ...
  lemma {:induction false} DrainOne(s1: Stage<string>, s2: Stage<string>, s3: Stage<string>)
    requires s1 == START.(stopping := true)
    requires s2 == s1.(queue := ["a"], accepted := ["a"], offered := 1)
    requires s3 == s2.(queue := [], phase := FinalFlush, pending := [Batch("a", ["a"])])
    ensures Step(START, Itself, StopAsked) == s1 && Step(s1, Itself, Offered("a")) == s2
    ensures Step(s2, Itself, TimedOut) == s3
  {
    hide GroupBy;
    OneBatch("a");
    assert MoveAll(s2).buffer == ["a"];
  }

  // ... and its write ends after another has come.
  lemma {:induction false} EndOne(s3: Stage<string>, s4: Stage<string>, s5: Stage<string>)
    requires s3.pending == [Batch("a", ["a"])] && s3.phase == FinalFlush && s3.saved == [] && s3.written == 0
    requires s3.failed == multiset{} && s3.queue == [] && s3.accepted == ["a"] && s3.offered == 1 && s3.limits == Limits(1000, 5000, 100)
    requires s4 == s3.(queue := ["b"], accepted := ["a", "b"], offered := 2)
    requires s5 == s4.(pending := [], phase := Done, saved := ["a"], written := 1)
    ensures Step(s3, Itself, Offered("b")) == s4 && Step(s4, Itself, BatchEnded(Kept(["a"]))) == s5
    ensures Enabled(s4, BatchEnded(Kept(["a"])))
  {
    hide GroupBy, LoopHead;
    SubseqRefl(["a"]);
    assert multiset(["a"]) - multiset(["a"]) == multiset{};
  }

  /** The shortest run that loses a message without a trace. */
  lemma {:induction false} OneIsLost()
    ensures Possible(START, Itself, LosingRun())
    ensures var s := Run(START, Itself, LosingRun());
            && s.phase == Done && s.failed == multiset{} && s.queueDropped == 0
            && s.accepted == ["a", "b"] && s.saved == ["a"] && s.queue == ["b"]
  {
    hide Step, Run, Possible;
    var s1 := START.(stopping := true);
    var s2 := s1.(queue := ["a"], accepted := ["a"], offered := 1);
    var s3 := s2.(queue := [], phase := FinalFlush, pending := [Batch("a", ["a"])]);
    var s4 := s3.(queue := ["b"], accepted := ["a", "b"], offered := 2);
    var s5 := s4.(pending := [], phase := Done, saved := ["a"], written := 1);
    DrainOne(s1, s2, s3);
    EndOne(s3, s4, s5);
    var es := LosingRun();
    NoSteps(START, Itself);
    RunSnoc(START, Itself, [], es[0]);
    assert [] + [es[0]] == es[..1] && es[..1] + [es[1]] == es[..2] && es[..2] + [es[2]] == es[..3];
    assert es[..3] + [es[3]] == es[..4] && es[..4] + [es[4]] == es;
    RunSnoc(START, Itself, es[..1], es[1]);
    RunSnoc(START, Itself, es[..2], es[2]);
    RunSnoc(START, Itself, es[..3], es[3]);
    RunSnoc(START, Itself, es[..4], es[4]);
  }

  lemma {:induction false} NoSteps<T>(s: Stage<T>, key: T -> string)
    ensures Possible(s, key, []) && Run(s, key, []) == s
  {
  }

  lemma {:induction false} RunSnoc<T>(s: Stage<T>, key: T -> string, events: seq<Event<T>>, e: Event<T>)
    requires Possible(s, key, events) && Enabled(Run(s, key, events), e)
    ensures Possible(s, key, events + [e]) && Run(s, key, events + [e]) == Step(Run(s, key, events), key, e)
  {
    assert (events + [e])[..|events|] == events;
  }

  lemma {:induction false} OneBatch(x: string)
    ensures GroupBy([x], Itself) == [Batch(x, [x])]
  {
    assert FirstKeys([x], Itself) == [x] by { assert [x][..0] == []; }
    assert Select([x], Itself, x) == [x] by { assert [x][1..] == []; }
  }

  lemma {:induction false} RunFromInv<T(!new)>(s: Stage<T>, key: T -> string, events: seq<Event<T>>)
    requires Inv(s, key) && Possible(s, key, events)
    ensures Inv(Run(s, key, events), key)
  {
    if events != [] {
      RunFromInv(s, key, events[..|events| - 1]);
      StepInv(Run(s, key, events[..|events| - 1]), key, events[|events| - 1]);
    }
  }

  lemma {:induction false} SavedWasReceived<T>(s: Stage<T>, x: T)
    requires Conserved(s) && QueueIsTail(s) && x in s.saved
    ensures x in Received(s)
  {
    ReceivedConserved(s);
    assert x in s.saved + Items(s.pending) + s.buffer;
    assert x in multiset(Received(s));
  }

  /** At every reachable state, what was saved for a key is an order-preserving selection of what
      was accepted for it. */
  lemma {:induction false} SavedInOrder<T>(s: Stage<T>, key: T -> string, k: string)
    requires Inv(s, key)
    ensures Subseq(Select(s.saved, key, k), Select(s.accepted, key, k))
  {
    hide Conserved, Counted, Shaped;
    var later := Items(s.pending) + s.buffer + s.queue;
    assert Alive(s) == s.saved + later && s.saved + [] == s.saved;
    SubseqRefl(s.saved);
    SubseqNil(later);
    SubseqConcat(s.saved, [], s.saved, later);
    SubseqSelect(s.saved, Alive(s), key, k);
    SubseqTrans(Select(s.saved, key, k), Select(Alive(s), key, k), Select(s.accepted, key, k));
  }

  // Among equal multisets, being a subsequence for a key is being equal for it.
  lemma {:induction false} SameSizeSelection<T>(xs: seq<T>, ys: seq<T>, key: T -> string, k: string)
    requires multiset(xs) == multiset(ys) && Subseq(Select(xs, key, k), Select(ys, key, k))
    ensures Select(xs, key, k) == Select(ys, key, k)
  {
    forall x | x in Select(ys, key, k)
      ensures multiset(Select(xs, key, k))[x] == multiset(Select(ys, key, k))[x]
    {
      SelectIn(ys, key, k);
      SelectMultiplicity(xs, key, x);
      SelectMultiplicity(ys, key, x);
    }
    SubseqLength(Select(xs, key, k), Select(ys, key, k));
    assert multiset(Select(ys, key, k)) <= multiset(Select(xs, key, k));
    assert multiset(Select(xs, key, k)) == multiset(Select(ys, key, k));
    assert |multiset(Select(xs, key, k))| == |multiset(Select(ys, key, k))|;
  }

  // ----- stopping ends -----

  function Remaining<T>(s: Stage<T>): nat {
    match s.phase
    case Waiting => |s.queue| + |s.buffer| + 2
    case Flushing => |s.pending| + |s.queue| + 1
    case FinalFlush => |s.pending|
    case Done => 0
  }

  lemma {:induction false} NoMoreKeysThanItems<T>(xs: seq<T>, key: T -> string)
    ensures |FirstKeys(xs, key)| <= |xs|
  {
    if xs != [] {
      NoMoreKeysThanItems(xs[..|xs| - 1], key);
    }
  }

  /** Once a stop is asked for and no producer is left, some step is possible until the stage is
      done, and every step brings it nearer, so draining terminates. */
  lemma {:induction false} StoppingEnds<T(!new)>(s: Stage<T>, key: T -> string)
    requires Inv(s, key) && s.stopping
    ensures s.phase != Done ==> Enabled(s, TimedOut) || exists o :: Enabled(s, BatchEnded(o))
    ensures forall e: Event<T> :: Enabled(s, e) && !e.Offered? && !e.StopAsked? ==> Remaining(Step(s, key, e)) < Remaining(s)
  {
    if s.pending != [] {
      SubseqRefl(s.pending[0].items);
      assert Enabled(s, BatchEnded(Kept(s.pending[0].items)));
    }
    forall e: Event<T> | Enabled(s, e) && !e.Offered? && !e.StopAsked?
      ensures Remaining(Step(s, key, e)) < Remaining(s)
    {
      StepBringsNearer(s, key, e);
    }
  }

  lemma {:induction false} DrainIsShort<T>(s: Stage<T>, key: T -> string)
    requires s.stopping
    ensures Remaining(LoopHead(s, key)) <= |s.buffer| + |s.queue|
  {
    hide FirstKeys, Select;
    NoMoreKeysThanItems(MoveAll(s).buffer, key);
  }

  lemma {:induction false} TakeBringsNearer<T>(s: Stage<T>, key: T -> string)
    requires s.phase == Waiting && s.stopping && s.queue != []
    ensures Remaining(Take(s, key)) < Remaining(s)
  {
    NoMoreKeysThanItems(MoveOne(s).buffer, key);
    DrainIsShort(MoveOne(s), key);
  }

  lemma {:induction false} IdleBringsNearer<T>(s: Stage<T>, key: T -> string)
    requires s.phase == Waiting && s.stopping
    ensures Remaining(Idle(s, key)) < Remaining(s)
  {
    NoMoreKeysThanItems(s.buffer, key);
    DrainIsShort(s, key);
  }

  lemma {:induction false} BatchEndBringsNearer<T>(s: Stage<T>, key: T -> string, o: Outcome<T>)
    requires Shaped(s, key) && s.stopping && s.pending != []
    ensures Remaining(AfterBatch(EndBatch(s, o), key)) < Remaining(s)
  {
    var s1 := EndBatch(s, o);
    assert s1.buffer == [] && s1.queue == s.queue && |s1.pending| == |s.pending| - 1;
    if s1.pending == [] && s1.phase != FinalFlush {
      DrainIsShort(s1, key);
    }
  }

  lemma {:induction false} StepBringsNearer<T>(s: Stage<T>, key: T -> string, e: Event<T>)
    requires Shaped(s, key) && s.stopping && Enabled(s, e) && !e.Offered? && !e.StopAsked?
    ensures Remaining(Step(s, key, e)) < Remaining(s)
  {
    match e
    case Taken => TakeBringsNearer(s, key);
    case TimedOut => IdleBringsNearer(s, key);
    case BatchEnded(o) => BatchEndBringsNearer(s, key, o);
  }
}
