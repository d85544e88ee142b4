/** `LoginRateLimiter` of sylo/webapp/auth.py. The clock is a parameter of every call; the lock
    makes each call one step. */
module RateLimiter {
  import opened Wrappers

  datatype Limits = Limits(maxAttempts: int, window: real, lockout: real)

  function Kept(t: real, now: real, window: real): (r: seq<real>)
    ensures |r| <= 1
  {
    if now - t < window then [t] else []
  }

  function Recent(times: seq<real>, now: real, window: real): (r: seq<real>)
    ensures |r| <= |times|
  {
    if times == [] then [] else Kept(times[0], now, window) + Recent(times[1..], now, window)
  }

  lemma {:induction false} RecentCons(times: seq<real>, now: real, window: real)
    requires times != []
    ensures Recent(times, now, window) == Kept(times[0], now, window) + Recent(times[1..], now, window)
  {
  }

  lemma {:induction false} RecentConcat(a: seq<real>, b: seq<real>, now: real, window: real)
    ensures Recent(a + b, now, window) == Recent(a, now, window) + Recent(b, now, window)
  {
    if a == [] {
      assert a + b == b;
    } else {
      hide Kept, Recent;
      assert (a + b)[1..] == a[1..] + b;
      RecentCons(a + b, now, window);
      RecentCons(a, now, window);
      RecentConcat(a[1..], b, now, window);
      var k, r, t := Kept(a[0], now, window), Recent(a[1..], now, window), Recent(b, now, window);
      assert k + (r + t) == (k + r) + t;
    }
  }

  /** Exactly the times less than a window ago, each where it was: what is true of one time is true of
      any list of them, part by part. */
  lemma {:induction false} RecentExactly(a: seq<real>, b: seq<real>, t: real, now: real, window: real)
    ensures Recent(a + b, now, window) == Recent(a, now, window) + Recent(b, now, window)
    ensures Recent([t], now, window) == if now < t + window then [t] else []
  {
    RecentConcat(a, b, now, window);
    OneRecent(t, now, window);
  }

  lemma {:induction false} OneRecent(t: real, now: real, window: real)
    ensures Recent([t], now, window) == Kept(t, now, window)
  {
    hide Kept;
    assert [t][1..] == [];
    assert Kept(t, now, window) + [] == Kept(t, now, window);
  }

  // What the limiter knows about one key.
  datatype Entry = Entry(attempts: seq<real>, lockedUntil: Option<real>)

  const NO_ENTRY := Entry([], None)

  predicate Locked(e: Entry, now: real) {
    e.lockedUntil.Some? && now < e.lockedUntil.value
  }

  function Checked(e: Entry, now: real): Entry {
    if e.lockedUntil.Some? && e.lockedUntil.value <= now then e.(lockedUntil := None) else e
  }

  function Failed(e: Entry, now: real, limits: Limits): Entry {
    var attempts := Recent(e.attempts, now, limits.window) + [now];
    if |attempts| >= limits.maxAttempts then Entry([], Some(now + limits.lockout)) else e.(attempts := attempts)
  }

  class LoginRateLimiter {
    const limits: Limits
    var attempts: map<string, seq<real>>
    var lockedUntil: map<string, real>

    constructor (limits: Limits)
      ensures this.limits == limits && forall key :: Of(key) == NO_ENTRY
    {
      this.limits, attempts, lockedUntil := limits, map[], map[];
    }

    function Of(key: string): Entry
      reads this
    {
      Entry(if key in attempts then attempts[key] else [],
            if key in lockedUntil then Some(lockedUntil[key]) else None)
    }

    method IsLocked(key: string, now: real) returns (locked: bool)
      modifies this
      ensures locked == Locked(old(Of(key)), now)
      ensures Of(key) == Checked(old(Of(key)), now)
      ensures locked ==> Of(key) == old(Of(key))
      ensures !locked ==> Of(key) == Entry(old(Of(key)).attempts, None)
      ensures forall k :: k != key ==> Of(k) == old(Of(k))
    {
      if key !in lockedUntil {
        return false;
      }
      if lockedUntil[key] <= now {
        lockedUntil := lockedUntil - {key};
        return false;
      }
      locked := true;
    }

    // The list comprehension over the stored times.
    method StillRecent(key: string, now: real) returns (recent: seq<real>)
      ensures recent == Recent(Of(key).attempts, now, limits.window)
    {
      var earlier := if key in attempts then attempts[key] else [];
      recent := [];
      for i := 0 to |earlier|
        invariant recent == Recent(earlier[..i], now, limits.window)
      {
        RecentSnoc(earlier[..i], earlier[i], now, limits.window);
        assert earlier[..i + 1] == earlier[..i] + [earlier[i]];
        if now - earlier[i] < limits.window {
          recent := recent + [earlier[i]];
        }
      }
      assert earlier[..|earlier|] == earlier;
    }

    method RecordFailure(key: string, now: real)
      modifies this
      ensures Of(key) == Failed(old(Of(key)), now, limits)
      ensures forall k :: k != key ==> Of(k) == old(Of(k))
    {
      hide Recent;
      var recent := StillRecent(key, now);
      recent := recent + [now];
      if |recent| >= limits.maxAttempts {
        lockedUntil := lockedUntil[key := now + limits.lockout];
        recent := [];
      }
      attempts := attempts[key := recent];
    }

    method RecordSuccess(key: string)
      modifies this
      ensures Of(key) == NO_ENTRY
      ensures forall k :: k != key ==> Of(k) == old(Of(k))
    {
      attempts := attempts - {key};
      lockedUntil := lockedUntil - {key};
    }
  }

  // ----- one key over its whole history -----

  datatype Call = Check(now: real) | Failure(now: real) | Success

  function Apply(e: Entry, c: Call, limits: Limits): Entry {
    match c
    case Check(now) => Checked(e, now)
    case Failure(now) => Failed(e, now, limits)
    case Success => NO_ENTRY
  }

  function Run(calls: seq<Call>, limits: Limits): Entry {
    if calls == [] then NO_ENTRY else Apply(Run(calls[..|calls| - 1], limits), calls[|calls| - 1], limits)
  }

  /** The simple statement: the limiter keeps all failures since the last success or lockout, and
      a failure locks when those within the window, itself included, reach the maximum. */
  datatype Simple = Simple(failures: seq<real>, lockedUntil: Option<real>)

  function SimpleRun(calls: seq<Call>, limits: Limits): Simple {
    if calls == [] then Simple([], None) else
      var s := SimpleRun(calls[..|calls| - 1], limits);
      match calls[|calls| - 1]
      case Check(now) => s
      case Failure(now) =>
        if |Recent(s.failures, now, limits.window)| + 1 >= limits.maxAttempts then Simple([], Some(now + limits.lockout))
        else s.(failures := s.failures + [now])
      case Success => Simple([], None)
  }

  predicate SimplyLocked(s: Simple, now: real) {
    s.lockedUntil.Some? && now < s.lockedUntil.value
  }

  function Time(c: Call): real {
    match c case Check(now) => now case Failure(now) => now case Success => 0.0
  }

  // The clock does not run backwards.
  ghost predicate Clocked(calls: seq<Call>) {
    forall i, j :: 0 <= i < j < |calls| && !calls[i].Success? && !calls[j].Success? ==> Time(calls[i]) <= Time(calls[j])
  }

  ghost predicate NotAfter(calls: seq<Call>, now: real) {
    forall i :: 0 <= i < |calls| && !calls[i].Success? ==> Time(calls[i]) <= now
  }

  // ----- pruning -----

  lemma {:induction false} RecentSnoc(times: seq<real>, t: real, now: real, window: real)
    ensures Recent(times + [t], now, window) == Recent(times, now, window) + if now - t < window then [t] else []
  {
    RecentConcat(times, [t], now, window);
    OneRecent(t, now, window);
  }

  /** Pruning at an earlier time loses nothing that a later pruning would keep. */
  lemma {:induction false} RecentOfRecent(times: seq<real>, earlier: real, now: real, window: real)
    requires earlier <= now
    ensures Recent(Recent(times, earlier, window), now, window) == Recent(times, now, window)
  {
    if times != [] {
      RecentOfRecent(times[1..], earlier, now, window);
      var rest := Recent(times[1..], earlier, window);
      assert ([times[0]] + rest)[1..] == rest;
      assert [] + rest == rest;
    }
  }

  // For every moment from the last call on, the stored list and the full one agree on what is recent.
  ghost predicate Agree(e: Entry, s: Simple, limits: Limits, last: real) {
    && (forall now :: now >= last ==> Recent(e.attempts, now, limits.window) == Recent(s.failures, now, limits.window))
    && (forall now :: now >= last ==> (Locked(e, now) <==> SimplyLocked(s, now)))
    && (limits.maxAttempts >= 1 ==> |e.attempts| < limits.maxAttempts)
  }

  lemma {:induction false} FailureAgrees(e: Entry, s: Simple, limits: Limits, last: real, now: real)
    requires Agree(e, s, limits, last) && last <= now
    ensures forall later :: later >= now ==>
              Recent(Recent(e.attempts, now, limits.window) + [now], later, limits.window) == Recent(s.failures + [now], later, limits.window)
  {
    forall later | later >= now
      ensures Recent(Recent(e.attempts, now, limits.window) + [now], later, limits.window) == Recent(s.failures + [now], later, limits.window)
    {
      RecentSnoc(Recent(e.attempts, now, limits.window), now, later, limits.window);
      RecentSnoc(s.failures, now, later, limits.window);
      RecentOfRecent(e.attempts, now, later, limits.window);
    }
  }

  /** Refinement: under a clock that does not run backwards, the pruned lists decide exactly as the
      full history would, at every moment from the last call on, and stay below the maximum. */
  lemma {:induction false} PruningDecidesTheSame(calls: seq<Call>, limits: Limits, last: real)
    requires Clocked(calls) && NotAfter(calls, last)
    ensures Agree(Run(calls, limits), SimpleRun(calls, limits), limits, last)
  {
    if calls != [] {
      var before, c := calls[..|calls| - 1], calls[|calls| - 1];
      var t := if c.Success? then last else Time(c);
      assert NotAfter(before, t) && t <= last by {
        forall i | 0 <= i < |before| && !before[i].Success? ensures Time(before[i]) <= t {
          assert before[i] == calls[i];
        }
      }
      PruningDecidesTheSame(before, limits, t);
      var e, s := Run(before, limits), SimpleRun(before, limits);
      var e', s' := Run(calls, limits), SimpleRun(calls, limits);
      if c.Failure? {
        FailureAgrees(e, s, limits, t, c.now);
      }
      forall now | now >= last ensures Locked(e', now) <==> SimplyLocked(s', now) {
        assert Locked(e, now) <==> SimplyLocked(s, now);
      }
    }
  }

  // ----- how many failures get through -----

  /** The login route asks whether the key is locked, checks the password, and records the failure.
      The limiter's own lock is held in the first and the last step but not between them, so other
      requests for the key may come in between. */
  datatype Turn = Begin(now: real) | End(now: real)

  /** One key: what the limiter knows of it, how many requests were let through and have not failed
      yet, and when the others failed. */
  datatype Login = Login(entry: Entry, inFlight: nat, failures: seq<real>)

  const NO_LOGIN := Login(NO_ENTRY, 0, [])

  function Proceed(l: Login, turn: Turn, limits: Limits): Login {
    match turn
    case Begin(now) =>
      Login(Checked(l.entry, now), if Locked(l.entry, now) then l.inFlight else l.inFlight + 1, l.failures)
    case End(now) =>
      if l.inFlight == 0 then l else Login(Failed(l.entry, now, limits), l.inFlight - 1, l.failures + [now])
  }

  function Logins(turns: seq<Turn>, limits: Limits): Login {
    if turns == [] then NO_LOGIN else Proceed(Logins(turns[..|turns| - 1], limits), turns[|turns| - 1], limits)
  }

  // Only a request that was let through can fail, and never are more than k under way at once.
  ghost predicate Orderly(turns: seq<Turn>, limits: Limits, k: nat) {
    turns == [] ||
    var n := |turns| - 1;
    && Orderly(turns[..n], limits, k)
    && (turns[n].End? ==> Logins(turns[..n], limits).inFlight > 0)
    && Logins(turns, limits).inFlight <= k
  }

  ghost predicate InTurn(turns: seq<Turn>) {
    forall i, j :: 0 <= i < j < |turns| ==> turns[i].now <= turns[j].now
  }

  ghost predicate Increasing(times: seq<real>) {
    forall i, j :: 0 <= i < j < |times| ==> times[i] <= times[j]
  }

  ghost predicate Upto(times: seq<real>, now: real) {
    forall i :: 0 <= i < |times| ==> times[i] <= now
  }

  // No more than n of them within less than a window.
  ghost predicate Spread(failures: seq<real>, n: nat, window: real) {
    forall i, j :: 0 <= i && j == i + n < |failures| ==> failures[i] + window <= failures[j]
  }

  // The stored failures are the last ones recorded. The ones before them are out of the window,
  // or will be when the lockout ends.
  ghost predicate Closed(failures: seq<real>, e: Entry, limits: Limits, now: real) {
    var n := |failures| - |e.attempts|;
    && n >= 0 && e.attempts == failures[n..] && |e.attempts| < limits.maxAttempts
    && forall i :: 0 <= i < n ==>
         || failures[i] + limits.window <= now
         || (e.lockedUntil.Some? && failures[i] + limits.window <= e.lockedUntil.value)
  }

  // From any failure still within the window on, those recorded and those that may yet be.
  ghost predicate Bounded(l: Login, limits: Limits, k: nat, now: real) {
    forall i :: 0 <= i < |l.failures| && l.failures[i] + limits.window > now ==>
      |l.failures| - i + l.inFlight <= limits.maxAttempts + k - 1
  }

  ghost predicate LoginInv(l: Login, limits: Limits, k: nat, now: real)
    requires limits.maxAttempts >= 1
  {
    && Increasing(l.failures) && Upto(l.failures, now) && Closed(l.failures, l.entry, limits, now)
    && l.inFlight <= k && Bounded(l, limits, k, now) && (k >= 1 ==> Spread(l.failures, limits.maxAttempts + k - 1, limits.window))
  }

  lemma {:induction false} RecentIsSuffix(times: seq<real>, now: real, window: real) returns (j: nat)
    requires Increasing(times)
    ensures j <= |times| && Recent(times, now, window) == times[j..]
    ensures forall i :: 0 <= i < j ==> times[i] + window <= now
  {
    j := 0;
    if times != [] {
      if now - times[0] < window {
        RecentKeepsAll(times, now, window);
      } else {
        var k := RecentIsSuffix(times[1..], now, window);
        j := k + 1;
        assert times[1..][k..] == times[j..];
        assert [] + Recent(times[1..], now, window) == Recent(times[1..], now, window);
      }
    }
  }

  lemma {:induction false} RecentKeepsAll(times: seq<real>, now: real, window: real)
    requires Increasing(times) && (times != [] ==> now - times[0] < window)
    ensures Recent(times, now, window) == times
  {
    if times != [] {
      RecentKeepsAll(times[1..], now, window);
    }
  }

  lemma {:induction false} CheckCloses(failures: seq<real>, e: Entry, limits: Limits, now: real, t: real)
    requires Closed(failures, e, limits, now) && now <= t
    ensures Closed(failures, Checked(e, t), limits, t)
  {
  }

  lemma {:induction false} FailureCloses(failures: seq<real>, e: Entry, limits: Limits, now: real, t: real)
    requires limits.maxAttempts >= 1 && limits.lockout >= limits.window
    requires Increasing(failures) && Upto(failures, t) && Closed(failures, e, limits, now) && now <= t
    ensures Closed(failures + [t], Failed(e, t, limits), limits, t)
  {
    hide Recent;
    var n := |failures| - |e.attempts|;
    var e' := Failed(e, t, limits);
    var j := RecentIsSuffix(e.attempts, t, limits.window);
    assert e.attempts[j..] == failures[n + j..];
    assert forall i :: n <= i < n + j ==> failures[i] == e.attempts[i - n];
    var failures' := failures + [t];
    if e'.attempts == [] {
      assert failures'[|failures'|..] == [];
    } else {
      assert failures'[n + j..] == failures[n + j..] + [t];
    }
  }

  // A request is let through only if the failures still within the window are fewer than maxAttempts.
  lemma {:induction false} BeginBounded(l: Login, limits: Limits, k: nat, now: real, t: real)
    requires limits.maxAttempts >= 1 && LoginInv(l, limits, k, now) && now <= t
    requires !Locked(l.entry, t) && l.inFlight < k
    ensures Bounded(l.(inFlight := l.inFlight + 1), limits, k, t)
  {
    forall i | 0 <= i < |l.failures| && l.failures[i] + limits.window > t
      ensures |l.failures| - i + (l.inFlight + 1) <= limits.maxAttempts + k - 1
    {
      assert i >= |l.failures| - |l.entry.attempts|;
    }
  }

  lemma {:induction false} EndSpreads(l: Login, limits: Limits, k: nat, now: real, t: real)
    requires limits.maxAttempts >= 1 && LoginInv(l, limits, k, now) && now <= t && l.inFlight > 0
    ensures var failures := l.failures + [t];
            && Increasing(failures) && Upto(failures, t) && Spread(failures, limits.maxAttempts + k - 1, limits.window)
            && Bounded(Login(l.entry, l.inFlight - 1, failures), limits, k, t)
  {
    hide Closed;
    var failures, n := l.failures + [t], limits.maxAttempts + k - 1;
    forall i, j | 0 <= i && j == i + n < |failures| ensures failures[i] + limits.window <= failures[j] {
      if j == |l.failures| {
        assert failures[i] == l.failures[i];
      }
    }
    forall i | 0 <= i < |failures| && failures[i] + limits.window > t
      ensures |failures| - i + (l.inFlight - 1) <= n
    {
      if i < |l.failures| {
        assert failures[i] == l.failures[i];
      }
    }
  }

  lemma {:induction false} TurnKeepsInv(l: Login, turn: Turn, limits: Limits, k: nat, now: real)
    requires limits.maxAttempts >= 1 && limits.lockout >= limits.window
    requires LoginInv(l, limits, k, now) && now <= turn.now
    requires (turn.End? ==> l.inFlight > 0) && Proceed(l, turn, limits).inFlight <= k
    ensures LoginInv(Proceed(l, turn, limits), limits, k, turn.now)
  {
    hide Closed, Spread, Recent;
    match turn
    case Begin(t) =>
      CheckCloses(l.failures, l.entry, limits, now, t);
      if !Locked(l.entry, t) {
        BeginBounded(l, limits, k, now, t);
      }
    case End(t) =>
      FailureCloses(l.failures, l.entry, limits, now, t);
      EndSpreads(l, limits, k, now, t);
  }

  lemma {:induction false} NoLoginInv(limits: Limits, k: nat, now: real)
    requires limits.maxAttempts >= 1
    ensures LoginInv(NO_LOGIN, limits, k, now)
  {
  }

  lemma {:induction false} LoginsKeepInv(turns: seq<Turn>, limits: Limits, k: nat, now: real)
    requires limits.maxAttempts >= 1 && limits.lockout >= limits.window
    requires InTurn(turns) && Orderly(turns, limits, k) && (turns != [] ==> turns[|turns| - 1].now == now)
    ensures LoginInv(Logins(turns, limits), limits, k, now)
  {
    hide LoginInv, Proceed;
    if turns == [] {
      NoLoginInv(limits, k, now);
    } else {
      var n := |turns| - 1;
      var before := if n == 0 then now else turns[n - 1].now;
      LoginsKeepInv(turns[..n], limits, k, before);
      TurnKeepsInv(Logins(turns[..n], limits), turns[n], limits, k, before);
    }
  }

  /** When a lockout lasts at least a window, as by default, then of any failed logins for one key, of
      which at most k are under way at once, at most maxAttempts + k - 1 are recorded within less
      than a window; maxAttempts if they are made one after the other. */
  lemma {:induction false} AtMostMaxAttemptsPerWindow(turns: seq<Turn>, limits: Limits, k: nat, i: nat)
    requires limits.maxAttempts >= 1 && limits.lockout >= limits.window && k >= 1
    requires InTurn(turns) && Orderly(turns, limits, k)
    requires i + limits.maxAttempts + k - 1 < |Logins(turns, limits).failures|
    ensures var f := Logins(turns, limits).failures; f[i + limits.maxAttempts + k - 1] - f[i] >= limits.window
  {
    hide Closed, Orderly, Bounded;
    var now := if turns == [] then 0.0 else turns[|turns| - 1].now;
    LoginsKeepInv(turns, limits, k, now);
  }

  // ----- and that the bound is tight -----

  function Zeros(n: nat): (z: seq<real>)
    ensures |z| == n && forall i :: 0 <= i < n ==> z[i] == 0.0
  {
    seq(n, _ => 0.0)
  }

  lemma {:induction false} ZerosAreRecent(n: nat, window: real)
    requires window > 0.0
    ensures Recent(Zeros(n), 0.0, window) == Zeros(n)
  {
    RecentKeepsAll(Zeros(n), 0.0, window);
  }

  lemma {:induction false} OneMoreTurn(turns: seq<Turn>, turn: Turn, limits: Limits, k: nat)
    ensures Logins(turns + [turn], limits) == Proceed(Logins(turns, limits), turn, limits)
    ensures var l := Logins(turns, limits);
            (Orderly(turns, limits, k) && (turn.End? ==> l.inFlight > 0) && Proceed(l, turn, limits).inFlight <= k)
            ==> Orderly(turns + [turn], limits, k)
  {
    hide Proceed;
    assert (turns + [turn])[..|turns|] == turns;
  }

  ghost predicate AtZero(turns: seq<Turn>) {
    forall i :: 0 <= i < |turns| ==> turns[i].now == 0.0
  }

  // One failed login after the other, one fewer than it takes to lock.
  lemma {:induction false} OneByOne(n: nat, limits: Limits, k: nat) returns (turns: seq<Turn>)
    requires n < limits.maxAttempts && limits.window > 0.0 && k >= 1
    ensures AtZero(turns) && Orderly(turns, limits, k)
    ensures Logins(turns, limits) == Login(Entry(Zeros(n), None), 0, Zeros(n))
  {
    hide Recent, Orderly, Logins;
    turns := [];
    if n == 0 {
      NoTurns(limits, k);
      assert Zeros(0) == [];
    } else {
      turns := OneByOne(n - 1, limits, k);
      OneMoreTurn(turns, Begin(0.0), limits, k);
      turns := turns + [Begin(0.0)];
      OneMoreTurn(turns, End(0.0), limits, k);
      turns := turns + [End(0.0)];
      ZerosAreRecent(n - 1, limits.window);
      assert Zeros(n - 1) + [0.0] == Zeros(n);
    }
  }

  lemma {:induction false} NoTurns(limits: Limits, k: nat)
    ensures Logins([], limits) == NO_LOGIN && Orderly([], limits, k)
  {
  }

  // Then k requests are let through ...
  lemma {:induction false} Crowd(j: nat, limits: Limits, k: nat) returns (turns: seq<Turn>)
    requires limits.maxAttempts >= 1 && limits.window > 0.0 && j <= k && k >= 1
    ensures AtZero(turns) && Orderly(turns, limits, k)
    ensures var n := limits.maxAttempts - 1; Logins(turns, limits) == Login(Entry(Zeros(n), None), j, Zeros(n))
  {
    hide Recent, Orderly, Logins;
    if j == 0 {
      turns := OneByOne(limits.maxAttempts - 1, limits, k);
    } else {
      turns := Crowd(j - 1, limits, k);
      OneMoreTurn(turns, Begin(0.0), limits, k);
      turns := turns + [Begin(0.0)];
    }
  }

  // ... and all fail, the first of them locking.
  lemma {:induction false} CrowdFails(j: nat, limits: Limits, k: nat) returns (turns: seq<Turn>)
    requires limits.maxAttempts >= 1 && limits.window > 0.0 && j <= k && k >= 1
    ensures AtZero(turns) && Orderly(turns, limits, k)
    ensures var l := Logins(turns, limits);
            && l.inFlight == k - j && l.failures == Zeros(limits.maxAttempts - 1 + j)
            && if j == 0 then l.entry == Entry(Zeros(limits.maxAttempts - 1), None) else l.entry.lockedUntil == Some(limits.lockout)
  {
    hide Recent, Orderly, Logins;
    if j == 0 {
      turns := Crowd(k, limits, k);
    } else {
      turns := CrowdFails(j - 1, limits, k);
      OneMoreTurn(turns, End(0.0), limits, k);
      turns := turns + [End(0.0)];
      ZerosAreRecent(limits.maxAttempts - 1, limits.window);
      assert Zeros(limits.maxAttempts - 1 + (j - 1)) + [0.0] == Zeros(limits.maxAttempts - 1 + j);
    }
  }

  /** The bound is reached, whatever the settings: as many failures at one moment. */
  lemma {:induction false} BoundIsReached(limits: Limits, k: nat) returns (turns: seq<Turn>)
    requires limits.maxAttempts >= 1 && limits.window > 0.0 && k >= 1
    ensures InTurn(turns) && Orderly(turns, limits, k)
    ensures Logins(turns, limits).failures == Zeros(limits.maxAttempts + k - 1)
  {
    hide Orderly, Logins;
    turns := CrowdFails(k, limits, k);
  }

  // After a lockout shorter than a window, one failure too many within the window.
  lemma {:induction false} ShortLockoutLetsOneMoreThrough(limits: Limits, k: nat)
    requires limits.maxAttempts >= 1 && limits.window > 0.0 && limits.lockout < limits.window && k >= 1
    ensures !Throttles(limits, k)
  {
    hide Recent, Orderly, Logins;
    var t := if limits.lockout > 0.0 then limits.lockout else 0.0;
    var turns := CrowdFails(k, limits, k);
    OneMoreTurn(turns, Begin(t), limits, k);
    var turns1 := turns + [Begin(t)];
    OneMoreTurn(turns1, End(t), limits, k);
    var turns2 := turns1 + [End(t)];
    var n := limits.maxAttempts + k - 1;
    var f := Logins(turns2, limits).failures;
    assert f == Zeros(n) + [t];
    assert f[0] + limits.window > f[0 + n];
    assert InTurn(turns2) && Orderly(turns2, limits, k) && !Spread(f, n, limits.window);
  }

  // The promise: no more than maxAttempts + k - 1 failures in less than a window, whatever k
  // requests at a time do.
  ghost predicate Throttles(limits: Limits, k: nat)
    requires limits.maxAttempts >= 1 && k >= 1
  {
    forall turns: seq<Turn> :: InTurn(turns) && Orderly(turns, limits, k) ==>
      Spread(Logins(turns, limits).failures, limits.maxAttempts + k - 1, limits.window)
  }

  /** The promise holds exactly when a lockout lasts at least a window, as it does by default. */
  lemma {:induction false} ThrottlesExactly(limits: Limits, k: nat)
    requires limits.maxAttempts >= 1 && limits.window > 0.0 && k >= 1
    ensures Throttles(limits, k) <==> limits.lockout >= limits.window
  {
    hide Closed, Orderly, Logins, Spread, Bounded;
    if limits.lockout >= limits.window {
      forall turns: seq<Turn> | InTurn(turns) && Orderly(turns, limits, k)
        ensures Spread(Logins(turns, limits).failures, limits.maxAttempts + k - 1, limits.window)
      {
        LoginsKeepInv(turns, limits, k, if turns == [] then 0.0 else turns[|turns| - 1].now);
      }
    } else {
      ShortLockoutLetsOneMoreThrough(limits, k);
    }
  }
}
