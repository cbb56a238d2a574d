/** One upstream under load: queries overlap, and each does its atomic steps (a look at
    the breaker, one locked part of it, one atomic addition, one locked push of a
    sample) at any time after the one before. So a result may be recorded long after
    the breaker has tripped. */
module ClientRuns {
  import opened Prelude
  import opened Tallies
  import opened Breaker
  import opened Client

  /** How an exchange that was made has ended. */
  type Result = o: Outcome | !o.CircuitOpen? witness TimedOut

  /** What a query will do next. */
  datatype Phase =
    | AtLook
    | AtLock          // the look said open
    | TurnedAway
    | AtExchange
    | AtRequests
    | AtResult        // successes or failures
    | AtDetail        // the sample, or the timeout
    | AtBreaker
    | Finished

  datatype Worker = Worker(result: Result, phase: Phase)

  /** Counters, samples and breaker of the upstream, and what happened to the breaker. */
  datatype Upstate = Upstate(
    requests: nat, successes: nat, failures: nat, timeouts: nat, samples: seq<int>,
    breaker: Snapshot, events: seq<Event>)

  datatype Machine = Machine(up: Upstate, workers: seq<Worker>)

  datatype Move = Start(result: Result) | Advance(i: nat, now: int)

  function PhaseAfter(b: Snapshot, wk: Worker, now: int): Phase {
    match wk.phase
    case AtLook => if FastAllows(b) then AtExchange else AtLock
    case AtLock => if LockedAllows(b, now) then AtExchange else TurnedAway
    case TurnedAway => TurnedAway
    case AtExchange => AtRequests
    case AtRequests => AtResult
    case AtResult => AtDetail
    case AtDetail => AtBreaker
    case AtBreaker => Finished
    case Finished => Finished
  }

  /** The step of the breaker, if the query makes one. */
  function EventOf(wk: Worker, now: int): Option<Event> {
    match wk.phase
    case AtLook => Some(Look(now))
    case AtLock => Some(Locked(now))
    case AtBreaker => Some(if wk.result.Answered? then Success(now) else Failure(now))
    case _ => None
  }

  function UpAfter(up: Upstate, wk: Worker, now: int): Upstate {
    match wk.phase
    case AtRequests => up.(requests := up.requests + 1)
    case AtResult =>
      if wk.result.Answered? then up.(successes := up.successes + 1) else up.(failures := up.failures + 1)
    case AtDetail =>
      if wk.result.Answered? then up.(samples := up.samples + [Max(0, wk.result.latency)])
      else if wk.result.TimedOut? then up.(timeouts := up.timeouts + 1)
      else up
    case AtLook => up.(events := up.events + [Look(now)])
    case AtLock => up.(breaker := AfterLocked(up.breaker, now), events := up.events + [Locked(now)])
    case AtBreaker =>
      if wk.result.Answered? then up.(breaker := AfterSuccess(up.breaker), events := up.events + [Success(now)])
      else up.(breaker := AfterFailure(up.breaker, now), events := up.events + [Failure(now)])
    case _ => up
  }

  function Next(m: Machine, move: Move): Machine {
    match move
    case Start(result) => m.(workers := m.workers + [Worker(result, AtLook)])
    case Advance(i, now) =>
      if i >= |m.workers| then m
      else
        var wk := m.workers[i];
        Machine(UpAfter(m.up, wk, now), m.workers[i := wk.(phase := PhaseAfter(m.up.breaker, wk, now))])
  }

  const IDLE: Machine := Machine(Upstate(0, 0, 0, 0, [], FRESH, []), [])

  function RunFrom(m: Machine, moves: seq<Move>): Machine {
    if moves == [] then m else Next(RunFrom(m, moves[..|moves| - 1]), moves[|moves| - 1])
  }

  // ---------- the breaker of a run ----------

  ghost predicate FollowsEvents(up: Upstate) {
    up.breaker == Breaker.Run(up.events)
  }

  lemma EventPush(es: seq<Event>, e: Event)
    ensures Breaker.Run(es + [e]) == Breaker.Step(Breaker.Run(es), e)
    ensures Admissions(es + [e]) == Admissions(es) + (if Admits(Breaker.Run(es), e) then 1 else 0)
  {
    assert (es + [e])[..|es|] == es;
  }

  /** The requests a sequence of events lets through. */
  function Admissions(es: seq<Event>): nat {
    if es == [] then 0
    else
      var front := es[..|es| - 1];
      Admissions(front) + (if Admits(Breaker.Run(front), es[|es| - 1]) then 1 else 0)
  }

  lemma StepFollows(up: Upstate, wk: Worker, now: int)
    requires FollowsEvents(up)
    ensures FollowsEvents(UpAfter(up, wk, now))
  {
    if EventOf(wk, now).Some? {
      EventPush(up.events, EventOf(wk, now).value);
    }
    hide Breaker.Run, Admissions, AfterLocked, AfterSuccess, AfterFailure;
  }

  // ---------- what each counter counts ----------

  datatype Counter = Admitted | Requests | Successes | Failures | Results | Timeouts | Samples

  function Value(up: Upstate, k: Counter): nat {
    match k
    case Admitted => Admissions(up.events)
    case Requests => up.requests
    case Successes => up.successes
    case Failures => up.failures
    case Results => up.successes + up.failures
    case Timeouts => up.timeouts
    case Samples => |up.samples|
  }

  /** How many of its recording steps an admitted query has done. */
  function Recorded(p: Phase): int {
    match p
    case AtLook => -1
    case AtLock => -1
    case TurnedAway => -1
    case AtExchange => 0
    case AtRequests => 0
    case AtResult => 1
    case AtDetail => 2
    case AtBreaker => 3
    case Finished => 4
  }

  /** The query has been counted by `k`. */
  predicate Passed(wk: Worker, k: Counter) {
    var n := Recorded(wk.phase);
    match k
    case Admitted => n >= 0
    case Requests => n >= 1
    case Successes => n >= 2 && wk.result.Answered?
    case Failures => n >= 2 && !wk.result.Answered?
    case Results => n >= 2
    case Timeouts => n >= 3 && wk.result.TimedOut?
    case Samples => n >= 3 && wk.result.Answered?
  }

  function Marks(ws: seq<Worker>, k: Counter): (r: seq<bool>)
    ensures |r| == |ws|
  {
    seq(|ws|, i requires 0 <= i < |ws| => Passed(ws[i], k))
  }

  /** The number of queries counted by `k` so far. */
  function Tally(ws: seq<Worker>, k: Counter): nat {
    Number(Marks(ws, k))
  }

  /** The number of queries counted by `k` and not yet by `l`. */
  function Between(ws: seq<Worker>, k: Counter, l: Counter): nat {
    Number(Except(Marks(ws, k), Marks(ws, l)))
  }

  ghost predicate Inv(m: Machine) {
    FollowsEvents(m.up) && forall k :: Value(m.up, k) == Tally(m.workers, k)
  }

  /** The difference a step makes to a counter is the difference it makes to the mark. */
  ghost predicate Moves(up: Upstate, up': Upstate, wk: Worker, p: Phase, k: Counter) {
    Value(up', k) + (if Passed(wk, k) then 1 else 0)
    == Value(up, k) + (if Passed(wk.(phase := p), k) then 1 else 0)
  }

  lemma RecordingMoves(up: Upstate, wk: Worker, now: int, k: Counter)
    requires wk.phase.AtExchange? || wk.phase.AtRequests? || wk.phase.AtResult? || wk.phase.AtDetail?
    ensures Moves(up, UpAfter(up, wk, now), wk, PhaseAfter(up.breaker, wk, now), k)
  {
    hide Admissions, FastAllows, LockedAllows, AfterLocked, AfterSuccess, AfterFailure;
  }

  lemma BreakerMoves(up: Upstate, wk: Worker, now: int, k: Counter)
    requires FollowsEvents(up) && EventOf(wk, now).Some?
    ensures Moves(up, UpAfter(up, wk, now), wk, PhaseAfter(up.breaker, wk, now), k)
  {
    hide Breaker.Run, Breaker.Step, Admissions, FastAllows, LockedAllows, AfterLocked, AfterSuccess, AfterFailure;
    EventPush(up.events, EventOf(wk, now).value);
  }

  lemma StepCounts(up: Upstate, wk: Worker, now: int, k: Counter)
    requires FollowsEvents(up)
    ensures Moves(up, UpAfter(up, wk, now), wk, PhaseAfter(up.breaker, wk, now), k)
  {
    if EventOf(wk, now).Some? {
      BreakerMoves(up, wk, now, k);
    } else if !wk.phase.TurnedAway? && !wk.phase.Finished? {
      RecordingMoves(up, wk, now, k);
    }
    hide Value, Passed;
  }

  lemma NextInv(m: Machine, move: Move)
    requires Inv(m)
    ensures Inv(Next(m, move))
  {
    var m' := Next(m, move);
    hide Breaker.Run;
    forall k
      ensures Value(m'.up, k) == Tally(m'.workers, k)
    {
      assert Value(m.up, k) == Tally(m.workers, k);
      var marks := Marks(m.workers, k);
      hide Value, UpAfter, PhaseAfter, FollowsEvents;
      if move.Start? {
        NumberPush(marks, false);
        assert Marks(m'.workers, k) == marks + [false];
      } else if move.i < |m.workers| {
        StepCounts(m.up, m.workers[move.i], move.now, k);
        hide Passed;
        NumberUpdate(marks, move.i, Passed(m'.workers[move.i], k));
        assert Marks(m'.workers, k) == marks[move.i := Passed(m'.workers[move.i], k)];
      }
    }
    hide Value, Tally, FollowsEvents, UpAfter, PhaseAfter;
    if move.Advance? && move.i < |m.workers| {
      StepFollows(m.up, m.workers[move.i], move.now);
    }
  }

  /** In every state of every interleaving each counter is exactly the number of queries
      that have passed it, and the breaker is where its own events have taken it. */
  lemma {:induction false} CountersAreExact(moves: seq<Move>)
    ensures Inv(RunFrom(IDLE, moves))
    ensures forall k :: Value(RunFrom(IDLE, moves).up, k) == Tally(RunFrom(IDLE, moves).workers, k)
    ensures RunFrom(IDLE, moves).up.breaker == Breaker.Run(RunFrom(IDLE, moves).up.events)
  {
    if moves != [] {
      CountersAreExact(moves[..|moves| - 1]);
      NextInv(RunFrom(IDLE, moves[..|moves| - 1]), moves[|moves| - 1]);
    }
  }

  lemma TallyExcept(ws: seq<Worker>, k: Counter, l: Counter)
    requires forall i :: 0 <= i < |ws| && Passed(ws[i], l) ==> Passed(ws[i], k)
    ensures Tally(ws, k) == Tally(ws, l) + Between(ws, k, l)
  {
    hide Passed;
    NumberExcept(Marks(ws, k), Marks(ws, l));
  }

  /** In every reachable state: what the breaker has admitted is what is counted as a
      request and what is not yet; requests are successes, failures and those between;
      every success has its sample, or is about to; timeouts never exceed failures. */
  lemma Accounting(moves: seq<Move>)
    ensures var m := RunFrom(IDLE, moves);
            && Admissions(m.up.events) == m.up.requests + Between(m.workers, Admitted, Requests)
            && m.up.requests == m.up.successes + m.up.failures + Between(m.workers, Requests, Results)
            && m.up.successes == |m.up.samples| + Between(m.workers, Successes, Samples)
            && m.up.failures == m.up.timeouts + Between(m.workers, Failures, Timeouts)
  {
    CountersAreExact(moves);
    var m := RunFrom(IDLE, moves);
    TallyExcept(m.workers, Admitted, Requests);
    TallyExcept(m.workers, Requests, Results);
    TallyExcept(m.workers, Successes, Samples);
    TallyExcept(m.workers, Failures, Timeouts);
    hide Inv, RunFrom, Tally, Between, Admissions;
    assert Value(m.up, Admitted) == Tally(m.workers, Admitted) && Value(m.up, Requests) == Tally(m.workers, Requests);
    assert Value(m.up, Results) == Tally(m.workers, Results) && Value(m.up, Samples) == Tally(m.workers, Samples);
    assert Value(m.up, Successes) == Tally(m.workers, Successes);
    assert Value(m.up, Failures) == Tally(m.workers, Failures) && Value(m.up, Timeouts) == Tally(m.workers, Timeouts);
  }

  /** Every query was refused or has recorded everything. */
  ghost predicate AtRest(m: Machine) {
    forall i :: 0 <= i < |m.workers| ==> m.workers[i].phase.TurnedAway? || m.workers[i].phase.Finished?
  }

  /** The admitted queries that ended in a given way. */
  function Ended(ws: seq<Worker>, answered: bool, timedOut: bool): nat {
    Number(seq(|ws|, i requires 0 <= i < |ws| =>
      ws[i].phase.Finished? && ws[i].result.Answered? == answered && ws[i].result.TimedOut? == timedOut))
  }

  lemma NothingBetween(ws: seq<Worker>, k: Counter, l: Counter)
    requires forall i :: 0 <= i < |ws| ==> ws[i].phase.TurnedAway? || ws[i].phase.Finished?
    requires (k == Admitted && l == Requests) || (k == Requests && l == Results) || (k == Successes && l == Samples)
    ensures Between(ws, k, l) == 0
  {
    NumberExtremes(Except(Marks(ws, k), Marks(ws, l)));
  }

  /** At rest the requests are exactly the admitted queries, each is a success or a
      failure, and the timeouts are the queries that timed out; refusals count nowhere. */
  lemma AccountingAtRest(moves: seq<Move>)
    requires AtRest(RunFrom(IDLE, moves))
    ensures var m := RunFrom(IDLE, moves);
            && Admissions(m.up.events) == m.up.requests == m.up.successes + m.up.failures
            && m.up.successes == |m.up.samples| == Ended(m.workers, true, false)
            && m.up.timeouts == Ended(m.workers, false, true)
            && m.up.failures == m.up.timeouts + Ended(m.workers, false, false)
  {
    CountersAreExact(moves);
    Accounting(moves);
    var m := RunFrom(IDLE, moves);
    NothingBetween(m.workers, Admitted, Requests);
    NothingBetween(m.workers, Requests, Results);
    NothingBetween(m.workers, Successes, Samples);
    EndsAtRest(m.workers);
    hide Inv, RunFrom, Tally, Between, Admissions, Ended;
    assert Value(m.up, Successes) == Tally(m.workers, Successes);
    assert Value(m.up, Failures) == Tally(m.workers, Failures) && Value(m.up, Timeouts) == Tally(m.workers, Timeouts);
  }

  lemma EndsAtRest(ws: seq<Worker>)
    requires forall i :: 0 <= i < |ws| ==> ws[i].phase.TurnedAway? || ws[i].phase.Finished?
    ensures Tally(ws, Successes) == Ended(ws, true, false)
    ensures Tally(ws, Timeouts) == Ended(ws, false, true)
    ensures Between(ws, Failures, Timeouts) == Ended(ws, false, false)
  {
    assert Marks(ws, Successes) == seq(|ws|, i requires 0 <= i < |ws| =>
      ws[i].phase.Finished? && ws[i].result.Answered? == true && ws[i].result.TimedOut? == false);
    assert Marks(ws, Timeouts) == seq(|ws|, i requires 0 <= i < |ws| =>
      ws[i].phase.Finished? && ws[i].result.Answered? == false && ws[i].result.TimedOut? == true);
    assert Except(Marks(ws, Failures), Marks(ws, Timeouts)) == seq(|ws|, i requires 0 <= i < |ws| =>
      ws[i].phase.Finished? && ws[i].result.Answered? == false && ws[i].result.TimedOut? == false);
  }

  // ---------- the breaker's theorems for a run ----------

  /** The clock never goes back. */
  ghost predicate TimedMoves(moves: seq<Move>) {
    forall i, j :: 0 <= i <= j < |moves| && moves[i].Advance? && moves[j].Advance? ==> moves[i].now <= moves[j].now
  }

  ghost predicate IsReading(moves: seq<Move>, t: int) {
    exists i :: 0 <= i < |moves| && moves[i].Advance? && moves[i].now == t
  }

  lemma ReadingLater(moves: seq<Move>, t: int)
    requires moves != [] && IsReading(moves[..|moves| - 1], t)
    ensures IsReading(moves, t)
  {
    var i :| 0 <= i < |moves| - 1 && moves[..|moves| - 1][i].Advance? && moves[..|moves| - 1][i].now == t;
    assert moves[i].now == t;
  }

  /** The events of a breaker are timed, so its theorems apply to every run. */
  lemma {:induction false} EventsAreTimed(moves: seq<Move>)
    requires TimedMoves(moves)
    ensures Timed(RunFrom(IDLE, moves).up.events)
    ensures forall e :: e in RunFrom(IDLE, moves).up.events ==> IsReading(moves, e.at)
  {
    if moves != [] {
      var front, last := moves[..|moves| - 1], moves[|moves| - 1];
      EventsAreTimed(front);
      GrowsByReading(RunFrom(IDLE, front), last);
      hide Next, IsReading;
      var es, es' := RunFrom(IDLE, front).up.events, RunFrom(IDLE, moves).up.events;
      forall e | e in es
        ensures IsReading(moves, e.at) && (last.Advance? ==> e.at <= last.now)
      {
        assert IsReading(front, e.at);
        ReadingLater(moves, e.at);
        ReadingBeforeLast(moves, e.at);
      }
      if es' != es {
        LastIsReading(moves);
        assert forall i :: 0 <= i < |es| ==> es[i] in es;
      }
    }
  }

  lemma ReadingBeforeLast(moves: seq<Move>, t: int)
    requires TimedMoves(moves) && moves != [] && IsReading(moves[..|moves| - 1], t)
    ensures moves[|moves| - 1].Advance? ==> t <= moves[|moves| - 1].now
  {
    var i :| 0 <= i < |moves| - 1 && moves[..|moves| - 1][i].Advance? && moves[..|moves| - 1][i].now == t;
    assert moves[i].Advance? && moves[i].now == t;
  }

  lemma LastIsReading(moves: seq<Move>)
    requires moves != [] && moves[|moves| - 1].Advance?
    ensures IsReading(moves, moves[|moves| - 1].now)
  {
  }

  lemma GrowsByReading(m: Machine, move: Move)
    ensures var es, es' := m.up.events, Next(m, move).up.events;
            es' == es || (move.Advance? && |es'| == |es| + 1 && es'[..|es|] == es && es'[|es|].at == move.now)
  {
  }

  /** However the queries of one upstream overlap, trips i and j of its breaker are at
      least (j - i) cooldowns apart. */
  lemma UpstreamTripSpacing(moves: seq<Move>, i: nat, j: nat)
    requires TimedMoves(moves) && i <= j < |TripTimes(RunFrom(IDLE, moves).up.events)|
    ensures var ts := TripTimes(RunFrom(IDLE, moves).up.events); ts[j] - ts[i] >= (j - i) * 10_000_000_000
    ensures RunFrom(IDLE, moves).up.breaker.trips == |TripTimes(RunFrom(IDLE, moves).up.events)|
  {
    EventsAreTimed(moves);
    CountersAreExact(moves);
    RunInv(RunFrom(IDLE, moves).up.events);
    TripSpacing(RunFrom(IDLE, moves).up.events, i, j);
  }

  // ---------- a query on its own ----------

  lemma {:induction false} RunAppend(m: Machine, moves: seq<Move>, more: seq<Move>)
    ensures RunFrom(m, moves + more) == RunFrom(RunFrom(m, moves), more)
  {
    hide Next;
    if more == [] {
      assert moves + more == moves;
    } else {
      var all := moves + more;
      assert all[..|all| - 1] == moves + more[..|more| - 1];
      RunAppend(m, moves, more[..|more| - 1]);
    }
  }

  lemma RunOne(m: Machine, move: Move)
    ensures RunFrom(m, [move]) == Next(m, move)
  {
    assert [move][..0] == [];
    assert RunFrom(m, []) == m;
  }

  /** n steps of one query at time `now`, when no other query interferes. */
  function Later(up: Upstate, wk: Worker, now: int, n: nat): (Upstate, Worker)
    decreases n
  {
    if n == 0 then (up, wk)
    else Later(UpAfter(up, wk, now), wk.(phase := PhaseAfter(up.breaker, wk, now)), now, n - 1)
  }

  /** In the machine the newest query, left alone, does just that. */
  lemma {:induction false} Advances(up: Upstate, ws: seq<Worker>, wk: Worker, now: int, n: nat)
    ensures var (up', wk') := Later(up, wk, now, n);
            RunFrom(Machine(up, ws + [wk]), seq(n, _ => Advance(|ws|, now))) == Machine(up', ws + [wk'])
    decreases n
  {
    if n > 0 {
      var first, more := Advance(|ws|, now), seq(n - 1, _ => Advance(|ws|, now));
      assert seq(n, _ => Advance(|ws|, now)) == [first] + more;
      RunAppend(Machine(up, ws + [wk]), [first], more);
      RunOne(Machine(up, ws + [wk]), first);
      var wk' := wk.(phase := PhaseAfter(up.breaker, wk, now));
      assert (ws + [wk])[|ws| := wk'] == ws + [wk'];
      Advances(UpAfter(up, wk, now), ws, wk', now, n - 1);
    }
  }

  /** What Upstream.Query promises: a refusal changes nothing, an admitted query is counted
      once and its result reaches the breaker. */
  ghost predicate IsQuery(up: Upstate, up': Upstate, p: Phase, result: Result, askedAt: int, answeredAt: int) {
    var b := AfterLocked(up.breaker, askedAt);
    && (p.TurnedAway? <==> !LockedAllows(up.breaker, askedAt))
    && (p.TurnedAway? ==> up'.(events := up.events) == up)
    && (!p.TurnedAway? ==>
         && p.Finished? && up'.requests == up.requests + 1
         && up'.successes == up.successes + (if result.Answered? then 1 else 0)
         && up'.failures == up.failures + (if result.Answered? then 0 else 1)
         && up'.timeouts == up.timeouts + (if result.TimedOut? then 1 else 0)
         && up'.samples == up.samples + (if result.Answered? then [Max(0, result.latency)] else [])
         && up'.breaker == if result.Answered? then AfterSuccess(b) else AfterFailure(b, answeredAt))
  }

  lemma LaterIsQuery(up: Upstate, result: Result, askedAt: int, answeredAt: int)
    ensures var (up1, wk1) := Later(up, Worker(result, AtLook), askedAt, 2);
            var (up2, wk2) := Later(up1, wk1, answeredAt, 5);
            wk2.result == result && IsQuery(up, up2, wk2.phase, result, askedAt, answeredAt)
  {
    hide AfterSuccess, AfterFailure;
  }

  /** The moves of one query that no other one interferes with. */
  function Alone(i: nat, result: Result, askedAt: int, answeredAt: int): seq<Move> {
    [Start(result)] + (seq(2, _ => Advance(i, askedAt)) + seq(5, _ => Advance(i, answeredAt)))
  }

  lemma AloneIsQuery(m: Machine, result: Result, askedAt: int, answeredAt: int)
    ensures var m' := RunFrom(m, Alone(|m.workers|, result, askedAt, answeredAt));
            && |m'.workers| == |m.workers| + 1 && m'.workers[..|m.workers|] == m.workers
            && IsQuery(m.up, m'.up, m'.workers[|m.workers|].phase, result, askedAt, answeredAt)
  {
    var ws, wk := m.workers, Worker(result, AtLook);
    var ask, answer := seq(2, _ => Advance(|ws|, askedAt)), seq(5, _ => Advance(|ws|, answeredAt));
    var (up1, wk1) := Later(m.up, wk, askedAt, 2);
    hide RunFrom, Later, IsQuery;
    RunAppend(m, [Start(result)], ask + answer);
    RunOne(m, Start(result));
    RunAppend(Machine(m.up, ws + [wk]), ask, answer);
    Advances(m.up, ws, wk, askedAt, 2);
    Advances(up1, ws, wk1, answeredAt, 5);
    LaterIsQuery(m.up, result, askedAt, answeredAt);
  }
}
