/** breaker.go: the circuit breaker of one upstream, as a class, and theorems about
    every interleaving of its atomic steps. Times are nanoseconds. */
module Breaker {

  const FAIL_THRESHOLD: nat := 5
  const COOLDOWN: int := 10_000_000_000

  datatype Status = Closed | Open | HalfOpen

  datatype Snapshot = Snapshot(status: Status, fails: nat, trips: nat, recovers: nat, openedAt: int)

  const FRESH: Snapshot := Snapshot(Closed, 0, 0, 0, 0)

  function Trip(b: Snapshot, now: int): Snapshot {
    b.(status := Open, trips := b.trips + 1, openedAt := now)
  }

  /** The first, unlocked look of AllowRequest: false means "go on under the lock". */
  predicate FastAllows(b: Snapshot) {
    !b.status.Open?
  }

  predicate LockedAllows(b: Snapshot, now: int) {
    b.status.Open? ==> now - b.openedAt >= COOLDOWN
  }

  function AfterLocked(b: Snapshot, now: int): Snapshot {
    if b.status.Open? && LockedAllows(b, now) then b.(status := HalfOpen) else b
  }

  function AfterSuccess(b: Snapshot): Snapshot {
    if b.status.HalfOpen? then b.(status := Closed, recovers := b.recovers + 1, fails := 0) else b.(fails := 0)
  }

  predicate FailureTrips(b: Snapshot) {
    b.status.HalfOpen? || (b.status.Closed? && b.fails + 1 >= FAIL_THRESHOLD)
  }

  function AfterFailure(b: Snapshot, now: int): Snapshot {
    if b.status.HalfOpen? then Trip(b, now)
    else
      var b' := b.(fails := b.fails + 1);
      if FailureTrips(b) then Trip(b', now) else b'
  }

  class CircuitBreaker {
    var status: Status
    var consecutiveFails: nat
    var trips: nat
    var recovers: nat
    var openedAt: int

    ghost function View(): Snapshot
      reads this
    {
      Snapshot(status, consecutiveFails, trips, recovers, openedAt)
    }

    constructor ()
      ensures View() == FRESH
    {
      status, consecutiveFails, trips, recovers, openedAt := Closed, 0, 0, 0, 0;
    }

    method AllowRequest(now: int) returns (allowed: bool)
      modifies this
      ensures allowed == LockedAllows(old(View()), now)
      ensures View() == AfterLocked(old(View()), now)
      ensures allowed <==> old(status) != Open || now >= old(openedAt) + 10_000_000_000
      ensures status == if old(status) == Open && allowed then HalfOpen else old(status)
    {
      match status
      case Closed => return true;
      case HalfOpen => return true;
      case Open =>
        if now - openedAt >= COOLDOWN {
          status := HalfOpen;
          return true;
        }
        return false;
    }

    method RecordSuccess()
      modifies this
      ensures View() == AfterSuccess(old(View()))
      ensures consecutiveFails == 0
    {
      if status == HalfOpen {
        status := Closed;
        recovers := recovers + 1;
      }
      consecutiveFails := 0;
    }

    method RecordFailure(now: int)
      modifies this
      ensures View() == AfterFailure(old(View()), now)
      ensures consecutiveFails == old(consecutiveFails) + (if old(status) == HalfOpen then 0 else 1)
    {
      if status == HalfOpen {
        DoTrip(now);
        return;
      }
      consecutiveFails := consecutiveFails + 1;
      if status == Closed && consecutiveFails >= FAIL_THRESHOLD {
        DoTrip(now);
      }
    }

    method DoTrip(now: int)
      modifies this
      ensures View() == Trip(old(View()), now)
    {
      status := Open;
      trips := trips + 1;
      openedAt := now;
    }
  }

  // ---------- runs ----------

  /** The atomic steps of all goroutines on one breaker, in the order they take effect.
      AllowRequest is a Look, followed by a Locked step if the look said open. */
  datatype Event =
    | Look(at: int)
    | Locked(at: int)
    | Success(at: int)
    | Failure(at: int)

  function Step(b: Snapshot, e: Event): Snapshot {
    match e
    case Look(_) => b
    case Locked(now) => AfterLocked(b, now)
    case Success(_) => AfterSuccess(b)
    case Failure(now) => AfterFailure(b, now)
  }

  function Run(es: seq<Event>): Snapshot {
    if es == [] then FRESH else Step(Run(es[..|es| - 1]), es[|es| - 1])
  }

  /** Clock readings never go back. */
  ghost predicate Timed(es: seq<Event>) {
    forall i, j :: 0 <= i <= j < |es| ==> es[i].at <= es[j].at
  }

  predicate Trips(b: Snapshot, e: Event) {
    e.Failure? && FailureTrips(b)
  }

  predicate Admits(b: Snapshot, e: Event) {
    (e.Look? && FastAllows(b)) || (e.Locked? && LockedAllows(b, e.at))
  }

  function TripTimes(es: seq<Event>): seq<int> {
    if es == [] then []
    else
      var front := es[..|es| - 1];
      TripTimes(front) + (if Trips(Run(front), es[|es| - 1]) then [es[|es| - 1].at] else [])
  }

  /** Failures of half-open probes. */
  function Retrips(es: seq<Event>): nat {
    if es == [] then 0
    else
      var front := es[..|es| - 1];
      Retrips(front) + (if es[|es| - 1].Failure? && Run(front).status.HalfOpen? then 1 else 0)
  }

  /** Recorded failures since the last recorded success. */
  function TrailingFailures(es: seq<Event>): nat {
    if es == [] || es[|es| - 1].Success? then 0
    else TrailingFailures(es[..|es| - 1]) + (if es[|es| - 1].Failure? then 1 else 0)
  }

  lemma TimedFront(es: seq<Event>)
    requires Timed(es) && es != []
    ensures Timed(es[..|es| - 1])
  {
  }

  /** What holds after every run: the opening time is that of the last trip, and the
      breaker is not open again before the cooldown has passed. */
  lemma {:induction false} RunInv(es: seq<Event>)
    requires Timed(es)
    ensures var b, ts := Run(es), TripTimes(es);
            && b.trips == |ts|
            && (ts == [] ==> b.status.Closed?)
            && (ts != [] ==> b.openedAt == ts[|ts| - 1] && es != [] && b.openedAt <= es[|es| - 1].at)
            && (ts != [] && !b.status.Open? ==> es[|es| - 1].at >= b.openedAt + COOLDOWN)
  {
    if es != [] {
      TimedFront(es);
      RunInv(es[..|es| - 1]);
      if |es| > 1 {
        assert es[|es| - 2].at <= es[|es| - 1].at;
      }
    }
  }

  /** Any two trips are at least a cooldown apart for every trip between them, so k
      trips span at least (k - 1) cooldowns. */
  lemma {:induction false} TripSpacing(es: seq<Event>, i: nat, j: nat)
    requires Timed(es) && i <= j < |TripTimes(es)|
    ensures TripTimes(es)[j] - TripTimes(es)[i] >= (j - i) * 10_000_000_000
  {
    var front := es[..|es| - 1];
    TimedFront(es);
    RunInv(front);
    if j < |TripTimes(front)| {
      TripSpacing(front, i, j);
    } else if i < j {
      TripSpacing(front, i, j - 1);
      assert es[|front| - 1].at <= es[|es| - 1].at;
      assert (j - i) * COOLDOWN == (j - 1 - i) * COOLDOWN + COOLDOWN;
    }
  }

  /** No request whose AllowRequest begins after a trip is let through before the
      cooldown has passed, whatever other requests and results do meanwhile. */
  lemma {:induction false} NoAdmissionDuringCooldown(es: seq<Event>, i: nat, j: nat)
    requires Timed(es) && i < j < |es|
    requires Trips(Run(es[..i]), es[i]) && Admits(Run(es[..j]), es[j])
    ensures es[j].at >= es[i].at + 10_000_000_000
  {
    assert Timed(es[..j]);
    RunInv(es[..j]);
    OpenedAfter(es, i, j);
    assert es[j - 1].at <= es[j].at;
  }

  lemma {:induction false} OpenedAfter(es: seq<Event>, i: nat, j: nat)
    requires Timed(es) && i < j <= |es| && Trips(Run(es[..i]), es[i])
    ensures TripTimes(es[..j]) != [] && Run(es[..j]).openedAt >= es[i].at
    decreases j
  {
    assert es[..j][..j - 1] == es[..j - 1];
    if i < j - 1 {
      OpenedAfter(es, i, j - 1);
    }
  }

  /** Results that arrive while the breaker is open neither close it nor restart the
      cooldown. */
  lemma StragglersChangeNothing(b: Snapshot, e: Event)
    requires b.status.Open? && (e.Success? || e.Failure?)
    ensures Step(b, e).status.Open? && Step(b, e).openedAt == b.openedAt && Step(b, e).trips == b.trips
  {
  }

  /** Trip accounting over every run, and what the failure counter counts. */
  lemma {:induction false} Accounting(es: seq<Event>)
    ensures var b := Run(es);
            && b.trips == b.recovers + Retrips(es) + (if b.status.Closed? then 0 else 1)
            && (b.status.Closed? ==> b.fails < 5 && b.fails == TrailingFailures(es))
  {
    if es != [] {
      Accounting(es[..|es| - 1]);
    }
  }

  /** A closed breaker opens exactly when the trailing run of recorded failures
      reaches five. */
  lemma OpensAtFifthFailure(es: seq<Event>, e: Event)
    requires Run(es).status.Closed?
    ensures !Run(es + [e]).status.Closed? <==> e.Failure? && TrailingFailures(es + [e]) == 5
  {
    Accounting(es);
    assert (es + [e])[..|es + [e]| - 1] == es;
  }

  /** "One probe" is not what half-open means: every request that looks while the
      breaker is half-open is let through, and none of them changes its state. */
  lemma {:induction false} HalfOpenAdmitsAll(es: seq<Event>, looks: seq<Event>, i: nat)
    requires Run(es).status.HalfOpen?
    requires forall l :: l in looks ==> l.Look? || l.Locked?
    requires i < |looks|
    ensures Run(es + looks[..i]) == Run(es) && Admits(Run(es + looks[..i]), looks[i])
  {
    if i > 0 {
      HalfOpenAdmitsAll(es, looks, i - 1);
      assert (es + looks[..i])[..|es| + i - 1] == es + looks[..i - 1];
      assert (es + looks[..i])[|es| + i - 1] == looks[i - 1];
    } else {
      assert es + looks[..0] == es;
    }
  }

  // ---------- coming back ----------

  lemma OneMore(es: seq<Event>, e: Event)
    ensures Run(es + [e]) == Step(Run(es), e)
    ensures TripTimes(es + [e]) == TripTimes(es) + (if Trips(Run(es), e) then [e.at] else [])
  {
    assert (es + [e])[..|es|] == es;
  }

  /** Open means: there was a trip, and the opening time is that of the last one. */
  lemma {:induction false} OpenSinceLastTrip(es: seq<Event>)
    ensures TripTimes(es) == [] ==> Run(es).status.Closed?
    ensures TripTimes(es) != [] ==> Run(es).openedAt == TripTimes(es)[|TripTimes(es)| - 1]
  {
    if es != [] {
      OpenSinceLastTrip(es[..|es| - 1]);
    }
  }

  /** An open breaker lets the request that reads the clock at `now` through if and only if
      ten seconds have passed since the last trip, and is then half-open; before that it
      refuses and stays open. */
  lemma ReopensAfterCooldown(es: seq<Event>, now: int)
    requires Run(es).status.Open?
    ensures TripTimes(es) != []
    ensures var late := now >= TripTimes(es)[|TripTimes(es)| - 1] + 10_000_000_000;
            && !Admits(Run(es), Look(now))
            && (Admits(Run(es), Locked(now)) <==> late)
            && Run(es + [Locked(now)]) == Run(es).(status := if late then HalfOpen else Open)
  {
    OpenSinceLastTrip(es);
    OneMore(es, Locked(now));
  }

  /** A half-open breaker follows the next result: a success closes it, resets the failures
      and counts a recovery; a failure is a new trip, from its own time on. */
  lemma ProbeDecides(es: seq<Event>, at: int)
    requires Run(es).status.HalfOpen?
    ensures var b, won := Run(es), Run(es + [Success(at)]);
            won == b.(status := Closed, recovers := b.recovers + 1, fails := 0)
    ensures var b, lost := Run(es), Run(es + [Failure(at)]);
            && lost == b.(status := Open, trips := b.trips + 1, openedAt := at)
            && TripTimes(es + [Failure(at)]) == TripTimes(es) + [at]
  {
    OneMore(es, Success(at));
    OneMore(es, Failure(at));
  }

  /** A whole recovery: the cooldown over, one request let through, its answer recorded. */
  lemma Recovers(es: seq<Event>, now: int, at: int)
    requires Run(es).status.Open? && TripTimes(es) != []
    requires now >= TripTimes(es)[|TripTimes(es)| - 1] + 10_000_000_000
    ensures Run(es + [Locked(now)] + [Success(at)]).status.Closed?
    ensures Run(es + [Locked(now)] + [Success(at)]).recovers == Run(es).recovers + 1
  {
    ReopensAfterCooldown(es, now);
    ProbeDecides(es + [Locked(now)], at);
  }
}
