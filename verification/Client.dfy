/** client.go: one query to one upstream with its breaker and statistics, and the
    choice among the answers of a group. What the network returns is an argument. */
module Client {
  import opened Prelude
  import opened Breaker
  import opened LatencyWindow

  /** How an exchange ended. */
  datatype Outcome = Answered(latency: int) | TimedOut | Errored | CircuitOpen

  datatype QueryResult = Refused | Done(outcome: Outcome)

  class Upstream {
    const stats: Stats
    const breaker: CircuitBreaker

    ghost predicate Valid()
      reads this, stats, stats.latencies
    {
      stats.Valid()
    }

    constructor ()
      ensures Valid() && stats.requests == 0 && breaker.View() == FRESH
      ensures fresh(stats) && fresh(stats.latencies) && fresh(breaker)
    {
      stats := new Stats();
      breaker := new CircuitBreaker();
    }

    /** recordResult: a refusal by the breaker itself counts nowhere. */
    method RecordResult(outcome: Outcome, now: int)
      requires Valid()
      modifies stats, stats.latencies, breaker
      ensures Valid()
      ensures outcome.CircuitOpen? ==>
                breaker.View() == old(breaker.View()) && stats.requests == old(stats.requests)
                && stats.samples == old(stats.samples) && stats.failures == old(stats.failures)
                && stats.timeouts == old(stats.timeouts)
      ensures outcome.Answered? ==>
                breaker.View() == AfterSuccess(old(breaker.View())) && stats.requests == old(stats.requests) + 1
                && stats.samples == old(stats.samples) + [Max(0, outcome.latency)]
                && stats.failures == old(stats.failures) && stats.timeouts == old(stats.timeouts)
      ensures outcome.TimedOut? || outcome.Errored? ==>
                breaker.View() == AfterFailure(old(breaker.View()), now) && stats.requests == old(stats.requests) + 1
                && stats.samples == old(stats.samples) && stats.failures == old(stats.failures) + 1
                && stats.timeouts == old(stats.timeouts) + (if outcome.TimedOut? then 1 else 0)
    {
      match outcome
      case Answered(latency) =>
        stats.RecordSuccess(latency);
        breaker.RecordSuccess();
      case CircuitOpen =>
      case TimedOut =>
        stats.RecordFailure(true);
        breaker.RecordFailure(now);
      case Errored =>
        stats.RecordFailure(false);
        breaker.RecordFailure(now);
    }

    /** Query: either the breaker refuses and nothing is counted, or the exchange is
        made and counted exactly once, as a success or as a failure. */
    method Query(outcome: Outcome, askedAt: int, answeredAt: int) returns (r: QueryResult)
      requires Valid() && !outcome.CircuitOpen?
      modifies stats, stats.latencies, breaker
      ensures Valid()
      ensures r.Refused? <==> !LockedAllows(old(breaker.View()), askedAt)
      ensures r.Refused? ==>
                breaker.View() == old(breaker.View()) && stats.requests == old(stats.requests)
                && stats.successes == old(stats.successes) && stats.failures == old(stats.failures)
                && stats.timeouts == old(stats.timeouts) && stats.samples == old(stats.samples)
      ensures r.Done? ==>
                var admitted := AfterLocked(old(breaker.View()), askedAt);
                && r.outcome == outcome && stats.requests == old(stats.requests) + 1
                && stats.successes == old(stats.successes) + (if outcome.Answered? then 1 else 0)
                && stats.failures == old(stats.failures) + (if outcome.Answered? then 0 else 1)
                && stats.timeouts == old(stats.timeouts) + (if outcome.TimedOut? then 1 else 0)
                && stats.samples == old(stats.samples) + (if outcome.Answered? then [Max(0, outcome.latency)] else [])
                && breaker.View() ==
                     if outcome.Answered? then AfterSuccess(admitted) else AfterFailure(admitted, answeredAt)
    {
      var allowed := breaker.AllowRequest(askedAt);
      if !allowed {
        return Refused;
      }
      RecordResult(outcome, answeredAt);
      return Done(outcome);
    }
  }

  // ---------- the best of a group ----------

  datatype Reply = Reply(ok: bool, latency: int, server: string)

  /** Reply `i` is the best: it answered, every earlier answer is strictly slower and
      no later one is faster. */
  predicate IsBest(replies: seq<Reply>, i: nat) {
    && i < |replies| && replies[i].ok
    && (forall j :: 0 <= j < i && replies[j].ok ==> replies[j].latency > replies[i].latency)
    && (forall j :: i < j < |replies| && replies[j].ok ==> replies[j].latency >= replies[i].latency)
  }

  /** The loop of QueryGroup over the replies in order of arrival: the fastest answer,
      the first of them on a tie, or an error if nobody answered. */
  method SelectBest(replies: seq<Reply>) returns (best: Option<nat>)
    ensures best.Some? ==> IsBest(replies, best.value)
    ensures best.None? <==> forall j :: 0 <= j < |replies| ==> !replies[j].ok
  {
    best := None;
    for i := 0 to |replies|
      invariant best.Some? ==> best.value < i && IsBest(replies[..i], best.value)
      invariant best.None? <==> forall j :: 0 <= j < i ==> !replies[j].ok
    {
      var r := replies[i];
      if r.ok && (best.None? || r.latency < replies[best.value].latency) {
        best := Some(i);
      }
    }
    assert replies[..|replies|] == replies;
  }
}
