/** resolver.go under load: many queries are in progress at once, and their atomic
    steps interleave in any order. A step is one atomic addition, one increment of a
    counter map (see Counters), one exchange, one Set of the cache, or one of the three
    parts of Get: look the key up, look at the entry, finish under the lock. */
module ResolverRuns {
  import opened Prelude
  import opened Tallies
  import opened Text
  import opened Lru
  import opened Cache
  import opened CacheStore
  import opened Routing
  import opened Resolver

  /** What stays fixed while queries run. */
  datatype Setup = Setup(w: World, maxSize: nat, lazy: bool)

  datatype Outcome = Outcome(cached: Option<Msg>, v: Verdict, x: Exchange)

  /** How far a query is: what it will do next, with what it found out. */
  datatype Phase =
    | AtTotal
    | AtType
    | AtLookup
    | AtDecide(elem: CI.Elem)
    | AtFinish(elem: CI.Elem, remove: bool, msg: Msg)
    | AtRoute
    | AtEffect(o: Outcome)       // its own counter, or the Set of an answer
    | AtAction(o: Outcome)
    | AtStatus(o: Outcome)
    | Done(o: Outcome)

  datatype Worker = Worker(q: Query, phase: Phase)

  /** Every query ever started has its worker. */
  datatype Machine = Machine(store: Store, stats: Stats, workers: seq<Worker>)

  datatype Move = Start(q: Query) | Advance(i: nat)

  ghost function OutcomeOf(w: World, q: Query, cached: Option<Msg>): Outcome
    requires ValidWorld(w)
  {
    Outcome(cached, Cascade(w, Domain(q)), ExchangeOf(w, q))
  }

  /** The entry an element holds. */
  function Held(s: Store, e: CI.Elem): Option<Entry> {
    if 0 <= e < |s.values| then Some(s.values[e]) else None
  }

  /** Get gives an entry up when it has expired, unless the cache is lazy. */
  predicate GivesUp(c: Setup, q: Query, entry: Entry) {
    Expired(entry, q.askedAt) && !c.lazy
  }

  ghost function PhaseAfter(c: Setup, s: Store, wk: Worker): Phase
    requires ValidWorld(c.w)
  {
    match wk.phase
    case AtTotal => AtType
    case AtType => AtLookup
    case AtLookup =>
      var k := KeyOf(c.w, wk.q);
      if k in s.cells.entries then AtDecide(s.cells.entries[k]) else AtRoute
    case AtDecide(e) =>
      (match Held(s, e)
       case None => AtRoute
       case Some(entry) => AtFinish(e, GivesUp(c, wk.q, entry), entry.msg))
    case AtFinish(_, remove, msg) => if remove then AtRoute else AtEffect(OutcomeOf(c.w, wk.q, Some(msg)))
    case AtRoute => AtEffect(OutcomeOf(c.w, wk.q, None))
    case AtEffect(o) => AtAction(o)
    case AtAction(o) => AtStatus(o)
    case AtStatus(o) => Done(o)
    case Done(o) => Done(o)
  }

  /** The answer was fetched and is to be cached. */
  predicate Stores(o: Outcome) {
    o.cached.None? && o.v.Forward? && o.x.Answered? && Cacheable(Some(o.x.msg))
  }

  function Fetch(c: Setup, q: Query, o: Outcome): Entry
    requires Stores(o)
  {
    NewEntry(KeyOf(c.w, q), o.x.msg, o.x.server, q.storedAt)
  }

  /** The step of the cache cells a query makes next, if it makes one. */
  function CellStep(c: Setup, s: Store, wk: Worker, i: nat): Option<CI.Step> {
    match wk.phase
    case AtLookup => Some(CI.Lookup(i, KeyOf(c.w, wk.q)))
    case AtDecide(e) => if Held(s, e).Some? then Some(CI.Decide(i, GivesUp(c, wk.q, Held(s, e).value))) else None
    case AtFinish(_, _, _) => Some(CI.Finish(i))
    case AtEffect(o) => if Stores(o) then Some(CI.Set(KeyOf(c.w, wk.q))) else None
    case _ => None
  }

  function StoreAfter(c: Setup, s: Store, wk: Worker, i: nat): Store {
    var step := CellStep(c, s, wk, i);
    if step.None? then s
    else if wk.phase.AtEffect? then Put(s, Fetch(c, wk.q, wk.phase.o))
    else Moved(s, step.value)
  }

  predicate Refuses(o: Outcome) {
    o.cached.None? && (o.v.Blocked? || o.v.LeakRefused?)
  }

  predicate Redirects(o: Outcome) {
    o.cached.None? && o.v.RedirectTo?
  }

  predicate Fails(o: Outcome) {
    o.cached.None? && o.v.Forward? && o.x.NoAnswer?
  }

  function ActionIn(o: Outcome): Action {
    ActionOf(o.cached.Some?, o.v, o.x)
  }

  predicate Succeeded(o: Outcome) {
    Succeeds(ReplyOf(o.cached, o.v, o.x))
  }

  function StatsAfter(c: Setup, st: Stats, wk: Worker): Stats {
    match wk.phase
    case AtTotal => st.(total := st.total + 1)
    case AtType => st.(byType := Bump(st.byType, TypeOf(c.w, wk.q)))
    case AtEffect(o) =>
      if o.cached.Some? then st.(hits := st.hits + 1)
      else if Refuses(o) then st.(blocked := st.blocked + 1)
      else if Redirects(o) then st.(redirected := st.redirected + 1)
      else if Fails(o) then st.(byStatus := Bump(st.byStatus, Timeout))
      else st
    case AtAction(o) => st.(byAction := Bump(st.byAction, ActionIn(o)))
    case AtStatus(o) => st.(byStatus := Bump(st.byStatus, if Succeeded(o) then Success else Failure))
    case _ => st
  }

  ghost function Next(c: Setup, m: Machine, move: Move): Machine
    requires ValidWorld(c.w)
  {
    match move
    case Start(q) => m.(workers := m.workers + [Worker(q, AtTotal)])
    case Advance(i) =>
      if i >= |m.workers| then m
      else
        var wk := m.workers[i];
        Machine(StoreAfter(c, m.store, wk, i), StatsAfter(c, m.stats, wk),
                m.workers[i := wk.(phase := PhaseAfter(c, m.store, wk))])
  }

  function Empty(c: Setup): Machine {
    Machine(Initial(c.maxSize), NO_STATS, [])
  }

  ghost function Run(c: Setup, m: Machine, moves: seq<Move>): Machine
    requires ValidWorld(c.w)
  {
    if moves == [] then m else Next(c, Run(c, m, moves[..|moves| - 1]), moves[|moves| - 1])
  }

  // ---------- what each counter counts ----------

  datatype Counter =
    | QueryCount
    | TypeCount(name: string)
    | HitCount
    | BlockCount
    | RedirectCount
    | TimeoutCount
    | ActionCount(a: Action)
    | AllActions
    | BlockActions
    | FailActions
    | SuccessCount
    | FailureCount
    | AllStatuses

  function Value(st: Stats, k: Counter): nat {
    match k
    case QueryCount => st.total
    case TypeCount(t) => Count(st.byType, t)
    case HitCount => st.hits
    case BlockCount => st.blocked
    case RedirectCount => st.redirected
    case TimeoutCount => Count(st.byStatus, Timeout)
    case ActionCount(a) => Count(st.byAction, a)
    case AllActions => ActionSum(st.byAction)
    case BlockActions => Count(st.byAction, RuleBlock) + Count(st.byAction, AdBlock) + Count(st.byAction, LeakBlock)
    case FailActions => Count(st.byAction, Failed) + Count(st.byAction, LeakBlock)
    case SuccessCount => Count(st.byStatus, Success)
    case FailureCount => Count(st.byStatus, Failure)
    case AllStatuses => Count(st.byStatus, Success) + Count(st.byStatus, Failure)
  }

  predicate Effected(p: Phase) {
    p.AtAction? || p.AtStatus? || p.Done?
  }

  predicate Acted(p: Phase) {
    p.AtStatus? || p.Done?
  }

  /** The query has been counted by `k`. */
  predicate Passed(w: World, wk: Worker, k: Counter) {
    var p := wk.phase;
    match k
    case QueryCount => !p.AtTotal?
    case TypeCount(t) => !p.AtTotal? && !p.AtType? && TypeOf(w, wk.q) == t
    case HitCount => Effected(p) && p.o.cached.Some?
    case BlockCount => Effected(p) && Refuses(p.o)
    case RedirectCount => Effected(p) && Redirects(p.o)
    case TimeoutCount => Effected(p) && Fails(p.o)
    case ActionCount(a) => Acted(p) && ActionIn(p.o) == a
    case AllActions => Acted(p)
    case BlockActions => Acted(p) && ActionIn(p.o) in {RuleBlock, AdBlock, LeakBlock}
    case FailActions => Acted(p) && ActionIn(p.o) in {Failed, LeakBlock}
    case SuccessCount => p.Done? && Succeeded(p.o)
    case FailureCount => p.Done? && !Succeeded(p.o)
    case AllStatuses => p.Done?
  }

  function Marks(w: World, ws: seq<Worker>, k: Counter): (r: seq<bool>)
    ensures |r| == |ws|
  {
    seq(|ws|, i requires 0 <= i < |ws| => Passed(w, ws[i], k))
  }

  /** The number of queries counted by `k` so far. */
  function Tally(w: World, ws: seq<Worker>, k: Counter): nat {
    Number(Marks(w, ws, k))
  }

  /** The number of queries counted by `k` and not yet by `l`. */
  function Between(w: World, ws: seq<Worker>, k: Counter, l: Counter): nat {
    Number(Except(Marks(w, ws, k), Marks(w, ws, l)))
  }

  predicate HasOutcome(p: Phase) {
    p.AtEffect? || Effected(p)
  }

  /** What a query believes is what routing and servers say. */
  ghost predicate Truthful(w: World, wk: Worker)
    requires ValidWorld(w)
  {
    HasOutcome(wk.phase) ==> wk.phase.o == OutcomeOf(w, wk.q, wk.phase.o.cached)
  }

  lemma BumpCounts<K>(m: map<K, nat>, k: K)
    ensures forall x :: Count(Bump(m, k), x) == Count(m, x) + (if x == k then 1 else 0)
  {
  }

  lemma SumBump(m: map<Action, nat>, a: Action)
    ensures ActionSum(Bump(m, a)) == ActionSum(m) + 1
  {
    BumpCounts(m, a);
    hide Bump, Count;
  }

  /** The difference a step of one query makes to a counter is the difference it makes
      to that query's mark. */
  ghost predicate Follows(c: Setup, st: Stats, wk: Worker, p: Phase, k: Counter) {
    Value(StatsAfter(c, st, wk), k) + (if Passed(c.w, wk, k) then 1 else 0)
    == Value(st, k) + (if Passed(c.w, wk.(phase := p), k) then 1 else 0)
  }

  lemma EffectCounts(c: Setup, st: Stats, q: Query, o: Outcome, k: Counter)
    requires !Fails(o)
    ensures Follows(c, st, Worker(q, AtEffect(o)), AtAction(o), k)
  {
    assert !(Refuses(o) && Redirects(o)) && (o.cached.Some? ==> !Refuses(o) && !Redirects(o));
    hide Bump, Count, ActionSum, TypeOf, ActionIn, Succeeded, Refuses, Redirects, Fails;
  }

  lemma TimeoutCounts(c: Setup, st: Stats, q: Query, o: Outcome, k: Counter)
    requires Fails(o)
    ensures Follows(c, st, Worker(q, AtEffect(o)), AtAction(o), k)
  {
    BumpCounts(st.byStatus, Timeout);
    assert !Refuses(o) && !Redirects(o) && o.cached.None?;
    hide Bump, Count, ActionSum, TypeOf, ActionIn, Succeeded, Refuses, Redirects, Fails;
  }

  lemma ActionCounts(c: Setup, st: Stats, q: Query, o: Outcome, k: Counter)
    ensures Follows(c, st, Worker(q, AtAction(o)), AtStatus(o), k)
  {
    BumpCounts(st.byAction, ActionIn(o));
    SumBump(st.byAction, ActionIn(o));
    hide Bump, Count, ActionSum, TypeOf, ActionIn, Succeeded, Refuses, Redirects, Fails;
  }

  lemma StatusCounts(c: Setup, st: Stats, q: Query, o: Outcome, k: Counter)
    ensures Follows(c, st, Worker(q, AtStatus(o)), Done(o), k)
  {
    BumpCounts(st.byStatus, if Succeeded(o) then Success else Failure);
    hide Bump, Count, ActionSum, TypeOf, ActionIn, Succeeded, Refuses, Redirects, Fails;
  }

  predicate InCache(p: Phase) {
    p.AtLookup? || p.AtDecide? || p.AtFinish?
  }

  lemma EarlyCounts(c: Setup, st: Stats, wk: Worker, p: Phase, k: Counter)
    requires wk.phase.AtTotal? ==> p.AtType?
    requires wk.phase.AtType? ==> p.AtLookup?
    requires InCache(wk.phase) || wk.phase.AtRoute? ==> InCache(p) || p.AtRoute? || p.AtEffect?
    requires wk.phase.AtTotal? || wk.phase.AtType? || InCache(wk.phase) || wk.phase.AtRoute?
    ensures Follows(c, st, wk, p, k)
  {
    BumpCounts(st.byType, TypeOf(c.w, wk.q));
    hide Bump, Count, ActionSum, TypeOf, ActionIn, Succeeded, Refuses, Redirects, Fails;
  }

  /** One step of one query moves each counter exactly when the query passes it. */
  lemma StepCounts(c: Setup, s: Store, st: Stats, wk: Worker, k: Counter)
    requires ValidWorld(c.w)
    ensures Follows(c, st, wk, PhaseAfter(c, s, wk), k)
  {
    match wk.phase
    case AtEffect(o) =>
      if Fails(o) {
        TimeoutCounts(c, st, wk.q, o, k);
      } else {
        EffectCounts(c, st, wk.q, o, k);
      }
    case AtAction(o) =>
      ActionCounts(c, st, wk.q, o, k);
    case AtStatus(o) =>
      StatusCounts(c, st, wk.q, o, k);
    case Done(_) =>
    case _ =>
      hide Follows;
      EarlyCounts(c, st, wk, PhaseAfter(c, s, wk), k);
  }

  ghost predicate Inv(c: Setup, m: Machine)
    requires ValidWorld(c.w)
  {
    && (forall i :: 0 <= i < |m.workers| ==> Truthful(c.w, m.workers[i]))
    && (forall k :: Value(m.stats, k) == Tally(c.w, m.workers, k))
  }

  lemma AdvanceInv(c: Setup, m: Machine, i: nat)
    requires ValidWorld(c.w) && Inv(c, m) && i < |m.workers|
    ensures Inv(c, Next(c, m, Advance(i)))
  {
    var wk, m' := m.workers[i], Next(c, m, Advance(i));
    forall k
      ensures Value(m'.stats, k) == Tally(c.w, m'.workers, k)
    {
      StepCounts(c, m.store, m.stats, wk, k);
      hide Passed, StatsAfter, StoreAfter, PhaseAfter, Value;
      assert Value(m.stats, k) == Tally(c.w, m.workers, k);
      var marks := Marks(c.w, m.workers, k);
      NumberUpdate(marks, i, Passed(c.w, m'.workers[i], k));
      assert Marks(c.w, m'.workers, k) == marks[i := Passed(c.w, m'.workers[i], k)];
    }
    StaysTruthful(c, m.store, wk);
    hide StatsAfter, StoreAfter, PhaseAfter, Value, Tally, Truthful;
  }

  lemma StaysTruthful(c: Setup, s: Store, wk: Worker)
    requires ValidWorld(c.w) && Truthful(c.w, wk)
    ensures Truthful(c.w, wk.(phase := PhaseAfter(c, s, wk)))
  {
    hide Cascade, ExchangeOf;
  }

  lemma StartInv(c: Setup, m: Machine, q: Query)
    requires ValidWorld(c.w) && Inv(c, m)
    ensures Inv(c, Next(c, m, Start(q)))
  {
    var m' := Next(c, m, Start(q));
    forall k
      ensures Value(m'.stats, k) == Tally(c.w, m'.workers, k)
    {
      hide Value;
      assert Value(m.stats, k) == Tally(c.w, m.workers, k);
      NumberPush(Marks(c.w, m.workers, k), false);
      assert Marks(c.w, m'.workers, k) == Marks(c.w, m.workers, k) + [false];
    }
    hide Value, Tally;
  }

  /** In every state of every interleaving each counter is exactly the number of queries
      that have passed it. */
  lemma {:induction false} CountersAreExact(c: Setup, moves: seq<Move>)
    requires ValidWorld(c.w)
    ensures Inv(c, Run(c, Empty(c), moves))
    ensures forall k :: Value(Run(c, Empty(c), moves).stats, k) == Tally(c.w, Run(c, Empty(c), moves).workers, k)
  {
    if moves == [] {
      forall k
        ensures Value(NO_STATS, k) == 0
      {
      }
    } else {
      var m, move := Run(c, Empty(c), moves[..|moves| - 1]), moves[|moves| - 1];
      CountersAreExact(c, moves[..|moves| - 1]);
      hide Inv;
      if move.Start? {
        StartInv(c, m, move.q);
      } else if move.i < |m.workers| {
        AdvanceInv(c, m, move.i);
      }
    }
  }

  // ---------- how the counters add up, in flight and at rest ----------

  lemma TallyExcept(w: World, ws: seq<Worker>, k: Counter, l: Counter)
    ensures Tally(w, ws, k) <= Tally(w, ws, l) + Between(w, ws, k, l)
    ensures (forall i :: 0 <= i < |ws| && Passed(w, ws[i], l) ==> Passed(w, ws[i], k))
            ==> Tally(w, ws, k) == Tally(w, ws, l) + Between(w, ws, k, l)
  {
    hide Passed;
    NumberExcept(Marks(w, ws, k), Marks(w, ws, l));
  }

  /** What an outcome counts as, side by side. */
  lemma SameQueries(w: World, wk: Worker)
    requires ValidWorld(w) && Truthful(w, wk) && HasOutcome(wk.phase)
    ensures var o := wk.phase.o;
            && (Fails(o) <==> ActionIn(o) == Failed)
            && (Refuses(o) <==> ActionIn(o) in {RuleBlock, AdBlock, LeakBlock})
            && (Redirects(o) <==> ActionIn(o) == Redirected)
            && (o.cached.Some? <==> ActionIn(o) == CacheHit)
            && (ActionIn(o) in {Failed, LeakBlock} ==> !Succeeded(o))
  {
    CascadeIsProper(w, Domain(wk.q));
    hide Cascade, ExchangeOf;
  }

  /** A query passes `k` before it passes `l`. */
  predicate Precedes(k: Counter, l: Counter) {
    match k
    case QueryCount => l == AllActions || l == AllStatuses
    case TimeoutCount => l == ActionCount(Failed)
    case BlockCount => l == BlockActions
    case RedirectCount => l == ActionCount(Redirected)
    case HitCount => l == ActionCount(CacheHit)
    case _ => false
  }

  lemma PassesInOrder(w: World, wk: Worker, k: Counter, l: Counter)
    requires ValidWorld(w) && Truthful(w, wk) && Precedes(k, l)
    ensures Passed(w, wk, l) ==> Passed(w, wk, k)
  {
    if HasOutcome(wk.phase) {
      SameQueries(w, wk);
    }
    hide ActionIn, Fails, Refuses, Redirects, Succeeded, Truthful;
  }

  lemma PairBalances(c: Setup, m: Machine, k: Counter, l: Counter)
    requires ValidWorld(c.w) && Inv(c, m) && Precedes(k, l)
    ensures Value(m.stats, k) == Value(m.stats, l) + Between(c.w, m.workers, k, l)
  {
    forall i | 0 <= i < |m.workers|
      ensures Passed(c.w, m.workers[i], l) ==> Passed(c.w, m.workers[i], k)
    {
      PassesInOrder(c.w, m.workers[i], k, l);
    }
    hide Passed, Truthful, Precedes, Value;
    TallyExcept(c.w, m.workers, k, l);
    assert Value(m.stats, k) == Tally(c.w, m.workers, k) && Value(m.stats, l) == Tally(c.w, m.workers, l);
  }

  /** The two sums over all queries, while some are in flight: each is off by exactly the
      number of queries that are between the two counters. */
  ghost predicate TotalsInFlight(w: World, st: Stats, ws: seq<Worker>) {
    && st.total == ActionSum(st.byAction) + Between(w, ws, QueryCount, AllActions)
    && st.total == Count(st.byStatus, Success) + Count(st.byStatus, Failure)
                   + Between(w, ws, QueryCount, AllStatuses)
  }

  /** The counters of one kind of outcome against its actions. */
  ghost predicate KindsInFlight(w: World, st: Stats, ws: seq<Worker>) {
    && Count(st.byStatus, Timeout) == Count(st.byAction, Failed) + Between(w, ws, TimeoutCount, ActionCount(Failed))
    && st.blocked == Count(st.byAction, RuleBlock) + Count(st.byAction, AdBlock) + Count(st.byAction, LeakBlock)
                     + Between(w, ws, BlockCount, BlockActions)
    && st.redirected == Count(st.byAction, Redirected) + Between(w, ws, RedirectCount, ActionCount(Redirected))
    && st.hits == Count(st.byAction, CacheHit) + Between(w, ws, HitCount, ActionCount(CacheHit))
  }

  ghost predicate FailuresInFlight(w: World, st: Stats, ws: seq<Worker>) {
    Count(st.byAction, Failed) + Count(st.byAction, LeakBlock)
    <= Count(st.byStatus, Failure) + Between(w, ws, FailActions, FailureCount)
  }

  lemma InvTotals(c: Setup, m: Machine)
    requires ValidWorld(c.w) && Inv(c, m)
    ensures TotalsInFlight(c.w, m.stats, m.workers)
  {
    hide Inv, Between, Count, ActionSum, ValidWorld;
    PairBalances(c, m, QueryCount, AllActions);
    PairBalances(c, m, QueryCount, AllStatuses);
  }

  lemma InvKinds(c: Setup, m: Machine)
    requires ValidWorld(c.w) && Inv(c, m)
    ensures KindsInFlight(c.w, m.stats, m.workers)
  {
    hide Inv, Between, Count, ActionSum, ValidWorld;
    PairBalances(c, m, TimeoutCount, ActionCount(Failed));
    PairBalances(c, m, BlockCount, BlockActions);
    PairBalances(c, m, RedirectCount, ActionCount(Redirected));
    PairBalances(c, m, HitCount, ActionCount(CacheHit));
  }

  lemma InvFailures(c: Setup, m: Machine)
    requires ValidWorld(c.w) && Inv(c, m)
    ensures FailuresInFlight(c.w, m.stats, m.workers)
  {
    TallyExcept(c.w, m.workers, FailActions, FailureCount);
    hide Tally, Between, Passed;
    assert Value(m.stats, FailActions) == Tally(c.w, m.workers, FailActions);
    assert Value(m.stats, FailureCount) == Tally(c.w, m.workers, FailureCount);
  }

  /** In every reachable state: total = actions + queries counted but not yet acted on,
      total = success + failed + queries counted without a status yet, and so on. */
  lemma BalancesInFlight(c: Setup, moves: seq<Move>)
    requires ValidWorld(c.w)
    ensures var m := Run(c, Empty(c), moves);
            && TotalsInFlight(c.w, m.stats, m.workers)
            && KindsInFlight(c.w, m.stats, m.workers)
            && FailuresInFlight(c.w, m.stats, m.workers)
  {
    CountersAreExact(c, moves);
    hide Inv, TotalsInFlight, KindsInFlight, FailuresInFlight, Run;
    InvTotals(c, Run(c, Empty(c), moves));
    InvKinds(c, Run(c, Empty(c), moves));
    InvFailures(c, Run(c, Empty(c), moves));
  }

  /** No query is in flight. */
  ghost predicate AtRest(m: Machine) {
    forall i :: 0 <= i < |m.workers| ==> m.workers[i].phase.Done?
  }

  lemma NothingBetween(c: Setup, m: Machine, k: Counter, l: Counter)
    requires ValidWorld(c.w) && Inv(c, m) && AtRest(m)
    requires Precedes(k, l) || (k == FailActions && l == FailureCount)
    ensures Between(c.w, m.workers, k, l) == 0
  {
    var marks := Except(Marks(c.w, m.workers, k), Marks(c.w, m.workers, l));
    forall i | 0 <= i < |marks|
      ensures !marks[i]
    {
      SameQueries(c.w, m.workers[i]);
      hide ActionIn, Fails, Refuses, Redirects, Succeeded, Truthful;
    }
    NumberExtremes(marks);
  }

  lemma RestBalances(c: Setup, m: Machine)
    requires ValidWorld(c.w) && Inv(c, m) && AtRest(m)
    ensures Balanced(m.stats) && m.stats.total == |m.workers|
  {
    InvTotals(c, m);
    InvKinds(c, m);
    InvFailures(c, m);
    NumberExtremes(Marks(c.w, m.workers, QueryCount));
    assert Value(m.stats, QueryCount) == Tally(c.w, m.workers, QueryCount);
    hide Inv, Tally, Between, Count, ActionSum, ValidWorld;
    NothingBetween(c, m, QueryCount, AllActions);
    NothingBetween(c, m, QueryCount, AllStatuses);
    NothingBetween(c, m, TimeoutCount, ActionCount(Failed));
    NothingBetween(c, m, BlockCount, BlockActions);
    NothingBetween(c, m, RedirectCount, ActionCount(Redirected));
    NothingBetween(c, m, HitCount, ActionCount(CacheHit));
    NothingBetween(c, m, FailActions, FailureCount);
  }

  /** At rest everything adds up, and the total is the number of queries started. */
  lemma BalancedAtRest(c: Setup, moves: seq<Move>)
    requires ValidWorld(c.w) && AtRest(Run(c, Empty(c), moves))
    ensures Balanced(Run(c, Empty(c), moves).stats)
    ensures Run(c, Empty(c), moves).stats.total == |Run(c, Empty(c), moves).workers|
  {
    CountersAreExact(c, moves);
    hide Inv, AtRest, Balanced, Run;
    RestBalances(c, Run(c, Empty(c), moves));
  }

  // ---------- where cached answers come from ----------

  /** The configured addresses of a group. */
  function Addresses(w: World, g: Group): seq<string> {
    if g == RemoteServers then w.cfg.remote else w.cfg.domestic
  }

  /** The entry was fetched by this query, from the servers the cascade picks for it. */
  ghost predicate FetchedBy(w: World, e: Entry, wk: Worker)
    requires ValidWorld(w)
  {
    var v := Cascade(w, Domain(wk.q));
    && Effected(wk.phase)
    && KeyOf(w, wk.q) == e.key && v.Forward?
    && wk.q.reply(Addresses(w, v.group)) == Answered(e.msg, e.server)
  }

  ghost predicate Fetched(w: World, e: Entry, ws: seq<Worker>)
    requires ValidWorld(w)
  {
    exists i :: 0 <= i < |ws| && FetchedBy(w, e, ws[i])
  }

  ghost predicate AllTruthful(w: World, ws: seq<Worker>)
    requires ValidWorld(w)
  {
    forall i :: 0 <= i < |ws| ==> Truthful(w, ws[i])
  }

  ghost predicate ValuesAreFetched(w: World, values: seq<Entry>, ws: seq<Worker>)
    requires ValidWorld(w)
  {
    forall e :: 0 <= e < |values| ==> Fetched(w, values[e], ws)
  }

  /** Every entry an element holds was fetched. */
  ghost predicate AllFetched(c: Setup, m: Machine)
    requires ValidWorld(c.w)
  {
    Consistent(m.store) && AllTruthful(c.w, m.workers) && ValuesAreFetched(c.w, m.store.values, m.workers)
  }

  lemma StaysFetched(w: World, e: Entry, ws: seq<Worker>, i: nat, p: Phase)
    requires ValidWorld(w) && i < |ws| && Fetched(w, e, ws)
    requires Effected(ws[i].phase) ==> Effected(p)
    ensures Fetched(w, e, ws[i := ws[i].(phase := p)])
  {
    hide Cascade;
    var j :| 0 <= j < |ws| && FetchedBy(w, e, ws[j]);
    assert FetchedBy(w, e, ws[i := ws[i].(phase := p)][j]);
  }

  /** The store after a step: as it was, with a part of a Get done, or with a fetched entry
      put in. */
  lemma StoreSteps(c: Setup, s: Store, wk: Worker, i: nat)
    ensures var step := CellStep(c, s, wk, i);
            && (step.None? ==> StoreAfter(c, s, wk, i) == s)
            && (step.Some? && !step.value.Set? ==> StoreAfter(c, s, wk, i) == Moved(s, step.value))
            && (step.Some? && step.value.Set? ==>
                 && wk.phase.AtEffect? && Stores(wk.phase.o)
                 && StoreAfter(c, s, wk, i) == Put(s, Fetch(c, wk.q, wk.phase.o)))
  {
    hide Put, Moved, KeyOf, MinTtl;
  }

  lemma FetchIsFetched(c: Setup, wk: Worker, p: Phase)
    requires ValidWorld(c.w) && Truthful(c.w, wk) && wk.phase.AtEffect? && Stores(wk.phase.o) && Effected(p)
    ensures FetchedBy(c.w, Fetch(c, wk.q, wk.phase.o), wk.(phase := p))
  {
    hide Cascade, KeyOf, MinTtl;
  }

  /** What a step puts into the store its query has fetched. */
  lemma StepFetches(c: Setup, s: Store, wk: Worker, i: nat)
    requires ValidWorld(c.w) && Truthful(c.w, wk) && Consistent(s)
    ensures var s' := StoreAfter(c, s, wk, i);
            && Consistent(s') && |s.values| <= |s'.values|
            && forall e :: 0 <= e < |s'.values| ==>
                 || (e < |s.values| && s'.values[e] == s.values[e])
                 || FetchedBy(c.w, s'.values[e], wk.(phase := PhaseAfter(c, s, wk)))
  {
    assert wk.phase.AtEffect? ==> Effected(PhaseAfter(c, s, wk));
    hide StoreAfter, PhaseAfter, CellStep, Consistent, Put, Fetch, Stores, FetchedBy, Effected, Truthful;
    StoreSteps(c, s, wk, i);
    var step := CellStep(c, s, wk, i);
    if step.Some? {
      if step.value.Set? {
        FetchIsFetched(c, wk, PhaseAfter(c, s, wk));
        PutConsistent(s, Fetch(c, wk.q, wk.phase.o));
        PutValues(s, Fetch(c, wk.q, wk.phase.o));
      } else {
        MovedConsistent(s, step.value);
      }
    }
  }

  lemma ValuesFetched(w: World, before: seq<Entry>, now: seq<Entry>, ws: seq<Worker>, i: nat, p: Phase)
    requires ValidWorld(w) && i < |ws| && (Effected(ws[i].phase) ==> Effected(p))
    requires ValuesAreFetched(w, before, ws)
    requires forall e :: 0 <= e < |now| ==>
               (e < |before| && now[e] == before[e]) || FetchedBy(w, now[e], ws[i].(phase := p))
    ensures ValuesAreFetched(w, now, ws[i := ws[i].(phase := p)])
  {
    hide FetchedBy, Effected;
    var ws' := ws[i := ws[i].(phase := p)];
    forall e | 0 <= e < |now|
      ensures Fetched(w, now[e], ws')
    {
      if e < |before| && now[e] == before[e] {
        StaysFetched(w, before[e], ws, i, p);
      } else {
        assert FetchedBy(w, now[e], ws'[i]);
      }
    }
  }

  lemma StaysEffected(c: Setup, s: Store, wk: Worker)
    requires ValidWorld(c.w) && Effected(wk.phase)
    ensures Effected(PhaseAfter(c, s, wk))
  {
    hide Cascade, ExchangeOf, KeyOf;
  }

  lemma AdvanceFetched(c: Setup, m: Machine, i: nat)
    requires ValidWorld(c.w) && AllFetched(c, m) && i < |m.workers|
    ensures AllFetched(c, Next(c, m, Advance(i)))
  {
    hide StoreAfter, StatsAfter, PhaseAfter, Truthful, Consistent, FetchedBy, Effected, ValuesAreFetched;
    var wk, p := m.workers[i], PhaseAfter(c, m.store, m.workers[i]);
    if Effected(wk.phase) {
      StaysEffected(c, m.store, wk);
    }
    StaysTruthful(c, m.store, wk);
    StepFetches(c, m.store, wk, i);
    ValuesFetched(c.w, m.store.values, StoreAfter(c, m.store, wk, i).values, m.workers, i, p);
  }

  lemma StartFetched(c: Setup, m: Machine, q: Query)
    requires ValidWorld(c.w) && AllFetched(c, m)
    ensures AllFetched(c, Next(c, m, Start(q)))
  {
    hide FetchedBy, Consistent;
    var m' := Next(c, m, Start(q));
    forall e | 0 <= e < |m.store.values|
      ensures Fetched(c.w, m.store.values[e], m'.workers)
    {
      assert Fetched(c.w, m.store.values[e], m.workers);
      var j :| 0 <= j < |m.workers| && FetchedBy(c.w, m.store.values[e], m.workers[j]);
      assert FetchedBy(c.w, m.store.values[e], m'.workers[j]);
    }
  }

  /** In every state of every interleaving each entry was fetched by a query that is past
      its exchange, from the servers the cascade picks for it. */
  lemma {:induction false} EntriesWereFetched(c: Setup, moves: seq<Move>)
    requires ValidWorld(c.w)
    ensures AllFetched(c, Run(c, Empty(c), moves))
    ensures var m := Run(c, Empty(c), moves);
            forall e :: 0 <= e < |m.store.values| ==> Fetched(c.w, m.store.values[e], m.workers)
  {
    if moves != [] {
      var m, move := Run(c, Empty(c), moves[..|moves| - 1]), moves[|moves| - 1];
      EntriesWereFetched(c, moves[..|moves| - 1]);
      hide AllFetched;
      if move.Start? {
        StartFetched(c, m, move.q);
      } else if move.i < |m.workers| {
        AdvanceFetched(c, m, move.i);
      }
    }
  }

  /** `msg` is what servers of the group answered to `p`, which asks what `q` asks. */
  ghost predicate AnsweredBy(w: World, g: Group, p: Query, q: Query, msg: Msg) {
    var x := p.reply(Addresses(w, g));
    && Lower(Domain(p)) == Lower(Domain(q)) && SameType(w.types, p.qtype, q.qtype)
    && x.Answered? && x.msg == msg
  }

  /** The servers the cascade picks for the name of `q` answered `msg` to a query for the
      same name, and for the same type if that has a name. */
  ghost predicate FromRightServers(w: World, ws: seq<Worker>, q: Query, msg: Msg)
    requires ValidWorld(w)
  {
    var v := Cascade(w, Domain(q));
    && v.Forward?
    && exists i :: 0 <= i < |ws| && Effected(ws[i].phase) && AnsweredBy(w, v.group, ws[i].q, q, msg)
  }

  ghost predicate ProperNames(ws: seq<Worker>) {
    forall i :: 0 <= i < |ws| ==> ProperName(ws[i].q)
  }

  lemma FetchedIsRight(w: World, ws: seq<Worker>, e: Entry, q: Query)
    requires ValidWorld(w) && ProperTable(w.types) && ProperName(q) && ProperNames(ws)
    requires Fetched(w, e, ws) && e.key == KeyOf(w, q)
    ensures FromRightServers(w, ws, q, e.msg)
  {
    hide Cascade, KeyOf, Domain, ProperTable, SameType, Lower;
    var i :| 0 <= i < |ws| && FetchedBy(w, e, ws[i]);
    SameKeySameVerdict(w, ws[i].q, q);
    assert AnsweredBy(w, Cascade(w, Domain(q)).group, ws[i].q, q, e.msg);
  }

  /** So what the key of a query leads to came from the servers the cascade picks for that
      name: a name it blocks, redirects or refuses is never cached, in no spelling. */
  lemma CacheRespectsRouting(c: Setup, moves: seq<Move>, q: Query)
    requires ValidWorld(c.w) && ProperTable(c.w.types) && ProperName(q)
    requires ProperNames(Run(c, Empty(c), moves).workers)
    ensures var m := Run(c, Empty(c), moves);
            KeyOf(c.w, q) in m.store.cells.entries ==>
              var e := m.store.cells.entries[KeyOf(c.w, q)];
              0 <= e < |m.store.values| && FromRightServers(c.w, m.workers, q, m.store.values[e].msg)
  {
    EntriesWereFetched(c, moves);
    hide Run, Fetched, FromRightServers, KeyOf, ProperTable, ProperName;
    var m, k := Run(c, Empty(c), moves), KeyOf(c.w, q);
    if k in m.store.cells.entries {
      Mapped(m.store.cells, k);
      FetchedIsRight(c.w, m.workers, m.store.values[m.store.cells.entries[k]], q);
    }
  }

  // ---------- the cells of the cache ----------

  function CellsAfter(s: CI.State, step: Option<CI.Step>): CI.State {
    match step case None => s case Some(x) => CI.Next(s, x)
  }

  lemma CellsMove(c: Setup, s: Store, wk: Worker, i: nat)
    ensures StoreAfter(c, s, wk, i).cells == CellsAfter(s.cells, CellStep(c, s, wk, i))
  {
    hide CI.Next, KeyOf, MinTtl;
  }

  /** The steps a run makes on the cells. */
  ghost function Projected(c: Setup, moves: seq<Move>): seq<CI.Step>
    requires ValidWorld(c.w)
  {
    if moves == [] then []
    else
      var front, move := moves[..|moves| - 1], moves[|moves| - 1];
      var m := Run(c, Empty(c), front);
      Projected(c, front) +
      (if move.Advance? && move.i < |m.workers| then
         match CellStep(c, m.store, m.workers[move.i], move.i)
         case None => []
         case Some(step) => [step]
       else [])
  }

  /** The cells of every run are a run of the cache machine, so all that is proved about its
      interleavings holds while queries overlap. */
  lemma {:induction false} CellsAreARun(c: Setup, moves: seq<Move>)
    requires ValidWorld(c.w)
    ensures Run(c, Empty(c), moves).store.cells == CI.Run(CI.Initial(c.maxSize), Projected(c, moves))
  {
    if moves != [] {
      var front, move := moves[..|moves| - 1], moves[|moves| - 1];
      var m, before := Run(c, Empty(c), front), Projected(c, front);
      CellsAreARun(c, front);
      hide StoreAfter, StatsAfter, PhaseAfter, CI.Next, CellStep;
      assert before + [] == before;
      if move.Advance? && move.i < |m.workers| {
        CellsMove(c, m.store, m.workers[move.i], move.i);
        var step := CellStep(c, m.store, m.workers[move.i], move.i);
        if step.Some? {
          assert (before + [step.value])[..|before|] == before;
        }
      }
    }
  }

  /** A query inside Get holds an element of its own key. */
  predicate KeyMatches(w: World, s: Store, wk: Worker) {
    wk.phase.AtDecide? || wk.phase.AtFinish? ==>
      0 <= wk.phase.elem < |s.cells.keyOf| && s.cells.keyOf[wk.phase.elem] == KeyOf(w, wk.q)
  }

  predicate KeysMatch(w: World, s: Store, ws: seq<Worker>) {
    forall i :: 0 <= i < |ws| ==> KeyMatches(w, s, ws[i])
  }

  lemma KeysGrow(c: Setup, s: Store, wk: Worker, i: nat)
    ensures s.cells.keyOf <= StoreAfter(c, s, wk, i).cells.keyOf
  {
    CellsMove(c, s, wk, i);
    var step := CellStep(c, s, wk, i);
    if step.Some? {
      KeysStay(s.cells, step.value);
    }
    hide StoreAfter, CI.Next, CellStep;
  }

  lemma MatchLater(w: World, s: Store, s': Store, wk: Worker)
    requires KeyMatches(w, s, wk) && s.cells.keyOf <= s'.cells.keyOf
    ensures KeyMatches(w, s', wk)
  {
    hide KeyOf;
  }

  lemma AdvancedMatches(c: Setup, s: Store, wk: Worker)
    requires ValidWorld(c.w) && Consistent(s) && KeyMatches(c.w, s, wk)
    ensures KeyMatches(c.w, s, wk.(phase := PhaseAfter(c, s, wk)))
  {
    hide KeyOf, Cascade, ExchangeOf;
    if wk.phase.AtLookup? && KeyOf(c.w, wk.q) in s.cells.entries {
      Mapped(s.cells, KeyOf(c.w, wk.q));
    }
  }

  lemma {:induction false} KeysAlwaysMatch(c: Setup, moves: seq<Move>)
    requires ValidWorld(c.w)
    ensures KeysMatch(c.w, Run(c, Empty(c), moves).store, Run(c, Empty(c), moves).workers)
  {
    if moves != [] {
      var m, move := Run(c, Empty(c), moves[..|moves| - 1]), moves[|moves| - 1];
      KeysAlwaysMatch(c, moves[..|moves| - 1]);
      EntriesWereFetched(c, moves[..|moves| - 1]);
      hide StoreAfter, StatsAfter, PhaseAfter, KeyOf;
      if move.Advance? && move.i < |m.workers| {
        AdvanceMatches(c, m, move.i);
      }
    }
  }

  lemma AdvanceMatches(c: Setup, m: Machine, i: nat)
    requires ValidWorld(c.w) && i < |m.workers| && Consistent(m.store) && KeysMatch(c.w, m.store, m.workers)
    ensures var m' := Next(c, m, Advance(i)); KeysMatch(c.w, m'.store, m'.workers)
  {
    hide StoreAfter, StatsAfter, PhaseAfter, KeyMatches, Consistent;
    var wk, s' := m.workers[i], StoreAfter(c, m.store, m.workers[i], i);
    KeysGrow(c, m.store, wk, i);
    AdvancedMatches(c, m.store, wk);
    MatchLater(c.w, m.store, s', wk.(phase := PhaseAfter(c, m.store, wk)));
    forall j | 0 <= j < |m.workers| && j != i
      ensures KeyMatches(c.w, s', m.workers[j])
    {
      MatchLater(c.w, m.store, s', m.workers[j]);
    }
  }

  // ---------- hits ----------

  /** What a query has taken from the cache. */
  function HitOf(wk: Worker): Option<Msg> {
    if wk.phase.AtFinish? then Some(wk.phase.msg)
    else if HasOutcome(wk.phase) then wk.phase.o.cached
    else None
  }

  /** What a hit is answered with came from the right servers. */
  ghost predicate HitIsRight(w: World, ws: seq<Worker>, wk: Worker)
    requires ValidWorld(w)
  {
    HitOf(wk).Some? ==> FromRightServers(w, ws, wk.q, HitOf(wk).value)
  }

  ghost predicate HitsAreRight(w: World, ws: seq<Worker>)
    requires ValidWorld(w)
  {
    forall i :: 0 <= i < |ws| ==> HitIsRight(w, ws, ws[i])
  }

  lemma StaysRight(w: World, ws: seq<Worker>, i: nat, p: Phase, wk: Worker)
    requires ValidWorld(w) && i < |ws| && (Effected(ws[i].phase) ==> Effected(p))
    requires HitIsRight(w, ws, wk)
    ensures HitIsRight(w, ws[i := ws[i].(phase := p)], wk)
  {
    hide Cascade, AnsweredBy, Effected, HitOf;
    if HitOf(wk).Some? {
      var g, msg := Cascade(w, Domain(wk.q)).group, HitOf(wk).value;
      var j :| 0 <= j < |ws| && Effected(ws[j].phase) && AnsweredBy(w, g, ws[j].q, wk.q, msg);
      var ws' := ws[i := ws[i].(phase := p)];
      assert Effected(ws'[j].phase) && AnsweredBy(w, g, ws'[j].q, wk.q, msg);
    }
  }

  /** A query takes its hit from the element it holds and keeps it. */
  lemma HitMoves(c: Setup, s: Store, wk: Worker)
    requires ValidWorld(c.w)
    ensures var h := HitOf(wk.(phase := PhaseAfter(c, s, wk)));
            if wk.phase.AtDecide? then
              var held := Held(s, wk.phase.elem);
              h == (if held.Some? then Some(held.value.msg) else None)
            else h.None? || h == HitOf(wk)
  {
    hide Cascade, ExchangeOf, KeyOf, Held;
  }

  lemma HeldIsRight(c: Setup, m: Machine, wk: Worker)
    requires ValidWorld(c.w) && ProperTable(c.w.types) && wk.phase.AtDecide? && ProperName(wk.q)
    requires AllFetched(c, m) && KeyMatches(c.w, m.store, wk) && ProperNames(m.workers)
    ensures var h := Held(m.store, wk.phase.elem);
            h.Some? ==> FromRightServers(c.w, m.workers, wk.q, h.value.msg)
  {
    var e := wk.phase.elem;
    assert m.store.values[e].key == KeyOf(c.w, wk.q) && Fetched(c.w, m.store.values[e], m.workers);
    hide FromRightServers, Fetched, KeyOf, ProperName, ProperNames, ProperTable;
    FetchedIsRight(c.w, m.workers, m.store.values[e], wk.q);
  }

  lemma AdvancedHit(c: Setup, m: Machine, i: nat)
    requires ValidWorld(c.w) && ProperTable(c.w.types) && i < |m.workers|
    requires AllFetched(c, m) && KeysMatch(c.w, m.store, m.workers)
    requires HitsAreRight(c.w, m.workers) && ProperNames(m.workers)
    ensures HitIsRight(c.w, m.workers, m.workers[i].(phase := PhaseAfter(c, m.store, m.workers[i])))
  {
    hide FromRightServers, PhaseAfter, ProperName, ProperTable, AllFetched, KeyMatches, Held, HitOf;
    var wk := m.workers[i];
    HitMoves(c, m.store, wk);
    if wk.phase.AtDecide? {
      HeldIsRight(c, m, wk);
    } else {
      assert HitIsRight(c.w, m.workers, wk);
    }
  }

  lemma AdvanceHits(c: Setup, m: Machine, i: nat)
    requires ValidWorld(c.w) && ProperTable(c.w.types) && i < |m.workers|
    requires AllFetched(c, m) && KeysMatch(c.w, m.store, m.workers)
    requires HitsAreRight(c.w, m.workers) && ProperNames(m.workers)
    ensures HitsAreRight(c.w, Next(c, m, Advance(i)).workers)
  {
    hide HitIsRight, PhaseAfter, StatsAfter, StoreAfter, Effected, AllFetched, ProperNames, KeysMatch;
    var ws, p := m.workers, PhaseAfter(c, m.store, m.workers[i]);
    if Effected(ws[i].phase) {
      StaysEffected(c, m.store, ws[i]);
    }
    AdvancedHit(c, m, i);
    StaysRight(c.w, ws, i, p, ws[i].(phase := p));
    forall j | 0 <= j < |ws| && j != i
      ensures HitIsRight(c.w, ws[i := ws[i].(phase := p)], ws[j])
    {
      StaysRight(c.w, ws, i, p, ws[j]);
    }
  }

  lemma StartHits(w: World, ws: seq<Worker>, q: Query)
    requires ValidWorld(w) && HitsAreRight(w, ws)
    ensures HitsAreRight(w, ws + [Worker(q, AtTotal)])
  {
    var ws' := ws + [Worker(q, AtTotal)];
    assert HitOf(Worker(q, AtTotal)).None?;
    hide Cascade, AnsweredBy, Effected, HitOf;
    forall i | 0 <= i < |ws| && HitOf(ws[i]).Some?
      ensures FromRightServers(w, ws', ws[i].q, HitOf(ws[i]).value)
    {
      var g, msg := Cascade(w, Domain(ws[i].q)).group, HitOf(ws[i]).value;
      assert HitIsRight(w, ws, ws[i]);
      var j :| 0 <= j < |ws| && Effected(ws[j].phase) && AnsweredBy(w, g, ws[j].q, ws[i].q, msg);
      assert Effected(ws'[j].phase) && AnsweredBy(w, g, ws'[j].q, ws[i].q, msg);
    }
  }

  /** Hence, in every interleaving, a query the cache answers gets what the servers that
      the cascade picks for its own name have answered. */
  lemma {:induction false} CacheHitsRespectRouting(c: Setup, moves: seq<Move>)
    requires ValidWorld(c.w) && ProperTable(c.w.types)
    requires ProperNames(Run(c, Empty(c), moves).workers)
    ensures HitsAreRight(c.w, Run(c, Empty(c), moves).workers)
  {
    if moves != [] {
      var front, move := moves[..|moves| - 1], moves[|moves| - 1];
      var m := Run(c, Empty(c), front);
      NamesEarlier(c, m, move);
      CacheHitsRespectRouting(c, front);
      EntriesWereFetched(c, front);
      KeysAlwaysMatch(c, front);
      hide AllFetched, KeysMatch, HitsAreRight, ProperNames, ProperTable;
      if move.Start? {
        StartHits(c.w, m.workers, move.q);
      } else if move.i < |m.workers| {
        AdvanceHits(c, m, move.i);
      }
    }
  }

  lemma NamesEarlier(c: Setup, m: Machine, move: Move)
    requires ValidWorld(c.w) && ProperNames(Next(c, m, move).workers)
    ensures ProperNames(m.workers)
  {
    hide PhaseAfter, StatsAfter, StoreAfter, ProperName;
    var ws := Next(c, m, move).workers;
    assert forall i :: 0 <= i < |m.workers| ==> ws[i].q == m.workers[i].q;
  }
}
