/** A query that no other one interferes with does, in the machine of ResolverRuns, what
    the sequential model of Resolver says, and so what the methods of ResolverService do. */
module ResolverAlone {
  import opened Prelude
  import opened Lru
  import opened Cache
  import opened CacheStore
  import opened Routing
  import opened Resolver
  import opened ResolverRuns

  /** A query under way, with what it can change. */
  datatype Progress = Progress(store: Store, stats: Stats, wk: Worker)

  ghost function OneStep(c: Setup, p: Progress, i: nat): Progress
    requires ValidWorld(c.w)
  {
    Progress(StoreAfter(c, p.store, p.wk, i), StatsAfter(c, p.stats, p.wk),
             p.wk.(phase := PhaseAfter(c, p.store, p.wk)))
  }

  /** n steps of query i. */
  ghost function Later(c: Setup, p: Progress, i: nat, n: nat): Progress
    requires ValidWorld(c.w)
    decreases n
  {
    if n == 0 then p else Later(c, OneStep(c, p, i), i, n - 1)
  }

  lemma {:induction false} LaterAdd(c: Setup, p: Progress, i: nat, m: nat, n: nat)
    requires ValidWorld(c.w)
    ensures Later(c, p, i, m + n) == Later(c, Later(c, p, i, m), i, n)
    decreases m
  {
    hide OneStep;
    if m > 0 {
      LaterAdd(c, OneStep(c, p, i), i, m - 1, n);
    }
  }

  ghost function MachineOf(p: Progress, ws: seq<Worker>): Machine {
    Machine(p.store, p.stats, ws + [p.wk])
  }

  lemma {:induction false} RunAppend(c: Setup, m: Machine, moves: seq<Move>, more: seq<Move>)
    requires ValidWorld(c.w)
    ensures Run(c, m, moves + more) == Run(c, Run(c, m, moves), more)
  {
    hide Next;
    if more == [] {
      assert moves + more == moves;
    } else {
      var all := moves + more;
      assert all[..|all| - 1] == moves + more[..|more| - 1];
      RunAppend(c, m, moves, more[..|more| - 1]);
    }
  }

  lemma RunOne(c: Setup, m: Machine, move: Move, more: seq<Move>)
    requires ValidWorld(c.w)
    ensures Run(c, m, [move] + more) == Run(c, Next(c, m, move), more)
  {
    hide Next;
    RunAppend(c, m, [move], more);
    assert [move][..0] == [];
    assert Run(c, m, []) == m;
  }

  lemma LastAdvances(c: Setup, p: Progress, ws: seq<Worker>)
    requires ValidWorld(c.w)
    ensures Next(c, MachineOf(p, ws), Advance(|ws|)) == MachineOf(OneStep(c, p, |ws|), ws)
  {
    hide PhaseAfter, StatsAfter, StoreAfter;
    var wk' := p.wk.(phase := PhaseAfter(c, p.store, p.wk));
    assert (ws + [p.wk])[|ws| := wk'] == ws + [wk'];
  }

  /** In the machine the newest query, left alone, does just that. */
  lemma {:induction false} Advances(c: Setup, p: Progress, ws: seq<Worker>, n: nat)
    requires ValidWorld(c.w)
    ensures Run(c, MachineOf(p, ws), seq(n, _ => Advance(|ws|))) == MachineOf(Later(c, p, |ws|, n), ws)
    decreases n
  {
    hide OneStep, Next, MachineOf;
    if n == 0 {
      assert Run(c, MachineOf(p, ws), []) == MachineOf(p, ws);
    } else {
      LastAdvances(c, p, ws);
      assert seq(n, _ => Advance(|ws|)) == [Advance(|ws|)] + seq(n - 1, _ => Advance(|ws|));
      RunOne(c, MachineOf(p, ws), Advance(|ws|), seq(n - 1, _ => Advance(|ws|)));
      Advances(c, OneStep(c, p, |ws|), ws, n - 1);
    }
  }

  // ---------- the parts of a query ----------

  lemma Arrives(c: Setup, s: Store, st: Stats, q: Query, i: nat)
    requires ValidWorld(c.w)
    ensures Later(c, Progress(s, st, Worker(q, AtTotal)), i, 2)
         == Progress(s, Arrived(st, TypeOf(c.w, q)), Worker(q, AtLookup))
  {
    hide Bump, TypeOf, KeyOf;
  }

  /** Three steps of Get lead to the phase after it. */
  ghost function AfterGet(c: Setup, q: Query, answer: Option<Msg>): Phase
    requires ValidWorld(c.w)
  {
    if answer.Some? then AtEffect(OutcomeOf(c.w, q, answer)) else AtRoute
  }

  lemma Misses(c: Setup, s: Store, st: Stats, q: Query, i: nat)
    requires ValidWorld(c.w) && KeyOf(c.w, q) !in s.cells.entries
    ensures Later(c, Progress(s, st, Worker(q, AtLookup)), i, 1) == Progress(s, st, Worker(q, AtRoute))
  {
    hide KeyOf;
  }

  lemma Finds(c: Setup, s: Store, st: Stats, q: Query, i: nat)
    requires ValidWorld(c.w) && Consistent(s) && i !in s.cells.gets && KeyOf(c.w, q) in s.cells.entries
    ensures var e := s.cells.entries[KeyOf(c.w, q)];
            && 0 <= e < |s.values|
            && var remove := GivesUp(c, q, s.values[e]);
               Later(c, Progress(s, st, Worker(q, AtLookup)), i, 3)
               == Progress(CacheStore.Finished(s, e, remove), st,
                           Worker(q, AfterGet(c, q, if remove then None else Some(s.values[e].msg))))
  {
    var k := KeyOf(c.w, q);
    var e := s.cells.entries[k];
    Mapped(s.cells, k);
    hide KeyOf, Consistent, CI.Next, OutcomeOf, GivesUp, CacheStore.Finished;
    GetParts(s, i, k, GivesUp(c, q, s.values[e]));
  }

  /** Get, on the recency list. */
  lemma Gets(c: Setup, s: Store, st: Stats, q: Query, i: nat) returns (n: nat, s': Store)
    requires ValidWorld(c.w) && Whole(s) && i !in s.cells.gets
    ensures n == 1 || n == 3
    ensures var l, k := Contents(s), KeyOf(c.w, q);
            && Later(c, Progress(s, st, Worker(q, AtLookup)), i, n)
               == Progress(s', st, Worker(q, AfterGet(c, q, GetAnswer(l, c.lazy, k, q.askedAt))))
            && Whole(s') && s'.cells.maxSize == s.cells.maxSize
            && Contents(s') == GetList(l, c.lazy, k, q.askedAt)
            && (GetAnswer(l, c.lazy, k, q.askedAt).Some? ==> n == 3)
  {
    var k := KeyOf(c.w, q);
    var _ := Located(s, k);
    hide KeyOf, Whole, Later, AfterGet, CacheStore.Finished, Find, Without, Has, Contents, Shape;
    if k in s.cells.entries {
      Finds(c, s, st, q, i);
      TouchView(s, k);
      RemoveView(s, k);
      n, s' := 3, CacheStore.Finished(s, s.cells.entries[k], GivesUp(c, q, s.values[s.cells.entries[k]]));
    } else {
      Misses(c, s, st, q, i);
      n, s' := 1, s;
      assert AfterGet(c, q, None) == AtRoute;
    }
  }

  lemma Routes(c: Setup, s: Store, st: Stats, q: Query, i: nat)
    requires ValidWorld(c.w)
    ensures Later(c, Progress(s, st, Worker(q, AtRoute)), i, 1)
         == Progress(s, st, Worker(q, AtEffect(OutcomeOf(c.w, q, None))))
  {
    hide OutcomeOf;
  }

  ghost function StoreAtEnd(c: Setup, s: Store, q: Query, o: Outcome): Store {
    if Stores(o) then Put(s, Fetch(c, q, o)) else s
  }

  lemma Ends(c: Setup, s: Store, st: Stats, q: Query, o: Outcome, i: nat)
    requires ValidWorld(c.w)
    ensures Later(c, Progress(s, st, Worker(q, AtEffect(o))), i, 3)
         == Progress(StoreAtEnd(c, s, q, o), Resolver.Finished(st, o.cached, o.v, o.x), Worker(q, Done(o)))
  {
    hide Bump, KeyOf, Put, Fetch, Stores, ReplyOf, ActionOf, Succeeds;
  }

  lemma {:induction false} Rests(c: Setup, p: Progress, i: nat, n: nat)
    requires ValidWorld(c.w) && p.wk.phase.Done?
    ensures Later(c, p, i, n) == p
    decreases n
  {
    if n > 0 {
      Rests(c, p, i, n - 1);
    }
  }

  /** What is cached at the end. */
  lemma EndContents(c: Setup, s: Store, q: Query, o: Outcome)
    requires Whole(s)
    ensures var t := StoreAtEnd(c, s, q, o);
            && Whole(t)
            && Contents(t) == if o.cached.None? && o.v.Forward? && o.x.Answered?
                 then SetList(Contents(s), s.cells.maxSize, KeyOf(c.w, q), Some(o.x.msg), o.x.server, q.storedAt)
                 else Contents(s)
  {
    hide KeyOf, Whole, Put, Contents, Without, Has, MinTtl;
    if Stores(o) {
      PutIsSet(s, KeyOf(c.w, q), o.x.msg, o.x.server, q.storedAt);
    }
  }

  /** Undisturbed steps, from a whole cache. */
  ghost predicate IsStep(c: Setup, s: Store, st: Stats, q: Query, p: Progress)
    requires ValidWorld(c.w) && Whole(s)
  {
    var s' := Step(c.w, c.maxSize, c.lazy, State(Contents(s), st), q);
    && Whole(p.store) && Contents(p.store) == s'.cache && p.stats == s'.stats
    && p.wk.phase.Done?
    && var o := p.wk.phase.o;
       ReplyOf(o.cached, o.v, o.x) == StepReply(c.w, c.lazy, State(Contents(s), st), q)
  }

  /** From the end of Get on: three or four steps. */
  lemma AfterGetEnds(c: Setup, s: Store, st: Stats, q: Query, answer: Option<Msg>, i: nat)
    requires ValidWorld(c.w)
    ensures var o := OutcomeOf(c.w, q, answer);
            Later(c, Progress(s, st, Worker(q, AfterGet(c, q, answer))), i, if answer.Some? then 3 else 4)
            == Progress(StoreAtEnd(c, s, q, o), Resolver.Finished(st, o.cached, o.v, o.x), Worker(q, Done(o)))
  {
    var o, p := OutcomeOf(c.w, q, answer), Progress(s, st, Worker(q, AfterGet(c, q, answer)));
    hide Later, OutcomeOf, StoreAtEnd, Resolver.Finished;
    Ends(c, s, st, q, o, i);
    if answer.None? {
      Routes(c, s, st, q, i);
      LaterAdd(c, p, i, 1, 3);
    }
  }

  lemma NineSteps(c: Setup, s: Store, st: Stats, q: Query, i: nat)
    requires ValidWorld(c.w) && Whole(s) && s.cells.maxSize == c.maxSize && i !in s.cells.gets
    ensures IsStep(c, s, st, q, Later(c, Progress(s, st, Worker(q, AtTotal)), i, 9))
  {
    var st1 := Arrived(st, TypeOf(c.w, q));
    var answer := GetAnswer(Contents(s), c.lazy, KeyOf(c.w, q), q.askedAt);
    var p0, p1 := Progress(s, st, Worker(q, AtTotal)), Progress(s, st1, Worker(q, AtLookup));
    var o, k := OutcomeOf(c.w, q, answer), if answer.Some? then 3 else 4;
    hide Later, Whole, AfterGet, StoreAtEnd, Arrived, Contents, GetList, GetAnswer, SetList;
    Arrives(c, s, st, q, i);
    var n, s1 := Gets(c, s, st1, q, i);
    var p2 := Progress(s1, st1, Worker(q, AfterGet(c, q, answer)));
    AfterGetEnds(c, s1, st1, q, answer, i);
    EndContents(c, s1, q, o);
    var p3 := Later(c, p2, i, k);
    Rests(c, p3, i, 7 - n - k);
    LaterAdd(c, p2, i, k, 7 - n - k);
    LaterAdd(c, p1, i, n, 7 - n);
    LaterAdd(c, p0, i, 2, 7);
    assert Later(c, p0, i, 9) == p3;
    EndIsStep(c, s, st, q, p3);
  }

  lemma EndIsStep(c: Setup, s: Store, st: Stats, q: Query, p: Progress)
    requires ValidWorld(c.w) && Whole(s) && Whole(p.store)
    requires var l, k := Contents(s), KeyOf(c.w, q);
             var o := OutcomeOf(c.w, q, GetAnswer(l, c.lazy, k, q.askedAt));
             && p.wk.phase == Done(o)
             && p.stats == Resolver.Finished(Arrived(st, TypeOf(c.w, q)), o.cached, o.v, o.x)
             && Contents(p.store) ==
                  var l1 := GetList(l, c.lazy, k, q.askedAt);
                  if o.cached.None? && o.v.Forward? && o.x.Answered?
                  then SetList(l1, c.maxSize, k, Some(o.x.msg), o.x.server, q.storedAt) else l1
    ensures IsStep(c, s, st, q, p)
  {
    hide Whole, Contents, Cascade, ExchangeOf, KeyOf, TypeOf, GetList, GetAnswer, SetList, Arrived, Resolver.Finished;
  }

  // ---------- from any state without a race ----------

  /** Only workers are inside Get. */
  ghost predicate GetsAreWorkers(m: Machine) {
    forall g :: g in m.store.cells.gets ==> g < |m.workers|
  }

  lemma GetsOfStep(s: CI.State, step: CI.Step)
    ensures forall g :: g in CI.Next(s, step).gets ==> g in s.gets || (step.Lookup? && step.get == g)
  {
  }

  lemma AdvanceGets(c: Setup, m: Machine, i: nat)
    requires ValidWorld(c.w) && GetsAreWorkers(m) && i < |m.workers|
    ensures GetsAreWorkers(Next(c, m, Advance(i)))
  {
    var wk := m.workers[i];
    CellsMove(c, m.store, wk, i);
    var step := CellStep(c, m.store, wk, i);
    assert step.Some? && step.value.Lookup? ==> step.value.get == i;
    if step.Some? {
      GetsOfStep(m.store.cells, step.value);
    }
    hide StoreAfter, StatsAfter, PhaseAfter, CellStep, CI.Next;
  }

  lemma {:induction false} GetsAlwaysWorkers(c: Setup, moves: seq<Move>)
    requires ValidWorld(c.w)
    ensures GetsAreWorkers(Run(c, Empty(c), moves))
  {
    if moves != [] {
      var m, move := Run(c, Empty(c), moves[..|moves| - 1]), moves[|moves| - 1];
      GetsAlwaysWorkers(c, moves[..|moves| - 1]);
      hide StoreAfter, StatsAfter, PhaseAfter;
      if move.Advance? && move.i < |m.workers| {
        AdvanceGets(c, m, move.i);
      }
    }
  }

  /** As long as no race has happened in the cache, it is whole. */
  lemma NoRaceIsWhole(c: Setup, moves: seq<Move>)
    requires ValidWorld(c.w) && Run(c, Empty(c), moves).store.cells.races == 0
    ensures Whole(Run(c, Empty(c), moves).store) && Run(c, Empty(c), moves).store.cells.maxSize == c.maxSize
  {
    EntriesWereFetched(c, moves);
    CellsAreARun(c, moves);
    hide Run, CI.Run, Projected, Consistent, CI.Agrees;
    CI.WithoutRaces(c.maxSize, Projected(c, moves));
    CI.SizeStays(CI.Initial(c.maxSize), Projected(c, moves));
  }

  /** A query that no other one interferes with. */
  function Alone(q: Query, i: nat): seq<Move> {
    [Start(q)] + seq(9, _ => Advance(i))
  }

  /** From every reachable state in which no race has happened in the cache: left alone, a
      query changes cache and counters, and is answered, as the sequential model says. */
  lemma AloneIsStep(c: Setup, moves: seq<Move>, q: Query)
    requires ValidWorld(c.w) && Run(c, Empty(c), moves).store.cells.races == 0
    ensures var m := Run(c, Empty(c), moves);
            Whole(m.store) &&
            var m' := Run(c, m, Alone(q, |m.workers|));
            && |m'.workers| == |m.workers| + 1 && m'.workers[..|m.workers|] == m.workers
            && IsStep(c, m.store, m.stats, q, Progress(m'.store, m'.stats, m'.workers[|m.workers|]))
  {
    NoRaceIsWhole(c, moves);
    GetsAlwaysWorkers(c, moves);
    var m := Run(c, Empty(c), moves);
    var p := Progress(m.store, m.stats, Worker(q, AtTotal));
    assert |m.workers| !in m.store.cells.gets;
    hide Run, Later, IsStep, Whole, GetsAreWorkers;
    NineSteps(c, m.store, m.stats, q, |m.workers|);
    RunOne(c, m, Start(q), seq(9, _ => Advance(|m.workers|)));
    Advances(c, p, m.workers, 9);
  }
}
