/** The lock-free counter increment of resolver.go: every goroutine loops over
    LoadOrStore and CompareAndSwap on one key. */
module Counters {
  import opened Prelude

  /** Where one goroutine is: before LoadOrStore, holding a loaded value, or done. */
  datatype Worker = Start | Loaded(value: nat) | Finished

  datatype State = State(stored: Option<nat>, workers: seq<Worker>)

  datatype Step = LoadOrStore(w: nat) | CompareAndSwap(w: nat)

  function Next(s: State, step: Step): State {
    if step.w >= |s.workers| then s
    else match step
      case LoadOrStore(w) =>
        if !s.workers[w].Start? then s
        else if s.stored == None then State(Some(1), s.workers[w := Finished])
        else s.(workers := s.workers[w := Loaded(s.stored.value)])
      case CompareAndSwap(w) =>
        if !s.workers[w].Loaded? then s
        else if s.stored == Some(s.workers[w].value) then
          State(Some(s.workers[w].value + 1), s.workers[w := Finished])
        else s.(workers := s.workers[w := Start])
  }

  function Run(s: State, steps: seq<Step>): State {
    if steps == [] then s else Next(Run(s, steps[..|steps| - 1]), steps[|steps| - 1])
  }

  function Value(stored: Option<nat>): nat {
    match stored case None => 0 case Some(v) => v
  }

  function Done(ws: seq<Worker>): nat {
    if ws == [] then 0 else Done(ws[..|ws| - 1]) + (if ws[|ws| - 1].Finished? then 1 else 0)
  }

  /** Nothing is lost: the value grew by the number of finished goroutines. */
  ghost predicate Exact(s: State, base: nat) {
    && Value(s.stored) == base + Done(s.workers)
    && forall i :: 0 <= i < |s.workers| && s.workers[i].Loaded? ==> s.workers[i].value <= Value(s.stored)
  }

  lemma {:induction false} DoneUpdate(ws: seq<Worker>, i: nat, w: Worker)
    requires i < |ws|
    ensures Done(ws[i := w]) == Done(ws) + (if w.Finished? then 1 else 0) - (if ws[i].Finished? then 1 else 0)
  {
    var front := ws[..|ws| - 1];
    if i < |front| {
      DoneUpdate(front, i, w);
      assert ws[i := w][..|ws| - 1] == front[i := w];
    } else {
      assert ws[i := w][..|ws| - 1] == front;
    }
  }

  lemma NextExact(s: State, step: Step, base: nat)
    requires Exact(s, base)
    ensures Exact(Next(s, step), base)
    ensures Value(Next(s, step).stored) >= Value(s.stored)
    ensures s.stored.Some? ==> Next(s, step).stored.Some?
  {
    if step.w < |s.workers| {
      DoneUpdate(s.workers, step.w, Finished);
      DoneUpdate(s.workers, step.w, Start);
      DoneUpdate(s.workers, step.w, Loaded(Value(s.stored)));
    }
  }

  /** In every interleaving of any number of increments of one key, in every state,
      the stored value is the initial one plus the number of finished increments. */
  lemma {:induction false} NoIncrementLost(s: State, steps: seq<Step>, base: nat)
    requires Exact(s, base)
    ensures Exact(Run(s, steps), base)
    ensures Value(Run(s, steps).stored) >= Value(s.stored)
    ensures s.stored.Some? ==> Run(s, steps).stored.Some?
  {
    if steps != [] {
      NoIncrementLost(s, steps[..|steps| - 1], base);
      NextExact(Run(s, steps[..|steps| - 1]), steps[|steps| - 1], base);
    }
  }

  /** A swap that fails has been overtaken: since the value was loaded, some other
      increment has finished. So the loop as a whole always makes progress. */
  lemma FailedSwapMeansProgress(s: State, steps: seq<Step>, w: nat, base: nat)
    requires Exact(s, base) && w < |s.workers| && s.workers[w] == Start && s.stored.Some?
    requires var t := Run(Next(s, LoadOrStore(w)), steps);
             w < |t.workers| && t.workers[w] == Loaded(s.stored.value) && t.stored != Some(s.stored.value)
    ensures Done(Run(Next(s, LoadOrStore(w)), steps).workers) > Done(s.workers)
  {
    NextExact(s, LoadOrStore(w), base);
    NoIncrementLost(Next(s, LoadOrStore(w)), steps, base);
  }
}
