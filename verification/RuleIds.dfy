/** Add of rules.go reads nextID before it takes the lock and increments it under the
    lock. This machine interleaves the two parts of any number of Adds whose rules
    compile, and Deletes. */
module RuleIds {
  import opened Prelude
  import opened Rules

  /** The numbers of the rules in the list, and what each Add in progress has read. */
  datatype Machine = Machine(nextID: nat, numbers: seq<nat>, held: seq<Option<nat>>)

  datatype Step = Read | Append(add: nat) | Delete(number: nat)

  /** The first rule with that number goes. */
  function Removed(numbers: seq<nat>, n: nat): seq<nat> {
    if numbers == [] then []
    else if numbers[0] == n then numbers[1..]
    else [numbers[0]] + Removed(numbers[1..], n)
  }

  predicate Appends(m: Machine, step: Step) {
    step.Append? && step.add < |m.held| && m.held[step.add].Some?
  }

  function Next(m: Machine, step: Step): Machine {
    match step
    case Read => m.(held := m.held + [Some(m.nextID)])
    case Append(i) =>
      if Appends(m, step) then
        Machine(m.nextID + 1, m.numbers + [m.held[i].value], m.held[i := None])
      else m
    case Delete(n) => m.(numbers := Removed(m.numbers, n))
  }

  const FRESH: Machine := Machine(1, [], [])

  function Run(steps: seq<Step>): Machine {
    if steps == [] then FRESH else Next(Run(steps[..|steps| - 1]), steps[|steps| - 1])
  }

  /** An append is stale when another one came between it and its read. */
  predicate Stale(m: Machine, step: Step) {
    Appends(m, step) && m.held[step.add].value != m.nextID
  }

  /** It clashes when a rule with the number it read is in the list. */
  predicate Clashes(m: Machine, step: Step) {
    Appends(m, step) && m.held[step.add].value in m.numbers
  }

  ghost predicate Inv(m: Machine) {
    && m.nextID >= 1
    && (forall i :: 0 <= i < |m.held| && m.held[i].Some? ==> 1 <= m.held[i].value <= m.nextID)
    && (forall i :: 0 <= i < |m.numbers| ==> 1 <= m.numbers[i] < m.nextID)
  }

  lemma {:induction false} RemovedIsCut(numbers: seq<nat>, n: nat)
    ensures forall x :: x in Removed(numbers, n) ==> x in numbers
    ensures Distinct(numbers) ==> Distinct(Removed(numbers, n))
  {
    if numbers != [] && numbers[0] != n {
      RemovedIsCut(numbers[1..], n);
      if Distinct(numbers) {
        assert Distinct(numbers[1..]) && numbers[0] !in numbers[1..];
      }
    }
  }

  lemma NextInv(m: Machine, step: Step)
    requires Inv(m)
    ensures Inv(Next(m, step))
  {
    if step.Delete? {
      RemovedIsCut(m.numbers, step.number);
      var r := Removed(m.numbers, step.number);
      assert forall i :: 0 <= i < |r| ==> r[i] in r;
    }
  }

  lemma {:induction false} RunInv(steps: seq<Step>)
    ensures Inv(Run(steps))
  {
    if steps != [] {
      RunInv(steps[..|steps| - 1]);
      NextInv(Run(steps[..|steps| - 1]), steps[|steps| - 1]);
    }
  }

  lemma DistinctStep(m: Machine, step: Step)
    requires Distinct(m.numbers)
    ensures Distinct(Next(m, step).numbers) <==> !Clashes(m, step)
  {
    if step.Delete? {
      RemovedIsCut(m.numbers, step.number);
    } else if Clashes(m, step) {
      var h, n := m.held[step.add].value, |m.numbers|;
      var i :| 0 <= i < n && m.numbers[i] == h;
      var t := Next(m, step).numbers;
      assert t[i] == t[n];
    }
  }

  /** The rules of a machine have different identifiers. */
  ghost predicate DifferentIds(m: Machine) {
    forall i, j :: 0 <= i < j < |m.numbers| ==> FormatId(m.numbers[i]) != FormatId(m.numbers[j])
  }

  lemma DifferentIffDistinct(m: Machine)
    ensures DifferentIds(m) <==> Distinct(m.numbers)
  {
    hide FormatId;
    forall i, j | 0 <= i < j < |m.numbers| && FormatId(m.numbers[i]) == FormatId(m.numbers[j])
      ensures m.numbers[i] == m.numbers[j]
    {
      FormatIdInjective(m.numbers[i], m.numbers[j]);
    }
  }

  ghost predicate AlwaysDifferent(steps: seq<Step>) {
    forall i :: 0 <= i <= |steps| ==> DifferentIds(Run(steps[..i]))
  }

  ghost predicate NeverClashes(steps: seq<Step>) {
    forall i :: 0 <= i < |steps| ==> !Clashes(Run(steps[..i]), steps[i])
  }

  lemma OneMoreStep(steps: seq<Step>)
    requires steps != []
    ensures var front := steps[..|steps| - 1];
            && (AlwaysDifferent(steps) <==> AlwaysDifferent(front) && DifferentIds(Run(steps)))
            && (NeverClashes(steps) <==> NeverClashes(front) && !Clashes(Run(front), steps[|front|]))
            && (AlwaysDifferent(front) ==> DifferentIds(Run(front)))
  {
    hide Run, DifferentIds, Clashes;
    var front := steps[..|steps| - 1];
    assert steps[..|steps|] == steps && front[..|front|] == front;
    assert forall i :: 0 <= i <= |front| ==> steps[..i] == front[..i];
  }

  /** The identifiers in the list differ in every state of a run if and only if no append
      in it clashes. */
  lemma {:induction false} DifferentIffNoClash(steps: seq<Step>)
    ensures AlwaysDifferent(steps) <==> NeverClashes(steps)
  {
    if steps == [] {
      assert Run([]) == FRESH;
    } else {
      var front := steps[..|steps| - 1];
      DifferentIffNoClash(front);
      OneMoreStep(steps);
      DifferentIffDistinct(Run(front));
      DifferentIffDistinct(Run(steps));
      hide AlwaysDifferent, NeverClashes, DifferentIds;
      if Distinct(Run(front).numbers) {
        DistinctStep(Run(front), steps[|front|]);
      }
    }
  }

  /** An append that clashes is stale, so Adds that do not overlap never clash. */
  lemma ClashIsStale(steps: seq<Step>, step: Step)
    requires Clashes(Run(steps), step)
    ensures Stale(Run(steps), step)
  {
    RunInv(steps);
  }

  /** As long as nothing is deleted and no append was stale, the list is 1, 2, 3 ... */
  lemma {:induction false} NumbersInOrder(steps: seq<Step>)
    requires forall i :: 0 <= i < |steps| ==> !steps[i].Delete? && !Stale(Run(steps[..i]), steps[i])
    ensures var m := Run(steps);
            m.nextID == |m.numbers| + 1 && forall i :: 0 <= i < |m.numbers| ==> m.numbers[i] == i + 1
  {
    if steps != [] {
      var front := steps[..|steps| - 1];
      assert front[..|front|] == front;
      assert forall i :: 0 <= i <= |front| ==> steps[..i] == front[..i];
      NumbersInOrder(front);
    }
  }

  /** Without Deletes the first stale append clashes: somebody has used its number. After a
      Delete it need not. */
  lemma FirstStaleClashes(steps: seq<Step>, step: Step)
    requires forall i :: 0 <= i < |steps| ==> !steps[i].Delete? && !Stale(Run(steps[..i]), steps[i])
    requires Stale(Run(steps), step)
    ensures Clashes(Run(steps), step)
  {
    NumbersInOrder(steps);
    RunInv(steps);
    var m := Run(steps);
    var h := m.held[step.add].value;
    assert m.numbers[h - 1] == h;
  }

  /** Two Adds that both read before either appends get the same identifier, unless the
      first rule is deleted before the second append. */
  lemma OverlappingAdds()
    ensures Run([Read, Read, Append(0), Append(1)]).numbers == [1, 1]
    ensures Run([Read, Read, Append(0), Delete(1), Append(1)]).numbers == [1]
  {
    var s := [Read, Read, Append(0), Append(1)];
    var t := [Read, Read, Append(0), Delete(1), Append(1)];
    assert s[..3] == t[..4][..3] == [Read, Read, Append(0)] && t[..4] == [Read, Read, Append(0), Delete(1)];
    assert [Read, Read, Append(0)][..2] == [Read, Read] && [Read, Read][..1] == [Read] && [Read][..0] == [];
    assert Run([Read]) == Machine(1, [], [Some(1)]);
    assert Run([Read, Read]) == Machine(1, [], [Some(1), Some(1)]);
    assert Run([Read, Read, Append(0)]) == Machine(2, [1], [None, Some(1)]);
    assert Run(t[..4]) == Machine(2, [], [None, Some(1)]);
  }
}
