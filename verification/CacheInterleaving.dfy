/** Get takes the cache lock twice. This state machine interleaves its parts with
    whole Sets, Deletes and other Gets. List elements are numbers; an element keeps
    its key for life, and list operations on unlinked elements do nothing. Whether a
    looked-up entry has expired is left open; a Set is one that takes effect. */
module CacheInterleaving {
  import opened Prelude
  import opened Cache

  /** Which strings they are does not matter here. */
  type Key = string

  type Elem = int

  /** What a running Get holds: the element it looked up, then whether it will remove
      it (expired, not lazy) or only touch it. */
  datatype Held = Looked(elem: Elem) | Decided(elem: Elem, remove: bool)

  datatype State = State(
    maxSize: nat,
    entries: map<Key, Elem>,
    list: seq<Elem>,
    keyOf: seq<Key>,          // the key of each element ever made
    gets: map<nat, Held>,        // the Gets between their lock sections
    races: nat)                  // removals that hit another element's map entry

  datatype Step =
    | Lookup(get: nat, key: Key)
    | Decide(get: nat, remove: bool)
    | Finish(get: nat)
    | Set(key: Key)
    | Delete(key: Key)

  function Evict(s: State): State {
    if s.list == [] then s
    else
      var oldest := s.list[|s.list| - 1];
      s.(entries := if 0 <= oldest < |s.keyOf| then s.entries - {s.keyOf[oldest]} else s.entries,
         list := Unlink(s.list, oldest))
  }

  function PushNew(s: State, k: Key): State {
    s.(entries := s.entries[k := |s.keyOf|], list := [|s.keyOf|] + s.list, keyOf := s.keyOf + [k])
  }

  function FinishGet(s: State, e: Elem, remove: bool): (r: State)
    ensures r.gets == s.gets && r.keyOf == s.keyOf && r.maxSize == s.maxSize
  {
    if !(0 <= e < |s.keyOf|) then s
    else if remove then
      var k := s.keyOf[e];
      s.(entries := s.entries - {k},
         list := Unlink(s.list, e),
         races := s.races + (if k in s.entries && s.entries[k] != e then 1 else 0))
    else s.(list := MoveToFront(s.list, e))
  }

  /** One atomic step; a step that is not enabled changes nothing. */
  function Next(s: State, step: Step): State {
    match step
    case Lookup(g, k) =>
      if g in s.gets || k !in s.entries then s else s.(gets := s.gets[g := Looked(s.entries[k])])
    case Decide(g, remove) =>
      if g in s.gets && s.gets[g].Looked? then s.(gets := s.gets[g := Decided(s.gets[g].elem, remove)]) else s
    case Finish(g) =>
      if g in s.gets && s.gets[g].Decided? then
        FinishGet(s, s.gets[g].elem, s.gets[g].remove).(gets := s.gets - {g})
      else s
    case Set(k) =>
      if k in s.entries then s.(list := MoveToFront(s.list, s.entries[k]))
      else PushNew(if |s.entries| >= s.maxSize then Evict(s) else s, k)
    case Delete(k) =>
      if k in s.entries then s.(entries := s.entries - {k}, list := Unlink(s.list, s.entries[k])) else s
  }

  function Run(s: State, steps: seq<Step>): State {
    if steps == [] then s else Next(Run(s, steps[..|steps| - 1]), steps[|steps| - 1])
  }

  function Initial(maxSize: nat): State {
    State(maxSize, map[], [], [], map[], 0)
  }

  // ---------- the invariant ----------

  /** Every map entry leads to an element still linked that carries that very key. */
  ghost predicate MappedAreLinked(entries: map<Key, Elem>, list: seq<Elem>, keyOf: seq<Key>) {
    && Distinct(list)
    && (forall e :: e in list ==> 0 <= e < |keyOf|)
    && (forall k :: k in entries ==> entries[k] in list && keyOf[entries[k]] == k)
  }

  ghost predicate Inv(s: State) {
    && MappedAreLinked(s.entries, s.list, s.keyOf)
    && (forall g :: g in s.gets ==> 0 <= s.gets[g].elem < |s.keyOf|)
    && |s.list| <= |s.entries| + s.races
    && |s.list| <= Max(1, s.maxSize) + s.races
  }

  lemma {:induction false} UnlinkLinked(list: seq<Elem>, e: Elem)
    requires Distinct(list)
    ensures Distinct(Unlink(list, e)) && e !in Unlink(list, e)
    ensures forall x :: x in Unlink(list, e) <==> x in list && x != e
    ensures |Unlink(list, e)| == |list| - (if e in list then 1 else 0)
  {
    if e in list {
      var i :| 0 <= i < |list| && list[i] == e;
      UnlinkAt(list, i);
      CutDistinct(list, i);
      assert Unlink(list, e) == Cut(list, i);
      assert forall x :: x in list ==> x in list[..i] || x == e || x in list[i + 1..];
    }
  }

  lemma RemoveKey<V>(m: map<Key, V>, k: Key)
    ensures |m - {k}| == |m| - (if k in m then 1 else 0)
  {
    assert (m - {k}).Keys == m.Keys - {k};
    assert |m - {k}| == |(m - {k}).Keys| && |m| == |m.Keys|;
  }

  lemma {:induction false} KeysFit(ks: set<Key>, list: seq<Elem>, keyOf: seq<Key>)
    requires forall e :: e in list ==> 0 <= e < |keyOf|
    requires forall k :: k in ks ==> exists e :: e in list && keyOf[e] == k
    ensures |ks| <= |list|
  {
    if list == [] {
      assert ks == {};
    } else {
      assert list[0] in list && forall e :: e in list[1..] ==> e in list;
      var k0 := keyOf[list[0]];
      forall k | k in ks - {k0}
        ensures exists e :: e in list[1..] && keyOf[e] == k
      {
        var e :| e in list && keyOf[e] == k;
        assert e in list[1..];
      }
      KeysFit(ks - {k0}, list[1..], keyOf);
    }
  }

  lemma EvictInv(s: State)
    requires MappedAreLinked(s.entries, s.list, s.keyOf) && s.list != []
    ensures MappedAreLinked(Evict(s).entries, Evict(s).list, s.keyOf)
    ensures |Evict(s).entries| >= |s.entries| - 1 && |Evict(s).list| == |s.list| - 1
  {
    var oldest := s.list[|s.list| - 1];
    assert oldest in s.list;
    RemovedInv(s.entries, s.list, s.keyOf, oldest);
    hide MappedAreLinked, Unlink;
    RemoveKey(s.entries, s.keyOf[oldest]);
    UnlinkLinked(s.list, oldest);
  }

  /** Taking an element out of the list and its key out of the map. */
  lemma RemovedInv(entries: map<Key, Elem>, list: seq<Elem>, keyOf: seq<Key>, e: Elem)
    requires MappedAreLinked(entries, list, keyOf) && 0 <= e < |keyOf|
    ensures MappedAreLinked(entries - {keyOf[e]}, Unlink(list, e), keyOf)
  {
    UnlinkLinked(list, e);
    hide Unlink, Distinct;
  }

  lemma PushInv(s: State, k: Key)
    requires MappedAreLinked(s.entries, s.list, s.keyOf) && k !in s.entries
    ensures MappedAreLinked(PushNew(s, k).entries, PushNew(s, k).list, PushNew(s, k).keyOf)
    ensures |PushNew(s, k).entries| == |s.entries| + 1
  {
    assert |s.keyOf| !in s.list;
    assert forall e :: e in PushNew(s, k).list <==> e == |s.keyOf| || e in s.list;
  }

  lemma FinishInv(s: State, e: Elem, remove: bool)
    requires Inv(s) && 0 <= e < |s.keyOf|
    ensures Inv(FinishGet(s, e, remove))
  {
    UnlinkLinked(s.list, e);
    RemoveKey(s.entries, s.keyOf[e]);
    FrontLinked(s.list, e);
  }

  lemma FrontLinked(list: seq<Elem>, e: Elem)
    requires Distinct(list)
    ensures Distinct(MoveToFront(list, e)) && |MoveToFront(list, e)| == |list|
    ensures forall x :: x in MoveToFront(list, e) <==> x in list
  {
    UnlinkLinked(list, e);
  }

  lemma SetInv(s: State, k: Key)
    requires Inv(s) && k !in s.entries
    ensures Inv(Next(s, Set(k)))
  {
    var room := if |s.entries| >= s.maxSize then Evict(s) else s;
    if s.list != [] {
      EvictInv(s);
    }
    hide MappedAreLinked;
    assert MappedAreLinked(room.entries, room.list, room.keyOf);
    PushInv(room, k);
  }

  lemma TouchInv(s: State, k: Key)
    requires Inv(s) && k in s.entries
    ensures Inv(s.(list := MoveToFront(s.list, s.entries[k])))
  {
    FrontLinked(s.list, s.entries[k]);
    hide MoveToFront, Distinct;
  }

  lemma DeleteInv(s: State, k: Key)
    requires Inv(s) && k in s.entries
    ensures Inv(s.(entries := s.entries - {k}, list := Unlink(s.list, s.entries[k])))
  {
    var e := s.entries[k];
    assert e in s.list && 0 <= e < |s.keyOf| && s.keyOf[e] == k;
    UnlinkLinked(s.list, e);
    RemovedInv(s.entries, s.list, s.keyOf, e);
    hide MappedAreLinked, Unlink, Distinct;
    RemoveKey(s.entries, k);
  }

  lemma LookupInv(s: State, g: nat, k: Key)
    requires Inv(s) && k in s.entries
    ensures Inv(s.(gets := s.gets[g := Looked(s.entries[k])]))
  {
    assert s.entries[k] in s.list;
    hide Distinct;
  }

  lemma DoneInv(s: State, g: nat)
    requires Inv(s)
    ensures Inv(s.(gets := s.gets - {g}))
  {
    hide MappedAreLinked;
  }

  lemma NextInv(s: State, step: Step)
    requires Inv(s)
    ensures Inv(Next(s, step))
  {
    hide MappedAreLinked, FinishGet, Unlink, MoveToFront, Evict, PushNew;
    match step
    case Lookup(g, k) =>
      if k in s.entries {
        LookupInv(s, g, k);
      }
    case Decide(g, remove) =>
      if g in s.gets {
        assert 0 <= s.gets[g].elem < |s.keyOf|;
      }
    case Finish(g) =>
      if g in s.gets && s.gets[g].Decided? {
        FinishInv(s, s.gets[g].elem, s.gets[g].remove);
        hide Inv;
        DoneInv(FinishGet(s, s.gets[g].elem, s.gets[g].remove), g);
      }
    case Set(k) =>
      if k in s.entries {
        TouchInv(s, k);
      } else {
        SetInv(s, k);
      }
    case Delete(k) =>
      if k in s.entries {
        DeleteInv(s, k);
      }
  }

  /** In every reachable state each key maps to a linked element that carries it, no
      more elements are linked than keys mapped plus races, and the list exceeds the
      size bound by at most the number of races. */
  lemma {:induction false} ReachableInv(maxSize: nat, steps: seq<Step>)
    ensures Inv(Run(Initial(maxSize), steps))
    ensures var s := Run(Initial(maxSize), steps);
            |s.entries| <= |s.list| <= Max(1, maxSize) + s.races && |s.list| <= |s.entries| + s.races
  {
    if steps != [] {
      ReachableInv(maxSize, steps[..|steps| - 1]);
      NextInv(Run(Initial(maxSize), steps[..|steps| - 1]), steps[|steps| - 1]);
      SizeStays(Initial(maxSize), steps);
    }
    var s := Run(Initial(maxSize), steps);
    forall k | k in s.entries.Keys
      ensures exists e :: e in s.list && s.keyOf[e] == k
    {
      assert s.entries[k] in s.list;
    }
    KeysFit(s.entries.Keys, s.list, s.keyOf);
  }

  lemma {:induction false} SizeStays(s: State, steps: seq<Step>)
    ensures Run(s, steps).maxSize == s.maxSize
  {
    hide Next;
    if steps != [] {
      SizeStays(s, steps[..|steps| - 1]);
      NextSize(Run(s, steps[..|steps| - 1]), steps[|steps| - 1]);
    }
  }

  /** Map and list hold the same: every linked element is what its own key maps to. */
  ghost predicate Agrees(s: State) {
    && |s.entries| == |s.list|
    && forall e :: e in s.list ==> 0 <= e < |s.keyOf| && s.keyOf[e] in s.entries && s.entries[s.keyOf[e]] == e
  }

  /** As long as no race has happened the map and the list agree, and the size bound
      holds. */
  lemma WithoutRaces(maxSize: nat, steps: seq<Step>)
    requires Run(Initial(maxSize), steps).races == 0
    ensures Agrees(Run(Initial(maxSize), steps))
    ensures |Run(Initial(maxSize), steps).list| <= Max(1, maxSize)
  {
    ReachableInv(maxSize, steps);
    var s := Run(Initial(maxSize), steps);
    hide Run;
    forall e | e in s.list
      ensures s.keyOf[e] in s.entries && s.entries[s.keyOf[e]] == e
    {
      if !(s.keyOf[e] in s.entries && s.entries[s.keyOf[e]] == e) {
        var others := Unlink(s.list, e);
        UnlinkLinked(s.list, e);
        forall k | k in s.entries.Keys
          ensures exists x :: x in others && s.keyOf[x] == k
        {
          assert s.entries[k] in others;
        }
        KeysFit(s.entries.Keys, others, s.keyOf);
      }
    }
  }

  /** A step that counts a race leaves an element linked that no key maps to. */
  lemma RaceDisagrees(s: State, step: Step)
    requires Inv(s)
    ensures Next(s, step).races >= s.races
    ensures Next(s, step).races > s.races ==> !Agrees(Next(s, step))
  {
    hide Unlink, MoveToFront, PushNew, Distinct;
    if step.Finish? && step.get in s.gets && s.gets[step.get].Decided? {
      var e := s.gets[step.get].elem;
      var k := s.keyOf[e];
      UnlinkLinked(s.list, e);
      if k in s.entries && s.entries[k] != e {
        assert s.entries[k] in Unlink(s.list, e) && s.keyOf[s.entries[k]] == k;
      }
    } else if step.Set? {
      PushKeepsRaces(s, step.key);
    }
  }

  lemma PushKeepsRaces(s: State, k: Key)
    ensures Next(s, Set(k)).races == s.races
  {
  }

  /** Map and list agree in every state of a run if and only if it has no race. */
  lemma {:induction false} AgreesIffNoRace(maxSize: nat, steps: seq<Step>)
    ensures Run(Initial(maxSize), steps).races == 0
            <==> forall i :: 0 <= i <= |steps| ==> Agrees(Run(Initial(maxSize), steps[..i]))
  {
    hide Next, Agrees;
    assert steps[..|steps|] == steps;
    if steps == [] {
      WithoutRaces(maxSize, []);
    } else {
      var front := steps[..|steps| - 1];
      AgreesIffNoRace(maxSize, front);
      assert forall i :: 0 <= i <= |front| ==> steps[..i] == front[..i];
      ReachableInv(maxSize, front);
      RaceDisagrees(Run(Initial(maxSize), front), steps[|steps| - 1]);
      if Run(Initial(maxSize), steps).races == 0 {
        WithoutRaces(maxSize, steps);
      }
    }
  }

  /** How a race happens: two Gets give up on the same expired element, and the key
      is set again between their removals. The second removal then unmaps the new
      element, which stays linked. */
  lemma Race(s: State, g1: nat, g2: nat, e: Elem)
    requires Inv(s) && g1 != g2 && g1 in s.gets && g2 in s.gets
    requires s.gets[g1] == s.gets[g2] == Decided(e, true)
    requires s.keyOf[e] in s.entries && s.entries[s.keyOf[e]] == e && |s.entries| <= s.maxSize
    ensures var k := s.keyOf[e];
            var s' := Next(Next(Next(s, Finish(g1)), Set(k)), Finish(g2));
            && s'.entries == s.entries - {k}
            && s'.list == [|s.keyOf|] + Unlink(s.list, e)
            && s'.keyOf == s.keyOf + [k]
            && s'.races == s.races + 1
  {
    hide Next, FinishGet, Inv, Unlink, Distinct, MappedAreLinked;
    BeforeRace(s, g1, e);
    var k := s.keyOf[e];
    FinishStep(s, g1, e);
    var s1 := Next(s, Finish(g1));
    SetStep(s1, k);
    SecondRemoval(PushNew(s1, k), g2, e, k);
    assert (s.entries - {k})[k := |s.keyOf|] - {k} == s.entries - {k};
  }

  lemma BeforeRace(s: State, g: nat, e: Elem)
    requires Inv(s) && g in s.gets && s.gets[g] == Decided(e, true) && s.keyOf[e] in s.entries
    ensures 0 <= e < |s.keyOf| && e !in [|s.keyOf|] + Unlink(s.list, e)
    ensures |s.entries - {s.keyOf[e]}| == |s.entries| - 1
  {
    UnlinkLinked(s.list, e);
    RemoveKey(s.entries, s.keyOf[e]);
  }

  /** A removal after the key has been set again. */
  lemma SecondRemoval(s: State, g: nat, e: Elem, k: Key)
    requires g in s.gets && s.gets[g] == Decided(e, true)
    requires 0 <= e < |s.keyOf| && s.keyOf[e] == k && k in s.entries && s.entries[k] != e && e !in s.list
    ensures var t := Next(s, Finish(g));
            t.entries == s.entries - {k} && t.list == s.list && t.keyOf == s.keyOf && t.races == s.races + 1
  {
    FinishStep(s, g, e);
  }

  lemma FinishStep(s: State, g: nat, e: Elem)
    requires g in s.gets && s.gets[g] == Decided(e, true)
    ensures Next(s, Finish(g)) == FinishGet(s, e, true).(gets := s.gets - {g})
    ensures 0 <= e < |s.keyOf| ==>
              var s' := Next(s, Finish(g));
              && s'.entries == s.entries - {s.keyOf[e]} && s'.list == Unlink(s.list, e) && s'.keyOf == s.keyOf
              && s'.maxSize == s.maxSize
              && s'.races == s.races + (if s.keyOf[e] in s.entries && s.entries[s.keyOf[e]] != e then 1 else 0)
  {
  }

  /** And how it overfills the map: evicting an element that no key maps to frees no
      place, yet the new key gets one. */
  lemma Overfill(s: State, k: Key)
    requires s.list != [] && 0 <= s.list[|s.list| - 1] < |s.keyOf|
    requires s.keyOf[s.list[|s.list| - 1]] !in s.entries
    requires |s.entries| >= s.maxSize && k !in s.entries
    ensures |Next(s, Set(k)).entries| == |s.entries| + 1
  {
    SetFull(s, k);
    hide Unlink, Next;
    NewKey(s.entries, k, |s.keyOf|);
    assert Evict(s).entries == s.entries;
  }

  lemma SetFull(s: State, k: Key)
    requires k !in s.entries && |s.entries| >= s.maxSize
    ensures Next(s, Set(k)) == PushNew(Evict(s), k)
  {
    hide Evict, PushNew;
  }

  lemma NewKey<V>(m: map<Key, V>, k: Key, v: V)
    requires k !in m
    ensures |m[k := v]| == |m| + 1
  {
    assert m[k := v].Keys == m.Keys + {k};
    assert |m[k := v]| == |m[k := v].Keys| && |m| == |m.Keys|;
  }

  lemma TwoMoreKeys(t: State, k: Key, k1: Key, k2: Key)
    requires t.maxSize == 1 && t.entries == map[] && t.list == [1] && t.keyOf == [k, k]
    requires k != k1 && k != k2 && k1 != k2
    ensures |Next(t, Set(k1)).list| == 2 && |Next(Next(t, Set(k1)), Set(k2)).entries| == 2
  {
    hide Next, Evict;
    SetStep(t, k1);
    var u := PushNew(t, k1);
    assert u.list == [2, 1] && u.keyOf == [k, k, k1] && u.entries == map[k1 := 2];
    assert |u.entries| == 1;
    Overfill(u, k2);
  }

  lemma SetStep(s: State, k: Key)
    requires k !in s.entries && |s.entries| < s.maxSize
    ensures Next(s, Set(k)) == PushNew(s, k)
  {
  }

  lemma NextSize(s: State, step: Step)
    ensures Next(s, step).maxSize == s.maxSize
  {
  }

  lemma {:induction false} RunAppend(s: State, a: seq<Step>, b: seq<Step>)
    ensures Run(s, a + b) == Run(Run(s, a), b)
  {
    hide Next;
    if b == [] {
      assert a + b == a;
    } else {
      assert (a + b)[..|a + b| - 1] == a + b[..|b| - 1];
      RunAppend(s, a, b[..|b| - 1]);
    }
  }

  lemma RunTwo(s: State, x: Step, y: Step)
    ensures Run(s, [x]) == Next(s, x) && Run(s, [x, y]) == Next(Next(s, x), y)
  {
    hide Next;
    assert [x][..0] == [] && [x, y][..1] == [x];
    assert Run(s, []) == s;
  }

  /** Two Gets look the same key up and find it expired before either removes it. */
  function BothGiveUp(g1: nat, g2: nat, k: Key): seq<Step> {
    [Set(k)] + [Lookup(g1, k), Lookup(g2, k)] + [Decide(g1, true), Decide(g2, true)]
  }

  lemma AfterGivingUp(g1: nat, g2: nat, k: Key)
    requires g1 != g2
    ensures Run(Initial(1), BothGiveUp(g1, g2, k))
            == State(1, map[k := 0], [0], [k], map[g1 := Decided(0, true), g2 := Decided(0, true)], 0)
  {
    var s1 := State(1, map[k := 0], [0], [k], map[], 0);
    assert PushNew(Initial(1), k) == s1;
    SetStep(Initial(1), k);
    hide PushNew, Evict, Initial;
    var s2 := s1.(gets := map[g1 := Looked(0), g2 := Looked(0)]);
    assert Next(Next(s1, Lookup(g1, k)), Lookup(g2, k)) == s2;
    assert Next(Next(s2, Decide(g1, true)), Decide(g2, true))
        == s1.(gets := map[g1 := Decided(0, true), g2 := Decided(0, true)]);
    hide Next, Run;
    RunTwo(Initial(1), Set(k), Set(k));
    RunTwo(s1, Lookup(g1, k), Lookup(g2, k));
    RunTwo(s2, Decide(g1, true), Decide(g2, true));
    RunAppend(Initial(1), [Set(k)], [Lookup(g1, k), Lookup(g2, k)]);
    RunAppend(Initial(1), [Set(k)] + [Lookup(g1, k), Lookup(g2, k)], [Decide(g1, true), Decide(g2, true)]);
  }

  /** Both run to their ends with a Set between them. */
  function BothRemove(g1: nat, g2: nat, k: Key): seq<Step> {
    [Finish(g1), Set(k)] + [Finish(g2)]
  }

  lemma RaceInOne(s: State, g1: nat, g2: nat, k: Key)
    requires s == State(1, map[k := 0], [0], [k], map[g1 := Decided(0, true), g2 := Decided(0, true)], 0)
    requires g1 != g2
    ensures var t := Next(Next(Next(s, Finish(g1)), Set(k)), Finish(g2));
            t.maxSize == 1 && t.entries == map[] && t.list == [1] && t.keyOf == [k, k]
  {
    assert Inv(s) && s.entries - {k} == map[] && Unlink([0], 0) == [];
    hide Next, Inv, Evict, Unlink;
    Race(s, g1, g2, 0);
    NextSize(s, Finish(g1));
    NextSize(Next(s, Finish(g1)), Set(k));
    NextSize(Next(Next(s, Finish(g1)), Set(k)), Finish(g2));
  }

  lemma AfterRemoving(g1: nat, g2: nat, k: Key)
    requires g1 != g2
    ensures var t := Run(Initial(1), BothGiveUp(g1, g2, k) + BothRemove(g1, g2, k));
            t.maxSize == 1 && t.entries == map[] && t.list == [1] && t.keyOf == [k, k]
  {
    AfterGivingUp(g1, g2, k);
    hide Next, Run, Initial, BothGiveUp;
    var s := Run(Initial(1), BothGiveUp(g1, g2, k));
    RaceInOne(s, g1, g2, k);
    RunTwo(s, Finish(g1), Set(k));
    RunTwo(Run(s, [Finish(g1), Set(k)]), Finish(g2), Set(k));
    RunAppend(s, [Finish(g1), Set(k)], [Finish(g2)]);
    RunAppend(Initial(1), BothGiveUp(g1, g2, k), BothRemove(g1, g2, k));
  }

  /** The whole failure, from the start, in a cache of size 1: after eight steps an
      element is linked that no key maps to, one key later the list holds two elements,
      and two keys later the map holds two. */
  lemma RaceBreaksBound(g1: nat, g2: nat, k: Key, k1: Key, k2: Key)
    requires g1 != g2 && k != k1 && k != k2 && k1 != k2
    ensures var race := BothGiveUp(g1, g2, k) + BothRemove(g1, g2, k);
            && !Agrees(Run(Initial(1), race))
            && |Run(Initial(1), race + [Set(k1)]).list| == 2
            && |Run(Initial(1), race + [Set(k1), Set(k2)]).entries| == 2
  {
    AfterRemoving(g1, g2, k);
    hide Next, Run, BothGiveUp, BothRemove, Initial;
    var race := BothGiveUp(g1, g2, k) + BothRemove(g1, g2, k);
    var t := Run(Initial(1), race);
    TwoMoreKeys(t, k, k1, k2);
    RunTwo(t, Set(k1), Set(k2));
    RunAppend(Initial(1), race, [Set(k1)]);
    RunAppend(Initial(1), race, [Set(k1), Set(k2)]);
    assert t.list[0] == 1;
  }

  // ---------- exactly when the bounds fail ----------

  /** Eviction picks an element that no key maps to, or finds none. */
  predicate Unmapped(s: State) {
    s.list == [] ||
    var oldest := s.list[|s.list| - 1];
    !(0 <= oldest < |s.keyOf|) || s.keyOf[oldest] !in s.entries
  }

  /** A Set of a new key into a full map whose eviction frees no place in it. */
  predicate Overfills(s: State, step: Step) {
    step.Set? && step.key !in s.entries && |s.entries| >= Max(1, s.maxSize) && Unmapped(s)
  }

  /** A Set of a new key into a full list that evicts nothing, as the map is not full. */
  predicate Overlinks(s: State, step: Step) {
    step.Set? && step.key !in s.entries && |s.list| >= Max(1, s.maxSize) && |s.entries| < s.maxSize
  }

  lemma EvictSizes(s: State)
    requires Inv(s)
    ensures |Evict(s).entries| == |s.entries| - (if Unmapped(s) then 0 else 1)
    ensures |Evict(s).list| == |s.list| - (if s.list == [] then 0 else 1)
    ensures forall k :: k !in s.entries ==> k !in Evict(s).entries
    ensures Evict(s).keyOf == s.keyOf
  {
    if s.list != [] {
      var oldest := s.list[|s.list| - 1];
      assert oldest in s.list;
      UnlinkLinked(s.list, oldest);
      hide Unlink, Distinct;
      RemoveKey(s.entries, s.keyOf[oldest]);
    }
  }

  lemma SetSizes(s: State, k: Key)
    requires Inv(s) && k !in s.entries
    ensures var t := Next(s, Set(k));
            && |t.entries| == |s.entries| + (if |s.entries| < s.maxSize || Unmapped(s) then 1 else 0)
            && |t.list| == |s.list| + (if |s.entries| < s.maxSize || s.list == [] then 1 else 0)
  {
    if |s.entries| < s.maxSize {
      SetStep(s, k);
      NewKey(s.entries, k, |s.keyOf|);
    } else {
      SetFull(s, k);
      EvictSizes(s);
      var room := Evict(s);
      hide Evict, Inv, Next;
      NewKey(room.entries, k, |room.keyOf|);
    }
  }

  /** No other step makes map or list longer. */
  lemma RemovedSizes(entries: map<Key, Elem>, list: seq<Elem>, k: Key, e: Elem)
    requires Distinct(list)
    ensures |entries - {k}| <= |entries| && |Unlink(list, e)| <= |list| && |MoveToFront(list, e)| == |list|
  {
    UnlinkLinked(list, e);
    FrontLinked(list, e);
    RemoveKey(entries, k);
  }

  lemma OtherSizes(s: State, step: Step)
    requires Inv(s) && !(step.Set? && step.key !in s.entries)
    ensures |Next(s, step).entries| <= |s.entries| && |Next(s, step).list| <= |s.list|
  {
    assert Distinct(s.list);
    hide Unlink, MoveToFront, Evict, PushNew, Distinct, MappedAreLinked;
    match step
    case Finish(g) =>
      if g in s.gets && s.gets[g].Decided? {
        var e := s.gets[g].elem;
        assert 0 <= e < |s.keyOf|;
        RemovedSizes(s.entries, s.list, s.keyOf[e], e);
      }
    case Set(k) => RemovedSizes(s.entries, s.list, k, s.entries[k]);
    case Delete(k) =>
      if k in s.entries {
        RemovedSizes(s.entries, s.list, k, s.entries[k]);
      }
    case _ =>
  }

  lemma StepBounds(s: State, step: Step)
    requires Inv(s)
    ensures |s.entries| <= Max(1, s.maxSize) ==>
              (|Next(s, step).entries| <= Max(1, s.maxSize) <==> !Overfills(s, step))
    ensures |s.list| <= Max(1, s.maxSize) ==>
              (|Next(s, step).list| <= Max(1, s.maxSize) <==> !Overlinks(s, step))
  {
    hide Inv, Next;
    if step.Set? && step.key !in s.entries {
      SetSizes(s, step.key);
    } else {
      OtherSizes(s, step);
    }
  }

  /** Both bounds at once: of the list, or of the map. */
  predicate Within(s: State, ofList: bool) {
    (if ofList then |s.list| else |s.entries|) <= Max(1, s.maxSize)
  }

  predicate Exceeds(s: State, step: Step, ofList: bool) {
    if ofList then Overlinks(s, step) else Overfills(s, step)
  }

  ghost predicate AlwaysWithin(maxSize: nat, steps: seq<Step>, ofList: bool) {
    forall i :: 0 <= i <= |steps| ==> Within(Run(Initial(maxSize), steps[..i]), ofList)
  }

  ghost predicate NeverExceeds(maxSize: nat, steps: seq<Step>, ofList: bool) {
    forall i :: 0 <= i < |steps| ==> !Exceeds(Run(Initial(maxSize), steps[..i]), steps[i], ofList)
  }

  lemma AlwaysFront(maxSize: nat, steps: seq<Step>, ofList: bool)
    requires steps != []
    ensures AlwaysWithin(maxSize, steps, ofList)
            <==> AlwaysWithin(maxSize, steps[..|steps| - 1], ofList) && Within(Run(Initial(maxSize), steps), ofList)
  {
    hide Run, Within;
    var front := steps[..|steps| - 1];
    assert steps[..|steps|] == steps;
    assert forall i :: 0 <= i <= |front| ==> steps[..i] == front[..i];
  }

  lemma NeverFront(maxSize: nat, steps: seq<Step>, ofList: bool)
    requires steps != []
    ensures var front := steps[..|steps| - 1];
            NeverExceeds(maxSize, steps, ofList)
            <==> NeverExceeds(maxSize, front, ofList)
                 && !Exceeds(Run(Initial(maxSize), front), steps[|steps| - 1], ofList)
  {
    hide Run, Exceeds;
    var front := steps[..|steps| - 1];
    assert front[..|front|] == front;
    assert forall i :: 0 <= i <= |front| ==> steps[..i] == front[..i];
  }

  lemma {:induction false} WithinIffNeverExceeds(maxSize: nat, steps: seq<Step>, ofList: bool)
    ensures AlwaysWithin(maxSize, steps, ofList) <==> NeverExceeds(maxSize, steps, ofList)
  {
    if steps == [] {
      assert Run(Initial(maxSize), []) == Initial(maxSize);
    } else {
      var front, last := steps[..|steps| - 1], steps[|steps| - 1];
      WithinIffNeverExceeds(maxSize, front, ofList);
      AlwaysFront(maxSize, steps, ofList);
      NeverFront(maxSize, steps, ofList);
      ReachableInv(maxSize, front);
      StepBounds(Run(Initial(maxSize), front), last);
      NextSize(Run(Initial(maxSize), front), last);
      assert front[..|front|] == front;
      assert AlwaysWithin(maxSize, front, ofList) ==> Within(Run(Initial(maxSize), front), ofList);
      hide Next, Inv, Overfills, Overlinks, AlwaysWithin, NeverExceeds;
    }
  }

  /** The map keeps its bound in every state of a run if and only if no step of it is a Set
      of a new key into a full map whose eviction picks an element without a key. */
  lemma MapBoundExact(maxSize: nat, steps: seq<Step>)
    ensures (forall i :: 0 <= i <= |steps| ==> |Run(Initial(maxSize), steps[..i]).entries| <= Max(1, maxSize))
            <==> forall i :: 0 <= i < |steps| ==> !Overfills(Run(Initial(maxSize), steps[..i]), steps[i])
  {
    WithinIffNeverExceeds(maxSize, steps, false);
    AllSizes(maxSize, steps);
    hide Run, Overfills;
  }

  /** The list keeps its bound if and only if no step is a Set of a new key into a full list
      beside a map that is not full. */
  lemma ListBoundExact(maxSize: nat, steps: seq<Step>)
    ensures (forall i :: 0 <= i <= |steps| ==> |Run(Initial(maxSize), steps[..i]).list| <= Max(1, maxSize))
            <==> forall i :: 0 <= i < |steps| ==> !Overlinks(Run(Initial(maxSize), steps[..i]), steps[i])
  {
    WithinIffNeverExceeds(maxSize, steps, true);
    AllSizes(maxSize, steps);
    hide Run, Overlinks;
  }

  lemma AllSizes(maxSize: nat, steps: seq<Step>)
    ensures forall i :: 0 <= i <= |steps| ==> Run(Initial(maxSize), steps[..i]).maxSize == maxSize
  {
    hide Run;
    forall i | 0 <= i <= |steps|
      ensures Run(Initial(maxSize), steps[..i]).maxSize == maxSize
    {
      SizeStays(Initial(maxSize), steps[..i]);
    }
  }
}
