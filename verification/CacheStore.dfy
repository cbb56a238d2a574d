/** The cells of CacheInterleaving with the entries they hold. As long as map and list
    agree, the entries along the list are the recency list of the sequential cache. */
module CacheStore {
  import opened Prelude
  import opened Lru
  import opened Cache
  import CI = CacheInterleaving

  /** `values[e]` is the entry that element e holds now. */
  datatype Store = Store(cells: CI.State, values: seq<Entry>)

  /** An element holds an entry of its own key. */
  ghost predicate Consistent(s: Store) {
    && CI.Inv(s.cells)
    && |s.values| == |s.cells.keyOf|
    && (forall e :: 0 <= e < |s.values| ==> s.values[e].key == s.cells.keyOf[e])
  }

  function Initial(maxSize: nat): Store {
    Store(CI.Initial(maxSize), [])
  }

  /** One step of a Get or a Delete: the values stay. */
  function Moved(s: Store, step: CI.Step): Store {
    s.(cells := CI.Next(s.cells, step))
  }

  /** A Set that takes effect. */
  function Put(s: Store, entry: Entry): Store {
    var k := entry.key;
    Store(CI.Next(s.cells, CI.Set(k)),
          if k !in s.cells.entries then s.values + [entry]
          else
            var e := s.cells.entries[k];
            if 0 <= e < |s.values| then s.values[e := entry] else s.values)
  }

  lemma KeysStay(s: CI.State, step: CI.Step)
    ensures CI.Next(s, step).keyOf == s.keyOf + (if step.Set? && step.key !in s.entries then [step.key] else [])
  {
    assert s.keyOf + [] == s.keyOf;
  }

  lemma MovedConsistent(s: Store, step: CI.Step)
    requires Consistent(s) && !step.Set?
    ensures Consistent(Moved(s, step))
  {
    CI.NextInv(s.cells, step);
    KeysStay(s.cells, step);
    assert s.cells.keyOf + [] == s.cells.keyOf;
    hide CI.Inv, CI.Next;
  }

  lemma PutConsistent(s: Store, entry: Entry)
    requires Consistent(s)
    ensures Consistent(Put(s, entry))
  {
    hide CI.Inv, CI.Next;
    var k := entry.key;
    CI.NextInv(s.cells, CI.Set(k));
    KeysStay(s.cells, CI.Set(k));
    if k in s.cells.entries {
      Mapped(s.cells, k);
      assert s.cells.keyOf + [] == s.cells.keyOf;
    }
  }

  lemma PutValues(s: Store, entry: Entry)
    ensures |Put(s, entry).values| >= |s.values|
    ensures forall e :: 0 <= e < |Put(s, entry).values| ==>
              Put(s, entry).values[e] == entry || (e < |s.values| && Put(s, entry).values[e] == s.values[e])
  {
    hide CI.Next;
  }

  lemma Mapped(s: CI.State, k: CI.Key)
    requires CI.Inv(s) && k in s.entries
    ensures s.entries[k] in s.list && 0 <= s.entries[k] < |s.keyOf| && s.keyOf[s.entries[k]] == k
  {
  }

  // ---------- the recency list ----------

  ghost predicate InRange(values: seq<Entry>, list: seq<CI.Elem>) {
    forall i :: 0 <= i < |list| ==> 0 <= list[i] < |values|
  }

  ghost function Along(values: seq<Entry>, list: seq<CI.Elem>): (l: Recency)
    requires InRange(values, list)
    ensures |l| == |list|
  {
    seq(|list|, i requires 0 <= i < |list| => values[list[i]])
  }

  lemma ListInRange(s: Store)
    requires Consistent(s)
    ensures InRange(s.values, s.cells.list)
  {
    assert forall i :: 0 <= i < |s.cells.list| ==> s.cells.list[i] in s.cells.list;
  }

  ghost function Contents(s: Store): (l: Recency)
    requires Consistent(s)
    ensures |l| == |s.cells.list|
  {
    ListInRange(s);
    Along(s.values, s.cells.list)
  }

  lemma AlongCut(values: seq<Entry>, list: seq<CI.Elem>, i: nat)
    requires InRange(values, list) && i < |list|
    ensures InRange(values, Cut(list, i)) && Along(values, Cut(list, i)) == Cut(Along(values, list), i)
    ensures InRange(values, [list[i]] + Cut(list, i))
    ensures Along(values, [list[i]] + Cut(list, i)) == [values[list[i]]] + Cut(Along(values, list), i)
  {
    var c := Cut(list, i);
    assert forall j :: 0 <= j < |c| ==> c[j] == list[if j < i then j else j + 1];
  }

  lemma AlongUpdate(values: seq<Entry>, list: seq<CI.Elem>, i: nat, entry: Entry)
    requires InRange(values, list) && i < |list| && Distinct(list)
    ensures InRange(values[list[i] := entry], [list[i]] + Cut(list, i))
    ensures Along(values[list[i] := entry], [list[i]] + Cut(list, i)) == [entry] + Cut(Along(values, list), i)
  {
    var c := Cut(list, i);
    assert forall j :: 0 <= j < |c| ==> c[j] == list[if j < i then j else j + 1] && c[j] != list[i];
  }

  lemma AlongPush(values: seq<Entry>, list: seq<CI.Elem>, entry: Entry)
    requires InRange(values, list)
    ensures InRange(values + [entry], [|values|] + list) && |values| !in list
    ensures Along(values + [entry], [|values|] + list) == [entry] + Along(values, list)
  {
  }

  /** No race has left an element behind. */
  ghost predicate Whole(s: Store) {
    Consistent(s) && CI.Agrees(s.cells)
  }

  /** Then map, list and recency list fit together as in the sequential cache. */
  lemma WholeShape(s: Store)
    requires Whole(s)
    ensures Shape(s.cells.entries, s.cells.list, Contents(s))
  {
    var c, l := s.cells, Contents(s);
    assert forall i :: 0 <= i < |c.list| ==> c.list[i] in c.list && l[i].key == c.keyOf[c.list[i]];
    forall k | k in c.entries
      ensures Has(l, k)
    {
      var i :| 0 <= i < |c.list| && c.list[i] == c.entries[k];
      assert l[i].key == k;
    }
  }

  /** And back. */
  lemma ShapeWhole(s: Store)
    requires Consistent(s) && Shape(s.cells.entries, s.cells.list, Contents(s))
    ensures Whole(s)
  {
    var c, l := s.cells, Contents(s);
    forall e | e in c.list
      ensures 0 <= e < |c.keyOf| && c.keyOf[e] in c.entries && c.entries[c.keyOf[e]] == e
    {
      var i :| 0 <= i < |c.list| && c.list[i] == e;
      assert l[i].key == c.keyOf[e];
    }
  }

  // ---------- the steps of the cache on the recency list ----------

  function Finished(s: Store, e: CI.Elem, remove: bool): Store {
    s.(cells := CI.FinishGet(s.cells, e, remove))
  }

  /** Where a key is. */
  lemma Located(s: Store, k: CI.Key) returns (i: nat)
    requires Whole(s)
    ensures k in s.cells.entries <==> Has(Contents(s), k)
    ensures k in s.cells.entries ==>
              var c, l := s.cells, Contents(s);
              && Shape(c.entries, c.list, l) && InRange(s.values, c.list) && l == Along(s.values, c.list)
              && i < |l| && l[i].key == k && c.entries[k] == c.list[i] && c.keyOf[c.list[i]] == k
              && s.values[c.list[i]] == l[i] == Find(l, k)
              && Without(l, k) == Cut(l, i) && Unlink(c.list, c.list[i]) == Cut(c.list, i)
              && c.list[i] in c.list && Distinct(c.list) && 0 <= c.list[i] < |c.keyOf|
  {
    WholeShape(s);
    ListInRange(s);
    i := ShapeLookup(s.cells.entries, s.cells.list, Contents(s), k);
    assert k in s.cells.entries ==> s.cells.list[i] in s.cells.list;
  }

  lemma FinishedConsistent(s: Store, e: CI.Elem, remove: bool)
    requires Consistent(s) && 0 <= e < |s.cells.keyOf|
    ensures Consistent(Finished(s, e, remove))
  {
    CI.FinishInv(s.cells, e, remove);
    hide CI.Inv, CI.FinishGet;
  }

  /** From a shape proved for the parts of a store to the store. */
  lemma PartsWhole(t: Store, list: seq<CI.Elem>, entries: map<CI.Key, CI.Elem>, l: Recency)
    requires Consistent(t) && t.cells.list == list && t.cells.entries == entries
    requires InRange(t.values, list) && Along(t.values, list) == l && Shape(entries, list, l)
    ensures Whole(t) && Contents(t) == l
  {
    hide Shape, CI.Inv, CI.Agrees;
    ShapeWhole(t);
  }

  /** A Get that answers moves its entry to the front. */
  lemma TouchView(s: Store, k: CI.Key)
    requires Whole(s) && k in s.cells.entries
    ensures var t := Finished(s, s.cells.entries[k], false);
            && Whole(t) && t.cells.maxSize == s.cells.maxSize
            && Has(Contents(s), k) && Contents(t) == Front(Contents(s), k)
            && Find(Contents(s), k) == s.values[s.cells.entries[k]]
  {
    hide Shape, Consistent, CI.Agrees, Unlink, Without, Find, Has, Cut;
    var i := Located(s, k);
    var c, l := s.cells, Contents(s);
    FinishedConsistent(s, c.list[i], false);
    ShapeFront(c.entries, c.list, l, i, l[i]);
    AlongCut(s.values, c.list, i);
    PartsWhole(Finished(s, c.list[i], false), [c.list[i]] + Cut(c.list, i), c.entries, [l[i]] + Cut(l, i));
  }

  /** A Get that finds its entry expired takes it out. */
  lemma RemoveView(s: Store, k: CI.Key)
    requires Whole(s) && k in s.cells.entries
    ensures var t := Finished(s, s.cells.entries[k], true);
            Whole(t) && Contents(t) == Without(Contents(s), k) && t.cells.maxSize == s.cells.maxSize
  {
    hide Shape, Consistent, CI.Agrees, Unlink, Without, Find, Has, Cut;
    var i := Located(s, k);
    var c, l := s.cells, Contents(s);
    FinishedConsistent(s, c.list[i], true);
    ShapeCut(c.entries, c.list, l, i);
    AlongCut(s.values, c.list, i);
    PartsWhole(Finished(s, c.list[i], true), Cut(c.list, i), c.entries - {k}, Cut(l, i));
  }

  /** A Set of a known key. */
  lemma RefreshView(s: Store, entry: Entry)
    requires Whole(s) && entry.key in s.cells.entries
    ensures Whole(Put(s, entry)) && Contents(Put(s, entry)) == [entry] + Without(Contents(s), entry.key)
  {
    hide Shape, CI.Inv, CI.Agrees, Unlink, Without, Find, Has, Cut;
    var i := Located(s, entry.key);
    var c, l := s.cells, Contents(s);
    PutConsistent(s, entry);
    ShapeFront(c.entries, c.list, l, i, entry);
    AlongUpdate(s.values, c.list, i, entry);
    PartsWhole(Put(s, entry), [c.list[i]] + Cut(c.list, i), c.entries, [entry] + Cut(l, i));
  }

  lemma EvictedConsistent(s: Store)
    requires Consistent(s)
    ensures Consistent(s.(cells := CI.Evict(s.cells))) && CI.Evict(s.cells).keyOf == s.cells.keyOf
  {
    if s.cells.list != [] {
      CI.EvictInv(s.cells);
      CI.EvictSizes(s.cells);
      hide CI.MappedAreLinked, Unlink;
    }
  }

  lemma EvictView(s: Store)
    requires Whole(s)
    ensures var t := s.(cells := CI.Evict(s.cells));
            Whole(t) && Contents(t) == if Contents(s) == [] then [] else Contents(s)[..|Contents(s)| - 1]
  {
    EvictedConsistent(s);
    if s.cells.list != [] {
      var c, l, last := s.cells, Contents(s), |s.cells.list| - 1;
      WholeShape(s);
      ListInRange(s);
      ShapeLengths(c.entries, c.list, l);
      UnlinkAt(c.list, last);
      hide Shape, CI.Inv, CI.Agrees, Unlink, Distinct;
      ShapeCut(c.entries, c.list, l, last);
      AlongCut(s.values, c.list, last);
      PartsWhole(s.(cells := CI.Evict(c)), Cut(c.list, last), c.entries - {l[last].key}, Cut(l, last));
    }
  }

  /** The element a Set of a new key makes. */
  lemma PushView(s: Store, entry: Entry)
    requires Whole(s) && entry.key !in s.cells.entries
    requires Consistent(Store(CI.PushNew(s.cells, entry.key), s.values + [entry]))
    ensures var t := Store(CI.PushNew(s.cells, entry.key), s.values + [entry]);
            Whole(t) && Contents(t) == [entry] + Contents(s)
  {
    var c, l := s.cells, Contents(s);
    WholeShape(s);
    ListInRange(s);
    assert |c.keyOf| == |s.values| && l == Along(s.values, c.list);
    hide Shape, Consistent, CI.Agrees, Contents, Along, InRange;
    AlongPush(s.values, c.list, entry);
    ShapePush(c.entries, c.list, l, |c.keyOf|, entry);
    PartsWhole(Store(CI.PushNew(c, entry.key), s.values + [entry]), [|c.keyOf|] + c.list,
               c.entries[entry.key := |c.keyOf|], [entry] + l);
  }

  /** A Set of a new key. */
  lemma InsertView(s: Store, entry: Entry)
    requires Whole(s) && entry.key !in s.cells.entries
    ensures Whole(Put(s, entry))
    ensures Contents(Put(s, entry)) == [entry] + MakeRoom(Contents(s), s.cells.maxSize)
  {
    var c, k := s.cells, entry.key;
    PutConsistent(s, entry);
    WholeShape(s);
    ShapeLengths(c.entries, c.list, Contents(s));
    if |c.entries| >= c.maxSize {
      EvictView(s);
      CI.SetFull(c, k);
      CI.EvictSizes(c);
      EvictedConsistent(s);
      hide Shape, Whole, Consistent, CI.Evict, CI.PushNew, CI.Next, CI.Inv;
      PushView(s.(cells := CI.Evict(c)), entry);
    } else {
      CI.SetStep(c, k);
      hide Shape, Whole, Consistent, CI.PushNew, CI.Next, CI.Inv;
      PushView(s, entry);
    }
  }

  /** Both together: a Set that takes effect. */
  lemma PutIsSet(s: Store, k: CI.Key, msg: Msg, server: string, now: int)
    requires Whole(s) && Cacheable(Some(msg))
    ensures var t := Put(s, NewEntry(k, msg, server, now));
            Whole(t) && Contents(t) == SetList(Contents(s), s.cells.maxSize, k, Some(msg), server, now)
  {
    var entry := NewEntry(k, msg, server, now);
    var _ := Located(s, k);
    hide Whole, Put, Without, Has, MinTtl, Shape;
    if k in s.cells.entries {
      RefreshView(s, entry);
    } else {
      InsertView(s, entry);
    }
  }

  /** The three parts of a Get that nothing interferes with. */
  lemma GetParts(s: Store, g: nat, k: CI.Key, remove: bool)
    requires Consistent(s) && g !in s.cells.gets && k in s.cells.entries
    ensures var t := Moved(Moved(s, CI.Lookup(g, k)), CI.Decide(g, remove));
            && t.values == s.values
            && Moved(t, CI.Finish(g)) == Finished(s, s.cells.entries[k], remove)
  {
    var e := s.cells.entries[k];
    var s1 := s.cells.(gets := s.cells.gets[g := CI.Looked(e)]);
    var s2 := s.cells.(gets := s.cells.gets[g := CI.Decided(e, remove)]);
    assert CI.Next(s.cells, CI.Lookup(g, k)) == s1;
    assert CI.Next(s1, CI.Decide(g, remove)) == s2 by {
      assert s1.gets[g := CI.Decided(e, remove)] == s2.gets;
    }
    assert s2.gets - {g} == s.cells.gets;
    FinishIgnoresGets(s.cells, s2.gets, e, remove);
    hide CI.FinishGet;
    assert CI.Next(s2, CI.Finish(g)) == CI.FinishGet(s2, e, remove).(gets := s2.gets - {g});
  }

  lemma FinishIgnoresGets(s: CI.State, gets: map<nat, CI.Held>, e: CI.Elem, remove: bool)
    ensures CI.FinishGet(s.(gets := gets), e, remove) == CI.FinishGet(s, e, remove).(gets := gets)
  {
  }
}
