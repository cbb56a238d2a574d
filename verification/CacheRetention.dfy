/** How long a cached key survives, and how old an answer of Get can be. */
module CacheRetention {
  import opened Prelude
  import opened Lru
  import opened CacheRuns

  /** The keys more recent than `k`. */
  function Ahead(l: Recency, k: string): set<string> {
    if l == [] || l[0].key == k then {} else {l[0].key} + Ahead(l[1..], k)
  }

  /** The key an operation makes the most recent one, if it does. */
  function TouchedBy(l: Recency, lazy: bool, op: Op): set<string> {
    match op
    case Get(k, now) => if GetAnswer(l, lazy, k, now).Some? then {k} else {}
    case Set(k, msg, _, _) => if Cacheable(msg) then {k} else {}
    case Delete(_) => {}
    case Clear => {}
  }

  /** The keys other than `k` touched during a run. */
  function Touched(l: Recency, maxSize: nat, lazy: bool, ops: seq<Op>, k: string): set<string> {
    if ops == [] then {}
    else
      var front := ops[..|ops| - 1];
      Touched(l, maxSize, lazy, front, k) + (TouchedBy(Run(l, maxSize, lazy, front), lazy, ops[|ops| - 1]) - {k})
  }

  /** A Get of a cached key that is not answered: it takes the key out. */
  predicate RemovesExpired(l: Recency, lazy: bool, op: Op) {
    op.Get? && Has(l, op.key) && GetAnswer(l, lazy, op.key, op.now).None?
  }

  /** The operation neither deletes nor expires `k`, nor clears the cache. */
  predicate Spares(l: Recency, lazy: bool, op: Op, k: string) {
    && !op.Clear?
    && (op.key == k ==> !op.Delete? && !RemovesExpired(l, lazy, op))
  }

  predicate SparesAll(l: Recency, maxSize: nat, lazy: bool, ops: seq<Op>, k: string) {
    ops != [] ==>
      var front := ops[..|ops| - 1];
      SparesAll(l, maxSize, lazy, front, k) && Spares(Run(l, maxSize, lazy, front), lazy, ops[|ops| - 1], k)
  }

  /** The operation is a Get or Set of another key and removes nothing. */
  predicate Passive(l: Recency, lazy: bool, op: Op, k: string) {
    (op.Get? || op.Set?) && op.key != k && !RemovesExpired(l, lazy, op)
  }

  predicate PassiveAll(l: Recency, maxSize: nat, lazy: bool, ops: seq<Op>, k: string) {
    ops != [] ==>
      var front := ops[..|ops| - 1];
      PassiveAll(l, maxSize, lazy, front, k) && Passive(Run(l, maxSize, lazy, front), lazy, ops[|ops| - 1], k)
  }

  // ---------- keys ahead ----------

  lemma AheadCons(x: Entry, r: Recency, k: string)
    ensures Ahead([x] + r, k) == if x.key == k then {} else {x.key} + Ahead(r, k)
  {
    assert ([x] + r)[1..] == r;
  }

  /** Put `e` in front of what an operation leaves of the list. */
  lemma FrontStep(e: Entry, rest: Recency, k: string)
    ensures Has([e] + rest, k) <==> e.key == k || Has(rest, k)
    ensures Ahead([e] + rest, k) == if e.key == k then {} else {e.key} + Ahead(rest, k)
  {
    Cons(e, rest, k, {});
    AheadCons(e, rest, k);
  }

  lemma {:induction false} AheadWithout(l: Recency, q: string, k: string)
    requires q != k
    ensures Ahead(Without(l, q), k) == Ahead(l, k) - {q}
    ensures Has(Without(l, q), k) <==> Has(l, k)
  {
    if l != [] {
      hide Has, Without, Ahead;
      var x, r := l[0], l[1..];
      assert l == [x] + r;
      AheadWithout(r, q, k);
      Cons(x, r, q, {});
      FrontStep(x, r, k);
      FrontStep(x, Without(r, q), k);
    }
  }

  lemma {:induction false} AheadKeys(l: Recency, k: string)
    requires Has(l, k)
    ensures k !in Ahead(l, k) && forall a :: a in Ahead(l, k) ==> Has(l, a)
    ensures |Ahead(l, k)| < |l|
  {
    var x, r := l[0], l[1..];
    assert l == [x] + r;
    Cons(x, r, k, {});
    if x.key != k {
      AheadKeys(r, k);
      forall a | a in Ahead(r, k)
        ensures Has(l, a)
      {
        Cons(x, r, a, {});
      }
    }
  }

  /** Dropping the last entry: either it is `k`, and all others are ahead of it, or
      nothing changes for `k`. */
  lemma {:induction false} AheadDropLast(l: Recency, k: string)
    requires Has(l, k) && DistinctKeys(l)
    ensures if l[|l| - 1].key == k then |Ahead(l, k)| == |l| - 1 && !Has(l[..|l| - 1], k)
            else Has(l[..|l| - 1], k) && Ahead(l[..|l| - 1], k) == Ahead(l, k)
  {
    var x, r := l[0], l[1..];
    assert l == [x] + r;
    if |l| > 1 {
      var front := r[..|r| - 1];
      assert l[..|l| - 1] == [x] + front && l[|l| - 1] == r[|r| - 1];
      assert DistinctKeys(r) && !Has(r, x.key) && r[|r| - 1].key != x.key;
      hide Has, Ahead, DistinctKeys;
      FrontStep(x, r, k);
      FrontStep(x, front, k);
      if x.key != k {
        AheadDropLast(r, k);
        AheadKeys(r, k);
        assert |{x.key} + Ahead(r, k)| == 1 + |Ahead(r, k)|;
      }
    }
  }

  lemma AheadRoom(l: Recency, maxSize: nat, k: string, q: string)
    requires Sound(l, maxSize) && Has(l, k) && !Has(l, q)
    ensures q !in Ahead(l, k)
    ensures if Has(MakeRoom(l, maxSize), k)
            then Ahead(MakeRoom(l, maxSize), k) == Ahead(l, k) && |Ahead(l, k)| + 1 < Capacity(maxSize)
            else |Ahead(l, k)| + 1 == Capacity(maxSize)
  {
    var room := MakeRoom(l, maxSize);
    AheadKeys(l, k);
    if room != l {
      AheadDropLast(l, k);
    }
    if Has(room, k) {
      AheadKeys(room, k);
    }
  }

  /** One operation that spares `k`: unless the keys touched have become too many,
      `k` stays and only touched keys are ahead of it. */
  lemma StepRetains(l: Recency, maxSize: nat, lazy: bool, op: Op, k: string, touched: set<string>)
    requires Sound(l, maxSize) && Has(l, k) && Ahead(l, k) <= touched && Spares(l, lazy, op, k)
    requires |touched + (TouchedBy(l, lazy, op) - {k})| < Capacity(maxSize)
    ensures Has(Apply(l, maxSize, lazy, op), k)
    ensures Ahead(Apply(l, maxSize, lazy, op), k) <= touched + (TouchedBy(l, lazy, op) - {k})
  {
    hide Has, Find, Without, Ahead, MakeRoom, Sound, Cacheable, NewEntry, SetList;
    var q := op.key;
    if q != k {
      AheadWithout(l, q, k);
    }
    if op.Set? {
      SetRetains(l, maxSize, op, k, touched);
    } else if op.Get? && GetAnswer(l, lazy, q, op.now).Some? {
      FrontStep(Find(l, q), Without(l, q), k);
    }
  }

  lemma SetRetains(l: Recency, maxSize: nat, op: Op, k: string, touched: set<string>)
    requires Sound(l, maxSize) && Has(l, k) && Ahead(l, k) <= touched && op.Set?
    requires |touched + (TouchedBy(l, false, op) - {k})| < Capacity(maxSize)
    ensures var l' := SetList(l, maxSize, op.key, op.msg, op.server, op.now);
            Has(l', k) && Ahead(l', k) <= touched + (TouchedBy(l, false, op) - {k})
  {
    hide Has, Find, Without, Ahead, MakeRoom, Sound, MinTtl;
    var q := op.key;
    if q != k {
      AheadWithout(l, q, k);
    }
    if Cacheable(op.msg) {
      var e := NewEntry(q, op.msg.value, op.server, op.now);
      FrontStep(e, Without(l, q), k);
      FrontStep(e, MakeRoom(l, maxSize), k);
      if !Has(l, q) {
        assert touched + (TouchedBy(l, false, op) - {k}) == touched + {q};
        RoomRetains(l, maxSize, k, q, touched);
      }
    }
  }

  lemma RoomRetains(l: Recency, maxSize: nat, k: string, q: string, touched: set<string>)
    requires Sound(l, maxSize) && Has(l, k) && !Has(l, q) && Ahead(l, k) <= touched
    requires |touched + {q}| < Capacity(maxSize)
    ensures Has(MakeRoom(l, maxSize), k) && Ahead(MakeRoom(l, maxSize), k) == Ahead(l, k)
  {
    hide Has, Ahead, MakeRoom, Sound;
    AheadRoom(l, maxSize, k, q);
    SubsetSize(Ahead(l, k) + {q}, touched + {q});
    assert |Ahead(l, k) + {q}| == |Ahead(l, k)| + 1;
  }

  lemma SubsetSize<T>(a: set<T>, b: set<T>)
    requires a <= b
    ensures |a| <= |b|
  {
    assert b == a + (b - a);
  }

  /** Retention: after `k` became the most recent key, it is still cached as long as
      fewer than max(1, maxSize) other keys have been touched, whatever else happened,
      unless `k` itself was deleted or expired or the cache was cleared. */
  lemma {:induction false} Retention(l: Recency, maxSize: nat, lazy: bool, ops: seq<Op>, k: string)
    requires Sound(l, maxSize) && l != [] && l[0].key == k
    requires SparesAll(l, maxSize, lazy, ops, k)
    requires |Touched(l, maxSize, lazy, ops, k)| < Capacity(maxSize)
    ensures Has(Run(l, maxSize, lazy, ops), k)
    ensures Ahead(Run(l, maxSize, lazy, ops), k) <= Touched(l, maxSize, lazy, ops, k)
  {
    if ops != [] {
      var front := ops[..|ops| - 1];
      SubsetSize(Touched(l, maxSize, lazy, front, k), Touched(l, maxSize, lazy, ops, k));
      Retention(l, maxSize, lazy, front, k);
      RunSound(l, maxSize, lazy, front);
      StepRetains(Run(l, maxSize, lazy, front), maxSize, lazy, ops[|ops| - 1], k, Touched(l, maxSize, lazy, front, k));
    }
  }

  lemma StepExact(l: Recency, maxSize: nat, lazy: bool, op: Op, k: string)
    requires Sound(l, maxSize) && Passive(l, lazy, op, k)
    ensures !Has(l, k) ==> !Has(Apply(l, maxSize, lazy, op), k)
    ensures Has(l, k) ==>
              var touched := Ahead(l, k) + TouchedBy(l, lazy, op);
              && (Has(Apply(l, maxSize, lazy, op), k) <==> |touched| < Capacity(maxSize))
              && (Has(Apply(l, maxSize, lazy, op), k) ==> Ahead(Apply(l, maxSize, lazy, op), k) == touched)
  {
    hide Has, Find, Without, Ahead, MakeRoom, Sound, SetList, GetList, Cacheable;
    ApplySound(l, maxSize, lazy, op);
    if op.Set? {
      SetCaseExact(l, maxSize, op, k);
    } else {
      GetCaseExact(l, lazy, op, k);
    }
    var l' := Apply(l, maxSize, lazy, op);
    if Has(l', k) {
      AheadSize(l', maxSize, k);
    }
    if Has(l, k) {
      AheadSize(l, maxSize, k);
    }
  }

  lemma GetCaseExact(l: Recency, lazy: bool, op: Op, k: string)
    requires op.Get? && Passive(l, lazy, op, k)
    ensures var l' := GetList(l, lazy, op.key, op.now);
            && (Has(l', k) <==> Has(l, k))
            && (Has(l, k) ==> Ahead(l', k) == Ahead(l, k) + TouchedBy(l, lazy, op))
  {
    hide Without, Ahead;
    var q := op.key;
    AheadWithout(l, q, k);
    if Has(l, q) {
      FrontStep(Find(l, q), Without(l, q), k);
    }
  }

  lemma SetCaseExact(l: Recency, maxSize: nat, op: Op, k: string)
    requires op.Set? && Sound(l, maxSize) && op.key != k
    ensures var l' := SetList(l, maxSize, op.key, op.msg, op.server, op.now);
            var touched := Ahead(l, k) + TouchedBy(l, false, op);
            && (!Has(l, k) ==> !Has(l', k))
            && (Has(l, k) && Has(l', k) ==> Ahead(l', k) == touched)
            && (Has(l, k) && !Has(l', k) ==> |touched| >= Capacity(maxSize))
  {
    hide Has, Find, Without, Ahead, MakeRoom, Sound, MinTtl;
    if Cacheable(op.msg) {
      SetExact(l, maxSize, NewEntry(op.key, op.msg.value, op.server, op.now), k);
    }
  }

  lemma AheadSize(l: Recency, maxSize: nat, k: string)
    requires Sound(l, maxSize) && Has(l, k)
    ensures |Ahead(l, k)| < Capacity(maxSize)
  {
    hide Ahead, Has;
    AheadKeys(l, k);
  }

  lemma SetExact(l: Recency, maxSize: nat, e: Entry, k: string)
    requires Sound(l, maxSize) && e.key != k
    ensures var l' := [e] + if Has(l, e.key) then Without(l, e.key) else MakeRoom(l, maxSize);
            && (!Has(l, k) ==> !Has(l', k))
            && (Has(l, k) && Has(l', k) ==> Ahead(l', k) == Ahead(l, k) + {e.key})
            && (Has(l, k) && !Has(l', k) ==> |Ahead(l, k) + {e.key}| >= Capacity(maxSize))
  {
    hide Has, Find, Without, Ahead, MakeRoom, Sound;
    AheadWithout(l, e.key, k);
    FrontStep(e, Without(l, e.key), k);
    FrontStep(e, MakeRoom(l, maxSize), k);
    RoomHas(l, maxSize, k);
    if Has(l, k) && !Has(l, e.key) {
      AheadRoom(l, maxSize, k, e.key);
    }
  }

  lemma RoomHas(l: Recency, maxSize: nat, k: string)
    ensures Has(MakeRoom(l, maxSize), k) ==> Has(l, k)
  {
  }

  /** The bound is exact: when other keys are only read and written, `k` is still
      cached if and only if fewer than max(1, maxSize) of them have been touched. */
  lemma {:induction false} RetentionExact(l: Recency, maxSize: nat, lazy: bool, ops: seq<Op>, k: string)
    requires Sound(l, maxSize) && l != [] && l[0].key == k
    requires PassiveAll(l, maxSize, lazy, ops, k)
    ensures Has(Run(l, maxSize, lazy, ops), k) <==> |Touched(l, maxSize, lazy, ops, k)| < Capacity(maxSize)
    ensures Has(Run(l, maxSize, lazy, ops), k) ==>
              Ahead(Run(l, maxSize, lazy, ops), k) == Touched(l, maxSize, lazy, ops, k)
  {
    if ops != [] {
      var front := ops[..|ops| - 1];
      var mid := Run(l, maxSize, lazy, front);
      RetentionExact(l, maxSize, lazy, front, k);
      RunSound(l, maxSize, lazy, front);
      StepExact(mid, maxSize, lazy, ops[|ops| - 1], k);
      SubsetSize(Touched(l, maxSize, lazy, front, k), Touched(l, maxSize, lazy, ops, k));
      assert TouchedBy(mid, lazy, ops[|ops| - 1]) - {k} == TouchedBy(mid, lazy, ops[|ops| - 1]);
    }
  }

  // ---------- freshness ----------

  /** The last Set of `k` that took effect and was not undone by Delete or Clear. */
  function LastSet(ops: seq<Op>, k: string): Option<Op> {
    if ops == [] then None
    else match ops[|ops| - 1]
      case Set(q, msg, server, now) =>
        if q == k && Cacheable(msg) then Some(ops[|ops| - 1]) else LastSet(ops[..|ops| - 1], k)
      case Delete(q) => if q == k then None else LastSet(ops[..|ops| - 1], k)
      case Clear => None
      case Get(_, _) => LastSet(ops[..|ops| - 1], k)
  }

  ghost predicate StoredBy(e: Entry, op: Option<Op>) {
    && op.Some? && op.value.Set? && Cacheable(op.value.msg)
    && e == NewEntry(op.value.key, op.value.msg.value, op.value.server, op.value.now)
  }

  /** Every cached entry is what the last effective Set of its key stored. */
  lemma {:induction false} EntriesAreLastSet(maxSize: nat, lazy: bool, ops: seq<Op>)
    ensures forall e :: e in Run([], maxSize, lazy, ops) ==> StoredBy(e, LastSet(ops, e.key))
  {
    if ops != [] {
      var front, op := ops[..|ops| - 1], ops[|ops| - 1];
      var mid := Run([], maxSize, lazy, front);
      EntriesAreLastSet(maxSize, lazy, front);
      if !op.Clear? {
        WithoutKeys(mid, op.key);
        if !Has(mid, op.key) {
          NotHas(mid, op.key);
        }
      }
    }
  }

  lemma NotHas(l: Recency, k: string)
    requires !Has(l, k)
    ensures forall e :: e in l ==> e.key != k
  {
  }

  /** In non-lazy mode an answer from the cache is the message of the last effective
      Set of that key, and no older than the least TTL of its answer records; in lazy
      mode it is that message at any age. */
  lemma AnswersAreFresh(maxSize: nat, lazy: bool, ops: seq<Op>, k: string, now: int)
    requires GetAnswer(Run([], maxSize, lazy, ops), lazy, k, now).Some?
    ensures LastSet(ops, k).Some? && LastSet(ops, k).value.Set? && LastSet(ops, k).value.key == k
    ensures LastSet(ops, k).value.msg == GetAnswer(Run([], maxSize, lazy, ops), lazy, k, now)
    ensures !lazy ==> now - LastSet(ops, k).value.now <= MinTtl(LastSet(ops, k).value.msg.value.answers) * SECOND
  {
    EntriesAreLastSet(maxSize, lazy, ops);
    var e := Find(Run([], maxSize, lazy, ops), k);
    assert StoredBy(e, LastSet(ops, k));
  }

  /** The least TTL of the answers of a message, in nanoseconds. */
  function Lifetime(msg: Option<Msg>): int {
    if msg.Some? then MinTtl(msg.value.answers) * 1_000_000_000 else 0
  }

  /** When a cached key is answered: in lazy mode always, otherwise exactly as long as the
      last effective Set is no older than the least TTL. A Get beyond that takes the key
      out, any other Get leaves it in. */
  lemma AnsweredIffYoung(maxSize: nat, lazy: bool, ops: seq<Op>, k: string, now: int)
    requires Has(Run([], maxSize, lazy, ops), k)
    ensures LastSet(ops, k).Some? && LastSet(ops, k).value.Set?
    ensures var l, last := Run([], maxSize, lazy, ops), LastSet(ops, k).value;
            var young := lazy || now - last.now <= Lifetime(last.msg);
            && GetAnswer(l, lazy, k, now) == (if young then last.msg else None)
            && (Has(GetList(l, lazy, k, now), k) <==> young)
  {
    var l := Run([], maxSize, lazy, ops);
    EntriesAreLastSet(maxSize, lazy, ops);
    assert StoredBy(Find(l, k), LastSet(ops, k));
    WithoutKeys(l, k);
    Cons(Find(l, k), Without(l, k), k, {});
  }

  /** A message that can be cached has an answer record, and every record lives. */
  ghost predicate Lives(msg: Option<Msg>) {
    && msg.Some?
    && (exists a :: a in msg.value.answers && a.Some?)
    && (forall a :: a in msg.value.answers && a.Some? ==> a.value >= 1)
  }

  /** TTLs are 32-bit numbers. */
  ghost predicate Wire32(msg: Option<Msg>) {
    msg.Some? ==> forall a :: a in msg.value.answers && a.Some? ==> a.value < 0x1_0000_0000
  }

  lemma LivesIffCacheable(msg: Option<Msg>)
    requires Wire32(msg)
    ensures Lives(msg) <==> Cacheable(msg)
  {
    if msg.Some? {
      var answers := msg.value.answers;
      if exists a :: a in answers && a.Some? {
        MinTtlIsLeast(answers);
        assert Some(MinTtl(answers)) in answers;
      }
    }
  }

  /** A Set puts its key in front if and only if the message lives; otherwise it changes
      nothing. */
  lemma SetTakesEffect(l: Recency, maxSize: nat, lazy: bool, k: string, msg: Option<Msg>, server: string, now: int)
    requires Wire32(msg)
    ensures var l' := SetList(l, maxSize, k, msg, server, now);
            if Lives(msg) then l' != [] && l'[0].key == k && GetAnswer(l', lazy, k, now) == msg else l' == l
  {
    LivesIffCacheable(msg);
    var l' := SetList(l, maxSize, k, msg, server, now);
    if Cacheable(msg) {
      assert l'[0].key == k;
      assert Has(l', k) && Find(l', k) == l'[0];
    }
  }

  lemma FindUnique(l: Recency, e: Entry)
    requires DistinctKeys(l) && e in l
    ensures Has(l, e.key) && Find(l, e.key) == e
  {
    var i :| 0 <= i < |l| && l[i] == e;
    WithoutAt(l, i);
  }

  /** Operations on other keys keep the entry of a key that stays. */
  lemma OtherKeepsEntry(l: Recency, maxSize: nat, lazy: bool, op: Op, k: string)
    requires Sound(l, maxSize) && Passive(l, lazy, op, k) && Has(Apply(l, maxSize, lazy, op), k)
    ensures Has(l, k) && Find(Apply(l, maxSize, lazy, op), k) == Find(l, k)
  {
    var e := Find(Apply(l, maxSize, lazy, op), k);
    WithoutKeys(l, op.key);
    assert e in l;
    FindUnique(l, e);
  }

  lemma {:induction false} PassiveKeepsEntry(l: Recency, maxSize: nat, lazy: bool, ops: seq<Op>, k: string)
    requires Sound(l, maxSize) && PassiveAll(l, maxSize, lazy, ops, k) && Has(Run(l, maxSize, lazy, ops), k)
    ensures Has(l, k) && Find(Run(l, maxSize, lazy, ops), k) == Find(l, k)
  {
    hide Apply, Passive, Has, Find, Sound;
    if ops != [] {
      var front := ops[..|ops| - 1];
      RunSound(l, maxSize, lazy, front);
      OtherKeepsEntry(Run(l, maxSize, lazy, front), maxSize, lazy, ops[|ops| - 1], k);
      PassiveKeepsEntry(l, maxSize, lazy, front, k);
    }
  }

  /** Retention and freshness together: after a Set, and while other keys are only read and
      written, a Get is answered with what was set if and only if fewer than max(1, maxSize)
      other keys have been touched and the message is lazy or young enough. */
  lemma AnsweredIffRetainedAndYoung(l: Recency, maxSize: nat, lazy: bool, ops: seq<Op>,
                                    k: string, msg: Option<Msg>, server: string, setAt: int, now: int)
    requires Sound(l, maxSize) && Wire32(msg) && Lives(msg)
    requires PassiveAll(SetList(l, maxSize, k, msg, server, setAt), maxSize, lazy, ops, k)
    ensures var l' := SetList(l, maxSize, k, msg, server, setAt);
            GetAnswer(Run(l', maxSize, lazy, ops), lazy, k, now) ==
              if |Touched(l', maxSize, lazy, ops, k)| < Max(1, maxSize) && (lazy || now - setAt <= Lifetime(msg))
              then msg else None
  {
    LivesIffCacheable(msg);
    var l' := SetList(l, maxSize, k, msg, server, setAt);
    ApplySound(l, maxSize, lazy, Set(k, msg, server, setAt));
    assert l'[0] == NewEntry(k, msg.value, server, setAt) && Find(l', k) == l'[0];
    RetentionExact(l', maxSize, lazy, ops, k);
    if Has(Run(l', maxSize, lazy, ops), k) {
      PassiveKeepsEntry(l', maxSize, lazy, ops, k);
    }
    hide SetList, Run, Touched, MinTtl, PassiveAll;
  }
}
