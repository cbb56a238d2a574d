/** Theorems about whole runs of the cache: inclusion between sizes, retention, and
    freshness of what Get returns. */
module CacheRuns {
  import opened Prelude
  import opened Lru

  datatype Op =
    | Get(key: string, now: int)
    | Set(key: string, msg: Option<Msg>, server: string, now: int)
    | Delete(key: string)
    | Clear

  function Apply(l: Recency, maxSize: nat, lazy: bool, op: Op): Recency {
    match op
    case Get(k, now) => GetList(l, lazy, k, now)
    case Set(k, msg, server, now) => SetList(l, maxSize, k, msg, server, now)
    case Delete(k) => Without(l, k)
    case Clear => []
  }

  function Run(l: Recency, maxSize: nat, lazy: bool, ops: seq<Op>): Recency {
    if ops == [] then l
    else Apply(Run(l, maxSize, lazy, ops[..|ops| - 1]), maxSize, lazy, ops[|ops| - 1])
  }

  function Capacity(maxSize: nat): nat {
    Max(1, maxSize)
  }

  ghost predicate Sound(l: Recency, maxSize: nat) {
    DistinctKeys(l) && |l| <= Capacity(maxSize)
  }

  lemma PushSound(e: Entry, l: Recency)
    requires DistinctKeys(l) && !Has(l, e.key)
    ensures DistinctKeys([e] + l)
  {
  }

  lemma RoomSound(l: Recency, maxSize: nat, k: string)
    requires Sound(l, maxSize)
    ensures Sound(MakeRoom(l, maxSize), maxSize) && |MakeRoom(l, maxSize)| < Capacity(maxSize)
    ensures !Has(l, k) ==> !Has(MakeRoom(l, maxSize), k)
  {
  }

  lemma ApplySound(l: Recency, maxSize: nat, lazy: bool, op: Op)
    requires Sound(l, maxSize)
    ensures Sound(Apply(l, maxSize, lazy, op), maxSize)
  {
    if !op.Clear? {
      var k := op.key;
      WithoutDistinct(l, k);
      WithoutKeys(l, k);
      RoomSound(l, maxSize, k);
      hide Has, DistinctKeys, Without, MakeRoom, Find;
      if op.Get? && Has(l, k) {
        PushSound(Find(l, k), Without(l, k));
      } else if op.Set? && Cacheable(op.msg) {
        var e := NewEntry(k, op.msg.value, op.server, op.now);
        if Has(l, k) {
          PushSound(e, Without(l, k));
        } else {
          PushSound(e, MakeRoom(l, maxSize));
        }
      }
    }
  }

  /** Every reachable list has distinct keys and at most max(1, maxSize) entries. */
  lemma {:induction false} RunSound(l: Recency, maxSize: nat, lazy: bool, ops: seq<Op>)
    requires Sound(l, maxSize)
    ensures Sound(Run(l, maxSize, lazy, ops), maxSize)
  {
    if ops != [] {
      RunSound(l, maxSize, lazy, ops[..|ops| - 1]);
      ApplySound(Run(l, maxSize, lazy, ops[..|ops| - 1]), maxSize, lazy, ops[|ops| - 1]);
    }
  }

  // ---------- inclusion ----------

  /** The subsequence of `l` that keeps the entries with keys in `ks`. */
  function Keep(l: Recency, ks: set<string>): Recency {
    if l == [] then []
    else (if l[0].key in ks then [l[0]] else []) + Keep(l[1..], ks)
  }

  /** How the list functions treat a list in front of which `x` is put. */
  lemma Cons(x: Entry, r: Recency, k: string, ks: set<string>)
    ensures Has([x] + r, k) <==> x.key == k || Has(r, k)
    ensures Has([x] + r, k) ==> Find([x] + r, k) == if x.key == k then x else Find(r, k)
    ensures Without([x] + r, k) == if x.key == k then Without(r, k) else [x] + Without(r, k)
    ensures Keep([x] + r, ks) == if x.key in ks then [x] + Keep(r, ks) else Keep(r, ks)
  {
    var l := [x] + r;
    assert l[1..] == r;
    assert l[0] == x;
    if Has(r, k) {
      var i :| 0 <= i < |r| && r[i].key == k;
      assert l[i + 1].key == k;
    }
    assert [] + Keep(r, ks) == Keep(r, ks);
  }

  lemma {:induction false} KeepHas(l: Recency, ks: set<string>, k: string)
    ensures Has(Keep(l, ks), k) <==> Has(l, k) && k in ks
    ensures Has(l, k) && k in ks ==> Find(Keep(l, ks), k) == Find(l, k)
    ensures |Keep(l, ks)| <= |l|
  {
    if l != [] {
      hide Has, Find, Keep, Without;
      var x, r := l[0], l[1..];
      assert l == [x] + r;
      KeepHas(r, ks, k);
      Cons(x, r, k, ks);
      Cons(x, Keep(r, ks), k, ks);
    }
  }

  lemma {:induction false} KeepWithout(l: Recency, ks: set<string>, k: string)
    ensures Without(Keep(l, ks), k) == Keep(Without(l, k), ks)
    ensures Keep(Without(l, k), ks) == Keep(Without(l, k), ks - {k}) == Keep(Without(l, k), ks + {k})
    ensures Keep(Without(l, k), ks) == Keep(l, ks - {k})
  {
    if l != [] {
      hide Has, Without, Keep, Find;
      var x, r := l[0], l[1..];
      assert l == [x] + r;
      KeepWithout(r, ks, k);
      Cons(x, r, k, ks);
      Cons(x, r, k, ks - {k});
      Cons(x, Keep(r, ks), k, ks);
      Cons(x, Without(r, k), k, ks);
      Cons(x, Without(r, k), k, ks - {k});
      Cons(x, Without(r, k), k, ks + {k});
    }
  }

  lemma {:induction false} KeepLast(l: Recency, ks: set<string>)
    requires l != []
    ensures var x := l[|l| - 1];
            Keep(l, ks) == Keep(l[..|l| - 1], ks) + (if x.key in ks then [x] else [])
  {
    if |l| > 1 {
      KeepLast(l[1..], ks);
      assert l[1..][..|l| - 2] == l[..|l| - 1][1..];
    }
  }

  /** Dropping the last entry is removing its key. */
  lemma DropLast(l: Recency)
    requires DistinctKeys(l) && l != []
    ensures l[..|l| - 1] == Without(l, l[|l| - 1].key)
  {
    WithoutAt(l, |l| - 1);
  }

  /** The small list is a subsequence of the big one, entry for entry, and lags behind
      by no more than the difference of the capacities. */
  ghost predicate Included(small: Recency, big: Recency, m: nat, M: nat) {
    && (exists ks :: small == Keep(big, ks))
    && |big| - |small| <= Capacity(M) - Capacity(m)
  }

  lemma RoomIncluded(small: Recency, big: Recency, m: nat, M: nat, ks: set<string>) returns (ks': set<string>)
    requires m <= M && Sound(small, m) && Sound(big, M)
    requires small == Keep(big, ks) && |big| - |small| <= Capacity(M) - Capacity(m)
    ensures MakeRoom(small, m) == Keep(MakeRoom(big, M), ks')
    ensures |MakeRoom(big, M)| - |MakeRoom(small, m)| <= Capacity(M) - Capacity(m)
  {
    ks' := ks;
    KeepHas(big, ks, "");
    var bigRoom, smallRoom := MakeRoom(big, M), MakeRoom(small, m);
    if bigRoom != big {
      KeepLast(big, ks);
      if big[|big| - 1].key in ks {
        assert small[..|small| - 1] == Keep(bigRoom, ks);
      }
    }
    if smallRoom != small && Keep(bigRoom, ks) == small {
      DropLast(small);
      var y := small[|small| - 1].key;
      ks' := ks - {y};
      KeepWithout(bigRoom, ks, y);
    }
  }

  lemma SetIncluded(small: Recency, big: Recency, m: nat, M: nat, e: Entry, ks: set<string>)
    requires m <= M && Sound(small, m) && Sound(big, M)
    requires small == Keep(big, ks) && |big| - |small| <= Capacity(M) - Capacity(m)
    requires Has(big, e.key)
    ensures Included([e] + (if Has(small, e.key) then Without(small, e.key) else MakeRoom(small, m)),
                     [e] + Without(big, e.key), m, M)
  {
    hide Without, Find, Keep, Has;
    var k := e.key;
    var rest := if Has(small, k) then Without(small, k) else MakeRoom(small, m);
    KeepHas(big, ks, k);
    WithoutDistinct(small, k);
    WithoutDistinct(big, k);
    KeepWithout(big, ks, k);
    var ks' := ks;
    if !Has(small, k) && rest != small {
      DropLast(small);
      ks' := ks - {small[|small| - 1].key};
      KeepWithout(Without(big, k), ks, small[|small| - 1].key);
    }
    assert rest == Keep(Without(big, k), ks');
    WithoutKeys(big, k);
    PushKept(e, Without(big, k), ks');
  }

  lemma GetIncluded(small: Recency, big: Recency, m: nat, M: nat, lazy: bool, k: string, now: int)
    requires m <= M && Sound(small, m) && Sound(big, M) && Included(small, big, m, M)
    ensures Included(GetList(small, lazy, k, now), GetList(big, lazy, k, now), m, M)
    ensures GetAnswer(small, lazy, k, now).Some? ==> GetAnswer(big, lazy, k, now) == GetAnswer(small, lazy, k, now)
  {
    var ks :| small == Keep(big, ks);
    KeepHas(big, ks, k);
    if Has(big, k) {
      WithoutDistinct(small, k);
      WithoutDistinct(big, k);
      KeepWithout(big, ks, k);
      WithoutKeys(big, k);
      if lazy || !Expired(Find(big, k), now) {
        var e := Find(big, k);
        Cons(e, Without(big, k), k, ks);
        assert GetList(big, lazy, k, now) == [e] + Without(big, k);
        assert GetList(small, lazy, k, now) == Keep([e] + Without(big, k), ks);
      } else {
        assert GetList(small, lazy, k, now) == Keep(Without(big, k), ks);
      }
    }
  }

  /** One operation keeps the inclusion. */
  lemma ApplyIncluded(small: Recency, big: Recency, m: nat, M: nat, lazy: bool, op: Op)
    requires m <= M && Sound(small, m) && Sound(big, M) && Included(small, big, m, M)
    ensures Included(Apply(small, m, lazy, op), Apply(big, M, lazy, op), m, M)
  {
    hide Has, Find, Without, Keep, Sound, MakeRoom, Expired;
    match op
    case Clear =>
      EmptyKept();
    case Delete(k) =>
      DeleteIncluded(small, big, m, M, k);
    case Get(k, now) =>
      GetIncluded(small, big, m, M, lazy, k, now);
    case Set(k, msg, server, now) =>
      if Cacheable(msg) {
        var e := NewEntry(k, msg.value, server, now);
        var ks :| small == Keep(big, ks);
        KeepHas(big, ks, k);
        if Has(big, k) {
          SetIncluded(small, big, m, M, e, ks);
        } else {
          var ks' := RoomIncluded(small, big, m, M, ks);
          RoomSound(big, M, k);
          PushKept(e, MakeRoom(big, M), ks');
        }
      }
  }

  lemma EmptyKept()
    ensures Keep([], {}) == []
  {
  }

  lemma DeleteIncluded(small: Recency, big: Recency, m: nat, M: nat, k: string)
    requires m <= M && Sound(small, m) && Sound(big, M) && Included(small, big, m, M)
    ensures Included(Without(small, k), Without(big, k), m, M)
  {
    var ks :| small == Keep(big, ks);
    KeepHas(big, ks, k);
    KeepWithout(big, ks, k);
    WithoutDistinct(small, k);
    WithoutDistinct(big, k);
  }

  /** Two caches that differ in size only, fed the same operations at the same times:
      the smaller one always holds a subsequence of the larger one's list with equal
      entries, and every answer it gives the larger one gives too. */
  lemma {:induction false} Inclusion(m: nat, M: nat, lazy: bool, ops: seq<Op>)
    requires m <= M
    ensures Included(Run([], m, lazy, ops), Run([], M, lazy, ops), m, M)
    ensures forall k, now :: GetAnswer(Run([], m, lazy, ops), lazy, k, now).Some? ==>
              GetAnswer(Run([], M, lazy, ops), lazy, k, now) == GetAnswer(Run([], m, lazy, ops), lazy, k, now)
  {
    RunSound([], m, lazy, ops);
    RunSound([], M, lazy, ops);
    if ops == [] {
      assert Keep([], {}) == [];
    } else {
      var front := ops[..|ops| - 1];
      RunSound([], m, lazy, front);
      RunSound([], M, lazy, front);
      Inclusion(m, M, lazy, front);
      ApplyIncluded(Run([], m, lazy, front), Run([], M, lazy, front), m, M, lazy, ops[|ops| - 1]);
    }
    forall k, now | GetAnswer(Run([], m, lazy, ops), lazy, k, now).Some?
      ensures GetAnswer(Run([], M, lazy, ops), lazy, k, now) == GetAnswer(Run([], m, lazy, ops), lazy, k, now)
    {
      GetIncluded(Run([], m, lazy, ops), Run([], M, lazy, ops), m, M, lazy, k, now);
    }
  }

  lemma {:induction false} KeepAbsent(l: Recency, ks: set<string>, k: string)
    requires !Has(l, k)
    ensures Keep(l, ks + {k}) == Keep(l, ks)
  {
    if l != [] {
      assert l == [l[0]] + l[1..];
      Cons(l[0], l[1..], k, ks);
      KeepAbsent(l[1..], ks, k);
    }
  }

  lemma PushKept(e: Entry, big: Recency, ks: set<string>)
    requires !Has(big, e.key)
    ensures Keep([e] + big, ks + {e.key}) == [e] + Keep(big, ks)
  {
    assert ([e] + big)[1..] == big;
    KeepAbsent(big, ks, e.key);
  }
}
