/** The DNS cache as one recency list, most recent first: the state the map and the
    linked list of cache.go describe together. Times are nanoseconds. */
module Lru {
  import opened Prelude

  /** A DNS message as far as the cache looks at it: the TTL of each answer record
      (None for a nil record), the response code, and the rest. */
  datatype Msg = Msg(rcode: nat, answers: seq<Option<nat>>, body: nat)

  datatype Entry = Entry(key: string, msg: Msg, expireAt: int, server: string)

  type Recency = seq<Entry>

  const SECOND: int := 1_000_000_000
  const MAX_TTL: nat := 0xFFFF_FFFF

  /** The smallest TTL among the non-nil answers; 0 if there is none. */
  function MinTtl(answers: seq<Option<nat>>): nat {
    if forall a :: a in answers ==> a == None then 0 else LeastTtl(answers, MAX_TTL)
  }

  function LeastTtl(answers: seq<Option<nat>>, bound: nat): nat {
    if answers == [] then bound
    else
      var a := answers[|answers| - 1];
      var m := LeastTtl(answers[..|answers| - 1], bound);
      if a.Some? && a.value < m then a.value else m
  }

  method ExtractMinTtl(answers: seq<Option<nat>>) returns (ttl: nat)
    ensures ttl == MinTtl(answers)
  {
    var min, found := MAX_TTL, false;
    for i := 0 to |answers|
      invariant min == LeastTtl(answers[..i], MAX_TTL)
      invariant found <==> exists j :: 0 <= j < i && answers[j] != None
    {
      assert answers[..i + 1][..i] == answers[..i];
      if answers[i] != None {
        if answers[i].value < min {
          min := answers[i].value;
        }
        found := true;
      }
    }
    assert answers[..|answers|] == answers;
    assert forall j :: 0 <= j < |answers| ==> answers[j] in answers;
    if !found {
      return 0;
    }
    return min;
  }

  /** MinTtl is a TTL of the message and no record has a smaller one. */
  lemma {:induction false} MinTtlIsLeast(answers: seq<Option<nat>>)
    requires forall a :: a in answers && a.Some? ==> a.value <= MAX_TTL
    requires exists a :: a in answers && a.Some?
    ensures Some(MinTtl(answers)) in answers
    ensures forall a :: a in answers && a.Some? ==> MinTtl(answers) <= a.value
  {
    LeastTtlBounds(answers);
    var a :| a in answers && a.Some?;
    assert a == Some(a.value) && LeastTtl(answers, MAX_TTL) <= a.value <= MAX_TTL;
  }

  lemma {:induction false} LeastTtlBounds(answers: seq<Option<nat>>)
    ensures forall a :: a in answers && a.Some? ==> LeastTtl(answers, MAX_TTL) <= a.value
    ensures LeastTtl(answers, MAX_TTL) == MAX_TTL || Some(LeastTtl(answers, MAX_TTL)) in answers
  {
    if answers != [] {
      LeastTtlBounds(answers[..|answers| - 1]);
    }
  }

  // ---------- lists of entries ----------

  predicate Has(l: Recency, k: string) {
    exists i :: 0 <= i < |l| && l[i].key == k
  }

  function Find(l: Recency, k: string): (e: Entry)
    requires Has(l, k)
    ensures e in l && e.key == k
  {
    if l[0].key == k then l[0] else Find(l[1..], k)
  }

  function Without(l: Recency, k: string): (r: Recency)
    ensures !Has(l, k) ==> r == l
  {
    if l == [] then []
    else if l[0].key == k then Without(l[1..], k)
    else [l[0]] + Without(l[1..], k)
  }

  ghost predicate DistinctKeys(l: Recency) {
    forall i, j :: 0 <= i < j < |l| ==> l[i].key != l[j].key
  }

  function Front(l: Recency, k: string): Recency
    requires Has(l, k)
  {
    [Find(l, k)] + Without(l, k)
  }

  // ---------- the operations ----------

  predicate Expired(e: Entry, now: int) {
    now > e.expireAt
  }

  predicate Cacheable(msg: Option<Msg>) {
    msg.Some? && msg.value.answers != [] && MinTtl(msg.value.answers) != 0
  }

  function NewEntry(k: string, msg: Msg, server: string, now: int): Entry {
    Entry(k, msg, now + MinTtl(msg.answers) * SECOND, server)
  }

  function GetAnswer(l: Recency, lazy: bool, k: string, now: int): Option<Msg> {
    if Has(l, k) && (lazy || !Expired(Find(l, k), now)) then Some(Find(l, k).msg) else None
  }

  function GetList(l: Recency, lazy: bool, k: string, now: int): Recency {
    if !Has(l, k) then l
    else if lazy || !Expired(Find(l, k), now) then Front(l, k)
    else Without(l, k)
  }

  /** Room for a new key: if the list is full the least recent entry goes. */
  function MakeRoom(l: Recency, maxSize: nat): Recency {
    if |l| >= maxSize && l != [] then l[..|l| - 1] else l
  }

  function SetList(l: Recency, maxSize: nat, k: string, msg: Option<Msg>, server: string, now: int): Recency {
    if !Cacheable(msg) then l
    else
      var e := NewEntry(k, msg.value, server, now);
      if Has(l, k) then [e] + Without(l, k) else [e] + MakeRoom(l, maxSize)
  }

  // ---------- facts about lists ----------

  lemma {:induction false} WithoutKeys(l: Recency, k: string)
    ensures !Has(Without(l, k), k)
    ensures forall e :: e in Without(l, k) <==> e in l && e.key != k
  {
    if l != [] {
      WithoutKeys(l[1..], k);
    }
  }

  lemma {:induction false} WithoutDistinct(l: Recency, k: string)
    requires DistinctKeys(l)
    ensures DistinctKeys(Without(l, k))
    ensures |Without(l, k)| == |l| - (if Has(l, k) then 1 else 0)
  {
    if l != [] {
      WithoutDistinct(l[1..], k);
      WithoutKeys(l[1..], k);
      assert Has(l, k) <==> l[0].key == k || Has(l[1..], k);
    }
  }

  /** Removing a key is cutting its one position out. */
  lemma {:induction false} WithoutAt(l: Recency, i: nat)
    requires DistinctKeys(l) && i < |l|
    ensures Without(l, l[i].key) == l[..i] + l[i + 1..]
    ensures Find(l, l[i].key) == l[i]
  {
    var k := l[i].key;
    if i == 0 {
      assert !Has(l[1..], k);
    } else {
      assert l[1..][i - 1] == l[i];
      WithoutAt(l[1..], i - 1);
      assert [l[0]] + (l[1..][..i - 1] + l[1..][i..]) == l[..i] + l[i + 1..];
    }
  }
}
