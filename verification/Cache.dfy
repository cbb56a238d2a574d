/** cache.go: the map from keys to list elements and the linked list of elements.
    Each method runs under the cache lock, the clock reading is its argument. */
module Cache {
  import opened Prelude
  import opened Text
  import opened Lru

  function TrailingBackslashes(s: string): nat {
    if s != "" && s[|s| - 1] == '\\' then 1 + TrailingBackslashes(s[..|s| - 1]) else 0
  }

  /** The name ends in a dot that no backslash escapes. */
  predicate IsFqdn(s: string) {
    s != "" && s[|s| - 1] == '.' && TrailingBackslashes(s[..|s| - 1]) % 2 == 0
  }

  /** dns.Fqdn. */
  function Fqdn(domain: string): string {
    if IsFqdn(domain) then domain else domain + "."
  }

  /** A name with and without its final dot is the same name, unless a backslash makes the
      dot part of the last label. */
  lemma FqdnMeaning(d: string)
    requires d == "" || d[|d| - 1] != '.'
    ensures Fqdn(d) == d + "."
    ensures d == "" || d[|d| - 1] != '\\' ==> Fqdn(d + ".") == d + "."
    ensures d == "" || d[|d| - 1] != '\\' ==> Fqdn(d + "\\.") == d + "\\.."
  {
    assert (d + ".")[..|d|] == d;
    assert (d + "\\.")[..|d| + 1] == d + "\\" && (d + "\\")[..|d|] == d;
  }

  function Backslashes(n: nat): (s: string)
    ensures |s| == n
  {
    seq(n, _ => '\\')
  }

  lemma {:induction false} CountsBackslashes(d: string, n: nat)
    requires d == "" || d[|d| - 1] != '\\'
    ensures TrailingBackslashes(d + Backslashes(n)) == n
  {
    if n == 0 {
      assert d + Backslashes(0) == d;
    } else {
      var s := d + Backslashes(n);
      assert s[..|s| - 1] == d + Backslashes(n - 1);
      CountsBackslashes(d, n - 1);
    }
  }

  /** Backslashes escape each other: the dot is the end of the name if their number is even. */
  lemma EscapedDot(d: string, n: nat)
    requires d == "" || d[|d| - 1] != '\\'
    ensures var s := d + Backslashes(n) + ".";
            Fqdn(s) == if n % 2 == 0 then s else s + "."
  {
    CountsBackslashes(d, n);
    var s := d + Backslashes(n) + ".";
    assert s[..|s| - 1] == d + Backslashes(n);
  }

  /** The library's names of the numeric record types; most numbers have none. */
  type TypeTable = map<nat, string>

  /** Reading the table: a number without a name gives the empty string. */
  function TypeName(table: TypeTable, qtype: nat): string {
    if qtype in table then table[qtype] else ""
  }

  /** The cache key: case-insensitive name, then the name of the type. */
  function Key(table: TypeTable, domain: string, qtype: nat): string {
    Lower(Fqdn(domain)) + "/" + TypeName(table, qtype)
  }

  /** Listed names are not empty, hold no slash, and differ from each other. */
  ghost predicate ProperTable(table: TypeTable) {
    && (forall t :: t in table ==> table[t] != "" && '/' !in table[t])
    && (forall t, u :: t in table && u in table && table[t] == table[u] ==> t == u)
  }

  /** The types the cache cannot tell apart: all those without a name are one. */
  predicate SameType(table: TypeTable, t: nat, u: nat) {
    t == u || (t !in table && u !in table)
  }

  /** When two questions share an entry: their names differ in case, or in the final
      dot, only, and they ask the same type, or two types that both have no name. */
  lemma KeysAgree(table: TypeTable, d1: string, t1: nat, d2: string, t2: nat)
    requires ProperTable(table)
    ensures Key(table, d1, t1) == Key(table, d2, t2)
            <==> Lower(Fqdn(d1)) == Lower(Fqdn(d2)) && SameType(table, t1, t2)
  {
    LastSlash(Lower(Fqdn(d1)), TypeName(table, t1), Lower(Fqdn(d2)), TypeName(table, t2));
  }

  /** A text splits at its last slash in one way. */
  lemma LastSlash(n1: string, t1: string, n2: string, t2: string)
    requires '/' !in t1 && '/' !in t2
    ensures n1 + "/" + t1 == n2 + "/" + t2 <==> n1 == n2 && t1 == t2
  {
    var k1, k2 := n1 + "/" + t1, n2 + "/" + t2;
    assert k1[|n1|] == '/' && k2[|n2|] == '/';
    assert forall i :: |n1| < i < |k1| ==> k1[i] == t1[i - |n1| - 1] && k1[i] != '/';
    assert forall i :: |n2| < i < |k2| ==> k2[i] == t2[i - |n2| - 1] && k2[i] != '/';
    if k1 == k2 {
      assert |n1| == |n2|;
      assert n1 == k1[..|n1|] && t1 == k1[|n1| + 1..];
      assert n2 == k2[..|n2|] && t2 == k2[|n2| + 1..];
    }
  }

  class Element {
    var value: Entry

    constructor (value: Entry)
      ensures this.value == value
    {
      this.value := value;
    }
  }

  /** list.Remove on a list of distinct elements; elements not linked are left alone. */
  function Unlink<T(==)>(s: seq<T>, x: T): (r: seq<T>)
    ensures x !in s ==> r == s
    ensures forall y :: y in r ==> y in s
  {
    if s == [] then [] else if s[0] == x then s[1..] else [s[0]] + Unlink(s[1..], x)
  }

  function MoveToFront<T(==)>(s: seq<T>, x: T): seq<T> {
    if x in s then [x] + Unlink(s, x) else s
  }

  lemma {:induction false} UnlinkAt<T>(s: seq<T>, i: nat)
    requires Distinct(s) && i < |s|
    ensures Unlink(s, s[i]) == s[..i] + s[i + 1..]
  {
    if i > 0 {
      assert s[1..][i - 1] == s[i];
      UnlinkAt(s[1..], i - 1);
      assert [s[0]] + (s[1..][..i - 1] + s[1..][i..]) == s[..i] + s[i + 1..];
    }
  }

  /** How the map, the list of elements and the list of their values fit together. */
  ghost predicate Shape<E>(entries: map<string, E>, list: seq<E>, l: Recency) {
    && |list| == |l| == |entries|
    && Distinct(list) && DistinctKeys(l)
    && (forall i :: 0 <= i < |l| ==> l[i].key in entries && entries[l[i].key] == list[i])
    && (forall k :: k in entries ==> Has(l, k))
  }

  function Cut<T>(s: seq<T>, i: nat): seq<T>
    requires i < |s|
  {
    s[..i] + s[i + 1..]
  }

  lemma CutDistinct<T>(s: seq<T>, i: nat)
    requires Distinct(s) && i < |s|
    ensures Distinct(Cut(s, i)) && s[i] !in Cut(s, i)
  {
    var c := Cut(s, i);
    assert forall j :: 0 <= j < |c| ==> c[j] == s[if j < i then j else j + 1];
  }

  lemma CutKeys(l: Recency, i: nat)
    requires DistinctKeys(l) && i < |l|
    ensures DistinctKeys(Cut(l, i)) && !Has(Cut(l, i), l[i].key)
    ensures forall q :: Has(l, q) && q != l[i].key ==> Has(Cut(l, i), q)
  {
    var c := Cut(l, i);
    assert forall j :: 0 <= j < |c| ==> c[j] == l[if j < i then j else j + 1];
    forall q | Has(l, q) && q != l[i].key
      ensures Has(c, q)
    {
      var j :| 0 <= j < |l| && l[j].key == q;
      assert c[if j < i then j else j - 1] == l[j];
    }
  }

  lemma ShapeCut<E>(entries: map<string, E>, list: seq<E>, l: Recency, i: nat)
    requires Shape(entries, list, l) && i < |l|
    ensures Shape(entries - {l[i].key}, Cut(list, i), Cut(l, i))
    ensures list[i] !in Cut(list, i)
  {
    CutDistinct(list, i);
    CutKeys(l, i);
    hide Distinct, DistinctKeys, Has;
    var k := l[i].key;
    var smaller, c := entries - {k}, Cut(l, i);
    assert smaller.Keys == entries.Keys - {k};
    assert |smaller| == |smaller.Keys| == |entries.Keys| - 1;
    forall j | 0 <= j < |c|
      ensures c[j].key in smaller && smaller[c[j].key] == Cut(list, i)[j]
    {
      assert c[j] == l[if j < i then j else j + 1];
      Present(c, j);
    }
  }

  lemma Present(l: Recency, j: nat)
    requires j < |l|
    ensures Has(l, l[j].key)
  {
  }

  lemma ShapeAt<E>(entries: map<string, E>, list: seq<E>, l: Recency, i: nat)
    requires Shape(entries, list, l) && i < |l|
    ensures |list| == |l| && l[i].key in entries && entries[l[i].key] == list[i]
  {
  }

  lemma ShapePush<E>(entries: map<string, E>, list: seq<E>, l: Recency, elem: E, entry: Entry)
    requires Shape(entries, list, l) && elem !in list && entry.key !in entries
    ensures Shape(entries[entry.key := elem], [elem] + list, [entry] + l)
  {
    var l' := [entry] + l;
    assert DistinctKeys(l') by {
      assert forall j :: 0 <= j < |l| ==> l[j].key in entries;
    }
    assert Distinct([elem] + list);
    hide Distinct, DistinctKeys;
    forall q | q in entries[entry.key := elem]
      ensures Has(l', q)
    {
      if q == entry.key {
        assert l'[0].key == q;
      } else {
        var j :| 0 <= j < |l| && l[j].key == q;
        assert l'[j + 1].key == q;
      }
    }
  }

  /** Moving an element to the front, possibly with a new value for the same key. */
  lemma ShapeFront<E>(entries: map<string, E>, list: seq<E>, l: Recency, i: nat, entry: Entry)
    requires Shape(entries, list, l) && i < |l| && entry.key == l[i].key
    ensures Shape(entries, [list[i]] + Cut(list, i), [entry] + Cut(l, i))
  {
    hide Shape, Cut;
    ShapeAt(entries, list, l, i);
    ShapeCut(entries, list, l, i);
    ShapePush(entries - {entry.key}, Cut(list, i), Cut(l, i), list[i], entry);
    assert (entries - {entry.key})[entry.key := list[i]] == entries;
  }

  lemma ShapeLookup<E>(entries: map<string, E>, list: seq<E>, l: Recency, k: string) returns (i: nat)
    requires Shape(entries, list, l)
    ensures k in entries <==> Has(l, k)
    ensures k in entries ==>
              && i < |l| && l[i].key == k && entries[k] == list[i]
              && Find(l, k) == l[i] && Without(l, k) == Cut(l, i)
              && Unlink(list, list[i]) == Cut(list, i)
  {
    i := 0;
    if k in entries {
      i :| 0 <= i < |l| && l[i].key == k;
      WithoutAt(l, i);
      UnlinkAt(list, i);
    }
  }

  class DNSCache {
    var entries: map<string, Element>
    var lruList: seq<Element>
    const maxSize: nat
    const lazy: bool
    var hits: nat
    var misses: nat

    ghost predicate Valid()
      reads this, lruList
    {
      Shape(entries, lruList, Contents()) && |lruList| <= Max(1, maxSize)
    }

    /** The entries in the order of the list. */
    ghost function Contents(): (l: Recency)
      reads this, lruList
    {
      Values(lruList)
    }

    static ghost function Values(list: seq<Element>): (l: Recency)
      reads list
      ensures |l| == |list|
    {
      seq(|list|, i requires 0 <= i < |list| reads list => list[i].value)
    }

    constructor (maxSize: nat, lazy: bool)
      ensures Valid() && Contents() == [] && hits == misses == 0
      ensures this.maxSize == maxSize && this.lazy == lazy && lruList == []
    {
      entries, lruList, this.maxSize, this.lazy, hits, misses := map[], [], maxSize, lazy, 0, 0;
    }

    method Get(k: string, now: int) returns (answer: Option<Msg>)
      requires Valid()
      modifies this
      ensures Valid()
      ensures answer == GetAnswer(old(Contents()), lazy, k, now)
      ensures Contents() == GetList(old(Contents()), lazy, k, now)
      ensures hits == old(hits) + (if answer.Some? then 1 else 0)
      ensures misses == old(misses) + (if answer.None? then 1 else 0)
      ensures forall e :: e in lruList ==> e in old(lruList)
    {
      hide Shape, Without, Find, Unlink;
      ghost var l := Contents();
      ghost var i := ShapeLookup(entries, lruList, l, k);
      if k !in entries {
        misses := misses + 1;
        return None;
      }
      var elem := entries[k];
      assert elem in lruList && elem.value == l[i] by {
        ShapeLengths(entries, lruList, l);
      }
      var entry := elem.value;
      if now > entry.expireAt && !lazy {
        misses := misses + 1;
        ShapeCut(entries, lruList, l, i);
        entries := entries - {entry.key};
        lruList := Unlink(lruList, elem);
        assert Values(lruList) == Cut(l, i);
        return None;
      }
      hits := hits + 1;
      ShapeFront(entries, lruList, l, i, l[i]);
      lruList := MoveToFront(lruList, elem);
      assert Values(lruList) == [l[i]] + Cut(l, i);
      return Some(entry.msg);
    }

    method EvictOne()
      requires Valid()
      modifies this
      ensures Valid() && hits == old(hits) && misses == old(misses)
      ensures Contents() == if old(Contents()) == [] then [] else old(Contents())[..|old(Contents())| - 1]
      ensures |lruList| == Max(0, |old(lruList)| - 1)
      ensures forall e :: e in lruList ==> e in old(lruList)
    {
      hide Shape, Distinct, Unlink;
      if |lruList| > 0 {
        ghost var l := Contents();
        var last := |lruList| - 1;
        var oldest := lruList[last];
        assert oldest.value == l[last];
        ShapeCut(entries, lruList, l, last);
        ShapeLengths(entries, lruList, l);
        UnlinkAt(lruList, last);
        entries := entries - {oldest.value.key};
        lruList := Unlink(lruList, oldest);
        assert Values(lruList) == Cut(l, last) == l[..last];
      }
    }

    method Set(k: string, msg: Option<Msg>, server: string, now: int)
      requires Valid()
      modifies this, lruList
      ensures Valid() && hits == old(hits) && misses == old(misses)
      ensures Contents() == SetList(old(Contents()), maxSize, k, msg, server, now)
      ensures forall e :: e in lruList ==> e in old(lruList) || fresh(e)
    {
      hide Shape, Without, Find, Unlink, MinTtl;
      if msg == None || |msg.value.answers| == 0 {
        return;
      }
      var ttl := ExtractMinTtl(msg.value.answers);
      if ttl == 0 {
        return;
      }
      var entry := Entry(k, msg.value, now + ttl * SECOND, server);
      ghost var l := Contents();
      ghost var i := ShapeLookup(entries, lruList, l, k);
      ShapeLengths(entries, lruList, l);
      if k in entries {
        Refresh(entry);
        return;
      }
      if |entries| >= maxSize {
        EvictOne();
      }
      assert !Has(Contents(), k);
      PushFront(entry);
    }

    /** A new value in the element of a known key, which moves to the front. */
    method Refresh(entry: Entry)
      requires Valid() && entry.key in entries
      modifies this, lruList
      ensures Valid() && hits == old(hits) && misses == old(misses)
      ensures Contents() == [entry] + Without(old(Contents()), entry.key)
      ensures forall e :: e in lruList ==> e in old(lruList)
    {
      hide Shape, Without, Find, Unlink;
      ghost var l := Contents();
      ghost var i := ShapeLookup(entries, lruList, l, entry.key);
      ShapeLengths(entries, lruList, l);
      var elem := entries[entry.key];
      ShapeFront(entries, lruList, l, i, entry);
      ShapeCut(entries, lruList, l, i);
      ghost var rest := Cut(lruList, i);
      elem.value := entry;
      lruList := MoveToFront(lruList, elem);
      assert Values(lruList) == [entry] + Cut(l, i);
    }

    /** list.PushFront and the new map entry. */
    method PushFront(entry: Entry)
      requires Shape(entries, lruList, Contents()) && !Has(Contents(), entry.key)
      modifies this
      ensures Shape(entries, lruList, Contents()) && hits == old(hits) && misses == old(misses)
      ensures Contents() == [entry] + old(Contents())
      ensures |lruList| == |old(lruList)| + 1
      ensures forall e :: e in lruList ==> e in old(lruList) || fresh(e)
    {
      hide Shape;
      ghost var l := Contents();
      ghost var _ := ShapeLookup(entries, lruList, l, entry.key);
      var elem := new Element(entry);
      ShapePush(entries, lruList, l, elem, entry);
      lruList := [elem] + lruList;
      entries := entries[entry.key := elem];
      assert Values(lruList) == [entry] + l;
    }

    method Delete(k: string)
      requires Valid()
      modifies this
      ensures Valid() && hits == old(hits) && misses == old(misses)
      ensures Contents() == Without(old(Contents()), k)
      ensures forall e :: e in lruList ==> e in old(lruList)
    {
      hide Shape, Without, Find, Unlink;
      ghost var l := Contents();
      ghost var i := ShapeLookup(entries, lruList, l, k);
      if k in entries {
        ShapeLengths(entries, lruList, l);
        ShapeCut(entries, lruList, l, i);
        var elem := entries[k];
        lruList := Unlink(lruList, elem);
        entries := entries - {k};
        assert Values(lruList) == Cut(l, i);
      }
    }

    method Clear() returns (count: nat)
      requires Valid()
      modifies this
      ensures Valid() && Contents() == [] && hits == misses == 0
      ensures count == |old(Contents())|
      ensures lruList == []
    {
      count := |entries|;
      entries, lruList, hits, misses := map[], [], 0, 0;
    }
  }

  lemma ShapeLengths<E>(entries: map<string, E>, list: seq<E>, l: Recency)
    requires Shape(entries, list, l)
    ensures |entries| == |list| == |l| && Distinct(list)
  {
  }
}
