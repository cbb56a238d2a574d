/** resolver.go: one query against cache, cascade and servers, with its counters. What
    a group of servers answers is an argument; configuration, rules and geo data do
    not change while a query runs. */
module Resolver {
  import opened Prelude
  import opened Text
  import opened Lru
  import opened Cache
  import opened Routing

  const RCODE_SUCCESS: nat := 0

  /** What QueryGroup returns for a list of servers. */
  datatype Exchange = Answered(msg: Msg, server: string) | NoAnswer

  /** One question: the name as in the message, the number of its type, what each group
      of servers would answer, and the two clock readings of the cache. */
  datatype Query = Query(name: string, qtype: nat, reply: seq<string> -> Exchange, askedAt: int, storedAt: int)

  datatype Reply =
    | FormatError
    | FromCache(msg: Msg)
    | EmptyAnswer
    | Address(target: string)
    | NameError
    | ServerFailure
    | FromServer(msg: Msg)

  /** TrimSuffix(q.Name, "."). */
  function Domain(q: Query): string {
    if HasSuffix(q.name, ".") then q.name[..|q.name| - 1] else q.name
  }

  function KeyOf(w: World, q: Query): string {
    Key(w.types, Domain(q), q.qtype)
  }

  function TypeOf(w: World, q: Query): string {
    TypeName(w.types, q.qtype)
  }

  // ---------- counters ----------

  /** The keys of byStatus. */
  datatype Status = Success | Failure | Timeout

  datatype Stats = Stats(
    total: nat, hits: nat, blocked: nat, redirected: nat,
    byType: map<string, nat>, byStatus: map<Status, nat>, byAction: map<Action, nat>)

  const NO_STATS: Stats := Stats(0, 0, 0, 0, map[], map[], map[])

  function Count<K>(m: map<K, nat>, k: K): nat {
    if k in m then m[k] else 0
  }

  function Bump<K>(m: map<K, nat>, k: K): map<K, nat> {
    m[k := Count(m, k) + 1]
  }

  /** What the outcome of a query counts as in byAction. */
  function ActionOf(hit: bool, v: Verdict, x: Exchange): Action {
    if hit then CacheHit
    else match v
      case Blocked(a) => a
      case RedirectTo(_) => Redirected
      case LeakRefused => LeakBlock
      case Forward(_, a) => if x.NoAnswer? then Failed else a
  }

  function ReplyOf(cached: Option<Msg>, v: Verdict, x: Exchange): Reply {
    if cached.Some? then FromCache(cached.value)
    else match v
      case Blocked(_) => EmptyAnswer
      case RedirectTo(t) => Address(t)
      case LeakRefused => NameError
      case Forward(_, _) => if x.NoAnswer? then ServerFailure else FromServer(x.msg)
  }

  predicate Succeeds(r: Reply) {
    match r
    case FromServer(m) => m.rcode == RCODE_SUCCESS
    case FormatError => false
    case NameError => false
    case ServerFailure => false
    case _ => true
  }

  /** A query is counted when it arrives ... */
  function Arrived(st: Stats, typeName: string): Stats {
    st.(total := st.total + 1, byType := Bump(st.byType, typeName))
  }

  /** ... and again by what became of it. */
  function Finished(st: Stats, cached: Option<Msg>, v: Verdict, x: Exchange): Stats {
    var failed := cached.None? && v.Forward? && x.NoAnswer?;
    var status := if failed then Bump(st.byStatus, Timeout) else st.byStatus;
    st.(hits := st.hits + (if cached.Some? then 1 else 0),
        blocked := st.blocked + (if cached.None? && (v.Blocked? || v.LeakRefused?) then 1 else 0),
        redirected := st.redirected + (if cached.None? && v.RedirectTo? then 1 else 0),
        byStatus := Bump(status, if Succeeds(ReplyOf(cached, v, x)) then Success else Failure),
        byAction := Bump(st.byAction, ActionOf(cached.Some?, v, x)))
  }

  /** The counters after one query. */
  function Counted(st: Stats, typeName: string, cached: Option<Msg>, v: Verdict, x: Exchange): Stats {
    Finished(Arrived(st, typeName), cached, v, x)
  }

  function ActionSum(m: map<Action, nat>): nat {
    Count(m, CacheHit) + Count(m, Domestic) + Count(m, Remote) + Count(m, AdBlock) + Count(m, LeakBlock)
    + Count(m, RuleBlock) + Count(m, Redirected) + Count(m, Default) + Count(m, Failed)
  }

  /** How the counters add up. */
  predicate Balanced(st: Stats) {
    && ActionSum(st.byAction) == st.total
    && Count(st.byStatus, Success) + Count(st.byStatus, Failure) == st.total
    && Count(st.byStatus, Timeout) == Count(st.byAction, Failed)
    && Count(st.byAction, Failed) + Count(st.byAction, LeakBlock) <= Count(st.byStatus, Failure)
    && st.blocked == Count(st.byAction, RuleBlock) + Count(st.byAction, AdBlock) + Count(st.byAction, LeakBlock)
    && st.redirected == Count(st.byAction, Redirected)
    && st.hits == Count(st.byAction, CacheHit)
  }

  /** The verdicts the cascade can give. */
  predicate Proper(v: Verdict) {
    && (v.Blocked? ==> v.action == RuleBlock || v.action == AdBlock)
    && (v.Forward? ==> v.action == Domestic || v.action == Remote || v.action == Default)
  }

  lemma CascadeIsProper(w: World, name: string)
    requires ValidWorld(w)
    ensures Proper(Cascade(w, name))
  {
  }

  // ---------- one query on its own ----------

  datatype State = State(cache: Recency, stats: Stats)

  /** The exchange a query makes, if it makes one. */
  ghost function ExchangeOf(w: World, q: Query): Exchange
    requires ValidWorld(w)
  {
    var v := Cascade(w, Domain(q));
    if v.Forward? then q.reply(Servers(w.cfg, v.group)) else NoAnswer
  }

  /** What a query does when no other one interferes. */
  ghost function Step(w: World, maxSize: nat, lazy: bool, s: State, q: Query): State
    requires ValidWorld(w)
  {
    var cached := GetAnswer(s.cache, lazy, KeyOf(w, q), q.askedAt);
    var l := GetList(s.cache, lazy, KeyOf(w, q), q.askedAt);
    var v, x := Cascade(w, Domain(q)), ExchangeOf(w, q);
    State(
      if cached.None? && v.Forward? && x.Answered?
      then SetList(l, maxSize, KeyOf(w, q), Some(x.msg), x.server, q.storedAt) else l,
      Counted(s.stats, TypeOf(w, q), cached, v, x))
  }

  ghost function StepReply(w: World, lazy: bool, s: State, q: Query): Reply
    requires ValidWorld(w)
  {
    ReplyOf(GetAnswer(s.cache, lazy, KeyOf(w, q), q.askedAt), Cascade(w, Domain(q)), ExchangeOf(w, q))
  }

  // ---------- what shares a cache entry shares a verdict ----------

  /** A name as DNS messages carry it: in front of its final dot there is not another one
      (an escaped dot apart), that is, its last label is not empty. */
  predicate ProperName(q: Query) {
    q.name != "" && q.name[|q.name| - 1] == '.' ==> !IsFqdn(q.name[..|q.name| - 1])
  }

  lemma ProperDomain(q: Query)
    requires ProperName(q)
    ensures !IsFqdn(Domain(q))
  {
    assert q.name != "" ==> (q.name[|q.name| - 1..] == "." <==> q.name[|q.name| - 1] == '.');
  }

  /** The query asks for the domain d: its name is d with a final dot, or d itself when
      that does not end in a dot. */
  predicate AsksFor(q: Query, d: string) {
    q.name == d + "." || (q.name == d && (d == "" || d[|d| - 1] != '.'))
  }

  lemma AskedDomain(q: Query, d: string)
    requires AsksFor(q, d)
    ensures Domain(q) == d
    ensures d == "" || d[|d| - 1] != '.' ==> ProperName(q)
  {
    if q.name == d + "." {
      assert q.name[|d|..] == "." && q.name[..|d|] == d;
    } else {
      assert q.name != "" ==> q.name[|q.name| - 1..][0] == q.name[|q.name| - 1];
    }
  }

  /** Queries with the same key have the same verdict, name and, as far as it has a
      name, type. */
  lemma SameKeySameVerdict(w: World, a: Query, b: Query)
    requires ValidWorld(w) && ProperTable(w.types) && ProperName(a) && ProperName(b)
    ensures KeyOf(w, a) == KeyOf(w, b) <==> Lower(Domain(a)) == Lower(Domain(b)) && SameType(w.types, a.qtype, b.qtype)
    ensures KeyOf(w, a) == KeyOf(w, b) ==> Cascade(w, Domain(a)) == Cascade(w, Domain(b))
  {
    hide Cascade, Lower, ProperTable;
    var d, e := Domain(a), Domain(b);
    ProperDomain(a);
    ProperDomain(b);
    KeysAgree(w.types, d, a.qtype, e, b.qtype);
    LowerAppend(d, ".");
    LowerAppend(e, ".");
    assert Fqdn(d) == d + "." && Fqdn(e) == e + ".";
    if Lower(d + ".") == Lower(e + ".") {
      assert Lower(d) == Lower(d + ".")[..|d|] && Lower(e) == Lower(e + ".")[..|e|];
    }
    if Lower(d) == Lower(e) {
      VerdictIgnoresCase(w, d, e);
    }
  }
}
