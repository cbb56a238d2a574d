/** What one query does, end to end: for the domain it asks for, which addresses are asked,
    what is replied, cached and counted. */
module ResolverMeaning {
  import opened Prelude
  import opened Lru
  import opened Cache
  import opened Rules
  import opened GeoManager
  import opened Routing
  import opened Resolver

  /** Everything a query does: its reply, the action, status and counters it adds to, and
      the answer it stores with the server that gave it. */
  datatype Effect = Effect(
    reply: Reply, action: Action, hits: nat, blocked: nat, redirected: nat, timeouts: nat,
    success: bool, stored: Option<Exchange>)

  function Hit(m: Msg): Effect {
    Effect(FromCache(m), CacheHit, 1, 0, 0, 0, true, None)
  }

  function Block(action: Action): Effect {
    Effect(EmptyAnswer, action, 0, 1, 0, 0, true, None)
  }

  function Redirect(target: string): Effect {
    Effect(Address(target), Redirected, 0, 0, 1, 0, true, None)
  }

  function Refuse(): Effect {
    Effect(NameError, LeakBlock, 0, 1, 0, 0, false, None)
  }

  /** The addresses are asked. A failed exchange is a timeout and a failure; an answer is
      passed on, stored, and a success if its response code is 0. */
  function Ask(q: Query, addresses: seq<string>, action: Action): Effect {
    var x := q.reply(addresses);
    if x.NoAnswer? then Effect(ServerFailure, Failed, 0, 0, 0, 1, false, None)
    else Effect(FromServer(x.msg), action, 0, 0, 0, 0, x.msg.rcode == 0, Some(x))
  }

  ghost predicate Counts(before: Stats, after: Stats, typeName: string, e: Effect) {
    && after.total == before.total + 1
    && after.hits == before.hits + e.hits
    && after.blocked == before.blocked + e.blocked
    && after.redirected == before.redirected + e.redirected
    && (forall t :: Count(after.byType, t) == Count(before.byType, t) + (if t == typeName then 1 else 0))
    && (forall a :: Count(after.byAction, a) == Count(before.byAction, a) + (if a == e.action then 1 else 0))
    && Count(after.byStatus, Timeout) == Count(before.byStatus, Timeout) + e.timeouts
    && Count(after.byStatus, Success) == Count(before.byStatus, Success) + (if e.success then 1 else 0)
    && Count(after.byStatus, Failure) == Count(before.byStatus, Failure) + (if e.success then 0 else 1)
  }

  /** The query for d has just this effect. */
  ghost predicate Does(w: World, maxSize: nat, lazy: bool, s: State, q: Query, d: string, e: Effect)
    requires ValidWorld(w)
  {
    var k, s' := Key(w.types, d, q.qtype), Step(w, maxSize, lazy, s, q);
    var l := GetList(s.cache, lazy, k, q.askedAt);
    && StepReply(w, lazy, s, q) == e.reply
    && Counts(s.stats, s'.stats, TypeName(w.types, q.qtype), e)
    && s'.cache == match e.stored
         case None => l
         case Some(x) => if x.Answered? then SetList(l, maxSize, k, Some(x.msg), x.server, q.storedAt) else l
  }

  /** The effect of a verdict. */
  function EffectOf(w: World, q: Query, v: Verdict): Effect {
    match v
    case Blocked(a) => Block(a)
    case RedirectTo(t) => Redirect(t)
    case LeakRefused => Refuse()
    case Forward(RemoteServers, a) => Ask(q, w.cfg.remote, a)
    case Forward(DomesticServers, a) => Ask(q, w.cfg.domestic, a)
  }

  lemma Bumped<K>(m: map<K, nat>, k: K)
    ensures forall x :: Count(Bump(m, k), x) == Count(m, x) + (if x == k then 1 else 0)
  {
  }

  /** A query for d, with or without the final dot, looks under the key of d, and without an
      answer there does what the cascade says of d. */
  lemma QueryMeaning(w: World, maxSize: nat, lazy: bool, s: State, q: Query, d: string)
    requires ValidWorld(w) && AsksFor(q, d)
    ensures var cached := GetAnswer(s.cache, lazy, Key(w.types, d, q.qtype), q.askedAt);
            Does(w, maxSize, lazy, s, q, d,
                if cached.Some? then Hit(cached.value) else EffectOf(w, q, Cascade(w, d)))
  {
    AskedDomain(q, d);
    var cached := GetAnswer(s.cache, lazy, Key(w.types, d, q.qtype), q.askedAt);
    var v, x := Cascade(w, d), ExchangeOf(w, q);
    var e := if cached.Some? then Hit(cached.value) else EffectOf(w, q, v);
    assert cached.None? && v.Forward? ==>
             e == Ask(q, if v.group == RemoteServers then w.cfg.remote else w.cfg.domestic, v.action);
    FinishedCounts(w, s.stats, q, cached, v, x, e);
    hide Cascade, GetAnswer, GetList, SetList, Key, Counts, Counted, TypeName;
  }

  lemma FinishedCounts(w: World, st: Stats, q: Query, cached: Option<Msg>, v: Verdict, x: Exchange, e: Effect)
    requires v.Forward? ==> x == q.reply(Servers(w.cfg, v.group))
    requires e == if cached.Some? then Hit(cached.value) else EffectOf(w, q, v)
    ensures Counts(st, Counted(st, TypeName(w.types, q.qtype), cached, v, x), TypeName(w.types, q.qtype), e)
    ensures ReplyOf(cached, v, x) == e.reply
    ensures cached.None? && v.Forward? && x.Answered? <==> e.stored.Some?
    ensures e.stored.Some? ==> e.stored == Some(x) && x.Answered?
  {
    Bumped(st.byType, TypeName(w.types, q.qtype));
    Bumped(st.byAction, ActionOf(cached.Some?, v, x));
    var failed := cached.None? && v.Forward? && x.NoAnswer?;
    var status := if failed then Bump(st.byStatus, Timeout) else st.byStatus;
    Bumped(st.byStatus, Timeout);
    Bumped(status, if Succeeds(ReplyOf(cached, v, x)) then Success else Failure);
    hide Bump, Count, TypeName;
  }

  // ---------- which effect it is ----------

  /** The effect of a query for d that the cache does not answer. */
  ghost function Effects(w: World, q: Query, d: string): Effect
    requires ValidWorld(w)
  {
    EffectOf(w, q, Cascade(w, d))
  }

  /** No enabled rule matches, or the first one that does has none of the four types. */
  ghost predicate Undecided(w: World, d: string)
    requires ValidWorld(w)
  {
    var m := FirstMatch(w.rx, w.rules, d);
    m.Some? ==> m.value.rtype !in {"block", "redirect", "remote", "domestic"}
  }

  /** The first enabled rule that matches decides, by its type. */
  lemma RuleDecides(w: World, q: Query, d: string, r: RuleData)
    requires ValidWorld(w) && FirstMatch(w.rx, w.rules, d) == Some(r)
    ensures r.rtype == "block" ==> Effects(w, q, d) == Block(RuleBlock)
    ensures r.rtype == "redirect" ==> Effects(w, q, d) == Redirect(r.target)
    ensures r.rtype == "remote" ==> Effects(w, q, d) == Ask(q, w.cfg.remote, Remote)
    ensures r.rtype == "domestic" ==> Effects(w, q, d) == Ask(q, w.cfg.domestic, Domestic)
  {
  }

  /** Then the ad list. */
  lemma AdListDecides(w: World, q: Query, d: string)
    requires ValidWorld(w) && Undecided(w, d) && w.cfg.adFilterOn && AdMatch(w.geo, d)
    ensures Effects(w, q, d) == Block(AdBlock)
  {
  }

  /** The name is on the list of a group of categories. */
  ghost predicate OnList(w: World, d: string, categories: seq<string>) {
    categories != [] && GeositeMatch(w.geo, d, categories)
  }

  ghost predicate ListLoaded(w: World, categories: seq<string>) {
    categories != [] && CategoriesLoaded(w.geo, categories)
  }

  /** Neither a rule nor the ad list decides. */
  ghost predicate Open(w: World, d: string)
    requires ValidWorld(w)
  {
    Undecided(w, d) && !(w.cfg.adFilterOn && AdMatch(w.geo, d))
  }

  /** What an unlisted name falls back to. */
  function Fallback(w: World, q: Query): Effect {
    Ask(q, if w.cfg.defaultGroup == "remote" then w.cfg.remote else w.cfg.domestic, Default)
  }

  /** A name on the ad categories is blocked, any other one gets `otherwise`. */
  ghost function Unlisted(w: World, d: string, otherwise: Effect): Effect {
    if w.cfg.adFilterOn && OnList(w, d, w.cfg.geoAd) then Block(AdBlock) else otherwise
  }

  /** The remote list first, then the domestic one. */
  ghost function RemoteFirst(w: World, q: Query, d: string, otherwise: Effect): Effect {
    if OnList(w, d, w.cfg.geoRemote) then Ask(q, w.cfg.remote, Remote)
    else if OnList(w, d, w.cfg.geoDomestic) then Ask(q, w.cfg.domestic, Domestic)
    else Unlisted(w, d, otherwise)
  }

  /** Strict protection, both lists loaded, no local name: the domestic addresses are asked
      exactly about names on the domestic list and not on the remote one, the remote ones
      exactly about names on the remote list; unlisted names are refused. */
  lemma StrictEffects(w: World, q: Query, d: string)
    requires ValidWorld(w) && Open(w, d) && !IsLocal(d)
    requires w.cfg.leakOn && w.cfg.leakMode == "strict"
    requires ListLoaded(w, w.cfg.geoRemote) && ListLoaded(w, w.cfg.geoDomestic)
    ensures Effects(w, q, d) == RemoteFirst(w, q, d, Refuse())
  {
    hide GeositeMatch, CategoriesLoaded, IsLocal, FirstMatch, AdMatch;
  }

  /** Standard protection: unlisted names are asked of the remote addresses. */
  lemma StandardEffects(w: World, q: Query, d: string)
    requires ValidWorld(w) && Open(w, d) && !IsLocal(d)
    requires w.cfg.leakOn && w.cfg.leakMode == "standard"
    requires ListLoaded(w, w.cfg.geoRemote) && ListLoaded(w, w.cfg.geoDomestic)
    ensures Effects(w, q, d) == RemoteFirst(w, q, d, Ask(q, w.cfg.remote, Default))
  {
    hide GeositeMatch, CategoriesLoaded, IsLocal, FirstMatch, AdMatch;
  }

  /** Protection that is on and not loose, but does not apply: the name is local, a list is
      missing, or the mode is an unknown one. */
  lemma UnprotectedEffects(w: World, q: Query, d: string)
    requires ValidWorld(w) && Open(w, d) && w.cfg.leakOn && w.cfg.leakMode != "loose"
    requires || IsLocal(d) || !ListLoaded(w, w.cfg.geoRemote) || !ListLoaded(w, w.cfg.geoDomestic)
             || (w.cfg.leakMode != "strict" && w.cfg.leakMode != "standard")
    ensures Effects(w, q, d) == RemoteFirst(w, q, d, Fallback(w, q))
  {
    hide GeositeMatch, CategoriesLoaded, IsLocal, FirstMatch, AdMatch;
  }

  /** No protection, or loose protection: the domestic list comes first, and unlisted names
      go to the default addresses. */
  lemma LooseEffects(w: World, q: Query, d: string)
    requires ValidWorld(w) && Open(w, d) && (!w.cfg.leakOn || w.cfg.leakMode == "loose")
    ensures Effects(w, q, d) ==
              if OnList(w, d, w.cfg.geoDomestic) then Ask(q, w.cfg.domestic, Domestic)
              else RemoteFirst(w, q, d, Fallback(w, q))
  {
    hide GeositeMatch, CategoriesLoaded, IsLocal, FirstMatch, AdMatch;
  }
}
