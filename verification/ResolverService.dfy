/** The resolver object of resolver.go: it asks the rule engine, the geo data and the
    cache, and updates its counters in place. */
module ResolverService {
  import opened Prelude
  import opened Lru
  import opened Cache
  import opened Rules
  import opened RuleEngine
  import opened GeoManager
  import opened Routing
  import opened Resolver

  class Service {
    const cfg: Config
    const cache: DNSCache
    const engine: Engine
    const geo: Manager
    const types: TypeTable
    var totalQueries: nat
    var cacheHits: nat
    var blockedQueries: nat
    var redirectedQueries: nat
    var byType: map<string, nat>
    var byStatus: map<Status, nat>
    var byAction: map<Action, nat>

    ghost predicate Valid()
      reads this, cache, cache.lruList, engine, engine.rules
    {
      cache.Valid() && engine.Valid()
    }

    ghost function World(): Routing.World
      reads engine, engine.rules, geo
    {
      Routing.World(cfg, engine.rx, engine.Contents(), geo.View(), types)
    }

    ghost function Counters(): Stats
      reads this
    {
      Stats(totalQueries, cacheHits, blockedQueries, redirectedQueries, byType, byStatus, byAction)
    }

    ghost function View(): State
      reads this, cache, cache.lruList
    {
      State(cache.Contents(), Counters())
    }

    constructor (cfg: Config, cache: DNSCache, engine: Engine, geo: Manager, types: TypeTable)
      requires cache.Valid() && engine.Valid()
      ensures Valid() && Counters() == NO_STATS
      ensures this.cfg == cfg && this.cache == cache && this.engine == engine && this.geo == geo && this.types == types
    {
      this.cfg, this.cache, this.engine, this.geo, this.types := cfg, cache, engine, geo, types;
      totalQueries, cacheHits, blockedQueries, redirectedQueries := 0, 0, 0, 0;
      byType, byStatus, byAction := map[], map[], map[];
    }

    // ---------- the routing decision ----------

    /** The rule part of the decision. */
    method RuleDecision(domain: string) returns (v: Option<Verdict>)
      requires Valid()
      ensures v == ByRule(World(), domain)
    {
      var matched := engine.Match(domain);
      if matched == None {
        return None;
      }
      var r := matched.value;
      return TypeVerdict(r.rtype, r.target);
    }

    method Matches(domain: string, categories: seq<string>) returns (found: bool)
      ensures found == InCategories(World(), domain, categories)
    {
      if |categories| == 0 {
        return false;
      }
      found := geo.MatchGeosite(domain, categories);
    }

    /** The part behind the lists: leak protection, then the default group. */
    method LeakModeDecision(domain: string) returns (v: Verdict)
      ensures v == ByLeakMode(World(), domain)
    {
      v := DefaultVerdict(cfg);
      if !cfg.leakOn {
        return;
      }
      var local := IsLocalDomain(domain);
      if local {
        return;
      }
      var hasRemote, hasDomestic := false, false;
      if |cfg.geoRemote| > 0 {
        hasRemote := geo.HasGeositeCategories(cfg.geoRemote);
      }
      if |cfg.geoDomestic| > 0 {
        hasDomestic := geo.HasGeositeCategories(cfg.geoDomestic);
      }
      if cfg.leakMode == "strict" {
        if hasRemote && hasDomestic {
          return LeakRefused;
        }
      } else if cfg.leakMode == "standard" {
        if hasRemote && hasDomestic {
          return Forward(RemoteServers, Default);
        }
      }
    }

    /** The lists, in the order the leak mode asks for. */
    method ListDecision(domain: string) returns (v: Option<Verdict>)
      ensures v == ByLists(World(), domain)
    {
      var found;
      if cfg.leakMode == "loose" || !cfg.leakOn {
        found := Matches(domain, cfg.geoDomestic);
        if found {
          return Some(Forward(DomesticServers, Domestic));
        }
        found := Matches(domain, cfg.geoRemote);
        if found {
          return Some(Forward(RemoteServers, Remote));
        }
      } else {
        found := Matches(domain, cfg.geoRemote);
        if found {
          return Some(Forward(RemoteServers, Remote));
        }
        found := Matches(domain, cfg.geoDomestic);
        if found {
          return Some(Forward(DomesticServers, Domestic));
        }
      }
      return None;
    }

    /** The branches of resolveWithRules. */
    method Decide(domain: string) returns (v: Verdict)
      requires Valid()
      ensures ValidWorld(World()) && v == Cascade(World(), domain)
    {
      hide ByRule, ByLeakMode, ByLists, InCategories, AdMatch, Views, Sliceable, DistinctIds, IssuedBelow, Shape;
      var ruled := RuleDecision(domain);
      if ruled.Some? {
        return ruled.value;
      }
      if cfg.adFilterOn {
        var ad := geo.MatchAdFilter(domain);
        if ad {
          return Blocked(AdBlock);
        }
      }
      var listed := ListDecision(domain);
      if listed.Some? {
        return listed.value;
      }
      if cfg.adFilterOn {
        var ad := Matches(domain, cfg.geoAd);
        if ad {
          return Blocked(AdBlock);
        }
      }
      v := LeakModeDecision(domain);
    }

    /** Lookup has its own copy of the branches, with one order of the lists. */
    method Lookup(domain: string) returns (v: Verdict)
      requires Valid()
      ensures ValidWorld(World()) && v == LookupCascade(World(), domain)
    {
      hide GeositeMatch, AdMatch, LookupByRule, LookupUnlisted, Views, Sliceable, DistinctIds, IssuedBelow, Shape;
      var ruled := LookupRule(domain);
      if ruled.Some? {
        return ruled.value;
      }
      if cfg.adFilterOn {
        var ad := geo.MatchAdFilter(domain);
        if ad {
          return Blocked(AdBlock);
        }
      }
      if |cfg.geoRemote| > 0 {
        var remote := geo.MatchGeosite(domain, cfg.geoRemote);
        if remote {
          return Forward(RemoteServers, Remote);
        }
      }
      if |cfg.geoDomestic| > 0 {
        var domestic := geo.MatchGeosite(domain, cfg.geoDomestic);
        if domestic {
          return Forward(DomesticServers, Domestic);
        }
      }
      if cfg.adFilterOn && |cfg.geoAd| > 0 {
        var ad := geo.MatchGeosite(domain, cfg.geoAd);
        if ad {
          return Blocked(AdBlock);
        }
      }
      v := LookupEnd(domain);
    }

    method LookupRule(domain: string) returns (v: Option<Verdict>)
      requires Valid()
      ensures ValidWorld(World()) && v == LookupByRule(World(), domain)
    {
      hide Views, Sliceable, DistinctIds, IssuedBelow, Shape;
      var matched := engine.Match(domain);
      if matched == None {
        return None;
      }
      var r := matched.value;
      if r.rtype == "block" {
        return Some(Blocked(RuleBlock));
      } else if r.rtype == "redirect" {
        return Some(RedirectTo(r.target));
      } else if r.rtype == "remote" {
        return Some(Forward(RemoteServers, Remote));
      } else if r.rtype == "domestic" {
        return Some(Forward(DomesticServers, Domestic));
      }
      return None;
    }

    /** What Lookup does with a name on no list. */
    method LookupEnd(domain: string) returns (v: Verdict)
      ensures v == LookupUnlisted(World(), domain)
    {
      hide CategoriesLoaded, IsLocal;
      var local := IsLocalDomain(domain);
      if cfg.leakOn && !local {
        var hasRemote, hasDomestic := false, false;
        if |cfg.geoRemote| > 0 {
          hasRemote := geo.HasGeositeCategories(cfg.geoRemote);
        }
        if |cfg.geoDomestic| > 0 {
          hasDomestic := geo.HasGeositeCategories(cfg.geoDomestic);
        }
        if cfg.leakMode == "strict" {
          if hasRemote && hasDomestic {
            return LeakRefused;
          }
        } else if cfg.leakMode == "standard" {
          if hasRemote && hasDomestic {
            return Forward(RemoteServers, Default);
          }
        }
      }
      if cfg.defaultGroup == "remote" {
        return Forward(RemoteServers, Default);
      }
      return Forward(DomesticServers, Default);
    }

    // ---------- resolving ----------

    lemma ValidMeansWorld()
      requires Valid()
      ensures ValidWorld(World())
    {
    }

    /** Resolve: the cache first, then the decision; every query is counted once. */
    method Resolve(q: Query) returns (reply: Reply)
      requires Valid()
      modifies this, cache, cache.lruList
      ensures Valid() && World() == old(World()) && ValidWorld(old(World()))
      ensures View() == Step(old(World()), cache.maxSize, cache.lazy, old(View()), q)
      ensures reply == StepReply(old(World()), cache.lazy, old(View()), q)
    {
      hide DNSCache.Valid, DNSCache.Contents, Engine.Valid, Engine.Contents, Manager.View, Servers, SetList, Bump;
      hide Cascade, ValidWorld, ActionOf, Domain, GetList, GetAnswer;
      ValidMeansWorld();
      totalQueries := totalQueries + 1;
      byType := Bump(byType, TypeName(types, q.qtype));
      var cached := cache.Get(Key(types, Domain(q), q.qtype), q.askedAt);
      if cached.Some? {
        CountHit(cached.value, Cascade(World(), Domain(q)), ExchangeOf(World(), q));
        return FromCache(cached.value);
      }
      assert forall i :: 0 <= i < |cache.lruList| ==> cache.lruList[i] in old(cache.lruList);
      reply := ResolveMiss(q);
    }

    /** The entry point: a message without a question is refused and counted nowhere,
        otherwise its first question is resolved. */
    method ResolveMessage(questions: seq<Query>) returns (reply: Reply)
      requires Valid()
      modifies this, cache, cache.lruList
      ensures Valid() && World() == old(World()) && ValidWorld(old(World()))
      ensures questions == [] ==> reply == FormatError && View() == old(View())
      ensures questions != [] ==>
                && View() == Step(old(World()), cache.maxSize, cache.lazy, old(View()), questions[0])
                && reply == StepReply(old(World()), cache.lazy, old(View()), questions[0])
    {
      if |questions| == 0 {
        ValidMeansWorld();
        return FormatError;
      }
      hide Step, StepReply;
      reply := Resolve(questions[0]);
    }

    /** A query the cache answers; the decision is not even made. */
    method CountHit(ghost m: Msg, ghost v: Verdict, ghost x: Exchange)
      modifies this
      ensures Counters() == Finished(old(Counters()), Some(m), v, x)
    {
      cacheHits := cacheHits + 1;
      byAction := Bump(byAction, CacheHit);
      byStatus := Bump(byStatus, Success);
    }

    /** A query the cache could not answer. */
    method ResolveMiss(q: Query) returns (reply: Reply)
      requires Valid()
      modifies this, cache, cache.lruList
      ensures Valid() && World() == old(World()) && ValidWorld(World())
      ensures var v, x := Cascade(World(), Domain(q)), ExchangeOf(World(), q);
              && reply == ReplyOf(None, v, x)
              && Counters() == Finished(old(Counters()), None, v, x)
              && cache.Contents() == (if v.Forward? && x.Answered?
                   then SetList(old(cache.Contents()), cache.maxSize, KeyOf(World(), q),
                                Some(x.msg), x.server, q.storedAt)
                   else old(cache.Contents()))
    {
      hide DNSCache.Valid, DNSCache.Contents, Engine.Valid, Engine.Contents, Manager.View, Servers, SetList, Bump;
      hide Cascade, ValidWorld, Domain, Key, ActionOf, ReplyOf, Succeeds;
      ValidMeansWorld();
      var v := Decide(Domain(q));
      reply := Act(q, Key(types, Domain(q), q.qtype), v);
      byStatus := Bump(byStatus, if Succeeds(reply) then Success else Failure);
    }

    /** What resolveWithRules does once it has decided. */
    method Act(q: Query, key: string, v: Verdict) returns (reply: Reply)
      requires Valid()
      modifies this, cache, cache.lruList
      ensures Valid() && World() == old(World())
      ensures var x := if v.Forward? then q.reply(Servers(cfg, v.group)) else NoAnswer;
              && reply == ReplyOf(None, v, x)
              && cache.Contents() == (if v.Forward? && x.Answered?
                   then SetList(old(cache.Contents()), cache.maxSize, key, Some(x.msg), x.server, q.storedAt)
                   else old(cache.Contents()))
              && byAction == Bump(old(byAction), ActionOf(false, v, x))
              && byStatus == (if v.Forward? && x.NoAnswer? then Bump(old(byStatus), Timeout) else old(byStatus))
      ensures blockedQueries == old(blockedQueries) + (if v.Blocked? || v.LeakRefused? then 1 else 0)
      ensures redirectedQueries == old(redirectedQueries) + (if v.RedirectTo? then 1 else 0)
      ensures totalQueries == old(totalQueries) && cacheHits == old(cacheHits) && byType == old(byType)
    {
      hide DNSCache.Valid, DNSCache.Contents, Engine.Valid, Engine.Contents, Manager.View, Servers, SetList, Bump;
      match v
      case Blocked(action) =>
        blockedQueries := blockedQueries + 1;
        byAction := Bump(byAction, action);
        return EmptyAnswer;
      case RedirectTo(target) =>
        redirectedQueries := redirectedQueries + 1;
        byAction := Bump(byAction, Redirected);
        return Address(target);
      case LeakRefused =>
        blockedQueries := blockedQueries + 1;
        byAction := Bump(byAction, LeakBlock);
        return NameError;
      case Forward(group, action) =>
        reply := ForwardToGroup(q, key, group, action);
    }

    /** forwardToGroup: only an answer is cached, under the key of the question. */
    method ForwardToGroup(q: Query, key: string, group: Group, action: Action) returns (reply: Reply)
      requires Valid()
      modifies this`byAction, this`byStatus, cache, cache.lruList
      ensures Valid() && World() == old(World())
      ensures var x := q.reply(Servers(cfg, group));
              && reply == (if x.NoAnswer? then ServerFailure else FromServer(x.msg))
              && cache.Contents() == (if x.Answered?
                   then SetList(old(cache.Contents()), cache.maxSize, key, Some(x.msg), x.server, q.storedAt)
                   else old(cache.Contents()))
              && byAction == Bump(old(byAction), if x.NoAnswer? then Failed else action)
              && byStatus == (if x.NoAnswer? then Bump(old(byStatus), Timeout) else old(byStatus))
    {
      hide DNSCache.Valid, DNSCache.Contents, Engine.Valid, Engine.Contents, Manager.View, Servers, SetList, Bump;
      var result := q.reply(Servers(cfg, group));
      if result.NoAnswer? {
        byStatus := Bump(byStatus, Timeout);
        byAction := Bump(byAction, Failed);
        return ServerFailure;
      }
      cache.Set(key, Some(result.msg), result.server, q.storedAt);
      byAction := Bump(byAction, action);
      return FromServer(result.msg);
    }
  }
}
