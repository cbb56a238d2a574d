/** The routing cascade of resolver.go as a decision, for a fixed configuration, rule
    list and geo data, and the theorems about it. */
module Routing {
  import opened Prelude
  import opened Text
  import opened Cache
  import opened Rules
  import opened GeoManager

  datatype Config = Config(
    domestic: seq<string>, remote: seq<string>, defaultGroup: string,
    adFilterOn: bool, geoRemote: seq<string>, geoDomestic: seq<string>, geoAd: seq<string>,
    leakOn: bool, leakMode: string)

  datatype World = World(cfg: Config, rx: Regexps, rules: seq<RuleData>, geo: GeoData, types: TypeTable)

  datatype Action = CacheHit | Domestic | Remote | AdBlock | LeakBlock | RuleBlock | Redirected | Default | Failed

  datatype Group = RemoteServers | DomesticServers

  /** What becomes of a name: an empty answer, a fixed address, a refusal, or a
      question to one group of servers. */
  datatype Verdict =
    | Blocked(action: Action)
    | RedirectTo(target: string)
    | LeakRefused
    | Forward(group: Group, action: Action)

  function Servers(cfg: Config, g: Group): seq<string> {
    match g case RemoteServers => cfg.remote case DomesticServers => cfg.domestic
  }

  // ---------- local names ----------

  const LOCAL_DOMAINS: seq<string> :=
    ["lan", "local", "localhost", "home", "internal", "test", "example", "invalid", "onion", "arpa"]

  /** A single label, or a name under one of the local domains. */
  predicate IsLocal(name: string) {
    var parts := Split(Lower(name), '.');
    |parts| == 1 || parts[|parts| - 1] in LOCAL_DOMAINS
  }

  lemma {:induction false} LastLabel(s: string, sep: char, t: string)
    requires sep !in t && HasSuffix(s, [sep] + t)
    ensures |Split(s, sep)| > 1 && Split(s, sep)[|Split(s, sep)| - 1] == t
  {
    if |s| == |t| + 1 {
      assert s == [sep] + t && s[1..] == t;
      NoSeparator(t, sep);
    } else {
      assert s[1..][|s[1..]| - |[sep] + t|..] == s[|s| - |[sep] + t|..];
      LastLabel(s[1..], sep, t);
    }
  }

  lemma LocalDomainsAreLabels()
    ensures forall t :: t in LOCAL_DOMAINS ==> '.' !in t
  {
  }

  method IsLocalDomain(name: string) returns (local: bool)
    ensures local == IsLocal(name)
  {
    var lower := Lower(name);
    LocalDomainsAreLabels();
    for i := 0 to |LOCAL_DOMAINS| {
      if HasSuffix(lower, "." + LOCAL_DOMAINS[i]) {
        LastLabel(lower, '.', LOCAL_DOMAINS[i]);
        return true;
      }
    }
    var parts := Split(lower, '.');
    if |parts| == 1 {
      return true;
    }
    var ld := parts[|parts| - 1];
    for i := 0 to |LOCAL_DOMAINS|
      invariant forall j :: 0 <= j < i ==> ld != LOCAL_DOMAINS[j]
    {
      if ld == LOCAL_DOMAINS[i] {
        return true;
      }
    }
    return false;
  }

  lemma {:induction false} SplitEnds(s: string, sep: char)
    ensures var parts := Split(s, sep);
            |parts| > 1 ==> HasSuffix(s, [sep] + parts[|parts| - 1])
  {
    if s != "" {
      SplitEnds(s[1..], sep);
      var parts, rest := Split(s, sep), Split(s[1..], sep);
      if |rest| > 1 {
        var t := [sep] + rest[|rest| - 1];
        assert s[1..][|s[1..]| - |t|..] == s[|s| - |t|..];
        assert parts[|parts| - 1] == rest[|rest| - 1];
      } else if s[0] == sep {
        JoinSplit(s[1..], sep);
        assert rest[0] == s[1..] && s == [sep] + s[1..];
      }
    }
  }

  lemma OneLabel(s: string, sep: char)
    ensures |Split(s, sep)| == 1 <==> sep !in s
  {
    if sep !in s {
      NoSeparator(s, sep);
    }
    SplitMeaning(s, sep);
    if |Split(s, sep)| == 1 {
      assert Split(s, sep)[0] in Split(s, sep);
    }
  }

  /** A name is local if it has no dot, or ends in one of ten domains, in any case. */
  lemma LocalMeaning(name: string)
    ensures IsLocal(name) <==>
              || '.' !in name
              || exists t :: HasSuffix(Lower(name), "." + t) &&
                   t in ["lan", "local", "localhost", "home", "internal",
                         "test", "example", "invalid", "onion", "arpa"]
  {
    var lower := Lower(name);
    var parts := Split(lower, '.');
    OneLabel(lower, '.');
    assert '.' in lower <==> '.' in name by {
      forall i | 0 <= i < |name|
        ensures lower[i] == '.' <==> name[i] == '.'
      {
      }
    }
    LocalDomainsAreLabels();
    SplitEnds(lower, '.');
    hide Split, HasSuffix;
    forall t | t in LOCAL_DOMAINS && HasSuffix(lower, "." + t)
      ensures |parts| > 1 && parts[|parts| - 1] == t
    {
      LastLabel(lower, '.', t);
    }
  }

  // ---------- the cascade ----------

  ghost predicate ValidWorld(w: World) {
    forall r :: r in w.rules ==> Sliceable(r)
  }

  /** The verdict of a rule type; unknown types decide nothing. */
  function TypeVerdict(rtype: string, target: string): Option<Verdict> {
    if rtype == "block" then Some(Blocked(RuleBlock))
    else if rtype == "redirect" then Some(RedirectTo(target))
    else if rtype == "remote" then Some(Forward(RemoteServers, Remote))
    else if rtype == "domestic" then Some(Forward(DomesticServers, Domestic))
    else None
  }

  ghost function ByRule(w: World, name: string): Option<Verdict>
    requires ValidWorld(w)
  {
    match FirstMatch(w.rx, w.rules, name)
    case None => None
    case Some(r) => TypeVerdict(r.rtype, r.target)
  }

  ghost predicate InCategories(w: World, name: string, categories: seq<string>) {
    |categories| > 0 && GeositeMatch(w.geo, name, categories)
  }

  ghost predicate InRemote(w: World, name: string) {
    InCategories(w, name, w.cfg.geoRemote)
  }

  ghost predicate InDomestic(w: World, name: string) {
    InCategories(w, name, w.cfg.geoDomestic)
  }

  ghost predicate AdFiltered(w: World, name: string) {
    w.cfg.adFilterOn && AdMatch(w.geo, name)
  }

  ghost predicate AdCategory(w: World, name: string) {
    w.cfg.adFilterOn && InCategories(w, name, w.cfg.geoAd)
  }

  ghost predicate Loaded(w: World, categories: seq<string>) {
    |categories| > 0 && CategoriesLoaded(w.geo, categories)
  }

  /** Without leak protection, or in loose mode, domestic lists are asked first. */
  predicate DomesticFirst(cfg: Config) {
    cfg.leakMode == "loose" || !cfg.leakOn
  }

  function DefaultVerdict(cfg: Config): Verdict {
    Forward(if cfg.defaultGroup == "remote" then RemoteServers else DomesticServers, Default)
  }

  /** Leak protection, for names no list knows. */
  ghost function ByLeakMode(w: World, name: string): Verdict {
    if w.cfg.leakOn && !IsLocal(name) && Loaded(w, w.cfg.geoRemote) && Loaded(w, w.cfg.geoDomestic) then
      if w.cfg.leakMode == "strict" then LeakRefused
      else if w.cfg.leakMode == "standard" then Forward(RemoteServers, Default)
      else DefaultVerdict(w.cfg)
    else DefaultVerdict(w.cfg)
  }

  /** resolveWithRules: what decides a name, in source order. */
  ghost function Cascade(w: World, name: string): Verdict
    requires ValidWorld(w)
  {
    match ByRule(w, name)
    case Some(v) => v
    case None =>
      if AdFiltered(w, name) then Blocked(AdBlock)
      else match ByLists(w, name)
        case Some(v) => v
        case None => if AdCategory(w, name) then Blocked(AdBlock) else ByLeakMode(w, name)
  }

  /** The two orders in which resolveWithRules asks the lists. */
  ghost function ByLists(w: World, name: string): Option<Verdict> {
    if DomesticFirst(w.cfg) then
      if InDomestic(w, name) then Some(Forward(DomesticServers, Domestic))
      else if InRemote(w, name) then Some(Forward(RemoteServers, Remote))
      else None
    else
      if InRemote(w, name) then Some(Forward(RemoteServers, Remote))
      else if InDomestic(w, name) then Some(Forward(DomesticServers, Domestic))
      else None
  }

  /** Lookup writes its own cascade. It knows one order of the lists only. */
  ghost function LookupCascade(w: World, name: string): Verdict
    requires ValidWorld(w)
  {
    var cfg := w.cfg;
    if LookupByRule(w, name).Some? then LookupByRule(w, name).value
    else if cfg.adFilterOn && AdMatch(w.geo, name) then Blocked(AdBlock)
    else if |cfg.geoRemote| > 0 && GeositeMatch(w.geo, name, cfg.geoRemote) then Forward(RemoteServers, Remote)
    else if |cfg.geoDomestic| > 0 && GeositeMatch(w.geo, name, cfg.geoDomestic) then Forward(DomesticServers, Domestic)
    else if cfg.adFilterOn && |cfg.geoAd| > 0 && GeositeMatch(w.geo, name, cfg.geoAd) then Blocked(AdBlock)
    else LookupUnlisted(w, name)
  }

  /** The rule switch of Lookup. */
  ghost function LookupByRule(w: World, name: string): Option<Verdict>
    requires ValidWorld(w)
  {
    var m := FirstMatch(w.rx, w.rules, name);
    if m.None? then None
    else if m.value.rtype == "block" then Some(Blocked(RuleBlock))
    else if m.value.rtype == "redirect" then Some(RedirectTo(m.value.target))
    else if m.value.rtype == "remote" then Some(Forward(RemoteServers, Remote))
    else if m.value.rtype == "domestic" then Some(Forward(DomesticServers, Domestic))
    else None
  }

  /** The end of Lookup: leak protection and the default group. */
  ghost function LookupUnlisted(w: World, name: string): Verdict {
    var cfg := w.cfg;
    var hasRemote := |cfg.geoRemote| > 0 && CategoriesLoaded(w.geo, cfg.geoRemote);
    var hasDomestic := |cfg.geoDomestic| > 0 && CategoriesLoaded(w.geo, cfg.geoDomestic);
    if cfg.leakOn && !IsLocal(name) && cfg.leakMode == "strict" && hasRemote && hasDomestic then LeakRefused
    else if cfg.leakOn && !IsLocal(name) && cfg.leakMode == "standard" && hasRemote && hasDomestic then
      Forward(RemoteServers, Default)
    else if cfg.defaultGroup == "remote" then Forward(RemoteServers, Default)
    else Forward(DomesticServers, Default)
  }

  // ---------- theorems about the decision ----------

  lemma {:induction false} MatchIgnoresCase(rx: Regexps, l: seq<RuleData>, a: string, b: string)
    requires Lower(a) == Lower(b) && forall r :: r in l ==> Sliceable(r)
    ensures FirstMatch(rx, l, a) == FirstMatch(rx, l, b)
  {
    if l != [] {
      MatchIgnoresCase(rx, l[1..], a, b);
    }
  }

  /** Every question asked about a name lowers it first. */
  lemma QuestionsIgnoreCase(w: World, a: string, b: string, categories: seq<string>)
    requires ValidWorld(w) && Lower(a) == Lower(b)
    ensures FirstMatch(w.rx, w.rules, a) == FirstMatch(w.rx, w.rules, b)
    ensures GeositeMatch(w.geo, a, categories) == GeositeMatch(w.geo, b, categories)
    ensures AdMatch(w.geo, a) == AdMatch(w.geo, b) && IsLocal(a) == IsLocal(b)
  {
    MatchIgnoresCase(w.rx, w.rules, a, b);
  }

  /** The verdict does not depend on the case of the name, just as the cache key. */
  lemma VerdictIgnoresCase(w: World, a: string, b: string)
    requires ValidWorld(w) && Lower(a) == Lower(b)
    ensures Cascade(w, a) == Cascade(w, b) && LookupCascade(w, a) == LookupCascade(w, b)
  {
    QuestionsIgnoreCase(w, a, b, w.cfg.geoRemote);
    QuestionsIgnoreCase(w, a, b, w.cfg.geoDomestic);
    QuestionsIgnoreCase(w, a, b, w.cfg.geoAd);
    hide GeositeMatch, AdMatch, IsLocal, FirstMatch, CategoriesLoaded, ValidWorld;
  }

  /** Both lists are loaded and leak protection is on and not loose. */
  ghost predicate Protected(w: World, mode: string) {
    w.cfg.leakOn && w.cfg.leakMode == mode && Loaded(w, w.cfg.geoRemote) && Loaded(w, w.cfg.geoDomestic)
  }

  /** The verdict sends the name to the group. */
  predicate SendsTo(v: Verdict, g: Group) {
    v.Forward? && v.group == g
  }

  /** On names that no rule decides and the ad filter lets pass: the domestic servers see
      exactly what is in a domestic and in no remote list, the remote servers exactly
      what is in a remote list, and what is on no list is refused. */
  ghost predicate StrictVerdict(w: World, name: string, v: Verdict) {
    && (SendsTo(v, DomesticServers) <==> !AdFiltered(w, name) && InDomestic(w, name) && !InRemote(w, name))
    && (SendsTo(v, RemoteServers) <==> !AdFiltered(w, name) && InRemote(w, name))
    && (v.LeakRefused? <==>
         !AdFiltered(w, name) && !InRemote(w, name) && !InDomestic(w, name) && !AdCategory(w, name))
  }

  /** The same, except that what is on no list is sent to the remote servers. */
  ghost predicate StandardVerdict(w: World, name: string, v: Verdict) {
    && (SendsTo(v, DomesticServers) <==> !AdFiltered(w, name) && InDomestic(w, name) && !InRemote(w, name))
    && (SendsTo(v, RemoteServers) <==>
         !AdFiltered(w, name) && (InRemote(w, name) || !(InDomestic(w, name) || AdCategory(w, name))))
    && !v.LeakRefused?
  }

  /** Strict leak protection, in Resolve and in Lookup. */
  lemma StrictIsLeakFree(w: World, name: string)
    requires ValidWorld(w) && Protected(w, "strict") && !IsLocal(name) && ByRule(w, name) == None
    ensures StrictVerdict(w, name, Cascade(w, name)) && StrictVerdict(w, name, LookupCascade(w, name))
  {
  }

  /** Standard leak protection, in both. */
  lemma StandardIsLeakFree(w: World, name: string)
    requires ValidWorld(w) && Protected(w, "standard") && !IsLocal(name) && ByRule(w, name) == None
    ensures StandardVerdict(w, name, Cascade(w, name)) && StandardVerdict(w, name, LookupCascade(w, name))
  {
  }

  /** The two cascades decide alike, except exactly when domestic lists come first and a
      name that neither a rule nor the ad list decides is in lists of both kinds. */
  lemma LookupAgrees(w: World, name: string)
    requires ValidWorld(w)
    ensures Cascade(w, name) == LookupCascade(w, name)
            <==> !(DomesticFirst(w.cfg) && InDomestic(w, name) && InRemote(w, name)
                   && ByRule(w, name) == None && !AdFiltered(w, name))
  {
  }
}
