/** The geo data manager: what is loaded now, and the three questions the resolver
    asks. File handling and locking are not part of this model. */
module GeoManager {
  import opened Prelude
  import opened Text
  import opened SuffixIndex
  import opened Wire
  import opened Geosite
  import opened GeositeMeaning
  import opened GeositeText
  import opened AdFilter

  /** A snapshot of the loaded data, for specifications. */
  datatype GeoData = GeoData(geositeOn: bool, geosite: Index, adOn: bool, ads: set<string>)

  ghost predicate GeositeMatch(g: GeoData, name: string, categories: seq<string>) {
    g.geositeOn && Matches(g.geosite, name, categories)
  }

  ghost predicate CategoriesLoaded(g: GeoData, categories: seq<string>) {
    g.geositeOn && exists c :: c in categories && PatternsOf(g.geosite, Lower(c)) != {}
  }

  ghost predicate AdMatch(g: GeoData, name: string) {
    g.adOn && Scan(g.ads, Lower(name))
  }

  class Manager {
    var geositeEnabled: bool
    var geosite: Index
    var adFilterEnabled: bool
    var adFilter: set<string>

    ghost function View(): GeoData
      reads this
    {
      GeoData(geositeEnabled, geosite, adFilterEnabled, adFilter)
    }

    constructor ()
      ensures View() == GeoData(false, map[], false, {})
    {
      geositeEnabled, geosite, adFilterEnabled, adFilter := false, map[], false, {};
    }

    /** A panic of the decoder leaves everything as it was. */
    method LoadGeosite(data: seq<byte>, spare: seq<byte>) returns (ok: bool)
      requires |data| <= MAX_ALLOC
      modifies this
      ensures ok == ParseData(data, spare).Some?
      ensures View() ==
        if ok then old(View()).(geositeOn := true, geosite := ParseData(data, spare).value) else old(View())
    {
      var parsed := ParseGeositeData(data, spare);
      if parsed == None {
        return false;
      }
      geositeEnabled, geosite := true, parsed.value;
      return true;
    }

    method LoadAdFilter(data: string)
      modifies this
      ensures View() == old(View()).(adOn := true, ads := ListPatterns(Split(data, '\n')))
    {
      var patterns := ParseAdFilterData(data);
      adFilterEnabled, adFilter := true, patterns;
    }

    method MatchGeosite(domain: string, categories: seq<string>) returns (found: bool)
      ensures found == GeositeMatch(View(), domain, categories)
    {
      if !geositeEnabled {
        return false;
      }
      var lowered := Lower(domain);
      for i := 0 to |categories|
        invariant forall j :: 0 <= j < i ==> !Scan(PatternsOf(geosite, Lower(categories[j])), lowered)
      {
        if Lower(categories[i]) in geosite {
          var hit := MatchDomainInMap(lowered, geosite[Lower(categories[i])]);
          if hit {
            return true;
          }
        }
      }
      return false;
    }

    method HasGeositeCategories(categories: seq<string>) returns (found: bool)
      ensures found == CategoriesLoaded(View(), categories)
    {
      if !geositeEnabled {
        return false;
      }
      for i := 0 to |categories|
        invariant forall j :: 0 <= j < i ==> PatternsOf(geosite, Lower(categories[j])) == {}
      {
        var cat := Lower(categories[i]);
        if cat in geosite && |geosite[cat]| > 0 {
          return true;
        }
      }
      return false;
    }

    method MatchAdFilter(domain: string) returns (found: bool)
      ensures found == AdMatch(View(), domain)
    {
      if !adFilterEnabled {
        return false;
      }
      var lowered := Lower(domain);
      if lowered in adFilter {
        return true;
      }
      if "." + lowered in adFilter {
        assert Covers("." + lowered, lowered);
        return true;
      }
      var parts := Split(lowered, '.');
      for i := 0 to |parts| - 1
        invariant forall j :: 0 <= j < i ==> LabelSuffix(parts, '.', j) !in adFilter
      {
        var suffix := Join(parts[i + 1..], '.');
        assert "." + suffix == LabelSuffix(parts, '.', i);
        if "." + suffix in adFilter {
          LabelIsCovered(lowered, "." + suffix, i);
          return true;
        }
      }
      NoLabelNoCover(lowered, adFilter);
      return false;
    }
  }

  /** Loading a list and asking for a name is asking each line about the lowered name. */
  method LoadAndMatchAds(data: string, name: string) returns (blocked: bool)
    ensures blocked == ListBlocks(Split(data, '\n'), Lower(name))
  {
    var m := new Manager();
    m.LoadAdFilter(data);
    blocked := m.MatchAdFilter(name);
    ListMeaning(Split(data, '\n'), Lower(name));
  }

  /** The same for geosite: from the bytes of a list to the answer for a name. */
  method LoadAndMatchGeosite(sites: seq<SiteMsg>, spare: seq<byte>, name: string, categories: seq<string>)
    returns (found: bool)
    requires ValidSites(sites) && |Encode(SiteList(sites))| <= MAX_ALLOC
    ensures found <==> exists c :: c in categories && AnySiteHits(sites, Lower(c), Lower(name))
  {
    var m := new Manager();
    CanonicalData(sites, spare, name, categories);
    var ok := m.LoadGeosite(Encode(SiteList(sites)), spare);
    found := m.MatchGeosite(name, categories);
  }

  /** Some requested category holds a domain: one is enough, the others may be missing. */
  method LoadAndAskCategories(sites: seq<SiteMsg>, spare: seq<byte>, categories: seq<string>) returns (found: bool)
    requires ValidSites(sites) && |Encode(SiteList(sites))| <= MAX_ALLOC
    ensures found <==> exists c, name :: c in categories && AnySiteHits(sites, Lower(c), name)
  {
    var m := new Manager();
    var ok := m.LoadGeosite(Encode(SiteList(sites)), spare);
    found := m.HasGeositeCategories(categories);
    CanonicalCategories(sites, spare, "");
    forall c | c in categories
      ensures PatternsOf(ParseData(Encode(SiteList(sites)), spare).value, Lower(c)) != {}
              <==> exists name :: AnySiteHits(sites, Lower(c), name)
    {
      CanonicalCategories(sites, spare, Lower(c));
    }
  }

  lemma CanonicalCategories(sites: seq<SiteMsg>, spare: seq<byte>, country: string)
    requires ValidSites(sites) && |Encode(SiteList(sites))| <= MAX_ALLOC
    ensures ParseData(Encode(SiteList(sites)), spare).Some?
    ensures PatternsOf(ParseData(Encode(SiteList(sites)), spare).value, country) != {}
            <==> exists name :: AnySiteHits(sites, country, name)
  {
    CanonicalLooksBinary(sites);
    CountryIsLoaded(sites, spare, country);
    CanonicalData(sites, spare, "", []);
    if sites == [] {
      assert AsString([]) == "" && Split("", '\n') == [""] && TrimSpace("") == "";
      assert ScanLines([""]).index == map[];
    }
  }

  /** Before anything is loaded every question is answered with no. */
  method AskUnloaded(name: string, categories: seq<string>) returns (geosite: bool, loaded: bool, ad: bool)
    ensures !geosite && !loaded && !ad
  {
    var m := new Manager();
    geosite := m.MatchGeosite(name, categories);
    loaded := m.HasGeositeCategories(categories);
    ad := m.MatchAdFilter(name);
  }
}
