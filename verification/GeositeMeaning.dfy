/** From a list of site messages to the answer of MatchGeosite: encoding, loading
    and looking up, taken together, mean one statement about domain names. */
module GeositeMeaning {
  import opened Prelude
  import opened Text
  import opened SuffixIndex
  import opened Wire
  import opened Geosite

  /** One domain of a site: a type and a value, and whatever later fields
      (attributes, say) the list maker added. */
  datatype DomainMsg = DomainMsg(typ: nat, value: seq<byte>, extra: seq<Field>)

  datatype SiteMsg = SiteMsg(country: seq<byte>, domains: seq<DomainMsg>)

  // ---------- canonical encoding: default values are left out ----------

  function DomainFields(d: DomainMsg): seq<Field> {
    (if d.typ != 0 then [Field(1, WIRE_VARINT, EncodeVarint(d.typ))] else [])
    + (if d.value != [] then [Field(2, WIRE_BYTES, d.value)] else [])
    + d.extra
  }

  function DomainList(ds: seq<DomainMsg>): seq<Field> {
    if ds == [] then []
    else DomainList(ds[..|ds| - 1]) + [Field(2, WIRE_BYTES, Encode(DomainFields(ds[|ds| - 1])))]
  }

  function SiteFields(s: SiteMsg): seq<Field> {
    (if s.country != [] then [Field(1, WIRE_BYTES, s.country)] else []) + DomainList(s.domains)
  }

  function SiteList(sites: seq<SiteMsg>): seq<Field> {
    if sites == [] then []
    else SiteList(sites[..|sites| - 1]) + [Field(1, WIRE_BYTES, Encode(SiteFields(sites[|sites| - 1])))]
  }

  predicate ValidDomain(d: DomainMsg) {
    d.typ < TWO_64 && forall f :: f in d.extra ==> WellFormed(f) && f.num >= 3
  }

  predicate ValidSites(sites: seq<SiteMsg>) {
    forall s, d :: s in sites && d in s.domains ==> ValidDomain(d)
  }

  // ---------- the meaning ----------

  /** What a domain of a given type matches, as statements about names. */
  predicate Hits(typ: nat, value: string, name: string) {
    && value != ""
    && if typ == 0 || typ == 3 then
         if value[0] == '.' then IsOrUnder(name, Core(value)) else name == value
       else if typ == 1 then name == "regexp:" + value
       else typ == 2 && IsOrUnder(name, Core(value))
  }

  predicate DomainHits(d: DomainMsg, name: string) {
    Hits(d.typ % INT32_RANGE, AsString(d.value), name)
  }

  ghost predicate SiteHits(s: SiteMsg, country: string, name: string) {
    && country != "" && Lower(AsString(s.country)) == country
    && exists d :: d in s.domains && DomainHits(d, name)
  }

  lemma PatternMeaning(typ: nat, value: string, name: string)
    ensures Scan(Pattern(typ, value), name) <==> Hits(typ, value, name)
  {
    if value != "" {
      CoversMeaning(value, name);
      CoversMeaning("." + value, name);
      CoversMeaning("regexp:" + value, name);
      assert Core("." + value) == value;
      assert HasPrefix(value, ".") <==> value[0] == '.';
      var ps := Pattern(typ, value);
      assert forall p :: p in ps ==> ps == {p};
    }
  }

  // ---------- reading back one domain ----------

  lemma {:induction false} ExtraIgnored(fs: seq<Field>, extra: seq<Field>)
    requires forall f :: f in extra ==> f.num >= 3
    ensures TypeOf(fs + extra) == TypeOf(fs) && ValueOf(fs + extra) == ValueOf(fs)
  {
    if extra == [] {
      assert fs + extra == fs;
    } else {
      var front := extra[..|extra| - 1];
      assert (fs + extra)[..|fs + extra| - 1] == fs + front;
      assert extra[|extra| - 1] in extra;
      ExtraIgnored(fs, front);
    }
  }

  lemma DomainReadBack(d: DomainMsg)
    requires ValidDomain(d)
    ensures TypeOf(DomainFields(d)) == d.typ % INT32_RANGE
    ensures ValueOf(DomainFields(d)) == AsString(d.value)
    ensures forall f :: f in DomainFields(d) ==> WellFormed(f)
  {
    hide EncodeVarint, DecodeVarint;
    var t := if d.typ != 0 then [Field(1, WIRE_VARINT, EncodeVarint(d.typ))] else [];
    var v := if d.value != [] then [Field(2, WIRE_BYTES, d.value)] else [];
    ExtraIgnored(t + v, d.extra);
    VarintRoundTrip(d.typ, []);
    assert EncodeVarint(d.typ) + [] == EncodeVarint(d.typ);
    assert TypeOf(t) == d.typ % INT32_RANGE;
    if v != [] {
      assert (t + v)[..|t + v| - 1] == t;
    } else {
      assert t + v == t;
      assert t != [] ==> t[..|t| - 1] == [];
    }
  }

  lemma {:induction false} DataFitsEncoding(fs: seq<Field>, f: Field)
    requires f in fs
    ensures |f.data| <= |Encode(fs)|
  {
    hide EncodeVarint;
    if f != fs[0] {
      DataFitsEncoding(fs[1..], f);
    }
  }

  // ---------- reading back one site ----------

  lemma {:induction false} DomainListReadBack(ds: seq<DomainMsg>)
    ensures forall f :: f in DomainList(ds) ==> WellFormed(f) && f.num == 2 && f.wire == WIRE_BYTES
    ensures |DomainList(ds)| == |ds|
    ensures forall i :: 0 <= i < |ds| ==> DomainList(ds)[i].data == Encode(DomainFields(ds[i]))
  {
    hide Encode, DomainFields, EncodeVarint, DecodeVarint;
    if ds != [] {
      DomainListReadBack(ds[..|ds| - 1]);
    }
  }

  lemma {:induction false} BlobsOfDomains(head: seq<Field>, ds: seq<DomainMsg>)
    requires head == [] || (|head| == 1 && head[0].num == 1)
    ensures Country(head + DomainList(ds)) == Country(head)
    ensures |Blobs(head + DomainList(ds))| == |ds|
    ensures forall i :: 0 <= i < |ds| ==> Blobs(head + DomainList(ds))[i] == Encode(DomainFields(ds[i]))
  {
    hide Encode, DomainFields, EncodeVarint, Lower, AsString;
    var fs := head + DomainList(ds);
    if ds == [] {
      assert fs == head;
      assert head != [] ==> head[..|head| - 1] == [];
    } else {
      var front := ds[..|ds| - 1];
      assert fs[..|fs| - 1] == head + DomainList(front);
      BlobsOfDomains(head, front);
    }
  }

  /** The patterns loaded for a list of domains cover a name exactly when one of the
      domains hits it. */
  lemma {:induction false} BlobPatternsMeaning(ds: seq<DomainMsg>, blobs: seq<seq<byte>>, name: string)
    requires forall d :: d in ds ==> ValidDomain(d)
    requires |blobs| == |ds|
    requires forall i :: 0 <= i < |ds| ==> blobs[i] == Encode(DomainFields(ds[i])) && |blobs[i]| < TWO_63
    ensures BlobPatterns(blobs).Some?
    ensures Scan(BlobPatterns(blobs).value, name) <==> exists d :: d in ds && DomainHits(d, name)
  {
    hide Fields, Pattern, Encode, DomainFields, Hits, Covers;
    if ds != [] {
      var front, d := ds[..|ds| - 1], ds[|ds| - 1];
      assert d in ds && forall x :: x in ds ==> x in front || x == d;
      BlobPatternsMeaning(front, blobs[..|ds| - 1], name);
      DomainReadBack(d);
      FieldsRoundTrip(DomainFields(d), 0);
      PatternMeaning(d.typ % INT32_RANGE, AsString(d.value), name);
      var ps := BlobPatterns(blobs[..|ds| - 1]).value;
      var added := Pattern(d.typ % INT32_RANGE, AsString(d.value));
      assert Scan(ps + added, name) <==> Scan(ps, name) || Scan(added, name);
    }
  }

  lemma SiteReadBack(s: SiteMsg)
    ensures forall f :: f in SiteFields(s) ==> WellFormed(f)
    ensures Country(SiteFields(s)) == Lower(AsString(s.country))
    ensures |Blobs(SiteFields(s))| == |s.domains|
    ensures forall i :: 0 <= i < |s.domains| ==>
              && Blobs(SiteFields(s))[i] == Encode(DomainFields(s.domains[i]))
              && |Blobs(SiteFields(s))[i]| <= |Encode(SiteFields(s))|
  {
    hide Encode, DomainFields;
    var head := if s.country != [] then [Field(1, WIRE_BYTES, s.country)] else [];
    BlobsOfDomains(head, s.domains);
    DomainListReadBack(s.domains);
    assert head != [] ==> head[..|head| - 1] == [];
    forall i | 0 <= i < |s.domains|
      ensures |Encode(DomainFields(s.domains[i]))| <= |Encode(SiteFields(s))|
    {
      var f := DomainList(s.domains)[i];
      assert f in SiteFields(s);
      DataFitsEncoding(SiteFields(s), f);
    }
  }

  /** Loading one more site adds exactly the names that site hits. */
  lemma EntryMeaning(index: Index, s: SiteMsg, country: string, name: string)
    requires forall d :: d in s.domains ==> ValidDomain(d)
    requires |Encode(SiteFields(s))| < TWO_63
    ensures AddEntry(index, Encode(SiteFields(s))).Some?
    ensures Scan(PatternsOf(AddEntry(index, Encode(SiteFields(s))).value, country), name)
            <==> Scan(PatternsOf(index, country), name) || SiteHits(s, country, name)
    ensures "" !in index ==> "" !in AddEntry(index, Encode(SiteFields(s))).value
  {
    hide Fields, Encode, DomainFields, SiteFields, Country, Blobs, BlobPatterns, Covers, Hits;
    var fs := SiteFields(s);
    SiteReadBack(s);
    FieldsRoundTrip(fs, 0);
    BlobPatternsMeaning(s.domains, Blobs(fs), name);
    var known, added := PatternsOf(index, Country(fs)), BlobPatterns(Blobs(fs)).value;
    assert Scan(known + added, name) <==> Scan(known, name) || Scan(added, name);
  }

  // ---------- reading back the whole list ----------

  lemma {:induction false} SiteListReadBack(sites: seq<SiteMsg>)
    ensures forall f :: f in SiteList(sites) ==> WellFormed(f) && f.num == 1 && f.wire == WIRE_BYTES
    ensures |SiteList(sites)| == |sites|
    ensures forall i :: 0 <= i < |sites| ==> SiteList(sites)[i].data == Encode(SiteFields(sites[i]))
  {
    hide Encode, SiteFields, EncodeVarint, DecodeVarint;
    if sites != [] {
      SiteListReadBack(sites[..|sites| - 1]);
    }
  }

  lemma {:induction false} AllPayloads(fs: seq<Field>, num: nat)
    requires forall f :: f in fs ==> f.num == num && f.wire == WIRE_BYTES
    ensures |Payloads(fs, num)| == |fs| && forall i :: 0 <= i < |fs| ==> Payloads(fs, num)[i] == fs[i].data
  {
    if fs != [] {
      AllPayloads(fs[1..], num);
    }
  }

  ghost predicate AnySiteHits(sites: seq<SiteMsg>, country: string, name: string) {
    exists s :: s in sites && SiteHits(s, country, name)
  }

  lemma {:induction false} EntriesMeaning(sites: seq<SiteMsg>, entries: seq<seq<byte>>, country: string, name: string)
    requires ValidSites(sites)
    requires |entries| == |sites|
    requires forall i :: 0 <= i < |sites| ==> entries[i] == Encode(SiteFields(sites[i])) && |entries[i]| < TWO_63
    ensures AddEntries(entries).Some? && "" !in AddEntries(entries).value
    ensures Scan(PatternsOf(AddEntries(entries).value, country), name) <==> AnySiteHits(sites, country, name)
  {
    hide Encode, SiteFields, AddEntry, SiteHits, Covers;
    if sites != [] {
      var front, s := sites[..|sites| - 1], sites[|sites| - 1];
      assert s in sites && forall x :: x in sites ==> x in front || x == s;
      EntriesMeaning(front, entries[..|sites| - 1], country, name);
      EntryMeaning(AddEntries(entries[..|sites| - 1]).value, s, country, name);
    }
  }

  /** MatchGeosite over an index: some requested category covers the name. Both
      sides are lowered, the patterns are not. */
  ghost predicate Matches(index: Index, name: string, categories: seq<string>) {
    exists c :: c in categories && Scan(PatternsOf(index, Lower(c)), Lower(name))
  }

  /** What loading a canonical list makes of one country. */
  lemma CountryMeaning(sites: seq<SiteMsg>, spare: seq<byte>, country: string, name: string)
    requires ValidSites(sites) && |Encode(SiteList(sites))| <= MAX_ALLOC
    ensures Parse(Encode(SiteList(sites)), spare).Some?
    ensures Scan(PatternsOf(Parse(Encode(SiteList(sites)), spare).value, country), name)
            <==> AnySiteHits(sites, country, name)
  {
    hide Encode, SiteFields, AddEntries, SiteHits, Covers, Repeated;
    var fs := SiteList(sites);
    SiteListReadBack(sites);
    AllPayloads(fs, 1);
    RepeatedRoundTrip(fs, spare, 1);
    var entries := Payloads(fs, 1);
    forall i | 0 <= i < |sites|
      ensures |entries[i]| < TWO_63
    {
      DataFitsEncoding(fs, fs[i]);
    }
    EntriesMeaning(sites, entries, country, name);
  }

  /** Loading never panics on a canonical list, and afterwards a name matches some
      requested categories exactly when a site of one of them holds a domain that
      hits the lowered name. */
  lemma GeositeEndToEnd(sites: seq<SiteMsg>, spare: seq<byte>, name: string, categories: seq<string>)
    requires ValidSites(sites) && |Encode(SiteList(sites))| <= MAX_ALLOC
    ensures Parse(Encode(SiteList(sites)), spare).Some?
    ensures Matches(Parse(Encode(SiteList(sites)), spare).value, name, categories)
            <==> exists c :: c in categories && AnySiteHits(sites, Lower(c), Lower(name))
  {
    hide Encode, SiteList, AnySiteHits, Parse, Scan;
    CountryMeaning(sites, spare, "", "");
    forall c | c in categories
      ensures Scan(PatternsOf(Parse(Encode(SiteList(sites)), spare).value, Lower(c)), Lower(name))
              <==> AnySiteHits(sites, Lower(c), Lower(name))
    {
      CountryMeaning(sites, spare, Lower(c), Lower(name));
    }
  }

  /** A country is there and not empty exactly when some site of it can hit some name. */
  lemma CountryIsLoaded(sites: seq<SiteMsg>, spare: seq<byte>, country: string)
    requires ValidSites(sites) && |Encode(SiteList(sites))| <= MAX_ALLOC
    ensures Parse(Encode(SiteList(sites)), spare).Some?
    ensures PatternsOf(Parse(Encode(SiteList(sites)), spare).value, country) != {}
            <==> exists name :: AnySiteHits(sites, country, name)
  {
    hide Encode, SiteList, AnySiteHits, Parse;
    CountryMeaning(sites, spare, country, "");
    var ps := PatternsOf(Parse(Encode(SiteList(sites)), spare).value, country);
    if p :| p in ps {
      assert Covers(p, p);
      CountryMeaning(sites, spare, country, p);
    }
    if name :| AnySiteHits(sites, country, name) {
      CountryMeaning(sites, spare, country, name);
    }
  }

  /** The type of a domain counts modulo 2^32, and no type but 0 to 3 hits anything. */
  lemma TypesWrap(typ: nat, value: seq<byte>, name: string)
    ensures DomainHits(DomainMsg(typ, value, []), name) <==> Hits(typ % 4_294_967_296, AsString(value), name)
    ensures typ % 4_294_967_296 > 3 ==> !DomainHits(DomainMsg(typ, value, []), name)
  {
  }

  // ---------- fields that occur twice ----------

  /** Of several countries in one site, and of several types or values in one domain, the
      last one counts. */
  lemma LastFieldCounts(fs: seq<Field>, f: Field)
    ensures f.num == 1 ==> Country(fs + [f]) == Lower(AsString(f.data))
    ensures f.num == 1 ==> TypeOf(fs + [f]) == DecodeVarint(f.data) % 4_294_967_296
    ensures f.num == 2 ==> ValueOf(fs + [f]) == AsString(f.data)
    ensures f.num == 2 ==> Blobs(fs + [f]) == Blobs(fs) + [f.data]
    ensures f.num != 1 ==> Country(fs + [f]) == Country(fs) && TypeOf(fs + [f]) == TypeOf(fs)
    ensures f.num != 2 ==> ValueOf(fs + [f]) == ValueOf(fs) && Blobs(fs + [f]) == Blobs(fs)
  {
    assert (fs + [f])[..|fs|] == fs;
  }

  /** On lists as they are meant to be written, lowercase values without a leading
      dot, and for names without a colon, the meaning is the expected one. */
  lemma PlainMeaning(d: DomainMsg, name: string)
    requires ':' !in name
    requires d.value == [] || d.value[0] as char != '.'
    ensures DomainHits(d, name) <==>
              && d.value != []
              && var typ := d.typ % INT32_RANGE;
                 || ((typ == 0 || typ == 3) && name == AsString(d.value))
                 || (typ == 2 && IsOrUnder(name, AsString(d.value)))
  {
    var value := AsString(d.value);
    assert ("regexp:" + value)[6] == ':';
    assert value != "" ==> value[0] == d.value[0] as char;
  }

  lemma LowerBelow(name: string, d: string)
    requires IsLower(name) && IsOrUnder(name, d)
    ensures IsLower(d)
  {
    if name != d {
      assert name == name[..|name| - |d|] + d by {
        assert name[|name| - |"." + d|..][1..] == name[|name| - |d|..];
      }
      LowerParts(name[..|name| - |d|], d);
    }
  }

  /** Values are stored as they are but names are lowered first, so a value can ever
      match if and only if it holds no capital letter. */
  lemma CapitalsNeverMatch(typ: nat, value: string)
    requires typ <= 3 && value != ""
    ensures (exists name :: Hits(typ, value, Lower(name))) <==> IsLower(value)
  {
    var core := Core(value);
    LowerParts(".", core);
    LowerParts("regexp:", value);
    assert value == core || value == "." + core;
    assert Lower(".") == "." && Lower("regexp:") == "regexp:";
    if name :| Hits(typ, value, Lower(name)) {
      LowerIdempotent(name);
      if IsOrUnder(Lower(name), core) {
        LowerBelow(Lower(name), core);
      }
    }
    if IsLower(value) {
      var witnessName := if typ == 1 then "regexp:" + value else if typ == 2 || value[0] == '.' then core else value;
      assert Lower(witnessName) == witnessName;
      assert Hits(typ, value, Lower(witnessName));
    }
  }
}
