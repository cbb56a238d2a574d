/** The geosite loader of geodata.go: nested messages in, an index of domain
    patterns per country out, and the lookups over that index. */
module Geosite {
  import opened Prelude
  import opened Text
  import opened Wire

  const INT32_RANGE: int := 0x1_0000_0000

  /** country -> set of patterns (the keys of an inner map[string]bool). */
  type Index = map<string, set<string>>

  // ---------- what the loader reads out of decoded fields ----------

  function Country(fs: seq<Field>): string {
    if fs == [] then ""
    else
      var f := fs[|fs| - 1];
      if f.num == 1 then Lower(AsString(f.data)) else Country(fs[..|fs| - 1])
  }

  function Blobs(fs: seq<Field>): seq<seq<byte>> {
    if fs == [] then []
    else Blobs(fs[..|fs| - 1]) + (if fs[|fs| - 1].num == 2 then [fs[|fs| - 1].data] else [])
  }

  /** int32(decodeVarint(..)), as its low 32 bits. */
  function TypeOf(fs: seq<Field>): nat {
    if fs == [] then 0
    else
      var f := fs[|fs| - 1];
      if f.num == 1 then DecodeVarint(f.data) % INT32_RANGE else TypeOf(fs[..|fs| - 1])
  }

  function ValueOf(fs: seq<Field>): string {
    if fs == [] then ""
    else
      var f := fs[|fs| - 1];
      if f.num == 2 then AsString(f.data) else ValueOf(fs[..|fs| - 1])
  }

  /** The pattern kept for one domain: plain (0) and full (3) values as they are,
      regular expressions (1) behind a prefix, domains (2) with a leading dot. */
  function Pattern(typ: nat, value: string): set<string> {
    if value == "" then {}
    else if typ == 0 || typ == 3 then {value}
    else if typ == 1 then {"regexp:" + value}
    else if typ == 2 then {if HasPrefix(value, ".") then value else "." + value}
    else {}
  }

  function BlobPatterns(blobs: seq<seq<byte>>): Option<set<string>> {
    if blobs == [] then Some({})
    else match BlobPatterns(blobs[..|blobs| - 1])
      case None => None
      case Some(ps) =>
        match Fields(blobs[|blobs| - 1], 0)
        case None => None
        case Some(fs) => Some(ps + Pattern(TypeOf(fs), ValueOf(fs)))
  }

  function PatternsOf(index: Index, country: string): set<string> {
    if country in index then index[country] else {}
  }

  /** One top-level message. A message without a country is dropped before its
      domains are decoded. */
  function AddEntry(index: Index, entry: seq<byte>): Option<Index> {
    match Fields(entry, 0)
    case None => None
    case Some(fs) =>
      if Country(fs) == "" then Some(index)
      else match BlobPatterns(Blobs(fs))
        case None => None
        case Some(ps) => Some(index[Country(fs) := PatternsOf(index, Country(fs)) + ps])
  }

  function AddEntries(entries: seq<seq<byte>>): Option<Index> {
    if entries == [] then Some(map[])
    else match AddEntries(entries[..|entries| - 1])
      case None => None
      case Some(index) => AddEntry(index, entries[|entries| - 1])
  }

  function Parse(data: seq<byte>, spare: seq<byte>): Option<Index> {
    match Repeated(data, spare, 0, 1, WIRE_BYTES)
    case None => None
    case Some(entries) => AddEntries(entries)
  }

  // ---------- the loader ----------

  lemma AfterOne<T>(s: seq<T>, i: nat)
    requires i < |s|
    ensures s[..i + 1] != [] && s[..i + 1][..i] == s[..i] && s[..i + 1][i] == s[i]
  {
  }

  method ReadSite(fields: seq<Field>) returns (country: string, blobs: seq<seq<byte>>)
    ensures country == Country(fields) && blobs == Blobs(fields)
  {
    country, blobs := "", [];
    for i := 0 to |fields|
      invariant country == Country(fields[..i]) && blobs == Blobs(fields[..i])
    {
      AfterOne(fields, i);
      var f := fields[i];
      assert blobs + [] == blobs;
      if f.num == 1 {
        country := Lower(AsString(f.data));
      } else if f.num == 2 {
        blobs := blobs + [f.data];
      }
    }
    assert fields[..|fields|] == fields;
  }

  method ReadDomain(fields: seq<Field>) returns (typ: nat, value: string)
    ensures typ == TypeOf(fields) && value == ValueOf(fields)
  {
    typ, value := 0, "";
    for i := 0 to |fields|
      invariant typ == TypeOf(fields[..i]) && value == ValueOf(fields[..i])
    {
      AfterOne(fields, i);
      var f := fields[i];
      if f.num == 1 {
        typ := DecodeVarint(f.data) % INT32_RANGE;
      } else if f.num == 2 {
        value := AsString(f.data);
      }
    }
    assert fields[..|fields|] == fields;
  }

  /** Fills the inner map of one country. */
  method AddDomains(patterns: set<string>, blobs: seq<seq<byte>>) returns (result: Option<set<string>>)
    requires forall b :: b in blobs ==> |b| <= MAX_ALLOC
    ensures result == match BlobPatterns(blobs)
                      case None => None
                      case Some(ps) => Some(patterns + ps)
  {
    hide Fields, HasPrefix;
    var m := patterns;
    for i := 0 to |blobs|
      invariant BlobPatterns(blobs[..i]).Some?
      invariant m == patterns + BlobPatterns(blobs[..i]).value
    {
      AfterOne(blobs, i);
      var fields, _ := DecodeProtobufFields(blobs[i]);
      if fields == None {
        StaysNone(blobs, i + 1);
        return None;
      }
      var typ, value := ReadDomain(fields.value);
      if value == "" {
        continue;
      }
      if typ == 0 {
        m := m + {value};
      } else if typ == 1 {
        m := m + {"regexp:" + value};
      } else if typ == 2 {
        if !HasPrefix(value, ".") {
          value := "." + value;
        }
        m := m + {value};
      } else if typ == 3 {
        m := m + {value};
      }
    }
    assert blobs[..|blobs|] == blobs;
    return Some(m);
  }

  lemma {:induction false} StaysNone(blobs: seq<seq<byte>>, i: nat)
    requires i <= |blobs| && BlobPatterns(blobs[..i]) == None
    ensures BlobPatterns(blobs) == None
    decreases |blobs| - i
  {
    if i < |blobs| {
      AfterOne(blobs, i);
      StaysNone(blobs, i + 1);
    } else {
      assert blobs[..i] == blobs;
    }
  }

  lemma {:induction false} EntriesStayNone(entries: seq<seq<byte>>, i: nat)
    requires i <= |entries| && AddEntries(entries[..i]) == None
    ensures AddEntries(entries) == None
    decreases |entries| - i
  {
    if i < |entries| {
      AfterOne(entries, i);
      EntriesStayNone(entries, i + 1);
    } else {
      assert entries[..i] == entries;
    }
  }

  lemma {:induction false} BlobsAreFields(fs: seq<Field>)
    ensures forall b :: b in Blobs(fs) ==> exists f :: f in fs && f.data == b
  {
    if fs != [] {
      BlobsAreFields(fs[..|fs| - 1]);
      assert fs[|fs| - 1] in fs;
    }
  }

  lemma {:induction false} PayloadsAreFields(fs: seq<Field>, num: nat)
    ensures forall b :: b in Payloads(fs, num) ==> exists f :: f in fs && f.data == b
  {
    if fs != [] {
      PayloadsAreFields(fs[1..], num);
      assert fs[0] in fs;
    }
  }

  lemma EntriesFit(data: seq<byte>, spare: seq<byte>)
    requires |data| <= MAX_ALLOC && Repeated(data, spare, 0, 1, WIRE_BYTES).Some?
    ensures forall e :: e in Repeated(data, spare, 0, 1, WIRE_BYTES).value ==> |e| <= MAX_ALLOC
  {
    DecodersAgree(data, spare, 0, 1);
    FieldSizes(data, 0);
    PayloadsAreFields(Fields(data, 0).value, 1);
  }

  lemma BlobsFit(entry: seq<byte>)
    requires |entry| <= MAX_ALLOC && Fields(entry, 0).Some?
    ensures forall b :: b in Blobs(Fields(entry, 0).value) ==> |b| <= MAX_ALLOC
  {
    FieldSizes(entry, 0);
    BlobsAreFields(Fields(entry, 0).value);
  }

  method ParseGeositeProtobuf(data: seq<byte>, spare: seq<byte>) returns (result: Option<Index>)
    requires |data| <= MAX_ALLOC
    ensures result == Parse(data, spare)
  {
    hide Fields, Country, Blobs, BlobPatterns, Repeated;
    var entries, _ := DecodeProtobufRepeated(data, spare, 1, WIRE_BYTES);
    if entries == None {
      return None;
    }
    EntriesFit(data, spare);
    var index: Index := map[];
    for i := 0 to |entries.value|
      invariant AddEntries(entries.value[..i]) == Some(index)
    {
      AfterOne(entries.value, i);
      var entry := entries.value[i];
      var fields, _ := DecodeProtobufFields(entry);
      if fields == None {
        EntriesStayNone(entries.value, i + 1);
        return None;
      }
      BlobsFit(entry);
      var country, blobs := ReadSite(fields.value);
      if country == "" {
        continue;
      }
      ghost var before := index;
      if country !in index {
        index := index[country := {}];
      }
      var added := AddDomains(index[country], blobs);
      if added == None {
        EntriesStayNone(entries.value, i + 1);
        return None;
      }
      index := index[country := added.value];
      assert index == before[country := added.value];
    }
    assert entries.value[..|entries.value|] == entries.value;
    return Some(index);
  }
}
