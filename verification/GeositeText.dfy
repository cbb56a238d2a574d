/** The other half of the geosite loader of geodata.go: telling a binary list from a
    text list, and parsing the text. */
module GeositeText {
  import opened Prelude
  import opened Text
  import opened SuffixIndex
  import opened Wire
  import opened Geosite
  import opened GeositeMeaning

  // ---------- the guess ----------

  const NEWLINE: byte := 0x0A

  predicate IsControl(b: byte) {
    b < 0x20 && b != NEWLINE && b != 0x0D && b != 0x09
  }

  /** A newline among the first 8 bytes, or a control byte among the first 512. */
  predicate LooksBinary(data: seq<byte>) {
    || (exists i :: 0 <= i < Min(|data|, 8) && data[i] == NEWLINE)
    || (exists i :: 0 <= i < Min(|data|, 512) && IsControl(data[i]))
  }

  method IsProtobuf(data: seq<byte>) returns (binary: bool)
    ensures binary == LooksBinary(data)
  {
    if |data| == 0 {
      return false;
    }
    for i := 0 to Min(|data|, 8)
      invariant forall j :: 0 <= j < i ==> data[j] != NEWLINE
    {
      if data[i] == NEWLINE {
        return true;
      }
    }
    var isText := true;
    for i := 0 to Min(|data|, 512)
      invariant forall j :: 0 <= j < i ==> !IsControl(data[j])
    {
      if IsControl(data[i]) {
        isText := false;
        return !isText;
      }
    }
    return !isText;
  }

  /** A canonical list of sites is taken for binary unless it is empty: its first byte is
      the tag of field 1, which is the code of a newline. */
  lemma CanonicalLooksBinary(sites: seq<SiteMsg>)
    ensures LooksBinary(Encode(SiteList(sites))) <==> sites != []
  {
    SiteListReadBack(sites);
    if sites != [] {
      var f, d := SiteList(sites)[0], Encode(SiteList(sites));
      assert f in SiteList(sites);
      assert EncodeTag(1, WIRE_BYTES) == [NEWLINE];
      hide Encode, EncodeVarint;
      FirstTag(SiteList(sites));
      assert d[0] == NEWLINE;
    }
  }

  lemma FirstTag(fs: seq<Field>)
    requires fs != []
    ensures |Encode(fs)| > 0 && Encode(fs)[0] == EncodeTag(fs[0].num, fs[0].wire)[0]
  {
    hide EncodeVarint;
  }

  // ---------- text lists ----------

  /** Where the scan of a text list is: the category in force, and what it has found. */
  datatype Scanned = Scanned(category: string, index: Index)

  /** A line, already trimmed, that counts for nothing. */
  predicate IsIgnored(line: string) {
    line == "" || HasPrefix(line, "#")
  }

  /** A line that opens a category. */
  predicate IsHeader(line: string) {
    !IsIgnored(line) && (HasPrefix(line, "@") || ('.' !in line && '/' !in line))
  }

  predicate IsPattern(line: string) {
    !IsIgnored(line) && !IsHeader(line)
  }

  function HeaderName(line: string): string {
    if HasPrefix(line, "@") then line[1..] else line
  }

  function AddLine(s: Scanned, line: string): Scanned {
    if IsIgnored(line) then s
    else if IsHeader(line) then
      var c := HeaderName(line);
      Scanned(c, s.index[c := PatternsOf(s.index, c)])
    else if s.category != "" then
      s.(index := s.index[s.category := PatternsOf(s.index, s.category) + {line}])
    else s
  }

  function ScanLines(lines: seq<string>): Scanned {
    if lines == [] then Scanned("", map[]) else AddLine(ScanLines(lines[..|lines| - 1]), TrimSpace(lines[|lines| - 1]))
  }

  method ParseGeositeText(text: string) returns (result: Index)
    ensures result == ScanLines(Split(text, '\n')).index
  {
    var lines := Split(text, '\n');
    result := map[];
    var currentCat := "";
    for i := 0 to |lines|
      invariant ScanLines(lines[..i]) == Scanned(currentCat, result)
      invariant currentCat != "" ==> currentCat in result
    {
      assert lines[..i + 1][..i] == lines[..i];
      var line := TrimSpace(lines[i]);
      if line == "" || HasPrefix(line, "#") {
        continue;
      }
      if HasPrefix(line, "@") || ('.' !in line && '/' !in line) {
        currentCat := HeaderName(line);
        if currentCat !in result {
          result := result[currentCat := {}];
        }
        assert result == result[currentCat := result[currentCat]];
        continue;
      }
      if currentCat != "" {
        result := result[currentCat := result[currentCat] + {line}];
      }
    }
    assert lines[..|lines|] == lines;
  }

  // What the lines mean, character by character.

  /** "@c", or c itself if it does not begin with "@" or "#" and holds no dot and no slash. */
  predicate Opens(line: string, c: string) {
    || line == "@" + c
    || (line == c && c != "" && c[0] != '@' && c[0] != '#' && '.' !in c && '/' !in c)
  }

  predicate OpensSome(line: string) {
    line != "" && line[0] != '#' && (line[0] == '@' || ('.' !in line && '/' !in line))
  }

  predicate GivesPattern(line: string) {
    line != "" && line[0] != '#' && line[0] != '@' && ('.' in line || '/' in line)
  }

  /** The parser's tests say just that. */
  lemma LineTests(line: string, c: string)
    ensures IsHeader(line) <==> OpensSome(line)
    ensures IsHeader(line) && HeaderName(line) == c <==> Opens(line, c)
    ensures IsPattern(line) <==> GivesPattern(line)
  {
    if line != "" {
      assert line[..1] == [line[0]] && line == line[..1] + line[1..];
    }
    if line == "@" + c {
      assert line[..1] == "@" && line[1..] == c;
    }
  }

  /** The last header among the lines opens the category in force behind them. */
  ghost predicate InForce(lines: seq<string>, c: string) {
    exists h :: 0 <= h < |lines| && IsLastHeader(lines, h) && Opens(TrimSpace(lines[h]), c)
  }

  predicate IsLastHeader(lines: seq<string>, h: nat) {
    && h < |lines| && OpensSome(TrimSpace(lines[h]))
    && forall j :: h < j < |lines| ==> !OpensSome(TrimSpace(lines[j]))
  }

  /** Line i puts the pattern p into category c. */
  ghost predicate Lists(lines: seq<string>, i: nat, c: string, p: string) {
    i < |lines| && GivesPattern(TrimSpace(lines[i])) && TrimSpace(lines[i]) == p && InForce(lines[..i], c)
  }

  lemma {:induction false} CategoryInForce(lines: seq<string>, c: string)
    requires c != ""
    ensures ScanLines(lines).category == c <==> InForce(lines, c)
  {
    if lines != [] {
      var n := |lines| - 1;
      var front, line := lines[..n], TrimSpace(lines[n]);
      CategoryInForce(front, c);
      LineTests(line, c);
      hide TrimSpace, IsHeader, HeaderName, AddLine, Opens, OpensSome;
      if IsHeader(line) {
        assert IsLastHeader(lines, n);
        HeaderNotIgnored(line);
      } else {
        OtherLine(ScanLines(front), line);
        hide ScanLines;
        SameForce(lines, c);
      }
    }
  }

  lemma SameForce(lines: seq<string>, c: string)
    requires lines != [] && !OpensSome(TrimSpace(lines[|lines| - 1]))
    ensures InForce(lines, c) <==> InForce(lines[..|lines| - 1], c)
  {
    hide TrimSpace, Opens, OpensSome;
    var n := |lines| - 1;
    var front := lines[..n];
    forall h: nat | h < n
      ensures IsLastHeader(lines, h) <==> IsLastHeader(front, h)
    {
      assert forall j :: h <= j < n ==> lines[j] == front[j];
    }
    assert forall h: nat :: h < n ==> lines[h] == front[h];
  }

  lemma HeaderNotIgnored(line: string)
    requires IsHeader(line)
    ensures !IsIgnored(line) && forall s: Scanned :: AddLine(s, line).category == HeaderName(line)
  {
  }

  lemma OtherLine(s: Scanned, line: string)
    requires !IsHeader(line)
    ensures AddLine(s, line).category == s.category
  {
  }

  /** What a text list means: a category holds exactly the patterns on the lines that
      follow its header, up to the next header. */
  lemma {:induction false} TextMeaning(lines: seq<string>, c: string, p: string)
    ensures p in PatternsOf(ScanLines(lines).index, c) <==> c != "" && exists i: nat :: Lists(lines, i, c, p)
  {
    if lines != [] {
      var n := |lines| - 1;
      var front, line := lines[..n], TrimSpace(lines[n]);
      TextMeaning(front, c, p);
      if c != "" {
        CategoryInForce(front, c);
      }
      OneMoreLine(ScanLines(front), line, c, p);
      LineTests(line, c);
      hide TrimSpace, InForce, IsPattern, GivesPattern, AddLine;
      if i: nat :| Lists(front, i, c, p) {
        assert lines[..i] == front[..i] && Lists(lines, i, c, p);
      }
      if i: nat :| Lists(lines, i, c, p) && i < n {
        assert lines[..i] == front[..i] && Lists(front, i, c, p);
      }
      assert Lists(lines, n, c, p) <==> GivesPattern(line) && line == p && InForce(front, c);
    }
  }

  lemma OneMoreLine(s: Scanned, line: string, c: string, p: string)
    ensures p in PatternsOf(AddLine(s, line).index, c)
            <==> p in PatternsOf(s.index, c) || (c != "" && s.category == c && IsPattern(line) && line == p)
  {
  }

  /** Line i answers a question about a category and a name. */
  ghost predicate Answers(lines: seq<string>, i: nat, category: string, name: string) {
    && i < |lines| && category != ""
    && Lists(lines, i, Lower(category), TrimSpace(lines[i])) && Covers(TrimSpace(lines[i]), Lower(name))
  }

  /** From a text list to the answer for a name: a line under the header of a requested
      category covers the lowered name. */
  lemma TextEndToEnd(lines: seq<string>, name: string, categories: seq<string>)
    ensures Matches(ScanLines(lines).index, name, categories)
            <==> exists c, i: nat :: c in categories && Answers(lines, i, c, name)
  {
    var index := ScanLines(lines).index;
    hide ScanLines, TrimSpace, Covers, InForce, GivesPattern;
    if Matches(index, name, categories) {
      var c :| c in categories && Scan(PatternsOf(index, Lower(c)), Lower(name));
      var p :| p in PatternsOf(index, Lower(c)) && Covers(p, Lower(name));
      TextMeaning(lines, Lower(c), p);
      var i: nat :| Lists(lines, i, Lower(c), p);
      assert Answers(lines, i, c, name);
    }
    if c, i: nat :| c in categories && Answers(lines, i, c, name) {
      TextMeaning(lines, Lower(c), TrimSpace(lines[i]));
    }
  }

  /** Neither headers nor patterns are lowered, questions are: a line can answer some
      question if and only if it is a pattern without a capital letter, under a header
      without one. */
  lemma CapitalTextLine(lines: seq<string>, i: nat)
    requires i < |lines|
    ensures (exists c, name :: Answers(lines, i, c, name))
            <==> IsLower(TrimSpace(lines[i]))
                 && exists c :: c != "" && IsLower(c) && Lists(lines, i, c, TrimSpace(lines[i]))
  {
    var p := TrimSpace(lines[i]);
    CapitalPattern(p);
    hide TrimSpace, Covers, InForce, GivesPattern;
    if c, name :| Answers(lines, i, c, name) {
      CoveredIsLower(p, name);
      LowerIdempotent(c);
      assert Lists(lines, i, Lower(c), p);
    }
    if c :| c != "" && IsLower(c) && Lists(lines, i, c, p) {
      if IsLower(p) {
        var name :| Covers(p, Lower(name));
        assert Answers(lines, i, c, name);
      }
    }
  }

  // ---------- both together ----------

  function ParseData(data: seq<byte>, spare: seq<byte>): Option<Index> {
    if LooksBinary(data) then Parse(data, spare) else Some(ScanLines(Split(AsString(data), '\n')).index)
  }

  method ParseGeositeData(data: seq<byte>, spare: seq<byte>) returns (result: Option<Index>)
    requires |data| <= MAX_ALLOC
    ensures result == ParseData(data, spare)
  {
    var binary := IsProtobuf(data);
    if binary {
      result := ParseGeositeProtobuf(data, spare);
    } else {
      var index := ParseGeositeText(AsString(data));
      return Some(index);
    }
  }

  /** The loader on a canonical list of sites, the empty one included. */
  lemma CanonicalData(sites: seq<SiteMsg>, spare: seq<byte>, name: string, categories: seq<string>)
    requires ValidSites(sites) && |Encode(SiteList(sites))| <= MAX_ALLOC
    ensures ParseData(Encode(SiteList(sites)), spare).Some?
    ensures Matches(ParseData(Encode(SiteList(sites)), spare).value, name, categories)
            <==> exists c :: c in categories && AnySiteHits(sites, Lower(c), Lower(name))
  {
    CanonicalLooksBinary(sites);
    GeositeEndToEnd(sites, spare, name, categories);
    if sites == [] {
      assert AsString([]) == "" && Split("", '\n') == [""] && TrimSpace("") == "";
      assert ScanLines([""]).index == map[];
    }
  }

  /** A text list is read as text if and only if no newline is among its first 8 bytes;
      one whose first line is short is decoded as binary. */
  lemma ShortFirstLine(data: seq<byte>)
    requires forall i :: 0 <= i < |data| ==> !IsControl(data[i])
    ensures LooksBinary(data) <==> exists i :: 0 <= i < Min(|data|, 8) && data[i] == NEWLINE
  {
  }

  /** Without an early newline a control byte among the first 512 makes a list binary;
      tab and carriage return do not count as such. */
  lemma ControlBytes(data: seq<byte>)
    requires forall i :: 0 <= i < Min(|data|, 8) ==> data[i] != 10
    ensures LooksBinary(data) <==>
              exists i :: 0 <= i < Min(|data|, 512) && data[i] < 32 && data[i] != 9 && data[i] != 10 && data[i] != 13
  {
    assert forall b: byte :: IsControl(b) <==> b < 32 && b != 9 && b != 10 && b != 13;
  }

  /** Such a list is lost without a word: "cn", newline, "a.cn" as text has one pattern,
      but what is loaded is empty. */
  lemma ShortListIsLost(spare: seq<byte>)
    ensures var data: seq<byte> := [0x63, 0x6E, NEWLINE, 0x61, 0x2E, 0x63, 0x6E];
            && AsString(data) == "cn\na.cn"
            && "a.cn" in PatternsOf(ScanLines(Split("cn\na.cn", '\n')).index, "cn")
            && ParseData(data, spare) == Some(map[])
  {
    hide Repeated, Split, ScanLines, TrimSpace;
    var data: seq<byte> := [0x63, 0x6E, NEWLINE, 0x61, 0x2E, 0x63, 0x6E];
    assert AsString(data) == "cn\na.cn" == "cn" + ['\n'] + "a.cn";
    assert data[2] == NEWLINE;
    NothingDecoded([0x63, 0x6E], [0x2E, 0x63, 0x6E], spare);
    assert [0x63, 0x6E] + ([0x0A, 0x61] + [0x2E, 0x63, 0x6E]) == data;
    SplitFirst("cn", '\n', "a.cn");
    NoSeparator("a.cn", '\n');
    assert ["cn"] + ["a.cn"] == ["cn", "a.cn"];
    TwoLines();
  }

  lemma TwoLines()
    ensures "a.cn" in PatternsOf(ScanLines(["cn", "a.cn"]).index, "cn")
  {
    assert ["cn", "a.cn"][..1] == ["cn"] && ["cn"][..0] == [];
    assert TrimSpace("cn") == "cn" && TrimSpace("a.cn") == "a.cn";
    assert ScanLines(["cn"]).category == "cn";
  }

  /** A one-byte tag of a wire type the decoder does not know ... */
  predicate IsUnknownTag(b: byte) {
    0 < b < 128 && (b % 8 == 3 || b % 8 == 6)
  }

  /** ... is skipped. */
  lemma SkipOne(b: byte, rest: seq<byte>, spare: seq<byte>, off: nat)
    requires IsUnknownTag(b)
    ensures Repeated([b] + rest, spare, off, 1, WIRE_BYTES) == Repeated(rest, spare, off + 1, 1, WIRE_BYTES)
  {
    assert SlicePass([b] + rest, spare, off) == Skip(1);
    assert Drop([b] + rest, 1) == rest;
  }

  /** So is a tag of type bytes with a length that runs past the end. */
  lemma SkipLong(rest: seq<byte>, spare: seq<byte>, off: nat)
    requires |rest| < 97 && off < 100
    ensures Repeated([0x0A, 0x61] + rest, spare, off, 1, WIRE_BYTES) == Repeated(rest, spare, off + 2, 1, WIRE_BYTES)
  {
    var d := [0x0A, 0x61] + rest;
    assert Drop(d, 1) == [0x61] + rest;
    assert DecodeVarint(d) == 10 && DecodeVarint([0x61] + rest) == 97;
    assert SlicePass(d, spare, off) == Skip(2);
    assert Drop(d, 2) == rest;
  }

  lemma {:induction false} SkipRun(front: seq<byte>, rest: seq<byte>, spare: seq<byte>, off: nat)
    requires forall i :: 0 <= i < |front| ==> IsUnknownTag(front[i])
    ensures Repeated(front + rest, spare, off, 1, WIRE_BYTES)
         == Repeated(rest, spare, off + |front|, 1, WIRE_BYTES)
  {
    hide Repeated, IsUnknownTag;
    if front == [] {
      assert front + rest == rest;
    } else {
      SkipOne(front[0], front[1..] + rest, spare, off);
      assert [front[0]] + (front[1..] + rest) == front + rest;
      SkipRun(front[1..], rest, spare, off + 1);
    }
  }

  lemma NothingToRepeat(spare: seq<byte>, off: nat)
    ensures Repeated([], spare, off, 1, WIRE_BYTES) == Some([])
  {
  }

  lemma NothingDecoded(front: seq<byte>, back: seq<byte>, spare: seq<byte>)
    requires forall i :: 0 <= i < |front| ==> IsUnknownTag(front[i])
    requires forall i :: 0 <= i < |back| ==> IsUnknownTag(back[i])
    requires |front| < 8 && |back| < 8
    ensures Repeated(front + ([0x0A, 0x61] + back), spare, 0, 1, WIRE_BYTES) == Some([])
  {
    hide Repeated, IsUnknownTag;
    NothingToRepeat(spare, |front| + 2 + |back|);
    SkipRun(front, [0x0A, 0x61] + back, spare, 0);
    SkipLong(back, spare, |front|);
    SkipRun(back, [], spare, |front| + 2);
    assert back + [] == back;
  }
}
