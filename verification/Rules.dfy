/** rules.go: the rule engine. Whether a regular expression compiles and what it
    matches are left open. */
module Rules {
  import opened Prelude
  import opened Text
  import opened SuffixIndex

  datatype Mode = Exact | Suffix | Wildcard | Regex | Keyword

  /** The regular expression library, as two unknown functions. */
  datatype Regexps = Regexps(valid: string -> bool, matches: (string, string) -> bool)

  /** A rule as a value: what the API sees, then what compile() derived. */
  datatype RuleData = RuleData(
    id: string, rtype: string, domain: string, target: string, enabled: Option<bool>,
    mode: Mode, regex: Option<string>, suffix: string, keyword: string)

  // ---------- compiling and matching one rule ----------

  /** compile(): the fields of the chosen mode are set, those of other modes keep their
      old values; a regular expression that does not compile changes nothing. */
  function Compile(rx: Regexps, r: RuleData): Option<RuleData> {
    var d := r.domain;
    if HasPrefix(d, "regexp:") then
      if rx.valid(d[7..]) then Some(r.(mode := Regex, regex := Some(d[7..]))) else None
    else if HasPrefix(d, "keyword:") then Some(r.(mode := Keyword, keyword := d[8..]))
    else if HasPrefix(d, "*.") then Some(r.(mode := Wildcard, suffix := d[1..]))
    else if HasPrefix(d, ".") then Some(r.(mode := Suffix, suffix := d))
    else Some(r.(mode := Exact))
  }

  /** The slices match() takes are in range. */
  predicate Sliceable(r: RuleData) {
    (r.mode == Suffix ==> |r.domain| >= 1) && (r.mode == Wildcard ==> |r.domain| >= 2)
  }

  predicate RuleMatches(rx: Regexps, r: RuleData, name: string)
    requires Sliceable(r)
  {
    var domain, target := Lower(name), Lower(r.domain);
    match r.mode
    case Exact => domain == target
    case Suffix => HasSuffix(domain, r.suffix) || domain == target[1..]
    case Wildcard => HasSuffix(domain, r.suffix) || domain == target[2..]
    case Regex => r.regex.Some? && rx.matches(r.regex.value, domain)
    case Keyword => Contains(domain, r.keyword)
  }

  predicate IsEnabled(r: RuleData) {
    r.enabled == Some(true)
  }

  /** Plain, suffix and wildcard patterns. */
  predicate IsNamePattern(p: string) {
    !HasPrefix(p, "regexp:") && !HasPrefix(p, "keyword:")
  }

  /** The pattern the suffix index would hold for a rule: "*.d" means what ".d" means. */
  function IndexPattern(p: string): string {
    if HasPrefix(p, "*.") then p[1..] else p
  }

  /** A compiled rule with a lowercase name pattern matches exactly the names its
      pattern covers, in the sense of the suffix index. */
  lemma CompiledMeaning(rx: Regexps, r: RuleData, name: string)
    requires IsNamePattern(r.domain) && IsLower(r.domain)
    ensures Compile(rx, r).Some? && Sliceable(Compile(rx, r).value)
    ensures RuleMatches(rx, Compile(rx, r).value, name) <==> Covers(IndexPattern(r.domain), Lower(name))
  {
    var p := r.domain;
    CoversMeaning(IndexPattern(p), Lower(name));
    assert p != "" ==> (p[0] == '.' <==> p[..1] == ".");
    if HasPrefix(p, "*.") {
      assert p[..2][0] == '*' && p[..2][1] == '.' && p == "*." + p[2..];
      assert IndexPattern(p)[0] == '.' && Core(p[1..]) == p[2..] && "." + p[2..] == p[1..];
    } else if HasPrefix(p, ".") {
      assert p[..1][0] == '.' && p == "." + p[1..];
    }
  }

  /** The domain a ".d" or "*.d" pattern is about. */
  function Apex(p: string): string
    requires HasPrefix(p, ".") || HasPrefix(p, "*.")
  {
    if HasPrefix(p, "*.") then p[2..] else p[1..]
  }

  /** Suffixes are kept as written but names are lowered, so a ".d" or "*.d" rule with a
      capital letter matches d itself and none of its subdomains. */
  lemma CapitalSuffix(rx: Regexps, r: RuleData, name: string)
    requires (HasPrefix(r.domain, ".") || HasPrefix(r.domain, "*.")) && !IsLower(r.domain)
    ensures Compile(rx, r).Some? && Sliceable(Compile(rx, r).value)
    ensures RuleMatches(rx, Compile(rx, r).value, name) <==> Lower(name) == Lower(Apex(r.domain))
  {
    var p, d := r.domain, Lower(name);
    assert Lower(".") == "." && Lower("*") == "*";
    LowerIdempotent(name);
    if HasPrefix(p, "*.") {
      assert p[..2][0] == '*' && p[..2][1] == '.' && p == "*" + p[1..];
      LowerParts("*", p[1..]);
      LowerSuffix(d, p[1..]);
    } else {
      assert p[..1][0] == '.' && p == "." + p[1..];
      LowerSuffix(d, p);
    }
  }

  /** What a compiled rule of each form matches, the form written out. */
  lemma KeywordRule(rx: Regexps, r: RuleData, k: string, name: string)
    requires r.domain == "keyword:" + k
    ensures Compile(rx, r).Some? && Sliceable(Compile(rx, r).value)
    ensures RuleMatches(rx, Compile(rx, r).value, name) <==> exists a, b :: Lower(name) == a + k + b
  {
    assert r.domain[..8] == "keyword:" && r.domain[8..] == k && r.domain[0] == 'k';
    assert !HasPrefix(r.domain, "regexp:") by {
      assert |r.domain| >= 7 ==> r.domain[..7][0] == 'k' && "regexp:"[0] == 'r';
    }
    hide Contains;
    ContainsMeaning(Lower(name), k);
  }

  lemma RegexRule(rx: Regexps, r: RuleData, p: string, name: string)
    requires r.domain == "regexp:" + p
    ensures Compile(rx, r).Some? <==> rx.valid(p)
    ensures rx.valid(p) ==>
              Sliceable(Compile(rx, r).value)
              && RuleMatches(rx, Compile(rx, r).value, name) == rx.matches(p, Lower(name))
  {
    assert r.domain[..7] == "regexp:" && r.domain[7..] == p;
  }

  /** A pattern without one of the four prefixes: equality up to case. */
  lemma ExactRule(rx: Regexps, r: RuleData, name: string)
    requires IsNamePattern(r.domain) && (r.domain != "" ==> r.domain[0] != '.' && r.domain[0] != '*')
    ensures Compile(rx, r).Some? && Sliceable(Compile(rx, r).value)
    ensures RuleMatches(rx, Compile(rx, r).value, name) <==> Lower(name) == Lower(r.domain)
  {
    assert |r.domain| >= 1 ==> r.domain[..1][0] == r.domain[0];
    assert |r.domain| >= 2 ==> r.domain[..2][0] == r.domain[0];
  }

  lemma DotOrStar(p: string)
    requires p != "" && (p[0] == '.' || p[0] == '*')
    ensures IsNamePattern(p) && (HasPrefix(p, ".") <==> p[0] == '.')
    ensures HasPrefix(p, "*.") <==> |p| >= 2 && p[0] == '*' && p[1] == '.'
  {
    assert |p| >= 7 ==> p[..7][0] == p[0] && "regexp:"[0] == 'r';
    assert |p| >= 8 ==> p[..8][0] == p[0] && "keyword:"[0] == 'k';
    assert p[..1][0] == p[0] && (|p| >= 2 ==> p[..2] == [p[0], p[1]]);
  }

  lemma LowerTail(p: string, i: nat)
    requires i <= |p|
    ensures Lower(p)[i..] == Lower(p[i..])
  {
  }

  /** ".d" and "*.d": d up to case, and what ends in ".d" as it is written. */
  lemma SuffixRule(rx: Regexps, r: RuleData, d: string, name: string)
    requires r.domain == "." + d || r.domain == "*." + d
    ensures Compile(rx, r).Some? && Sliceable(Compile(rx, r).value)
    ensures RuleMatches(rx, Compile(rx, r).value, name)
            <==> Lower(name) == Lower(d) || exists a :: Lower(name) == a + ("." + d)
  {
    hide HasPrefix, HasSuffix, Lower;
    DotOrStar(r.domain);
    SuffixMeaning(Lower(name), "." + d);
    LowerTail(r.domain, 1);
    if r.domain == "." + d {
      assert r.domain[1..] == d;
    } else {
      LowerTail(r.domain, 2);
      assert r.domain[2..] == d && r.domain[1..] == "." + d;
    }
  }

  // ---------- lists of rules ----------

  /** Match: the first enabled rule that matches. */
  function FirstMatch(rx: Regexps, l: seq<RuleData>, name: string): Option<RuleData>
    requires forall r :: r in l ==> Sliceable(r)
  {
    if l == [] then None
    else if IsEnabled(l[0]) && RuleMatches(rx, l[0], name) then Some(l[0])
    else FirstMatch(rx, l[1..], name)
  }

  lemma {:induction false} FirstMatchIsFirst(rx: Regexps, l: seq<RuleData>, name: string, i: nat)
    requires forall r :: r in l ==> Sliceable(r)
    requires i <= |l| && forall j :: 0 <= j < i ==> !(IsEnabled(l[j]) && RuleMatches(rx, l[j], name))
    ensures i < |l| && IsEnabled(l[i]) && RuleMatches(rx, l[i], name) ==> FirstMatch(rx, l, name) == Some(l[i])
    ensures i == |l| ==> FirstMatch(rx, l, name) == None
  {
    if i > 0 {
      FirstMatchIsFirst(rx, l[1..], name, i - 1);
    }
  }

  /** A rule that is switched off, or was never switched on, decides nothing. */
  lemma {:induction false} OnlyEnabledRules(rx: Regexps, l: seq<RuleData>, name: string)
    requires forall r :: r in l ==> Sliceable(r)
    requires forall r :: r in l ==> r.enabled == None || r.enabled == Some(false)
    ensures FirstMatch(rx, l, name) == None
  {
    if l != [] {
      assert l[0] in l;
      OnlyEnabledRules(rx, l[1..], name);
    }
  }

  /** And an enabled one that matches stands before all later ones. */
  lemma EnabledRuleDecides(rx: Regexps, r: RuleData, rest: seq<RuleData>, name: string)
    requires forall q :: q in [r] + rest ==> Sliceable(q)
    requires r.enabled == Some(true) && r in [r] + rest && RuleMatches(rx, r, name)
    ensures FirstMatch(rx, [r] + rest, name) == Some(r)
  {
  }

  function PatternSet(l: seq<RuleData>): set<string> {
    set r | r in l :: IndexPattern(r.domain)
  }

  /** The two matchers of the program agree: on compiled, enabled, lowercase name rules,
      scanning the rules finds a match exactly when the per-label lookup over the same
      patterns does. */
  lemma EngineAgreesWithIndex(rx: Regexps, l: seq<RuleData>, name: string)
    requires forall r :: r in l ==>
               IsNamePattern(r.domain) && IsLower(r.domain) && IsEnabled(r) && Compile(rx, r) == Some(r)
    requires forall r :: r in l ==> Sliceable(r)
    ensures FirstMatch(rx, l, name).Some? <==> Scan(PatternSet(l), Lower(name))
  {
    forall r | r in l
      ensures RuleMatches(rx, r, name) <==> Covers(IndexPattern(r.domain), Lower(name))
    {
      CompiledMeaning(rx, r, name);
    }
    hide IndexPattern, Covers, RuleMatches, Compile, IsNamePattern, IsLower;
    if Scan(PatternSet(l), Lower(name)) {
      var p :| p in PatternSet(l) && Covers(p, Lower(name));
      var r :| r in l && IndexPattern(r.domain) == p;
      SomeMatch(rx, l, name, r);
    }
    MatchIsMember(rx, l, name);
    if FirstMatch(rx, l, name).Some? {
      assert IndexPattern(FirstMatch(rx, l, name).value.domain) in PatternSet(l);
    }
  }

  lemma {:induction false} SomeMatch(rx: Regexps, l: seq<RuleData>, name: string, r: RuleData)
    requires forall r :: r in l ==> Sliceable(r)
    requires r in l && IsEnabled(r) && RuleMatches(rx, r, name)
    ensures FirstMatch(rx, l, name).Some?
  {
    if r != l[0] {
      SomeMatch(rx, l[1..], name, r);
    }
  }

  lemma {:induction false} MatchIsMember(rx: Regexps, l: seq<RuleData>, name: string)
    requires forall r :: r in l ==> Sliceable(r)
    ensures var m := FirstMatch(rx, l, name);
            m.Some? ==> m.value in l && IsEnabled(m.value) && RuleMatches(rx, m.value, name)
  {
    if l != [] {
      MatchIsMember(rx, l[1..], name);
    }
  }

  // ---------- identifiers ----------

  function Decimal(n: nat): string {
    if n < 10 then [(n + 48) as char] else Decimal(n / 10) + [(n % 10 + 48) as char]
  }

  /** %03d. */
  function Padded(n: nat): string {
    if n < 10 then "00" + Decimal(n) else if n < 100 then "0" + Decimal(n) else Decimal(n)
  }

  function FormatId(n: nat): string {
    "rule_" + Padded(n)
  }

  function NumberOf(s: string): int {
    if s == "" then 0 else NumberOf(s[..|s| - 1]) * 10 + (s[|s| - 1] as int - 48)
  }

  lemma {:induction false} DecimalNumber(n: nat)
    ensures NumberOf(Decimal(n)) == n
  {
    if n < 10 {
      assert Decimal(n)[..0] == "";
    } else {
      DecimalNumber(n / 10);
      assert Decimal(n)[..|Decimal(n)| - 1] == Decimal(n / 10);
    }
  }

  lemma {:induction false} LeadingZero(s: string)
    ensures NumberOf("0" + s) == NumberOf(s)
  {
    if s == "" {
      assert "0"[..0] == "";
    } else {
      assert ("0" + s)[..|s|] == "0" + s[..|s| - 1];
      LeadingZero(s[..|s| - 1]);
    }
  }

  /** Different numbers give different identifiers. */
  lemma FormatIdInjective(m: nat, n: nat)
    requires FormatId(m) == FormatId(n)
    ensures m == n
  {
    PaddedNumber(m);
    PaddedNumber(n);
    assert Padded(m) == FormatId(m)[5..] == FormatId(n)[5..] == Padded(n);
  }

  /** "rule_", then the decimal number, filled up with zeros to three digits. */
  lemma FormatIdMeaning(n: nat)
    ensures FormatId(n)[..5] == "rule_" && |FormatId(n)| >= 8
    ensures |FormatId(n)| > 8 ==> FormatId(n)[5] != '0'
    ensures NumberOf(FormatId(n)[5..]) == n
    ensures forall i :: 5 <= i < |FormatId(n)| ==> '0' <= FormatId(n)[i] <= '9'
  {
    PaddedNumber(n);
    DecimalDigits(n);
    assert FormatId(n)[5..] == Padded(n);
  }

  lemma {:induction false} DecimalDigits(n: nat)
    ensures |Decimal(n)| >= 1 && (n >= 10 ==> |Decimal(n)| >= 2) && (n >= 100 ==> |Decimal(n)| >= 3)
    ensures n < 10 ==> |Decimal(n)| == 1
    ensures n < 100 ==> |Decimal(n)| <= 2
    ensures n > 0 ==> Decimal(n)[0] != '0'
    ensures forall i :: 0 <= i < |Decimal(n)| ==> '0' <= Decimal(n)[i] <= '9'
  {
    if n >= 10 {
      DecimalDigits(n / 10);
    }
  }

  lemma FormatIdExamples()
    ensures FormatId(1) == "rule_001" && FormatId(42) == "rule_042" && FormatId(1234) == "rule_1234"
  {
    assert Decimal(1234) == Decimal(123) + "4" && Decimal(123) == Decimal(12) + "3";
  }

  lemma PaddedNumber(n: nat)
    ensures NumberOf(Padded(n)) == n
  {
    DecimalNumber(n);
    LeadingZero(Decimal(n));
    LeadingZero("0" + Decimal(n));
    assert "00" + Decimal(n) == "0" + ("0" + Decimal(n));
  }

  // ---------- reordering ----------

  ghost predicate DistinctIds(l: seq<RuleData>) {
    forall i, j :: 0 <= i < j < |l| ==> l[i].id != l[j].id
  }

  function Filter(l: seq<RuleData>, known: set<string>): seq<RuleData> {
    if l == [] then []
    else Filter(l[..|l| - 1], known) + (if l[|l| - 1].id in known then [l[|l| - 1]] else [])
  }

  function Lookup(l: seq<RuleData>, id: string): (r: RuleData)
    requires exists x :: x in l && x.id == id
    ensures r in l && r.id == id
  {
    if l[|l| - 1].id == id then l[|l| - 1] else Lookup(l[..|l| - 1], id)
  }

  function IdSet(l: seq<RuleData>): set<string> {
    set r | r in l :: r.id
  }

  /** The listed identifiers that are known, each at its first mention. */
  function FirstMentions(ids: seq<string>, known: set<string>): seq<string> {
    if ids == [] then []
    else
      var before := FirstMentions(ids[..|ids| - 1], known);
      var id := ids[|ids| - 1];
      if id in known && id !in before then before + [id] else before
  }

  /** Reorder: the known listed rules in the order of first mention, then the others in
      their old order. */
  function Listed(l: seq<RuleData>, ids: seq<string>): seq<RuleData>
    requires forall id :: id in ids ==> id in IdSet(l)
  {
    seq(|ids|, i requires 0 <= i < |ids| => Found(l, ids, i))
  }

  function Found(l: seq<RuleData>, ids: seq<string>, i: nat): RuleData
    requires i < |ids| && forall id :: id in ids ==> id in IdSet(l)
  {
    assert ids[i] in IdSet(l);
    Lookup(l, ids[i])
  }

  function Reordered(l: seq<RuleData>, ids: seq<string>): seq<RuleData> {
    var first := FirstMentions(ids, IdSet(l));
    MentionsKnown(ids, IdSet(l));
    Listed(l, first) + Filter(l, IdSet(l) - SetOf(first))
  }

  function SetOf(ids: seq<string>): set<string> {
    set id | id in ids
  }

  lemma {:induction false} MentionsKnown(ids: seq<string>, known: set<string>)
    ensures forall id :: id in FirstMentions(ids, known) <==> id in ids && id in known
    ensures Distinct(FirstMentions(ids, known))
  {
    if ids != [] {
      MentionsKnown(ids[..|ids| - 1], known);
    }
  }

  function FirstIndex(ids: seq<string>, id: string): nat
    requires id in ids
  {
    if ids[0] == id then 0 else 1 + FirstIndex(ids[1..], id)
  }

  lemma {:induction false} FirstIndexFront(ids: seq<string>, id: string)
    requires ids != [] && id in ids
    ensures id in ids[..|ids| - 1] ==> FirstIndex(ids, id) == FirstIndex(ids[..|ids| - 1], id)
    ensures id !in ids[..|ids| - 1] ==> FirstIndex(ids, id) == |ids| - 1
    ensures FirstIndex(ids, id) < |ids|
  {
    if ids[0] != id {
      FirstIndexFront(ids[1..], id);
      assert ids[1..][..|ids| - 2] == ids[..|ids| - 1][1..];
    }
  }

  /** The order of the listed part is that of first mention. */
  lemma {:induction false} MentionsInOrder(ids: seq<string>, known: set<string>, i: nat, j: nat)
    requires i < j < |FirstMentions(ids, known)|
    ensures FirstMentions(ids, known)[i] in ids && FirstMentions(ids, known)[j] in ids
    ensures FirstIndex(ids, FirstMentions(ids, known)[i]) < FirstIndex(ids, FirstMentions(ids, known)[j])
  {
    MentionsKnown(ids, known);
    var fm, front := FirstMentions(ids, known), ids[..|ids| - 1];
    var before := FirstMentions(front, known);
    MentionsKnown(front, known);
    assert fm[i] in ids && fm[j] in ids;
    FirstIndexFront(ids, fm[i]);
    FirstIndexFront(ids, fm[j]);
    if j < |before| {
      MentionsInOrder(front, known, i, j);
    } else {
      assert fm[j] !in before && fm[i] == before[i] && fm[i] in front;
      FirstIndexFront(front, fm[i]);
    }
  }

  lemma {:induction false} FilterMember(l: seq<RuleData>, known: set<string>)
    ensures forall r :: r in Filter(l, known) <==> r in l && r.id in known
  {
    if l != [] {
      FilterMember(l[..|l| - 1], known);
    }
  }

  /** The rules that are not listed keep their old relative order. */
  lemma {:induction false} FilterInOrder(l: seq<RuleData>, known: set<string>, i: nat, j: nat)
    returns (p: nat, q: nat)
    requires i < j < |Filter(l, known)|
    ensures p < q < |l| && l[p] == Filter(l, known)[i] && l[q] == Filter(l, known)[j]
  {
    var front := l[..|l| - 1];
    if j < |Filter(front, known)| {
      p, q := FilterInOrder(front, known, i, j);
    } else {
      assert Filter(front, known)[i] in Filter(front, known);
      FilterMember(front, known);
      p :| 0 <= p < |front| && front[p] == Filter(front, known)[i];
      q := |l| - 1;
    }
  }

  lemma {:induction false} FilterDistinct(l: seq<RuleData>, known: set<string>)
    requires DistinctIds(l)
    ensures DistinctIds(Filter(l, known))
  {
    if l != [] {
      FilterDistinct(l[..|l| - 1], known);
      FilterMember(l[..|l| - 1], known);
    }
  }

  lemma {:induction false} LookupUnique(l: seq<RuleData>, r: RuleData)
    requires DistinctIds(l) && r in l
    ensures Lookup(l, r.id) == r
  {
    if l[|l| - 1] != r {
      LookupUnique(l[..|l| - 1], r);
    }
  }

  /** Reorder keeps exactly the same rules, each once. */
  lemma ReorderedIsPermutation(l: seq<RuleData>, ids: seq<string>)
    requires DistinctIds(l)
    ensures DistinctIds(Reordered(l, ids))
    ensures forall r :: r in Reordered(l, ids) <==> r in l
    ensures multiset(Reordered(l, ids)) == multiset(l)
  {
    var first := FirstMentions(ids, IdSet(l));
    MentionsKnown(ids, IdSet(l));
    var listed, rest := Listed(l, first), Filter(l, IdSet(l) - SetOf(first));
    FilterMember(l, IdSet(l) - SetOf(first));
    FilterDistinct(l, IdSet(l) - SetOf(first));
    forall r | r in l
      ensures r in Reordered(l, ids)
    {
      if r.id in first {
        LookupUnique(l, r);
        var i :| 0 <= i < |first| && first[i] == r.id;
        assert listed[i] == r;
      }
    }
    SameElements(l, Reordered(l, ids));
  }

  /** The rule with identifier a comes before the one with identifier b. */
  ghost predicate Before(l: seq<RuleData>, a: string, b: string) {
    exists i, j :: 0 <= i < j < |l| && l[i].id == a && l[j].id == b
  }

  /** The order Reorder leaves: rules listed in ids come first, in the order of their first
      mention; the others follow in their old order. */
  lemma ReorderedOrder(l: seq<RuleData>, ids: seq<string>, a: string, b: string)
    requires DistinctIds(l) && a in IdSet(l) && b in IdSet(l) && a != b
    ensures Before(Reordered(l, ids), a, b) <==>
              if a in ids && b in ids then FirstIndex(ids, a) < FirstIndex(ids, b)
              else if a in ids || b in ids then a in ids
              else Before(l, a, b)
  {
    if PlacedBefore(l, ids, a, b) {
      OrderHolds(l, ids, a, b);
    } else {
      NotBoth(l, ids, a, b);
      OrderHolds(l, ids, b, a);
      BeforeOnce(l, ids, a, b);
    }
  }

  predicate PlacedBefore(l: seq<RuleData>, ids: seq<string>, a: string, b: string) {
    if a in ids && b in ids then FirstIndex(ids, a) < FirstIndex(ids, b)
    else if a in ids || b in ids then a in ids
    else exists i, j :: 0 <= i < j < |l| && l[i].id == a && l[j].id == b
  }

  lemma NotBoth(l: seq<RuleData>, ids: seq<string>, a: string, b: string)
    requires a in IdSet(l) && b in IdSet(l) && a != b && !PlacedBefore(l, ids, a, b)
    ensures PlacedBefore(l, ids, b, a)
  {
    if a in ids && b in ids {
      FirstIndexAt(ids, a);
      FirstIndexAt(ids, b);
    } else if a !in ids && b !in ids {
      var r, q :| r in l && r.id == a && q in l && q.id == b;
      var i, j :| 0 <= i < |l| && l[i] == r && 0 <= j < |l| && l[j] == q;
      assert l[i].id == a && l[j].id == b;
    }
  }

  lemma {:induction false} FirstIndexAt(ids: seq<string>, id: string)
    requires id in ids
    ensures FirstIndex(ids, id) < |ids| && ids[FirstIndex(ids, id)] == id
  {
    if ids[0] != id {
      FirstIndexAt(ids[1..], id);
    }
  }

  lemma BeforeOnce(l: seq<RuleData>, ids: seq<string>, a: string, b: string)
    requires DistinctIds(l) && Before(Reordered(l, ids), b, a)
    ensures !Before(Reordered(l, ids), a, b)
  {
    ReorderedIsPermutation(l, ids);
    hide Reordered;
  }

  /** The two parts of the new order. */
  lemma TwoParts(l: seq<RuleData>, ids: seq<string>)
    returns (first: seq<string>, listed: seq<RuleData>, rest: seq<RuleData>)
    ensures first == FirstMentions(ids, IdSet(l)) && rest == Filter(l, IdSet(l) - SetOf(first))
    ensures Reordered(l, ids) == listed + rest && |listed| == |first|
    ensures forall i :: 0 <= i < |first| ==> listed[i].id == first[i]
    ensures forall id :: id in first <==> id in ids && id in IdSet(l)
  {
    first := FirstMentions(ids, IdSet(l));
    MentionsKnown(ids, IdSet(l));
    listed, rest := Listed(l, first), Filter(l, IdSet(l) - SetOf(first));
  }

  lemma OrderHolds(l: seq<RuleData>, ids: seq<string>, a: string, b: string)
    requires DistinctIds(l) && a in IdSet(l) && b in IdSet(l) && a != b && PlacedBefore(l, ids, a, b)
    ensures Before(Reordered(l, ids), a, b)
  {
    hide Reordered, FirstMentions, Filter, DistinctIds, FirstIndex, IdSet;
    var first, listed, rest := TwoParts(l, ids);
    var all: seq<RuleData> := listed + rest;
    if a in ids {
      var i :| 0 <= i < |first| && first[i] == a;
      assert all[i].id == a;
      if b in ids {
        var j :| 0 <= j < |first| && first[j] == b;
        if j < i {
          MentionsInOrder(ids, IdSet(l), j, i);
        }
        assert all[j].id == b;
      } else {
        var j := RestHolds(l, first, b);
        assert all[|listed| + j].id == b;
      }
    } else {
      var i, j :| 0 <= i < j < |l| && l[i].id == a && l[j].id == b;
      var p, q := UnlistedPlaces(l, first, i, j);
      assert all[|listed| + p].id == a && all[|listed| + q].id == b;
    }
  }

  lemma UnlistedPlaces(l: seq<RuleData>, first: seq<string>, i: nat, j: nat) returns (p: nat, q: nat)
    requires i < j < |l| && l[i].id !in first && l[j].id !in first
    ensures var rest := Filter(l, IdSet(l) - SetOf(first)); p < q < |rest| && rest[p] == l[i] && rest[q] == l[j]
  {
    assert l[i] in l && l[j] in l;
    p, q := FilterPlaces(l, IdSet(l) - SetOf(first), i, j);
  }

  lemma RestHolds(l: seq<RuleData>, first: seq<string>, b: string) returns (j: nat)
    requires b in IdSet(l) && b !in first
    ensures j < |Filter(l, IdSet(l) - SetOf(first))| && Filter(l, IdSet(l) - SetOf(first))[j].id == b
  {
    var rest := Filter(l, IdSet(l) - SetOf(first));
    FilterMember(l, IdSet(l) - SetOf(first));
    var r :| r in l && r.id == b;
    assert r in rest;
    j :| 0 <= j < |rest| && rest[j] == r;
  }

  /** Where two kept rules end up. */
  lemma {:induction false} FilterPlaces(l: seq<RuleData>, known: set<string>, i: nat, j: nat)
    returns (p: nat, q: nat)
    requires i < j < |l| && l[i].id in known && l[j].id in known
    ensures p < q < |Filter(l, known)| && Filter(l, known)[p] == l[i] && Filter(l, known)[q] == l[j]
  {
    var front := l[..|l| - 1];
    if j < |front| {
      p, q := FilterPlaces(front, known, i, j);
    } else {
      FilterMember(front, known);
      assert front[i] in front;
      p :| 0 <= p < |Filter(front, known)| && Filter(front, known)[p] == l[i];
      q := |Filter(front, known)|;
    }
  }

  /** No listed identifier belongs to two rules. */
  ghost predicate ListedOnce(l: seq<RuleData>, ids: seq<string>) {
    forall i, j :: 0 <= i < j < |l| && l[i].id == l[j].id ==> l[i].id !in ids
  }

  /** When identifiers may repeat, as overlapping Adds can make them: Reorder keeps exactly
      the same rules if and only if no listed identifier belongs to two of them, and
      otherwise it loses rules. */
  lemma ReorderKeepsAll(l: seq<RuleData>, ids: seq<string>)
    ensures multiset(Reordered(l, ids)) == multiset(l) <==> ListedOnce(l, ids)
    ensures !ListedOnce(l, ids) ==> |Reordered(l, ids)| < |l|
  {
    var first := FirstMentions(ids, IdSet(l));
    var known := SetOf(first);
    MentionsKnown(ids, IdSet(l));
    FilterSplits(l, known);
    var listed, taken, rest := Listed(l, first), Filter(l, known), Filter(l, IdSet(l) - known);
    FilterMember(l, known);
    assert Reordered(l, ids) == listed + rest && |listed| == |first|;
    assert |multiset(l)| == |l| && |multiset(Reordered(l, ids))| == |Reordered(l, ids)|;
    TakenIds(l, first);
    if ListedOnce(l, ids) {
      FilterOnce(l, known);
      ListedIsTaken(l, first);
      SameElements(listed, taken);
    } else {
      FilterTwice(l, ids, known);
      RepeatedIds(taken);
      DistinctSize(first);
    }
  }

  /** Every rule is either taken or left. */
  lemma {:induction false} FilterSplits(l: seq<RuleData>, known: set<string>)
    ensures forall all: set<string> :: IdSet(l) <= all ==>
              multiset(l) == multiset(Filter(l, known)) + multiset(Filter(l, all - known))
  {
    if l != [] {
      var front, r := l[..|l| - 1], l[|l| - 1];
      FilterSplits(front, known);
      assert l == front + [r];
      forall all: set<string> | IdSet(l) <= all
        ensures multiset(l) == multiset(Filter(l, known)) + multiset(Filter(l, all - known))
      {
        assert r.id in IdSet(l) && IdSet(front) <= IdSet(l);
      }
    }
  }

  lemma TakenIds(l: seq<RuleData>, first: seq<string>)
    requires forall id :: id in first ==> id in IdSet(l)
    ensures IdSet(Filter(l, SetOf(first))) == SetOf(first)
  {
    FilterMember(l, SetOf(first));
    forall id | id in first
      ensures id in IdSet(Filter(l, SetOf(first)))
    {
      var r :| r in l && r.id == id;
      assert r in Filter(l, SetOf(first));
    }
  }

  /** When the identifiers occur once each, the taken rules have distinct ones. */
  lemma {:induction false} FilterOnce(l: seq<RuleData>, known: set<string>)
    requires forall i, j :: 0 <= i < j < |l| && l[i].id == l[j].id ==> l[i].id !in known
    ensures DistinctIds(Filter(l, known))
  {
    if l != [] {
      FilterOnce(l[..|l| - 1], known);
      FilterMember(l[..|l| - 1], known);
    }
  }

  lemma ListedIsTaken(l: seq<RuleData>, first: seq<string>)
    requires Distinct(first) && DistinctIds(Filter(l, SetOf(first)))
    requires forall id :: id in first ==> id in IdSet(l)
    ensures DistinctIds(Listed(l, first))
    ensures forall r :: r in Listed(l, first) <==> r in Filter(l, SetOf(first))
  {
    var taken, listed := Filter(l, SetOf(first)), Listed(l, first);
    FilterMember(l, SetOf(first));
    assert forall i :: 0 <= i < |first| ==> listed[i] in l && listed[i].id == first[i] && first[i] in first;
    forall r | r in taken
      ensures r in listed
    {
      var i :| 0 <= i < |first| && first[i] == r.id;
      assert listed[i] in taken;
      var a, b :| 0 <= a < |taken| && taken[a] == r && 0 <= b < |taken| && taken[b] == listed[i];
      assert a == b;
    }
  }

  /** A repeated listed identifier is repeated among the taken rules. */
  lemma FilterTwice(l: seq<RuleData>, ids: seq<string>, known: set<string>)
    requires !ListedOnce(l, ids) && forall id :: id in known <==> id in ids && id in IdSet(l)
    ensures !DistinctIds(Filter(l, known))
  {
    var i, j :| 0 <= i < j < |l| && l[i].id == l[j].id && l[i].id in ids;
    assert l[i] in l;
    FilterPair(l, known, i, j);
  }

  lemma {:induction false} FilterPair(l: seq<RuleData>, known: set<string>, i: nat, j: nat)
    requires i < j < |l| && l[i].id == l[j].id && l[i].id in known
    ensures !DistinctIds(Filter(l, known))
  {
    var front := l[..|l| - 1];
    var kept, all := Filter(front, known), Filter(l, known);
    if j < |front| {
      FilterPair(front, known, i, j);
      var a, b :| 0 <= a < b < |kept| && kept[a].id == kept[b].id;
      assert all[a].id == all[b].id;
    } else {
      FilterMember(front, known);
      assert front[i] in front;
      var a :| 0 <= a < |kept| && kept[a] == l[i];
      assert all[a].id == all[|kept|].id;
    }
  }

  lemma {:induction false} DistinctSize(ids: seq<string>)
    requires Distinct(ids)
    ensures |SetOf(ids)| == |ids|
  {
    if ids != [] {
      var front, last := ids[..|ids| - 1], ids[|ids| - 1];
      DistinctSize(front);
      assert SetOf(ids) == SetOf(front) + {last} && last !in SetOf(front);
    }
  }

  lemma {:induction false} RepeatedIds(l: seq<RuleData>)
    ensures |IdSet(l)| <= |l|
    ensures !DistinctIds(l) ==> |IdSet(l)| < |l|
  {
    if l != [] {
      var front, last := l[..|l| - 1], l[|l| - 1];
      RepeatedIds(front);
      OneMoreId(front, last);
      assert l == front + [last];
      hide IdSet, DistinctIds;
    }
  }

  lemma OneMoreId(front: seq<RuleData>, last: RuleData)
    ensures IdSet(front + [last]) == IdSet(front) + {last.id}
    ensures DistinctIds(front) && !DistinctIds(front + [last]) ==> last.id in IdSet(front)
  {
    var l := front + [last];
    assert l[|front|] == last;
    if DistinctIds(front) && !DistinctIds(l) {
      var i, j :| 0 <= i < j < |l| && l[i].id == l[j].id;
      assert j == |front| && front[i] in front;
    }
  }

  /** The smallest loss: two rules under one identifier, which is listed. */
  lemma ReorderDrops(a: RuleData, b: RuleData)
    requires a.id == b.id
    ensures Reordered([a, b], [a.id]) == [b]
  {
    var l := [a, b];
    assert IdSet(l) == {a.id};
    assert [a.id][..0] == [] && FirstMentions([a.id], {a.id}) == [a.id];
    assert SetOf([a.id]) == {a.id};
    assert Listed(l, [a.id]) == [b];
    assert l[..1] == [a] && [a][..0] == [] && Filter([a], {}) == [];
    assert IdSet(l) - SetOf([a.id]) == {};
  }

  /** Lists without repetition that have the same elements are permutations. */
  lemma SameElements(a: seq<RuleData>, b: seq<RuleData>)
    requires DistinctIds(a) && DistinctIds(b)
    requires forall r :: r in a <==> r in b
    ensures multiset(a) == multiset(b)
  {
    forall r
      ensures multiset(a)[r] == multiset(b)[r]
    {
      CountOne(a, r);
      CountOne(b, r);
    }
  }

  lemma {:induction false} CountOne(a: seq<RuleData>, r: RuleData)
    requires DistinctIds(a)
    ensures multiset(a)[r] == if r in a then 1 else 0
  {
    if a != [] {
      CountOne(a[..|a| - 1], r);
      assert a == a[..|a| - 1] + [a[|a| - 1]];
    }
  }

  // ---------- after a failed Update ----------

  /** The name match() compares for equality, which it takes from the domain as it is
      now; the other modes have none. */
  function Literal(r: RuleData): Option<string>
    requires Sliceable(r)
  {
    match r.mode
    case Exact => Some(Lower(r.domain))
    case Suffix => Some(Lower(r.domain)[1..])
    case Wildcard => Some(Lower(r.domain)[2..])
    case _ => None
  }

  /** A match by what compile() stored. */
  predicate StoredHit(rx: Regexps, r: RuleData, name: string) {
    match r.mode
    case Exact => false
    case Regex => r.regex.Some? && rx.matches(r.regex.value, Lower(name))
    case Keyword => Contains(Lower(name), r.keyword)
    case _ => HasSuffix(Lower(name), r.suffix)
  }

  /** An expression that does not compile. */
  predicate IsBad(rx: Regexps, d: string) {
    HasPrefix(d, "regexp:") && !rx.valid(d[7..])
  }

  /** A failed Update leaves the new domain beside the old compiled form. What the rule
      then matches is what the old form stored, but its literal name is now cut out of
      the invalid text. Name by name: the old answer survives if and only if the stored
      part matches, or the name is neither the old literal nor the new one, or those
      are equal. */
  lemma AnswerAfterFailedUpdate(rx: Regexps, r: RuleData, bad: string, name: string)
    requires Sliceable(r) && IsBad(rx, bad)
    ensures var r' := r.(domain := bad);
            && Compile(rx, r') == None && Sliceable(r')
            && (RuleMatches(rx, r', name) <==> StoredHit(rx, r, name) || Literal(r') == Some(Lower(name)))
            && ((RuleMatches(rx, r', name) <==> RuleMatches(rx, r, name)) <==>
                 StoredHit(rx, r, name) || Some(Lower(name)) !in {Literal(r), Literal(r')} || Literal(r) == Literal(r'))
  {
  }

  /** Over all names: a failed Update leaves the meaning of a compiled rule alone if and
      only if it is a keyword or a regular expression, or both literals agree. */
  lemma MeaningAfterFailedUpdate(rx: Regexps, r: RuleData, bad: string)
    requires Compile(rx, r) == Some(r) && Sliceable(r) && IsBad(rx, bad)
    ensures (forall name :: RuleMatches(rx, r.(domain := bad), name) <==> RuleMatches(rx, r, name))
            <==> r.mode == Regex || r.mode == Keyword || Literal(r) == Literal(r.(domain := bad))
  {
    var r' := r.(domain := bad);
    forall name
      ensures r.mode == Regex || r.mode == Keyword || Literal(r) == Literal(r')
              ==> (RuleMatches(rx, r', name) <==> RuleMatches(rx, r, name))
    {
      AnswerAfterFailedUpdate(rx, r, bad, name);
    }
    if Literal(r).Some? && Literal(r) != Literal(r') {
      var lost := Literal(r).value;
      LiteralIsLower(r);
      AnswerAfterFailedUpdate(rx, r, bad, lost);
      assert !StoredHit(rx, r, lost);
    }
  }

  lemma LiteralIsLower(r: RuleData)
    requires Sliceable(r) && Literal(r).Some?
    ensures Lower(Literal(r).value) == Literal(r).value
  {
    LowerIdempotent(r.domain);
    var t := Lower(r.domain);
    assert Lower(t) == t;
    assert forall i :: 0 <= i < |t| ==> Lower(t)[i] == LowerChar(t[i]);
  }

  /** In particular a ".d" or "*.d" rule stops matching d, and an exact rule its name:
      every such name without a colon is lost. */
  lemma ApexIsLost(rx: Regexps, r: RuleData, bad: string, name: string)
    requires Compile(rx, r) == Some(r) && Sliceable(r) && IsBad(rx, bad)
    requires Literal(r) == Some(Lower(name)) && ':' !in name
    ensures RuleMatches(rx, r, name) && !RuleMatches(rx, r.(domain := bad), name)
  {
    var r' := r.(domain := bad);
    AnswerAfterFailedUpdate(rx, r, bad, name);
    assert bad[..7][6] == ':' && Lower(bad)[6] == ':';
    assert Literal(r') == Some(Lower(name)) ==> ':' in Lower(name);
    assert forall i :: 0 <= i < |name| ==> name[i] in name && Lower(name)[i] == LowerChar(name[i]);
  }

  // ---------- the engine ----------

  /** What Update makes of a rule before it compiles it. */
  function Edited(r: RuleData, rtype: string, domain: string, target: string, enabled: Option<bool>): RuleData {
    r.(domain := if domain != "" then domain else r.domain,
       target := if target != "" then target else r.target,
       rtype := if rtype != "" then rtype else r.rtype,
       enabled := if enabled != None then enabled else r.enabled)
  }

  class Rule {
    var id: string
    var rtype: string
    var domain: string
    var target: string
    var enabled: Option<bool>
    var mode: Mode
    var regex: Option<string>
    var suffix: string
    var keyword: string

    ghost function View(): RuleData
      reads this
    {
      RuleData(id, rtype, domain, target, enabled, mode, regex, suffix, keyword)
    }

    constructor (id: string, rtype: string, domain: string, target: string, enabled: bool)
      ensures View() == RuleData(id, rtype, domain, target, Some(enabled), Exact, None, "", "")
    {
      this.id, this.rtype, this.domain, this.target, this.enabled := id, rtype, domain, target, Some(enabled);
      mode, regex, suffix, keyword := Exact, None, "", "";
    }

    /** The assignments of Update: empty arguments leave a field alone. */
    method Edit(rtype: string, domain: string, target: string, enabled: Option<bool>)
      modifies this
      ensures View() == Edited(old(View()), rtype, domain, target, enabled)
      ensures this.domain == (if domain == "" then old(this.domain) else domain)
      ensures this.target == (if target == "" then old(this.target) else target)
      ensures this.rtype == (if rtype == "" then old(this.rtype) else rtype)
      ensures this.enabled == (if enabled == None then old(this.enabled) else enabled)
      ensures id == old(id) && mode == old(mode) && regex == old(regex)
      ensures suffix == old(suffix) && keyword == old(keyword)
    {
      if domain != "" {
        this.domain := domain;
      }
      if target != "" {
        this.target := target;
      }
      if rtype != "" {
        this.rtype := rtype;
      }
      if enabled != None {
        this.enabled := enabled;
      }
    }

    method DoCompile(rx: Regexps) returns (ok: bool)
      modifies this
      ensures ok == Compile(rx, old(View())).Some?
      ensures View() == if ok then Compile(rx, old(View())).value else old(View())
    {
      var d := domain;
      if HasPrefix(d, "regexp:") {
        var pattern := d[7..];
        if !rx.valid(pattern) {
          return false;
        }
        mode := Regex;
        regex := Some(pattern);
      } else if HasPrefix(d, "keyword:") {
        mode := Keyword;
        keyword := d[8..];
      } else if HasPrefix(d, "*.") {
        mode := Wildcard;
        suffix := d[1..];
      } else if HasPrefix(d, ".") {
        mode := Suffix;
        suffix := d;
      } else {
        mode := Exact;
      }
      return true;
    }
  }

  ghost function Views(rules: seq<Rule>): (l: seq<RuleData>)
    reads rules
    ensures |l| == |rules| && forall i :: 0 <= i < |rules| ==> l[i] == rules[i].View()
  {
    seq(|rules|, i requires 0 <= i < |rules| reads rules => rules[i].View())
  }

  /** Every identifier was handed out: it is that of a number below `next`. */
  ghost predicate IssuedBelow(l: seq<RuleData>, next: nat) {
    forall r :: r in l ==> exists n: nat :: n < next && r.id == FormatId(n)
  }

  lemma CompiledSliceable(rx: Regexps, r: RuleData)
    ensures Compile(rx, r).Some? ==> Sliceable(Compile(rx, r).value)
    ensures Compile(rx, r).None? ==> |r.domain| >= 7
  {
  }
}
