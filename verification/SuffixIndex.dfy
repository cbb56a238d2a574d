/** The per-label hash lookup of geodata.go, and the linear scan it stands for.
    A Go map[string]bool whose values are all true is the set of its keys. */
module SuffixIndex {
  import opened Text

  /** What one pattern means: itself, or, when it begins with a dot, every name of
      which it is a suffix once a dot is put in front. */
  predicate Covers(pattern: string, name: string) {
    pattern == name || (pattern != "" && pattern[0] == '.' && HasSuffix("." + name, pattern))
  }

  ghost predicate Scan(patterns: set<string>, name: string) {
    exists p :: p in patterns && Covers(p, name)
  }

  lemma LabelIsCovered(domain: string, suffix: string, i: nat)
    requires i < |Split(domain, '.')| - 1 && suffix == LabelSuffix(Split(domain, '.'), '.', i)
    ensures Covers(suffix, domain)
  {
    LabelSuffixes(domain, '.', suffix);
    SuffixBehindDot(domain, suffix);
  }

  /** When none of the looked-up strings is a pattern, no pattern covers the domain. */
  lemma NoLabelNoCover(domain: string, patterns: set<string>)
    requires domain !in patterns && "." + domain !in patterns
    requires forall i :: 0 <= i < |Split(domain, '.')| - 1 ==> LabelSuffix(Split(domain, '.'), '.', i) !in patterns
    ensures !Scan(patterns, domain)
  {
    forall p | p in patterns
      ensures !Covers(p, domain)
    {
      LabelSuffixes(domain, '.', p);
      SuffixBehindDot(domain, p);
    }
  }

  /** matchDomainInMap: a few set lookups, one per label, agree with the scan over
      every pattern. */
  method MatchDomainInMap(domain: string, patterns: set<string>) returns (found: bool)
    ensures found == Scan(patterns, domain)
  {
    if domain in patterns {
      return true;
    }
    if "." + domain in patterns {
      assert Covers("." + domain, domain);
      return true;
    }
    var parts := Split(domain, '.');
    for i := 0 to |parts| - 1
      invariant forall j :: 0 <= j < i ==> LabelSuffix(parts, '.', j) !in patterns
    {
      var suffix := "." + Join(parts[i + 1..], '.');
      assert suffix == LabelSuffix(parts, '.', i);
      if suffix in patterns {
        LabelIsCovered(domain, suffix, i);
        return true;
      }
    }
    NoLabelNoCover(domain, patterns);
    return false;
  }

  lemma SuffixBehindDot(s: string, t: string)
    ensures HasSuffix("." + s, t) <==> t == "." + s || HasSuffix(s, t)
  {
    var d := "." + s;
    if |t| <= |s| {
      assert d[|d| - |t|..] == s[|s| - |t|..];
    }
  }

  // ---------- the meaning of a pattern, in terms of domain names ----------

  /** `name` is the domain `d` or one of its subdomains. */
  predicate IsOrUnder(name: string, d: string) {
    name == d || HasSuffix(name, "." + d)
  }

  /** A domain without its optional leading dot. */
  function Core(d: string): string {
    if d != "" && d[0] == '.' then d[1..] else d
  }

  lemma CoversMeaning(p: string, name: string)
    ensures Covers(p, name) <==> if p != "" && p[0] == '.' then IsOrUnder(name, Core(p)) else name == p
  {
    if p != "" && p[0] == '.' {
      SuffixBehindDot(name, p);
      assert p == "." + Core(p);
      assert p == "." + name <==> name == Core(p);
      if p == name {
        assert name[|name| - |p|..] == p;
      }
    }
  }

  /** The two patterns kept for a domain with and without a leading dot mean the
      domain and everything below it. */
  lemma DottedPairMeaning(d: string, name: string)
    ensures Covers("." + d, name) || Covers(d, name) <==> IsOrUnder(name, Core(d))
  {
    CoversMeaning("." + d, name);
    CoversMeaning(d, name);
    assert Core("." + d) == d;
    if d != "" && d[0] == '.' && IsOrUnder(name, d) {
      assert d == "." + Core(d);
      assert HasSuffix(name, "." + Core(d)) by {
        if HasSuffix(name, "." + d) {
          assert name[|name| - |d|..] == name[|name| - |"." + d|..][1..] == d;
        } else {
          assert name[|name| - |d|..] == d;
        }
      }
    }
  }

  lemma LowerDot()
    ensures IsLower(".")
  {
  }

  lemma CoveredIsLower(p: string, name: string)
    requires Covers(p, Lower(name))
    ensures IsLower(p)
  {
    var n := Lower(name);
    LowerIdempotent(name);
    assert IsLower(n);
    hide Lower, IsLower;
    LowerDot();
    LowerParts(".", n);
    LowerSuffix("." + n, p);
  }

  /** Names are lowered before they are asked about, patterns are kept as written: a
      pattern can cover some lowered name if and only if it holds no capital letter. */
  lemma CapitalPattern(p: string)
    ensures (exists name :: Covers(p, Lower(name))) <==> IsLower(p)
  {
    if IsLower(p) {
      assert Covers(p, Lower(p));
    }
    hide Covers, IsLower;
    if name :| Covers(p, Lower(name)) {
      CoveredIsLower(p, name);
    }
  }
}
