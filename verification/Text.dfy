/** Byte strings as Go's `strings` package sees them. A Go string is a sequence
    of bytes; one `char` below stands for one byte. Case folding and white space
    are those of ASCII. */
module Text {
  import opened Prelude

  function LowerChar(c: char): char {
    if 'A' <= c <= 'Z' then (c as int + 32) as char else c
  }

  function Lower(s: string): (r: string)
    ensures |r| == |s|
  {
    seq(|s|, i requires 0 <= i < |s| => LowerChar(s[i]))
  }

  ghost predicate IsLower(s: string) {
    Lower(s) == s
  }

  function AsString(data: seq<byte>): (r: string)
    ensures |r| == |data|
  {
    seq(|data|, i requires 0 <= i < |data| => data[i] as char)
  }

  predicate HasPrefix(s: string, p: string) {
    |p| <= |s| && s[..|p|] == p
  }

  predicate HasSuffix(s: string, p: string) {
    |p| <= |s| && s[|s| - |p|..] == p
  }

  predicate Contains(s: string, p: string) {
    exists i :: 0 <= i <= |s| && HasPrefix(s[i..], p)
  }

  function Split(s: string, sep: char): (parts: seq<string>)
    ensures |parts| >= 1
  {
    if s == "" then [""]
    else
      var rest := Split(s[1..], sep);
      if s[0] == sep then [""] + rest else [[s[0]] + rest[0]] + rest[1..]
  }

  function Join(parts: seq<string>, sep: char): string {
    if |parts| == 0 then ""
    else if |parts| == 1 then parts[0]
    else parts[0] + [sep] + Join(parts[1..], sep)
  }

  predicate IsSpace(c: char) {
    c == ' ' || '\t' <= c <= '\r'
  }

  function TrimSpace(s: string): string {
    if s == "" then ""
    else if IsSpace(s[0]) then TrimSpace(s[1..])
    else if IsSpace(s[|s| - 1]) then TrimSpace(s[..|s| - 1])
    else s
  }

  // ---------- facts ----------

  lemma LowerIdempotent(s: string)
    ensures Lower(Lower(s)) == Lower(s)
  {
    assert forall i :: 0 <= i < |s| ==> LowerChar(LowerChar(s[i])) == LowerChar(s[i]);
  }

  lemma LowerAppend(a: string, b: string)
    ensures Lower(a + b) == Lower(a) + Lower(b)
  {
    assert forall i :: 0 <= i < |a| + |b| ==> Lower(a + b)[i] == (Lower(a) + Lower(b))[i];
  }

  lemma LowerParts(a: string, b: string)
    ensures IsLower(a + b) <==> IsLower(a) && IsLower(b)
  {
    LowerAppend(a, b);
    if IsLower(a + b) {
      assert Lower(a) == (Lower(a) + Lower(b))[..|a|] == (a + b)[..|a|] == a;
      assert Lower(b) == (Lower(a) + Lower(b))[|a|..] == (a + b)[|a|..] == b;
    }
  }

  lemma LowerSuffix(s: string, t: string)
    ensures IsLower(s) && HasSuffix(s, t) ==> IsLower(t)
  {
    if HasSuffix(s, t) {
      assert s == s[..|s| - |t|] + t;
      LowerParts(s[..|s| - |t|], t);
    }
  }

  lemma {:induction false} JoinSplit(s: string, sep: char)
    ensures Join(Split(s, sep), sep) == s
  {
    if s != "" {
      JoinSplit(s[1..], sep);
      var rest := Split(s[1..], sep);
      assert s == [s[0]] + s[1..];
      if s[0] == sep {
        assert ([""] + rest)[1..] == rest;
      } else {
        var parts := [[s[0]] + rest[0]] + rest[1..];
        assert parts[1..] == rest[1..];
        if |rest| > 1 {
          assert parts[0] + [sep] + Join(rest[1..], sep) == [s[0]] + (rest[0] + [sep] + Join(rest[1..], sep));
        }
      }
    }
  }

  /** The i-th suffix Go code builds label by label: sep + Join(parts[i+1:], sep). */
  function LabelSuffix(parts: seq<string>, sep: char, i: nat): string
    requires i < |parts|
  {
    [sep] + Join(parts[i + 1..], sep)
  }

  ghost predicate IsLabelSuffix(parts: seq<string>, sep: char, t: string) {
    exists i :: 0 <= i < |parts| - 1 && LabelSuffix(parts, sep, i) == t
  }

  /** Those label suffixes are exactly the suffixes of `s` that begin with the
      separator. */
  lemma {:induction false} LabelSuffixes(s: string, sep: char, t: string)
    ensures IsLabelSuffix(Split(s, sep), sep, t)
            <==> (t != "" && t[0] == sep && HasSuffix(s, t))
  {
    if s != "" {
      LabelSuffixes(s[1..], sep, t);
      LabelSuffixShift(s, sep, t);
      assert HasSuffix(s, t) <==> (t == s || HasSuffix(s[1..], t)) by {
        if HasSuffix(s, t) && t != s {
          assert s[|s| - |t|..] == s[1..][|s[1..]| - |t|..];
        }
        if HasSuffix(s[1..], t) {
          assert s[|s| - |t|..] == s[1..][|s[1..]| - |t|..];
        }
      }
    }
  }

  lemma LabelSuffixShift(s: string, sep: char, t: string)
    requires s != ""
    ensures IsLabelSuffix(Split(s, sep), sep, t)
            <==> (s[0] == sep && t == s) || IsLabelSuffix(Split(s[1..], sep), sep, t)
  {
    var parts, rest := Split(s, sep), Split(s[1..], sep);
    if s[0] == sep {
      JoinSplit(s[1..], sep);
      assert parts[1..] == rest;
      FirstSuffix(parts, sep, t);
      assert LabelSuffix(parts, sep, 0) == s;
    } else {
      assert parts[1..] == rest[1..] && |parts| == |rest|;
      hide Split, Join;
      forall i: nat | i < |parts|
        ensures LabelSuffix(parts, sep, i) == LabelSuffix(rest, sep, i)
      {
        assert parts[i + 1..] == parts[1..][i..] && rest[i + 1..] == rest[1..][i..];
      }
    }
  }

  lemma FirstSuffix(parts: seq<string>, sep: char, t: string)
    requires |parts| > 1
    ensures IsLabelSuffix(parts, sep, t)
            <==> t == LabelSuffix(parts, sep, 0) || IsLabelSuffix(parts[1..], sep, t)
  {
    hide Join;
    var rest := parts[1..];
    forall i: nat | i < |rest|
      ensures LabelSuffix(rest, sep, i) == LabelSuffix(parts, sep, i + 1)
    {
      assert rest[i + 1..] == parts[i + 2..];
    }
    if IsLabelSuffix(parts, sep, t) {
      var i :| 0 <= i < |parts| - 1 && LabelSuffix(parts, sep, i) == t;
      assert i > 0 ==> LabelSuffix(rest, sep, i - 1) == t;
    }
    if IsLabelSuffix(rest, sep, t) {
      var i :| 0 <= i < |rest| - 1 && LabelSuffix(rest, sep, i) == t;
      assert LabelSuffix(parts, sep, i + 1) == t;
    }
  }

  lemma {:induction false} NoSeparator(t: string, sep: char)
    requires sep !in t
    ensures Split(t, sep) == [t]
  {
    if t != "" {
      assert t[0] in t && forall c :: c in t[1..] ==> c in t;
      NoSeparator(t[1..], sep);
      assert [t[0]] + t[1..] == t;
    }
  }

  lemma {:induction false} SplitFirst(a: string, sep: char, b: string)
    requires sep !in a
    ensures Split(a + [sep] + b, sep) == [a] + Split(b, sep)
  {
    var s := a + [sep] + b;
    if a == "" {
      assert s[1..] == b;
    } else {
      assert a[0] in a && forall c :: c in a[1..] ==> c in a;
      assert s[1..] == a[1..] + [sep] + b;
      SplitFirst(a[1..], sep, b);
      assert [a[0]] + a[1..] == a;
    }
  }

  // ---------- what the string functions mean ----------

  /** Lowering moves the letters A to Z by 32 and nothing else. */
  lemma LowerMeaning(s: string, i: nat)
    requires i < |s|
    ensures Lower(s)[i] as int == s[i] as int + (if 65 <= s[i] as int <= 90 then 32 else 0)
  {
  }

  lemma LowerExample()
    ensures Lower("Ads.EXAMPLE-1.com") == "ads.example-1.com"
  {
  }

  lemma PrefixMeaning(s: string, p: string)
    ensures HasPrefix(s, p) <==> exists r :: s == p + r
  {
    if HasPrefix(s, p) {
      assert s == p + s[|p|..];
    }
  }

  lemma SuffixMeaning(s: string, t: string)
    ensures HasSuffix(s, t) <==> exists r :: s == r + t
  {
    if HasSuffix(s, t) {
      assert s == s[..|s| - |t|] + t;
    }
  }

  lemma ContainsMeaning(s: string, p: string)
    ensures Contains(s, p) <==> exists a, b :: s == a + p + b
  {
    if Contains(s, p) {
      var i :| 0 <= i <= |s| && HasPrefix(s[i..], p);
      assert s == s[..i] + p + s[i..][|p|..];
    }
    if a, b :| s == a + p + b {
      assert s[|a|..] == p + b && HasPrefix(s[|a|..], p);
    }
  }

  /** The parts hold no separator and give the text back. */
  lemma {:induction false} SplitMeaning(s: string, sep: char)
    ensures Join(Split(s, sep), sep) == s
    ensures forall p :: p in Split(s, sep) ==> sep !in p
  {
    JoinSplit(s, sep);
    if s != "" {
      SplitMeaning(s[1..], sep);
      var rest := Split(s[1..], sep);
      assert rest[0] in rest && forall p :: p in rest[1..] ==> p in rest;
    }
  }

  ghost predicate AllSpace(s: string) {
    forall i :: 0 <= i < |s| ==> s[i] in " \t\n\r" || s[i] as int in {11, 12}
  }

  ghost predicate BareEnds(s: string) {
    s != "" ==> !AllSpace(s[..1]) && !AllSpace(s[|s| - 1..])
  }

  lemma SpaceIsSpace(c: char)
    ensures IsSpace(c) <==> AllSpace([c])
  {
    assert AllSpace([c]) <==> [c][0] in " \t\n\r" || [c][0] as int in {11, 12};
  }

  /** Trimming takes the white space off both ends. */
  lemma {:induction false} TrimMeaning(a: string, s: string, b: string)
    requires AllSpace(a) && AllSpace(b) && BareEnds(s)
    ensures TrimSpace(a + s + b) == s
    decreases |a| + |b|
  {
    var t := a + s + b;
    if a != "" {
      assert t[0] == a[0] && t[1..] == a[1..] + s + b && AllSpace([a[0]]);
      SpaceIsSpace(a[0]);
      TrimMeaning(a[1..], s, b);
    } else if s == "" {
      if b != "" {
        assert t == b && b[1..] == "" + "" + b[1..] && AllSpace([b[0]]);
        SpaceIsSpace(b[0]);
        TrimMeaning("", "", b[1..]);
      }
    } else {
      assert s[..1] == [s[0]] && s[|s| - 1..] == [s[|s| - 1]];
      SpaceIsSpace(s[0]);
      SpaceIsSpace(s[|s| - 1]);
      if b == "" {
        assert t == s;
      } else {
        var last := b[|b| - 1];
        assert t[0] == s[0] && t[|t| - 1] == last && t[..|t| - 1] == "" + s + b[..|b| - 1] && AllSpace([last]);
        SpaceIsSpace(last);
        TrimMeaning("", s, b[..|b| - 1]);
      }
    }
  }
}
