/** The encoder client.go uses for the dns parameter of DNS over HTTPS: base64url
    without padding (section 5 of RFC 4648, section 6 of RFC 8484). */
module Base64Url {
  import opened Prelude

  /** `n` consecutive characters. */
  function Range(first: char, n: nat): (r: string)
    requires first as int + n < 128
    ensures |r| == n
  {
    seq(n, i requires 0 <= i < n => (first as int + i) as char)
  }

  /** A-Z, a-z, 0-9, minus and underscore. */
  const ALPHABET: string := Range('A', 26) + Range('a', 26) + Range('0', 10) + "-_"

  /** The sextets of one group of one, two or three bytes; shifts and masks are written
      as divisions and remainders. */
  function GroupSextets(g: seq<byte>): (r: seq<int>)
    requires 1 <= |g| <= 3
    ensures |r| == |g| + 1 && forall i :: 0 <= i < |r| ==> 0 <= r[i] < 64
  {
    var b0, b1, b2 := g[0], if |g| > 1 then g[1] else 0, if |g| > 2 then g[2] else 0;
    [b0 / 4, (b0 % 4) * 16 + b1 / 16]
    + (if |g| > 1 then [(b1 % 16) * 4 + b2 / 64] else [])
    + (if |g| > 2 then [b2 % 64] else [])
  }

  function Sextets(data: seq<byte>): (r: seq<int>)
    ensures forall i :: 0 <= i < |r| ==> 0 <= r[i] < 64
  {
    if data == [] then []
    else if |data| <= 3 then GroupSextets(data)
    else GroupSextets(data[..3]) + Sextets(data[3..])
  }

  function Chars(s: seq<int>): (r: string)
    requires forall i :: 0 <= i < |s| ==> 0 <= s[i] < 64
    ensures |r| == |s|
  {
    seq(|s|, i requires 0 <= i < |s| => ALPHABET[s[i]])
  }

  // ---------- the reference decoder ----------

  /** The value of a character, by the table of RFC 4648, or none. */
  function ValueOf(c: char): (v: int)
    ensures -1 <= v < 64
  {
    if 'A' <= c <= 'Z' then c as int - 'A' as int
    else if 'a' <= c <= 'z' then c as int - 'a' as int + 26
    else if '0' <= c <= '9' then c as int - '0' as int + 52
    else if c == '-' then 62
    else if c == '_' then 63
    else -1
  }

  lemma AlphabetTable(v: int)
    requires 0 <= v < 64
    ensures ValueOf(ALPHABET[v]) == v
  {
  }

  /** One group of two, three or four sextets, read as one number; bits that do not
      belong to a byte must be zero. */
  function DecodeGroup(s: seq<int>): Option<seq<byte>>
    requires 2 <= |s| <= 4 && forall i :: 0 <= i < |s| ==> 0 <= s[i] < 64
  {
    if |s| == 4 then
      var n := ((s[0] * 64 + s[1]) * 64 + s[2]) * 64 + s[3];
      Some([n / 65536, n / 256 % 256, n % 256])
    else if |s| == 3 then
      var n := (s[0] * 64 + s[1]) * 64 + s[2];
      if n % 4 != 0 then None else Some([n / 1024, n / 4 % 256])
    else
      var n := s[0] * 64 + s[1];
      if n % 16 != 0 then None else Some([n / 16])
  }

  function DecodeSextets(s: seq<int>): Option<seq<byte>>
    requires forall i :: 0 <= i < |s| ==> 0 <= s[i] < 64
  {
    if s == [] then Some([])
    else if |s| == 1 then None
    else if |s| <= 4 then DecodeGroup(s)
    else match (DecodeGroup(s[..4]), DecodeSextets(s[4..]))
      case (Some(a), Some(b)) => Some(a + b)
      case _ => None
  }

  function Values(s: string): Option<seq<int>> {
    if s == "" then Some([])
    else match Values(s[..|s| - 1])
      case None => None
      case Some(vs) => if ValueOf(s[|s| - 1]) < 0 then None else Some(vs + [ValueOf(s[|s| - 1])])
  }

  lemma {:induction false} ValuesInRange(s: string)
    requires Values(s).Some?
    ensures |Values(s).value| == |s|
    ensures forall i :: 0 <= i < |s| ==> 0 <= Values(s).value[i] < 64 && Values(s).value[i] == ValueOf(s[i])
  {
    if s != "" {
      ValuesInRange(s[..|s| - 1]);
    }
  }

  function Decode(s: string): Option<seq<byte>> {
    match Values(s)
    case None => None
    case Some(vs) => ValuesInRange(s); DecodeSextets(vs)
  }

  // ---------- theorems ----------

  /** Three bytes are the base-256 digits of their 24-bit number, and four sextets the
      base-64 digits of the same number. */
  lemma Digits256(b0: int, b1: int, b2: int)
    requires 0 <= b0 < 256 && 0 <= b1 < 256 && 0 <= b2 < 256
    ensures var n := b0 * 65536 + b1 * 256 + b2; n / 65536 == b0 && n / 256 % 256 == b1 && n % 256 == b2
  {
    var n := b0 * 65536 + b1 * 256 + b2;
    assert n / 256 == b0 * 256 + b1;
  }

  lemma SameNumber(b0: int, b1: int, b2: int)
    requires 0 <= b0 < 256 && 0 <= b1 < 256 && 0 <= b2 < 256
    ensures var (s0, s1, s2, s3) := (b0 / 4, (b0 % 4) * 16 + b1 / 16, (b1 % 16) * 4 + b2 / 64, b2 % 64);
            ((s0 * 64 + s1) * 64 + s2) * 64 + s3 == b0 * 65536 + b1 * 256 + b2
  {
  }

  lemma GroupRoundTrip(g: seq<byte>)
    requires 1 <= |g| <= 3
    ensures DecodeGroup(GroupSextets(g)) == Some(g)
  {
    var b0: int, b1: int, b2: int := g[0], if |g| > 1 then g[1] else 0, if |g| > 2 then g[2] else 0;
    var s := GroupSextets(g);
    SameNumber(b0, b1, b2);
    Digits256(b0, b1, b2);
    var n := b0 * 65536 + b1 * 256 + b2;
    if |g| == 3 {
      assert ((s[0] * 64 + s[1]) * 64 + s[2]) * 64 + s[3] == n;
      assert g == [b0, b1, b2];
    } else if |g| == 2 {
      TwoBytes(b0, b1);
      assert (s[0] * 64 + s[1]) * 64 + s[2] == b0 * 1024 + b1 * 4;
      assert g == [b0, b1];
    } else {
      assert s[0] * 64 + s[1] == b0 * 16;
      assert g == [b0];
    }
  }

  lemma TwoBytes(b0: int, b1: int)
    requires 0 <= b0 < 256 && 0 <= b1 < 256
    ensures var n := b0 * 1024 + b1 * 4; n % 4 == 0 && n / 1024 == b0 && n / 4 % 256 == b1
  {
    var n := b0 * 1024 + b1 * 4;
    assert n / 4 == b0 * 256 + b1;
  }

  lemma {:induction false} SextetsRoundTrip(data: seq<byte>)
    ensures DecodeSextets(Sextets(data)) == Some(data)
  {
    if data != [] {
      if |data| <= 3 {
        GroupRoundTrip(data);
      } else {
        GroupRoundTrip(data[..3]);
        SextetsRoundTrip(data[3..]);
        SextetCount(data[3..]);
        var s := Sextets(data);
        assert s[..4] == GroupSextets(data[..3]) && s[4..] == Sextets(data[3..]);
        assert data[..3] + data[3..] == data;
      }
    }
  }

  lemma {:induction false} ValuesOfChars(s: seq<int>)
    requires forall i :: 0 <= i < |s| ==> 0 <= s[i] < 64
    ensures Values(Chars(s)) == Some(s)
  {
    if s != [] {
      ValuesOfChars(s[..|s| - 1]);
      AlphabetTable(s[|s| - 1]);
      assert Chars(s)[..|s| - 1] == Chars(s[..|s| - 1]);
      assert s[..|s| - 1] + [s[|s| - 1]] == s;
    }
  }

  function Encoding(data: seq<byte>): string {
    Chars(Sextets(data))
  }

  /** Decoding the encoder's output gives the bytes back. */
  lemma RoundTrip(data: seq<byte>)
    ensures Decode(Encoding(data)) == Some(data)
  {
    ValuesOfChars(Sextets(data));
    SextetsRoundTrip(data);
  }

  /** The length is 4n/3 rounded up: there is no padding. */
  lemma {:induction false} SextetCount(data: seq<byte>)
    ensures |Sextets(data)| == (4 * |data| + 2) / 3
  {
    if |data| > 3 {
      SextetCount(data[3..]);
    }
  }

  /** Every text that decodes is the encoding of what it decodes to: encoder and decoder
      are a bijection between byte strings and well-formed texts. */
  lemma Canonical(s: string)
    requires Decode(s).Some?
    ensures Encoding(Decode(s).value) == s
  {
    var vs := Values(s).value;
    ValuesInRange(s);
    SextetsCanonical(vs);
    forall i | 0 <= i < |s|
      ensures ALPHABET[vs[i]] == s[i]
    {
      CharOfValue(s[i]);
    }
  }

  lemma CharOfValue(c: char)
    requires ValueOf(c) >= 0
    ensures ALPHABET[ValueOf(c)] == c
  {
  }

  lemma GroupCanonical(s: seq<int>)
    requires 2 <= |s| <= 4 && forall i :: 0 <= i < |s| ==> 0 <= s[i] < 64
    requires DecodeGroup(s).Some?
    ensures |DecodeGroup(s).value| == |s| - 1 && GroupSextets(DecodeGroup(s).value) == s
  {
    if |s| == 4 {
      FullGroupCanonical(s[0], s[1], s[2], s[3]);
      assert s == [s[0], s[1], s[2], s[3]];
    } else if |s| == 3 {
      LongGroupCanonical(s[0], s[1], s[2]);
      assert s == [s[0], s[1], s[2]];
    } else {
      ShortGroupCanonical(s[0], s[1]);
      assert s == [s[0], s[1]];
    }
  }

  lemma FullGroupCanonical(s0: int, s1: int, s2: int, s3: int)
    requires 0 <= s0 < 64 && 0 <= s1 < 64 && 0 <= s2 < 64 && 0 <= s3 < 64
    ensures GroupSextets(DecodeGroup([s0, s1, s2, s3]).value) == [s0, s1, s2, s3]
  {
    var b0, b1, b2 := s0 * 4 + s1 / 16, (s1 % 16) * 16 + s2 / 4, (s2 % 4) * 64 + s3;
    BackToSextets(s0, s1, s2, s3);
    Digits256(b0, b1, b2);
    assert ((s0 * 64 + s1) * 64 + s2) * 64 + s3 == b0 * 65536 + b1 * 256 + b2;
    assert DecodeGroup([s0, s1, s2, s3]) == Some([b0, b1, b2]);
  }

  lemma LongGroupCanonical(s0: int, s1: int, s2: int)
    requires 0 <= s0 < 64 && 0 <= s1 < 64 && 0 <= s2 < 64 && DecodeGroup([s0, s1, s2]).Some?
    ensures GroupSextets(DecodeGroup([s0, s1, s2]).value) == [s0, s1, s2]
  {
    var b0, b1 := s0 * 4 + s1 / 16, (s1 % 16) * 16 + s2 / 4;
    assert s2 % 4 == 0;
    BackToSextets(s0, s1, s2, 0);
    TwoBytes(b0, b1);
    assert (s0 * 64 + s1) * 64 + s2 == b0 * 1024 + b1 * 4;
    assert DecodeGroup([s0, s1, s2]) == Some([b0, b1]);
  }

  lemma ShortGroupCanonical(s0: int, s1: int)
    requires 0 <= s0 < 64 && 0 <= s1 < 64 && DecodeGroup([s0, s1]).Some?
    ensures GroupSextets(DecodeGroup([s0, s1]).value) == [s0, s1]
  {
    assert s1 % 16 == 0;
    BackToSextets(s0, s1, 0, 0);
    assert s0 * 64 + s1 == (s0 * 4 + s1 / 16) * 16;
    assert DecodeGroup([s0, s1]) == Some([s0 * 4 + s1 / 16]);
  }

  lemma BackToSextets(s0: int, s1: int, s2: int, s3: int)
    requires 0 <= s0 < 64 && 0 <= s1 < 64 && 0 <= s2 < 64 && 0 <= s3 < 64
    ensures var (b0, b1, b2) := (s0 * 4 + s1 / 16, (s1 % 16) * 16 + s2 / 4, (s2 % 4) * 64 + s3);
            && b0 / 4 == s0 && (b0 % 4) * 16 + b1 / 16 == s1
            && (b1 % 16) * 4 + b2 / 64 == s2 && b2 % 64 == s3
            && 0 <= b0 < 256 && 0 <= b1 < 256 && 0 <= b2 < 256
  {
  }

  lemma {:induction false} SextetsCanonical(s: seq<int>)
    requires forall i :: 0 <= i < |s| ==> 0 <= s[i] < 64
    requires DecodeSextets(s).Some?
    ensures Sextets(DecodeSextets(s).value) == s
  {
    if s != [] {
      if |s| <= 4 {
        GroupCanonical(s);
      } else {
        GroupCanonical(s[..4]);
        SextetsCanonical(s[4..]);
        var a, b := DecodeGroup(s[..4]).value, DecodeSextets(s[4..]).value;
        assert (a + b)[..3] == a && (a + b)[3..] == b;
        assert s[..4] + s[4..] == s;
        SextetCount(b);
      }
    }
  }

  /** The characters one pass of the loop appends. */
  method EncodeGroup(data: seq<byte>, i: nat) returns (piece: string)
    requires i < |data|
    ensures piece == Chars(GroupSextets(data[i..i + Min(3, |data| - i)]))
  {
    var b1, b2 := 0, 0;
    var remaining := |data| - i;
    var b0 := data[i];
    if remaining > 1 {
      b1 := data[i + 1];
    }
    if remaining > 2 {
      b2 := data[i + 2];
    }
    piece := [ALPHABET[b0 / 4], ALPHABET[(b0 % 4) * 16 + b1 / 16]];
    if remaining > 1 {
      piece := piece + [ALPHABET[(b1 % 16) * 4 + b2 / 64]];
    }
    if remaining > 2 {
      piece := piece + [ALPHABET[b2 % 64]];
    }
  }

  /** The loop over the data, three bytes a pass. */
  method DnsMsgToBase64Url(data: seq<byte>) returns (text: string)
    ensures text == Encoding(data)
    ensures Decode(text) == Some(data)
    ensures |text| == (4 * |data| + 2) / 3
    ensures forall i :: 0 <= i < |text| ==> text[i] in ALPHABET
  {
    RoundTrip(data);
    SextetCount(data);
    hide Decode, GroupSextets;
    text := "";
    var i := 0;
    while i < |data|
      invariant text + Rest(data, i) == Encoding(data)
    {
      var piece := EncodeGroup(data, i);
      GroupPrefix(data, i);
      text := text + piece;
      i := i + 3;
    }
    assert text + "" == text;
  }

  lemma CharsAppend(a: seq<int>, b: seq<int>)
    requires forall i :: 0 <= i < |a| ==> 0 <= a[i] < 64
    requires forall i :: 0 <= i < |b| ==> 0 <= b[i] < 64
    ensures Chars(a + b) == Chars(a) + Chars(b)
  {
  }

  /** What is still to be written when the loop stands at `i`. */
  function Rest(data: seq<byte>, i: nat): string {
    if i < |data| then Encoding(data[i..]) else ""
  }

  lemma GroupPrefix(data: seq<byte>, i: nat)
    requires i < |data|
    ensures Rest(data, i) == Chars(GroupSextets(data[i..i + Min(3, |data| - i)])) + Rest(data, i + 3)
  {
    hide GroupSextets;
    var d := data[i..];
    if |d| > 3 {
      CharsAppend(GroupSextets(d[..3]), Sextets(d[3..]));
    }
    hide Chars;
    if |d| <= 3 {
      assert data[i..i + Min(3, |data| - i)] == d;
    } else {
      assert d[..3] == data[i..i + 3] && d[3..] == data[i + 3..];
    }
  }

  /** The alphabet by position (table 2 of RFC 4648). */
  function AlphabetCode(v: int): int {
    if v < 26 then 65 + v else if v < 52 then 97 + (v - 26) else if v < 62 then 48 + (v - 52)
    else if v == 62 then 45 else 95
  }

  lemma AlphabetAt(v: int)
    requires 0 <= v < 64
    ensures ALPHABET[v] as int == AlphabetCode(v)
  {
  }

  lemma CharsOf(s: seq<int>, t: string)
    requires |s| == |t| && forall i :: 0 <= i < |s| ==> 0 <= s[i] < 64 && ALPHABET[s[i]] == t[i]
    ensures Chars(s) == t
  {
  }

  /** "foobar" is Zm9vYmFy (section 10 of RFC 4648). */
  lemma FoobarExample()
    ensures Encoding([102, 111, 111, 98, 97, 114]) == "Zm9vYmFy"
  {
    var d: seq<byte> := [102, 111, 111, 98, 97, 114];
    assert d[..3] == [102, 111, 111] && d[3..] == [98, 97, 114];
    assert GroupSextets(d[..3]) == [25, 38, 61, 47] && GroupSextets(d[3..]) == [24, 38, 5, 50];
    assert Sextets(d) == [25, 38, 61, 47, 24, 38, 5, 50];
    AlphabetEverywhere();
    hide GroupSextets, Sextets, Range;
    CharsOf([25, 38, 61, 47, 24, 38, 5, 50], "Zm9vYmFy");
  }

  /** FB FF is written with both special characters of the URL alphabet, unpadded. */
  lemma SpecialExample()
    ensures Encoding([0xFB, 0xFF]) == "-_8"
  {
    assert Sextets([0xFB, 0xFF]) == GroupSextets([0xFB, 0xFF]) == [62, 63, 60];
    AlphabetEverywhere();
    hide GroupSextets, Sextets, Range;
    CharsOf([62, 63, 60], "-_8");
  }

  lemma AlphabetEverywhere()
    ensures forall v :: 0 <= v < 64 ==> ALPHABET[v] as int == AlphabetCode(v)
  {
    forall v | 0 <= v < 64
      ensures ALPHABET[v] as int == AlphabetCode(v)
    {
      AlphabetAt(v);
    }
  }
}
