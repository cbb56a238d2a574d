/** When the decoders follow the wire format. After each varint they move the cursor by
    the size of its canonical encoding, not by the bytes they read, so a varint padded
    with zeros, which the format does not forbid, throws them off. This module says exactly
    when that happens. */
module WirePadding {
  import opened Prelude
  import opened Wire

  /** The number of bytes Uvarint consumes. */
  function Read(d: seq<byte>, k: nat): (n: nat)
    ensures n <= |d|
  {
    if d == [] || k >= 10 then 0
    else if d[0] < 128 then 1
    else 1 + Read(d[1..], k + 1)
  }

  /** The varint at the head of `d` has no padding: it is one byte long, or its last byte
      is not zero. */
  predicate Minimal(d: seq<byte>, k: nat) {
    Read(d, k) == 1 || (Read(d, k) >= 1 && d[Read(d, k) - 1] != 0)
  }

  lemma SizeOfGroups(low: nat, high: nat)
    requires low < 128
    ensures |EncodeVarint(low + 128 * high)| == if high == 0 then 1 else 1 + |EncodeVarint(high)|
  {
    assert (low + 128 * high) / 128 == high;
  }

  /** The cursor moves by the bytes read exactly over varints without padding, and by
      fewer otherwise. */
  lemma {:induction false} CursorMoves(d: seq<byte>, k: nat)
    requires Uvarint(d, k).Some?
    ensures 1 <= |EncodeVarint(Uvarint(d, k).value)| <= Read(d, k)
    ensures |EncodeVarint(Uvarint(d, k).value)| == Read(d, k) <==> Minimal(d, k)
  {
    if d[0] >= 128 {
      CursorMoves(d[1..], k + 1);
      SizeOfGroups(d[0] - 128, Uvarint(d[1..], k + 1).value);
      assert d[Read(d, k) - 1] == d[1..][Read(d[1..], k + 1) - 1];
    }
  }

  /** A padded varint without its first byte. */
  lemma PaddedRest(d: seq<byte>, k: nat)
    requires Uvarint(d, k).Some? && !Minimal(d, k)
    ensures d != [] && Uvarint(d[1..], k + 1).Some? && Read(d, k) == 1 + Read(d[1..], k + 1)
    ensures var high := Uvarint(d[1..], k + 1).value;
            && |EncodeVarint(Uvarint(d, k).value)| == (if high == 0 then 1 else 1 + |EncodeVarint(high)|)
            && (high > 0 ==> !Minimal(d[1..], k + 1))
  {
    var rest := d[1..];
    CursorMoves(d, k);
    CursorMoves(rest, k + 1);
    SizeOfGroups(d[0] - 128, Uvarint(rest, k + 1).value);
    hide EncodeVarint;
    assert d[Read(d, k) - 1] == rest[Read(rest, k + 1) - 1];
  }

  /** The bytes of a padded varint that the cursor does not pass read as a zero. */
  lemma {:induction false} PaddingIsZero(d: seq<byte>, k: nat)
    requires Uvarint(d, k).Some? && !Minimal(d, k)
    ensures var e := |EncodeVarint(Uvarint(d, k).value)|;
            e < Read(d, k) <= |d| && Uvarint(d[e..], k + e) == Some(0)
  {
    hide EncodeVarint, Minimal, Read, Uvarint;
    PaddedRest(d, k);
    CursorMoves(d[1..], k + 1);
    var rest, high := d[1..], Uvarint(d[1..], k + 1).value;
    if high > 0 {
      PaddingIsZero(rest, k + 1);
      var e := |EncodeVarint(high)|;
      assert rest[e..] == d[e + 1..];
    }
  }

  /** Bytes that came before only bound the length. */
  lemma {:induction false} ReadEarlier(d: seq<byte>, j: nat, k: nat)
    requires j <= k && Uvarint(d, k).Some?
    ensures Uvarint(d, j) == Uvarint(d, k)
  {
    if d[0] >= 128 {
      ReadEarlier(d[1..], j + 1, k + 1);
    }
  }

  // ---------- the wire format ----------

  /** A field and the bytes it takes. */
  datatype Piece = Piece(field: Field, size: nat)

  /** The first field of `d` as the format defines it, and the bytes it takes: every
      varint takes the bytes it is written with. */
  function Standard(d: seq<byte>): (r: Option<Piece>)
    ensures r.Some? ==> 1 <= r.value.size <= |d|
  {
    match Uvarint(d, 0)
    case None => None
    case Some(tag) =>
      var t, num, wire := Read(d, 0), tag / 8, tag % 8;
      if num == 0 then None
      else if wire == WIRE_VARINT || wire == WIRE_BYTES then
        var h := t + Read(d[t..], 0);
        match Uvarint(d[t..], 0)
        case None => None
        case Some(v) =>
          if wire == WIRE_VARINT then Some(Piece(Field(num, wire, EncodeVarint(v)), h))
          else if h + v > |d| then None
          else Some(Piece(Field(num, wire, d[h..h + v]), h + v))
      else if wire == WIRE_FIXED64 && t + 8 <= |d| then Some(Piece(Field(num, wire, d[t..t + 8]), t + 8))
      else if wire == WIRE_FIXED32 && t + 4 <= |d| then Some(Piece(Field(num, wire, d[t..t + 4]), t + 4))
      else None
  }

  /** Neither the tag nor the value or length after it is padded. */
  predicate MinimalField(d: seq<byte>)
    requires Standard(d).Some?
  {
    var wire := Standard(d).value.field.wire;
    Minimal(d, 0) && (wire == WIRE_VARINT || wire == WIRE_BYTES ==> Minimal(d[Read(d, 0)..], 0))
  }

  lemma VarintDecodes(d: seq<byte>, k: nat)
    requires Uvarint(d, k).Some?
    ensures DecodeVarint(d) == Uvarint(d, k).value
  {
    ReadEarlier(d, 0, k);
  }

  /** A padded tag: what follows it is read as a zero. */
  lemma PaddedTag(d: seq<byte>, off: nat)
    requires Standard(d).Some? && !Minimal(d, 0) && off + |d| < TWO_63
    ensures var p := FieldPass(d, off);
            p.Emit? && p.n < Standard(d).value.size && p.field.num == Standard(d).value.field.num
  {
    var e := |EncodeVarint(Uvarint(d, 0).value)|;
    CursorMoves(d, 0);
    PaddingIsZero(d, 0);
    VarintDecodes(d[e..], e);
    VarintDecodes(d, 0);
    hide Uvarint, Read, Minimal;
    assert |EncodeVarint(0)| == 1;
    assert Drop(d, e) == d[e..];
  }

  /** A good tag and a padded value or length. */
  lemma PaddedValue(d: seq<byte>, off: nat)
    requires Standard(d).Some? && Minimal(d, 0) && !MinimalField(d) && off + |d| < TWO_63
    ensures var p := FieldPass(d, off);
            p.Emit? && p.n < Standard(d).value.size && p.field.num == Standard(d).value.field.num
  {
    var t := Read(d, 0);
    CursorMoves(d, 0);
    CursorMoves(d[t..], 0);
    hide Read, Minimal;
    assert Drop(d, t) == d[t..];
  }

  lemma PassOverVarints(d: seq<byte>, off: nat)
    requires Standard(d).Some? && off + |d| < TWO_63
    requires var t := Read(d, 0);
             && Drop(d, t) == d[t..] && |EncodeVarint(Uvarint(d, 0).value)| == t
             && Uvarint(d[t..], 0).Some? && |EncodeVarint(Uvarint(d[t..], 0).value)| == Read(d[t..], 0)
    requires Standard(d).value.field.wire == WIRE_VARINT || Standard(d).value.field.wire == WIRE_BYTES
    ensures FieldPass(d, off) == Emit(Standard(d).value.field, Standard(d).value.size)
  {
    hide Uvarint, EncodeVarint, Read, Drop;
  }

  lemma PassOverFixed(d: seq<byte>, off: nat)
    requires Standard(d).Some? && |EncodeVarint(Uvarint(d, 0).value)| == Read(d, 0)
    requires Standard(d).value.field.wire == WIRE_FIXED64 || Standard(d).value.field.wire == WIRE_FIXED32
    ensures FieldPass(d, off) == Emit(Standard(d).value.field, Standard(d).value.size)
  {
    hide Uvarint, EncodeVarint, Read, Drop;
  }

  lemma MinimalPass(d: seq<byte>, off: nat)
    requires Standard(d).Some? && MinimalField(d) && off + |d| < TWO_63
    ensures FieldPass(d, off) == Emit(Standard(d).value.field, Standard(d).value.size)
  {
    hide Uvarint, EncodeVarint, Read, FieldPass;
    var t, wire := Read(d, 0), Standard(d).value.field.wire;
    CursorMoves(d, 0);
    assert Drop(d, t) == d[t..];
    if wire == WIRE_VARINT || wire == WIRE_BYTES {
      CursorMoves(d[t..], 0);
      PassOverVarints(d, off);
    } else {
      PassOverFixed(d, off);
    }
  }

  /** A pass over a field of the format emits that field and moves past it if and only if
      none of its varints is padded; otherwise it stops short inside the field. */
  lemma PassIsStandard(d: seq<byte>, off: nat)
    requires Standard(d).Some? && off + |d| < TWO_63
    ensures var s, p := Standard(d).value, FieldPass(d, off);
            && p.Emit? && p.field.num == s.field.num
            && (p == Emit(s.field, s.size) <==> MinimalField(d))
            && (!MinimalField(d) ==> p.n < s.size)
  {
    hide FieldPass, Standard;
    if MinimalField(d) {
      MinimalPass(d, off);
    } else if Minimal(d, 0) {
      PaddedValue(d, off);
    } else {
      PaddedTag(d, off);
    }
  }

  // ---------- whole messages ----------

  /** A message of the format: fields until the end. */
  predicate IsMessage(d: seq<byte>)
    decreases |d|
  {
    d == [] || (Standard(d).Some? && IsMessage(d[Standard(d).value.size..]))
  }

  function StandardFields(d: seq<byte>): seq<Field>
    requires IsMessage(d)
    decreases |d|
  {
    if d == [] then [] else [Standard(d).value.field] + StandardFields(d[Standard(d).value.size..])
  }

  /** Every pass of the decoder emits the next field of the message and moves past it. */
  predicate FollowsFormat(d: seq<byte>, off: nat)
    requires IsMessage(d)
    decreases |d|
  {
    d == [] ||
    var s := Standard(d).value;
    FieldPass(d, off) == Emit(s.field, s.size) && FollowsFormat(d[s.size..], off + s.size)
  }

  predicate AllMinimal(d: seq<byte>)
    requires IsMessage(d)
    decreases |d|
  {
    d == [] || (MinimalField(d) && AllMinimal(d[Standard(d).value.size..]))
  }

  /** On every message of the format the decoder follows it field by field if and only if
      no varint in it is padded. */
  lemma {:induction false} FollowsIffMinimal(d: seq<byte>, off: nat)
    requires IsMessage(d) && off + |d| < TWO_63
    ensures FollowsFormat(d, off) <==> AllMinimal(d)
    decreases |d|
  {
    hide Standard, FieldPass, MinimalField;
    if d != [] {
      var n := Standard(d).value.size;
      PassIsStandard(d, off);
      FollowsIffMinimal(d[n..], off + n);
    }
  }

  /** And then it returns exactly the fields of the message. */
  lemma {:induction false} FollowedFields(d: seq<byte>, off: nat)
    requires IsMessage(d) && FollowsFormat(d, off)
    ensures Fields(d, off) == Some(StandardFields(d))
    decreases |d|
  {
    hide Standard, FieldPass;
    if d != [] {
      var n := Standard(d).value.size;
      FollowedFields(d[n..], off + n);
      assert Drop(d, n) == d[n..];
    }
  }

  /** In short: no padding, no loss. */
  lemma MinimalMessages(d: seq<byte>)
    requires IsMessage(d) && |d| < TWO_63
    ensures FollowsFormat(d, 0) <==> AllMinimal(d)
    ensures AllMinimal(d) ==> Fields(d, 0) == Some(StandardFields(d))
  {
    FollowsIffMinimal(d, 0);
    if AllMinimal(d) {
      FollowedFields(d, 0);
    }
  }

  /** A padded varint value ends decoding: its padding reads as the tag 0, and every
      field behind it is lost. */
  lemma PaddedValueEnds(d: seq<byte>, off: nat)
    requires Standard(d).Some? && Standard(d).value.field.wire == WIRE_VARINT && off + |d| < TWO_63
    requires Minimal(d, 0) && !MinimalField(d)
    ensures Fields(d, off) == Some([Standard(d).value.field])
  {
    var f, n := PaddedValuePass(d, off);
    hide FieldPass, Standard;
    assert [f] + [] == [f];
  }

  lemma PaddedValuePass(d: seq<byte>, off: nat) returns (f: Field, n: nat)
    requires Standard(d).Some? && Standard(d).value.field.wire == WIRE_VARINT && off + |d| < TWO_63
    requires Minimal(d, 0) && !MinimalField(d)
    ensures f == Standard(d).value.field && FieldPass(d, off) == Emit(f, n)
    ensures n < |d| && FieldPass(Drop(d, n), off + n) == Stop
  {
    hide Read, Minimal, Uvarint, EncodeVarint;
    f := Standard(d).value.field;
    var t := Read(d, 0);
    CursorMoves(d, 0);
    PaddingIsZero(d[t..], 0);
    var e := |EncodeVarint(Uvarint(d[t..], 0).value)|;
    n := t + e;
    VarintDecodes(d[t..][e..], e);
    assert Drop(d, t) == d[t..] && Drop(d, n) == d[t..][e..];
  }

  /** The smallest case: the two-byte tag 8A 00 means field 1 of type bytes, but the cursor
      moves one byte only and the second tag byte is read as the length. */
  lemma NonMinimalTag(x: byte, rest: seq<byte>)
    ensures FieldPass([0x8A, 0, x] + rest, 0) == Emit(Field(1, WIRE_BYTES, []), 2)
  {
    var d := [0x8A, 0, x] + rest;
    assert d[1..] == [0, x] + rest;
    assert Uvarint(d[1..], 1) == Some(0);
    assert DecodeVarint(d) == 10;
    assert Drop(d, 1) == d[1..];
    assert DecodeVarint(d[1..]) == 0;
    assert d[2..2] == [];
  }

  // ---------- when the returned fields are right ----------

  /** The k bytes at position j are zeros with and without a continuation bit, at least one
      without. */
  predicate Padding(d: seq<byte>, j: nat, k: nat) {
    && j + k <= |d|
    && (forall i :: j <= i < j + k ==> d[i] == 0 || d[i] == 128)
    && (exists i :: j <= i < j + k && d[i] == 0)
  }

  lemma {:induction false} ZeroBytes(d: seq<byte>, k: nat)
    requires Uvarint(d, k) == Some(0)
    ensures Padding(d, 0, Read(d, k)) && Read(d, k) <= 10 - k
    ensures Read(d, k) > 1 ==> d[0] == 128
  {
    var r := Read(d, k);
    if d[0] >= 128 {
      ZeroBytes(d[1..], k + 1);
      assert forall i :: 1 <= i < r ==> d[i] == d[1..][i - 1];
      var z :| 0 <= z < r - 1 && d[1..][z] == 0;
      assert d[z + 1] == 0;
    }
  }

  lemma {:induction false} ReadTail(d: seq<byte>, k: nat, e: nat)
    requires e < Read(d, k)
    ensures Read(d[e..], k + e) == Read(d, k) - e
    decreases e
  {
    if e > 0 {
      var rest := d[1..];
      assert Read(d, k) == 1 + Read(rest, k + 1);
      assert rest[e - 1..] == d[e..];
      hide Read;
      ReadTail(rest, k + 1, e - 1);
    }
  }

  /** The bytes of a padded varint that the cursor does not pass are padding. */
  lemma PaddingBytes(d: seq<byte>)
    requires Uvarint(d, 0).Some? && !Minimal(d, 0)
    ensures var e := |EncodeVarint(Uvarint(d, 0).value)|;
            && e < Read(d, 0) <= 10 && Padding(d, e, Read(d, 0) - e)
            && (Read(d, 0) > e + 1 ==> d[e] == 128)
  {
    var e := |EncodeVarint(Uvarint(d, 0).value)|;
    PaddingIsZero(d, 0);
    ReadTail(d, 0, e);
    hide Read, Uvarint, EncodeVarint, Minimal;
    ZeroBytes(d[e..], e);
    PaddingMoves(d, e, Read(d[e..], e));
  }

  lemma PaddingMoves(d: seq<byte>, e: nat, k: nat)
    requires e <= |d|
    ensures Padding(d[e..], 0, k) <==> Padding(d, e, k)
  {
    if Padding(d, e, k) {
      var z :| e <= z < e + k && d[z] == 0;
      assert d[e..][z - e] == 0;
    }
    if Padding(d[e..], 0, k) {
      var z :| 0 <= z < k && d[e..][z] == 0;
      assert d[e + z] == 0;
      assert forall i :: e <= i < e + k ==> d[i] == d[e..][i - e];
    }
  }

  lemma {:induction false} PaddingReadsZero(d: seq<byte>, k: nat, c: nat)
    requires Padding(d, 0, k) && c + k <= 10
    ensures Uvarint(d, c) == Some(0)
  {
    var z :| 0 <= z < k && d[z] == 0;
    if d[0] != 0 {
      assert d[1..][z - 1] == 0;
      PaddingReadsZero(d[1..], k - 1, c + 1);
    }
  }

  /** Padding that repeats stays padding. */
  lemma {:induction false} PaddingRepeats(d: seq<byte>, e: nat, k: nat, n: nat)
    requires Padding(d, e, k) && e + k + n <= |d|
    requires forall i :: e <= i < e + n ==> d[i] == d[i + k]
    ensures Padding(d, e + n, k)
    decreases n
  {
    if n > 0 {
      var z :| e <= z < e + k && d[z] == 0;
      assert d[e + k] == d[e];
      assert d[if z == e then e + k else z] == 0;
      PaddingRepeats(d, e + 1, k, n - 1);
    }
  }

  /** Padding reads as the tag 0. */
  lemma ZeroAtPadding(d: seq<byte>, n: nat, k: nat)
    requires Padding(d, n, k) && k <= 10
    ensures DecodeVarint(Drop(d, n)) == 0
  {
    PaddingMoves(d, n, k);
    PaddingReadsZero(d[n..], k, 0);
  }

  lemma StopsAtZero(d: seq<byte>, off: nat)
    requires DecodeVarint(d) == 0
    ensures Fields(d, off) == Some([])
  {
    hide DecodeVarint, EncodeVarint;
  }

  /** A padded tag of a varint or bytes field: one byte behind the cursor is taken for the
      value or length. */
  lemma TagThenVarint(d: seq<byte>, off: nat)
    requires Standard(d).Some? && !Minimal(d, 0) && off + |d| < TWO_63
    requires Standard(d).value.field.wire == WIRE_VARINT || Standard(d).value.field.wire == WIRE_BYTES
    ensures var e, p, f := |EncodeVarint(Uvarint(d, 0).value)|, FieldPass(d, off), Standard(d).value.field;
            && p.Emit? && p.n == e + 1
            && p.field == Field(f.num, f.wire, if f.wire == WIRE_VARINT then [0] else [])
  {
    var e := |EncodeVarint(Uvarint(d, 0).value)|;
    CursorMoves(d, 0);
    PaddingIsZero(d, 0);
    VarintDecodes(d[e..], e);
    VarintDecodes(d, 0);
    assert EncodeVarint(0) == [0];
    hide Uvarint, Read, Minimal, EncodeVarint;
    assert Drop(d, e) == d[e..];
  }

  lemma TagThenFixed(d: seq<byte>, off: nat)
    requires Standard(d).Some? && !Minimal(d, 0) && off + |d| < TWO_63
    requires Standard(d).value.field.wire == WIRE_FIXED64 || Standard(d).value.field.wire == WIRE_FIXED32
    ensures var e, p, f := |EncodeVarint(Uvarint(d, 0).value)|, FieldPass(d, off), Standard(d).value.field;
            var w := if f.wire == WIRE_FIXED64 then 8 else 4;
            && Read(d, 0) + w <= |d| && f.data == d[Read(d, 0)..Read(d, 0) + w]
            && e < Read(d, 0)
            && p == Emit(Field(f.num, f.wire, d[e..e + w]), e + w)
  {
    CursorMoves(d, 0);
    VarintDecodes(d, 0);
    hide Uvarint, Read, Minimal, EncodeVarint;
  }

  lemma LengthThenData(d: seq<byte>, off: nat)
    requires Standard(d).Some? && Minimal(d, 0) && !MinimalField(d) && off + |d| < TWO_63
    requires Standard(d).value.field.wire == WIRE_BYTES
    ensures var t, f := Read(d, 0), Standard(d).value.field;
            Uvarint(d[t..], 0).Some? && !Minimal(d[t..], 0) &&
            var v := Uvarint(d[t..], 0).value;
            var e, h := t + |EncodeVarint(v)|, t + Read(d[t..], 0);
            && e < h && h + v <= |d| && f.data == d[h..h + v]
            && FieldPass(d, off) == Emit(Field(f.num, f.wire, d[e..e + v]), e + v)
  {
    hide Read, Minimal, Uvarint, EncodeVarint;
    var t := Read(d, 0);
    CursorMoves(d, 0);
    CursorMoves(d[t..], 0);
    assert Drop(d, t) == d[t..];
  }

  /** The bytes from e on and from e + k on begin alike. */
  lemma SameRun(d: seq<byte>, e: nat, k: nat, n: nat)
    requires Padding(d, e, k) && e + k + n <= |d| && d[e..e + n] == d[e + k..e + k + n]
    ensures Padding(d, e + n, k)
  {
    forall i | e <= i < e + n
      ensures d[i] == d[i + k]
    {
      assert d[e..e + n][i - e] == d[e + k..e + k + n][i - e];
    }
    PaddingRepeats(d, e, k, n);
  }

  lemma TagIsRead(d: seq<byte>)
    requires Standard(d).Some?
    ensures Uvarint(d, 0).Some?
  {
  }

  lemma RightFixed(d: seq<byte>, off: nat)
    requires Standard(d).Some? && !Minimal(d, 0) && off + |d| < TWO_63
    requires Standard(d).value.field.wire == WIRE_FIXED64 || Standard(d).value.field.wire == WIRE_FIXED32
    requires FieldPass(d, off).Emit? && FieldPass(d, off).field == Standard(d).value.field
    ensures DecodeVarint(Drop(d, FieldPass(d, off).n)) == 0
  {
    hide Standard, FieldPass, Read, Uvarint, DecodeVarint, EncodeVarint, Padding, Minimal;
    TagIsRead(d);
    var f, e, t := Standard(d).value.field, |EncodeVarint(Uvarint(d, 0).value)|, Read(d, 0);
    var w := if f.wire == WIRE_FIXED64 then 8 else 4;
    TagThenFixed(d, off);
    PaddingBytes(d);
    SameRun(d, e, t - e, w);
    ZeroAtPadding(d, e + w, t - e);
  }

  /** The padding of the length, and the payload behind it. */
  lemma LengthPadding(d: seq<byte>, off: nat) returns (e: nat, k: nat, v: nat)
    requires Standard(d).Some? && Minimal(d, 0) && !MinimalField(d) && off + |d| < TWO_63
    requires Standard(d).value.field.wire == WIRE_BYTES
    ensures Padding(d, e, k) && k <= 10 && e + k + v <= |d|
    ensures Standard(d).value.field.data == d[e + k..e + k + v]
    ensures FieldPass(d, off).Emit? && FieldPass(d, off).field.data == d[e..e + v] && FieldPass(d, off).n == e + v
  {
    hide Standard, FieldPass, Read, Uvarint, EncodeVarint, Minimal, MinimalField, Padding;
    var t := Read(d, 0);
    LengthThenData(d, off);
    v := Uvarint(d[t..], 0).value;
    var size := |EncodeVarint(v)|;
    e, k := t + size, Read(d[t..], 0) - size;
    PaddingBytes(d[t..]);
    TailPadding(d, t, size, k);
  }

  lemma RightLength(d: seq<byte>, off: nat)
    requires Standard(d).Some? && Minimal(d, 0) && !MinimalField(d) && off + |d| < TWO_63
    requires Standard(d).value.field.wire == WIRE_BYTES
    requires FieldPass(d, off).Emit? && FieldPass(d, off).field == Standard(d).value.field
    ensures DecodeVarint(Drop(d, FieldPass(d, off).n)) == 0
  {
    hide *;
    var e, k, v := LengthPadding(d, off);
    SameRun(d, e, k, v);
    ZeroAtPadding(d, e + v, k);
  }

  lemma TailPadding(d: seq<byte>, t: nat, e: nat, k: nat)
    requires t <= |d| && Padding(d[t..], e, k)
    ensures Padding(d, t + e, k)
  {
    assert forall i :: t + e <= i < t + e + k ==> d[i] == d[t..][i - t];
    var z :| e <= z < e + k && d[t..][z] == 0;
    assert d[t + z] == 0;
  }

  lemma ValueIsZeroAfter(d: seq<byte>, off: nat)
    requires Standard(d).Some? && !Minimal(d, 0) && off + |d| < TWO_63
    requires Standard(d).value.field.wire == WIRE_VARINT || Standard(d).value.field.wire == WIRE_BYTES
    requires FieldPass(d, off).Emit? && FieldPass(d, off).field == Standard(d).value.field
    ensures Uvarint(d, 0).Some? && Read(d, 0) <= |d| && DecodeVarint(d[Read(d, 0)..]) == 0
  {
    TagThenVarint(d, off);
    ValueIsZero(d);
  }

  lemma RightTag(d: seq<byte>, off: nat)
    requires Standard(d).Some? && !Minimal(d, 0) && off + |d| < TWO_63
    requires Standard(d).value.field.wire == WIRE_VARINT || Standard(d).value.field.wire == WIRE_BYTES
    requires FieldPass(d, off).Emit? && FieldPass(d, off).field == Standard(d).value.field
    ensures DecodeVarint(Drop(d, FieldPass(d, off).n)) == 0
  {
    ValueIsZeroAfter(d, off);
    hide Standard, FieldPass, Read, Uvarint, EncodeVarint, DecodeVarint, Minimal, Padding;
    var e, t := |EncodeVarint(Uvarint(d, 0).value)|, Read(d, 0);
    TagThenVarint(d, off);
    PaddingBytes(d);
    if t == e + 1 {
      assert Drop(d, t) == d[t..];
    } else {
      LessPadding(d, e, t - e);
      ZeroAtPadding(d, e + 1, t - e - 1);
    }
  }

  lemma ValueIsZero(d: seq<byte>)
    requires Standard(d).Some? && var f := Standard(d).value.field;
             (f.wire == WIRE_VARINT && f.data == [0]) || (f.wire == WIRE_BYTES && f.data == [])
    ensures Read(d, 0) <= |d| && DecodeVarint(d[Read(d, 0)..]) == 0
  {
    var v := Uvarint(d[Read(d, 0)..], 0).value;
    assert v >= 128 ==> |EncodeVarint(v)| > 1;
    hide Read, Uvarint;
  }

  lemma LessPadding(d: seq<byte>, e: nat, k: nat)
    requires Padding(d, e, k) && k > 1 && d[e] == 128
    ensures Padding(d, e + 1, k - 1)
  {
    var z :| e <= z < e + k && d[z] == 0;
    assert z > e;
  }

  /** A pass that stops short inside a field and still emits the right one is the last. */
  lemma RightPassIsLast(d: seq<byte>, off: nat)
    requires Standard(d).Some? && !MinimalField(d) && off + |d| < TWO_63
    requires FieldPass(d, off).Emit? && FieldPass(d, off).field == Standard(d).value.field
    ensures Fields(d, off) == Some([Standard(d).value.field])
  {
    var f, n := Standard(d).value.field, FieldPass(d, off).n;
    KnownWire(d);
    if Minimal(d, 0) {
      if f.wire == WIRE_BYTES {
        RightLength(d, off);
      } else {
        OnlyValuePadded(d);
        PaddedValueEnds(d, off);
      }
    } else if f.wire == WIRE_VARINT || f.wire == WIRE_BYTES {
      RightTag(d, off);
    } else {
      RightFixed(d, off);
    }
    if !(Minimal(d, 0) && f.wire == WIRE_VARINT) {
      LastField(d, off);
    }
  }

  lemma KnownWire(d: seq<byte>)
    requires Standard(d).Some?
    ensures Standard(d).value.field.wire in {WIRE_VARINT, WIRE_BYTES, WIRE_FIXED64, WIRE_FIXED32}
  {
    hide Read, Uvarint, EncodeVarint;
  }

  lemma OnlyValuePadded(d: seq<byte>)
    requires Standard(d).Some? && Minimal(d, 0) && !MinimalField(d) && Standard(d).value.field.wire != WIRE_BYTES
    ensures Standard(d).value.field.wire == WIRE_VARINT
  {
  }

  lemma LastField(d: seq<byte>, off: nat)
    requires d != [] && FieldPass(d, off).Emit?
    requires DecodeVarint(Drop(d, FieldPass(d, off).n)) == 0
    ensures Fields(d, off) == Some([FieldPass(d, off).field])
  {
    hide FieldPass;
    StopsAtZero(Drop(d, FieldPass(d, off).n), off + FieldPass(d, off).n);
    assert [FieldPass(d, off).field] + [] == [FieldPass(d, off).field];
  }

  /** No field is padded, or only the last one is and its pass emits it all the same. */
  predicate OnlyLastPadded(d: seq<byte>, off: nat)
    requires IsMessage(d)
    decreases |d|
  {
    d == [] ||
    var s := Standard(d).value;
    if MinimalField(d) then OnlyLastPadded(d[s.size..], off + s.size)
    else s.size == |d| && FieldPass(d, off).Emit? && FieldPass(d, off).field == s.field
  }

  lemma NoFieldsLeft(off: nat)
    ensures Fields([], off) == Some([]) && StandardFields([]) == []
  {
  }

  lemma StandardSplits(d: seq<byte>)
    requires d != [] && IsMessage(d)
    ensures var s := Standard(d).value;
            StandardFields(d) == [s.field] + StandardFields(d[s.size..])
    ensures d[Standard(d).value.size..] != [] ==> StandardFields(d[Standard(d).value.size..]) != []
  {
    hide Standard;
  }

  lemma FieldsSplit(d: seq<byte>, off: nat)
    requires d != [] && FieldPass(d, off).Emit?
    ensures var p := FieldPass(d, off);
            Fields(d, off) == Prepend([p.field], Fields(Drop(d, p.n), off + p.n))
  {
    hide FieldPass;
  }

  lemma SameSplit(fs: Option<seq<Field>>, std: seq<Field>, f: Field, g: Field,
                  r: Option<seq<Field>>, xs: seq<Field>)
    requires fs == Prepend([f], r) && std == [g] + xs
    ensures fs == Some(std) <==> f == g && r == Some(xs)
  {
    if r.Some? {
      assert ([f] + r.value)[1..] == r.value && ([f] + xs)[1..] == xs;
      assert ([f] + r.value)[0] == f && ([g] + xs)[0] == g;
    }
  }

  /** One field of a message and the rest. */
  lemma ReturnedSplit(d: seq<byte>, off: nat)
    requires d != [] && IsMessage(d) && off + |d| < TWO_63
    ensures var s, p := Standard(d).value, FieldPass(d, off);
            Fields(d, off) == Some(StandardFields(d))
            <==> p.Emit? && p.field == s.field && Fields(Drop(d, p.n), off + p.n) == Some(StandardFields(d[s.size..]))
  {
    hide Fields, StandardFields, FieldPass, Standard;
    PassIsStandard(d, off);
    FieldsSplit(d, off);
    StandardSplits(d);
    var s, p := Standard(d).value, FieldPass(d, off);
    SameSplit(Fields(d, off), StandardFields(d), p.field, s.field,
              Fields(Drop(d, p.n), off + p.n), StandardFields(d[s.size..]));
  }

  lemma ReturnedPadded(d: seq<byte>, off: nat)
    requires d != [] && IsMessage(d) && off + |d| < TWO_63 && !MinimalField(d)
    ensures var s, p := Standard(d).value, FieldPass(d, off);
            Fields(d, off) == Some(StandardFields(d)) <==> s.size == |d| && p.Emit? && p.field == s.field
  {
    PassIsStandard(d, off);
    ReturnedSplit(d, off);
    StandardSplits(d);
    NoFieldsLeft(off);
    var s, p := Standard(d).value, FieldPass(d, off);
    if p.field == s.field {
      RightPassIsLast(d, off);
    }
    hide *;
    var rest := StandardFields(d[s.size..]);
    assert |[s.field] + rest| == 1 + |rest|;
  }

  /** Exactly when decoding returns the fields of a message. */
  lemma {:induction false} ReturnedFields(d: seq<byte>, off: nat)
    requires IsMessage(d) && off + |d| < TWO_63
    ensures Fields(d, off) == Some(StandardFields(d)) <==> OnlyLastPadded(d, off)
    decreases |d|
  {
    hide Fields, StandardFields, FieldPass, Standard, MinimalField;
    if d == [] {
      NoFieldsLeft(off);
    } else if MinimalField(d) {
      var n := Standard(d).value.size;
      PassIsStandard(d, off);
      ReturnedSplit(d, off);
      ReturnedFields(d[n..], off + n);
      assert Drop(d, n) == d[n..];
    } else {
      ReturnedPadded(d, off);
    }
  }

  /** 08 81 00 is a padded message that is decoded rightly all the same. */
  lemma PaddedButRight()
    ensures IsMessage([8, 0x81, 0]) && !AllMinimal([8, 0x81, 0])
    ensures Fields([8, 0x81, 0], 0) == Some(StandardFields([8, 0x81, 0]))
  {
    var d: seq<byte> := [8, 0x81, 0];
    assert d[1..] == [0x81, 0] && d[1..][1..] == [0] && d[3..] == [];
    assert Uvarint([0], 1) == Some(0) && Uvarint(d[1..], 0) == Some(1);
    assert Read([0], 1) == 1 && Read(d[1..], 0) == 2;
    assert Standard(d) == Some(Piece(Field(1, WIRE_VARINT, [1]), 3));
    PaddedValueEnds(d, 0);
    StandardSplits(d);
  }
}
