/** The hand-written Protocol Buffers wire-format decoders of geodata.go, on
    64-bit integers. `None` from a decoder stands for a run-time panic. */
module Wire {
  import opened Prelude

  const WIRE_VARINT := 0
  const WIRE_FIXED64 := 1
  const WIRE_BYTES := 2
  const WIRE_FIXED32 := 5

  /** No Go slice is longer than this, and `make` panics above it. */
  const MAX_ALLOC: int := 0x1_0000_0000_0000

  datatype Field = Field(num: nat, wire: nat, data: seq<byte>)

  // ---------- varints ----------

  /** What binary.Uvarint reads from `d` when `k` bytes came before: at most ten
      bytes in all, the tenth at most 1; anything else is an error. */
  function Uvarint(d: seq<byte>, k: nat): Option<nat> {
    if d == [] || k >= 10 then None
    else if d[0] < 128 then
      if k == 9 && d[0] > 1 then None else Some(d[0])
    else match Uvarint(d[1..], k + 1)
      case None => None
      case Some(high) => Some(d[0] - 128 + 128 * high)
  }

  /** decodeVarint: an error reads as 0. */
  function DecodeVarint(d: seq<byte>): nat {
    match Uvarint(d, 0)
    case None => 0
    case Some(v) => v
  }

  /** binary.PutUvarint. */
  function EncodeVarint(v: nat): (r: seq<byte>)
    ensures |r| >= 1
  {
    if v < 128 then [v] else [v % 128 + 128] + EncodeVarint(v / 128)
  }

  method VarintSize(value: nat) returns (size: nat)
    ensures size == |EncodeVarint(value)|
  {
    var v, n := value, 0;
    while v >= 0x80
      invariant |EncodeVarint(value)| == n + |EncodeVarint(v)|
    {
      v := v / 128;
      n := n + 1;
    }
    return n + 1;
  }

  /** What is left of 64 bits after k groups of seven. */
  function Room(k: nat): (r: nat)
    requires k <= 9
    ensures r >= 2
    decreases 9 - k
  {
    if k == 9 then 2 else 128 * Room(k + 1)
  }

  lemma FullRoom()
    ensures Room(0) == TWO_64
  {
    assert Room(5) == 128 * Room(6) && Room(6) == 128 * Room(7) && Room(7) == 128 * Room(8);
    assert Room(0) == 128 * Room(1) && Room(1) == 128 * Room(2) && Room(2) == 128 * Room(3);
    assert Room(3) == 128 * Room(4) && Room(4) == 128 * Room(5);
  }

  lemma {:induction false} VarintLength(v: nat, k: nat)
    requires k <= 9 && v < Room(k)
    ensures |EncodeVarint(v)| <= 10 - k
  {
    if v >= 128 {
      VarintLength(v / 128, k + 1);
    }
  }

  lemma {:induction false} UvarintBound(d: seq<byte>, k: nat)
    requires Uvarint(d, k).Some?
    ensures k <= 9 && Uvarint(d, k).value < Room(k)
  {
    if d[0] < 128 {
    } else {
      UvarintBound(d[1..], k + 1);
    }
  }

  lemma DecodeVarintBound(d: seq<byte>)
    ensures DecodeVarint(d) < TWO_64
  {
    if Uvarint(d, 0).Some? {
      UvarintBound(d, 0);
      FullRoom();
    }
  }

  /** A decoded value never needs more bytes than were read: the cursor, moved by
      the minimal size, stays inside the data. */
  lemma {:induction false} MinimalSizeFits(d: seq<byte>, k: nat)
    requires Uvarint(d, k).Some?
    ensures |EncodeVarint(Uvarint(d, k).value)| <= |d|
  {
    if d[0] >= 128 {
      MinimalSizeFits(d[1..], k + 1);
      var high := Uvarint(d[1..], k + 1).value;
      assert (d[0] - 128 + 128 * high) / 128 == high;
    }
  }

  lemma {:induction false} UvarintRoundTrip(v: nat, rest: seq<byte>, k: nat)
    requires k <= 9 && v < Room(k)
    ensures Uvarint(EncodeVarint(v) + rest, k) == Some(v)
  {
    var d := EncodeVarint(v) + rest;
    if v >= 128 {
      UvarintRoundTrip(v / 128, rest, k + 1);
      assert d[1..] == EncodeVarint(v / 128) + rest;
    }
  }

  /** Every 64-bit value survives encoding, whatever bytes follow it. */
  lemma VarintRoundTrip(v: nat, rest: seq<byte>)
    requires v < TWO_64
    ensures DecodeVarint(EncodeVarint(v) + rest) == v
  {
    FullRoom();
    UvarintRoundTrip(v, rest, 0);
  }

  /** 300 takes the bytes AC 02. */
  lemma VarintExample()
    ensures EncodeVarint(300) == [0xAC, 0x02] && DecodeVarint([0xAC, 0x02]) == 300
  {
    assert EncodeVarint(300 / 128) == [2];
    assert [0xAC, 0x02][1..] == [0x02] && Uvarint([0x02], 1) == Some(2);
  }

  // ---------- one pass of a decoder loop ----------

  datatype Pass =
    | Stop
    | Panic
    | Skip(n: nat)
    | Emit(field: Field, n: nat)

  function Drop(d: seq<byte>, n: nat): seq<byte> {
    if n <= |d| then d[n..] else []
  }

  /** One pass of decodeProtobufFields over the unread bytes `d`, which start at
      absolute position `off`. A length that would push the cursor past the
      largest int wraps to a negative end and panics; one that only runs past the
      data is skipped together with its tag, and the payload is read as tags. */
  function FieldPass(d: seq<byte>, off: nat): (p: Pass)
    ensures p.Skip? || p.Emit? ==> p.n >= 1
  {
    var tag := DecodeVarint(d);
    if tag == 0 then Stop
    else
      var t := |EncodeVarint(tag)|;
      var num, wire := tag / 8, tag % 8;
      if wire == WIRE_VARINT then
        var v := EncodeVarint(DecodeVarint(Drop(d, t)));
        Emit(Field(num, wire, v), t + |v|)
      else if wire == WIRE_BYTES then
        var length := DecodeVarint(Drop(d, t));
        var h := t + |EncodeVarint(length)|;
        if off + h + length >= TWO_63 then Panic
        else if h + length > |d| then Skip(h)
        else Emit(Field(num, wire, d[h..h + length]), h + length)
      else if wire == WIRE_FIXED64 then
        if t + 8 > |d| then Skip(t) else Emit(Field(num, wire, d[t..t + 8]), t + 8)
      else if wire == WIRE_FIXED32 then
        if t + 4 > |d| then Skip(t) else Emit(Field(num, wire, d[t..t + 4]), t + 4)
      else Skip(t)
  }

  function Prepend<T>(xs: seq<T>, r: Option<seq<T>>): Option<seq<T>> {
    match r
    case None => None
    case Some(ys) => Some(xs + ys)
  }

  function Fields(d: seq<byte>, off: nat): Option<seq<Field>>
    decreases |d|
  {
    if d == [] then Some([])
    else match FieldPass(d, off)
      case Stop => Some([])
      case Panic => None
      case Skip(n) => Fields(Drop(d, n), off + n)
      case Emit(f, n) => Prepend([f], Fields(Drop(d, n), off + n))
  }

  /** One pass of decodeProtobufRepeated. It slices instead of copying, so the
      bytes `spare` between the length and the capacity of the slice matter: a
      varint cut off at the very end is sliced out of them, or panics. */
  function SlicePass(d: seq<byte>, spare: seq<byte>, off: nat): (p: Pass)
    ensures p.Skip? || p.Emit? ==> p.n >= 1
  {
    var tag := DecodeVarint(d);
    if tag == 0 then Stop
    else
      var t := |EncodeVarint(tag)|;
      var num, wire := tag / 8, tag % 8;
      if wire == WIRE_VARINT then
        var sz := |EncodeVarint(DecodeVarint(Drop(d, t)))|;
        if t + sz > |d + spare| then Panic
        else Emit(Field(num, wire, (d + spare)[t..t + sz]), t + sz)
      else if wire == WIRE_BYTES then
        var length := DecodeVarint(Drop(d, t));
        var h := t + |EncodeVarint(length)|;
        if off + h + length >= TWO_63 then Panic
        else if h + length > |d| then Skip(h)
        else Emit(Field(num, wire, d[h..h + length]), h + length)
      else if wire == WIRE_FIXED64 then
        if t + 8 > |d| then Skip(t) else Emit(Field(num, wire, d[t..t + 8]), t + 8)
      else if wire == WIRE_FIXED32 then
        if t + 4 > |d| then Skip(t) else Emit(Field(num, wire, d[t..t + 4]), t + 4)
      else Skip(t)
  }

  function Repeated(d: seq<byte>, spare: seq<byte>, off: nat, num: nat, wire: nat): Option<seq<seq<byte>>>
    decreases |d|
  {
    if d == [] then Some([])
    else match SlicePass(d, spare, off)
      case Stop => Some([])
      case Panic => None
      case Skip(n) => Repeated(Drop(d, n), spare, off + n, num, wire)
      case Emit(f, n) =>
        Prepend(if f.num == num && f.wire == wire then [f.data] else [],
                Repeated(Drop(d, n), spare, off + n, num, wire))
  }

  /** The payloads of the length-delimited fields numbered `num`. */
  function Payloads(fs: seq<Field>, num: nat): seq<seq<byte>> {
    if fs == [] then []
    else (if fs[0].num == num && fs[0].wire == WIRE_BYTES then [fs[0].data] else []) + Payloads(fs[1..], num)
  }

  /** True iff the walk ends inside a varint field whose value is missing: the data ends
      with the tag. */
  predicate EndsAfterVarintTag(d: seq<byte>, off: nat)
    decreases |d|
  {
    d != [] &&
    match FieldPass(d, off)
    case Stop => false
    case Panic => false
    case Skip(n) => EndsAfterVarintTag(Drop(d, n), off + n)
    case Emit(f, n) => n > |d| || EndsAfterVarintTag(Drop(d, n), off + n)
  }

  // ---------- the two decoders walk the same bytes ----------

  lemma VarintFits(d: seq<byte>)
    requires DecodeVarint(d) != 0
    ensures |EncodeVarint(DecodeVarint(d))| <= |d|
  {
    MinimalSizeFits(d, 0);
  }

  lemma ValueFits(d: seq<byte>)
    ensures |EncodeVarint(DecodeVarint(d))| <= Max(|d|, 1)
  {
    if DecodeVarint(d) != 0 {
      VarintFits(d);
    }
  }

  /** A pass may overrun the data by one byte, and then only over a varint value. */
  lemma PassesAgree(d: seq<byte>, spare: seq<byte>, off: nat)
    ensures var p, q := FieldPass(d, off), SlicePass(d, spare, off);
            && (p.Skip? ==> q == p && p.n <= |d| + 1)
            && (p.Stop? <==> q.Stop?)
            && (p.Panic? ==> q.Panic?)
            && (p.Emit? ==> p.n <= |d| + 1 && (p.n > |d| ==> p.field.wire == WIRE_VARINT))
            && (p.Emit? ==> if p.n > |d + spare| then q.Panic? else
                  q.Emit? && q.n == p.n && q.field.num == p.field.num && q.field.wire == p.field.wire
                  && (p.field.wire != WIRE_VARINT ==> q == p))
  {
    var tag := DecodeVarint(d);
    if tag != 0 {
      VarintFits(d);
      ValueFits(Drop(d, |EncodeVarint(tag)|));
    }
  }

  lemma PassSize(d: seq<byte>, off: nat)
    ensures var p := FieldPass(d, off); p.Emit? ==> |p.field.data| <= Max(|d|, 10)
  {
    hide EncodeVarint, DecodeVarint;
    var rest := Drop(d, |EncodeVarint(DecodeVarint(d))|);
    DecodeVarintBound(rest);
    FullRoom();
    VarintLength(DecodeVarint(rest), 0);
  }

  /** No payload is much longer than the data it came from. */
  lemma {:induction false} FieldSizes(d: seq<byte>, off: nat)
    requires Fields(d, off).Some?
    ensures forall f :: f in Fields(d, off).value ==> |f.data| <= Max(|d|, 10)
    decreases |d|
  {
    hide FieldPass;
    if d != [] {
      var p := FieldPass(d, off);
      PassSize(d, off);
      if p.Skip? || p.Emit? {
        FieldSizes(Drop(d, p.n), off + p.n);
      }
    }
  }

  /** On every input, malformed or truncated included: the slicing decoder panics
      exactly when the copying one does, or when it has no spare capacity and the
      data ends right after a varint tag; otherwise it returns exactly the
      length-delimited fields of that number, in order. */
  lemma {:induction false} DecodersAgree(d: seq<byte>, spare: seq<byte>, off: nat, num: nat)
    ensures var fs, rs := Fields(d, off), Repeated(d, spare, off, num, WIRE_BYTES);
            && (rs.None? <==> fs.None? || (spare == [] && EndsAfterVarintTag(d, off)))
            && (rs.Some? ==> rs.value == Payloads(fs.value, num))
    decreases |d|
  {
    hide FieldPass, SlicePass;
    if d != [] {
      PassesAgree(d, spare, off);
      var p := FieldPass(d, off);
      if p.Skip? || p.Emit? {
        DecodersAgree(Drop(d, p.n), spare, off + p.n, num);
      }
      if p.Emit? {
        var rest := Fields(Drop(d, p.n), off + p.n);
        if rest.Some? {
          assert ([p.field] + rest.value)[1..] == rest.value;
        }
      }
    }
  }

  // ---------- canonical encoding ----------

  function EncodeTag(num: nat, wire: nat): seq<byte> {
    EncodeVarint(num * 8 + wire)
  }

  function EncodeField(f: Field): (r: seq<byte>)
    ensures |r| >= 1
  {
    EncodeTag(f.num, f.wire)
    + (if f.wire == WIRE_BYTES then EncodeVarint(|f.data|) else [])
    + f.data
  }

  function Encode(fs: seq<Field>): seq<byte> {
    if fs == [] then [] else EncodeField(fs[0]) + Encode(fs[1..])
  }

  /** What the decoders read back: a tag that is not zero (for an encoder, a positive
      field number), one of the four wire types, and a payload of the shape that type
      prescribes. */
  predicate WellFormed(f: Field) {
    && f.num < 0x2000_0000_0000_0000 && (f.num == 0 ==> f.wire != 0)
    && (f.wire == WIRE_VARINT || f.wire == WIRE_BYTES || f.wire == WIRE_FIXED64 || f.wire == WIRE_FIXED32)
    && (f.wire == WIRE_VARINT ==> f.data == EncodeVarint(DecodeVarint(f.data)))
    && (f.wire == WIRE_FIXED64 ==> |f.data| == 8)
    && (f.wire == WIRE_FIXED32 ==> |f.data| == 4)
  }

  lemma EncodedPass(f: Field, rest: seq<byte>, off: nat)
    requires WellFormed(f)
    requires off + |EncodeField(f)| < TWO_63
    ensures FieldPass(EncodeField(f) + rest, off) == Emit(f, |EncodeField(f)|)
  {
    hide EncodeVarint, DecodeVarint;
    var d := EncodeField(f) + rest;
    var tag := f.num * 8 + f.wire;
    var t := |EncodeVarint(tag)|;
    var lengthPrefix := if f.wire == WIRE_BYTES then EncodeVarint(|f.data|) else [];
    assert d == EncodeVarint(tag) + (lengthPrefix + (f.data + rest));
    VarintRoundTrip(tag, lengthPrefix + (f.data + rest));
    assert Drop(d, t) == lengthPrefix + (f.data + rest);
    assert tag / 8 == f.num && tag % 8 == f.wire;
    if f.wire == WIRE_VARINT {
      DecodeVarintBound(f.data);
      assert Drop(d, t) == f.data + rest;
      VarintRoundTrip(DecodeVarint(f.data), rest);
    } else if f.wire == WIRE_BYTES {
      VarintRoundTrip(|f.data|, f.data + rest);
      var h := t + |EncodeVarint(|f.data|)|;
      assert d[h..h + |f.data|] == f.data;
    } else {
      assert d[t..t + |f.data|] == f.data;
    }
  }

  lemma FirstField(f: Field, rest: seq<byte>, off: nat)
    requires WellFormed(f) && off + |EncodeField(f)| < TWO_63
    ensures var n := |EncodeField(f)|;
            && Fields(EncodeField(f) + rest, off) == Prepend([f], Fields(rest, off + n))
            && EndsAfterVarintTag(EncodeField(f) + rest, off) == EndsAfterVarintTag(rest, off + n)
  {
    hide FieldPass, EncodeField, WellFormed, EncodeVarint, DecodeVarint;
    EncodedPass(f, rest, off);
    assert Drop(EncodeField(f) + rest, |EncodeField(f)|) == rest;
  }

  lemma NothingLeft(off: nat)
    ensures Fields([], off) == Some([]) && !EndsAfterVarintTag([], off)
  {
  }

  /** Decoding the canonical encoding of a list of fields gives that list back. */
  lemma {:induction false} FieldsRoundTrip(fs: seq<Field>, off: nat)
    requires forall f :: f in fs ==> WellFormed(f)
    requires off + |Encode(fs)| < TWO_63
    ensures Fields(Encode(fs), off) == Some(fs)
    ensures !EndsAfterVarintTag(Encode(fs), off)
  {
    hide Fields, EndsAfterVarintTag, EncodeField, WellFormed;
    if fs == [] {
      NothingLeft(off);
    } else {
      FirstField(fs[0], Encode(fs[1..]), off);
      FieldsRoundTrip(fs[1..], off + |EncodeField(fs[0])|);
      assert [fs[0]] + fs[1..] == fs;
    }
  }

  lemma RepeatedRoundTrip(fs: seq<Field>, spare: seq<byte>, num: nat)
    requires forall f :: f in fs ==> WellFormed(f)
    requires |Encode(fs)| < TWO_63
    ensures Repeated(Encode(fs), spare, 0, num, WIRE_BYTES) == Some(Payloads(fs, num))
  {
    FieldsRoundTrip(fs, 0);
    DecodersAgree(Encode(fs), spare, 0, num);
  }

  // ---------- malformed data ----------

  /** A tag that is zero, or that cannot be read, ends decoding. */
  lemma ZeroTagEnds(d: seq<byte>, off: nat)
    requires Uvarint(d, 0) == None || Uvarint(d, 0) == Some(0)
    ensures Fields(d, off) == Some([])
  {
    hide Uvarint, EncodeVarint;
  }

  lemma TagOf(num: nat, wire: nat, rest: seq<byte>)
    requires num < 0x2000_0000_0000_0000 && wire < 8 && num * 8 + wire != 0
    ensures var tag := num * 8 + wire;
            && tag / 8 == num && tag % 8 == wire && DecodeVarint(EncodeTag(num, wire) + rest) == tag
            && Drop(EncodeTag(num, wire) + rest, |EncodeTag(num, wire)|) == rest
  {
    VarintRoundTrip(num * 8 + wire, rest);
  }

  /** A varint value that cannot be read counts as 0 and moves the cursor by one byte. */
  lemma UnreadableValue(num: nat, rest: seq<byte>, off: nat)
    requires 1 <= num < 0x2000_0000_0000_0000 && Uvarint(rest, 0) == None
    ensures Fields(EncodeTag(num, 0) + rest, off)
         == Prepend([Field(num, 0, [0])], Fields(Drop(rest, 1), off + |EncodeTag(num, 0)| + 1))
  {
    hide FieldPass, EncodeVarint, Uvarint, EncodeTag, DecodeVarint;
    UnreadablePass(num, rest, off);
    TagOf(num, 0, rest);
    TagSize(num, 0);
    DropDrop(EncodeTag(num, 0) + rest, |EncodeTag(num, 0)|, 1);
  }

  lemma UnreadablePass(num: nat, rest: seq<byte>, off: nat)
    requires 1 <= num < 0x2000_0000_0000_0000 && Uvarint(rest, 0) == None
    ensures FieldPass(EncodeTag(num, 0) + rest, off) == Emit(Field(num, 0, [0]), |EncodeTag(num, 0)| + 1)
  {
    ZeroByte(rest);
    hide EncodeVarint, Uvarint, EncodeTag, DecodeVarint;
    TagOf(num, 0, rest);
    TagSize(num, 0);
  }

  lemma ZeroByte(d: seq<byte>)
    requires Uvarint(d, 0) == None
    ensures EncodeVarint(0) == [0] && DecodeVarint(d) == 0
  {
  }

  /** Tags of the wire types 3, 4, 6 and 7 are skipped, and so are tags of fixed-size
      fields that are cut off; decoding goes on right behind the tag. */
  lemma SkippedTag(num: nat, wire: nat, rest: seq<byte>, off: nat)
    requires num < 0x2000_0000_0000_0000 && wire < 8 && num * 8 + wire != 0
    requires wire in {3, 4, 6, 7} || (wire == 1 && |rest| < 8) || (wire == 5 && |rest| < 4)
    ensures Fields(EncodeTag(num, wire) + rest, off) == Fields(rest, off + |EncodeTag(num, wire)|)
  {
    hide EncodeVarint, DecodeVarint;
    TagOf(num, wire, rest);
    assert FieldPass(EncodeTag(num, wire) + rest, off) == Skip(|EncodeTag(num, wire)|);
    hide FieldPass;
  }

  /** A length that runs past the data is skipped with its tag, and what follows is read as
      fields. A length so large that the end position leaves the 64-bit range panics. */
  lemma OverrunLength(num: nat, length: nat, rest: seq<byte>, off: nat)
    requires num < 0x2000_0000_0000_0000 && |rest| < length < 0x1_0000_0000_0000_0000
    ensures var h := |EncodeTag(num, 2)| + |EncodeVarint(length)|;
            Fields(EncodeTag(num, 2) + (EncodeVarint(length) + rest), off) ==
              if off + h + length < 0x8000_0000_0000_0000 then Fields(rest, off + h) else None
  {
    hide EncodeVarint, DecodeVarint, EncodeTag;
    var t, d := |EncodeTag(num, 2)|, EncodeTag(num, 2) + (EncodeVarint(length) + rest);
    var h := t + |EncodeVarint(length)|;
    TagOf(num, 2, EncodeVarint(length) + rest);
    VarintRoundTrip(length, rest);
    TagSize(num, 2);
    assert Drop(d, h) == rest && |d| == h + |rest|;
    assert FieldPass(d, off) == if off + h + length < TWO_63 then Skip(h) else Panic;
    hide FieldPass;
  }

  lemma TagSize(num: nat, wire: nat)
    ensures EncodeTag(num, wire) == EncodeVarint(num * 8 + wire) && |EncodeTag(num, wire)| >= 1
  {
  }

  /** The naive claim is false: with a length equal to its capacity, one byte 08 (the
      tag of a varint field) makes the slicing decoder panic, while the copying one
      invents a field with the value 0. */
  lemma CutOffVarint()
    ensures Fields([8], 0) == Some([Field(1, WIRE_VARINT, [0])])
    ensures forall num :: Repeated([8], [], 0, num, WIRE_BYTES) == None
  {
    assert Drop([8], 1) == [] && Drop([8], 2) == [];
    assert FieldPass([8], 0) == Emit(Field(1, WIRE_VARINT, [0]), 2);
    assert [Field(1, WIRE_VARINT, [0])] + [] == [Field(1, WIRE_VARINT, [0])];
    assert SlicePass([8], [], 0) == Panic;
  }

  // ---------- the loops ----------

  /** Conversion of an out-of-range value to Go's int wraps around. */
  function WrapInt(n: int): (r: int)
    ensures -TWO_63 <= r < TWO_63
  {
    (n + TWO_63) % TWO_64 - TWO_63
  }

  lemma WrappedEnd(i: nat, length: nat, bound: nat)
    requires i <= bound + 1 && bound <= MAX_ALLOC && length < TWO_64
    ensures var end := WrapInt(i + WrapInt(length));
            && (i + length < TWO_63 ==> end == i + length)
            && (i + length >= TWO_63 ==> end <= bound && end < i && length > MAX_ALLOC)
  {
    if length < TWO_63 {
      assert WrapInt(length) == length;
      if i + length >= TWO_63 {
        assert WrapInt(i + length) == i + length - TWO_64;
      }
    } else {
      assert WrapInt(length) == length - TWO_64;
      assert WrapInt(i + length - TWO_64) == i + length - TWO_64;
    }
  }

  lemma DropDrop(d: seq<byte>, i: nat, n: nat)
    ensures Drop(Drop(d, i), n) == Drop(d, i + n)
  {
  }

  lemma PrependPrepend<T>(xs: seq<T>, ys: seq<T>, r: Option<seq<T>>)
    ensures Prepend(xs, Prepend(ys, r)) == Prepend(xs + ys, r)
    ensures Prepend([], r) == r
  {
    if r.Some? {
      assert xs + (ys + r.value) == xs + ys + r.value;
      assert [] + r.value == r.value;
    }
  }

  lemma StopOnZeroTag(d: seq<byte>, spare: seq<byte>, off: nat)
    ensures DecodeVarint(d) == 0 ==> FieldPass(d, off) == Stop && SlicePass(d, spare, off) == Stop
  {
    hide DecodeVarint, EncodeVarint;
  }

  ghost function Emitted(p: Pass): seq<Field> {
    if p.Emit? then [p.field] else []
  }

  ghost function Selected(p: Pass, num: nat, wire: nat): seq<seq<byte>> {
    if p.Emit? && p.field.num == num && p.field.wire == wire then [p.field.data] else []
  }

  /** The equation behind the loop invariants: what was collected, then the rest. */
  lemma AfterPass(data: seq<byte>, i: nat, fields: seq<Field>)
    requires i < |data|
    ensures var p := FieldPass(data[i..], i);
            Prepend(fields, Fields(Drop(data, i), i)) ==
              match p
              case Stop => Some(fields)
              case Panic => None
              case _ => Prepend(fields + Emitted(p), Fields(Drop(data, i + p.n), i + p.n))
  {
    hide FieldPass;
    var p := FieldPass(data[i..], i);
    assert fields + [] == fields;
    if p.Emit? || p.Skip? {
      DropDrop(data, i, p.n);
      PrependPrepend(fields, Emitted(p), Fields(Drop(data, i + p.n), i + p.n));
    }
  }

  lemma AfterSlicePass(data: seq<byte>, spare: seq<byte>, i: nat, num: nat, wire: nat, results: seq<seq<byte>>)
    requires i < |data|
    ensures var p := SlicePass(data[i..], spare, i);
            Prepend(results, Repeated(Drop(data, i), spare, i, num, wire)) ==
              match p
              case Stop => Some(results)
              case Panic => None
              case _ =>
                Prepend(results + Selected(p, num, wire), Repeated(Drop(data, i + p.n), spare, i + p.n, num, wire))
  {
    hide SlicePass;
    var p := SlicePass(data[i..], spare, i);
    assert results + [] == results;
    if p.Emit? || p.Skip? {
      DropDrop(data, i, p.n);
      PrependPrepend(results, Selected(p, num, wire), Repeated(Drop(data, i + p.n), spare, i + p.n, num, wire));
    }
  }

  /** The loops start with everything unread and end with nothing unread. */
  lemma LoopEnds(data: seq<byte>, spare: seq<byte>, num: nat, wire: nat)
    ensures Prepend([], Fields(Drop(data, 0), 0)) == Fields(data, 0)
    ensures Prepend([], Repeated(Drop(data, 0), spare, 0, num, wire)) == Repeated(data, spare, 0, num, wire)
    ensures forall i: nat, fs: seq<Field> :: i >= |data| ==> Prepend(fs, Fields(Drop(data, i), i)) == Some(fs)
    ensures forall i: nat, rs: seq<seq<byte>> :: i >= |data| ==>
              Prepend(rs, Repeated(Drop(data, i), spare, i, num, wire)) == Some(rs)
  {
    PrependPrepend([], [], Fields(data, 0));
    PrependPrepend([], [], Repeated(data, spare, 0, num, wire));
    assert Drop(data, 0) == data;
    assert forall fs: seq<Field> :: fs + [] == fs;
    assert forall rs: seq<seq<byte>> :: rs + [] == rs;
  }

  /** The switch over the wire type in decodeProtobufFields, entered with the
      cursor `i` behind the tag that starts at `start`. */
  method CopyField(data: seq<byte>, start: nat, tag: nat, i: nat)
    returns (panics: bool, field: Option<Field>, next: nat)
    requires |data| <= MAX_ALLOC && start < i <= |data|
    requires tag == DecodeVarint(data[start..]) != 0 && i == start + |EncodeVarint(tag)|
    ensures !panics ==> next >= i
    ensures FieldPass(data[start..], start) ==
              if panics then Panic
              else if field == None then Skip(next - start)
              else Emit(field.value, next - start)
  {
    hide EncodeVarint, DecodeVarint, WrapInt;
    ghost var d, t := data[start..], i - start;
    assert data[i..] == Drop(d, t);
    panics, field, next := false, None, i;
    var num, wire := tag / 8, tag % 8;
    if wire == WIRE_VARINT {
      var v := DecodeVarint(data[i..]);
      var size := VarintSize(v);
      field, next := Some(Field(num, wire, EncodeVarint(v))), i + size;
    } else if wire == WIRE_BYTES {
      var length := DecodeVarint(data[i..]);
      DecodeVarintBound(data[i..]);
      ValueFits(data[i..]);
      var lengthSize := VarintSize(length);
      next := i + lengthSize;
      WrappedEnd(next, length, |data|);
      var end := WrapInt(next + WrapInt(length));
      if end <= |data| {
        if length > MAX_ALLOC {
          panics := true;
        } else {
          assert data[next..end] == d[next - start..end - start];
          field, next := Some(Field(num, wire, data[next..end])), end;
        }
      }
    } else if wire == WIRE_FIXED64 {
      if i + 8 <= |data| {
        assert data[i..i + 8] == d[t..t + 8];
        field, next := Some(Field(num, wire, data[i..i + 8])), i + 8;
      }
    } else if wire == WIRE_FIXED32 {
      if i + 4 <= |data| {
        assert data[i..i + 4] == d[t..t + 4];
        field, next := Some(Field(num, wire, data[i..i + 4])), i + 4;
      }
    }
  }

  method DecodeProtobufFields(data: seq<byte>) returns (result: Option<seq<Field>>, ghost passes: nat)
    requires |data| <= MAX_ALLOC
    ensures result == Fields(data, 0)
    ensures passes <= |data|
  {
    hide EncodeVarint, DecodeVarint, Fields, Prepend, FieldPass;
    var fields: seq<Field> := [];
    var i := 0;
    passes := 0;
    LoopEnds(data, [], 0, 0);
    while i < |data|
      invariant passes <= i && passes <= |data|
      invariant Fields(data, 0) == Prepend(fields, Fields(Drop(data, i), i))
    {
      AfterPass(data, i, fields);
      StopOnZeroTag(data[i..], [], i);
      passes := passes + 1;
      var tag := DecodeVarint(data[i..]);
      if tag == 0 {
        break;
      }
      VarintFits(data[i..]);
      var tagSize := VarintSize(tag);
      var panics, field, next := CopyField(data, i, tag, i + tagSize);
      if panics {
        return None, passes;
      }
      assert fields + [] == fields;
      if field.Some? {
        fields := fields + [field.value];
      }
      i := next;
    }
    return Some(fields), passes;
  }

  /** The switch over the wire type in decodeProtobufRepeated: the same cursor
      moves, but the payload is sliced out of the backing array. */
  method SliceField(data: seq<byte>, spare: seq<byte>, start: nat, tag: nat, i: nat)
    returns (panics: bool, fieldData: Option<seq<byte>>, next: nat)
    requires |data| <= MAX_ALLOC && start < i <= |data|
    requires tag == DecodeVarint(data[start..]) != 0 && i == start + |EncodeVarint(tag)|
    ensures !panics ==> next >= i
    ensures SlicePass(data[start..], spare, start) ==
              if panics then Panic
              else if fieldData == None then Skip(next - start)
              else Emit(Field(tag / 8, tag % 8, fieldData.value), next - start)
  {
    hide EncodeVarint, DecodeVarint, WrapInt;
    ghost var d, t := data[start..], i - start;
    assert data[i..] == Drop(d, t);
    panics, fieldData, next := false, None, i;
    var wire := tag % 8;
    if wire == WIRE_VARINT {
      var v := DecodeVarint(data[i..]);
      var size := VarintSize(v);
      if i + size > |data + spare| {
        panics := true;
      } else {
        assert (data + spare)[i..i + size] == (d + spare)[t..t + size];
        fieldData, next := Some((data + spare)[i..i + size]), i + size;
      }
    } else if wire == WIRE_BYTES {
      var length := DecodeVarint(data[i..]);
      DecodeVarintBound(data[i..]);
      ValueFits(data[i..]);
      var lengthSize := VarintSize(length);
      next := i + lengthSize;
      WrappedEnd(next, length, |data|);
      var end := WrapInt(next + WrapInt(length));
      if end <= |data| {
        if end < next {
          panics := true;
        } else {
          assert data[next..end] == d[next - start..end - start];
          fieldData, next := Some(data[next..end]), end;
        }
      }
    } else if wire == WIRE_FIXED64 {
      if i + 8 <= |data| {
        assert data[i..i + 8] == d[t..t + 8];
        fieldData, next := Some(data[i..i + 8]), i + 8;
      }
    } else if wire == WIRE_FIXED32 {
      if i + 4 <= |data| {
        assert data[i..i + 4] == d[t..t + 4];
        fieldData, next := Some(data[i..i + 4]), i + 4;
      }
    }
  }

  method DecodeProtobufRepeated(data: seq<byte>, spare: seq<byte>, targetNum: nat, targetWire: nat)
    returns (result: Option<seq<seq<byte>>>, ghost passes: nat)
    requires |data| <= MAX_ALLOC
    ensures result == Repeated(data, spare, 0, targetNum, targetWire)
    ensures passes <= |data|
  {
    hide EncodeVarint, DecodeVarint, Repeated, Prepend, SlicePass;
    var results: seq<seq<byte>> := [];
    var i := 0;
    passes := 0;
    LoopEnds(data, spare, targetNum, targetWire);
    while i < |data|
      invariant passes <= i && passes <= |data|
      invariant Repeated(data, spare, 0, targetNum, targetWire)
             == Prepend(results, Repeated(Drop(data, i), spare, i, targetNum, targetWire))
    {
      AfterSlicePass(data, spare, i, targetNum, targetWire, results);
      StopOnZeroTag(data[i..], spare, i);
      passes := passes + 1;
      var tag := DecodeVarint(data[i..]);
      if tag == 0 {
        break;
      }
      VarintFits(data[i..]);
      var tagSize := VarintSize(tag);
      var panics, fieldData, next := SliceField(data, spare, i, tag, i + tagSize);
      if panics {
        return None, passes;
      }
      assert results + [] == results;
      if tag / 8 == targetNum && tag % 8 == targetWire && fieldData.Some? {
        results := results + [fieldData.value];
      }
      i := next;
    }
    return Some(results), passes;
  }
}
