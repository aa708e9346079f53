/** Byte-level pieces of src/market_data/deserializers/binary.py: varints, little-endian
    integers and tagged fields. */
module Wire {
  import opened Options

  type byte = x: int | 0 <= x < 256
  type bytes = seq<byte>

  /** The DeserializationErrors. */
  datatype Fault =
    | TruncatedVarint | VarintOverflow | TruncatedField | BadText | BadSide | BadWireType | Incomplete
    | TooShort | OutOfBounds | MissingField | BadHeader

  datatype Result<+T> = Ok(value: T) | Error(fault: Fault) {
    predicate IsFailure() { Error? }

    function PropagateFailure<U>(): Result<U>
      requires Error?
    {
      Error(fault)
    }

    function Extract(): T
      requires Ok?
    {
      value
    }
  }

  // ---- varints: "Base 128 Varints" of the Protocol Buffers encoding specification ----

  function P128(k: nat): (r: nat)
    ensures r >= 1
  {
    if k == 0 then 1 else 128 * P128(k - 1)
  }

  /** Seven bits a byte, least significant first, the top bit set on all but the last. */
  function Varint(v: nat): (r: bytes)
    ensures r != []
  {
    if v < 128 then [v] else [128 + v % 128] + Varint(v / 128)
  }

  /** More than this many bytes are refused as an overflow. */
  const VARINT_BYTES := 11

  /** _decode_varint after k bytes with the value res so far; gives the value and the offset. */
  function ReadVarintFrom(data: bytes, offset: nat, res: nat, k: nat): (r: Result<(nat, nat)>)
    requires k < VARINT_BYTES
    ensures r.Ok? ==> offset < r.value.1 <= |data|
    decreases |data| - offset
  {
    if offset >= |data| then Error(TruncatedVarint)
    else
      var b := data[offset];
      var res' := res + (b % 128) * P128(k);
      if b < 128 then Ok((res', offset + 1))
      else if 7 * (k + 1) > 70 then Error(VarintOverflow)
      else ReadVarintFrom(data, offset + 1, res', k + 1)
  }

  function ReadVarint(data: bytes, offset: nat): (r: Result<(nat, nat)>)
    ensures r.Ok? ==> offset < r.value.1 <= |data|
  {
    ReadVarintFrom(data, offset, 0, 0)
  }

  /** part stands in data at offset. */
  predicate Stands(data: bytes, offset: nat, part: bytes) {
    offset + |part| <= |data| && data[offset..offset + |part|] == part
  }

  lemma StandsConcat(data: bytes, offset: nat, a: bytes, b: bytes)
    requires Stands(data, offset, a + b)
    ensures Stands(data, offset, a) && Stands(data, offset + |a|, b)
  {
    var s := data[offset..offset + |a + b|];
    assert s[..|a|] == a && s[|a|..] == b;
    assert data[offset..offset + |a|] == s[..|a|] && data[offset + |a|..offset + |a| + |b|] == s[|a|..];
  }

  lemma DigitSum(v: nat, res: nat, p: nat)
    ensures res + (v % 128) * p + (v / 128) * (128 * p) == res + v * p
  {
    assert v == v % 128 + 128 * (v / 128);
    assert v * p == (v % 128 + 128 * (v / 128)) * p;
  }

  /** Reading back a written varint gives its value and the offset after it, exactly when the
      value fits in eleven groups of seven bits. */
  lemma {:induction false} VarintFrom(data: bytes, offset: nat, v: nat, res: nat, k: nat)
    requires k < VARINT_BYTES && Stands(data, offset, Varint(v))
    ensures ReadVarintFrom(data, offset, res, k)
         == if v < P128(VARINT_BYTES - k) then Ok((res + v * P128(k), offset + |Varint(v)|)) else Error(VarintOverflow)
    decreases v
  {
    hide P128, ReadVarintFrom;
    var s := data[offset..offset + |Varint(v)|];
    assert s[0] == data[offset];
    NextGroup(v, res, k);
    ReadByte(data, offset, res, k);
    if v < 128 {
      assert v % 128 == v;
    } else {
      assert data[offset] % 128 == v % 128;
      StandsConcat(data, offset, [128 + v % 128], Varint(v / 128));
      if k + 1 < VARINT_BYTES {
        VarintFrom(data, offset + 1, v / 128, res + (v % 128) * P128(k), k + 1);
      }
    }
  }

  lemma ReadByte(data: bytes, offset: nat, res: nat, k: nat)
    requires k < VARINT_BYTES && offset < |data|
    ensures
      var b := data[offset];
      ReadVarintFrom(data, offset, res, k) ==
        if b < 128 then Ok((res + b * P128(k), offset + 1))
        else if k + 1 < VARINT_BYTES then ReadVarintFrom(data, offset + 1, res + (b % 128) * P128(k), k + 1)
        else Error(VarintOverflow)
  {
    hide P128;
    assert data[offset] < 128 ==> data[offset] % 128 == data[offset];
  }

  /** One group of seven bits less, in the value and in the room that is left. */
  lemma NextGroup(v: nat, res: nat, k: nat)
    requires k < VARINT_BYTES
    ensures v < 128 ==> v < P128(VARINT_BYTES - k)
    ensures v < P128(VARINT_BYTES - k) <==> v / 128 < P128(VARINT_BYTES - k - 1)
    ensures P128(0) == 1
    ensures res + (v % 128) * P128(k) + (v / 128) * P128(k + 1) == res + v * P128(k)
  {
    assert P128(VARINT_BYTES - k) == 128 * P128(VARINT_BYTES - k - 1);
    DigitSum(v, res, P128(k));
  }

  lemma VarintRoundTrip(data: bytes, offset: nat, v: nat)
    requires Stands(data, offset, Varint(v))
    ensures ReadVarint(data, offset)
         == if v < P128(VARINT_BYTES) then Ok((v, offset + |Varint(v)|)) else Error(VarintOverflow)
  {
    VarintFrom(data, offset, v, 0, 0);
  }

  const TWO77 := 0x2000_0000_0000_0000_0000

  /** Every value below 2^77, so every length and timestamp, fits. */
  lemma VarintRange()
    ensures P128(VARINT_BYTES) == TWO77
  {
    assert P128(5) == 0x8_0000_0000;
    assert P128(10) == 0x40_0000_0000_0000_0000 by {
      assert P128(6) == 128 * P128(5) && P128(7) == 128 * P128(6) && P128(8) == 128 * P128(7)
        && P128(9) == 128 * P128(8);
    }
  }

  const TWO64 := 0x1_0000_0000_0000_0000

  /** A negative value is shifted by 2^64 before it is written; one below -2^64 would stay
      negative, and the loop would not end. */
  function Wrapped(value: int): (r: nat)
    requires value >= -TWO64
  {
    if value < 0 then value + TWO64 else value
  }

  /** _encode_varint. */
  method EncodeVarint(value: int) returns (out: bytes)
    requires value >= -TWO64
    ensures out == Varint(Wrapped(value))
  {
    out := [];
    var v := value;
    if v < 0 {
      v := v + TWO64;
    }
    while v >= 128
      invariant v >= 0 && Varint(Wrapped(value)) == out + Varint(v)
    {
      out := out + [128 + v % 128];
      v := v / 128;
    }
    out := out + [v];
  }

  /** _decode_varint. */
  method DecodeVarint(data: bytes, offset0: nat) returns (r: Result<(nat, nat)>)
    ensures r == ReadVarint(data, offset0)
  {
    var offset: nat, res: nat, k: nat, p: nat := offset0, 0, 0, 1;
    while offset < |data|
      invariant k < VARINT_BYTES && p == P128(k)
      invariant ReadVarint(data, offset0) == ReadVarintFrom(data, offset, res, k)
    {
      var b := data[offset];
      offset := offset + 1;
      res := res + (b % 128) * p;
      if b < 128 {
        return Ok((res, offset));
      }
      if 7 * (k + 1) > 70 {
        return Error(VarintOverflow);
      }
      k, p := k + 1, 128 * p;
    }
    r := Error(TruncatedVarint);
  }

  // ---- fixed-width integers ----

  function P256(k: nat): (r: nat)
    ensures r >= 1
  {
    if k == 0 then 1 else 256 * P256(k - 1)
  }

  /** v in width bytes, least significant first. */
  function LE(v: nat, width: nat): (r: bytes)
    ensures |r| == width
  {
    if width == 0 then [] else [v % 256] + LE(v / 256, width - 1)
  }

  function FromLE(b: bytes): (r: nat)
    ensures r < P256(|b|)
  {
    if b == [] then 0 else b[0] + 256 * FromLE(b[1..])
  }

  lemma {:induction false} LERoundTrip(v: nat, width: nat)
    requires v < P256(width)
    ensures FromLE(LE(v, width)) == v
  {
    if width > 0 {
      LERoundTrip(v / 256, width - 1);
      assert LE(v, width)[1..] == LE(v / 256, width - 1);
    }
  }

  /** Reading width bytes at offset, as struct.unpack_from does inside its bounds. */
  function Read(data: bytes, offset: nat, width: nat): nat
    requires offset + width <= |data|
  {
    FromLE(data[offset..offset + width])
  }

  lemma ReadBack(data: bytes, offset: nat, v: nat, width: nat)
    requires Stands(data, offset, LE(v, width)) && v < P256(width)
    ensures Read(data, offset, width) == v
  {
    LERoundTrip(v, width);
  }

  /** Signed integers: two's complement in width bytes. */
  function Signed(v: nat, width: nat): int {
    if 2 * v >= P256(width) then v - P256(width) else v
  }

  // ---- tagged fields ----

  /** One field of a protobuf message, by wire type 0, 1, 2 and 5. */
  datatype Field =
    | VarintField(num: nat, v: nat)
    | Fixed64(num: nat, raw: bytes)
    | Delimited(num: nat, raw: bytes)
    | Fixed32(num: nat, raw: bytes)

  predicate WellSized(f: Field) {
    && f.num * 8 + 7 < P128(VARINT_BYTES)
    && match f
       case VarintField(_, v) => v < P128(VARINT_BYTES)
       case Fixed64(_, raw) => |raw| == 8
       case Delimited(_, raw) => |raw| < P128(VARINT_BYTES)
       case Fixed32(_, raw) => |raw| == 4
  }

  function WireType(f: Field): nat {
    match f
    case VarintField(_, _) => 0
    case Fixed64(_, _) => 1
    case Delimited(_, _) => 2
    case Fixed32(_, _) => 5
  }

  function Payload(f: Field): bytes {
    match f
    case VarintField(_, v) => Varint(v)
    case Delimited(_, raw) => Varint(|raw|) + raw
    case Fixed64(_, raw) => raw
    case Fixed32(_, raw) => raw
  }

  function WriteField(f: Field): (r: bytes)
    ensures r != []
  {
    Varint(f.num * 8 + WireType(f)) + Payload(f)
  }

  /** One round of the decoding loops: a tag and its payload, and the offset after them. */
  function ReadField(data: bytes, offset: nat): (r: Result<(Field, nat)>)
    ensures r.Ok? ==> offset < r.value.1 <= |data|
  {
    var (tag, p) :- ReadVarint(data, offset);
    var num, wire := tag / 8, tag % 8;
    if wire == 0 then
      var (v, q) :- ReadVarint(data, p);
      Ok((VarintField(num, v), q))
    else if wire == 1 then
      if p + 8 > |data| then Error(TruncatedField) else Ok((Fixed64(num, data[p..p + 8]), p + 8))
    else if wire == 2 then
      var (n, q) :- ReadVarint(data, p);
      if q + n > |data| then Error(TruncatedField) else Ok((Delimited(num, data[q..q + n]), q + n))
    else if wire == 5 then
      if p + 4 > |data| then Error(TruncatedField) else Ok((Fixed32(num, data[p..p + 4]), p + 4))
    else Error(BadWireType)
  }

  lemma TagParts(num: nat, wire: nat)
    requires wire < 8
    ensures (num * 8 + wire) / 8 == num && (num * 8 + wire) % 8 == wire
  {
  }

  lemma TagRead(data: bytes, offset: nat, f: Field)
    requires WellSized(f) && Stands(data, offset, WriteField(f))
    ensures ReadVarint(data, offset) == Ok((f.num * 8 + WireType(f), offset + |Varint(f.num * 8 + WireType(f))|))
    ensures Stands(data, offset + |Varint(f.num * 8 + WireType(f))|, Payload(f))
  {
    hide Varint, ReadVarint, P128, Payload, Stands;
    var tag := f.num * 8 + WireType(f);
    StandsConcat(data, offset, Varint(tag), Payload(f));
    VarintRoundTrip(data, offset, tag);
  }

  lemma DelimitedRead(data: bytes, p: nat, raw: bytes)
    requires |raw| < P128(VARINT_BYTES) && Stands(data, p, Varint(|raw|) + raw)
    ensures ReadVarint(data, p) == Ok((|raw|, p + |Varint(|raw|)|))
    ensures Stands(data, p + |Varint(|raw|)|, raw)
  {
    hide Varint, ReadVarint, P128;
    StandsConcat(data, p, Varint(|raw|), raw);
    VarintRoundTrip(data, p, |raw|);
  }

  /** A written field reads back as itself, whatever surrounds it. */
  lemma FieldRoundTrip(data: bytes, offset: nat, f: Field)
    requires WellSized(f) && Stands(data, offset, WriteField(f))
    ensures ReadField(data, offset) == Ok((f, offset + |WriteField(f)|))
  {
    hide Varint, P128, ReadVarint;
    TagRead(data, offset, f);
    TagParts(f.num, WireType(f));
    var p := offset + |Varint(f.num * 8 + WireType(f))|;
    if f.VarintField? {
      VarintRoundTrip(data, p, f.v);
    } else if f.Delimited? {
      DelimitedRead(data, p, f.raw);
    }
  }

}
