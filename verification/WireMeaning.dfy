/** The bytes of varints and fields, and what the field reader answers when a written field is cut
    short or has a wire type it does not know. */
module WireMeaning {
  import opened Wire

  /** Byte i of a varint carries the i-th seven bits of the number, lowest first, and says whether
      another byte follows. */
  lemma {:induction false} VarintDigits(v: nat, i: nat)
    requires i < |Varint(v)|
    ensures Varint(v)[i] == v / P128(i) % 128 + if i + 1 < |Varint(v)| then 128 else 0
    ensures i + 1 == |Varint(v)| ==> v / P128(i) < 128 && (i > 0 ==> v / P128(i) > 0)
    decreases i
  {
    assert P128(0) == 1;
    if i > 0 {
      VarintDigits(v / 128, i - 1);
      DivideTwice(v, P128(i - 1));
    }
  }

  lemma DivideTwice(v: nat, b: nat)
    requires b > 0
    ensures v / 128 / b == v / (128 * b)
  {
    var m := v / 128;
    var q := m / b;
    Parts(m, b);
    assert 128 * (b * q) == (128 * b) * q;
    Quotient(v, 128 * b, q, v - 128 * (b * q));
  }

  lemma Parts(m: nat, b: nat)
    requires b > 0
    ensures b * (m / b) <= m < b * (m / b) + b
  {
  }

  lemma Quotient(v: nat, d: nat, q: nat, r: nat)
    requires d > 0 && v == d * q + r && r < d
    ensures v / d == q
  {
    var e := v / d;
    assert d * e <= v < d * e + d;
    if e < q {
      AtLeast(d, q - e);
    } else if e > q {
      AtLeast(d, e - q);
    }
  }

  lemma AtLeast(d: nat, k: nat)
    requires k > 0
    ensures d * k >= d
  {
    assert d * k == d * (k - 1) + d;
  }

  /** The tag is eight times the field number plus 0 for a varint, 1 for eight bytes, 2 for a length
      and as many bytes, and 5 for four bytes. */
  lemma FieldLayout(num: nat, v: nat, raw: bytes)
    ensures WriteField(VarintField(num, v)) == Varint(8 * num) + Varint(v)
    ensures WriteField(Fixed64(num, raw)) == Varint(8 * num + 1) + raw
    ensures WriteField(Delimited(num, raw)) == Varint(8 * num + 2) + Varint(|raw|) + raw
    ensures WriteField(Fixed32(num, raw)) == Varint(8 * num + 5) + raw
  {
    hide Varint;
    assert Varint(8 * num + 2) + (Varint(|raw|) + raw) == Varint(8 * num + 2) + Varint(|raw|) + raw;
  }

  lemma {:induction false} VarintLength(v: nat, m: nat)
    requires m > 0 && v < P128(m)
    ensures |Varint(v)| <= m
    decreases v
  {
    if v >= 128 {
      assert P128(0) == 1 && P128(m) == 128 * P128(m - 1);
      if m > 1 {
        VarintLength(v / 128, m - 1);
      }
    }
  }

  /** The data ends with the first n bytes of the part. */
  predicate CutOff(data: bytes, offset: nat, part: bytes, n: nat) {
    n < |part| && offset <= |data| && data[offset..] == part[..n]
  }

  /** A varint cut short is truncated, never a smaller number. */
  lemma {:induction false} CutVarintFrom(data: bytes, offset: nat, v: nat, n: nat, res: nat, k: nat)
    requires CutOff(data, offset, Varint(v), n) && k + |Varint(v)| <= VARINT_BYTES
    ensures ReadVarintFrom(data, offset, res, k) == Error(TruncatedVarint)
    decreases n
  {
    hide P128;
    if n > 0 {
      var rest := Varint(v / 128);
      assert v >= 128 && Varint(v) == [128 + v % 128] + rest;
      assert data[offset] == data[offset..][0] == 128 + v % 128;
      assert data[offset + 1..] == data[offset..][1..] == rest[..n - 1];
      CutVarintFrom(data, offset + 1, v / 128, n - 1, res + (data[offset] % 128) * P128(k), k + 1);
    }
  }

  lemma CutVarint(data: bytes, offset: nat, v: nat, n: nat)
    requires v < P128(VARINT_BYTES) && CutOff(data, offset, Varint(v), n)
    ensures ReadVarint(data, offset) == Error(TruncatedVarint)
  {
    VarintLength(v, VARINT_BYTES);
    CutVarintFrom(data, offset, v, n, 0, 0);
  }

  /** The number behind a tag: the value, or the length of the bytes to come. */
  function Number(f: Field): bytes {
    match f
    case VarintField(_, v) => Varint(v)
    case Delimited(_, raw) => Varint(|raw|)
    case _ => []
  }

  /** The cut lies behind the first part, and so in the second. */
  lemma CutBehind(data: bytes, offset: nat, a: bytes, b: bytes, n: nat)
    requires CutOff(data, offset, a + b, n)
    ensures n < |a| ==> CutOff(data, offset, a, n)
    ensures n >= |a| ==> Stands(data, offset, a) && CutOff(data, offset + |a|, b, n - |a|)
  {
    if n < |a| {
      assert (a + b)[..n] == a[..n];
    } else {
      assert data[offset..][..|a|] == (a + b)[..n][..|a|] == a;
      assert data[offset..offset + |a|] == data[offset..][..|a|];
      assert data[offset + |a|..] == data[offset..][|a|..] == (a + b)[..n][|a|..] == b[..n - |a|];
    }
  }

  /** Wherever a written field is cut short, the reader reports it: as a truncated varint within the
      tag or the number behind it, and as a truncated field within the bytes. */
  lemma CutField(data: bytes, offset: nat, f: Field, n: nat)
    requires WellSized(f) && CutOff(data, offset, WriteField(f), n)
    ensures ReadField(data, offset)
         == Error(if n < |Varint(f.num * 8 + WireType(f))| + |Number(f)| then TruncatedVarint else TruncatedField)
  {
    hide Varint, ReadVarint, P128, CutOff;
    var tag := f.num * 8 + WireType(f);
    var t := Varint(tag);
    TagParts(f.num, WireType(f));
    CutBehind(data, offset, t, Payload(f), n);
    if n < |t| {
      CutVarint(data, offset, tag, n);
    } else {
      VarintRoundTrip(data, offset, tag);
      CutPayload(data, offset + |t|, f, n - |t|);
    }
  }

  lemma CutPayload(data: bytes, p: nat, f: Field, n: nat)
    requires WellSized(f) && CutOff(data, p, Payload(f), n)
    ensures p + n == |data| && n < |Payload(f)|
    ensures f.VarintField? ==> ReadVarint(data, p) == Error(TruncatedVarint)
    ensures f.Delimited? ==>
      if n < |Number(f)| then ReadVarint(data, p) == Error(TruncatedVarint)
      else ReadVarint(data, p) == Ok((|f.raw|, p + |Number(f)|))
  {
    hide Varint, ReadVarint, P128;
    assert |data[p..]| == n;
    if f.VarintField? {
      CutVarint(data, p, f.v, n);
    } else if f.Delimited? {
      CutBehind(data, p, Number(f), f.raw, n);
      if n < |Number(f)| {
        CutVarint(data, p, |f.raw|, n);
      } else {
        VarintRoundTrip(data, p, |f.raw|);
      }
    }
  }

  /** Four of the eight wire types are refused. */
  lemma UnknownWireType(data: bytes, offset: nat, num: nat, wire: nat)
    requires wire < 8 && wire !in {0, 1, 2, 5} && num * 8 + wire < P128(VARINT_BYTES)
    requires Stands(data, offset, Varint(num * 8 + wire))
    ensures ReadField(data, offset) == Error(BadWireType)
  {
    hide Varint, ReadVarint, P128;
    VarintRoundTrip(data, offset, num * 8 + wire);
    TagParts(num, wire);
  }
}
