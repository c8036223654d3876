/**
 The canonical encoding of everything that is signed or authenticated
 (internal/wire/wire.go), and when it can be decoded again.
*/
module Wire {
  import opened Basics
  import Overlay

  function Pow256(n: nat): (p: nat)
    ensures p > 0
  {
    if n == 0 then 1 else 256 * Pow256(n - 1)
  }

  /** The low n bytes of v, most significant first. */
  function BigEndian(v: nat, n: nat): (b: Bytes)
    ensures |b| == n
  {
    if n == 0 then [] else BigEndian(v / 256, n - 1) + [(v % 256) as byte]
  }

  function FromBigEndian(b: Bytes): nat {
    if b == [] then 0 else FromBigEndian(b[..|b| - 1]) * 256 + b[|b| - 1] as nat
  }

  lemma {:induction false} BigEndianRoundTrip(v: nat, n: nat)
    requires v < Pow256(n)
    ensures FromBigEndian(BigEndian(v, n)) == v
  {
    if n > 0 {
      BigEndianRoundTrip(v / 256, n - 1);
      assert BigEndian(v, n)[..n - 1] == BigEndian(v / 256, n - 1);
    }
  }

  /** The i-th byte counts what is left above the bytes after it: the most significant comes first. */
  lemma {:induction false} BigEndianAt(v: nat, n: nat, i: nat)
    requires i < n
    ensures BigEndian(v, n)[i] as nat == v / Pow256(n - 1 - i) % 256
  {
    if i < n - 1 {
      BigEndianAt(v / 256, n - 1, i);
      assert BigEndian(v, n)[i] == BigEndian(v / 256, n - 1)[i];
      DivideTwice(v, Pow256(n - 2 - i));
    }
  }

  lemma DivideTwice(v: nat, p: nat)
    requires p > 0
    ensures v / 256 / p == v / (256 * p)
  {
    var q, r := v / 256, v % 256;
    var x, y := q / p, q % p;
    assert v == 256 * q + r && q == p * x + y;
    assert 256 * (p * x + y) + r == (256 * p) * x + (256 * y + r);
    assert (256 * p) * x == x * (256 * p);
    Overlay.DivisionIsUnique(x, 256 * y + r, 256 * p);
  }

  lemma {:induction false} FromBigEndianBound(b: Bytes)
    ensures FromBigEndian(b) < Pow256(|b|)
  {
    if b != [] {
      FromBigEndianBound(b[..|b| - 1]);
    }
  }

  /** binary.BigEndian.AppendUint32(nil, uint32(n)): the conversion drops the high bits. */
  function U32(n: nat): (b: Bytes)
    ensures |b| == 4
  {
    BigEndian(n % TWO_TO_THE_32, 4)
  }

  lemma U32RoundTrip(n: nat)
    ensures FromBigEndian(U32(n)) == n % TWO_TO_THE_32
  {
    assert Pow256(4) == TWO_TO_THE_32;
    BigEndianRoundTrip(n % TWO_TO_THE_32, 4);
  }

  function EncodeFields(fields: seq<Bytes>): Bytes {
    if fields == [] then [] else U32(|fields[0]|) + fields[0] + EncodeFields(fields[1..])
  }

  /** The bytes Canonical produces. */
  function Encoding(domain: Bytes, fields: seq<Bytes>): Bytes {
    domain + [0] + EncodeFields(fields)
  }

  lemma {:induction false} EncodeFieldsAppend(fields: seq<Bytes>, f: Bytes)
    ensures EncodeFields(fields + [f]) == EncodeFields(fields) + U32(|f|) + f
  {
    if fields == [] {
      assert EncodeFields([f]) == U32(|f|) + f + EncodeFields([]);
    } else {
      assert (fields + [f])[1..] == fields[1..] + [f];
      EncodeFieldsAppend(fields[1..], f);
    }
  }

  method Canonical(domain: Bytes, fields: seq<Bytes>) returns (out: Bytes)
    ensures out == Encoding(domain, fields)
  {
    out := domain + [0];
    for i := 0 to |fields|
      invariant out == Encoding(domain, fields[..i])
    {
      assert fields[..i + 1] == fields[..i] + [fields[i]];
      EncodeFieldsAppend(fields[..i], fields[i]);
      out := out + U32(|fields[i]|);
      out := out + fields[i];
    }
    assert fields[..|fields|] == fields;
  }

  datatype Message = Message(domain: Bytes, fields: seq<Bytes>)

  /** A reader of the format: the length prefix says where each field ends. */
  function DecodeFields(b: Bytes): Option<seq<Bytes>>
    decreases |b|
  {
    if b == [] then Some([])
    else if |b| < 4 then None
    else
      var n := FromBigEndian(b[..4]);
      if |b| < 4 + n then None
      else
        var rest := DecodeFields(b[4 + n..]);
        if rest.None? then None else Some([b[4..4 + n]] + rest.value)
  }

  /** The domain ends at the first zero byte. */
  function Decode(b: Bytes): Option<Message>
    decreases |b|
  {
    if b == [] then None
    else if b[0] == 0 then
      var fields := DecodeFields(b[1..]);
      if fields.None? then None else Some(Message([], fields.value))
    else
      var rest := Decode(b[1..]);
      if rest.None? then None else Some(Message([b[0]] + rest.value.domain, rest.value.fields))
  }

  predicate ZeroFree(domain: Bytes) {
    forall i :: 0 <= i < |domain| ==> domain[i] != 0
  }

  predicate Short(fields: seq<Bytes>) {
    forall i :: 0 <= i < |fields| ==> |fields[i]| < TWO_TO_THE_32
  }

  lemma DecodeOneField(f: Bytes, rest: Bytes)
    requires |f| < TWO_TO_THE_32
    ensures DecodeFields(U32(|f|) + f + rest)
         == if DecodeFields(rest).None? then None else Some([f] + DecodeFields(rest).value)
  {
    var b, u := U32(|f|) + f + rest, U32(|f|);
    U32RoundTrip(|f|);
    assert b[..4] == u && b[4..4 + |f|] == f && b[4 + |f|..] == rest;
    assert FromBigEndian(b[..4]) == |f|;
  }

  lemma {:induction false} DecodeFieldsInverts(fields: seq<Bytes>)
    requires Short(fields)
    ensures DecodeFields(EncodeFields(fields)) == Some(fields)
  {
    if fields != [] {
      DecodeFieldsInverts(fields[1..]);
      DecodeOneField(fields[0], EncodeFields(fields[1..]));
      assert [fields[0]] + fields[1..] == fields;
    }
  }

  lemma {:induction false} DecodeFieldsAreShort(b: Bytes)
    ensures DecodeFields(b).Some? ==> Short(DecodeFields(b).value)
    decreases |b|
  {
    if |b| >= 4 {
      assert Pow256(4) == TWO_TO_THE_32;
      FromBigEndianBound(b[..4]);
      var n := FromBigEndian(b[..4]);
      if |b| >= 4 + n {
        DecodeFieldsAreShort(b[4 + n..]);
      }
    }
  }

  lemma {:induction false} DecodedIsPlain(b: Bytes)
    ensures Decode(b).Some? ==> ZeroFree(Decode(b).value.domain) && Short(Decode(b).value.fields)
    decreases |b|
  {
    if b != [] {
      DecodeFieldsAreShort(b[1..]);
      DecodedIsPlain(b[1..]);
    }
  }

  lemma {:induction false} DecodeInverts(domain: Bytes, fields: seq<Bytes>)
    requires ZeroFree(domain) && Short(fields)
    ensures Decode(Encoding(domain, fields)) == Some(Message(domain, fields))
  {
    var e := Encoding(domain, fields);
    if domain == [] {
      assert e[1..] == EncodeFields(fields);
      DecodeFieldsInverts(fields);
    } else {
      assert e[1..] == Encoding(domain[1..], fields);
      DecodeInverts(domain[1..], fields);
      assert [domain[0]] + domain[1..] == domain;
    }
  }

  /** The encoding is decodable exactly when the domain has no zero byte and every length fits its prefix. */
  lemma DecodableIff(domain: Bytes, fields: seq<Bytes>)
    ensures Decode(Encoding(domain, fields)) == Some(Message(domain, fields)) <==> ZeroFree(domain) && Short(fields)
  {
    DecodedIsPlain(Encoding(domain, fields));
    if ZeroFree(domain) && Short(fields) {
      DecodeInverts(domain, fields);
    }
  }

  /** Equal bytes mean equal kind and equal fields. */
  lemma EncodingIsInjective(d1: Bytes, f1: seq<Bytes>, d2: Bytes, f2: seq<Bytes>)
    requires ZeroFree(d1) && Short(f1) && ZeroFree(d2) && Short(f2)
    ensures Encoding(d1, f1) == Encoding(d2, f2) ==> d1 == d2 && f1 == f2
  {
    DecodeInverts(d1, f1);
    DecodeInverts(d2, f2);
  }

  function Zeros(n: nat): (z: Bytes)
    ensures |z| == n
  {
    seq(n, _ => 0)
  }

  lemma {:induction false} EmptyFieldsAreZeros(n: nat)
    ensures EncodeFields(seq(n, _ => [])) == Zeros(4 * n)
  {
    if n > 0 {
      var fields: seq<Bytes> := seq(n, _ => []);
      assert fields[1..] == seq(n - 1, _ => []);
      EmptyFieldsAreZeros(n - 1);
      assert U32(0) == Zeros(4) by { ZeroIsZeros(); }
    }
  }

  lemma ZeroIsZeros()
    ensures U32(0) == Zeros(4) && U32(TWO_TO_THE_32) == Zeros(4)
  {
    var b := BigEndian(0, 4);
    assert BigEndian(0, 1) == [0];
    assert BigEndian(0, 2) == [0, 0];
    assert BigEndian(0, 3) == [0, 0, 0];
    assert b == [0, 0, 0, 0];
  }

  /**
   Without the bound the encoding is ambiguous: the length of one field of 2^32 zero
   bytes is written as zero, so it encodes like 2^30 + 1 empty fields.
  */
  lemma LongFieldCollides(domain: Bytes)
    ensures Encoding(domain, [Zeros(TWO_TO_THE_32)]) == Encoding(domain, seq(0x4000_0001, _ => []))
  {
    EmptyFieldsAreZeros(0x4000_0001);
    ZeroIsZeros();
    var f := Zeros(TWO_TO_THE_32);
    assert EncodeFields([f]) == U32(|f|) + f + EncodeFields([]);
    assert EncodeFields([f]) == Zeros(4) + f;
    assert Zeros(4) + f == Zeros(4 * 0x4000_0001);
  }
}
