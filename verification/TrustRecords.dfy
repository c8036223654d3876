/**
 Signed records (internal/trust/records.go). Ed25519 is a pair of function values:
 nothing is assumed of them except, where a lemma says so, that an honest signature
 verifies.
*/
module TrustRecords {
  import opened Basics
  import opened Wire
  import opened Overlay

  /** verify(key, message, signature) */
  type Verifier = (PublicKey, Bytes, Bytes) -> bool

  /** A node's key material: its public key and what it does to a message. */
  datatype Identity = Identity(public: PublicKey, sign: Bytes -> Bytes)

  /** Signatures made with the key verify. */
  ghost predicate Honest(verify: Verifier, id: Identity) {
    forall m: Bytes :: verify(id.public, m, id.sign(m))
  }

  datatype Admission = Admission(
    identity: PublicKey, name: Bytes, host: uint64, admitter: PublicKey, issuedAt: int64, signature: Bytes)

  datatype Revocation = Revocation(
    identity: PublicKey, revoker: PublicKey, issuedAt: int64, signature: Bytes)

  const ROOT_HOST: uint64 := 1

  function Ascii(s: string): (b: Bytes)
    requires forall i :: 0 <= i < |s| ==> 0 as char < s[i] < 128 as char
    ensures |b| == |s| && ZeroFree(b)
  {
    seq(|s|, i requires 0 <= i < |s| => s[i] as int as byte)
  }

  const ADMISSION_DOMAIN := Ascii("cheesecloth/admission/v2")
  const REVOCATION_DOMAIN := Ascii("cheesecloth/revocation/v1")
  const META_DOMAIN := Ascii("cheesecloth/meta/v1")
  const TRANSCRIPT_DOMAIN := Ascii("cheesecloth/enrol/transcript/v4")

  function U64(v: uint64): (b: Bytes)
    ensures |b| == 8
  {
    BigEndian(v, 8)
  }

  /** uint64(v) of a signed number is its two's complement. */
  function I64(v: int64): (b: Bytes)
    ensures |b| == 8
  {
    U64(if v < 0 then v + TWO_TO_THE_64 else v)
  }

  function AdmissionFields(a: Admission): seq<Bytes> {
    [a.identity.raw, a.name, U64(a.host), a.admitter.raw, I64(a.issuedAt)]
  }

  function AdmissionBytes(a: Admission): Bytes {
    Encoding(ADMISSION_DOMAIN, AdmissionFields(a))
  }

  function RevocationFields(r: Revocation): seq<Bytes> {
    [r.identity.raw, r.revoker.raw, I64(r.issuedAt)]
  }

  function RevocationBytes(r: Revocation): Bytes {
    Encoding(REVOCATION_DOMAIN, RevocationFields(r))
  }

  datatype RecordError = NoName | NoSlot | BadSignature | UntrustedRoot

  function ValidateAdmission(verify: Verifier, a: Admission): Option<RecordError> {
    if a.name == [] then Some(NoName)
    else if a.host == 0 then Some(NoSlot)
    else if !verify(a.admitter, AdmissionBytes(a), a.signature) then Some(BadSignature)
    else None
  }

  function ValidateRevocation(verify: Verifier, r: Revocation): Option<RecordError> {
    if !verify(r.revoker, RevocationBytes(r), r.signature) then Some(BadSignature) else None
  }

  function Admit(admitter: Identity, identity: PublicKey, name: Bytes, host: uint64, now: int64): Admission {
    var a := Admission(identity, name, host, admitter.public, now, []);
    a.(signature := admitter.sign(AdmissionBytes(a)))
  }

  function SelfAdmit(id: Identity, name: Bytes, now: int64): Admission {
    Admit(id, id.public, name, ROOT_HOST, now)
  }

  function Revoke(revoker: Identity, identity: PublicKey, now: int64): Revocation {
    var r := Revocation(identity, revoker.public, now, []);
    r.(signature := revoker.sign(RevocationBytes(r)))
  }

  /** What an honest node signs is accepted, whatever it says, except an empty name or slot zero. */
  lemma HonestRecordsValidate(verify: Verifier, id: Identity, subject: PublicKey, name: Bytes, host: uint64, now: int64)
    requires Honest(verify, id)
    ensures ValidateAdmission(verify, Admit(id, subject, name, host, now)).None? <==> name != [] && host != 0
    ensures ValidateRevocation(verify, Revoke(id, subject, now)).None?
  {
    var a := Admit(id, subject, name, host, now);
    assert AdmissionBytes(a) == AdmissionBytes(a.(signature := []));
    var r := Revoke(id, subject, now);
    assert RevocationBytes(r) == RevocationBytes(r.(signature := []));
  }

  // --- gossiped metadata ---

  /** Addr.AsSlice(). */
  function AsSlice(a: Addr): (b: Bytes)
    ensures |b| <= 16
  {
    match a case NoAddr => [] case V4(v) => BigEndian(v, 4) case V6(v) => BigEndian(v, 16)
  }

  /** byte(p.Bits()): -1, of a prefix that is not valid, becomes 255. */
  function BitsByte(p: Prefix): byte {
    (p.bits % 256) as byte
  }

  function MetaFields(name: Bytes, overlay: Addr, wgKey: Bytes, allowed: seq<Prefix>): seq<Bytes> {
    [name, AsSlice(overlay), wgKey] +
      seq(|allowed|, i requires 0 <= i < |allowed| => AsSlice(allowed[i].addr) + [BitsByte(allowed[i])])
  }

  function MetaBytes(name: Bytes, overlay: Addr, wgKey: Bytes, allowed: seq<Prefix>): Bytes {
    Encoding(META_DOMAIN, MetaFields(name, overlay, wgKey, allowed))
  }

  method MetaDigest(name: Bytes, overlay: Addr, wgKey: Bytes, allowed: seq<Prefix>) returns (digest: Bytes)
    ensures digest == MetaBytes(name, overlay, wgKey, allowed)
  {
    var fields := [name, AsSlice(overlay), wgKey];
    for i := 0 to |allowed|
      invariant fields == MetaFields(name, overlay, wgKey, allowed[..i])
    {
      fields := fields + [AsSlice(allowed[i].addr) + [BitsByte(allowed[i])]];
    }
    assert allowed[..|allowed|] == allowed;
    digest := Canonical(META_DOMAIN, fields);
  }

  // --- a reader of the format finds the fields, in this order ---

  lemma NumbersReadBack(h: uint64, t: int64)
    ensures FromBigEndian(U64(h)) == h
    ensures FromBigEndian(I64(t)) == t % TWO_TO_THE_64
  {
    Pow256Values();
    BigEndianRoundTrip(h, 8);
    BigEndianRoundTrip(if t < 0 then t + TWO_TO_THE_64 else t, 8);
  }

  lemma AdmissionReadsBack(a: Admission)
    requires |a.name| < TWO_TO_THE_32
    ensures var m := Decode(AdmissionBytes(a));
      && m.Some? && m.value.domain == ADMISSION_DOMAIN && |m.value.fields| == 5
      && m.value.fields[0] == a.identity.raw && m.value.fields[1] == a.name && m.value.fields[3] == a.admitter.raw
      && FromBigEndian(m.value.fields[2]) == a.host && FromBigEndian(m.value.fields[4]) == a.issuedAt % TWO_TO_THE_64
  {
    DecodeInverts(ADMISSION_DOMAIN, AdmissionFields(a));
    NumbersReadBack(a.host, a.issuedAt);
  }

  lemma RevocationReadsBack(r: Revocation)
    ensures var m := Decode(RevocationBytes(r));
      && m.Some? && m.value.domain == REVOCATION_DOMAIN && |m.value.fields| == 3
      && m.value.fields[0] == r.identity.raw && m.value.fields[1] == r.revoker.raw
      && FromBigEndian(m.value.fields[2]) == r.issuedAt % TWO_TO_THE_64
  {
    DecodeInverts(REVOCATION_DOMAIN, RevocationFields(r));
    NumbersReadBack(0, r.issuedAt);
  }

  /** The bytes are the address's, most significant first. */
  predicate Spells(b: Bytes, a: Addr) {
    8 * |b| == BitLen(a) && FromBigEndian(b) == Number(a)
  }

  lemma AddressReadsBack(a: Addr)
    ensures Spells(AsSlice(a), a)
  {
    Pow256Values();
    match a
    case NoAddr =>
    case V4(v) => BigEndianRoundTrip(v, 4);
    case V6(v) => BigEndianRoundTrip(v, 16);
  }

  /** Signed metadata names, in this order, the node, its address, its key, and each network with its length. */
  lemma MetaReadsBack(name: Bytes, overlay: Addr, wgKey: Bytes, allowed: seq<Prefix>)
    requires |name| < TWO_TO_THE_32 && |wgKey| < TWO_TO_THE_32
    ensures var m := Decode(MetaBytes(name, overlay, wgKey, allowed));
      && m.Some? && m.value.domain == META_DOMAIN && |m.value.fields| == 3 + |allowed|
      && m.value.fields[0] == name && Spells(m.value.fields[1], overlay) && m.value.fields[2] == wgKey
      && forall i :: 0 <= i < |allowed| ==>
           var f := m.value.fields[3 + i];
           f != [] && Spells(f[..|f| - 1], allowed[i].addr) && f[|f| - 1] as int == allowed[i].bits % 256
  {
    var fields := MetaFields(name, overlay, wgKey, allowed);
    DecodeInverts(META_DOMAIN, fields);
    AddressReadsBack(overlay);
    forall i | 0 <= i < |allowed|
      ensures var f := fields[3 + i];
        f != [] && Spells(f[..|f| - 1], allowed[i].addr) && f[|f| - 1] as int == allowed[i].bits % 256
    {
      AddressReadsBack(allowed[i].addr);
      var f := fields[3 + i];
      assert f[..|f| - 1] == AsSlice(allowed[i].addr);
    }
  }

  /** What Admit and Revoke make is about whom they were asked to make it about, and signed over just that. */
  lemma SignedAsAsked(id: Identity, subject: PublicKey, name: Bytes, host: uint64, now: int64)
    ensures var a := Admit(id, subject, name, host, now);
      && a.identity == subject && a.name == name && a.host == host && a.admitter == id.public && a.issuedAt == now
      && a.signature == id.sign(AdmissionBytes(a))
    ensures var r := Revoke(id, subject, now);
      && r.identity == subject && r.revoker == id.public && r.issuedAt == now
      && r.signature == id.sign(RevocationBytes(r))
  {
    var a := Admit(id, subject, name, host, now);
    assert AdmissionBytes(a) == AdmissionBytes(a.(signature := []));
    var r := Revoke(id, subject, now);
    assert RevocationBytes(r) == RevocationBytes(r.(signature := []));
  }

  // --- what is signed determines the record ---

  lemma Pow256Values()
    ensures Pow256(4) == TWO_TO_THE_32 && Pow256(8) == TWO_TO_THE_64 && Pow256(16) == TWO_TO_THE_128
  {
    assert Pow256(8) == 256 * 256 * 256 * 256 * Pow256(4);
    assert Pow256(12) == 256 * 256 * 256 * 256 * Pow256(8);
    assert Pow256(16) == 256 * 256 * 256 * 256 * Pow256(12);
  }

  lemma NumbersAreInjective(h1: uint64, h2: uint64, t1: int64, t2: int64)
    ensures U64(h1) == U64(h2) ==> h1 == h2
    ensures I64(t1) == I64(t2) ==> t1 == t2
  {
    Pow256Values();
    BigEndianRoundTrip(h1, 8);
    BigEndianRoundTrip(h2, 8);
    BigEndianRoundTrip(if t1 < 0 then t1 + TWO_TO_THE_64 else t1, 8);
    BigEndianRoundTrip(if t2 < 0 then t2 + TWO_TO_THE_64 else t2, 8);
  }

  /** Two admissions with the same signed bytes differ at most in the signature. */
  lemma AdmissionBytesDetermine(a: Admission, b: Admission)
    requires |a.name| < TWO_TO_THE_32 && |b.name| < TWO_TO_THE_32
    ensures AdmissionBytes(a) == AdmissionBytes(b) ==> a == b.(signature := a.signature)
  {
    if AdmissionBytes(a) == AdmissionBytes(b) {
      var f, g := AdmissionFields(a), AdmissionFields(b);
      EncodingIsInjective(ADMISSION_DOMAIN, f, ADMISSION_DOMAIN, g);
      assert f[0] == g[0] && f[1] == g[1] && f[2] == g[2] && f[3] == g[3] && f[4] == g[4];
      NumbersAreInjective(a.host, b.host, a.issuedAt, b.issuedAt);
    }
  }

  lemma RevocationBytesDetermine(r: Revocation, q: Revocation)
    ensures RevocationBytes(r) == RevocationBytes(q) ==> r == q.(signature := r.signature)
  {
    if RevocationBytes(r) == RevocationBytes(q) {
      var f, g := RevocationFields(r), RevocationFields(q);
      EncodingIsInjective(REVOCATION_DOMAIN, f, REVOCATION_DOMAIN, g);
      assert f[0] == g[0] && f[1] == g[1] && f[2] == g[2];
      NumbersAreInjective(0, 0, r.issuedAt, q.issuedAt);
    }
  }

  lemma AsSliceIsInjective(a: Addr, b: Addr)
    ensures AsSlice(a) == AsSlice(b) ==> a == b
  {
    Pow256Values();
    if AsSlice(a) == AsSlice(b) {
      match (a, b)
      case (V4(v), V4(w)) => BigEndianRoundTrip(v, 4); BigEndianRoundTrip(w, 4);
      case (V6(v), V6(w)) => BigEndianRoundTrip(v, 16); BigEndianRoundTrip(w, 16);
      case _ =>
    }
  }

  lemma PrefixFieldIsInjective(p: Prefix, q: Prefix)
    ensures AsSlice(p.addr) + [BitsByte(p)] == AsSlice(q.addr) + [BitsByte(q)] ==> p == q
  {
    var x, y := AsSlice(p.addr) + [BitsByte(p)], AsSlice(q.addr) + [BitsByte(q)];
    if x == y {
      assert x[..|x| - 1] == AsSlice(p.addr) && y[..|y| - 1] == AsSlice(q.addr);
      AsSliceIsInjective(p.addr, q.addr);
      assert x[|x| - 1] == y[|y| - 1];
    }
  }

  /** A node's signed metadata determines its name, address, key and every advertised network, in order. */
  lemma MetaBytesDetermine(n1: Bytes, o1: Addr, k1: Bytes, p1: seq<Prefix>, n2: Bytes, o2: Addr, k2: Bytes,
      p2: seq<Prefix>)
    requires |n1| < TWO_TO_THE_32 && |n2| < TWO_TO_THE_32 && |k1| < TWO_TO_THE_32 && |k2| < TWO_TO_THE_32
    ensures MetaBytes(n1, o1, k1, p1) == MetaBytes(n2, o2, k2, p2) ==> n1 == n2 && o1 == o2 && k1 == k2 && p1 == p2
  {
    if MetaBytes(n1, o1, k1, p1) == MetaBytes(n2, o2, k2, p2) {
      var f, g := MetaFields(n1, o1, k1, p1), MetaFields(n2, o2, k2, p2);
      EncodingIsInjective(META_DOMAIN, f, META_DOMAIN, g);
      assert f[0] == g[0] && f[1] == g[1] && f[2] == g[2] && |p1| == |p2|;
      AsSliceIsInjective(o1, o2);
      forall i | 0 <= i < |p1| ensures p1[i] == p2[i] {
        assert f[i + 3] == g[i + 3];
        PrefixFieldIsInjective(p1[i], p2[i]);
      }
    }
  }

  /** transcript(j, m, nJ, nM, name) of the enrolment exchange. */
  function TranscriptBytes(j: PublicKey, m: PublicKey, nJ: Bytes, nM: Bytes, name: Bytes): Bytes {
    Encoding(TRANSCRIPT_DOMAIN, [j.raw, m.raw, nJ, nM, name])
  }

  lemma TranscriptReadsBack(j: PublicKey, m: PublicKey, nJ: Bytes, nM: Bytes, name: Bytes)
    requires Short([nJ, nM, name])
    ensures Decode(TranscriptBytes(j, m, nJ, nM, name)) ==
      Some(Message(TRANSCRIPT_DOMAIN, [j.raw, m.raw, nJ, nM, name]))
  {
    var given := [nJ, nM, name];
    assert |given[0]| < TWO_TO_THE_32 && |given[1]| < TWO_TO_THE_32 && |given[2]| < TWO_TO_THE_32;
    DecodeInverts(TRANSCRIPT_DOMAIN, [j.raw, m.raw, nJ, nM, name]);
  }

  lemma TranscriptBytesDetermine(j1: PublicKey, m1: PublicKey, a1: Bytes, b1: Bytes, n1: Bytes,
                                 j2: PublicKey, m2: PublicKey, a2: Bytes, b2: Bytes, n2: Bytes)
    requires Short([a1, b1, n1, a2, b2, n2])
    ensures TranscriptBytes(j1, m1, a1, b1, n1) == TranscriptBytes(j2, m2, a2, b2, n2)
        ==> j1 == j2 && m1 == m2 && a1 == a2 && b1 == b2 && n1 == n2
  {
    var all := [a1, b1, n1, a2, b2, n2];
    assert |all[0]| < TWO_TO_THE_32 && |all[1]| < TWO_TO_THE_32 && |all[2]| < TWO_TO_THE_32;
    assert |all[3]| < TWO_TO_THE_32 && |all[4]| < TWO_TO_THE_32 && |all[5]| < TWO_TO_THE_32;
    var f, g := [j1.raw, m1.raw, a1, b1, n1], [j2.raw, m2.raw, a2, b2, n2];
    EncodingIsInjective(TRANSCRIPT_DOMAIN, f, TRANSCRIPT_DOMAIN, g);
    if f == g {
      assert f[0] == g[0] && f[1] == g[1] && f[2] == g[2] && f[3] == g[3] && f[4] == g[4];
    }
  }

  /**
   Bytes signed as one kind of message are never the bytes of another kind, so no signature
   can be reused across kinds.
  */
  lemma KindsNeverCollide(d1: Bytes, f1: seq<Bytes>, d2: Bytes, f2: seq<Bytes>)
    requires d1 in {ADMISSION_DOMAIN, REVOCATION_DOMAIN, META_DOMAIN, TRANSCRIPT_DOMAIN}
    requires d2 in {ADMISSION_DOMAIN, REVOCATION_DOMAIN, META_DOMAIN, TRANSCRIPT_DOMAIN}
    requires d1 != d2
    requires Short(f1) && Short(f2)
    ensures Encoding(d1, f1) != Encoding(d2, f2)
  {
    EncodingIsInjective(d1, f1, d2, f2);
  }
}
