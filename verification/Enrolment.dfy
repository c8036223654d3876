/**
 The enrolment exchange (internal/enrol/server.go, internal/enrol/protocol.go): both
 sides, split where they wait for the other's frame. Hash, key derivation and HMAC are
 function values of which nothing is assumed; framing is reduced to a welcome's size.
*/
module Enrolment {
  import opened Basics
  import opened Wire
  import opened Overlay
  import opened TrustRecords
  import opened TrustStore
  import opened TrustEffects
  import opened TrustConvergence
  import opened Slots
  import opened TrustSet
  import opened ClusterNode
  import T = Tokens

  const PROTOCOL_VERSION := 4
  const NONCE_LEN := 32
  const TOKEN_LEN := 32
  const TOKEN_ID_LEN := 8
  const MAX_FRAME := 0x10_0000
  const LABEL_MEMBER := Ascii("member")
  const LABEL_JOINER := Ascii("joiner")

  datatype Crypto = Crypto(
    verify: Verifier, idOf: Bytes -> Bytes, derive: (Bytes, Bytes) -> Bytes, hmac: (Bytes, Bytes) -> Bytes)

  function DeriveKey(c: Crypto, token: Bytes, nJ: Bytes, nM: Bytes): Bytes {
    c.derive(token, nJ + nM)
  }

  function Mac(c: Crypto, key: Bytes, tag: Bytes, transcript: Bytes): Bytes {
    c.hmac(key, tag + [0] + transcript)
  }

  // --- framing ---

  /** writeFrame: a four-byte length and the body; refused when the body is too large. */
  function WriteFrame(body: Bytes): Option<Bytes> {
    if |body| > MAX_FRAME then None else Some(U32(|body|) + body)
  }

  datatype Read = Frame(body: Bytes, rest: Bytes) | TooLarge | Incomplete

  /** readFrame, on what the peer has sent so far: the body and what follows it. */
  function ReadFrame(stream: Bytes): Read {
    if |stream| < 4 then Incomplete
    else
      var n := FromBigEndian(stream[..4]);
      if n > MAX_FRAME then TooLarge
      else if |stream| < 4 + n then Incomplete
      else Frame(stream[4..4 + n], stream[4 + n..])
  }

  /** A frame that was written is read back as it was, and nothing of the next one with it. */
  lemma FrameRoundTrip(body: Bytes, rest: Bytes)
    requires |body| <= MAX_FRAME
    ensures ReadFrame(WriteFrame(body).value + rest) == Frame(body, rest)
  {
    var stream := U32(|body|) + body + rest;
    U32RoundTrip(|body|);
    assert WriteFrame(body).value + rest == stream;
    assert stream[..4] == U32(|body|) && stream[4..4 + |body|] == body && stream[4 + |body|..] == rest;
  }

  /** A stream cut inside a frame yields no frame. */
  lemma CutFrameIsNotRead(body: Bytes, n: nat)
    requires |body| <= MAX_FRAME && n < |WriteFrame(body).value|
    ensures ReadFrame(WriteFrame(body).value[..n]) == Incomplete
  {
    var stream := U32(|body|) + body;
    U32RoundTrip(|body|);
    if n >= 4 {
      assert stream[..n][..4] == U32(|body|);
    }
  }

  /** No frame over a mebibyte is written, and none is read on the word of its length. */
  lemma OversizeIsRefused(body: Bytes, n: nat, rest: Bytes)
    requires 0x10_0000 < n < TWO_TO_THE_32
    ensures WriteFrame(body).None? <==> |body| > 0x10_0000
    ensures ReadFrame(U32(n) + rest) == TooLarge
  {
    U32RoundTrip(n);
    assert (U32(n) + rest)[..4] == U32(n);
  }

  // --- messages ---

  datatype Hello = Hello(version: int, tokenId: Bytes, identity: PublicKey, nonce: Bytes, name: Bytes)
  datatype Challenge = Challenge(identity: PublicKey, nonce: Bytes, mac: Bytes)
  datatype Proof = Proof(mac: Bytes)
  datatype Welcome =
    | Welcome(root: PublicKey, records: Records, admission: Admission, overlayNet: Prefix)
    | Refusal(reason: EnrolError)

  datatype EnrolError =
    | Malformed | WrongPeer | UnknownToken | BadProof | TokenSpent | RecordsOutgrown | NotAdmitted(why: AdmitError)
    | FrameTooLarge | WasRefused(reported: EnrolError) | MemberIsNone | ForSomeoneElse | BadRecord(what: RecordError)
    | NoMembership | Closed

  // --- the member's side ---

  /** What the member remembers of a joiner between its hello and its proof. */
  datatype Session = Session(joiner: PublicKey, name: Bytes, tokenId: Bytes, key: Bytes, transcript: Bytes)

  /** What is wrong with a hello before its token is looked up. */
  function HelloError(peer: PublicKey, h: Hello): Option<EnrolError> {
    if h.version != PROTOCOL_VERSION || |h.tokenId| != TOKEN_ID_LEN || |h.nonce| != NONCE_LEN
      || h.name == [] then Some(Malformed)
    else if peer != h.identity then Some(WrongPeer)
    else None
  }

  function AnswerHello(c: Crypto, self: PublicKey, tokens: T.Pending, peer: PublicKey, h: Hello, nM: Bytes, clock: int)
    : Result<(Session, Challenge), EnrolError>
  {
    if HelloError(peer, h).Some? then Err(HelloError(peer, h).value)
    else if !T.Spendable(tokens, h.tokenId, clock) then Err(UnknownToken)
    else
      var key := DeriveKey(c, tokens[h.tokenId].key, h.nonce, nM);
      var tr := TranscriptBytes(h.identity, self, h.nonce, nM, h.name);
      Ok((Session(h.identity, h.name, h.tokenId, key, tr), Challenge(self, nM, Mac(c, key, LABEL_MEMBER, tr))))
  }

  /**
   Which hellos are answered, and with what: the session is about the joiner as it
   identified itself, and the challenge proves the member knows the token, over both
   identities, both nonces and the name.
  */
  lemma HelloIsAnsweredIff(c: Crypto, self: PublicKey, tokens: T.Pending, peer: PublicKey, h: Hello, nM: Bytes,
      clock: int)
    ensures var r := AnswerHello(c, self, tokens, peer, h, nM, clock);
      r.Ok? <==>
        h.version == 4 && |h.tokenId| == 8 && |h.nonce| == 32 && h.name != [] && h.identity == peer
        && h.tokenId in tokens && clock < tokens[h.tokenId].expires
    ensures var r := AnswerHello(c, self, tokens, peer, h, nM, clock);
      r.Ok? ==>
        var (s, ch) := r.value;
        var key := c.derive(tokens[h.tokenId].key, h.nonce + nM);
        var tr := TranscriptBytes(peer, self, h.nonce, nM, h.name);
        && s == Session(peer, h.name, h.tokenId, key, tr)
        && ch == Challenge(self, nM, c.hmac(key, LABEL_MEMBER + [0] + tr))
  {
  }

  /** The largest admission welcomeFits leaves room for: 64 bytes of signature and the highest slot. */
  function Probe(name: Bytes, now: int64): Admission {
    Admission(PublicKey(Zeros(32)), name, TWO_TO_THE_64 - 1, PublicKey(Zeros(32)), now, Zeros(64))
  }

  class Server {
    const c: Crypto
    const id: Identity
    const tokens: T.TokenStore
    const cluster: Cluster
    /** The length of a welcome's JSON. */
    const size: Welcome -> nat

    ghost predicate Sound()
      reads this, tokens, cluster, cluster.trust
    {
      cluster.Sound() && cluster.Saved() && cluster.verify == c.verify && cluster.id == id && tokens.idOf == c.idOf
    }

    constructor (c: Crypto, id: Identity, tokens: T.TokenStore, cluster: Cluster, size: Welcome -> nat)
      requires cluster.Sound() && cluster.Saved() && cluster.verify == c.verify && cluster.id == id
        && tokens.idOf == c.idOf
      ensures this.c == c && this.id == id && this.tokens == tokens && this.cluster == cluster && this.size == size
        && Sound()
    {
      this.c, this.id, this.tokens, this.cluster, this.size := c, id, tokens, cluster, size;
    }

    method OnHello(peer: PublicKey, h: Hello, nM: Bytes, clock: int)
      returns (r: Result<(Session, Challenge), EnrolError>)
      requires Sound()
      modifies tokens
      ensures Sound()
      ensures r == AnswerHello(c, id.public, old(tokens.tokens), peer, h, nM, clock)
      ensures tokens.tokens == if HelloError(peer, h).Some? then old(tokens.tokens)
        else T.Unexpired(old(tokens.tokens), clock)
    {
      if h.version != PROTOCOL_VERSION || |h.tokenId| != TOKEN_ID_LEN || |h.nonce| != NONCE_LEN || h.name == [] {
        return Err(Malformed);
      }
      if peer != h.identity {
        return Err(WrongPeer);
      }
      var token := tokens.Lookup(h.tokenId, clock);
      if token.None? {
        return Err(UnknownToken);
      }
      var key := DeriveKey(c, token.value, h.nonce, nM);
      var tr := TranscriptBytes(h.identity, id.public, h.nonce, nM, h.name);
      return Ok((Session(h.identity, h.name, h.tokenId, key, tr),
        Challenge(id.public, nM, Mac(c, key, LABEL_MEMBER, tr))));
    }

    /** welcomeFits: a welcome with one more admission of the largest shape fits a frame. */
    function FitsWith(records: Records, name: Bytes, now: int64): bool {
      var probe := Probe(name, now);
      size(Welcome(cluster.trust.root, RecordLists(records.admissions + [probe], records.revocations), probe,
        cluster.overlay)) <= MAX_FRAME
    }

    /** The joiner would be admitted, and the welcome it would be sent fits a frame. */
    ghost predicate Deliverable(s: Store, joiner: PublicKey, name: Bytes, now: int64)
      requires Filed(s)
    {
      AdmittingKeepsFiled(c.verify, s, id, cluster.overlay, joiner, name, now);
      match AdmissionFor(c.verify, s, id, cluster.overlay, joiner, name, now)
      case Err(_) => false
      case Ok(a) =>
        size(Welcome(s.root, Listing(AfterAdmit(c.verify, s, id, cluster.overlay, joiner, name, now)), a,
          cluster.overlay)) <= MAX_FRAME
    }

    /**
     From the proof to the welcome. Nothing is signed before a use of the token is spent,
     and a refusal after that is told to the joiner. frame is what was sent, if anything.
    */
    method OnProof(s: Session, p: Proof, clock: int, now: int64)
      returns (r: Result<Welcome, EnrolError>, frame: Option<Welcome>)
      requires Sound()
      modifies tokens, cluster, cluster.trust
      ensures Sound()
      ensures var before := old(cluster.trust.Contents());
        var after := cluster.trust.Contents();
        if p.mac != Mac(c, s.key, LABEL_JOINER, s.transcript) then
          r == Err(BadProof) && frame.None? && after == before && tokens.tokens == old(tokens.tokens)
        else if !T.Spendable(old(tokens.tokens), s.tokenId, clock) then
          r == Err(TokenSpent) && frame.None? && after == before && tokens.tokens == old(tokens.tokens)
        else
          && tokens.tokens == T.AfterConsume(old(tokens.tokens), s.tokenId, clock)
          && Filed(before)
          && if !FitsWith(Listing(before), s.name, now) then
               r == Err(RecordsOutgrown) && frame == Some(Refusal(RecordsOutgrown)) && after == before
             else
               && after == AfterAdmit(c.verify, before, id, cluster.overlay, s.joiner, s.name, now)
               && match AdmissionFor(c.verify, before, id, cluster.overlay, s.joiner, s.name, now)
                  case Err(e) => r == Err(NotAdmitted(e)) && frame == Some(Refusal(NotAdmitted(e)))
                  case Ok(a) =>
                    var w := Welcome(cluster.trust.root, cluster.boot.records, a, cluster.overlay);
                    && Filed(after) && cluster.boot.records == Listing(after)
                    && if size(w) <= MAX_FRAME then r == Ok(w) && frame == Some(w)
                       else r == Err(FrameTooLarge) && frame.None?
    {
      if p.mac != Mac(c, s.key, LABEL_JOINER, s.transcript) {
        return Err(BadProof), None;
      }
      var spent := tokens.Consume(s.tokenId, clock);
      if !spent {
        return Err(TokenSpent), None;
      }
      var records := cluster.trust.Records();
      if !FitsWith(records, s.name, now) {
        return Err(RecordsOutgrown), Some(Refusal(RecordsOutgrown));
      }
      var admitted := cluster.Admit(s.joiner, s.name, now);
      if admitted.Err? {
        return Err(NotAdmitted(admitted.error)), Some(Refusal(NotAdmitted(admitted.error)));
      }
      var w := Welcome(cluster.trust.root, admitted.value.1, admitted.value.0, cluster.overlay);
      if size(w) > MAX_FRAME {
        return Err(FrameTooLarge), None;
      }
      return Ok(w), Some(w);
    }
  }

  // --- no admission is signed that cannot be delivered ---

  function Sizes(sizeOf: Admission -> nat, l: seq<Admission>): nat {
    if l == [] then 0 else sizeOf(l[0]) + Sizes(sizeOf, l[1..])
  }

  lemma {:induction false} SizesOfInserted(sizeOf: Admission -> nat, l: seq<Admission>, a: Admission)
    ensures Sizes(sizeOf, InsertBy(Subject, l, a)) == Sizes(sizeOf, l) + sizeOf(a)
    ensures |InsertBy(Subject, l, a)| == |l| + 1
  {
    if l != [] && !KeyLess(Subject(a), Subject(l[0])) {
      SizesOfInserted(sizeOf, l[1..], a);
    } else {
      assert ([a] + l)[1..] == l;
    }
  }

  lemma {:induction false} SizesOfAppended(sizeOf: Admission -> nat, l: seq<Admission>, a: Admission)
    ensures Sizes(sizeOf, l + [a]) == Sizes(sizeOf, l) + sizeOf(a)
  {
    if l == [] {
      assert l + [a] == [a];
    } else {
      assert (l + [a])[1..] == l[1..] + [a];
      SizesOfAppended(sizeOf, l[1..], a);
    }
  }

  /** A welcome's text is no longer than another's whose admissions are as many and, in all, as long. */
  ghost predicate GrowsWithContent(size: Welcome -> nat, sizeOf: Admission -> nat) {
    forall v: Welcome, w: Welcome :: v.Welcome? && w.Welcome? && NoLonger(sizeOf, v, w) ==> size(v) <= size(w)
  }

  predicate NoLonger(sizeOf: Admission -> nat, v: Welcome, w: Welcome)
    requires v.Welcome? && w.Welcome?
  {
    && v.root == w.root && v.overlayNet == w.overlayNet && v.records.revocations == w.records.revocations
    && |v.records.admissions| <= |w.records.admissions|
    && Sizes(sizeOf, v.records.admissions) <= Sizes(sizeOf, w.records.admissions)
    && sizeOf(v.admission) <= sizeOf(w.admission)
  }

  /** An admission's text grows with its slot and its signature; keys are all of one length. */
  ghost predicate SizedByContent(sizeOf: Admission -> nat) {
    forall a: Admission, b: Admission ::
      a.name == b.name && a.issuedAt == b.issuedAt && a.host <= b.host && |a.signature| <= |b.signature| ==>
        sizeOf(a) <= sizeOf(b)
  }

  /** The welcome with that admission added to the records fits a frame. */
  ghost predicate FitsAdded(server: Server, records: Records, a: Admission) {
    server.size(Welcome(server.cluster.trust.root, RecordLists(records.admissions + [a], records.revocations), a,
      server.cluster.overlay)) <= 0x10_0000
  }

  /**
   welcomeFits refuses exactly when some admission of that name and time, of whatever
   joiner, slot and member, signed with 64 bytes, would not fit.
  */
  lemma FitsIff(server: Server, records: Records, name: Bytes, now: int64, sizeOf: Admission -> nat)
    requires GrowsWithContent(server.size, sizeOf) && SizedByContent(sizeOf)
    ensures server.FitsWith(records, name, now) <==>
      forall a: Admission :: a.name == name && a.issuedAt == now && |a.signature| == 64 ==>
        FitsAdded(server, records, a)
  {
    var probe := Probe(name, now);
    assert server.FitsWith(records, name, now) <==> FitsAdded(server, records, probe);
    forall a: Admission | a.name == name && a.issuedAt == now && |a.signature| == 64
      ensures FitsAdded(server, records, probe) ==> FitsAdded(server, records, a)
    {
      SizesOfAppended(sizeOf, records.admissions, a);
      SizesOfAppended(sizeOf, records.admissions, probe);
      var root, overlay := server.cluster.trust.root, server.cluster.overlay;
      assert NoLonger(sizeOf,
        Welcome(root, RecordLists(records.admissions + [a], records.revocations), a, overlay),
        Welcome(root, RecordLists(records.admissions + [probe], records.revocations), probe, overlay));
    }
  }

  /** One more admission costs the listing its own size. */
  lemma ListingSizeGrows(s: Store, t: Store, a: Admission, sizeOf: Admission -> nat)
    requires Filed(s) && Filed(t) && a.identity !in s.admissions && t == s.(admissions := s.admissions[a.identity := a])
    ensures Listing(t).revocations == Listing(s).revocations && |Listing(t).admissions| == |Listing(s).admissions| + 1
    ensures Sizes(sizeOf, Listing(t).admissions) == Sizes(sizeOf, Listing(s).admissions) + sizeOf(a)
  {
    ListingGrows(s, t, a);
    SizesOfInserted(sizeOf, Listing(s).admissions, a);
  }

  /** The listing once an admission is stored is no longer than it was with that admission added to it. */
  lemma StoringAddsNoMore(verify: Verifier, s: Store, a: Admission, sizeOf: Admission -> nat)
    requires Filed(s) && AdmissionError(verify, s.root, a).None?
    ensures var t := WithAdmission(verify, s, a);
      && Filed(t) && Listing(t).revocations == Listing(s).revocations
      && |Listing(t).admissions| <= |Listing(s).admissions| + 1
      && Sizes(sizeOf, Listing(t).admissions) <= Sizes(sizeOf, Listing(s).admissions) + sizeOf(a)
  {
    var t := WithAdmission(verify, s, a);
    if t != s {
      var without := s.(admissions := s.admissions - {a.identity});
      assert t == without.(admissions := without.admissions[a.identity := a]);
      ListingSizeGrows(without, t, a, sizeOf);
      if a.identity in s.admissions {
        var was := s.admissions[a.identity];
        assert s.admissions == without.admissions[a.identity := was];
        ListingSizeGrows(without, s, was, sizeOf);
      } else {
        assert without == s;
      }
    }
  }

  /**
   What welcomeFits is for: if a welcome with the probe fits, the welcome that is sent after
   the admission fits, so no admission is signed, stored and passed on that its joiner
   cannot be told of.
  */
  lemma FittingIsDeliverable(server: Server, s: Store, joiner: PublicKey, name: Bytes, now: int64,
      sizeOf: Admission -> nat)
    requires Filed(s) && s.root == server.cluster.trust.root
    requires GrowsWithContent(server.size, sizeOf) && SizedByContent(sizeOf) && forall m :: |server.id.sign(m)| == 64
    requires AdmissionFor(server.c.verify, s, server.id, server.cluster.overlay, joiner, name, now).Ok?
    requires server.FitsWith(Listing(s), name, now)
    ensures server.Deliverable(s, joiner, name, now)
  {
    var overlay := server.cluster.overlay;
    var a := AdmissionFor(server.c.verify, s, server.id, overlay, joiner, name, now).value;
    var probe := Probe(name, now);
    AdmittedAsAsked(server.c.verify, s, server.id, overlay, joiner, name, now);
    SignedAsAsked(server.id, joiner, name, a.host, now);
    AcceptedIffSigned(server.c.verify, s.root, a, Revocation(joiner, joiner, 0, []));
    StoringAddsNoMore(server.c.verify, s, a, sizeOf);
    SizesOfAppended(sizeOf, Listing(s).admissions, probe);
    var t := WithAdmission(server.c.verify, s, a);
    var sent := Welcome(s.root, Listing(t), a, overlay);
    var tried := Welcome(s.root, RecordLists(Listing(s).admissions + [probe], Listing(s).revocations), probe, overlay);
    assert |a.signature| == 64;
    assert NoLonger(sizeOf, sent, tried);
  }

  // --- a server at work ---

  /** What a server's answers depend on and change: its tokens and its records. */
  datatype Desk = Desk(tokens: T.Pending, store: Store)

  /** Anything that can happen at the server, in any order: Learned is a record that reaches its set some other way. */
  datatype Event =
    | Minted(key: Bytes, ttl: int, count: int, gcNow: int, now: int)
    | HelloArrived(peer: PublicKey, hello: Hello, clock: int)
    | ProofArrived(session: Session, proof: Proof, clock: int, at: int64)
    | Learned(rec: Record)

  /** The desk after the event, as the contracts of Mint, OnHello and OnProof say. */
  ghost function AfterEvent(server: Server, d: Desk, e: Event): (after: Desk)
    requires Filed(d.store)
    ensures Filed(after.store) && after.tokens == AfterTokenOps(server, d.tokens, e)
  {
    match e
    case Minted(key, ttl, count, gcNow, now) =>
      d.(tokens := T.AfterMint(server.c.idOf, d.tokens, key, ttl, count, gcNow, now))
    case HelloArrived(peer, h, clock) =>
      if HelloError(peer, h).Some? then d else d.(tokens := T.Unexpired(d.tokens, clock))
    case ProofArrived(s, p, clock, at) =>
      AdmittingKeepsFiled(server.c.verify, d.store, server.id, server.cluster.overlay, s.joiner, s.name, at);
      Desk(if Convinces(server, s, p) then T.AfterConsume(d.tokens, s.tokenId, clock) else d.tokens,
           if CallsAdmit(server, d, s, p, clock, at)
           then AfterAdmit(server.c.verify, d.store, server.id, server.cluster.overlay, s.joiner, s.name, at)
           else d.store)
    case Learned(rec) => d.(store := WithRecord(server.c.verify, d.store, rec))
  }

  predicate Convinces(server: Server, s: Session, p: Proof) {
    p.mac == Mac(server.c, s.key, LABEL_JOINER, s.transcript)
  }

  /** The proof leads to a call of Admit. */
  ghost predicate CallsAdmit(server: Server, d: Desk, s: Session, p: Proof, clock: int, at: int64)
    requires Filed(d.store)
  {
    Convinces(server, s, p) && T.Spendable(d.tokens, s.tokenId, clock) && server.FitsWith(Listing(d.store), s.name, at)
  }

  /** What the event asks of the token store. */
  function TokenOps(server: Server, e: Event): seq<T.Op> {
    match e
    case Minted(key, ttl, count, gcNow, now) => [T.MintOp(key, ttl, count, gcNow, now)]
    case HelloArrived(peer, h, clock) => if HelloError(peer, h).Some? then [] else [T.LookupOp(h.tokenId, clock)]
    case ProofArrived(s, p, clock, _) => if Convinces(server, s, p) then [T.ConsumeOp(s.tokenId, clock)] else []
    case Learned(_) => []
  }

  function AfterTokenOps(server: Server, tokens: T.Pending, e: Event): T.Pending {
    var ops := TokenOps(server, e);
    if ops == [] then tokens else T.Perform(server.c.idOf, tokens, ops[0])
  }

  ghost function AfterEvents(server: Server, s: Store, events: seq<Event>): (d: Desk)
    requires Filed(s)
    ensures Filed(d.store)
  {
    if events == [] then Desk(map[], s)
    else AfterEvent(server, AfterEvents(server, s, events[..|events| - 1]), events[|events| - 1])
  }

  /** How often the token has led to a call of Admit. */
  ghost function AdmitCalls(server: Server, s: Store, events: seq<Event>, id: T.TokenId): nat
    requires Filed(s)
  {
    if events == [] then 0
    else
      var init, e := events[..|events| - 1], events[|events| - 1];
      AdmitCalls(server, s, init, id) +
      if e.ProofArrived? && e.session.tokenId == id
         && CallsAdmit(server, AfterEvents(server, s, init), e.session, e.proof, e.clock, e.at) then 1 else 0
  }

  /** All the uses ever minted under the identifier. */
  function UsesMinted(server: Server, events: seq<Event>, id: T.TokenId): nat {
    if events == [] then 0
    else
      var e := events[|events| - 1];
      UsesMinted(server, events[..|events| - 1], id) +
      if e.Minted? && server.c.idOf(e.key) == id && e.ttl > 0 && e.count > 0 then e.count else 0
  }

  /** The event is a proof that leads to a call of Admit on the token. */
  ghost predicate AdmitsAt(server: Server, s: Store, events: seq<Event>, id: T.TokenId, i: nat)
    requires Filed(s) && i < |events|
  {
    var e := events[i];
    e.ProofArrived? && e.session.tokenId == id
    && CallsAdmit(server, AfterEvents(server, s, events[..i]), e.session, e.proof, e.clock, e.at)
  }

  ghost predicate AreCalls(server: Server, s: Store, events: seq<Event>, id: T.TokenId, calls: set<nat>)
    requires Filed(s)
  {
    forall i: nat :: i in calls <==> i < |events| && AdmitsAt(server, s, events, id, i)
  }

  lemma OneMoreCall(server: Server, s: Store, events: seq<Event>, id: T.TokenId, calls: set<nat>)
    requires Filed(s) && events != [] && AreCalls(server, s, events[..|events| - 1], id, calls)
    ensures |events| - 1 !in calls
    ensures AreCalls(server, s, events, id,
              calls + if AdmitsAt(server, s, events, id, |events| - 1) then {|events| - 1} else {})
  {
    forall i: nat | i < |events| - 1 ensures i in calls <==> AdmitsAt(server, s, events, id, i) {
      assert events[..|events| - 1][..i] == events[..i];
    }
  }

  /** The calls counted are the events that make one, each once. */
  lemma {:induction false} AdmitCallsAreTheEvents(server: Server, s: Store, events: seq<Event>, id: T.TokenId)
    returns (calls: set<nat>)
    requires Filed(s)
    ensures AreCalls(server, s, events, id, calls) && AdmitCalls(server, s, events, id) == |calls|
  {
    calls := {};
    if events != [] {
      calls := AdmitCallsAreTheEvents(server, s, events[..|events| - 1], id);
      OneMoreCall(server, s, events, id, calls);
      calls := calls + if AdmitsAt(server, s, events, id, |events| - 1) then {|events| - 1} else {};
    }
  }

  lemma OneMoreEvent(server: Server, s: Store, events: seq<Event>, id: T.TokenId)
    requires Filed(s) && events != []
    ensures var init, e := events[..|events| - 1], events[|events| - 1];
      var tokens, ops := AfterEvents(server, s, init).tokens, TokenOps(server, e);
      && AfterEvents(server, s, events).tokens ==
        (if ops == [] then tokens else T.Perform(server.c.idOf, tokens, ops[0]))
      && AdmitCalls(server, s, events, id) - AdmitCalls(server, s, init, id)
           <= (if ops != [] && T.Spends(server.c.idOf, tokens, ops[0], id) then 1 else 0)
      && UsesMinted(server, events, id) - UsesMinted(server, init, id)
           == (if ops != [] && T.Mints(server.c.idOf, ops[0], id) then ops[0].count else 0)
  {
  }

  /** The run of the server is this run of its token store, in which every admission spends a use. */
  ghost predicate Tracks(server: Server, s: Store, events: seq<Event>, id: T.TokenId, ops: seq<T.Op>)
    requires Filed(s)
  {
    && AfterEvents(server, s, events).tokens == T.After(server.c.idOf, map[], ops)
    && AdmitCalls(server, s, events, id) <= T.Spent(server.c.idOf, map[], ops, id)
    && UsesMinted(server, events, id) == T.MintedUses(server.c.idOf, ops, id)
  }

  lemma OneMoreTracks(server: Server, s: Store, events: seq<Event>, id: T.TokenId, ops: seq<T.Op>)
    requires Filed(s) && events != [] && Tracks(server, s, events[..|events| - 1], id, ops)
    ensures Tracks(server, s, events, id, ops + TokenOps(server, events[|events| - 1]))
  {
    var more := TokenOps(server, events[|events| - 1]);
    OneMoreEvent(server, s, events, id);
    if more == [] {
      assert ops + more == ops;
    } else {
      assert ops + more == ops + [more[0]];
      T.OneMoreOp(server.c.idOf, map[], ops, more[0], id);
    }
  }

  lemma {:induction false} AdmissionsSpendUses(server: Server, s: Store, events: seq<Event>, id: T.TokenId)
    returns (ops: seq<T.Op>)
    requires Filed(s)
    ensures Tracks(server, s, events, id, ops)
  {
    ops := [];
    if events != [] {
      ops := AdmissionsSpendUses(server, s, events[..|events| - 1], id);
      OneMoreTracks(server, s, events, id, ops);
      ops := ops + TokenOps(server, events[|events| - 1]);
    }
  }

  /**
   Whatever is minted, said and proved to a server, in whatever order, under whatever clock
   and whatever its records become, a token leads to no more calls of Admit than uses were
   minted for it.
  */
  lemma AdmissionsNeverExceedUses(server: Server, s: Store, events: seq<Event>, id: T.TokenId)
    requires Filed(s)
    ensures AdmitCalls(server, s, events, id) <= UsesMinted(server, events, id)
  {
    var ops := AdmissionsSpendUses(server, s, events, id);
    T.NeverOverspent(server.c.idOf, ops, id);
  }

  /** The methods' effects are those of the events, so runs of the methods are runs of events. */
  method HelloIsEvent(server: Server, h: Hello, peer: PublicKey, nM: Bytes, clock: int)
    returns (r: Result<(Session, Challenge), EnrolError>)
    requires server.Sound()
    modifies server.tokens
    ensures server.Sound() && Filed(old(server.cluster.trust.Contents()))
    ensures var before := Desk(old(server.tokens.tokens), old(server.cluster.trust.Contents()));
      Desk(server.tokens.tokens, server.cluster.trust.Contents()) ==
        AfterEvent(server, before, HelloArrived(peer, h, clock))
  {
    r := server.OnHello(peer, h, nM, clock);
  }

  method ProofIsEvent(server: Server, s: Session, p: Proof, clock: int, at: int64)
    returns (r: Result<Welcome, EnrolError>, frame: Option<Welcome>)
    requires server.Sound()
    modifies server.tokens, server.cluster, server.cluster.trust
    ensures server.Sound() && Filed(old(server.cluster.trust.Contents()))
    ensures var before := Desk(old(server.tokens.tokens), old(server.cluster.trust.Contents()));
      Desk(server.tokens.tokens, server.cluster.trust.Contents()) ==
        AfterEvent(server, before, ProofArrived(s, p, clock, at))
  {
    r, frame := server.OnProof(s, p, clock, at);
  }

  // --- the joiner's side ---

  function JoinHello(c: Crypto, token: Bytes, self: PublicKey, nJ: Bytes, name: Bytes): Hello {
    Hello(PROTOCOL_VERSION, c.idOf(token), self, nJ, name)
  }

  function AnswerChallenge(c: Crypto, token: Bytes, peer: PublicKey, self: PublicKey, nJ: Bytes, name: Bytes,
      ch: Challenge): Result<Proof, EnrolError> {
    if |ch.nonce| != NONCE_LEN then Err(Malformed)
    else if peer != ch.identity then Err(WrongPeer)
    else
      var key := DeriveKey(c, token, nJ, ch.nonce);
      var tr := TranscriptBytes(self, ch.identity, nJ, ch.nonce, name);
      if ch.mac != Mac(c, key, LABEL_MEMBER, tr) then Err(BadProof) else Ok(Proof(Mac(c, key, LABEL_JOINER, tr)))
  }

  /** What Join requires of the welcome, trusting nothing in it that the records do not prove. */
  function CheckWelcome(verify: Verifier, member: PublicKey, self: PublicKey, w: Welcome): Option<EnrolError> {
    match w
    case Refusal(reason) => Some(WasRefused(reason))
    case Welcome(root, records, adm, _) =>
      var s := AddAll(verify, EmptyStore(root), InMergeOrder(records));
      if !Member(s, member) then Some(MemberIsNone)
      else if adm.identity != self || adm.admitter != member then Some(ForSomeoneElse)
      else match AdmissionError(verify, root, adm)
        case Some(e) => Some(BadRecord(e))
        case None => if !Member(WithAdmission(verify, s, adm), self) then Some(NoMembership) else None
  }

  method OnWelcome(verify: Verifier, member: PublicKey, self: PublicKey, w: Welcome) returns (err: Option<EnrolError>)
    ensures err == CheckWelcome(verify, member, self, w)
  {
    if w.Refusal? {
      return Some(WasRefused(w.reason));
    }
    var trust := new Set(verify, w.root);
    var n := trust.Merge(w.records);
    var valid := trust.Valid(member);
    if !valid {
      return Some(MemberIsNone);
    }
    if w.admission.identity != self || w.admission.admitter != member {
      return Some(ForSomeoneElse);
    }
    var added := trust.AddAdmission(w.admission);
    if added.Err? {
      return Some(BadRecord(added.error));
    }
    valid := trust.Valid(self);
    if !valid {
      return Some(NoMembership);
    }
    return None;
  }

  /**
   Which challenges the joiner answers: those that prove the member knows the joiner's own
   token, over the connection's identity and the joiner's own, both nonces and its name.
  */
  lemma ChallengeIsAnsweredIff(c: Crypto, token: Bytes, peer: PublicKey, self: PublicKey, nJ: Bytes, name: Bytes,
      ch: Challenge)
    ensures var key := c.derive(token, nJ + ch.nonce);
      var tr := TranscriptBytes(self, peer, nJ, ch.nonce, name);
      var r := AnswerChallenge(c, token, peer, self, nJ, name, ch);
      && (r.Ok? <==> |ch.nonce| == 32 && ch.identity == peer && ch.mac == c.hmac(key, LABEL_MEMBER + [0] + tr))
      && (r.Ok? ==> r.value.mac == c.hmac(key, LABEL_JOINER + [0] + tr))
  {
  }

  /** What a joiner accepts a welcome of any origin for. */
  lemma WelcomeIsGoodIff(verify: Verifier, member: PublicKey, self: PublicKey, w: Welcome)
    ensures CheckWelcome(verify, member, self, w).None? <==>
      && w.Welcome?
      && var s := AddAll(verify, EmptyStore(w.root), InMergeOrder(w.records));
         && Member(s, member) && w.admission.identity == self && w.admission.admitter == member
         && SignedAdmission(verify, w.root, w.admission)
         && Member(WithAdmission(verify, s, w.admission), self)
    ensures w.Refusal? ==> CheckWelcome(verify, member, self, w) == Some(WasRefused(w.reason))
  {
    if w.Welcome? {
      AcceptedIffSigned(verify, w.root, w.admission, Revocation(self, self, 0, []));
    }
  }

  /**
   Whatever the records of an accepted welcome hold that nobody signed counts for nothing:
   the joiner's set is signed through and through.
  */
  lemma AcceptedSetIsSigned(verify: Verifier, member: PublicKey, self: PublicKey, w: Welcome)
    requires CheckWelcome(verify, member, self, w).None?
    ensures var s := AddAll(verify, EmptyStore(w.root), InMergeOrder(w.records));
      AllSigned(verify, WithAdmission(verify, s, w.admission))
  {
    MergeKeepsSigned(verify, EmptyStore(w.root), InMergeOrder(w.records));
    var s := AddAll(verify, EmptyStore(w.root), InMergeOrder(w.records));
    MergeKeepsSigned(verify, s, [Admitted(w.admission)]);
    AddOne(verify, s, Admitted(w.admission));
  }

  // --- what the two sides agree on ---

  /** HMAC as if it never collided. */
  ghost predicate CollisionFree(c: Crypto) {
    forall k, m1, m2 :: c.hmac(k, m1) == c.hmac(k, m2) ==> m1 == m2
  }

  lemma LabelledBytes(l1: Bytes, t1: Bytes, l2: Bytes, t2: Bytes)
    requires |l1| == |l2|
    ensures l1 + [0] + t1 == l2 + [0] + t2 ==> l1 == l2 && t1 == t2
  {
    var x, y, n := l1 + [0] + t1, l2 + [0] + t2, |l1|;
    assert x[..n] == l1 && y[..n] == l2;
    assert x[n + 1..] == t1 && y[n + 1..] == t2;
  }

  lemma LabelsDiffer()
    ensures LABEL_MEMBER != LABEL_JOINER && |LABEL_MEMBER| == |LABEL_JOINER|
  {
    assert LABEL_MEMBER[0] == 'm' as int as byte && LABEL_JOINER[0] == 'j' as int as byte;
  }

  /**
   A joiner that accepts a member's challenge computed under the key it derived agrees
   with that member on both identities, both nonces and the name; and no MAC one side
   sends can be sent back to it as the other's.
  */
  lemma MacsBindTheExchange(c: Crypto, key: Bytes, j1: PublicKey, m1: PublicKey, a1: Bytes, b1: Bytes, n1: Bytes,
                            j2: PublicKey, m2: PublicKey, a2: Bytes, b2: Bytes, n2: Bytes, tag: Bytes)
    requires CollisionFree(c) && Short([a1, b1, n1, a2, b2, n2]) && tag in {LABEL_MEMBER, LABEL_JOINER}
    ensures var t1, t2 := TranscriptBytes(j1, m1, a1, b1, n1), TranscriptBytes(j2, m2, a2, b2, n2);
      Mac(c, key, tag, t1) == Mac(c, key, tag, t2) ==> j1 == j2 && m1 == m2 && a1 == a2 && b1 == b2 && n1 == n2
    ensures Mac(c, key, LABEL_MEMBER, TranscriptBytes(j1, m1, a1, b1, n1)) !=
      Mac(c, key, LABEL_JOINER, TranscriptBytes(j2, m2, a2, b2, n2))
  {
    var t1, t2 := TranscriptBytes(j1, m1, a1, b1, n1), TranscriptBytes(j2, m2, a2, b2, n2);
    LabelledBytes(tag, t1, tag, t2);
    LabelsDiffer();
    LabelledBytes(LABEL_MEMBER, t1, LABEL_JOINER, t2);
    TranscriptBytesDetermine(j1, m1, a1, b1, n1, j2, m2, a2, b2, n2);
  }

  /**
   A challenge made with the joiner's key for another exchange, with any other identity,
   nonce or name in it, is refused, and so is the joiner's own proof, of this exchange or
   any other, sent back to it as a challenge.
  */
  lemma OtherChallengesAreRefused(c: Crypto, token: Bytes, peer: PublicKey, self: PublicKey, nJ: Bytes, name: Bytes,
      ch: Challenge, j: PublicKey, m: PublicKey, a: Bytes, b: Bytes, n: Bytes)
    requires CollisionFree(c) && Short([nJ, ch.nonce, name, a, b, n]) && |ch.nonce| == NONCE_LEN && ch.identity == peer
    requires var key := DeriveKey(c, token, nJ, ch.nonce);
      || ch.mac == Mac(c, key, LABEL_JOINER, TranscriptBytes(j, m, a, b, n))
      || ((j, m, a, b, n) != (self, peer, nJ, ch.nonce, name)
          && ch.mac == Mac(c, key, LABEL_MEMBER, TranscriptBytes(j, m, a, b, n)))
    ensures AnswerChallenge(c, token, peer, self, nJ, name, ch) == Err(BadProof)
  {
    var key := DeriveKey(c, token, nJ, ch.nonce);
    var all, more := [nJ, ch.nonce, name, a, b, n], [a, b, n, nJ, ch.nonce, name];
    assert all[0] == nJ && all[1] == ch.nonce && all[2] == name && all[3] == a && all[4] == b && all[5] == n;
    MacsBindTheExchange(c, key, self, peer, nJ, ch.nonce, name, j, m, a, b, n, LABEL_MEMBER);
  }

  /** Key derivation as if it never collided. */
  ghost predicate DerivesApart(c: Crypto) {
    forall t1, s1, t2, s2 :: c.derive(t1, s1) == c.derive(t2, s2) ==> t1 == t2 && s1 == s2
  }

  /** The key of an exchange is its own: another token, or another nonce of either side, gives another. */
  lemma KeysBindTheNonces(c: Crypto, t1: Bytes, a1: Bytes, b1: Bytes, t2: Bytes, a2: Bytes, b2: Bytes)
    requires DerivesApart(c) && |a1| == |a2|
    ensures DeriveKey(c, t1, a1, b1) == DeriveKey(c, t2, a2, b2) ==> t1 == t2 && a1 == a2 && b1 == b2
  {
    var x, y := a1 + b1, a2 + b2;
    assert x[..|a1|] == a1 && y[..|a1|] == a2 && x[|a1|..] == b1 && y[|a1|..] == b2;
  }

  // --- an honest exchange, end to end ---

  /**
   An admission signed by a member now, of an identity nothing is known of, makes it a
   member and nobody else less of one.
  */
  lemma NewcomerIsMember(verify: Verifier, s: Store, member: Identity, prefix: Prefix, joiner: PublicKey, name: Bytes,
      now: int64)
    requires WellFormed(verify, s) && Unknown(s, joiner) && AllBefore(s, now)
    requires AdmissionFor(verify, s, member, prefix, joiner, name, now).Ok?
    ensures var t := AfterAdmit(verify, s, member, prefix, joiner, name, now);
      && WellFormed(verify, t)
      && (Member(t, joiner) <==> Member(s, member.public))
      && (forall id :: id != joiner ==> (Member(t, id) <==> Member(s, id)))
  {
    var a := AdmissionFor(verify, s, member, prefix, joiner, name, now).value;
    AdmissionEffect(verify, s, a, joiner);
    AdmittingDisturbsNobody(verify, s, member, prefix, joiner, name, now);
  }

  /** The joiner accepts the welcome exactly when the member that wrote it was a member. */
  lemma WelcomeIsAcceptedIff(verify: Verifier, s: Store, member: Identity, prefix: Prefix, joiner: PublicKey,
      name: Bytes, now: int64, records: Records)
    requires WellFormed(verify, s) && Unknown(s, joiner) && AllBefore(s, now) && member.public != joiner
    requires AdmissionFor(verify, s, member, prefix, joiner, name, now).Ok?
    requires Lists(InMergeOrder(records), AfterAdmit(verify, s, member, prefix, joiner, name, now))
    ensures var a := AdmissionFor(verify, s, member, prefix, joiner, name, now).value;
      CheckWelcome(verify, member.public, joiner, Welcome(s.root, records, a, prefix)).None? <==>
        Member(s, member.public)
  {
    var a, t := AdmissionFor(verify, s, member, prefix, joiner, name, now).value,
      AfterAdmit(verify, s, member, prefix, joiner, name, now);
    NewcomerIsMember(verify, s, member, prefix, joiner, name, now);
    RecordsRebuildTheStore(verify, t, InMergeOrder(records));
    assert t.admissions[joiner] == a;
    assert WithAdmission(verify, t, a) == t;
  }

  /** Bootstrap.Host: the slot of the node's own admission, first in the list. */
  function Host(records: Records, self: PublicKey): Option<uint64> {
    HostIn(records.admissions, self)
  }

  function HostIn(admissions: seq<Admission>, self: PublicKey): Option<uint64> {
    if admissions == [] then None
    else if admissions[0].identity == self then Some(admissions[0].host)
    else HostIn(admissions[1..], self)
  }

  lemma {:induction false} HostIsFound(admissions: seq<Admission>, a: Admission)
    requires a in admissions && forall b :: b in admissions && b.identity == a.identity ==> b == a
    ensures HostIn(admissions, a.identity) == Some(a.host)
  {
    assert admissions == [admissions[0]] + admissions[1..];
    if admissions[0].identity != a.identity {
      HostIsFound(admissions[1..], a);
    }
  }

  /**
   The welcomed joiner can start: its saved records name the slot it was given, the slot
   fits the network, and the checks a node makes when it starts pass at that address.
  */
  lemma WelcomedJoinerCanStart(verify: Verifier, s: Store, member: Identity, prefix: Prefix, joiner: PublicKey,
      name: Bytes, now: int64, records: Records)
    requires WellFormed(verify, s) && Unknown(s, joiner) && AllBefore(s, now) && Member(s, member.public)
    requires AdmissionFor(verify, s, member, prefix, joiner, name, now).Ok?
    requires Lists(InMergeOrder(records), AfterAdmit(verify, s, member, prefix, joiner, name, now))
    ensures var a := AdmissionFor(verify, s, member, prefix, joiner, name, now).value;
      && Host(records, joiner) == Some(a.host)
      && SlotAddr(prefix, a.host).Some?
      && StartCheck(verify, prefix, Bootstrap(s.root, records), joiner, SlotAddr(prefix, a.host).value).None?
  {
    var a, t := AdmissionFor(verify, s, member, prefix, joiner, name, now).value,
      AfterAdmit(verify, s, member, prefix, joiner, name, now);
    NewcomerHasItsAddress(verify, s, member, prefix, joiner, name, now);
    ListedHostIsFound(t, records, joiner);
    RestartResumes(verify, t, prefix, Bootstrap(s.root, records), joiner, SlotAddr(prefix, a.host).value);
  }

  lemma NewcomerGetsFreeSlot(verify: Verifier, s: Store, member: Identity, prefix: Prefix, joiner: PublicKey,
      name: Bytes, now: int64)
    requires Unknown(s, joiner) && AdmissionFor(verify, s, member, prefix, joiner, name, now).Ok?
    ensures var a := AdmissionFor(verify, s, member, prefix, joiner, name, now).value;
      && a.identity == joiner && FreeSlot(s, MaxHost(prefix)) == Some(a.host)
      && AfterAdmit(verify, s, member, prefix, joiner, name, now) == s.(admissions := s.admissions[joiner := a])
  {
  }

  lemma NewcomerHasItsAddress(verify: Verifier, s: Store, member: Identity, prefix: Prefix, joiner: PublicKey,
      name: Bytes, now: int64)
    requires WellFormed(verify, s) && Unknown(s, joiner) && AllBefore(s, now) && Member(s, member.public)
    requires AdmissionFor(verify, s, member, prefix, joiner, name, now).Ok?
    ensures var a := AdmissionFor(verify, s, member, prefix, joiner, name, now).value;
      var t := AfterAdmit(verify, s, member, prefix, joiner, name, now);
      && WellFormed(verify, t) && t.root == s.root && joiner in t.admissions && t.admissions[joiner] == a
      && SlotAddr(prefix, a.host).Some? && AssignedAddr(t, prefix, joiner) == Ok(SlotAddr(prefix, a.host).value)
  {
    var a, t := AdmissionFor(verify, s, member, prefix, joiner, name, now).value,
      AfterAdmit(verify, s, member, prefix, joiner, name, now);
    NewcomerGetsFreeSlot(verify, s, member, prefix, joiner, name, now);
    NewcomerIsMember(verify, s, member, prefix, joiner, name, now);
    FreeSlotIsSpare(s, MaxHost(prefix));
    NewcomerIsUncontested(s, t, a);
  }

  lemma ListedHostIsFound(t: Store, records: Records, id: PublicKey)
    requires Filed(t) && id in t.admissions && Lists(InMergeOrder(records), t)
    ensures Host(records, id) == Some(t.admissions[id].host)
  {
    MergeOrderHolds(records);
    var a := t.admissions[id];
    assert Stored(t, Admitted(a));
    forall b | b in records.admissions && b.identity == id ensures b == a {
      assert Stored(t, Admitted(b));
    }
    HostIsFound(records.admissions, a);
  }

  lemma NewcomerIsUncontested(s: Store, t: Store, a: Admission)
    requires Filed(s) && a.identity !in s.admissions && t.admissions == s.admissions[a.identity := a]
    requires forall id :: id != a.identity ==> (Member(t, id) <==> Member(s, id))
    requires a.host !in HeldSlots(s)
    ensures !Contested(t, a.identity)
  {
    forall id | id in s.admissions && Member(s, id) ensures s.admissions[id].host in HeldSlots(s) {
    }
  }

  /** The joiner's token proves it worthy: it is pending at both of the member's readings of the clock. */
  predicate Proves(c: Crypto, tokens: T.Pending, token: Bytes, name: Bytes, t1: int, t2: int) {
    && |token| == TOKEN_LEN && name != []
    && T.Spendable(tokens, c.idOf(token), t1) && T.Spendable(tokens, c.idOf(token), t2)
  }

  ghost predicate RoomFor(s: Store, prefix: Prefix, joiner: PublicKey, name: Bytes) {
    !NameInUse(s, name, joiner) && FreeSlot(s, MaxHost(prefix)).Some?
  }

  /** A newcomer is given an admission exactly when its name is proper and free and a slot is free. */
  lemma AdmissionForNewcomer(verify: Verifier, s: Store, member: Identity, prefix: Prefix, joiner: PublicKey,
      name: Bytes, now: int64)
    requires Honest(verify, member) && Unknown(s, joiner) && member.public != joiner
    ensures AdmissionFor(verify, s, member, prefix, joiner, name, now).Ok?
       <==> name != [] && !NameInUse(s, name, joiner) && FreeSlot(s, MaxHost(prefix)).Some?
  {
    FreeSlotIsSpare(s, MaxHost(prefix));
    var slot := FreeSlot(s, MaxHost(prefix));
    if slot.Some? {
      HonestRecordsValidate(verify, member, joiner, name, slot.value, now);
    }
  }

  /**
   One exchange over a connection that delivers every frame, between an honest member and
   a joiner it knows nothing of. Both sides succeed or both fail; they succeed exactly when
   the token proves the joiner worthy, its name and a slot are free, the member is one, and
   both welcomes, the one that is tried for size and the one that is sent, fit a frame.
   The joiner is then a member, nobody else's membership has changed, and a node started
   from the welcome passes its checks at the address of the slot assigned. A use of the
   token is spent and the admission stored on just as exact conditions.
  */
  method Exchange(server: Server, token: Bytes, joiner: PublicKey, name: Bytes, nJ: Bytes, nM: Bytes, t1: int, t2: int,
      now: int64)
    returns (joinErr: Option<EnrolError>, handleErr: Option<EnrolError>, welcome: Option<Welcome>)
    requires server.Sound() && Honest(server.c.verify, server.id)
    requires |nJ| == |nM| == NONCE_LEN && |server.c.idOf(token)| == TOKEN_ID_LEN
    requires server.c.idOf(token) in server.tokens.tokens ==> server.tokens.tokens[server.c.idOf(token)].key == token
    requires Unknown(server.cluster.trust.Contents(), joiner) && AllBefore(server.cluster.trust.Contents(), now)
    requires server.id.public != joiner
    modifies server.tokens, server.cluster, server.cluster.trust
    ensures server.Sound() && (joinErr.None? <==> handleErr.None?)
    ensures var before := old(server.cluster.trust.Contents());
      Filed(before) && (joinErr.None? <==>
        && Proves(server.c, old(server.tokens.tokens), token, name, t1, t2)
        && RoomFor(before, server.cluster.overlay, joiner, name)
        && Member(before, server.id.public)
        && server.FitsWith(Listing(before), name, now) && server.Deliverable(before, joiner, name, now))
    ensures Proves(server.c, old(server.tokens.tokens), token, name, t1, t2) ==>
      server.tokens.tokens == T.AfterConsume(T.Unexpired(old(server.tokens.tokens), t1), server.c.idOf(token), t2)
    ensures var before := old(server.cluster.trust.Contents());
      server.cluster.trust.Contents() ==
        if Proves(server.c, old(server.tokens.tokens), token, name, t1, t2)
          && server.FitsWith(Listing(before), name, now)
        then AfterAdmit(server.c.verify, before, server.id, server.cluster.overlay, joiner, name, now) else before
    ensures Proves(server.c, old(server.tokens.tokens), token, name, t1, t2) ==>
      var before := old(server.cluster.trust.Contents());
      if !server.FitsWith(Listing(before), name, now) then
        joinErr == Some(WasRefused(RecordsOutgrown)) && handleErr == Some(RecordsOutgrown)
      else match AdmissionFor(server.c.verify, before, server.id, server.cluster.overlay, joiner, name, now)
        case Err(e) => joinErr == Some(WasRefused(NotAdmitted(e))) && handleErr == Some(NotAdmitted(e))
        case Ok(_) => true
    ensures joinErr.None? ==>
      var before := old(server.cluster.trust.Contents());
      var after := server.cluster.trust.Contents();
      && welcome.Some? && welcome.value.Welcome?
      && AdmissionFor(server.c.verify, before, server.id, server.cluster.overlay, joiner, name, now) ==
        Ok(welcome.value.admission)
      && Member(after, joiner)
      && (forall id :: id != joiner ==> (Member(after, id) <==> Member(before, id)))
      && var w, prefix := welcome.value, server.cluster.overlay;
         && Host(w.records, joiner) == Some(w.admission.host) && SlotAddr(prefix, w.admission.host).Some?
         && StartCheck(server.c.verify, prefix, Bootstrap(w.root, w.records), joiner,
           SlotAddr(prefix, w.admission.host).value).None?
  {
    welcome := None;
    if |token| != TOKEN_LEN {
      return Some(Malformed), Some(Malformed), None;
    }
    var hello := JoinHello(server.c, token, joiner, nJ, name);
    var answer := server.OnHello(joiner, hello, nM, t1);
    if answer.Err? {
      return Some(Malformed), Some(answer.error), None;
    }
    var (session, challenge) := answer.value;
    var proof := AnswerChallenge(server.c, token, server.id.public, joiner, nJ, name, challenge);
    assert proof == Ok(Proof(Mac(server.c, session.key, LABEL_JOINER, session.transcript)));
    ghost var before := server.cluster.trust.Contents();
    AdmissionForNewcomer(server.c.verify, before, server.id, server.cluster.overlay, joiner, name, now);
    var r, frame := server.OnProof(session, proof.value, t2, now);
    if frame.None? {
      return Some(Closed), if r.Err? then Some(r.error) else None, None;
    }
    joinErr := OnWelcome(server.c.verify, server.id.public, joiner, frame.value);
    if frame.value.Refusal? {
      return joinErr, if r.Err? then Some(r.error) else None, None;
    }
    welcome := frame;
    WelcomeIsAcceptedIff(server.c.verify, before, server.id, server.cluster.overlay, joiner, name, now,
      frame.value.records);
    handleErr := if joinErr.Some? then Some(Closed) else None;
    NewcomerIsMember(server.c.verify, before, server.id, server.cluster.overlay, joiner, name, now);
    if joinErr.None? {
      WelcomedJoinerCanStart(server.c.verify, before, server.id, server.cluster.overlay, joiner, name, now,
        frame.value.records);
    }
  }
}
