/**
 A node's share in the cluster (internal/cluster/cluster.go): the set it keeps, what it
 queues for gossip, what it saves, and the checks a restart and a peer must pass.
*/
module ClusterNode {
  import opened Basics
  import opened Overlay
  import opened Wire
  import opened TrustRecords
  import opened TrustStore
  import opened TrustConvergence
  import opened TrustEffects
  import opened Slots
  import opened TrustSet

  /** The parts of overlay.Node that verifyMeta reads. */
  datatype Node = Node(name: Bytes, overlayAddr: Addr, pubKey: Bytes, allowed: seq<Prefix>, identity: PublicKey,
      signature: Bytes)

  datatype MetaError = NoAddress(reason: AddrError) | WrongAddress | BadMetaSignature | BadKey

  /** verifyMeta; parses says whether a wireguard key is well formed. */
  function VerifyMeta(verify: Verifier, parses: Bytes -> bool, s: Store, prefix: Prefix, n: Node): Option<MetaError> {
    match AssignedAddr(s, prefix, n.identity)
    case Err(e) => Some(NoAddress(e))
    case Ok(want) =>
      if n.overlayAddr != want then Some(WrongAddress)
      else if !verify(n.identity, MetaBytes(n.name, n.overlayAddr, n.pubKey, n.allowed), n.signature)
        then Some(BadMetaSignature)
      else if !parses(n.pubKey) then Some(BadKey)
      else None
  }

  /**
   Peers that pass are members, and those with one overlay address have one identity: no
   peer can take another's traffic.
  */
  lemma VerifiedPeersAreDistinct(verify: Verifier, parses: Bytes -> bool, s: Store, prefix: Prefix, n: Node, m: Node)
    requires Filed(s)
    requires VerifyMeta(verify, parses, s, prefix, n).None? && VerifyMeta(verify, parses, s, prefix, m).None?
    ensures Member(s, n.identity) && Member(s, m.identity)
    ensures n.overlayAddr == m.overlayAddr <==> n.identity == m.identity
  {
    AddressesAreUnique(s, prefix, n.identity, m.identity);
  }

  /**
   What verification asks of a peer: that it is a member, claims its slot's address and no
   stronger claim contests it, that its identity signed its metadata, and a good key.
  */
  lemma VerifiedIff(verify: Verifier, parses: Bytes -> bool, s: Store, prefix: Prefix, n: Node)
    requires Filed(s)
    ensures VerifyMeta(verify, parses, s, prefix, n).None? <==>
      && n.identity in s.admissions && Member(s, n.identity)
      && SlotAddr(prefix, s.admissions[n.identity].host) == Some(n.overlayAddr)
      && !Contested(s, n.identity)
      && verify(n.identity, MetaBytes(n.name, n.overlayAddr, n.pubKey, n.allowed), n.signature)
      && parses(n.pubKey)
  {
  }

  /** Where the records are tidy a member's own metadata, honestly signed at its address, passes at every node. */
  lemma HonestPeersPass(verify: Verifier, parses: Bytes -> bool, s: Store, prefix: Prefix, id: Identity, n: Node)
    requires Honest(verify, id) && n.identity == id.public && parses(n.pubKey)
    requires n.signature == id.sign(MetaBytes(n.name, n.overlayAddr, n.pubKey, n.allowed))
    requires AssignedAddr(s, prefix, id.public) == Ok(n.overlayAddr)
    ensures VerifyMeta(verify, parses, s, prefix, n).None?
  {
  }

  /** In particular after any orderly run of enrolments and revocations. */
  lemma MembersOfRunsPass(verify: Verifier, parses: Bytes -> bool, root: Identity, name: Bytes, now: int64,
      prefix: Prefix, ops: seq<Op>, id: Identity, n: Node)
    requires MaxHost(prefix) >= 1 && Orderly(verify, InitRoot(root, name, now), prefix, ops)
    requires Honest(verify, id) && n.identity == id.public && parses(n.pubKey)
    requires n.signature == id.sign(MetaBytes(n.name, n.overlayAddr, n.pubKey, n.allowed))
    requires var s := PerformAll(verify, InitRoot(root, name, now), prefix, ops);
      id.public in s.admissions && Member(s, id.public)
      && SlotAddr(prefix, s.admissions[id.public].host) == Some(n.overlayAddr)
    ensures VerifyMeta(verify, parses, PerformAll(verify, InitRoot(root, name, now), prefix, ops), prefix, n).None?
  {
    RunsStayTidy(verify, root, name, now, prefix, ops);
    var s := PerformAll(verify, InitRoot(root, name, now), prefix, ops);
    TidyMembersHaveAddresses(s, prefix, id.public);
    HonestPeersPass(verify, parses, s, prefix, id, n);
  }

  function MetaOf(n: Node): Bytes {
    MetaBytes(n.name, n.overlayAddr, n.pubKey, n.allowed)
  }

  /** The bytes of an admission or revocation, or anything encoded like one. */
  ghost predicate OfARecord(m: Bytes) {
    exists d, f :: d in {ADMISSION_DOMAIN, REVOCATION_DOMAIN} && Short(f) && m == Encoding(d, f)
  }

  /** The only metadata the identity of own ever signed is own; what records it signed does not matter. */
  ghost predicate SignsOnly(verify: Verifier, own: Node) {
    forall m, sig :: verify(own.identity, m, sig) ==> m == MetaOf(own) || OfARecord(m)
  }

  lemma MetaIsOfNoRecord(n: Node)
    requires |n.name| < TWO_TO_THE_32 && |n.pubKey| < TWO_TO_THE_32
    ensures !OfARecord(MetaOf(n))
  {
    if OfARecord(MetaOf(n)) {
      var d, f :| d in {ADMISSION_DOMAIN, REVOCATION_DOMAIN} && Short(f) && MetaOf(n) == Encoding(d, f);
      DomainsDiffer();
      KindsNeverCollide(META_DOMAIN, MetaFields(n.name, n.overlayAddr, n.pubKey, n.allowed), d, f);
    }
  }

  lemma DomainsDiffer()
    ensures META_DOMAIN !in {ADMISSION_DOMAIN, REVOCATION_DOMAIN}
  {
    assert |META_DOMAIN| != |ADMISSION_DOMAIN| && |META_DOMAIN| != |REVOCATION_DOMAIN|;
  }

  /**
   A peer that passes is, field by field, the one its identity signed, at the address the
   records assign it: no signed record can stand in for metadata, and no field can be moved.
  */
  lemma VerifiedPeersAreAsSigned(verify: Verifier, parses: Bytes -> bool, s: Store, prefix: Prefix, n: Node, own: Node)
    requires n.identity == own.identity && SignsOnly(verify, own)
    requires |n.name| < TWO_TO_THE_32 && |n.pubKey| < TWO_TO_THE_32 && |own.name| < TWO_TO_THE_32
      && |own.pubKey| < TWO_TO_THE_32
    requires VerifyMeta(verify, parses, s, prefix, n).None?
    ensures n == own.(signature := n.signature)
    ensures AssignedAddr(s, prefix, own.identity) == Ok(own.overlayAddr) && parses(own.pubKey)
  {
    MetaIsOfNoRecord(n);
    MetaBytesDetermine(n.name, n.overlayAddr, n.pubKey, n.allowed, own.name, own.overlayAddr, own.pubKey, own.allowed);
  }

  /** What a node keeps between runs. */
  datatype Bootstrap = Bootstrap(root: PublicKey, records: Records)

  datatype StartError = NotMember | Unassigned(reason: AddrError) | OtherAddress

  /** The checks New makes on what was saved: the node is a member and its address is the one assigned. */
  function StartCheck(verify: Verifier, prefix: Prefix, boot: Bootstrap, self: PublicKey,
      local: Addr): Option<StartError> {
    var s := AddAll(verify, EmptyStore(boot.root), InMergeOrder(boot.records));
    if !Member(s, self) then Some(NotMember)
    else match AssignedAddr(s, prefix, self)
      case Err(e) => Some(Unassigned(e))
      case Ok(want) => if want != local then Some(OtherAddress) else None
  }

  /** The record withdraws the target's membership in the signer's name. */
  predicate IsRevocation(rev: Revocation, target: PublicKey, signer: PublicKey, now: int64) {
    rev.identity == target && rev.revoker == signer && rev.issuedAt == now
  }

  /** A revocation signed by a member now takes the target out, itself included, and nobody else. */
  lemma RevokingTakesTheTarget(verify: Verifier, s: Store, id: Identity, target: PublicKey, now: int64)
    ensures var rev := TrustRecords.Revoke(id, target, now);
      var t := WithRevocation(verify, s, rev);
      && IsRevocation(rev, target, id.public, now)
      && (ValidateRevocation(verify, rev).None? ==>
            target !in s.revocations && AllBefore(s, now) && Member(s, id.public) ==>
              !Member(t, target) && forall o :: o != target ==> (Member(t, o) <==> Member(s, o)))
  {
    var rev := TrustRecords.Revoke(id, target, now);
    SignedAsAsked(id, target, [], 0, now);
    if ValidateRevocation(verify, rev).None? && target !in s.revocations && AllBefore(s, now) && Member(s, id.public) {
      forall o ensures if o == target then !Member(WithRevocation(verify, s, rev), o)
                       else Member(WithRevocation(verify, s, rev), o) <==> Member(s, o)
      {
        RevocationEffect(verify, s, rev, o);
      }
    }
  }

  class Cluster {
    const verify: Verifier
    const id: Identity
    const overlay: Prefix
    const trust: Set
    /** Records queued for gossip, oldest first. */
    var queue: seq<Record>
    var boot: Bootstrap
    /** The one-slot signal that wakes the Members loop. */
    var changed: bool

    ghost predicate Sound()
      reads this, trust
    {
      trust.Sound() && trust.verify == verify
    }

    /** What is saved is exactly what the set holds. */
    ghost predicate Saved()
      reads this, trust
    {
      boot.root == trust.root && Filed(trust.Contents()) && boot.records == Listing(trust.Contents())
    }

    constructor (verify: Verifier, id: Identity, overlay: Prefix, trust: Set, boot: Bootstrap)
      requires trust.Sound() && trust.verify == verify
      ensures this.verify == verify && this.id == id && this.overlay == overlay && this.trust == trust
      ensures queue == [] && this.boot == boot && !changed && Sound()
    {
      this.verify, this.id, this.overlay, this.trust := verify, id, overlay, trust;
      this.queue, this.boot, this.changed := [], boot, false;
    }

    /** saveState: the file write is left out, what is written is not. */
    method SaveState()
      requires Sound() && boot.root == trust.root
      modifies this`boot
      ensures Sound() && Saved()
    {
      var rs := trust.Records();
      boot := boot.(records := rs);
    }

    /** The slot of an identity enrolling again, else a free one. */
    method PickSlot(joiner: PublicKey) returns (host: Option<uint64>)
      requires Sound()
      modifies trust`members
      ensures Sound() && trust.Contents() == old(trust.Contents())
      ensures var s := trust.Contents();
        host == if joiner in s.admissions && Member(s, joiner) then Some(s.admissions[joiner].host)
                else FreeSlot(s, MaxHost(overlay))
    {
      var cur := trust.Lookup(joiner);
      var valid := false;
      if cur.Some? {
        valid := trust.Valid(joiner);
      }
      if cur.Some? && valid {
        return Some(cur.value.host);
      }
      var probes;
      host, probes := trust.FreeHost(MaxHost(overlay));
    }

    /** A new admission is added, passed on and saved, unless the set refuses it. */
    method Enter(a: Admission) returns (r: Result<Records, RecordError>)
      requires Sound() && Saved()
      modifies this, trust
      ensures Sound() && Saved() && changed == old(changed)
      ensures trust.Contents() == WithAdmission(verify, old(trust.Contents()), a)
      ensures match AdmissionError(verify, trust.root, a)
        case None => r == Ok(boot.records) && queue == old(queue) + [Admitted(a)]
        case Some(e) => r == Err(e) && queue == old(queue) && boot == old(boot)
    {
      var added := trust.AddAdmission(a);
      if added.Err? {
        return Err(added.error);
      }
      queue := queue + [Admitted(a)];
      SaveState();
      return Ok(boot.records);
    }

    method Admit(joiner: PublicKey, name: Bytes, now: int64) returns (r: Result<(Admission, Records), AdmitError>)
      requires Sound() && Saved()
      modifies this, trust
      ensures Sound() && Saved() && changed == old(changed)
      ensures trust.Contents() == AfterAdmit(verify, old(trust.Contents()), id, overlay, joiner, name, now)
      ensures match AdmissionFor(verify, old(trust.Contents()), id, overlay, joiner, name, now)
        case Ok(a) => r.Ok? && r.value.0 == a && r.value.1 == boot.records && queue == old(queue) + [Admitted(a)]
        case Err(e) => r == Err(e) && queue == old(queue) && boot == old(boot)
      ensures r.Ok? ==>
        var kept := old(trust.Contents()).admissions;
        Stored(trust.Contents(), Admitted(r.value.0)) <==>
          joiner !in kept || kept[joiner].issuedAt < now || kept[joiner] == r.value.0
    {
      ghost var before := trust.Contents();
      var taken := trust.NameTaken(name, joiner);
      if taken {
        return Err(NameHeld);
      }
      var host := PickSlot(joiner);
      if host.None? {
        return Err(OverlayFull);
      }
      var a := TrustRecords.Admit(id, joiner, name, host.value, now);
      var entered := Enter(a);
      if entered.Err? {
        return Err(Refused(entered.error));
      }
      AdmissionIsStoredIff(verify, before, id, overlay, joiner, name, now);
      return Ok((a, entered.value));
    }

    /** Revoke signs a revocation and passes it on, whether or not an earlier one stands. */
    method Revoke(target: PublicKey, now: int64) returns (r: Result<(), RecordError>)
      requires Sound() && Saved()
      modifies this, trust
      ensures Sound() && Saved()
      ensures var rev := TrustRecords.Revoke(id, target, now);
        && trust.Contents() == WithRevocation(verify, old(trust.Contents()), rev)
        && (ValidateRevocation(verify, rev).None? <==> r.Ok?)
        && queue == (if r.Ok? then old(queue) + [Revoked(rev)] else old(queue))
        && changed == (r.Ok? || old(changed))
      ensures r.Ok? ==>
        var before, after := old(trust.Contents()), trust.Contents();
        && target in after.revocations && after.admissions == before.admissions
        && (if target in before.revocations then after.revocations == before.revocations
            else after.revocations == before.revocations[target := after.revocations[target]]
                 && IsRevocation(after.revocations[target], target, id.public, now))
        && |queue| == |old(queue)| + 1 && queue[|queue| - 1].Revoked?
        && IsRevocation(queue[|queue| - 1].r, target, id.public, now)
      ensures r.Err? ==> trust.Contents() == old(trust.Contents())
      ensures var before, after := old(trust.Contents()), trust.Contents();
        r.Ok? && target !in before.revocations && AllBefore(before, now) && Member(before, id.public) ==>
          !Member(after, target) && forall o :: o != target ==> (Member(after, o) <==> Member(before, o))
    {
      ghost var before := trust.Contents();
      RevokingTakesTheTarget(verify, before, id, target, now);
      var rev := TrustRecords.Revoke(id, target, now);
      var added := trust.AddRevocation(rev);
      if added.Err? {
        return Err(added.error);
      }
      queue := queue + [Revoked(rev)];
      SaveState();
      changed := true;
      return Ok(());
    }

    /** A record broadcast by a peer is passed on, saved and announced exactly when it changed the set. */
    method NotifyMsg(rec: Record)
      requires Sound() && Saved()
      modifies this, trust
      ensures Sound() && Saved()
      ensures trust.Contents() == WithRecord(verify, old(trust.Contents()), rec)
      ensures var news := trust.Contents() != old(trust.Contents());
        queue == (if news then old(queue) + [rec] else old(queue)) && changed == (news || old(changed))
    {
      var r;
      match rec {
        case Admitted(a) => r := trust.AddAdmission(a);
        case Revoked(rev) => r := trust.AddRevocation(rev);
      }
      if r == Ok(true) {
        queue := queue + [rec];
        SaveState();
        changed := true;
      }
    }

    /** A peer's whole state is merged; nothing is queued, since the peer's other partners get it the same way. */
    method MergeRemoteState(rs: Records)
      requires Sound() && Saved()
      modifies this, trust
      ensures Sound() && Saved() && queue == old(queue)
      ensures trust.Contents() == AddAll(verify, old(trust.Contents()), InMergeOrder(rs))
      ensures changed == (old(changed) || Changes(verify, old(trust.Contents()), InMergeOrder(rs)) > 0)
    {
      NoChangesIff(verify, trust.Contents(), InMergeOrder(rs));
      var n := trust.Merge(rs);
      if n > 0 {
        SaveState();
        changed := true;
      }
    }

    method LocalState() returns (rs: Records)
      requires Sound()
      ensures Filed(trust.Contents()) && rs == Listing(trust.Contents())
    {
      rs := trust.Records();
    }
  }

  /** New: a node starts from what it saved, if the checks pass. */
  method Start(verify: Verifier, id: Identity, prefix: Prefix, boot: Bootstrap, local: Addr)
    returns (r: Result<Cluster, StartError>)
    ensures match StartCheck(verify, prefix, boot, id.public, local)
      case Some(e) => r == Err(e)
      case None =>
        && r.Ok? && fresh(r.value) && fresh(r.value.trust) && r.value.Sound() && r.value.Saved()
        && r.value.id == id && r.value.overlay == prefix && r.value.queue == []
        && r.value.trust.Contents() == AddAll(verify, EmptyStore(boot.root), InMergeOrder(boot.records))
  {
    var trust := new Set(verify, boot.root);
    var n := trust.Merge(boot.records);
    var valid := trust.Valid(id.public);
    if !valid {
      return Err(NotMember);
    }
    var want := Assigned(trust, prefix, id.public);
    match want {
      case Err(e) => return Err(Unassigned(e));
      case Ok(addr) =>
        if addr != local {
          return Err(OtherAddress);
        }
    }
    var node := new Cluster(verify, id, prefix, trust, boot);
    node.SaveState();
    return Ok(node);
  }

  /** assignedAddr, over the set. */
  method Assigned(trust: Set, prefix: Prefix, id: PublicKey) returns (r: Result<Addr, AddrError>)
    requires trust.Sound()
    modifies trust`members
    ensures trust.Sound() && r == AssignedAddr(trust.Contents(), prefix, id)
  {
    var valid := trust.Valid(id);
    if !valid {
      return Err(NotAMember);
    }
    var adm := trust.Lookup(id);
    var addr := SlotAddr(prefix, if adm.Some? then adm.value.host else 0);
    if addr.None? {
      return Err(SlotDoesNotFit);
    }
    var other := trust.HostConflict(id);
    if other.Some? {
      return Err(SlotContested);
    }
    return Ok(addr.value);
  }

  /**
   A node that saved its records and was assigned an address starts again with the same
   records and the same address.
  */
  lemma RestartResumes(verify: Verifier, s: Store, prefix: Prefix, boot: Bootstrap, self: PublicKey, local: Addr)
    requires WellFormed(verify, s) && boot.root == s.root && Lists(InMergeOrder(boot.records), s)
    ensures AddAll(verify, EmptyStore(boot.root), InMergeOrder(boot.records)) == s
    ensures StartCheck(verify, prefix, boot, self, local).None? <==> AssignedAddr(s, prefix, self) == Ok(local)
  {
    RecordsRebuildTheStore(verify, s, InMergeOrder(boot.records));
  }

  /** Bootstrap.InitRoot: the node becomes its own root. */
  function InitRootBootstrap(root: Identity, name: Bytes, now: int64): Bootstrap {
    Bootstrap(root.public, RecordLists([SelfAdmit(root, name, now)], []))
  }

  /**
   The founder of a cluster can start exactly when its name is not empty (else its record is
   refused) and the network has room for slot 1.
  */
  lemma FounderCanStartIff(verify: Verifier, root: Identity, name: Bytes, now: int64, prefix: Prefix)
    requires Honest(verify, root)
    ensures (exists local :: StartCheck(verify, prefix, InitRootBootstrap(root, name, now), root.public, local).None?)
       <==> name != [] && MaxHost(prefix) >= 1
    ensures name != [] ==>
      AddAll(verify, EmptyStore(root.public), InMergeOrder(InitRootBootstrap(root, name, now).records)) ==
        InitRoot(root, name, now)
  {
    var boot := InitRootBootstrap(root, name, now);
    var recs := InMergeOrder(boot.records);
    assert recs == [Admitted(SelfAdmit(root, name, now))];
    assert recs[..|recs| - 1] == [];
    assert AddAll(verify, EmptyStore(root.public), recs[..|recs| - 1]) == EmptyStore(root.public);
    HonestRecordsValidate(verify, root, root.public, name, ROOT_HOST, now);
    var s := AddAll(verify, EmptyStore(root.public), recs);
    assert s == WithRecord(verify, EmptyStore(root.public), recs[0]);
    if name != [] && MaxHost(prefix) >= 1 {
      assert StartCheck(verify, prefix, boot, root.public, SlotAddr(prefix, 1).value).None?;
    }
  }
}
