/**
 Overlay slots and names as the records decide them (internal/trust/set.go:211-283,
 internal/cluster/cluster.go:213-274): which slot an admission gets, who yields a
 contested one, and that no two identities are ever granted one address.
*/
module Slots {
  import opened Basics
  import opened Overlay
  import opened TrustRecords
  import opened TrustStore
  import opened TrustConvergence
  import opened TrustEffects

  // --- free slots ---

  function TakenSlots(s: Store): set<uint64> {
    set id | id in s.admissions :: s.admissions[id].host
  }

  function HeldSlots(s: Store): set<uint64> {
    set id | id in s.admissions && Member(s, id) :: s.admissions[id].host
  }

  function LeastUnused(used: set<uint64>, from: nat, limit: uint64): Option<uint64>
    decreases limit + 1 - from
  {
    if from > limit then None
    else if from !in used then Some(from)
    else LeastUnused(used, from + 1, limit)
  }

  /** The least slot that no admission uses, else the least that no member holds. */
  function FreeSlot(s: Store, limit: uint64): Option<uint64> {
    var r := LeastUnused(TakenSlots(s), 1, limit);
    if r.Some? then r else LeastUnused(HeldSlots(s), 1, limit)
  }

  lemma {:induction false} LeastUnusedIsLeast(used: set<uint64>, from: nat, limit: uint64)
    ensures match LeastUnused(used, from, limit)
      case None => forall h: uint64 :: from <= h <= limit ==> h in used
      case Some(h) => from <= h <= limit && h !in used && forall g: uint64 :: from <= g < h ==> g in used
    decreases limit + 1 - from
  {
    if from <= limit && from in used {
      LeastUnusedIsLeast(used, from + 1, limit);
    }
  }

  /**
   A slot is found unless members fill 1..limit; it is in range and no member holds it;
   every smaller one is in use; and one that some record uses is taken only when records
   use them all.
  */
  lemma FreeSlotIsSpare(s: Store, limit: uint64)
    ensures FreeSlot(s, limit).None? <==> forall h: uint64 :: 1 <= h <= limit ==> h in HeldSlots(s)
    ensures FreeSlot(s, limit).Some? ==>
      var h := FreeSlot(s, limit).value;
      && 1 <= h <= limit && h !in HeldSlots(s)
      && (forall g: uint64 :: 1 <= g < h ==> g in TakenSlots(s))
      && (h in TakenSlots(s) ==> forall g: uint64 :: 1 <= g <= limit ==> g in TakenSlots(s))
      && (h in TakenSlots(s) ==> forall g: uint64 :: 1 <= g < h ==> g in HeldSlots(s))
  {
    LeastUnusedIsLeast(TakenSlots(s), 1, limit);
    LeastUnusedIsLeast(HeldSlots(s), 1, limit);
    assert HeldSlots(s) <= TakenSlots(s);
  }

  lemma {:induction false} ImageIsNoLarger(m: map<PublicKey, Admission>, keys: set<PublicKey>)
    requires keys <= m.Keys
    ensures |set id | id in keys :: m[id].host| <= |keys|
  {
    if id :| id in keys {
      ImageIsNoLarger(m, keys - {id});
      assert (set i | i in keys :: m[i].host) == (set i | i in keys - {id} :: m[i].host) + {m[id].host};
    }
  }

  /** There are no more slots in use than admissions, so a pass over the slots is short however many there are. */
  lemma SlotsInUseAreFew(s: Store)
    ensures |TakenSlots(s)| <= |s.admissions| && |HeldSlots(s)| <= |s.admissions|
  {
    var held := set id | id in s.admissions && Member(s, id);
    ImageIsNoLarger(s.admissions, s.admissions.Keys);
    ImageIsNoLarger(s.admissions, held);
    assert TakenSlots(s) == set id | id in s.admissions.Keys :: s.admissions[id].host;
    assert HeldSlots(s) == set id | id in held :: s.admissions[id].host;
    assert |held| <= |s.admissions.Keys| by { SubsetIsSmaller(held, s.admissions.Keys); }
  }

  // --- names ---

  predicate NameInUse(s: Store, name: Bytes, except: PublicKey) {
    exists id :: id in s.admissions && Member(s, id) && s.admissions[id].name == name && id != except
  }

  // --- contested slots ---

  /** The earlier admission, or at the same time the smaller identity. */
  predicate Stronger(a: Admission, b: Admission) {
    a.issuedAt < b.issuedAt || (a.issuedAt == b.issuedAt && KeyLess(a.identity, b.identity))
  }

  /** Another member holds the slot of mine with a stronger claim. */
  predicate Beats(s: Store, other: PublicKey, mine: Admission)
    requires other in s.admissions
  {
    && Member(s, other) && other != mine.identity
    && s.admissions[other].host == mine.host && Stronger(s.admissions[other], mine)
  }

  predicate Contested(s: Store, id: PublicKey) {
    id in s.admissions && exists other :: other in s.admissions && Beats(s, other, s.admissions[id])
  }

  /** Who yields: the one admitted later, or in the same second the one whose identity has the larger bytes. */
  lemma LaterYields(s: Store, id: PublicKey)
    requires Filed(s) && id in s.admissions
    ensures Contested(s, id) <==>
      exists o :: o in s.admissions && o != id && Member(s, o) && s.admissions[o].host == s.admissions[id].host
        && (s.admissions[o].issuedAt < s.admissions[id].issuedAt
            || (s.admissions[o].issuedAt == s.admissions[id].issuedAt && BytesLess(o.raw, id.raw)))
  {
    if o :| o in s.admissions && o != id && Member(s, o) && s.admissions[o].host == s.admissions[id].host
            && (s.admissions[o].issuedAt < s.admissions[id].issuedAt
                || (s.admissions[o].issuedAt == s.admissions[id].issuedAt && BytesLess(o.raw, id.raw)))
    {
      assert Beats(s, o, s.admissions[id]);
    }
  }

  datatype AddrError = NotAMember | SlotDoesNotFit | SlotContested

  /** assignedAddr: the address id's admission entitles it to; a member without a record has no slot. */
  function AssignedAddr(s: Store, prefix: Prefix, id: PublicKey): Result<Addr, AddrError> {
    if !Member(s, id) then Err(NotAMember)
    else
      var addr := SlotAddr(prefix, if id in s.admissions then s.admissions[id].host else 0);
      if addr.None? then Err(SlotDoesNotFit)
      else if Contested(s, id) then Err(SlotContested)
      else Ok(addr.value)
  }

  /** Of two members with one slot, at least one yields. */
  lemma OneOfTwoYields(s: Store, i: PublicKey, j: PublicKey)
    requires Filed(s) && i != j && i in s.admissions && j in s.admissions
    requires Member(s, i) && Member(s, j) && s.admissions[i].host == s.admissions[j].host
    ensures Contested(s, i) || Contested(s, j)
  {
    KeyLessIsStrictTotalOrder(i, j, i);
    assert Beats(s, i, s.admissions[j]) || Beats(s, j, s.admissions[i]);
  }

  /** On any records whatever, no two identities are assigned one address. */
  lemma AddressesAreUnique(s: Store, prefix: Prefix, i: PublicKey, j: PublicKey)
    requires Filed(s)
    requires AssignedAddr(s, prefix, i).Ok? && AssignedAddr(s, prefix, j).Ok?
    ensures AssignedAddr(s, prefix, i) == AssignedAddr(s, prefix, j) ==> i == j
  {
    SlotAddrIsInjective(prefix, s.admissions[i].host, s.admissions[j].host);
    if i != j && s.admissions[i].host == s.admissions[j].host {
      OneOfTwoYields(s, i, j);
    }
  }

  /** Among some holders one has a claim stronger than all the others'. */
  lemma {:induction false} StrongestClaim(s: Store, holders: set<PublicKey>) returns (winner: PublicKey)
    requires Filed(s) && holders != {} && holders <= s.admissions.Keys
    ensures winner in holders
    ensures forall o :: o in holders && o != winner ==> Stronger(s.admissions[winner], s.admissions[o])
  {
    winner :| winner in holders;
    if holders != {winner} {
      var first := winner;
      winner := StrongestClaim(s, holders - {first});
      var a, w := s.admissions[first], s.admissions[winner];
      KeyLessIsStrictTotalOrder(first, winner, first);
      if Stronger(a, w) {
        forall o | o in holders && o != first ensures Stronger(a, s.admissions[o]) {
          KeyLessIsStrictTotalOrder(first, winner, o);
        }
        winner := first;
      }
    }
  }

  /** Every slot of the network held by some member is granted to exactly one: the strongest claim. */
  lemma HeldSlotsAreGrantedOnce(s: Store, prefix: Prefix, host: uint64) returns (winner: PublicKey)
    requires Filed(s) && host in HeldSlots(s) && SlotAddr(prefix, host).Some?
    ensures winner in s.admissions && s.admissions[winner].host == host
    ensures AssignedAddr(s, prefix, winner) == Ok(SlotAddr(prefix, host).value)
    ensures forall o :: o in s.admissions && Member(s, o) && s.admissions[o].host == host && o != winner ==>
              Stronger(s.admissions[winner], s.admissions[o]) && AssignedAddr(s, prefix, o) == Err(SlotContested)
    ensures forall o :: o in s.admissions && Member(s, o) && s.admissions[o].host == host && o != winner ==>
              s.admissions[winner].issuedAt < s.admissions[o].issuedAt
              || (s.admissions[winner].issuedAt == s.admissions[o].issuedAt && BytesLess(winner.raw, o.raw))
  {
    var holders := set id | id in s.admissions && s.admissions[id].host == host && Member(s, id);
    var holder :| holder in s.admissions && s.admissions[holder].host == host && Member(s, holder);
    assert holder in holders;
    winner := StrongestClaim(s, holders);
    forall o | o in s.admissions ensures !Beats(s, o, s.admissions[winner]) {
      if o in holders && o != winner {
        KeyLessIsStrictTotalOrder(o, winner, o);
      }
    }
    forall o | o in holders && o != winner ensures Contested(s, o) {
      assert Beats(s, winner, s.admissions[o]);
    }
  }

  /**
   Nobody loses an address to a newcomer: an identity that has one keeps it when another, that
   has signed nothing, is admitted to the same slot at a later date, or in the same second
   under a larger identity.
  */
  lemma LaterClaimTakesNothing(verify: Verifier, s: Store, prefix: Prefix, id: PublicKey, a: Admission)
    requires Filed(s) && AssignedAddr(s, prefix, id).Ok?
    requires AdmissionError(verify, s.root, a).None? && KeepsAdmission(s, a)
    requires a.identity != id && a.identity != s.root && Silent(s, a.identity)
    requires id in s.admissions ==>
      a.issuedAt > s.admissions[id].issuedAt
        || (a.issuedAt == s.admissions[id].issuedAt && BytesLess(id.raw, a.identity.raw))
    ensures AssignedAddr(WithAdmission(verify, s, a), prefix, id) == AssignedAddr(s, prefix, id)
  {
    var t := WithAdmission(verify, s, a);
    forall o | o != a.identity ensures Member(t, o) <==> Member(s, o) {
      AdmissionEffect(verify, s, a, o);
    }
    assert id in s.admissions;
    KeyLessIsStrictTotalOrder(id, a.identity, id);
    forall o | o in t.admissions ensures !Beats(t, o, t.admissions[id]) {
      if o != a.identity && Beats(t, o, t.admissions[id]) {
        assert Beats(s, o, s.admissions[id]);
      }
    }
  }

  // --- admitting a joiner ---

  datatype AdmitError = NameHeld | OverlayFull | Refused(reason: RecordError)

  /** The admission Cluster.admit signs: a member enrolling again keeps its slot, anyone else gets a free one. */
  function AdmissionFor(verify: Verifier, s: Store, self: Identity, prefix: Prefix, joiner: PublicKey, name: Bytes,
      now: int64)
    : Result<Admission, AdmitError>
  {
    if NameInUse(s, name, joiner) then Err(NameHeld)
    else
      var slot := if joiner in s.admissions && Member(s, joiner) then Some(s.admissions[joiner].host)
                  else FreeSlot(s, MaxHost(prefix));
      if slot.None? then Err(OverlayFull)
      else
        var a := Admit(self, joiner, name, slot.value, now);
        match AdmissionError(verify, s.root, a) case Some(e) => Err(Refused(e)) case None => Ok(a)
  }

  function AfterAdmit(verify: Verifier, s: Store, self: Identity, prefix: Prefix, joiner: PublicKey, name: Bytes,
      now: int64): Store {
    match AdmissionFor(verify, s, self, prefix, joiner, name, now)
    case Ok(a) => WithAdmission(verify, s, a)
    case Err(_) => s
  }

  /** Some member's record has the slot. */
  predicate SomeMemberHas(s: Store, host: uint64) {
    exists o :: o in s.admissions && Member(s, o) && s.admissions[o].host == host
  }

  /** A name is refused exactly when another member has it. */
  lemma NameIsRefusedIff(verify: Verifier, s: Store, self: Identity, prefix: Prefix, joiner: PublicKey, name: Bytes,
      now: int64)
    ensures AdmissionFor(verify, s, self, prefix, joiner, name, now) == Err(NameHeld) <==>
      exists o :: o in s.admissions && o != joiner && Member(s, o) && s.admissions[o].name == name
  {
    var r := AdmissionFor(verify, s, self, prefix, joiner, name, now);
    if o :| o in s.admissions && o != joiner && Member(s, o) && s.admissions[o].name == name {
      assert NameInUse(s, name, joiner);
    }
    if NameInUse(s, name, joiner) {
      assert r == Err(NameHeld);
    }
  }

  /** A slot is wanting exactly when the joiner is not a member with a record and members hold every slot. */
  lemma NoSlotIsFreeIff(verify: Verifier, s: Store, self: Identity, prefix: Prefix, joiner: PublicKey, name: Bytes,
      now: int64)
    requires AdmissionFor(verify, s, self, prefix, joiner, name, now) != Err(NameHeld)
    ensures AdmissionFor(verify, s, self, prefix, joiner, name, now) == Err(OverlayFull) <==>
      !(joiner in s.admissions && Member(s, joiner))
      && forall h: uint64 :: 1 <= h <= MaxHost(prefix) ==> SomeMemberHas(s, h)
  {
    FreeSlotIsSpare(s, MaxHost(prefix));
    assert forall h: uint64 :: h in HeldSlots(s) <==> SomeMemberHas(s, h);
  }

  /**
   An admission says what was asked of it and is signed over that. A member with a record
   keeps its slot; anybody else, revoked or not, gets one in range that no member has.
  */
  lemma AdmittedAsAsked(verify: Verifier, s: Store, self: Identity, prefix: Prefix, joiner: PublicKey, name: Bytes,
      now: int64)
    requires AdmissionFor(verify, s, self, prefix, joiner, name, now).Ok?
    ensures var a := AdmissionFor(verify, s, self, prefix, joiner, name, now).value;
      && a.identity == joiner && a.name == name && a.admitter == self.public && a.issuedAt == now
      && SignedAdmission(verify, s.root, a)
      && if joiner in s.admissions && Member(s, joiner) then a.host == s.admissions[joiner].host
         else 1 <= a.host <= MaxHost(prefix) && !SomeMemberHas(s, a.host)
  {
    var a := AdmissionFor(verify, s, self, prefix, joiner, name, now).value;
    FreeSlotIsSpare(s, MaxHost(prefix));
    assert forall h: uint64 :: h in HeldSlots(s) <==> SomeMemberHas(s, h);
    AcceptedIffSigned(verify, s.root, a, Revocation(joiner, joiner, 0, []));
  }

  /** A member that enrols again has the slot it had, whether or not the new admission is stored. */
  lemma EnrollingAgainKeepsSlot(verify: Verifier, s: Store, self: Identity, prefix: Prefix, joiner: PublicKey,
      name: Bytes, now: int64)
    requires joiner in s.admissions && Member(s, joiner)
    ensures var t := AfterAdmit(verify, s, self, prefix, joiner, name, now);
      joiner in t.admissions && t.admissions[joiner].host == s.admissions[joiner].host
  {
    if AdmissionFor(verify, s, self, prefix, joiner, name, now).Ok? {
      AdmittedAsAsked(verify, s, self, prefix, joiner, name, now);
    }
  }

  /**
   And where the records are tidy, it has signed nothing, and a member admits it again, it
   stays a member with the address it had; nobody else's address changes either.
  */
  lemma EnrollingAgainKeepsAddress(verify: Verifier, s: Store, self: Identity, prefix: Prefix, joiner: PublicKey,
      name: Bytes, now: int64, id: PublicKey)
    requires Filed(s) && Tidy(s, prefix) && joiner in s.admissions && Member(s, joiner) && joiner != s.root
    requires Silent(s, joiner) && joiner !in s.revocations && AllBefore(s, now) && Member(s, self.public)
    requires self.public != joiner
    ensures var t := AfterAdmit(verify, s, self, prefix, joiner, name, now);
      (Member(t, id) <==> Member(s, id)) && AssignedAddr(t, prefix, id) == AssignedAddr(s, prefix, id)
  {
    var r := AdmissionFor(verify, s, self, prefix, joiner, name, now);
    var t := AfterAdmit(verify, s, self, prefix, joiner, name, now);
    if r.Ok? {
      AdmittedAsAsked(verify, s, self, prefix, joiner, name, now);
      forall o ensures Member(t, o) <==> Member(s, o) {
        AdmissionEffect(verify, s, r.value, o);
      }
      SameSlotsSameAddress(s, t, prefix, id);
    }
  }

  lemma SameSlotsSameAddress(s: Store, t: Store, prefix: Prefix, id: PublicKey)
    requires Filed(s) && Tidy(s, prefix) && s.admissions.Keys == t.admissions.Keys
    requires forall o :: o in s.admissions ==>
      t.admissions[o].identity == o && t.admissions[o].host == s.admissions[o].host
    requires forall o :: Member(t, o) <==> Member(s, o)
    ensures AssignedAddr(t, prefix, id) == AssignedAddr(s, prefix, id)
  {
    if id in s.admissions && Member(s, id) {
      assert !Contested(s, id);
      assert !Contested(t, id);
    }
  }

  /**
   The admission that is signed, passed on and returned is the one stored exactly when the
   record kept for the joiner is older, or is that same one; otherwise nothing is stored.
  */
  lemma AdmissionIsStoredIff(verify: Verifier, s: Store, self: Identity, prefix: Prefix, joiner: PublicKey, name: Bytes,
      now: int64)
    requires AdmissionFor(verify, s, self, prefix, joiner, name, now).Ok?
    ensures var a := AdmissionFor(verify, s, self, prefix, joiner, name, now).value;
      var t := AfterAdmit(verify, s, self, prefix, joiner, name, now);
      && (Stored(t, Admitted(a)) <==>
            joiner !in s.admissions || s.admissions[joiner].issuedAt < now || s.admissions[joiner] == a)
      && (!Stored(t, Admitted(a)) ==> t == s)
  {
    var a := AdmissionFor(verify, s, self, prefix, joiner, name, now).value;
    assert a.identity == joiner && a.issuedAt == now;
  }

  lemma AdmittingKeepsFiled(verify: Verifier, s: Store, self: Identity, prefix: Prefix, joiner: PublicKey, name: Bytes,
      now: int64)
    requires Filed(s)
    ensures Filed(AfterAdmit(verify, s, self, prefix, joiner, name, now))
  {
  }

  /** Members that have a record hold distinct slots of the network under distinct names. */
  ghost predicate Tidy(s: Store, prefix: Prefix) {
    && (forall id :: id in s.admissions && Member(s, id) ==> 1 <= s.admissions[id].host <= MaxHost(prefix))
    && (forall i, j :: i in s.admissions && j in s.admissions && i != j && Member(s, i) && Member(s, j) ==>
          s.admissions[i].host != s.admissions[j].host && s.admissions[i].name != s.admissions[j].name)
  }

  /** Where the records are tidy every member with a record has its address. */
  lemma TidyMembersHaveAddresses(s: Store, prefix: Prefix, id: PublicKey)
    requires Filed(s) && Tidy(s, prefix) && id in s.admissions && Member(s, id)
    ensures AssignedAddr(s, prefix, id) == Ok(SlotAddr(prefix, s.admissions[id].host).value)
  {
  }

  /** Nothing is known of the identity: no admission, no revocation, nothing it has signed. */
  predicate Unknown(s: Store, id: PublicKey) {
    id != s.root && id !in s.admissions && id !in s.revocations && Silent(s, id)
  }

  /** An identity nothing is known of joins alone: nobody else's membership changes. */
  lemma AdmittingDisturbsNobody(verify: Verifier, s: Store, self: Identity, prefix: Prefix, joiner: PublicKey,
      name: Bytes, now: int64)
    requires Unknown(s, joiner)
    ensures forall id :: id != joiner ==>
      (Member(AfterAdmit(verify, s, self, prefix, joiner, name, now), id) <==> Member(s, id))
  {
    var r := AdmissionFor(verify, s, self, prefix, joiner, name, now);
    var t := AfterAdmit(verify, s, self, prefix, joiner, name, now);
    if r.Ok? {
      forall id | id != joiner ensures Member(t, id) <==> Member(s, id) {
        AdmissionEffect(verify, s, r.value, id);
      }
    }
  }

  lemma AdmittingKeepsTidy(verify: Verifier, s: Store, self: Identity, prefix: Prefix, joiner: PublicKey, name: Bytes,
      now: int64)
    requires Filed(s) && Tidy(s, prefix) && Unknown(s, joiner)
    ensures Tidy(AfterAdmit(verify, s, self, prefix, joiner, name, now), prefix)
  {
    var r := AdmissionFor(verify, s, self, prefix, joiner, name, now);
    if r.Ok? {
      AdmittingDisturbsNobody(verify, s, self, prefix, joiner, name, now);
      FreeSlotIsSpare(s, MaxHost(prefix));
      NewcomerFits(s, WithAdmission(verify, s, r.value), prefix, r.value);
    }
  }

  lemma NewcomerFits(s: Store, t: Store, prefix: Prefix, a: Admission)
    requires Tidy(s, prefix) && a.identity !in s.admissions
    requires t.admissions == s.admissions[a.identity := a]
    requires forall id :: id != a.identity ==> (Member(t, id) <==> Member(s, id))
    requires 1 <= a.host <= MaxHost(prefix) && a.host !in HeldSlots(s) && !NameInUse(s, a.name, a.identity)
    ensures Tidy(t, prefix)
  {
    forall id | id in s.admissions && Member(s, id) ensures s.admissions[id].host in HeldSlots(s) {
    }
  }

  lemma RevokingKeepsTidy(verify: Verifier, s: Store, prefix: Prefix, r: Revocation)
    requires Tidy(s, prefix) && AllBefore(s, r.issuedAt)
    ensures Tidy(WithRevocation(verify, s, r), prefix)
  {
    var t := WithRevocation(verify, s, r);
    if t != s {
      forall id ensures Member(t, id) ==> Member(s, id) {
        RevocationEffect(verify, s, r, id);
      }
    }
  }

  // --- runs ---

  datatype Op =
    | AdmitOp(self: Identity, joiner: PublicKey, name: Bytes, now: int64)
    | RevokeOp(self: Identity, target: PublicKey, now: int64)

  function Perform(verify: Verifier, s: Store, prefix: Prefix, op: Op): Store {
    match op
    case AdmitOp(self, joiner, name, now) => AfterAdmit(verify, s, self, prefix, joiner, name, now)
    case RevokeOp(self, target, now) => WithRevocation(verify, s, Revoke(self, target, now))
  }

  function PerformAll(verify: Verifier, s: Store, prefix: Prefix, ops: seq<Op>): Store {
    if ops == [] then s else Perform(verify, PerformAll(verify, s, prefix, ops[..|ops| - 1]), prefix, ops[|ops| - 1])
  }

  /** What Bootstrap.InitRoot leaves: the root's own admission, to slot 1. */
  function InitRoot(root: Identity, name: Bytes, now: int64): Store {
    Store(root.public, map[root.public := SelfAdmit(root, name, now)], map[])
  }

  ghost predicate Timely(s: Store, op: Op) {
    match op
    case AdmitOp(_, joiner, _, _) => Unknown(s, joiner)
    case RevokeOp(_, _, now) => AllBefore(s, now)
  }

  /** Joiners are new to the cluster, and a revocation is dated after what is stored. */
  ghost predicate Orderly(verify: Verifier, s: Store, prefix: Prefix, ops: seq<Op>) {
    forall i :: 0 <= i < |ops| ==> Timely(PerformAll(verify, s, prefix, ops[..i]), ops[i])
  }

  lemma PerformKeepsTidy(verify: Verifier, s: Store, prefix: Prefix, op: Op)
    requires Filed(s) && Tidy(s, prefix) && Timely(s, op)
    ensures Filed(Perform(verify, s, prefix, op)) && Tidy(Perform(verify, s, prefix, op), prefix)
  {
    match op
    case AdmitOp(self, joiner, n, t) => AdmittingKeepsTidy(verify, s, self, prefix, joiner, n, t);
    case RevokeOp(self, target, t) => RevokingKeepsTidy(verify, s, prefix, Revoke(self, target, t));
  }

  lemma {:induction false} RunsStayTidy(verify: Verifier, root: Identity, name: Bytes, now: int64, prefix: Prefix,
      ops: seq<Op>)
    requires MaxHost(prefix) >= 1
    requires Orderly(verify, InitRoot(root, name, now), prefix, ops)
    ensures var s := PerformAll(verify, InitRoot(root, name, now), prefix, ops); Filed(s) && Tidy(s, prefix)
  {
    if ops != [] {
      var init, op := ops[..|ops| - 1], ops[|ops| - 1];
      var start := InitRoot(root, name, now);
      forall i | 0 <= i < |init| ensures Timely(PerformAll(verify, start, prefix, init[..i]), init[i]) {
        assert init[i] == ops[i] && init[..i] == ops[..i];
      }
      RunsStayTidy(verify, root, name, now, prefix, init);
      PerformKeepsTidy(verify, PerformAll(verify, start, prefix, init), prefix, op);
    }
  }

  /**
   From the founding of a cluster, after any enrolments of new identities and any
   revocations, every member with a record has an address of its own in the network.
  */
  lemma RunsGiveEveryMemberItsAddress(verify: Verifier, root: Identity, name: Bytes, now: int64, prefix: Prefix,
      ops: seq<Op>, id: PublicKey)
    requires MaxHost(prefix) >= 1
    requires Orderly(verify, InitRoot(root, name, now), prefix, ops)
    ensures var s := PerformAll(verify, InitRoot(root, name, now), prefix, ops);
      id in s.admissions && Member(s, id) ==> AssignedAddr(s, prefix, id).Ok?
  {
    RunsStayTidy(verify, root, name, now, prefix, ops);
    var s := PerformAll(verify, InitRoot(root, name, now), prefix, ops);
    if id in s.admissions && Member(s, id) {
      TidyMembersHaveAddresses(s, prefix, id);
    }
  }
}
