/**
 Membership as a history: where signers were admitted before they signed, the
 recursive walk of validAt computes what replaying the records in order of time does.
*/
module TrustReplay {
  import opened Basics
  import opened TrustRecords
  import opened TrustStore
  import opened TrustEffects

  /** The identity's own admission, if it needs one and has one, came before. */
  predicate AdmittedBefore(s: Store, id: PublicKey, at: int64) {
    id == s.root || id !in s.admissions || s.admissions[id].issuedAt < at
  }

  /**
   Records whose times tell a consistent story: nobody but the root signs about another
   before its own stored admission, and no two revocations share a second.
  */
  ghost predicate Chronological(s: Store) {
    && (forall id :: id in s.admissions ==> s.admissions[id].issuedAt < MAX_INT64)
    && (forall id :: id in s.admissions && s.admissions[id].admitter != id ==>
          AdmittedBefore(s, s.admissions[id].admitter, s.admissions[id].issuedAt))
    && (forall id :: id in s.revocations && s.revocations[id].revoker != id ==>
          AdmittedBefore(s, s.revocations[id].revoker, s.revocations[id].issuedAt))
    && (forall i, j :: i in s.revocations && j in s.revocations && i != j ==>
          s.revocations[i].issuedAt != s.revocations[j].issuedAt)
  }

  /** The identity is revoked in the very second asked about. */
  predicate Tied(s: Store, id: PublicKey, at: int64) {
    id in s.revocations && s.revocations[id].issuedAt == at
  }

  /** The order in which the walk descends: to earlier times, and within a second away from revoked identities. */
  predicate Later(s: Store, q: Question, id: PublicKey, at: int64) {
    q.at > at || (q.at == at && Tied(s, q.id, at) && !Tied(s, id, at))
  }

  /** Membership without any cycle guard. */
  ghost predicate Plain(s: Store, id: PublicKey, at: int64)
    requires Chronological(s) && AdmittedBefore(s, id, at)
    decreases at + MAX_INT64 + 1, if Tied(s, id, at) then 1 else 0
  {
    var rev := RevocationBy(s, id, at);
    if rev.Some? && (rev.value.revoker == id || Plain(s, rev.value.revoker, rev.value.issuedAt)) then false
    else id == s.root || (id in s.admissions && s.admissions[id].admitter != id
                          && Plain(s, s.admissions[id].admitter, s.admissions[id].issuedAt))
  }

  /**
   On chronological records the cycle guard never fires: whatever later questions are open,
   validAt is the plain walk.
  */
  lemma {:induction false} GuardNeverFires(s: Store, id: PublicKey, at: int64, visiting: set<Question>)
    requires Chronological(s) && AdmittedBefore(s, id, at)
    requires forall q :: q in visiting ==> Later(s, q, id, at)
    ensures MemberAt(s, id, at, visiting) == Plain(s, id, at)
    decreases at + MAX_INT64 + 1, if Tied(s, id, at) then 1 else 0
  {
    var q := Question(id, at);
    var rev := RevocationBy(s, id, at);
    var open := if id == s.root then visiting else visiting + {q};
    if rev.Some? && rev.value.revoker != id {
      GuardNeverFires(s, rev.value.revoker, rev.value.issuedAt, open);
    }
    if id != s.root && id in s.admissions && s.admissions[id].admitter != id {
      GuardNeverFires(s, s.admissions[id].admitter, s.admissions[id].issuedAt, open);
    }
  }

  // --- replay ---

  function TimeOf(e: Record): int64 {
    match e case Admitted(a) => a.issuedAt case Revoked(r) => r.issuedAt
  }

  /** Earlier second first, and within a second revocations first. */
  predicate Before(e: Record, f: Record) {
    TimeOf(e) < TimeOf(f) || (TimeOf(e) == TimeOf(f) && e.Revoked? && f.Admitted?)
  }

  /** The records of s in chronological order; the order of admissions within one second is free. */
  ghost predicate Timeline(s: Store, events: seq<Record>) {
    && (forall e :: e in events <==> Stored(s, e))
    && (forall i, j :: 0 <= i < j < |events| ==> !Before(events[j], events[i]))
  }

  datatype Roster = Roster(members: set<PublicKey>, barred: set<PublicKey>)

  /**
   An admission by a current member adds its subject; a revocation by a current member,
   or by its subject, bars the subject for good.
  */
  function Apply(st: Roster, e: Record): Roster {
    match e
    case Admitted(a) =>
      if a.admitter in st.members && a.identity !in st.barred
      then Roster(st.members + {a.identity}, st.barred) else st
    case Revoked(r) =>
      if r.revoker == r.identity || r.revoker in st.members
      then Roster(st.members - {r.identity}, st.barred + {r.identity}) else st
  }

  function Replay(root: PublicKey, events: seq<Record>): Roster {
    if events == [] then Roster({root}, {})
    else Apply(Replay(root, events[..|events| - 1]), events[|events| - 1])
  }

  /** The revocation takes effect: its signer is its subject or was a member. */
  ghost predicate Effective(s: Store, r: Revocation)
    requires Chronological(s) && Stored(s, Revoked(r))
  {
    r.revoker == r.identity || Plain(s, r.revoker, r.issuedAt)
  }

  ghost predicate Trusted(s: Store, a: Admission)
    requires Chronological(s) && Stored(s, Admitted(a)) && a.admitter != a.identity
  {
    Plain(s, a.admitter, a.issuedAt)
  }

  /** The roster holds what the walk says about the records replayed so far. */
  ghost predicate Mirrors(s: Store, past: seq<Record>, st: Roster)
    requires Filed(s) && Chronological(s) && (forall e :: e in past ==> Stored(s, e))
  {
    && (forall id :: id in st.barred <==>
          id in s.revocations && Revoked(s.revocations[id]) in past && Effective(s, s.revocations[id]))
    && (forall id :: id in st.members <==>
          id !in st.barred && (id == s.root || (id in s.admissions && Admitted(s.admissions[id]) in past
                                                && s.admissions[id].admitter != id && Trusted(s, s.admissions[id]))))
  }

  /**
   A stored record that does not come after the k-th, and is not it, has been replayed; one
   that comes after has not.
  */
  lemma ReplayedByThen(s: Store, events: seq<Record>, k: nat, f: Record)
    requires Timeline(s, events) && k < |events| && Stored(s, f) && f != events[k]
    ensures Before(f, events[k]) ==> f in events[..k]
    ensures Before(events[k], f) ==> f !in events[..k]
  {
    var j :| 0 <= j < |events| && events[j] == f;
    if Before(f, events[k]) {
      assert j < k;
      assert events[..k][j] == f;
    }
    if f in events[..k] {
      var i :| 0 <= i < k && events[i] == f;
      assert !Before(events[k], f);
    }
  }

  /** What must be known about a signer by the time its record comes up. */
  lemma SignerIsSettled(s: Store, events: seq<Record>, k: nat, signer: PublicKey, st: Roster)
    requires Filed(s) && Chronological(s) && Timeline(s, events) && k < |events|
    requires forall e :: e in events[..k] ==> Stored(s, e)
    requires Mirrors(s, events[..k], st)
    requires match events[k]
      case Admitted(a) => signer == a.admitter && signer != a.identity
      case Revoked(r) => signer == r.revoker && signer != r.identity
    ensures AdmittedBefore(s, signer, TimeOf(events[k]))
    ensures signer in st.members <==> Plain(s, signer, TimeOf(events[k]))
  {
    var e := events[k];
    assert e in events && Stored(s, e);
    SignerAdmitted(s, events, k, signer);
    SignerBarred(s, events, k, signer, st);
  }

  /** Its admission, if it needs one, has been replayed. */
  lemma SignerAdmitted(s: Store, events: seq<Record>, k: nat, signer: PublicKey)
    requires Filed(s) && Chronological(s) && Timeline(s, events) && k < |events| && Stored(s, events[k])
    requires match events[k]
      case Admitted(a) => signer == a.admitter && signer != a.identity
      case Revoked(r) => signer == r.revoker && signer != r.identity
    ensures AdmittedBefore(s, signer, TimeOf(events[k]))
    ensures signer != s.root && signer in s.admissions ==> Admitted(s.admissions[signer]) in events[..k]
  {
    if signer != s.root && signer in s.admissions {
      ReplayedByThen(s, events, k, Admitted(s.admissions[signer]));
    }
  }

  /** It has been barred exactly if a revocation of it took effect by then. */
  lemma SignerBarred(s: Store, events: seq<Record>, k: nat, signer: PublicKey, st: Roster)
    requires Filed(s) && Chronological(s) && Timeline(s, events) && k < |events| && Stored(s, events[k])
    requires forall e :: e in events[..k] ==> Stored(s, e)
    requires Mirrors(s, events[..k], st)
    requires match events[k]
      case Admitted(a) => signer == a.admitter && signer != a.identity
      case Revoked(r) => signer == r.revoker && signer != r.identity
    ensures signer in st.barred <==>
      RevocationBy(s, signer, TimeOf(events[k])).Some? && Effective(s, s.revocations[signer])
  {
    if signer in s.revocations {
      ReplayedByThen(s, events, k, Revoked(s.revocations[signer]));
    }
  }

  lemma {:induction false} ReplayMirrors(s: Store, events: seq<Record>, k: nat)
    requires Filed(s) && Chronological(s) && Timeline(s, events) && k <= |events|
    ensures forall e :: e in events[..k] ==> Stored(s, e)
    ensures Mirrors(s, events[..k], Replay(s.root, events[..k]))
  {
    forall e | e in events[..k] ensures Stored(s, e) {
      assert e in events;
    }
    if k > 0 {
      ReplayMirrors(s, events, k - 1);
      assert events[..k] == events[..k - 1] + [events[k - 1]] && events[..k][..k - 1] == events[..k - 1];
      MirrorsStep(s, events, k - 1, Replay(s.root, events[..k - 1]));
    }
  }

  lemma MirrorsStep(s: Store, events: seq<Record>, k: nat, st: Roster)
    requires Filed(s) && Chronological(s) && Timeline(s, events) && k < |events|
    requires forall e :: e in events[..k] ==> Stored(s, e)
    requires Mirrors(s, events[..k], st)
    ensures forall e :: e in events[..k] + [events[k]] ==> Stored(s, e)
    ensures Mirrors(s, events[..k] + [events[k]], Apply(st, events[k]))
  {
    assert events[k] in events;
    match events[k]
    case Admitted(a) =>
      if a.admitter != a.identity { SignerIsSettled(s, events, k, a.admitter, st); }
      MirrorsAdmission(s, events[..k], st, a);
    case Revoked(r) =>
      if r.revoker != r.identity { SignerIsSettled(s, events, k, r.revoker, st); }
      MirrorsRevocation(s, events[..k], st, r);
  }

  lemma MirrorsAdmission(s: Store, past: seq<Record>, st: Roster, a: Admission)
    requires Filed(s) && Chronological(s) && (forall e :: e in past ==> Stored(s, e)) && Mirrors(s, past, st)
    requires Stored(s, Admitted(a))
    requires a.admitter != a.identity ==> (a.admitter in st.members <==> Trusted(s, a))
    requires a.admitter == a.identity ==> a.identity == s.root
    ensures forall e :: e in past + [Admitted(a)] ==> Stored(s, e)
    ensures Mirrors(s, past + [Admitted(a)], Apply(st, Admitted(a)))
  {
    var now, next := past + [Admitted(a)], Apply(st, Admitted(a));
    forall id ensures id in next.members <==>
      id !in next.barred && (id == s.root || (id in s.admissions && Admitted(s.admissions[id]) in now
                                              && s.admissions[id].admitter != id && Trusted(s, s.admissions[id])))
    {
      if id in s.admissions {
        assert Admitted(s.admissions[id]) in now <==> Admitted(s.admissions[id]) in past || s.admissions[id] == a;
      }
    }
  }

  lemma MirrorsRevocation(s: Store, past: seq<Record>, st: Roster, r: Revocation)
    requires Filed(s) && Chronological(s) && (forall e :: e in past ==> Stored(s, e)) && Mirrors(s, past, st)
    requires Stored(s, Revoked(r))
    requires r.revoker != r.identity ==> (r.revoker in st.members <==> Effective(s, r))
    ensures forall e :: e in past + [Revoked(r)] ==> Stored(s, e)
    ensures Mirrors(s, past + [Revoked(r)], Apply(st, Revoked(r)))
  {
    var now, next := past + [Revoked(r)], Apply(st, Revoked(r));
    forall id ensures id in next.barred <==>
      id in s.revocations && Revoked(s.revocations[id]) in now && Effective(s, s.revocations[id])
    {
      if id in s.revocations {
        assert Revoked(s.revocations[id]) in now <==> Revoked(s.revocations[id]) in past || s.revocations[id] == r;
      }
    }
  }

  /** The members of a chronological store are those left standing when its records are replayed in order of time. */
  lemma ReplayEquivalence(verify: Verifier, s: Store, events: seq<Record>, id: PublicKey)
    requires WellFormed(verify, s) && Chronological(s) && Timeline(s, events)
    ensures Member(s, id) <==> id in Replay(s.root, events).members
    ensures AdmittedBefore(s, id, MAX_INT64) && (Member(s, id) <==> Plain(s, id, MAX_INT64))
  {
    ReplayMirrors(s, events, |events|);
    assert events[..|events|] == events;
    GuardNeverFires(s, id, MAX_INT64, {});
    if id in s.admissions { assert Stored(s, Admitted(s.admissions[id])); }
    if id in s.revocations { assert Stored(s, Revoked(s.revocations[id])); }
  }

  /**
   Without that the two part: a signer's own admission is never compared with the time it
   signed, so one that signs first and is admitted later vouches all the same, where the
   replay would have turned it away.
  */
  lemma EarlySignerVouches(s: Store, x: PublicKey, y: PublicKey)
    requires x != y && x != s.root && y != s.root && s.revocations == map[] && s.admissions.Keys == {x, y}
    requires Filed(s) && s.admissions[x].admitter == s.root && s.admissions[y].admitter == x
    requires s.admissions[y].issuedAt < s.admissions[x].issuedAt < MAX_INT64
    ensures var events := [Admitted(s.admissions[y]), Admitted(s.admissions[x])];
      Timeline(s, events) && Member(s, y) && y !in Replay(s.root, events).members && !Chronological(s)
  {
    var a, b := Admitted(s.admissions[y]), Admitted(s.admissions[x]);
    var events := [a, b];
    assert events[..1] == [a] && [a][..0] == [];
    assert Replay(s.root, [a]) == Roster({s.root}, {});
    assert Replay(s.root, events) == Roster({s.root, x}, {});
    var none: set<Question> := {};
    var v := none + {Question(y, MAX_INT64)};
    assert MemberAt(s, s.root, s.admissions[x].issuedAt, v + {Question(x, s.admissions[y].issuedAt)});
    assert MemberAt(s, x, s.admissions[y].issuedAt, v);
    assert !AdmittedBefore(s, x, s.admissions[y].issuedAt);
  }

  // --- exactly when the two agree, where nothing is revoked ---

  /** From an identity up to the root, each admitted by the next, and after the next was admitted itself. */
  ghost predicate Ascends(s: Store, path: seq<PublicKey>) {
    Chain(s, path) && forall i, j :: 0 <= i < j < |path| && j == i + 1 ==> GoesBack(s, path[i], path[j])
  }

  /** Not the root itself, and admitted after up was, if up needs an admission. */
  predicate GoesBack(s: Store, id: PublicKey, up: PublicKey) {
    && id != s.root && id in s.admissions
    && (up == s.root || (up in s.admissions && s.admissions[up].issuedAt < s.admissions[id].issuedAt))
  }

  ghost predicate DistinctTimes(s: Store) {
    forall i, j :: i in s.admissions && j in s.admissions && i != j ==>
      s.admissions[i].issuedAt != s.admissions[j].issuedAt
  }

  ghost predicate HasAscent(s: Store, id: PublicKey) {
    exists path :: Ascends(s, path) && path[0] == id
  }

  /** An identity ascends to the root through its admitter, or not at all. */
  lemma AscentIsThroughAdmitter(s: Store, id: PublicKey)
    requires Filed(s) && DistinctTimes(s) && id != s.root && id in s.admissions
    ensures var up := s.admissions[id].admitter;
      HasAscent(s, id) <==> HasAscent(s, up) && GoesBack(s, id, up)
  {
    var up := s.admissions[id].admitter;
    if path :| Ascends(s, path) && path[0] == id {
      assert path[1] == up;
      AscentContinues(s, path);
      assert Ascends(s, path[1..]) && path[1..][0] == up;
    }
    if path :| Ascends(s, path) && path[0] == up && GoesBack(s, id, up) {
      AscentExtends(s, id, path);
      assert ([id] + path)[0] == id;
    }
  }

  lemma AscentContinues(s: Store, path: seq<PublicKey>)
    requires Ascends(s, path) && path[0] != s.root
    ensures |path| >= 2 && Ascends(s, path[1..]) && s.admissions[path[0]].admitter == path[1]
      && GoesBack(s, path[0], path[1])
  {
    var up := path[1..];
    forall i, j | 0 <= i < j < |up| && j == i + 1
      ensures GoesBack(s, up[i], up[j]) && s.admissions[up[i]].admitter == up[j] {
      assert up[i] == path[i + 1] && up[j] == path[j + 1];
    }
    forall i | 0 <= i < |up| - 1 ensures up[i] in s.admissions && s.admissions[up[i]].admitter == up[i + 1] {
      assert up[i] == path[i + 1];
    }
  }

  lemma AscentExtends(s: Store, id: PublicKey, path: seq<PublicKey>)
    requires Ascends(s, path) && GoesBack(s, id, path[0]) && s.admissions[id].admitter == path[0]
    ensures Ascends(s, [id] + path)
  {
    var long := [id] + path;
    forall i | 0 <= i < |long| - 1 ensures long[i] in s.admissions && s.admissions[long[i]].admitter == long[i + 1] {
      assert i > 0 ==> long[i] == path[i - 1];
    }
  }

  /** By any point of the replay the members are those that ascend to the root and have been replayed. */
  ghost predicate Ascended(s: Store, past: seq<Record>, st: Roster) {
    && st.barred == {}
    && forall id :: id in st.members <==>
      id == s.root || (id in s.admissions && Admitted(s.admissions[id]) in past && HasAscent(s, id))
  }

  lemma AscendedStep(s: Store, events: seq<Record>, k: nat, st: Roster)
    requires Filed(s) && DistinctTimes(s) && s.revocations == map[] && Timeline(s, events) && k < |events|
    requires Ascended(s, events[..k], st)
    ensures Ascended(s, events[..k] + [events[k]], Apply(st, events[k]))
  {
    assert events[k] in events;
    var a := events[k].a;
    if a.identity != s.root {
      AscentIsThroughAdmitter(s, a.identity);
      AdmitterHasBeenReplayed(s, events, k);
      assert Ascends(s, [s.root]);
    }
    forall id | id in s.admissions
      ensures Admitted(s.admissions[id]) in events[..k] + [events[k]] <==>
      Admitted(s.admissions[id]) in events[..k] || id == a.identity {
    }
  }

  /** In a timeline an admitter admitted before it signed comes up before its signature does. */
  lemma AdmitterHasBeenReplayed(s: Store, events: seq<Record>, k: nat)
    requires Filed(s) && DistinctTimes(s) && Timeline(s, events) && k < |events| && Stored(s, events[k])
      && events[k].Admitted?
    requires events[k].a.identity != s.root
    ensures var up := events[k].a.admitter;
      up in s.admissions ==>
        (Admitted(s.admissions[up]) in events[..k] <==> s.admissions[up].issuedAt < events[k].a.issuedAt)
  {
    var e, up := events[k], events[k].a.admitter;
    if up in s.admissions {
      var f := Admitted(s.admissions[up]);
      assert Stored(s, f);
      var j :| 0 <= j < |events| && events[j] == f;
      if Before(f, e) {
        assert j < k;
        assert events[..k][j] == f;
      }
      if f in events[..k] {
        var i :| 0 <= i < k && events[i] == f;
        assert !Before(e, f);
      }
    }
  }

  lemma {:induction false} ReplayAscends(s: Store, events: seq<Record>, k: nat)
    requires Filed(s) && DistinctTimes(s) && s.revocations == map[] && Timeline(s, events) && k <= |events|
    ensures Ascended(s, events[..k], Replay(s.root, events[..k]))
  {
    if k > 0 {
      ReplayAscends(s, events, k - 1);
      assert events[..k] == events[..k - 1] + [events[k - 1]] && events[..k][..k - 1] == events[..k - 1];
      AscendedStep(s, events, k - 1, Replay(s.root, events[..k - 1]));
    }
  }

  /**
   Where nothing is revoked and no two admissions share a second, the walk and the replay
   give one answer about an identity exactly when its chain of admissions, if it has one,
   goes back in time at every link; any other chain counts for the walk alone.
  */
  lemma ReplayAgreesIff(s: Store, events: seq<Record>, id: PublicKey)
    requires Filed(s) && DistinctTimes(s) && s.revocations == map[] && Timeline(s, events)
    ensures (Member(s, id) <==> id in Replay(s.root, events).members)
       <==> ((exists path :: Chain(s, path) && path[0] == id) ==> HasAscent(s, id))
    ensures id in Replay(s.root, events).members ==> Member(s, id)
  {
    ReplayAscends(s, events, |events|);
    assert events[..|events|] == events;
    WithoutRevocationsMembershipIsReachability(s, id);
    assert Ascends(s, [s.root]) && [s.root][0] == s.root;
    if id != s.root && id in s.admissions {
      assert Stored(s, Admitted(s.admissions[id]));
    }
    if path :| Ascends(s, path) && path[0] == id {
      assert id == s.root || path[0] in s.admissions;
    }
  }

  // --- every store has a timeline ---

  /** Puts e where it belongs in a sorted sequence. */
  function Insert(events: seq<Record>, e: Record): seq<Record> {
    if events == [] || Before(e, events[0]) then [e] + events else [events[0]] + Insert(events[1..], e)
  }

  ghost predicate InOrder(events: seq<Record>) {
    forall i, j :: 0 <= i < j < |events| ==> !Before(events[j], events[i])
  }

  lemma {:induction false} InsertKeepsOrder(events: seq<Record>, e: Record)
    requires InOrder(events)
    ensures InOrder(Insert(events, e))
    ensures forall f :: f in Insert(events, e) <==> f == e || f in events
  {
    if events != [] && !Before(e, events[0]) {
      InsertKeepsOrder(events[1..], e);
      var rest := Insert(events[1..], e);
      assert events == [events[0]] + events[1..];
      forall j | 0 <= j < |rest| ensures !Before(rest[j], events[0]) {
        assert rest[j] in rest;
        if rest[j] in events[1..] {
          var i :| 0 <= i < |events[1..]| && events[1..][i] == rest[j];
          assert events[i + 1] == rest[j];
        }
      }
    } else if events != [] {
      forall j | 0 <= j < |events| ensures !Before(events[j], e) {
        assert j > 0 ==> !Before(events[j], events[0]);
      }
    }
  }

  lemma {:induction false} SortRecords(all: set<Record>) returns (events: seq<Record>)
    ensures InOrder(events) && (forall e :: e in events <==> e in all)
  {
    if all == {} {
      events := [];
    } else {
      var e :| e in all;
      var rest := SortRecords(all - {e});
      InsertKeepsOrder(rest, e);
      events := Insert(rest, e);
    }
  }

  /** So the replay above is never about nothing. */
  lemma TimelineExists(verify: Verifier, s: Store) returns (events: seq<Record>)
    requires WellFormed(verify, s)
    ensures Timeline(s, events)
  {
    RecordsOfAreStored(s);
    events := SortRecords(RecordsOf(s));
  }
}
