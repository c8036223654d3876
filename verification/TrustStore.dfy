/**
 The contents of a trust set (internal/trust/set.go) as a value, the rule that
 decides membership from it, and what that rule depends on.
*/
module TrustStore {
  import opened Basics
  import opened TrustRecords

  /** The pinned root and the records kept, at most one of each kind per identity. */
  datatype Store = Store(root: PublicKey, admissions: map<PublicKey, Admission>, revocations: map<PublicKey,
      Revocation>)

  function EmptyStore(root: PublicKey): Store {
    Store(root, map[], map[])
  }

  /** AddAdmission's verdict on a record, before it looks at what is stored. */
  function AdmissionError(verify: Verifier, root: PublicKey, a: Admission): Option<RecordError> {
    var e := ValidateAdmission(verify, a);
    if e.Some? then e
    else if a.admitter == a.identity && a.identity != root then Some(UntrustedRoot)
    else None
  }

  /** The admission says what one must and its admitter signed it. */
  predicate SignedAdmission(verify: Verifier, root: PublicKey, a: Admission) {
    && a.name != [] && a.host != 0 && verify(a.admitter, AdmissionBytes(a), a.signature)
    && (a.admitter == a.identity ==> a.identity == root)
  }

  predicate SignedRevocation(verify: Verifier, r: Revocation) {
    verify(r.revoker, RevocationBytes(r), r.signature)
  }

  /** Nothing else is accepted, and all of it is. */
  lemma AcceptedIffSigned(verify: Verifier, root: PublicKey, a: Admission, r: Revocation)
    ensures AdmissionError(verify, root, a).None? <==> SignedAdmission(verify, root, a)
    ensures ValidateRevocation(verify, r).None? <==> SignedRevocation(verify, r)
  {
  }

  /** Every record is signed by the key it names as its signer, over the fields it has. */
  ghost predicate AllSigned(verify: Verifier, s: Store) {
    && (forall id :: id in s.admissions ==> SignedAdmission(verify, s.root, s.admissions[id]))
    && (forall id :: id in s.revocations ==> SignedRevocation(verify, s.revocations[id]))
  }

  lemma SoundStoresAreSigned(verify: Verifier, s: Store)
    requires WellFormed(verify, s)
    ensures AllSigned(verify, s)
  {
    forall id | id in s.admissions ensures SignedAdmission(verify, s.root, s.admissions[id]) {
      assert AdmissionError(verify, s.root, s.admissions[id]).None?;
    }
  }

  /** What every store reached through AddAdmission and AddRevocation satisfies. */
  ghost predicate WellFormed(verify: Verifier, s: Store) {
    && (forall id :: id in s.admissions ==>
          s.admissions[id].identity == id && AdmissionError(verify, s.root, s.admissions[id]).None?)
    && (forall id :: id in s.revocations ==>
          s.revocations[id].identity == id && ValidateRevocation(verify, s.revocations[id]).None?)
  }

  /** Records are filed under their subjects, and only the root's admission may be its own. */
  ghost predicate Filed(s: Store) {
    && (forall id :: id in s.admissions ==>
      s.admissions[id].identity == id && (s.admissions[id].admitter == id ==> id == s.root))
    && (forall id :: id in s.revocations ==> s.revocations[id].identity == id)
  }

  predicate KeepsAdmission(s: Store, a: Admission) {
    a.identity !in s.admissions || s.admissions[a.identity].issuedAt < a.issuedAt
  }

  /** The store after AddAdmission; a record that is refused or not newer changes nothing. */
  function WithAdmission(verify: Verifier, s: Store, a: Admission): Store {
    if AdmissionError(verify, s.root, a).None? && KeepsAdmission(s, a)
    then s.(admissions := s.admissions[a.identity := a]) else s
  }

  /** The store after AddRevocation: the first one for an identity stands. */
  function WithRevocation(verify: Verifier, s: Store, r: Revocation): Store {
    if ValidateRevocation(verify, r).None? && r.identity !in s.revocations
    then s.(revocations := s.revocations[r.identity := r]) else s
  }

  /** One record of either kind, as broadcast. */
  datatype Record = Admitted(a: Admission) | Revoked(r: Revocation)

  predicate Stored(s: Store, rec: Record) {
    match rec
    case Admitted(a) => a.identity in s.admissions && s.admissions[a.identity] == a
    case Revoked(r) => r.identity in s.revocations && s.revocations[r.identity] == r
  }

  function RecordsOf(s: Store): set<Record> {
    (set id | id in s.admissions :: Admitted(s.admissions[id])) +
      (set id | id in s.revocations :: Revoked(s.revocations[id]))
  }

  lemma RecordsOfAreStored(s: Store)
    requires Filed(s)
    ensures forall rec :: rec in RecordsOf(s) <==> Stored(s, rec)
  {
  }

  function WithRecord(verify: Verifier, s: Store, rec: Record): Store {
    match rec case Admitted(a) => WithAdmission(verify, s, a) case Revoked(r) => WithRevocation(verify, s, r)
  }

  // --- membership ---

  /** Was this identity a member at this time. */
  datatype Question = Question(id: PublicKey, at: int64)

  /** The questions the records can raise: one per record, about its signer when it signed. */
  function Questions(s: Store): set<Question> {
    (set id | id in s.admissions :: Question(s.admissions[id].admitter, s.admissions[id].issuedAt)) +
    (set id | id in s.revocations :: Question(s.revocations[id].revoker, s.revocations[id].issuedAt))
  }

  lemma RecordsRaiseQuestions(s: Store, id: PublicKey)
    ensures id in s.admissions ==> Question(s.admissions[id].admitter, s.admissions[id].issuedAt) in Questions(s)
    ensures id in s.revocations ==> Question(s.revocations[id].revoker, s.revocations[id].issuedAt) in Questions(s)
  {
  }

  /** A question no record raises ranks above the root's, which ranks above the rest. */
  function Rank(s: Store, q: Question): nat {
    if q !in Questions(s) then 2 else if q.id == s.root then 1 else 0
  }

  /** The revocation of id that has been issued by then, if any. */
  function RevocationBy(s: Store, id: PublicKey, at: int64): Option<Revocation> {
    if id in s.revocations && s.revocations[id].issuedAt <= at then Some(s.revocations[id]) else None
  }

  /**
   validAt. It ends on every store, whatever cycles its records form: a step from an
   identity other than the root uses up one of the questions the records can raise,
   and a step from the root, which uses up none, is followed by one that does.
  */
  predicate MemberAt(s: Store, id: PublicKey, at: int64, visiting: set<Question>)
    decreases Questions(s) - visiting, Rank(s, Question(id, at))
  {
    var q := Question(id, at);
    var rev := RevocationBy(s, id, at);
    RecordsRaiseQuestions(s, id);
    if id == s.root then
      rev.None? || (rev.value.revoker != id && !MemberAt(s, rev.value.revoker, rev.value.issuedAt, visiting))
    else if q in visiting then false
    else
      AskingUsesUp(s, q, visiting);
      if rev.Some? && (rev.value.revoker == id || MemberAt(s, rev.value.revoker, rev.value.issuedAt, visiting + {q}))
        then false
      else if id !in s.admissions || s.admissions[id].admitter == id then false
      else MemberAt(s, s.admissions[id].admitter, s.admissions[id].issuedAt, visiting + {q})
  }

  lemma AskingUsesUp(s: Store, q: Question, visiting: set<Question>)
    requires q !in visiting
    ensures q in Questions(s) ==> Questions(s) - (visiting + {q}) < Questions(s) - visiting
    ensures q !in Questions(s) ==> Questions(s) - (visiting + {q}) == Questions(s) - visiting
  {
    var before, after := Questions(s) - visiting, Questions(s) - (visiting + {q});
    assert after <= before;
    if q in Questions(s) {
      assert q in before && q !in after;
    } else {
      assert before <= after;
    }
  }

  /** Set.Valid: a member now. */
  predicate Member(s: Store, id: PublicKey) {
    MemberAt(s, id, MAX_INT64, {})
  }

  // --- what an answer depends on ---

  /** The two stores hold the same answerable facts about the identity at that time. */
  predicate Agree(s: Store, t: Store, q: Question) {
    && RevocationBy(s, q.id, q.at) == RevocationBy(t, q.id, q.at)
    && (q.id != s.root ==> (q.id in s.admissions <==> q.id in t.admissions)
                           && (q.id in s.admissions ==> s.admissions[q.id] == t.admissions[q.id]))
  }

  /** Stores that agree on a question and on every question their records raise answer it alike. */
  lemma {:induction false} Frame(s: Store, t: Store, id: PublicKey, at: int64, v: set<Question>, w: set<Question>)
    requires s.root == t.root
    requires forall q :: q in Questions(s) ==> Agree(s, t, q) && (q in v <==> q in w)
    requires Agree(s, t, Question(id, at)) && (Question(id, at) in v <==> Question(id, at) in w)
    ensures MemberAt(s, id, at, v) == MemberAt(t, id, at, w)
    decreases Questions(s) - v, Rank(s, Question(id, at))
  {
    var q := Question(id, at);
    var rev := RevocationBy(s, id, at);
    RecordsRaiseQuestions(s, id);
    if id == s.root {
      if rev.Some? && rev.value.revoker != id {
        Frame(s, t, rev.value.revoker, rev.value.issuedAt, v, w);
      }
    } else if q !in v {
      AskingUsesUp(s, q, v);
      if rev.Some? && rev.value.revoker != id {
        Frame(s, t, rev.value.revoker, rev.value.issuedAt, v + {q}, w + {q});
      }
      if id in s.admissions && s.admissions[id].admitter != id {
        Frame(s, t, s.admissions[id].admitter, s.admissions[id].issuedAt, v + {q}, w + {q});
      }
    }
  }

  /** Every stored record was issued before t. */
  predicate AllBefore(s: Store, t: int64) {
    && (forall id :: id in s.admissions ==> s.admissions[id].issuedAt < t)
    && (forall id :: id in s.revocations ==> s.revocations[id].issuedAt < t)
  }

  lemma LateQuestionsAreNew(s: Store, t: int64, q: Question)
    requires AllBefore(s, t) && t <= q.at
    ensures q !in Questions(s)
  {
  }

  /**
   Once every record is in the past the answer no longer depends on when it is asked, nor
   on late questions already asked.
  */
  lemma AskedLate(s: Store, id: PublicKey, t1: int64, t2: int64, v: set<Question>, w: set<Question>)
    requires AllBefore(s, t1) && AllBefore(s, t2)
    requires Question(id, t1) !in v && Question(id, t2) !in w
    requires forall q :: q in Questions(s) ==> (q in v <==> q in w)
    ensures MemberAt(s, id, t1, v) == MemberAt(s, id, t2, w)
  {
    var q1, q2 := Question(id, t1), Question(id, t2);
    LateQuestionsAreNew(s, t1, q1);
    LateQuestionsAreNew(s, t2, q2);
    RecordsRaiseQuestions(s, id);
    var rev := RevocationBy(s, id, t1);
    assert rev == RevocationBy(s, id, t2);
    if id == s.root {
      if rev.Some? {
        Frame(s, s, rev.value.revoker, rev.value.issuedAt, v, w);
      }
    } else {
      if rev.Some? {
        Frame(s, s, rev.value.revoker, rev.value.issuedAt, v + {q1}, w + {q2});
      }
      if id in s.admissions {
        Frame(s, s, s.admissions[id].admitter, s.admissions[id].issuedAt, v + {q1}, w + {q2});
      }
    }
  }

  /** The guard blocks only questions that records raise: any others already asked can be forgotten. */
  lemma ForgetLateQuestions(s: Store, id: PublicKey, at: int64, v: set<Question>)
    requires forall q :: q in Questions(s) + {Question(id, at)} ==> q !in v
    ensures MemberAt(s, id, at, v) == MemberAt(s, id, at, {})
  {
    Frame(s, s, id, at, v, {});
  }
}
