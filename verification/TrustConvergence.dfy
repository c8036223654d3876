/**
 Records reach nodes in any order, any number of times (internal/trust/set.go:86-117,
 internal/cluster/cluster.go:501-565): what they make of them, and when all make the same.
*/
module TrustConvergence {
  import opened Basics
  import opened TrustRecords
  import opened TrustStore

  /** Merging records one after another. */
  function AddAll(verify: Verifier, s: Store, recs: seq<Record>): (t: Store)
    ensures t.root == s.root
  {
    if recs == [] then s
    else WithRecord(verify, AddAll(verify, s, recs[..|recs| - 1]), recs[|recs| - 1])
  }

  /** The record's signature and fields are accepted by a set pinned to root. */
  predicate Acceptable(verify: Verifier, root: PublicKey, rec: Record) {
    match rec
    case Admitted(a) => AdmissionError(verify, root, a).None?
    case Revoked(r) => ValidateRevocation(verify, r).None?
  }

  // --- the result as a set of candidates, not a sequence of steps ---

  /**
   The store keeps, of the records in pool, exactly one newest admission and one
   revocation for each identity that has any.
  */
  ghost predicate Summarises(pool: set<Record>, s: Store) {
    && (forall id :: id in s.admissions ==> s.admissions[id].identity == id && Admitted(s.admissions[id]) in pool)
    && (forall id :: id in s.revocations ==> s.revocations[id].identity == id && Revoked(s.revocations[id]) in pool)
    && (forall a :: Admitted(a) in pool ==>
      a.identity in s.admissions && a.issuedAt <= s.admissions[a.identity].issuedAt)
    && (forall r :: Revoked(r) in pool ==> r.identity in s.revocations)
  }

  /** Two different revocations of one identity, or two different admissions of one identity at one time. */
  predicate Rivals(x: Record, y: Record) {
    && x != y
    && match (x, y)
       case (Admitted(a), Admitted(b)) => a.identity == b.identity && a.issuedAt == b.issuedAt
       case (Revoked(r), Revoked(q)) => r.identity == q.identity
       case _ => false
  }

  ghost predicate Consistent(pool: set<Record>) {
    forall x, y :: x in pool && y in pool ==> !Rivals(x, y)
  }

  predicate Newer(z: Record, x: Record) {
    z.Admitted? && x.Admitted? && z.a.identity == x.a.identity && z.a.issuedAt > x.a.issuedAt
  }

  /** Something newer stands against any rivals; nothing does against different revocations of one identity. */
  ghost predicate Settled(pool: set<Record>) {
    forall x, y :: x in pool && y in pool && Rivals(x, y) ==> exists z :: z in pool && Newer(z, x)
  }

  function Accepted(verify: Verifier, root: PublicKey, recs: seq<Record>): set<Record> {
    set rec | rec in recs && Acceptable(verify, root, rec)
  }

  lemma SummaryIsUnique(pool: set<Record>, s: Store, t: Store)
    requires Settled(pool) && s.root == t.root
    requires Summarises(pool, s) && Summarises(pool, t)
    ensures s == t
  {
    forall id ensures id in s.admissions <==> id in t.admissions {
      if id in s.admissions { SummaryAdmission(pool, s, t, id); }
      if id in t.admissions { SummaryAdmission(pool, t, s, id); }
    }
    forall id ensures id in s.revocations <==> id in t.revocations {
      if id in s.revocations { SummaryRevocation(pool, s, t, id); }
      if id in t.revocations { SummaryRevocation(pool, t, s, id); }
    }
    forall id | id in s.admissions ensures s.admissions[id] == t.admissions[id] {
      SummaryAdmission(pool, s, t, id);
    }
    forall id | id in s.revocations ensures s.revocations[id] == t.revocations[id] {
      SummaryRevocation(pool, s, t, id);
    }
    assert s.admissions == t.admissions && s.revocations == t.revocations;
  }

  lemma SummaryAdmission(pool: set<Record>, s: Store, t: Store, id: PublicKey)
    requires Settled(pool) && Summarises(pool, s) && Summarises(pool, t) && id in s.admissions
    ensures id in t.admissions && s.admissions[id] == t.admissions[id]
  {
    var x, y := Admitted(s.admissions[id]), Admitted(t.admissions[id]);
    assert x in pool && y in pool;
    assert forall z :: z in pool ==> !Newer(z, x);
  }

  lemma SummaryRevocation(pool: set<Record>, s: Store, t: Store, id: PublicKey)
    requires Settled(pool) && Summarises(pool, s) && Summarises(pool, t) && id in s.revocations
    ensures id in t.revocations && s.revocations[id] == t.revocations[id]
  {
    var x, y := Revoked(s.revocations[id]), Revoked(t.revocations[id]);
    assert x in pool && y in pool;
  }

  lemma AddingExtendsSummary(verify: Verifier, pool: set<Record>, s: Store, rec: Record)
    requires Summarises(pool, s)
    ensures Summarises(pool + if Acceptable(verify, s.root, rec) then {rec} else {}, WithRecord(verify, s, rec))
    ensures WithRecord(verify, s, rec).root == s.root
  {
  }

  /** Merging from any store keeps the summary of what it held and what was accepted. */
  lemma {:induction false} MergeSummarises(verify: Verifier, pool: set<Record>, s: Store, recs: seq<Record>)
    requires Summarises(pool, s)
    ensures Summarises(pool + Accepted(verify, s.root, recs), AddAll(verify, s, recs))
    ensures AddAll(verify, s, recs).root == s.root
  {
    if recs == [] {
      assert pool + Accepted(verify, s.root, recs) == pool;
    } else {
      var init, last := recs[..|recs| - 1], recs[|recs| - 1];
      MergeSummarises(verify, pool, s, init);
      AddingExtendsSummary(verify, pool + Accepted(verify, s.root, init), AddAll(verify, s, init), last);
      assert recs == init + [last];
      var step := if Acceptable(verify, s.root, last) then {last} else {};
      assert pool + Accepted(verify, s.root, recs) == pool + Accepted(verify, s.root, init) + step;
    }
  }

  lemma StoreSummarisesItself(s: Store)
    requires Filed(s)
    ensures Summarises(RecordsOf(s), s) && Consistent(RecordsOf(s))
  {
    RecordsOfAreStored(s);
  }

  /** All a store can be made of when it merges recs. */
  function Pool(verify: Verifier, s: Store, recs: seq<Record>): set<Record> {
    RecordsOf(s) + Accepted(verify, s.root, recs)
  }

  lemma EqualPoolsEqualStores(verify: Verifier, s: Store, l: seq<Record>, t: Store, m: seq<Record>)
    requires Filed(s) && Filed(t) && s.root == t.root
    requires Pool(verify, s, l) == Pool(verify, t, m) && Consistent(Pool(verify, s, l))
    ensures AddAll(verify, s, l) == AddAll(verify, t, m)
  {
    StoreSummarisesItself(s);
    StoreSummarisesItself(t);
    MergeSummarises(verify, RecordsOf(s), s, l);
    MergeSummarises(verify, RecordsOf(t), t, m);
    SummaryIsUnique(Pool(verify, s, l), AddAll(verify, s, l), AddAll(verify, t, m));
  }

  lemma SameRecordsSameAccepted(verify: Verifier, root: PublicKey, l: seq<Record>, m: seq<Record>)
    requires forall rec :: rec in l <==> rec in m
    ensures Accepted(verify, root, l) == Accepted(verify, root, m)
  {
  }

  ghost predicate Lists(recs: seq<Record>, s: Store) {
    forall rec :: rec in recs <==> Stored(s, rec)
  }

  lemma WellFormedRecordsAreAccepted(verify: Verifier, s: Store, recs: seq<Record>)
    requires WellFormed(verify, s) && Lists(recs, s)
    ensures Accepted(verify, s.root, recs) == RecordsOf(s)
  {
    RecordsOfAreStored(s);
  }

  /** A set's records, in any order, rebuild it in a fresh set with the same root. */
  lemma RecordsRebuildTheStore(verify: Verifier, s: Store, recs: seq<Record>)
    requires WellFormed(verify, s) && Lists(recs, s)
    ensures AddAll(verify, EmptyStore(s.root), recs) == s
  {
    var empty := EmptyStore(s.root);
    StoreSummarisesItself(s);
    WellFormedRecordsAreAccepted(verify, s, recs);
    assert RecordsOf(empty) == {};
    assert Pool(verify, empty, recs) == RecordsOf(s) == Pool(verify, s, []);
    EqualPoolsEqualStores(verify, empty, recs, s, []);
  }

  lemma PoolWithPeer(verify: Verifier, s: Store, t: Store, ofT: seq<Record>)
    requires WellFormed(verify, t) && s.root == t.root && Lists(ofT, t)
    ensures Filed(t) && Pool(verify, s, ofT) == RecordsOf(s) + RecordsOf(t)
  {
    WellFormedRecordsAreAccepted(verify, t, ofT);
  }

  /** x is accepted and newer than rec, which it replaces. */
  predicate Displaces(verify: Verifier, root: PublicKey, x: Record, rec: Record) {
    Acceptable(verify, root, x) && Newer(x, rec)
  }

  lemma {:induction false} KeptThroughMerge(verify: Verifier, s: Store, recs: seq<Record>, rec: Record)
    requires Stored(s, rec) && forall x :: x in recs ==> !Displaces(verify, s.root, x, rec)
    ensures Stored(AddAll(verify, s, recs), rec)
  {
    if recs != [] {
      var init, last := recs[..|recs| - 1], recs[|recs| - 1];
      assert recs == init + [last] && !Displaces(verify, s.root, last, rec);
      KeptThroughMerge(verify, s, init, rec);
    }
  }

  lemma RivalsPartStores(verify: Verifier, s: Store, t: Store, ofS: seq<Record>, ofT: seq<Record>, x: Record, y: Record)
    requires Filed(s) && Filed(t) && Lists(ofS, s) && Lists(ofT, t) && Stored(s, x) && Stored(t, y) && Rivals(x, y)
    ensures AddAll(verify, s, ofT) != AddAll(verify, t, ofS)
  {
    KeptThroughMerge(verify, s, ofT, x);
    KeptThroughMerge(verify, t, ofS, y);
  }

  /**
   After a push/pull, in which each side merges what the other held, the two sides are
   equal exactly when they held no rivals: of two different revocations of one identity, or
   admissions of one second, each side keeps its own.
  */
  lemma PushPullConvergesIff(verify: Verifier, s: Store, t: Store, ofS: seq<Record>, ofT: seq<Record>)
    requires WellFormed(verify, s) && WellFormed(verify, t) && s.root == t.root
    requires Lists(ofS, s) && Lists(ofT, t)
    ensures AddAll(verify, s, ofT) == AddAll(verify, t, ofS) <==> Consistent(RecordsOf(s) + RecordsOf(t))
  {
    PoolWithPeer(verify, s, t, ofT);
    PoolWithPeer(verify, t, s, ofS);
    assert RecordsOf(s) + RecordsOf(t) == RecordsOf(t) + RecordsOf(s);
    if Consistent(RecordsOf(s) + RecordsOf(t)) {
      EqualPoolsEqualStores(verify, s, ofT, t, ofS);
    } else {
      var x, y :| x in RecordsOf(s) + RecordsOf(t) && y in RecordsOf(s) + RecordsOf(t) && Rivals(x, y);
      RecordsOfAreStored(s);
      RecordsOfAreStored(t);
      if Stored(s, x) && Stored(t, y) {
        RivalsPartStores(verify, s, t, ofS, ofT, x, y);
      } else {
        RivalsPartStores(verify, s, t, ofS, ofT, y, x);
      }
    }
  }

  // --- no record that its signer did not sign is ever stored ---

  /** Whatever records come, forged ones among them, only signed ones stay. */
  lemma {:induction false} MergeKeepsSigned(verify: Verifier, s: Store, recs: seq<Record>)
    requires AllSigned(verify, s)
    ensures AllSigned(verify, AddAll(verify, s, recs))
  {
    if recs != [] {
      var init, last := recs[..|recs| - 1], recs[|recs| - 1];
      MergeKeepsSigned(verify, s, init);
      match last
      case Admitted(a) => AcceptedIffSigned(verify, s.root, a, Revocation(a.identity, a.admitter, 0, []));
      case Revoked(r) =>
    }
  }

  /** A record no signature of its signer verifies for: a forgery. */
  predicate Forged(verify: Verifier, rec: Record) {
    match rec
    case Admitted(a) => !verify(a.admitter, AdmissionBytes(a), a.signature)
    case Revoked(r) => !verify(r.revoker, RevocationBytes(r), r.signature)
  }

  lemma ForgeriesAreNotStored(verify: Verifier, s: Store, recs: seq<Record>, rec: Record)
    requires AllSigned(verify, s) && Forged(verify, rec)
    ensures !Stored(AddAll(verify, s, recs), rec)
    ensures WithRecord(verify, s, rec) == s
  {
    MergeKeepsSigned(verify, s, recs);
  }

  // --- exactly when the order of two records matters ---

  /** The store already has the record's subject covered: nothing is left for it to change. */
  predicate Absorbs(verify: Verifier, s: Store, rec: Record) {
    Acceptable(verify, s.root, rec) ==>
      match rec
      case Admitted(a) => !KeepsAdmission(s, a)
      case Revoked(r) => r.identity in s.revocations
  }

  /** Both would be kept now, and they compete for one place without the dates deciding. */
  predicate Conflict(verify: Verifier, s: Store, x: Record, y: Record) {
    Rivals(x, y) && Acceptable(verify, s.root, x) && Acceptable(verify, s.root, y) && !Absorbs(verify, s, x)
  }

  lemma OrderMattersIff(verify: Verifier, s: Store, x: Record, y: Record)
    ensures WithRecord(verify, WithRecord(verify, s, x), y) != WithRecord(verify, WithRecord(verify, s, y), x)
       <==> Conflict(verify, s, x, y)
  {
    match (x, y)
    case (Admitted(a), Admitted(b)) => OrderOfAdmissions(verify, s, a, b);
    case (Revoked(r), Revoked(q)) => OrderOfRevocations(verify, s, r, q);
    case _ =>
  }

  lemma OrderOfAdmissions(verify: Verifier, s: Store, a: Admission, b: Admission)
    ensures var ab := WithAdmission(verify, WithAdmission(verify, s, a), b);
      var ba := WithAdmission(verify, WithAdmission(verify, s, b), a);
      ab != ba <==> Conflict(verify, s, Admitted(a), Admitted(b))
  {
    if AdmissionError(verify, s.root, a).None? && AdmissionError(verify, s.root, b).None? {
      NewestStands(s.admissions, a, b);
      assert WithAdmission(verify, WithAdmission(verify, s, a), b).admissions == Newest(Newest(s.admissions, a), b);
      assert WithAdmission(verify, WithAdmission(verify, s, b), a).admissions == Newest(Newest(s.admissions, b), a);
    }
  }

  function Newest(m: map<PublicKey, Admission>, a: Admission): map<PublicKey, Admission> {
    if a.identity in m && m[a.identity].issuedAt >= a.issuedAt then m else m[a.identity := a]
  }

  lemma NewestStands(m: map<PublicKey, Admission>, a: Admission, b: Admission)
    ensures Newest(Newest(m, a), b) != Newest(Newest(m, b), a)
       <==> a != b && a.identity == b.identity && a.issuedAt == b.issuedAt
            && (a.identity in m ==> m[a.identity].issuedAt < a.issuedAt)
  {
    if a.identity != b.identity {
      assert m[a.identity := a][b.identity := b] == m[b.identity := b][a.identity := a];
    } else {
      assert m[a.identity := a][b.identity := b] == m[b.identity := b];
      assert m[b.identity := b][a.identity := a] == m[a.identity := a];
      assert m[a.identity := a][a.identity] == a && m[b.identity := b][a.identity] == b;
    }
  }

  lemma OrderOfRevocations(verify: Verifier, s: Store, r: Revocation, q: Revocation)
    ensures var rq := WithRevocation(verify, WithRevocation(verify, s, r), q);
      var qr := WithRevocation(verify, WithRevocation(verify, s, q), r);
      rq != qr <==> Conflict(verify, s, Revoked(r), Revoked(q))
  {
    if ValidateRevocation(verify, r).None? && ValidateRevocation(verify, q).None? {
      FirstStands(s.revocations, r, q);
      assert WithRevocation(verify, WithRevocation(verify, s, r), q).revocations == First(First(s.revocations, r), q);
      assert WithRevocation(verify, WithRevocation(verify, s, q), r).revocations == First(First(s.revocations, q), r);
    }
  }

  function First(m: map<PublicKey, Revocation>, r: Revocation): map<PublicKey, Revocation> {
    if r.identity in m then m else m[r.identity := r]
  }

  lemma FirstStands(m: map<PublicKey, Revocation>, r: Revocation, q: Revocation)
    ensures First(First(m, r), q) != First(First(m, q), r) <==> r != q && r.identity == q.identity && r.identity !in m
  {
    if r.identity != q.identity {
      assert m[r.identity := r][q.identity := q] == m[q.identity := q][r.identity := r];
    } else {
      assert m[r.identity := r][r.identity] == r && m[q.identity := q][r.identity] == q;
    }
  }

  // --- and the order of many ---

  ghost predicate SameRecords(l: seq<Record>, m: seq<Record>) {
    forall rec :: rec in l <==> rec in m
  }

  /** Merging x and y conflicts, and nothing newer among the records settles it. */
  ghost predicate Undecided(verify: Verifier, s: Store, recs: seq<Record>, x: Record, y: Record) {
    x in recs && y in recs && Conflict(verify, s, x, y) && forall z :: z in recs ==> !Displaces(verify, s.root, z, x)
  }

  lemma {:induction false} AddAllSplits(verify: Verifier, s: Store, l: seq<Record>, m: seq<Record>)
    ensures AddAll(verify, s, l + m) == AddAll(verify, AddAll(verify, s, l), m)
  {
    if m == [] {
      assert l + m == l;
    } else {
      assert (l + m)[..|l + m| - 1] == l + m[..|m| - 1];
      AddAllSplits(verify, s, l, m[..|m| - 1]);
    }
  }

  lemma FirstMergedStays(verify: Verifier, s: Store, recs: seq<Record>, x: Record, y: Record)
    requires Undecided(verify, s, recs, x, y)
    ensures Stored(AddAll(verify, s, [x] + recs), x)
  {
    AddAllSplits(verify, s, [x], recs);
    assert [x][..0] == [];
    assert AddAll(verify, s, [x]) == WithRecord(verify, s, x);
    KeptThroughMerge(verify, WithRecord(verify, s, x), recs, x);
  }

  /** Two results of the same records that differ in a place differ there by a conflict nothing settles. */
  lemma ResultsAgree(verify: Verifier, s: Store, l: seq<Record>, m: seq<Record>, x: Record, y: Record)
    requires Filed(s) && SameRecords(l, m)
    requires Stored(AddAll(verify, s, l), x) && Stored(AddAll(verify, s, m), y)
    requires Rivals(x, y)
    requires forall z :: z in l ==> !Displaces(verify, s.root, z, x)
    requires x in Pool(verify, s, l) && y in Pool(verify, s, l)
    ensures Undecided(verify, s, l, x, y)
  {
    RecordsOfAreStored(s);
    if Stored(s, x) { KeptThroughMerge(verify, s, m, x); }
    if Stored(s, y) { KeptThroughMerge(verify, s, l, y); }
    if Absorbs(verify, s, x) {
      match x
      case Admitted(a) => KeptThroughMerge(verify, s, l, Admitted(s.admissions[a.identity]));
      case Revoked(r) => KeptThroughMerge(verify, s, l, Revoked(s.revocations[r.identity]));
    }
  }

  lemma SettledAdmission(verify: Verifier, s: Store, l: seq<Record>, m: seq<Record>, id: PublicKey)
    requires Filed(s) && SameRecords(l, m) && (forall x, y :: !Undecided(verify, s, l, x, y))
    requires id in AddAll(verify, s, l).admissions
    ensures id in AddAll(verify, s, m).admissions
      && AddAll(verify, s, l).admissions[id] == AddAll(verify, s, m).admissions[id]
  {
    ResultsSummarise(verify, s, l, m);
    var a, b := AddAll(verify, s, l).admissions[id], AddAll(verify, s, m).admissions[id];
    assert Admitted(a) in Pool(verify, s, l) && Admitted(b) in Pool(verify, s, l);
    if a != b {
      assert forall z :: z in l && Displaces(verify, s.root, z, Admitted(a)) ==> z in Pool(verify, s, l);
      ResultsAgree(verify, s, l, m, Admitted(a), Admitted(b));
    }
  }

  lemma SettledRevocation(verify: Verifier, s: Store, l: seq<Record>, m: seq<Record>, id: PublicKey)
    requires Filed(s) && SameRecords(l, m) && (forall x, y :: !Undecided(verify, s, l, x, y))
    requires id in AddAll(verify, s, l).revocations
    ensures id in AddAll(verify, s, m).revocations
      && AddAll(verify, s, l).revocations[id] == AddAll(verify, s, m).revocations[id]
  {
    ResultsSummarise(verify, s, l, m);
    var r, q := AddAll(verify, s, l).revocations[id], AddAll(verify, s, m).revocations[id];
    assert Revoked(r) in Pool(verify, s, l) && Revoked(q) in Pool(verify, s, l);
    if r != q {
      ResultsAgree(verify, s, l, m, Revoked(r), Revoked(q));
    }
  }

  lemma ResultsSummarise(verify: Verifier, s: Store, l: seq<Record>, m: seq<Record>)
    requires Filed(s) && SameRecords(l, m)
    ensures Pool(verify, s, l) == Pool(verify, s, m)
    ensures Summarises(Pool(verify, s, l), AddAll(verify, s, l)) && Summarises(Pool(verify, s, l), AddAll(verify, s, m))
  {
    SameRecordsSameAccepted(verify, s.root, l, m);
    StoreSummarisesItself(s);
    MergeSummarises(verify, RecordsOf(s), s, l);
    MergeSummarises(verify, RecordsOf(s), s, m);
  }

  lemma SettledResultsAgree(verify: Verifier, s: Store, l: seq<Record>, m: seq<Record>)
    requires Filed(s) && SameRecords(l, m) && (forall x, y :: !Undecided(verify, s, l, x, y))
    ensures AddAll(verify, s, l) == AddAll(verify, s, m)
  {
    var t, u := AddAll(verify, s, l), AddAll(verify, s, m);
    assert forall x, y :: Undecided(verify, s, m, x, y) ==> Undecided(verify, s, l, x, y);
    forall id ensures id in t.admissions <==> id in u.admissions {
      if id in t.admissions { SettledAdmission(verify, s, l, m, id); }
      if id in u.admissions { SettledAdmission(verify, s, m, l, id); }
    }
    forall id ensures id in t.revocations <==> id in u.revocations {
      if id in t.revocations { SettledRevocation(verify, s, l, m, id); }
      if id in u.revocations { SettledRevocation(verify, s, m, l, id); }
    }
    forall id | id in t.admissions ensures t.admissions[id] == u.admissions[id] {
      SettledAdmission(verify, s, l, m, id);
    }
    forall id | id in t.revocations ensures t.revocations[id] == u.revocations[id] {
      SettledRevocation(verify, s, l, m, id);
    }
    assert t.admissions == u.admissions && t.revocations == u.revocations;
  }

  lemma RivalsExclude(s: Store, x: Record, y: Record)
    requires Rivals(x, y) && Stored(s, x)
    ensures !Stored(s, y)
  {
  }

  lemma UndecidedDepends(verify: Verifier, s: Store, l: seq<Record>, x: Record, y: Record)
    requires Undecided(verify, s, l, x, y)
    ensures !OrderFree(verify, s, l)
  {
    FirstMergedStays(verify, s, l, x, y);
    assert Undecided(verify, s, l, y, x);
    FirstMergedStays(verify, s, l, y, x);
    assert SameRecords(l, [x] + l) && SameRecords(l, [y] + l);
    RivalsExclude(AddAll(verify, s, [x] + l), x, y);
  }

  ghost predicate OrderFree(verify: Verifier, s: Store, l: seq<Record>) {
    forall m :: SameRecords(l, m) ==> AddAll(verify, s, m) == AddAll(verify, s, l)
  }

  /**
   Records lead to one store in whatever order and however often they are merged, exactly
   when no two of them conflict, or something newer settles every conflict.
  */
  lemma OrderIsIrrelevantIff(verify: Verifier, s: Store, l: seq<Record>)
    requires Filed(s)
    ensures OrderFree(verify, s, l) <==> forall x, y :: !Undecided(verify, s, l, x, y)
  {
    if forall x, y :: !Undecided(verify, s, l, x, y) {
      forall m | SameRecords(l, m) ensures AddAll(verify, s, m) == AddAll(verify, s, l) {
        SettledResultsAgree(verify, s, l, m);
      }
    }
    if x, y :| Undecided(verify, s, l, x, y) {
      UndecidedDepends(verify, s, l, x, y);
    }
  }

  // --- a record accepted once is never accepted again ---

  lemma AbsorbedIff(verify: Verifier, s: Store, rec: Record)
    ensures Absorbs(verify, s, rec) <==> WithRecord(verify, s, rec) == s
  {
    match rec
    case Admitted(a) =>
      if !Absorbs(verify, s, rec) {
        assert a.identity in s.admissions ==> s.admissions[a.identity].issuedAt < a.issuedAt;
        assert WithRecord(verify, s, rec).admissions[a.identity] == a;
      }
    case Revoked(r) =>
      if !Absorbs(verify, s, rec) {
        assert r.identity in WithRecord(verify, s, rec).revocations;
      }
  }

  lemma AbsorbedForGood(verify: Verifier, s: Store, x: Record, rec: Record)
    requires Absorbs(verify, s, rec) || x == rec
    ensures Absorbs(verify, WithRecord(verify, s, x), rec)
  {
  }

  lemma {:induction false} AbsorbedThroughMerge(verify: Verifier, s: Store, recs: seq<Record>, rec: Record)
    requires Absorbs(verify, s, rec) || rec in recs
    ensures Absorbs(verify, AddAll(verify, s, recs), rec)
  {
    if recs != [] {
      var init, last := recs[..|recs| - 1], recs[|recs| - 1];
      assert recs == init + [last];
      if last != rec { AbsorbedThroughMerge(verify, s, init, rec); }
      AbsorbedForGood(verify, AddAll(verify, s, init), last, rec);
    }
  }

  lemma {:induction false} AbsorbedChangeNothing(verify: Verifier, s: Store, recs: seq<Record>)
    requires forall rec :: rec in recs ==> Absorbs(verify, s, rec)
    ensures AddAll(verify, s, recs) == s
  {
    if recs != [] {
      var init, last := recs[..|recs| - 1], recs[|recs| - 1];
      assert recs == init + [last];
      AbsorbedChangeNothing(verify, s, init);
      AbsorbedIff(verify, s, last);
    }
  }

  /** Merging the same records again, conflicting or not, changes nothing. */
  lemma MergeIsIdempotent(verify: Verifier, s: Store, recs: seq<Record>)
    ensures AddAll(verify, AddAll(verify, s, recs), recs) == AddAll(verify, s, recs)
  {
    forall rec | rec in recs ensures Absorbs(verify, AddAll(verify, s, recs), rec) {
      AbsorbedThroughMerge(verify, s, recs, rec);
    }
    AbsorbedChangeNothing(verify, AddAll(verify, s, recs), recs);
  }

  // --- flooding ---

  /** What can reach a node: a broadcast record, or a peer's whole state. Loss is a step that does not happen. */
  datatype Step = Notify(node: nat, rec: Record) | Remote(node: nat, recs: seq<Record>)

  type Network = seq<Store>

  function Deliver(verify: Verifier, net: Network, step: Step): Network
    requires step.node < |net|
  {
    net[step.node := match step
      case Notify(_, rec) => WithRecord(verify, net[step.node], rec)
      case Remote(_, recs) => AddAll(verify, net[step.node], recs)]
  }

  ghost predicate Run(net: Network, pool: set<Record>, steps: seq<Step>) {
    forall i :: 0 <= i < |steps| ==> steps[i].node < |net| && (steps[i].Notify? ==> steps[i].rec in pool)
  }

  /** How often NotifyMsg passes a record on during the run: once for each that changed the node's set. */
  function Rebroadcasts(verify: Verifier, net: Network, steps: seq<Step>): nat
    requires forall i :: 0 <= i < |steps| ==> steps[i].node < |net|
    decreases |steps|
  {
    if steps == [] then 0
    else
      var next := Deliver(verify, net, steps[0]);
      (if steps[0].Notify? && next != net then 1 else 0) + Rebroadcasts(verify, next, steps[1..])
  }

  /** Over any run of a network, whatever is delivered to whom, no set ever holds a forgery. */
  lemma {:induction false} NetworkStaysSigned(verify: Verifier, net: Network, steps: seq<Step>)
    requires forall i :: 0 <= i < |net| ==> AllSigned(verify, net[i])
    requires forall i :: 0 <= i < |steps| ==> steps[i].node < |net|
    ensures |DeliverAll(verify, net, steps)| == |net|
    ensures forall i :: 0 <= i < |net| ==> AllSigned(verify, DeliverAll(verify, net, steps)[i])
    decreases |steps|
  {
    if steps != [] {
      var next, step := Deliver(verify, net, steps[0]), steps[0];
      forall i | 0 <= i < |next| ensures AllSigned(verify, next[i]) {
        if i == step.node {
          match step {
            case Notify(_, rec) => AddOne(verify, net[i], rec); MergeKeepsSigned(verify, net[i], [rec]);
            case Remote(_, recs) => MergeKeepsSigned(verify, net[i], recs);
          }
        }
      }
      NetworkStaysSigned(verify, next, steps[1..]);
    }
  }

  lemma AddOne(verify: Verifier, s: Store, rec: Record)
    ensures AddAll(verify, s, [rec]) == WithRecord(verify, s, rec)
  {
    assert [rec][..0] == [];
  }

  function DeliverAll(verify: Verifier, net: Network, steps: seq<Step>): Network
    requires forall i :: 0 <= i < |steps| ==> steps[i].node < |net|
    decreases |steps|
  {
    if steps == [] then net else DeliverAll(verify, Deliver(verify, net, steps[0]), steps[1..])
  }

  /** What a node may yet accept. */
  function Pending(verify: Verifier, net: Network, pool: set<Record>): set<(nat, Record)> {
    set i, rec | 0 <= i < |net| && rec in pool && !Absorbs(verify, net[i], rec) :: (i as nat, rec)
  }

  lemma SubsetIsSmaller<T>(a: set<T>, b: set<T>)
    requires a <= b
    ensures |a| <= |b|
    ensures a != b ==> |a| < |b|
  {
    assert b == a + (b - a);
    if a != b {
      var x :| x in b && x !in a;
      assert x in b - a;
    }
  }

  lemma {:induction false} PairsAreBounded(n: nat, pool: set<Record>, pairs: set<(nat, Record)>)
    requires forall p :: p in pairs ==> p.0 < n && p.1 in pool
    ensures |pairs| <= n * |pool|
  {
    if n == 0 {
      assert pairs == {};
    } else {
      var last := set p | p in pairs && p.0 == n - 1;
      var records := set p | p in last :: p.1;
      PairsAreBounded(n - 1, pool, pairs - last);
      OneNode(n - 1, last, pool);
      assert pairs == (pairs - last) + last;
      assert n * |pool| == (n - 1) * |pool| + |pool|;
    }
  }

  lemma {:induction false} OneNode(i: nat, pairs: set<(nat, Record)>, pool: set<Record>)
    requires forall p :: p in pairs ==> p.0 == i && p.1 in pool
    ensures |pairs| <= |pool|
  {
    if p :| p in pairs {
      forall q | q in pairs - {p} ensures q.1 in pool - {p.1} {
        assert q == (i, q.1) && p == (i, p.1);
      }
      OneNode(i, pairs - {p}, pool - {p.1});
    }
  }

  lemma {:induction false} FloodingUsesUpPending(verify: Verifier, net: Network, pool: set<Record>, steps: seq<Step>)
    requires Run(net, pool, steps)
    ensures Rebroadcasts(verify, net, steps) <= |Pending(verify, net, pool)|
    decreases |steps|
  {
    if steps != [] {
      var step, next := steps[0], Deliver(verify, net, steps[0]);
      var before, after := Pending(verify, net, pool), Pending(verify, next, pool);
      forall p | p in after ensures p in before {
        if p.0 == step.node && step.Notify? && Absorbs(verify, net[p.0], p.1) {
          AbsorbedForGood(verify, net[p.0], step.rec, p.1);
        }
        if p.0 == step.node && step.Remote? && Absorbs(verify, net[p.0], p.1) {
          AbsorbedThroughMerge(verify, net[p.0], step.recs, p.1);
        }
      }
      if step.Notify? && next != net {
        AbsorbedIff(verify, net[step.node], step.rec);
        AbsorbedForGood(verify, net[step.node], step.rec, step.rec);
        assert (step.node, step.rec) in before && (step.node, step.rec) !in after;
      }
      SubsetIsSmaller(after, before);
      FloodingUsesUpPending(verify, next, pool, steps[1..]);
    }
  }

  lemma {:induction false} DeliveringOneMore(verify: Verifier, net: Network, steps: seq<Step>, last: Step)
    requires last.node < |net| && forall i :: 0 <= i < |steps| ==> steps[i].node < |net|
    ensures var now := DeliverAll(verify, net, steps);
      && |now| == |net|
      && DeliverAll(verify, net, steps + [last]) == Deliver(verify, now, last)
      && Rebroadcasts(verify, net, steps + [last]) == Rebroadcasts(verify, net, steps) +
        if last.Notify? && Deliver(verify, now, last) != now then 1 else 0
    decreases |steps|
  {
    var all := steps + [last];
    if steps == [] {
      assert all == [last] && all[1..] == [];
    } else {
      assert all[0] == steps[0] && all[1..] == steps[1..] + [last];
      DeliveringOneMore(verify, Deliver(verify, net, steps[0]), steps[1..], last);
    }
  }

  /**
   Whatever has been delivered before, a broadcast is passed on exactly when its record was
   still pending at the node it reaches; it is not pending there afterwards, and no other
   node's set has changed.
  */
  lemma PassedOnIffPending(verify: Verifier, net: Network, pool: set<Record>, steps: seq<Step>, i: nat, rec: Record)
    requires i < |net| && rec in pool && forall k :: 0 <= k < |steps| ==> steps[k].node < |net|
    ensures var now, after := DeliverAll(verify, net, steps), DeliverAll(verify, net, steps + [Notify(i, rec)]);
      && Rebroadcasts(verify, net, steps + [Notify(i, rec)]) == Rebroadcasts(verify, net, steps) +
        (if (i, rec) in Pending(verify, now, pool) then 1 else 0)
      && (i, rec) !in Pending(verify, after, pool)
      && |after| == |now| == |net| && forall j :: 0 <= j < |net| && j != i ==> after[j] == now[j]
  {
    DeliveringOneMore(verify, net, steps, Notify(i, rec));
    var now := DeliverAll(verify, net, steps);
    AbsorbedIff(verify, now[i], rec);
    AbsorbedForGood(verify, now[i], rec, rec);
  }

  /**
   Flooding ends: over a network of N nodes and broadcasts drawn from a pool of records,
   no run, whatever is delivered, repeated, lost or reordered, re-broadcasts more than N
   times the size of the pool.
  */
  lemma FloodingTerminates(verify: Verifier, net: Network, pool: set<Record>, steps: seq<Step>)
    requires Run(net, pool, steps)
    ensures Rebroadcasts(verify, net, steps) <= |net| * |pool|
  {
    FloodingUsesUpPending(verify, net, pool, steps);
    PairsAreBounded(|net|, pool, Pending(verify, net, pool));
  }
}
