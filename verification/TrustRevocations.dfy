/**
 When a revocation by a member ends its subject's membership (internal/trust/set.go:162-201):
 wherever the questions records raise never come back to themselves, and exactly which
 members stand where members revoke each other in a ring.
*/
module TrustRevocations {
  import opened Basics
  import opened TrustRecords
  import opened TrustStore
  import opened TrustEffects
  import opened TrustReplay

  // --- where questions lead nowhere back ---

  /** Answering q asks r: about the revoker when it revoked, or about the admitter when it admitted. */
  predicate Leads(s: Store, q: Question, r: Question) {
    var rev := RevocationBy(s, q.id, q.at);
    || (rev.Some? && rev.value.revoker != q.id && r == Question(rev.value.revoker, rev.value.issuedAt))
    || (q.id != s.root && q.id in s.admissions && s.admissions[q.id].admitter != q.id
        && r == Question(s.admissions[q.id].admitter, s.admissions[q.id].issuedAt))
  }

  /**
   In the region, which answering never leaves, questions are ranked so that each leads to
   lower ones: none comes back to itself, whatever the rest of the records do.
  */
  ghost predicate Acyclic(s: Store, region: Question -> bool, rank: Question -> nat) {
    forall q, r :: region(q) && Leads(s, q, r) ==> region(r) && rank(r) < rank(q)
  }

  /** Nothing open in the region can come up again at q or below. */
  ghost predicate Above(region: Question -> bool, rank: Question -> nat, open: set<Question>, q: Question) {
    forall u :: u in open && region(u) ==> rank(u) > rank(q)
  }

  /** There the cycle guard never fires: what is open makes no difference. */
  lemma {:induction false} GuardIsIdle(s: Store, region: Question -> bool, rank: Question -> nat, q: Question,
      v: set<Question>, w: set<Question>)
    requires Acyclic(s, region, rank) && region(q) && Above(region, rank, v, q) && Above(region, rank, w, q)
    ensures MemberAt(s, q.id, q.at, v) == MemberAt(s, q.id, q.at, w)
    decreases rank(q)
  {
    var rev := RevocationBy(s, q.id, q.at);
    assert q !in v && q !in w;
    var v1, w1 := if q.id == s.root then v else v + {q}, if q.id == s.root then w else w + {q};
    if rev.Some? && rev.value.revoker != q.id {
      var r := Question(rev.value.revoker, rev.value.issuedAt);
      assert Leads(s, q, r);
      GuardIsIdle(s, region, rank, r, v1, w1);
    }
    if q.id != s.root && q.id in s.admissions && s.admissions[q.id].admitter != q.id {
      var r := Question(s.admissions[q.id].admitter, s.admissions[q.id].issuedAt);
      assert Leads(s, q, r);
      GuardIsIdle(s, region, rank, r, v1, w1);
    }
  }

  /** A member now was one when it revoked, whatever was open above. */
  lemma RevokersStoodBefore(s: Store, region: Question -> bool, rank: Question -> nat, x: PublicKey,
      open: set<Question>)
    requires Acyclic(s, region, rank) && x in s.revocations && s.revocations[x].revoker != x
    requires region(Question(x, MAX_INT64)) && region(Question(s.revocations[x].revoker, MAX_INT64))
    requires open <= {Question(x, MAX_INT64)} && Member(s, s.revocations[x].revoker)
    ensures MemberAt(s, s.revocations[x].revoker, s.revocations[x].issuedAt, open)
  {
    var y, t := s.revocations[x].revoker, s.revocations[x].issuedAt;
    var p, now, q := Question(x, MAX_INT64), Question(y, MAX_INT64), Question(y, t);
    assert Leads(s, p, q);
    var none: set<Question> := {};
    var v, w := if y == s.root then none else none + {now}, if y == s.root then open else open + {q};
    var rev := RevocationBy(s, y, t);
    if rev.Some? && rev.value.revoker != y {
      StaysAnswered(s, region, rank, p, now, q, Question(rev.value.revoker, rev.value.issuedAt), v, w);
    }
    if y != s.root {
      var a := s.admissions[y];
      StaysAnswered(s, region, rank, p, now, q, Question(a.admitter, a.issuedAt), v, w);
    }
  }

  lemma StaysAnswered(s: Store, region: Question -> bool, rank: Question -> nat, p: Question, now: Question,
      q: Question, r: Question, v: set<Question>, w: set<Question>)
    requires Acyclic(s, region, rank) && region(p) && region(now)
    requires Leads(s, p, q) && Leads(s, q, r) && Leads(s, now, r) && v <= {now} && w <= {p, q}
    ensures MemberAt(s, r.id, r.at, v) == MemberAt(s, r.id, r.at, w)
  {
    assert rank(r) < rank(q) < rank(p) && rank(r) < rank(now);
    GuardIsIdle(s, region, rank, r, v, w);
  }

  /**
   Where no question about x or its revoker comes back to itself, a revocation by a member,
   or by its subject, ends its subject's membership. So two members of whom one revoked the
   other can stand only where asking about them leads back to a question already open.
  */
  lemma RevocationByMemberCounts(s: Store, region: Question -> bool, rank: Question -> nat, x: PublicKey)
    requires Acyclic(s, region, rank) && x in s.revocations
    requires region(Question(x, MAX_INT64)) && region(Question(s.revocations[x].revoker, MAX_INT64))
    requires s.revocations[x].revoker == x || Member(s, s.revocations[x].revoker)
    ensures !Member(s, x)
  {
    if s.revocations[x].revoker != x {
      var none: set<Question> := {};
      var open := if x == s.root then none else none + {Question(x, MAX_INT64)};
      RevokersStoodBefore(s, region, rank, x, open);
    }
  }

  /** Records whose times tell a consistent story lead nowhere back. */
  lemma ChronologicalIsAcyclic(s: Store) returns (region: Question -> bool, rank: Question -> nat)
    requires Chronological(s)
    ensures Acyclic(s, region, rank) && forall id :: region(Question(id, MAX_INT64))
  {
    region := (q: Question) => AdmittedBefore(s, q.id, q.at);
    rank := (q: Question) => 2 * (q.at + MAX_INT64 + 1) + if Tied(s, q.id, q.at) then 1 else 0;
    forall q, r | region(q) && Leads(s, q, r) ensures region(r) && rank(r) < rank(q) {
    }
  }

  /** In particular on chronological records. */
  lemma ChronologicalRevocationCounts(s: Store, x: PublicKey)
    requires Chronological(s) && x in s.revocations
    requires s.revocations[x].revoker == x || Member(s, s.revocations[x].revoker)
    ensures !Member(s, x)
  {
    var region, rank := ChronologicalIsAcyclic(s);
    RevocationByMemberCounts(s, region, rank, x);
  }

  // --- rings of revocations ---

  /** A chain vouches for x's admitter that avoids all of these and holds nobody revoked. */
  ghost predicate VouchedApart(s: Store, x: PublicKey, ring: seq<PublicKey>) {
    x in s.admissions && exists path :: ChainApart(s, path, ring) && path[0] == s.admissions[x].admitter
  }

  ghost predicate ChainApart(s: Store, path: seq<PublicKey>, ring: seq<PublicKey>) {
    Chain(s, path) && forall p :: p in path ==> p !in ring && p !in s.revocations
  }

  lemma AdmitterStands(s: Store, x: PublicKey, ring: seq<PublicKey>, visiting: set<Question>)
    requires VouchedApart(s, x, ring) && forall q :: q in visiting ==> q.id in ring
    ensures MemberAt(s, s.admissions[x].admitter, s.admissions[x].issuedAt, visiting)
  {
    var path :| ChainApart(s, path, ring) && path[0] == s.admissions[x].admitter;
    var short := ChainWithoutRepeats(s, path);
    assert s.root == short[|short| - 1] && s.root in path;
    assert forall i :: 0 <= i < |short| ==> short[i] in path;
    UnrevokedChainStands(s, short, s.admissions[x].issuedAt, visiting);
  }

  function After(ring: seq<PublicKey>, i: nat): PublicKey
    requires i < |ring|
  {
    if i + 1 < |ring| then ring[i + 1] else ring[0]
  }

  /** The i-th is revoked by the one after it. */
  predicate RevokedByNext(s: Store, ring: seq<PublicKey>, i: nat)
    requires i < |ring|
  {
    ring[i] in s.revocations && s.revocations[ring[i]].revoker == After(ring, i)
  }

  /**
   Two or more identities, each revoked by the next and the last by the first, and each
   vouched for apart from all of them.
  */
  ghost predicate Ring(s: Store, ring: seq<PublicKey>) {
    && |ring| >= 2 && NoRepeats(ring)
    && (forall i :: 0 <= i < |ring| ==> RevokedByNext(s, ring, i))
    && (forall x :: x in ring ==> VouchedApart(s, x, ring))
  }

  ghost predicate Within(v: set<Question>, ring: seq<PublicKey>) {
    forall q :: q in v ==> q.id in ring
  }

  /** Whatever questions about the ring are open, x's admitter counts. */
  ghost predicate AdmitterCounts(s: Store, x: PublicKey, ring: seq<PublicKey>) {
    && x != s.root && x in s.admissions && s.admissions[x].admitter != x
    && forall v :: Within(v, ring) ==> MemberAt(s, s.admissions[x].admitter, s.admissions[x].issuedAt, v)
  }

  lemma VouchedCounts(s: Store, x: PublicKey, ring: seq<PublicKey>)
    requires VouchedApart(s, x, ring) && x in ring
    ensures AdmitterCounts(s, x, ring)
  {
    NotRoot(s, x, ring);
    forall v | Within(v, ring) ensures MemberAt(s, s.admissions[x].admitter, s.admissions[x].issuedAt, v) {
      AdmitterStands(s, x, ring, v);
    }
  }

  /** What the walk finds at a ring. */
  ghost predicate Core(s: Store, ring: seq<PublicKey>) {
    && |ring| >= 2 && NoRepeats(ring)
    && (forall i :: 0 <= i < |ring| ==> RevokedByNext(s, ring, i))
    && (forall x :: x in ring ==> AdmitterCounts(s, x, ring))
  }

  lemma RingHasCore(s: Store, ring: seq<PublicKey>)
    requires Ring(s, ring)
    ensures Core(s, ring)
  {
    forall x | x in ring ensures AdmitterCounts(s, x, ring) {
      VouchedCounts(s, x, ring);
    }
  }

  function RevokedAt(s: Store, id: PublicKey): int64 {
    if id in s.revocations then s.revocations[id].issuedAt else 0
  }

  /**
   Around the ring from j on, the first that was revoked later than the one before it; the
   whole ring's length if none is.
  */
  function Descent(s: Store, ring: seq<PublicKey>, j: nat): (m: nat)
    requires 1 <= j <= |ring|
    ensures j <= m <= |ring|
    decreases |ring| - j
  {
    if j == |ring| || RevokedAt(s, ring[j]) > RevokedAt(s, ring[j - 1]) then j else Descent(s, ring, j + 1)
  }

  /** All were revoked in one second. */
  ghost predicate OneSecond(s: Store, ring: seq<PublicKey>, t: int64) {
    forall i :: 0 <= i < |ring| ==> RevokedAt(s, ring[i]) == t
  }

  /** What is open when the walk from ring[0] comes to the j-th. */
  function Opened(s: Store, ring: seq<PublicKey>, j: nat): set<Question>
    requires 1 <= j <= |ring|
  {
    if j == 1 then {Question(ring[0], MAX_INT64)}
    else Opened(s, ring, j - 1) + {Question(ring[j - 1], RevokedAt(s, ring[j - 2]))}
  }

  lemma {:induction false} OpenedIsAboutEarlier(s: Store, ring: seq<PublicKey>, j: nat)
    requires 1 <= j <= |ring|
    ensures forall q :: q in Opened(s, ring, j) ==>
      q == Question(ring[0], MAX_INT64) || exists k :: 1 <= k < j && q == Question(ring[k], RevokedAt(s, ring[k - 1]))
    ensures Question(ring[0], MAX_INT64) in Opened(s, ring, j)
    ensures j >= 2 ==> Question(ring[1], RevokedAt(s, ring[0])) in Opened(s, ring, j)
  {
    if j > 1 {
      OpenedIsAboutEarlier(s, ring, j - 1);
    }
  }

  /** So far around the ring none was revoked later than the one before. */
  ghost predicate Descends(s: Store, ring: seq<PublicKey>, j: nat)
    requires j <= |ring|
  {
    forall k :: 1 <= k < j ==> RevokedAt(s, ring[k]) <= RevokedAt(s, ring[k - 1])
  }

  lemma {:induction false} DescendsAll(s: Store, ring: seq<PublicKey>, j: nat, k: nat)
    requires 1 <= j <= |ring| && k < j && Descends(s, ring, j)
    ensures RevokedAt(s, ring[j - 1]) <= RevokedAt(s, ring[k]) <= RevokedAt(s, ring[0])
  {
    if k + 1 < j {
      DescendsAll(s, ring, j - 1, k);
    } else if k > 0 {
      DescendsAll(s, ring, j - 1, k - 1);
    }
  }

  /** One step around the ring: asked about its j-th. */
  lemma CoreStep(s: Store, ring: seq<PublicKey>, j: nat, at: int64, v: set<Question>)
    requires Core(s, ring) && j < |ring| && Within(v, ring)
    ensures var x, q := ring[j], Question(ring[j], at);
      MemberAt(s, x, at, v) <==>
        q !in v && (RevokedAt(s, x) > at || !MemberAt(s, After(ring, j), RevokedAt(s, x), v + {q}))
  {
    var x := ring[j];
    assert AdmitterCounts(s, x, ring) && RevokedByNext(s, ring, j);
    assert Within(v + {Question(x, at)}, ring);
    assert After(ring, j) != x;
  }

  lemma OpenedIsWithin(s: Store, ring: seq<PublicKey>, j: nat)
    requires 1 <= j <= |ring|
    ensures Within(Opened(s, ring, j), ring)
  {
    OpenedIsAboutEarlier(s, ring, j);
  }

  /** A ring that descends all the way was revoked at the last second in one, if its last was. */
  lemma LastSecond(s: Store, ring: seq<PublicKey>)
    requires |ring| >= 1 && Descends(s, ring, |ring|)
    ensures OneSecond(s, ring, MAX_INT64) <==> RevokedAt(s, ring[|ring| - 1]) == MAX_INT64
    ensures RevokedAt(s, ring[|ring| - 1]) <= RevokedAt(s, ring[0])
  {
    forall k | 0 <= k < |ring| ensures RevokedAt(s, ring[|ring| - 1]) <= RevokedAt(s, ring[k]) {
      DescendsAll(s, ring, |ring|, k);
    }
  }

  /**
   Back at the first, asked about when the last was revoked: it counts, unless all of this
   is at the last second there is.
  */
  lemma RingCloses(s: Store, ring: seq<PublicKey>)
    requires Core(s, ring) && Descends(s, ring, |ring|)
    ensures var n := |ring|;
      MemberAt(s, ring[0], RevokedAt(s, ring[n - 1]), Opened(s, ring, n)) <==> !OneSecond(s, ring, MAX_INT64)
  {
    var n, v := |ring|, Opened(s, ring, |ring|);
    var q := Question(ring[0], RevokedAt(s, ring[n - 1]));
    LastSecond(s, ring);
    OpenedIsWithin(s, ring, n);
    OpenedAboutFirst(s, ring, n, q.at);
    CoreStep(s, ring, 0, q.at, v);
    assert Within(v + {q}, ring);
    CoreStep(s, ring, 1, RevokedAt(s, ring[0]), v + {q});
  }

  lemma OpenedAboutFirst(s: Store, ring: seq<PublicKey>, j: nat, at: int64)
    requires NoRepeats(ring) && 2 <= j <= |ring|
    ensures Question(ring[0], at) in Opened(s, ring, j) <==> at == MAX_INT64
    ensures Question(ring[1], RevokedAt(s, ring[0])) in Opened(s, ring, j)
  {
    OpenedIsAboutEarlier(s, ring, j);
  }

  lemma OpenedIsNotAboutNext(s: Store, ring: seq<PublicKey>, j: nat, at: int64)
    requires NoRepeats(ring) && 1 <= j < |ring|
    ensures Question(ring[j], at) !in Opened(s, ring, j)
  {
    OpenedIsAboutEarlier(s, ring, j);
  }

  /** What the walk from ring[0] finds of the j-th, asked about when the one before it was revoked. */
  predicate Found(s: Store, ring: seq<PublicKey>, j: nat)
    requires 1 <= j <= |ring|
  {
    MemberAt(s, After(ring, j - 1), RevokedAt(s, ring[j - 1]), Opened(s, ring, j))
  }

  lemma FoundByNext(s: Store, ring: seq<PublicKey>, j: nat)
    requires Core(s, ring) && 1 <= j < |ring|
    ensures Found(s, ring, j) <==> RevokedAt(s, ring[j]) > RevokedAt(s, ring[j - 1]) || !Found(s, ring, j + 1)
  {
    var v, q := Opened(s, ring, j), Question(ring[j], RevokedAt(s, ring[j - 1]));
    OpenedIsNotAboutNext(s, ring, j, q.at);
    OpenedIsWithin(s, ring, j);
    CoreStep(s, ring, j, RevokedAt(s, ring[j - 1]), v);
    assert Opened(s, ring, j + 1) == v + {q};
  }

  /** The same from the times alone. */
  predicate Alternates(s: Store, ring: seq<PublicKey>, j: nat, last: bool)
    requires 1 <= j <= |ring|
    decreases |ring| - j
  {
    if j == |ring| then !last
    else RevokedAt(s, ring[j]) > RevokedAt(s, ring[j - 1]) || !Alternates(s, ring, j + 1, last)
  }

  lemma {:induction false} AlternatesByDescent(s: Store, ring: seq<PublicKey>, j: nat, last: bool)
    requires 1 <= j <= |ring| && (last ==> OneSecond(s, ring, MAX_INT64))
    ensures Alternates(s, ring, j, last) <==> ((Descent(s, ring, j) - j) % 2 == 0 <==> !last)
    decreases |ring| - j
  {
    if j < |ring| && RevokedAt(s, ring[j]) <= RevokedAt(s, ring[j - 1]) {
      AlternatesByDescent(s, ring, j + 1, last);
    }
  }

  /** The k-th answer turns on the next as the walk's does. */
  predicate TurnsOn(s: Store, ring: seq<PublicKey>, found: nat -> bool, k: nat)
    requires 1 <= k < |ring|
  {
    found(k) <==> RevokedAt(s, ring[k]) > RevokedAt(s, ring[k - 1]) || !found(k + 1)
  }

  /** Answers that turn on one another as the times say, down to the last, are those the times alone give. */
  lemma {:induction false} AnswersAlternate(s: Store, ring: seq<PublicKey>, j: nat, last: bool, found: nat -> bool)
    requires 1 <= j <= |ring| && Descends(s, ring, j)
    requires Descends(s, ring, |ring|) ==> found(|ring|) == !last
    requires forall k :: 1 <= k < |ring| ==> TurnsOn(s, ring, found, k)
    ensures found(j) <==> Alternates(s, ring, j, last)
    decreases |ring| - j
  {
    if j < |ring| {
      assert TurnsOn(s, ring, found, j);
      if RevokedAt(s, ring[j]) <= RevokedAt(s, ring[j - 1]) {
        AnswersAlternate(s, ring, j + 1, last, found);
      }
    }
  }

  lemma RingAnswer(s: Store, ring: seq<PublicKey>, last: bool)
    requires Core(s, ring) && last == OneSecond(s, ring, MAX_INT64)
    ensures Found(s, ring, 1) <==> Alternates(s, ring, 1, last)
  {
    var found := (k: nat) => 1 <= k <= |ring| && Found(s, ring, k);
    forall k | 1 <= k < |ring| ensures TurnsOn(s, ring, found, k) {
      FoundByNext(s, ring, k);
    }
    if Descends(s, ring, |ring|) {
      RingCloses(s, ring);
    }
    AnswersAlternate(s, ring, 1, last, found);
  }

  /**
   Who stands in a ring: counting from an identity to the first that was revoked later than
   the one before it, or all around if there is none, it is a member exactly when the
   count is even. If all were revoked at the last second there is, which is when
   membership is asked about, it is a member exactly when the count is odd.
  */
  lemma RingOfRevocations(s: Store, ring: seq<PublicKey>)
    requires Ring(s, ring)
    ensures Member(s, ring[0]) <==> (Descent(s, ring, 1) % 2 == 0 <==> !OneSecond(s, ring, MAX_INT64))
  {
    RingHasCore(s, ring);
    CoreDecides(s, ring);
  }

  lemma CoreDecides(s: Store, ring: seq<PublicKey>)
    requires Core(s, ring)
    ensures Member(s, ring[0]) <==> (Descent(s, ring, 1) % 2 == 0 <==> !OneSecond(s, ring, MAX_INT64))
  {
    var none: set<Question> := {};
    assert none + {Question(ring[0], MAX_INT64)} == Opened(s, ring, 1);
    CoreStep(s, ring, 0, MAX_INT64, none);
    RingAnswer(s, ring, OneSecond(s, ring, MAX_INT64));
    AlternatesByDescent(s, ring, 1, OneSecond(s, ring, MAX_INT64));
  }

  /** The ring told from its k-th. */
  function Turned(ring: seq<PublicKey>, k: nat): seq<PublicKey>
    requires k < |ring|
  {
    ring[k..] + ring[..k]
  }

  function TurnedIndex(ring: seq<PublicKey>, k: nat, i: nat): (at: nat)
    requires k < |ring| && i < |ring|
    ensures at < |ring|
  {
    if i + k < |ring| then i + k else i + k - |ring|
  }

  lemma TurnedAt(ring: seq<PublicKey>, k: nat, i: nat)
    requires k < |ring| && i < |ring|
    ensures Turned(ring, k)[i] == ring[TurnedIndex(ring, k, i)]
    ensures After(Turned(ring, k), i) == After(ring, TurnedIndex(ring, k, i))
  {
  }

  lemma TurnedElements(ring: seq<PublicKey>, k: nat)
    requires k < |ring| && NoRepeats(ring)
    ensures NoRepeats(Turned(ring, k)) && forall p :: p in Turned(ring, k) <==> p in ring
  {
    assert ring == ring[..k] + ring[k..];
  }

  lemma TurnedHasCore(s: Store, ring: seq<PublicKey>, k: nat)
    requires Core(s, ring) && k < |ring|
    ensures Core(s, Turned(ring, k)) && Turned(ring, k)[0] == ring[k]
    ensures forall t :: OneSecond(s, Turned(ring, k), t) <==> OneSecond(s, ring, t)
  {
    var turned := Turned(ring, k);
    forall i | 0 <= i < |ring| ensures RevokedByNext(s, turned, i) {
      TurnedAt(ring, k, i);
      assert RevokedByNext(s, ring, TurnedIndex(ring, k, i));
    }
    TurnedElements(ring, k);
    forall x | x in turned ensures AdmitterCounts(s, x, turned) {
      assert AdmitterCounts(s, x, ring);
      assert forall v :: Within(v, turned) ==> Within(v, ring);
    }
    TurnedSeconds(s, ring, k);
  }

  lemma TurnedSeconds(s: Store, ring: seq<PublicKey>, k: nat)
    requires k < |ring|
    ensures forall t :: OneSecond(s, Turned(ring, k), t) <==> OneSecond(s, ring, t)
  {
    var turned, n := Turned(ring, k), |ring|;
    forall t ensures OneSecond(s, turned, t) <==> OneSecond(s, ring, t) {
      if OneSecond(s, turned, t) {
        forall i | 0 <= i < n ensures RevokedAt(s, ring[i]) == t {
          assert ring[i] == turned[if i >= k then i - k else i - k + n];
        }
      }
      if OneSecond(s, ring, t) {
        forall i | 0 <= i < n ensures RevokedAt(s, turned[i]) == t {
          assert turned[i] == ring[if i + k < n then i + k else i + k - n];
        }
      }
    }
  }

  lemma {:induction false} OneSecondDescends(s: Store, ring: seq<PublicKey>, j: nat, t: int64)
    requires 1 <= j <= |ring| && OneSecond(s, ring, t)
    ensures Descent(s, ring, j) == |ring|
    decreases |ring| - j
  {
    if j < |ring| {
      OneSecondDescends(s, ring, j + 1, t);
    }
  }

  /** Where the times are not all one, someone in the ring was revoked before its revoker was. */
  lemma SomeoneRises(s: Store, ring: seq<PublicKey>)
    requires |ring| >= 2 && forall t :: !OneSecond(s, ring, t)
    ensures exists k :: 0 <= k < |ring| && RevokedAt(s, ring[k]) < RevokedAt(s, After(ring, k))
  {
    var n := |ring|;
    if forall k :: 0 <= k < n ==> RevokedAt(s, ring[k]) >= RevokedAt(s, After(ring, k)) {
      forall j | 1 <= j < n ensures RevokedAt(s, ring[j]) <= RevokedAt(s, ring[j - 1]) {
        assert After(ring, j - 1) == ring[j];
      }
      assert RevokedAt(s, ring[n - 1]) >= RevokedAt(s, After(ring, n - 1)) == RevokedAt(s, ring[0]);
      forall i | 0 <= i < n ensures RevokedAt(s, ring[i]) == RevokedAt(s, ring[0]) {
        DescendsAll(s, ring, n, i);
      }
      assert OneSecond(s, ring, RevokedAt(s, ring[0]));
    }
  }

  lemma OneSecondRing(s: Store, ring: seq<PublicKey>, t: int64, k: nat)
    requires Core(s, ring) && OneSecond(s, ring, t) && k < |ring|
    ensures Member(s, ring[k]) <==> (|ring| % 2 == 0 <==> t < MAX_INT64)
  {
    TurnedHasCore(s, ring, k);
    OneSecondDescends(s, Turned(ring, k), 1, t);
    CoreDecides(s, Turned(ring, k));
    assert RevokedAt(s, ring[k]) == t;
    assert OneSecond(s, ring, MAX_INT64) <==> t == MAX_INT64;
  }

  lemma RisingFalls(s: Store, ring: seq<PublicKey>, k: nat)
    requires Core(s, ring) && k < |ring| && RevokedAt(s, ring[k]) < RevokedAt(s, After(ring, k))
    ensures !Member(s, ring[k])
  {
    TurnedHasCore(s, ring, k);
    var turned := Turned(ring, k);
    assert turned[1] == After(ring, k);
    CoreDecides(s, turned);
    assert !OneSecond(s, turned, MAX_INT64);
  }

  /**
   In a ring everyone stays exactly when all revocations are of one second before the last
   and the ring is even, or of the last and it is odd.
  */
  lemma RingStaysIff(s: Store, ring: seq<PublicKey>)
    requires Ring(s, ring)
    ensures (forall id :: id in ring ==> Member(s, id)) <==>
      (exists t: int64 :: OneSecond(s, ring, t) && (|ring| % 2 == 0 <==> t < MAX_INT64))
  {
    RingHasCore(s, ring);
    CoreStaysIff(s, ring);
  }

  lemma CoreStaysIff(s: Store, ring: seq<PublicKey>)
    requires Core(s, ring)
    ensures (forall id :: id in ring ==> Member(s, id)) <==>
      (exists t: int64 :: OneSecond(s, ring, t) && (|ring| % 2 == 0 <==> t < MAX_INT64))
  {
    if t: int64 :| OneSecond(s, ring, t) {
      forall id | id in ring ensures Member(s, id) <==> (|ring| % 2 == 0 <==> t < MAX_INT64) {
        var k :| 0 <= k < |ring| && ring[k] == id;
        OneSecondRing(s, ring, t, k);
      }
      assert ring[0] in ring && RevokedAt(s, ring[0]) == t;
    } else {
      SomeoneRises(s, ring);
      var k :| 0 <= k < |ring| && RevokedAt(s, ring[k]) < RevokedAt(s, After(ring, k));
      RisingFalls(s, ring, k);
      assert ring[k] in ring;
    }
  }

  /**
   The ring of two. Both stay exactly when they revoke each other in one second before the
   last; otherwise the earlier revocation stands and voids the later.
  */
  lemma MutualRevocation(s: Store, x: PublicKey, y: PublicKey)
    requires Ring(s, [x, y])
    ensures var tx, ty := RevokedAt(s, x), RevokedAt(s, y);
      && (Member(s, x) <==> ty < tx || tx == ty < MAX_INT64)
      && (Member(s, x) && Member(s, y) <==> tx == ty < MAX_INT64)
  {
    RingHasCore(s, [x, y]);
    OneOfTwo(s, x, y);
    TurnedHasCore(s, [x, y], 1);
    assert Turned([x, y], 1) == [y, x];
    OneOfTwo(s, y, x);
  }

  lemma OneOfTwo(s: Store, x: PublicKey, y: PublicKey)
    requires Core(s, [x, y])
    ensures Member(s, x) <==> RevokedAt(s, y) < RevokedAt(s, x) || RevokedAt(s, x) == RevokedAt(s, y) < MAX_INT64
  {
    var ring := [x, y];
    CoreDecides(s, ring);
    assert ring[0] == x && ring[1] == y;
    assert OneSecond(s, ring, MAX_INT64) <==> RevokedAt(s, x) == MAX_INT64 && RevokedAt(s, y) == MAX_INT64;
  }

  ghost predicate RevokeEachOther(s: Store, x: PublicKey, y: PublicKey) {
    && x != y && x in s.revocations && y in s.revocations
    && s.revocations[x].revoker == y && s.revocations[y].revoker == x
  }

  /** y, apart from the root's revocation, has a chain to the root that stands. */
  ghost predicate AdmittedApart(s: Store, y: PublicKey, path: seq<PublicKey>) {
    && y in s.admissions && Chain(s, path) && path[0] == s.admissions[y].admitter && y !in path && NoRepeats(path)
    && Unrevoked(s, path, s.admissions[y].issuedAt)
  }

  lemma RootsRevokerCounts(s: Store, y: PublicKey, path: seq<PublicKey>, v: set<Question>)
    requires RevokeEachOther(s, s.root, y) && AdmittedApart(s, y, path)
    requires Question(y, s.revocations[s.root].issuedAt) !in v && forall q :: q in v ==> q.id == y
    ensures MemberAt(s, y, s.revocations[s.root].issuedAt, v) <==>
      s.revocations[s.root].issuedAt < s.revocations[y].issuedAt
  {
    var tr, ty := s.revocations[s.root].issuedAt, s.revocations[y].issuedAt;
    var asked := v + {Question(y, tr)};
    UnrevokedChainStands(s, path, s.admissions[y].issuedAt, asked);
    assert !MemberAt(s, y, tr, asked);
    assert ty <= tr ==> MemberAt(s, s.root, ty, asked);
  }

  /**
   When one of the two is the root, one of them always falls: the root stays exactly when
   the revocation of the other is not the later one.
  */
  lemma MutualRevocationWithRoot(s: Store, y: PublicKey, path: seq<PublicKey>)
    requires RevokeEachOther(s, s.root, y) && AdmittedApart(s, y, path)
    ensures Member(s, s.root) <==> s.revocations[y].issuedAt <= s.revocations[s.root].issuedAt
    ensures Member(s, y) <==> !Member(s, s.root)
  {
    var tr, ty := s.revocations[s.root].issuedAt, s.revocations[y].issuedAt;
    var none: set<Question> := {};
    var now := none + {Question(y, MAX_INT64)};
    RootsRevokerCounts(s, y, path, none);
    UnrevokedChainStands(s, path, s.admissions[y].issuedAt, now);
    if tr < MAX_INT64 {
      RootsRevokerCounts(s, y, path, now);
    }
    assert MemberAt(s, s.root, ty, now) <==> ty <= tr;
  }

  // --- a revoker that stays, with nothing revoked back ---

  /**
   Nor need anyone be revoked back, or anything be of one second: y revokes x; z, whom x
   admits only afterwards, has by then revoked y. Judging each revocation leads back to the
   other through x's admission of z, and both x and y stay.
  */
  lemma UntiedRevokerStays(s: Store, x: PublicKey, y: PublicKey, z: PublicKey)
    requires NoRepeats([x, y, z]) && x in s.revocations && y in s.revocations && z !in s.revocations
      && z in s.admissions
    requires VouchedApart(s, x, [x, y, z]) && VouchedApart(s, y, [x, y, z]) && s.admissions[z].admitter == x
      && z != s.root
    requires s.revocations[x].revoker == y && s.revocations[y].revoker == z
    requires RevokedAt(s, y) < RevokedAt(s, x) <= s.admissions[z].issuedAt < MAX_INT64
    ensures Member(s, x) && Member(s, y)
  {
    var all := [x, y, z];
    assert all[0] == x && all[1] == y && all[2] == z;
    assert x != y && y != z && x != z;
    NotRoot(s, x, all);
    NotRoot(s, y, all);
    var tx, ty, tz := RevokedAt(s, x), RevokedAt(s, y), s.admissions[z].issuedAt;
    RevokerIsVoid(s, x, y, z);
    RevokerStays(s, x, y, z);
  }

  lemma NotRoot(s: Store, x: PublicKey, all: seq<PublicKey>)
    requires VouchedApart(s, x, all) && x in all
    ensures x != s.root && s.admissions[x].admitter !in all
  {
    var path :| ChainApart(s, path, all) && path[0] == s.admissions[x].admitter;
    assert path[|path| - 1] in path && path[0] in path;
  }

  ghost predicate Knot(s: Store, x: PublicKey, y: PublicKey, z: PublicKey) {
    && x != y && y != z && x != z && x != s.root && y != s.root && z != s.root
    && x in s.revocations && y in s.revocations && z !in s.revocations && z in s.admissions
    && VouchedApart(s, x, [x, y, z]) && VouchedApart(s, y, [x, y, z]) && s.admissions[z].admitter == x
    && s.admissions[x].admitter != x && s.admissions[y].admitter != y
    && s.revocations[x].revoker == y && s.revocations[y].revoker == z
    && RevokedAt(s, y) < RevokedAt(s, x) <= s.admissions[z].issuedAt < MAX_INT64
  }

  lemma RevokerIsVoid(s: Store, x: PublicKey, y: PublicKey, z: PublicKey)
    requires Knot(s, x, y, z)
    ensures Member(s, x)
  {
    var tx, ty, tz, all := RevokedAt(s, x), RevokedAt(s, y), s.admissions[z].issuedAt, [x, y, z];
    var none: set<Question> := {};
    var v1 := none + {Question(x, MAX_INT64)};
    var v2 := v1 + {Question(y, tx)};
    var v3 := v2 + {Question(z, ty)};
    var v4 := v3 + {Question(x, tz)};
    assert !MemberAt(s, y, tx, v4);
    AdmitterStands(s, x, all, v4);
    assert MemberAt(s, x, tz, v3);
    assert MemberAt(s, z, ty, v2);
    assert !MemberAt(s, y, tx, v1);
    AdmitterStands(s, x, all, v1);
  }

  lemma RevokerStays(s: Store, x: PublicKey, y: PublicKey, z: PublicKey)
    requires Knot(s, x, y, z)
    ensures Member(s, y)
  {
    var tx, ty, tz, all := RevokedAt(s, x), RevokedAt(s, y), s.admissions[z].issuedAt, [x, y, z];
    var none: set<Question> := {};
    var v1 := none + {Question(y, MAX_INT64)};
    var v2 := v1 + {Question(z, ty)};
    var v3 := v2 + {Question(x, tz)};
    var v4 := v3 + {Question(y, tx)};
    assert !MemberAt(s, z, ty, v4);
    AdmitterStands(s, y, all, v4);
    assert MemberAt(s, y, tx, v3);
    assert !MemberAt(s, x, tz, v2);
    assert !MemberAt(s, z, ty, v1);
    AdmitterStands(s, y, all, v1);
  }
}
