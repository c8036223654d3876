/**
 What one new record does to membership (internal/trust/set.go:53-84, 162-201), on
 every store, chronological or not.
*/
module TrustEffects {
  import opened Basics
  import opened TrustRecords
  import opened TrustStore

  /**
   A first revocation of x dated after every stored record decides x alone: x stays a
   member only if it was one and the revoker is neither x nor a member. The root is no
   exception, and nothing cascades.
  */
  lemma RevocationEffect(verify: Verifier, s: Store, r: Revocation, id: PublicKey)
    requires ValidateRevocation(verify, r).None? && r.identity !in s.revocations
    requires AllBefore(s, r.issuedAt)
    ensures var t := WithRevocation(verify, s, r);
      if id == r.identity then Member(t, id) <==> Member(s, id) && r.revoker != id && !Member(s, r.revoker)
      else Member(t, id) <==> Member(s, id)
  {
    var t := WithRevocation(verify, s, r);
    forall q | q in Questions(s) ensures Agree(s, t, q) && q.at < r.issuedAt {
    }
    if id != r.identity {
      Frame(s, t, id, MAX_INT64, {}, {});
    } else {
      var q := Question(id, MAX_INT64);
      LateQuestionsAreNew(s, MAX_INT64, q);
      var none: set<Question> := {};
      var open := if id == s.root then none else none + {q};
      if r.revoker != id {
        Frame(s, t, r.revoker, r.issuedAt, open, open);
        AskedLate(s, r.revoker, r.issuedAt, MAX_INT64, open, none);
      }
      if id in s.admissions {
        Frame(s, t, s.admissions[id].admitter, s.admissions[id].issuedAt, open, open);
      }
    }
  }

  /** The identity has signed no stored record. */
  predicate Silent(s: Store, id: PublicKey) {
    && (forall i :: i in s.admissions ==> s.admissions[i].admitter != id)
    && (forall i :: i in s.revocations ==> s.revocations[i].revoker != id)
  }

  /**
   An admission of an identity that has signed nothing, whatever its date, decides that
   identity alone: unless it is revoked it becomes a member exactly when its admitter was
   one at the time.
  */
  lemma AdmissionEffect(verify: Verifier, s: Store, a: Admission, id: PublicKey)
    requires AdmissionError(verify, s.root, a).None? && KeepsAdmission(s, a)
    requires Silent(s, a.identity) && a.identity != s.root
    ensures var t := WithAdmission(verify, s, a);
      && (id != a.identity ==> (Member(t, id) <==> Member(s, id)))
      && (id == a.identity && id !in s.revocations ==> (Member(t, id) <==> MemberAt(s, a.admitter, a.issuedAt, {})))
      && (id == a.identity && id !in s.revocations && AllBefore(s, a.issuedAt) ==>
        (Member(t, id) <==> Member(s, a.admitter)))
  {
    var t := WithAdmission(verify, s, a);
    forall q | q in Questions(s) ensures Agree(s, t, q) && q.id != a.identity {
    }
    if id != a.identity {
      Frame(s, t, id, MAX_INT64, {}, {});
    } else if id !in s.revocations {
      var none: set<Question> := {};
      Frame(s, t, a.admitter, a.issuedAt, none, none + {Question(id, MAX_INT64)});
      if AllBefore(s, a.issuedAt) {
        AskedLate(s, a.admitter, a.issuedAt, MAX_INT64, {}, {});
      }
    }
  }

  // --- every member is vouched for, link by link, from the root ---

  /** From an identity up to the root, each admitted by the next. */
  ghost predicate Chain(s: Store, path: seq<PublicKey>) {
    && path != [] && path[|path| - 1] == s.root
    && (forall i :: 0 <= i < |path| - 1 ==> path[i] in s.admissions && s.admissions[path[i]].admitter == path[i + 1])
  }

  lemma {:induction false} MembersAreVouchedFor(s: Store, id: PublicKey, at: int64, visiting: set<Question>)
    returns (path: seq<PublicKey>)
    requires MemberAt(s, id, at, visiting)
    ensures Chain(s, path) && path[0] == id
    decreases Questions(s) - visiting, Rank(s, Question(id, at))
  {
    if id == s.root {
      path := [id];
    } else {
      var q := Question(id, at);
      RecordsRaiseQuestions(s, id);
      AskingUsesUp(s, q, visiting);
      var up := MembersAreVouchedFor(s, s.admissions[id].admitter, s.admissions[id].issuedAt, visiting + {q});
      path := [id] + up;
    }
  }

  ghost predicate NoRepeats(path: seq<PublicKey>) {
    forall i, j :: 0 <= i < j < |path| ==> path[i] != path[j]
  }

  /** When the root is asked about at the end of a chain: when the last link was signed. */
  function AskedRootAt(s: Store, path: seq<PublicKey>, at: int64): int64 {
    if |path| >= 2 && path[|path| - 2] in s.admissions then s.admissions[path[|path| - 2]].issuedAt else at
  }

  /** Nobody along the chain is revoked, the root not by the time it signed. */
  ghost predicate Unrevoked(s: Store, path: seq<PublicKey>, at: int64) {
    && (forall i :: 0 <= i < |path| - 1 ==> path[i] !in s.revocations)
    && RevocationBy(s, s.root, AskedRootAt(s, path, at)).None?
  }

  lemma TailOfChain(s: Store, path: seq<PublicKey>)
    requires Chain(s, path) && path[0] != s.root
    ensures |path| >= 2 && Chain(s, path[1..]) && s.admissions[path[0]].admitter == path[1]
  {
    var up := path[1..];
    forall i | 0 <= i < |up| - 1 ensures up[i] in s.admissions && s.admissions[up[i]].admitter == up[i + 1] {
      assert up[i] == path[i + 1];
    }
  }

  lemma TailIsUnrevoked(s: Store, path: seq<PublicKey>, at: int64)
    requires Chain(s, path) && NoRepeats(path) && Unrevoked(s, path, at) && path[0] != s.root
    ensures var up := path[1..];
      && |path| >= 2 && Chain(s, up) && NoRepeats(up) && path[0] !in up && up[0] == path[1]
      && s.admissions[path[0]].admitter == up[0] && Unrevoked(s, up, s.admissions[path[0]].issuedAt)
      && forall p :: p in up ==> p in path
  {
    var up := path[1..];
    TailOfChain(s, path);
    assert forall i :: 0 <= i < |up| ==> up[i] == path[i + 1];
    assert |path| > 2 ==> up[|up| - 2] == path[|path| - 2] && path[|path| - 2] in s.admissions;
  }

  /** An unrevoked chain stands, whatever questions about others are open. */
  lemma {:induction false} UnrevokedChainStands(s: Store, path: seq<PublicKey>, at: int64, visiting: set<Question>)
    requires Chain(s, path) && NoRepeats(path) && Unrevoked(s, path, at)
    requires forall q :: q in visiting ==> q.id !in path
    ensures MemberAt(s, path[0], at, visiting)
    decreases |path|
  {
    if path[0] != s.root {
      var up, signed := path[1..], s.admissions[path[0]].issuedAt;
      TailIsUnrevoked(s, path, at);
      assert path[0] !in s.revocations;
      UnrevokedChainStands(s, up, signed, visiting + {Question(path[0], at)});
    }
  }

  /** A chain to the root can be cut so that nobody appears twice. */
  lemma {:induction false} ChainWithoutRepeats(s: Store, path: seq<PublicKey>) returns (short: seq<PublicKey>)
    requires Chain(s, path)
    ensures Chain(s, short) && short[0] == path[0] && NoRepeats(short)
    ensures forall p :: p in short ==> p in path
    decreases |path|
  {
    if i, j :| 0 <= i < j < |path| && path[i] == path[j] {
      var cut := path[..i] + path[j..];
      forall k | 0 <= k < |cut| - 1 ensures cut[k] in s.admissions && s.admissions[cut[k]].admitter == cut[k + 1] {
        if k < i { assert cut[k] == path[k] && cut[k + 1] == path[k + 1]; }
        else { assert cut[k] == path[k + j - i] && cut[k + 1] == path[k + j - i + 1]; }
      }
      short := ChainWithoutRepeats(s, cut);
    } else {
      short := path;
    }
  }

  /**
   Where nothing is revoked, membership is reachability: the members are exactly those a
   chain of admissions connects to the root, cycles elsewhere notwithstanding.
  */
  lemma WithoutRevocationsMembershipIsReachability(s: Store, id: PublicKey)
    requires s.revocations == map[]
    ensures Member(s, id) <==> exists path :: Chain(s, path) && path[0] == id
  {
    if Member(s, id) {
      var path := MembersAreVouchedFor(s, id, MAX_INT64, {});
    }
    if path :| Chain(s, path) && path[0] == id {
      var short := ChainWithoutRepeats(s, path);
      UnrevokedChainStands(s, short, MAX_INT64, {});
    }
  }

  // --- admitting again ---

  /** Each admitted by the next, wherever that ends. */
  ghost predicate Links(s: Store, path: seq<PublicKey>) {
    && path != []
    && forall i :: 0 <= i < |path| - 1 ==> path[i] in s.admissions && s.admissions[path[i]].admitter == path[i + 1]
  }

  ghost predicate Reaches(s: Store, id: PublicKey, x: PublicKey) {
    exists path :: Links(s, path) && path[0] == id && path[|path| - 1] == x
  }

  /** A chain of admissions connects the identity to the root without x. */
  ghost predicate ReachesWithout(s: Store, id: PublicKey, x: PublicKey) {
    exists path :: Chain(s, path) && path[0] == id && x !in path
  }

  lemma PrependLink(s: Store, id: PublicKey, path: seq<PublicKey>)
    requires Links(s, path) && id in s.admissions && s.admissions[id].admitter == path[0]
    ensures Links(s, [id] + path) && ([id] + path)[|path|] == path[|path| - 1]
  {
    var long := [id] + path;
    forall i | 0 <= i < |long| - 1 ensures long[i] in s.admissions && s.admissions[long[i]].admitter == long[i + 1] {
      assert i > 0 ==> long[i] == path[i - 1];
    }
  }

  lemma TailLinks(s: Store, path: seq<PublicKey>)
    requires Links(s, path) && |path| >= 2
    ensures Links(s, path[1..]) && s.admissions[path[0]].admitter == path[1]
  {
    var up := path[1..];
    forall i | 0 <= i < |up| - 1 ensures up[i] in s.admissions && s.admissions[up[i]].admitter == up[i + 1] {
      assert up[i] == path[i + 1];
    }
  }

  /** Stores that differ only in who admitted x link the same identities up to x, and beyond it not through it. */
  ghost predicate SameButFor(s: Store, t: Store, x: PublicKey) {
    && s.root == t.root
    && forall id :: id != x ==>
      (id in s.admissions <==> id in t.admissions) && (id in s.admissions ==> s.admissions[id] == t.admissions[id])
  }

  /** From any chain of t: one of s that avoids x, or links of s up to x and a chain of t from x. */
  lemma {:induction false} ChainMeets(s: Store, t: Store, x: PublicKey, path: seq<PublicKey>)
    requires SameButFor(s, t, x) && x != s.root && Chain(t, path)
    ensures ReachesWithout(s, path[0], x) || (Reaches(s, path[0], x) && exists up :: Chain(t, up) && up[0] == x)
    decreases |path|
  {
    if path[0] == x {
      assert Links(s, [x]) && [x][0] == x;
    } else if path[0] == s.root {
      assert Chain(s, [s.root]) && [s.root][0] == s.root;
    } else {
      TailOfChain(t, path);
      ChainMeets(s, t, x, path[1..]);
      if up :| Chain(s, up) && up[0] == path[1] && x !in up {
        PrependLink(s, path[0], up);
        assert Chain(s, [path[0]] + up) && ([path[0]] + up)[0] == path[0];
      }
      if up :| Links(s, up) && up[0] == path[1] && up[|up| - 1] == x {
        PrependLink(s, path[0], up);
        assert ([path[0]] + up)[0] == path[0];
      }
    }
  }

  /** Links up to x and a chain from x make a chain; both may be told in either store. */
  lemma {:induction false} LinksContinue(s: Store, t: Store, x: PublicKey, path: seq<PublicKey>, up: seq<PublicKey>)
    requires SameButFor(s, t, x) && Links(s, path) && path[|path| - 1] == x && Chain(t, up) && up[0] == x
    ensures exists whole :: Chain(t, whole) && whole[0] == path[0]
    decreases |path|
  {
    if path[0] != x {
      TailLinks(s, path);
      LinksContinue(s, t, x, path[1..], up);
      var whole :| Chain(t, whole) && whole[0] == path[1];
      PrependLink(t, path[0], whole);
      assert Chain(t, [path[0]] + whole) && ([path[0]] + whole)[0] == path[0];
    }
  }

  lemma ChainCarriesOver(s: Store, t: Store, x: PublicKey, path: seq<PublicKey>)
    requires SameButFor(s, t, x) && Chain(s, path) && x !in path
    ensures Chain(t, path)
  {
  }

  /** x has a chain in t exactly when its admitter there has one without x. */
  lemma ChainFromSubject(s: Store, t: Store, x: PublicKey)
    requires SameButFor(s, t, x) && x != s.root && x in t.admissions
    ensures (exists up :: Chain(t, up) && up[0] == x) <==> ReachesWithout(s, t.admissions[x].admitter, x)
  {
    if up :| Chain(t, up) && up[0] == x {
      var short := ChainWithoutRepeats(t, up);
      TailOfChain(t, short);
      assert short[0] !in short[1..];
      ChainCarriesOver(t, s, x, short[1..]);
      assert short[1..][0] == t.admissions[x].admitter;
    }
    if path :| Chain(s, path) && path[0] == t.admissions[x].admitter && x !in path {
      ChainCarriesOver(s, t, x, path);
      PrependLink(t, x, path);
      assert Chain(t, [x] + path) && ([x] + path)[0] == x;
    }
  }

  /**
   With nothing revoked, what any admission that is kept does to anyone's membership,
   whatever its subject has signed before: a member has a chain without the subject, or is
   linked to the subject when the new admitter has one.
  */
  lemma ReadmissionEffect(verify: Verifier, s: Store, a: Admission, id: PublicKey)
    requires s.revocations == map[] && a.identity != s.root
    requires AdmissionError(verify, s.root, a).None? && KeepsAdmission(s, a)
    ensures Member(WithAdmission(verify, s, a), id) <==>
      ReachesWithout(s, id, a.identity) || (Reaches(s, id, a.identity) && ReachesWithout(s, a.admitter, a.identity))
  {
    var t, x := WithAdmission(verify, s, a), a.identity;
    WithoutRevocationsMembershipIsReachability(t, id);
    ChainFromSubject(s, t, x);
    if path :| Chain(t, path) && path[0] == id {
      ChainMeets(s, t, x, path);
    }
    if path :| Chain(s, path) && path[0] == id && x !in path {
      ChainCarriesOver(s, t, x, path);
    }
    if path :| Links(s, path) && path[0] == id && path[|path| - 1] == x && ReachesWithout(s, a.admitter, x) {
      var up :| Chain(t, up) && up[0] == x;
      LinksContinue(s, t, x, path, up);
    }
  }

  /**
   A newer admission of a member takes membership from nobody exactly when its admitter
   has a chain to the root that does not pass through the member admitted again.
  */
  lemma ReadmissionKeepsMembersIff(verify: Verifier, s: Store, a: Admission)
    requires s.revocations == map[] && a.identity != s.root && Member(s, a.identity)
    requires AdmissionError(verify, s.root, a).None? && KeepsAdmission(s, a)
    ensures (forall id :: Member(s, id) ==> Member(WithAdmission(verify, s, a), id)) <==>
      ReachesWithout(s, a.admitter, a.identity)
  {
    var x := a.identity;
    assert !ReachesWithout(s, x, x);
    ReadmissionEffect(verify, s, a, x);
    forall id | Member(s, id) && ReachesWithout(s, a.admitter, x) ensures Member(WithAdmission(verify, s, a), id) {
      ReadmissionEffect(verify, s, a, id);
      WithoutRevocationsMembershipIsReachability(s, id);
      var path :| Chain(s, path) && path[0] == id;
      ChainMeets(s, s, x, path);
    }
  }

  /**
   So a newer admission replaces the old one whoever signed it: when y, whom x admitted,
   admits x again, neither has a chain to the root any more and both stop being members.
  */
  lemma ReadmissionByOwnAdmittee(verify: Verifier, s: Store, x: PublicKey, y: PublicKey, a: Admission)
    requires x != y && x != s.root && y != s.root && s.revocations == map[]
    requires Member(s, x) && y in s.admissions && s.admissions[y].admitter == x
    requires a.identity == x && a.admitter == y && AdmissionError(verify, s.root, a).None? && KeepsAdmission(s, a)
    ensures Member(s, y)
    ensures !Member(WithAdmission(verify, s, a), x) && !Member(WithAdmission(verify, s, a), y)
  {
    WithoutRevocationsMembershipIsReachability(s, x);
    WithoutRevocationsMembershipIsReachability(s, y);
    var path :| Chain(s, path) && path[0] == x;
    PrependLink(s, y, path);
    assert Chain(s, [y] + path) && ([y] + path)[0] == y;
    ReadmissionEffect(verify, s, a, x);
    ReadmissionEffect(verify, s, a, y);
    forall up | Chain(s, up) && up[0] == y ensures x in up {
      TailOfChain(s, up);
    }
  }

  // --- admitting again where some are revoked ---

  /** A chain for x's admitter, signing at that time, that avoids x and stands. */
  ghost predicate Backs(s: Store, x: PublicKey, admitter: PublicKey, at: int64, path: seq<PublicKey>) {
    Chain(s, path) && path[0] == admitter && x !in path && NoRepeats(path) && Unrevoked(s, path, at)
  }

  /** No open question is about anybody on the chain. */
  ghost predicate Clear(v: set<Question>, path: seq<PublicKey>) {
    forall q :: q in v ==> q.id !in path
  }

  lemma {:induction false} SuffixStands(s: Store, path: seq<PublicKey>, id: PublicKey, signed: int64, at: int64,
      v: set<Question>)
    requires Chain(s, path) && NoRepeats(path) && Unrevoked(s, path, signed) && Clear(v, path)
    requires id in path && id != s.root
    ensures MemberAt(s, id, at, v)
    decreases |path|
  {
    if path[0] == id {
      assert AskedRootAt(s, path, at) == AskedRootAt(s, path, signed) by { TailOfChain(s, path); }
      UnrevokedChainStands(s, path, at, v);
    } else {
      assert path[|path| - 1] == s.root;
      assert path[0] != s.root;
      var up := path[1..];
      TailIsUnrevoked(s, path, signed);
      SuffixStands(s, up, id, s.admissions[path[0]].issuedAt, at, v);
    }
  }

  lemma ChainCarriesOverWhole(s: Store, t: Store, x: PublicKey, admitter: PublicKey, at: int64, path: seq<PublicKey>)
    requires SameButFor(s, t, x) && s.revocations == t.revocations && Backs(s, x, admitter, at, path)
    ensures Backs(t, x, admitter, at, path)
  {
    ChainCarriesOver(s, t, x, path);
    assert |path| >= 2 ==> path[|path| - 2] in path;
  }

  /** The two stores differ in who admitted x and when, and both admitters have chains that stand without x. */
  ghost predicate BothBack(s: Store, t: Store, x: PublicKey, before: seq<PublicKey>, after: seq<PublicKey>) {
    && SameButFor(s, t, x) && s.revocations == t.revocations
    && x != s.root && x !in s.revocations && x in s.admissions && x in t.admissions
    && Backs(s, x, s.admissions[x].admitter, s.admissions[x].issuedAt, before)
    && Backs(s, x, t.admissions[x].admitter, t.admissions[x].issuedAt, after)
  }

  /** Wherever the walk comes, it finds the same in both. */
  lemma {:induction false} BackedAlike(s: Store, t: Store, x: PublicKey, before: seq<PublicKey>, after: seq<PublicKey>,
      id: PublicKey, at: int64, v: set<Question>)
    requires BothBack(s, t, x, before, after) && Clear(v, before + after)
    ensures MemberAt(s, id, at, v) == MemberAt(t, id, at, v)
    decreases Questions(s) - v, Rank(s, Question(id, at))
  {
    var q, rev := Question(id, at), RevocationBy(s, id, at);
    RecordsRaiseQuestions(s, id);
    if id == s.root {
      if rev.Some? && rev.value.revoker != id {
        BackedAlike(s, t, x, before, after, rev.value.revoker, rev.value.issuedAt, v);
      }
    } else if id in before + after {
      ChainMembersStand(s, t, x, before, after, id, at, v);
    } else if q !in v {
      AskingUsesUp(s, q, v);
      if id == x {
        SubjectStands(s, t, x, before, after, at, v);
      } else {
        if rev.Some? && rev.value.revoker != id {
          BackedAlike(s, t, x, before, after, rev.value.revoker, rev.value.issuedAt, v + {q});
        }
        if id in s.admissions && s.admissions[id].admitter != id {
          BackedAlike(s, t, x, before, after, s.admissions[id].admitter, s.admissions[id].issuedAt, v + {q});
        }
      }
    }
  }

  lemma ChainMembersStand(s: Store, t: Store, x: PublicKey, before: seq<PublicKey>, after: seq<PublicKey>,
      id: PublicKey, at: int64, v: set<Question>)
    requires BothBack(s, t, x, before, after) && Clear(v, before + after) && id in before + after && id != s.root
    ensures MemberAt(s, id, at, v) && MemberAt(t, id, at, v)
  {
    var a, b := s.admissions[x], t.admissions[x];
    ChainCarriesOverWhole(s, t, x, a.admitter, a.issuedAt, before);
    ChainCarriesOverWhole(s, t, x, b.admitter, b.issuedAt, after);
    assert forall p :: p in before + after <==> p in before || p in after;
    if id in before {
      SuffixStands(s, before, id, a.issuedAt, at, v);
      SuffixStands(t, before, id, a.issuedAt, at, v);
    } else {
      SuffixStands(s, after, id, b.issuedAt, at, v);
      SuffixStands(t, after, id, b.issuedAt, at, v);
    }
  }

  lemma SubjectStands(s: Store, t: Store, x: PublicKey, before: seq<PublicKey>, after: seq<PublicKey>, at: int64,
      v: set<Question>)
    requires BothBack(s, t, x, before, after) && Clear(v, before + after) && Question(x, at) !in v
    ensures MemberAt(s, x, at, v) && MemberAt(t, x, at, v)
  {
    var a, b, open := s.admissions[x], t.admissions[x], v + {Question(x, at)};
    assert forall p :: p in before + after <==> p in before || p in after;
    ChainCarriesOverWhole(s, t, x, b.admitter, b.issuedAt, after);
    UnrevokedChainStands(s, before, a.issuedAt, open);
    UnrevokedChainStands(t, after, b.issuedAt, open);
    assert before[0] in before && after[0] in after;
  }

  /**
   Whatever revocations there are, of others: if x is not revoked and its old admitter and
   its new one each have an unrevoked chain without x, a newer admission of x changes
   nobody's membership, neither x's nor that of anyone it admitted or revoked.
  */
  lemma ReadmissionDisturbsNobody(verify: Verifier, s: Store, a: Admission, before: seq<PublicKey>,
      after: seq<PublicKey>, id: PublicKey)
    requires AdmissionError(verify, s.root, a).None? && KeepsAdmission(s, a)
    requires a.identity != s.root && a.identity !in s.revocations && a.identity in s.admissions
    requires Backs(s, a.identity, s.admissions[a.identity].admitter, s.admissions[a.identity].issuedAt, before)
    requires Backs(s, a.identity, a.admitter, a.issuedAt, after)
    ensures Member(WithAdmission(verify, s, a), id) <==> Member(s, id)
  {
    BackedAlike(s, WithAdmission(verify, s, a), a.identity, before, after, id, MAX_INT64, {});
  }
}
