/**
 The trust set as the object it is (internal/trust/set.go): maps and a cache of members,
 changed in place. One thread at a time; TrustCache interleaves them.
*/
module TrustSet {
  import opened Basics
  import opened TrustRecords
  import opened TrustStore
  import opened TrustConvergence
  import opened Slots

  /** The wire and file form of a set's contents. */
  datatype Records = RecordLists(admissions: seq<Admission>, revocations: seq<Revocation>)

  /** The records in the order Merge takes them. */
  function InMergeOrder(rs: Records): seq<Record> {
    seq(|rs.admissions|, i requires 0 <= i < |rs.admissions| => Admitted(rs.admissions[i])) +
    seq(|rs.revocations|, i requires 0 <= i < |rs.revocations| => Revoked(rs.revocations[i]))
  }

  /** How many of the records, merged in turn, change the store. */
  function Changes(verify: Verifier, s: Store, recs: seq<Record>): nat {
    if recs == [] then 0
    else
      var before := AddAll(verify, s, recs[..|recs| - 1]);
      Changes(verify, s, recs[..|recs| - 1]) + if WithRecord(verify, before, recs[|recs| - 1]) != before then 1 else 0
  }

  lemma OneMore(verify: Verifier, s: Store, recs: seq<Record>, i: nat)
    requires i < |recs|
    ensures var before := AddAll(verify, s, recs[..i]);
      && AddAll(verify, s, recs[..i + 1]) == WithRecord(verify, before, recs[i])
      && Changes(verify, s, recs[..i + 1]) == Changes(verify, s, recs[..i]) +
        if WithRecord(verify, before, recs[i]) != before then 1 else 0
  {
    assert recs[..i + 1][..i] == recs[..i];
  }

  /** The i-th record merged is one that changes the store. */
  predicate ChangesAt(verify: Verifier, s: Store, recs: seq<Record>, i: nat)
    requires i < |recs|
  {
    var before := AddAll(verify, s, recs[..i]);
    WithRecord(verify, before, recs[i]) != before
  }

  ghost predicate AreSteps(verify: Verifier, s: Store, recs: seq<Record>, steps: set<nat>) {
    forall i: nat :: i in steps <==> i < |recs| && ChangesAt(verify, s, recs, i)
  }

  lemma OneMoreStep(verify: Verifier, s: Store, recs: seq<Record>, steps: set<nat>)
    requires recs != [] && AreSteps(verify, s, recs[..|recs| - 1], steps)
    ensures |recs| - 1 !in steps
    ensures AreSteps(verify, s, recs, steps + if ChangesAt(verify, s, recs, |recs| - 1) then {|recs| - 1} else {})
  {
    forall i: nat | i < |recs| - 1
      ensures i in steps <==> ChangesAt(verify, s, recs, i)
    {
      assert recs[..|recs| - 1][..i] == recs[..i];
    }
  }

  /** Merge's count is that of the records that change the store, each once. */
  lemma {:induction false} ChangesAreTheSteps(verify: Verifier, s: Store, recs: seq<Record>) returns (steps: set<nat>)
    ensures AreSteps(verify, s, recs, steps) && Changes(verify, s, recs) == |steps|
  {
    steps := {};
    if recs != [] {
      steps := ChangesAreTheSteps(verify, s, recs[..|recs| - 1]);
      OneMoreStep(verify, s, recs, steps);
      steps := steps + if ChangesAt(verify, s, recs, |recs| - 1) then {|recs| - 1} else {};
    }
  }

  lemma AdmissionsThenRevocations(rs: Records)
    ensures var recs := InMergeOrder(rs);
      && |recs| == |rs.admissions| + |rs.revocations|
      && (forall i :: 0 <= i < |rs.admissions| ==> recs[i] == Admitted(rs.admissions[i]))
      && forall j :: 0 <= j < |rs.revocations| ==> recs[|rs.admissions| + j] == Revoked(rs.revocations[j])
  {
  }

  /** Merge reports no change exactly when there was none. */
  lemma {:induction false} NoChangesIff(verify: Verifier, s: Store, recs: seq<Record>)
    ensures Changes(verify, s, recs) == 0 <==> forall rec :: rec in recs ==> Absorbs(verify, s, rec)
    ensures Changes(verify, s, recs) == 0 ==> AddAll(verify, s, recs) == s
  {
    if recs != [] {
      var init, last := recs[..|recs| - 1], recs[|recs| - 1];
      assert recs == init + [last];
      NoChangesIff(verify, s, init);
      AbsorbedIff(verify, AddAll(verify, s, init), last);
    }
  }

  predicate Named(s: Store, name: Bytes, id: PublicKey) {
    id in s.admissions && Member(s, id) && s.admissions[id].name == name
  }

  /** id is the only member with the name. */
  ghost predicate OnlyNamed(s: Store, name: Bytes, id: PublicKey) {
    Named(s, name, id) && forall o :: Named(s, name, o) ==> o == id
  }

  /** The questions a walk has open: one map shared by all its calls. */
  class Visiting {
    var asked: set<Question>

    constructor ()
      ensures asked == {}
    {
      asked := {};
    }
  }

  // --- slices.SortFunc by identity, as insertion ---

  predicate SortedBy<T>(key: T -> PublicKey, s: seq<T>) {
    forall i, j :: 0 <= i < j < |s| ==> KeyLess(key(s[i]), key(s[j]))
  }

  function InsertBy<T>(key: T -> PublicKey, s: seq<T>, x: T): seq<T> {
    if s == [] || KeyLess(key(x), key(s[0])) then [x] + s else [s[0]] + InsertBy(key, s[1..], x)
  }

  lemma {:induction false} InsertBySorts<T(!new)>(key: T -> PublicKey, s: seq<T>, x: T)
    requires SortedBy(key, s) && forall y :: y in s ==> key(y) != key(x)
    ensures SortedBy(key, InsertBy(key, s, x))
    ensures forall y :: y in InsertBy(key, s, x) <==> y == x || y in s
  {
    if s != [] {
      assert s == [s[0]] + s[1..] && s[0] in s;
      KeyLessIsStrictTotalOrder(key(x), key(s[0]), key(x));
      if KeyLess(key(x), key(s[0])) {
        forall j | 0 < j < |s| ensures KeyLess(key(x), key(s[j])) {
          KeyLessIsStrictTotalOrder(key(x), key(s[0]), key(s[j]));
        }
      } else {
        InsertBySorts(key, s[1..], x);
        var rest := InsertBy(key, s[1..], x);
        forall j | 0 <= j < |rest| ensures KeyLess(key(s[0]), key(rest[j])) {
          assert rest[j] in rest;
          HeadIsLeast(key, s, x, rest[j]);
        }
      }
    }
  }

  lemma HeadIsLeast<T(!new)>(key: T -> PublicKey, s: seq<T>, x: T, y: T)
    requires SortedBy(key, s) && s != [] && key(x) != key(s[0]) && !KeyLess(key(x), key(s[0]))
    requires y == x || y in s[1..]
    ensures KeyLess(key(s[0]), key(y))
  {
    if y in s[1..] {
      var k :| 0 <= k < |s[1..]| && s[1..][k] == y;
      assert s[k + 1] == y;
    } else {
      KeyLessIsStrictTotalOrder(key(x), key(s[0]), key(x));
    }
  }

  lemma HeadsMatch<T(!new)>(key: T -> PublicKey, s: seq<T>, t: seq<T>)
    requires SortedBy(key, s) && SortedBy(key, t) && (forall x :: x in s <==> x in t) && s != []
    ensures t != [] && s[0] == t[0]
  {
    assert s[0] in t;
    assert t[0] in s;
    var i :| 0 <= i < |t| && t[i] == s[0];
    var j :| 0 <= j < |s| && s[j] == t[0];
    KeyLessIsStrictTotalOrder(key(s[0]), key(t[0]), key(s[0]));
  }

  lemma HeadIsAlone<T(!new)>(key: T -> PublicKey, s: seq<T>)
    requires SortedBy(key, s) && s != []
    ensures s[0] !in s[1..] && s == [s[0]] + s[1..]
  {
    forall j | 0 <= j < |s[1..]| ensures s[1..][j] != s[0] {
      KeyLessIsStrictTotalOrder(key(s[0]), key(s[j + 1]), key(s[0]));
    }
  }

  /** There is one sorted sequence of any elements. */
  lemma {:induction false} SortedByIsUnique<T(!new)>(key: T -> PublicKey, s: seq<T>, t: seq<T>)
    requires SortedBy(key, s) && SortedBy(key, t) && forall x :: x in s <==> x in t
    ensures s == t
  {
    assert t != [] ==> t[0] in t;
    if s != [] {
      HeadsMatch(key, s, t);
      HeadIsAlone(key, s);
      HeadIsAlone(key, t);
      forall x ensures x in s[1..] <==> x in t[1..] {
        assert x in s <==> x == s[0] || x in s[1..];
        assert x in t <==> x == t[0] || x in t[1..];
      }
      SortedByIsUnique(key, s[1..], t[1..]);
    }
  }

  function Subject(a: Admission): PublicKey {
    a.identity
  }

  function Target(r: Revocation): PublicKey {
    r.identity
  }

  /** Every stored record once, each kind in the order of identities. */
  ghost predicate IsListing(rs: Records, s: Store) {
    && Lists(InMergeOrder(rs), s)
    && SortedBy(Subject, rs.admissions) && SortedBy(Target, rs.revocations)
  }

  /** The order is deterministic: a store has one listing. */
  lemma ListingIsUnique(rs: Records, qs: Records, s: Store)
    requires IsListing(rs, s) && IsListing(qs, s)
    ensures rs == qs
  {
    MergeOrderHolds(rs);
    MergeOrderHolds(qs);
    forall a ensures a in rs.admissions <==> a in qs.admissions {
      assert Admitted(a) in InMergeOrder(rs) <==> Admitted(a) in InMergeOrder(qs);
    }
    forall r ensures r in rs.revocations <==> r in qs.revocations {
      assert Revoked(r) in InMergeOrder(rs) <==> Revoked(r) in InMergeOrder(qs);
    }
    SortedByIsUnique(Subject, rs.admissions, qs.admissions);
    SortedByIsUnique(Target, rs.revocations, qs.revocations);
  }

  lemma SortedRecordsAreListing(rs: Records, s: Store)
    requires Filed(s) && SortedBy(Subject, rs.admissions) && SortedBy(Target, rs.revocations)
    requires forall a :: a in rs.admissions <==> a.identity in s.admissions && s.admissions[a.identity] == a
    requires forall r :: r in rs.revocations <==> r.identity in s.revocations && s.revocations[r.identity] == r
    ensures IsListing(rs, s)
  {
    MergeOrderHolds(rs);
  }

  lemma {:induction false} SortedByExists<T(!new)>(key: T -> PublicKey, all: set<T>) returns (s: seq<T>)
    requires forall x, y :: x in all && y in all && key(x) == key(y) ==> x == y
    ensures SortedBy(key, s) && forall x :: x in s <==> x in all
  {
    if x :| x in all {
      var rest := SortedByExists(key, all - {x});
      InsertBySorts(key, rest, x);
      s := InsertBy(key, rest, x);
    } else {
      s := [];
    }
  }

  lemma ListingExists(s: Store)
    requires Filed(s)
    ensures exists rs :: IsListing(rs, s)
  {
    var adms := SortedByExists(Subject, set id | id in s.admissions :: s.admissions[id]);
    var revs := SortedByExists(Target, set id | id in s.revocations :: s.revocations[id]);
    SortedRecordsAreListing(RecordLists(adms, revs), s);
  }

  /** One more admission goes into the listing at its place. */
  lemma ListingGrows(s: Store, t: Store, a: Admission)
    requires Filed(s) && Filed(t) && a.identity !in s.admissions && t == s.(admissions := s.admissions[a.identity := a])
    ensures Listing(t) == RecordLists(InsertBy(Subject, Listing(s).admissions, a), Listing(s).revocations)
  {
    var l := Listing(s);
    MergeOrderHolds(l);
    forall b ensures b in l.admissions <==> b.identity in s.admissions && s.admissions[b.identity] == b {
      assert Admitted(b) in InMergeOrder(l) <==> Stored(s, Admitted(b));
    }
    forall r ensures r in l.revocations <==> r.identity in s.revocations && s.revocations[r.identity] == r {
      assert Revoked(r) in InMergeOrder(l) <==> Stored(s, Revoked(r));
    }
    InsertBySorts(Subject, l.admissions, a);
    var grown := RecordLists(InsertBy(Subject, l.admissions, a), l.revocations);
    SortedRecordsAreListing(grown, t);
    ListingIsUnique(grown, Listing(t), t);
  }

  /** What Records returns. */
  ghost function Listing(s: Store): (rs: Records)
    requires Filed(s)
    ensures IsListing(rs, s)
  {
    ListingExists(s);
    var rs :| IsListing(rs, s);
    rs
  }

  class Set {
    const verify: Verifier
    const root: PublicKey
    var admissions: map<PublicKey, Admission>
    var revocations: map<PublicKey, Revocation>
    /** The identities found valid since a record last changed. */
    var members: set<PublicKey>

    function Contents(): Store
      reads this
    {
      Store(root, admissions, revocations)
    }

    /** Only accepted records are stored, and the cache holds members only. */
    ghost predicate Sound()
      reads this
    {
      WellFormed(verify, Contents()) && forall id :: id in members ==> Member(Contents(), id)
    }

    constructor (verify: Verifier, root: PublicKey)
      ensures this.verify == verify && Sound() && Contents() == EmptyStore(root)
    {
      this.verify := verify;
      this.root := root;
      admissions, revocations, members := map[], map[], {};
    }

    method AddAdmission(a: Admission) returns (r: Result<bool, RecordError>)
      requires Sound()
      modifies this
      ensures Sound() && Contents() == WithAdmission(verify, old(Contents()), a)
      ensures r == match AdmissionError(verify, root, a) case Some(e) => Err(e)
        case None => Ok(KeepsAdmission(old(Contents()), a))
      ensures r == Ok(true) <==> Contents() != old(Contents())
      ensures r.Ok? <==>
        a.name != [] && a.host != 0 && verify(a.admitter, AdmissionBytes(a), a.signature)
        && (a.admitter == a.identity ==> a.identity == root)
    {
      var err := ValidateAdmission(verify, a);
      if err.Some? {
        return Err(err.value);
      }
      if a.admitter == a.identity && a.identity != root {
        return Err(UntrustedRoot);
      }
      AbsorbedIff(verify, Contents(), Admitted(a));
      if a.identity in admissions && admissions[a.identity].issuedAt >= a.issuedAt {
        return Ok(false);
      }
      admissions := admissions[a.identity := a];
      members := {};
      return Ok(true);
    }

    method AddRevocation(rev: Revocation) returns (r: Result<bool, RecordError>)
      requires Sound()
      modifies this
      ensures Sound() && Contents() == WithRevocation(verify, old(Contents()), rev)
      ensures r == match ValidateRevocation(verify, rev) case Some(e) => Err(e)
        case None => Ok(rev.identity !in old(revocations))
      ensures r == Ok(true) <==> Contents() != old(Contents())
      ensures r.Ok? <==> verify(rev.revoker, RevocationBytes(rev), rev.signature)
    {
      var err := ValidateRevocation(verify, rev);
      if err.Some? {
        return Err(err.value);
      }
      AbsorbedIff(verify, Contents(), Revoked(rev));
      if rev.identity in revocations {
        return Ok(false);
      }
      revocations := revocations[rev.identity := rev];
      members := {};
      return Ok(true);
    }

    /** Records that fail verification are skipped. */
    method Merge(rs: Records) returns (changed: nat)
      requires Sound()
      modifies this
      ensures Sound()
      ensures Contents() == AddAll(verify, old(Contents()), InMergeOrder(rs))
      ensures changed == Changes(verify, old(Contents()), InMergeOrder(rs))
    {
      AdmissionsThenRevocations(rs);
      changed := MergeInOrder(rs, InMergeOrder(rs));
    }

    method MergeInOrder(rs: Records, ghost recs: seq<Record>) returns (changed: nat)
      requires Sound() && |recs| == |rs.admissions| + |rs.revocations|
      requires forall i :: 0 <= i < |rs.admissions| ==> recs[i] == Admitted(rs.admissions[i])
      requires forall j :: 0 <= j < |rs.revocations| ==> recs[|rs.admissions| + j] == Revoked(rs.revocations[j])
      modifies this
      ensures Sound()
      ensures Contents() == AddAll(verify, old(Contents()), recs) && changed == Changes(verify, old(Contents()), recs)
    {
      ghost var start := Contents();
      changed := MergeAdmissions(rs.admissions, recs, start);
      changed := MergeRevocations(rs.revocations, recs, |rs.admissions|, start, changed);
    }

    /** Merge's first loop. */
    method MergeAdmissions(adms: seq<Admission>, ghost recs: seq<Record>, ghost start: Store) returns (changed: nat)
      requires Sound() && start == Contents() && |recs| >= |adms|
      requires forall i :: 0 <= i < |adms| ==> recs[i] == Admitted(adms[i])
      modifies this
      ensures Sound()
      ensures Contents() == AddAll(verify, start, recs[..|adms|]) && changed == Changes(verify, start, recs[..|adms|])
    {
      changed := 0;
      for i := 0 to |adms|
        invariant Sound() && Contents() == AddAll(verify, start, recs[..i])
          && changed == Changes(verify, start, recs[..i])
      {
        OneMore(verify, start, recs, i);
        var r := AddAdmission(adms[i]);
        if r == Ok(true) {
          changed := changed + 1;
        }
      }
    }

    /** Merge's second loop, over the records from done on. */
    method MergeRevocations(revs: seq<Revocation>, ghost recs: seq<Record>, ghost done: nat, ghost start: Store,
        before: nat) returns (changed: nat)
      requires Sound() && |recs| == done + |revs|
      requires forall j :: 0 <= j < |revs| ==> recs[done + j] == Revoked(revs[j])
      requires Contents() == AddAll(verify, start, recs[..done]) && before == Changes(verify, start, recs[..done])
      modifies this
      ensures Sound()
      ensures Contents() == AddAll(verify, start, recs) && changed == Changes(verify, start, recs)
    {
      changed := before;
      ghost var merged := recs[..done];
      for j := 0 to |revs|
        invariant merged == recs[..done + j]
        invariant Sound() && Contents() == AddAll(verify, start, merged) && changed == Changes(verify, start, merged)
      {
        OneMore(verify, start, recs, done + j);
        merged := recs[..done + j + 1];
        var r := AddRevocation(revs[j]);
        if r == Ok(true) {
          changed := changed + 1;
        }
      }
      assert merged == recs;
    }

    method Records() returns (rs: Records)
      requires Sound()
      ensures Filed(Contents()) && rs == Listing(Contents())
    {
      var adms := SortedAdmissions();
      var revs := SortedRevocations();
      rs := RecordLists(adms, revs);
      SortedRecordsAreListing(rs, Contents());
      ListingIsUnique(rs, Listing(Contents()), Contents());
    }

    method SortedAdmissions() returns (out: seq<Admission>)
      requires Sound()
      ensures SortedBy(Subject, out)
      ensures forall a :: a in out <==> a.identity in admissions && admissions[a.identity] == a
    {
      var todo := admissions.Keys;
      out := [];
      while todo != {}
        invariant todo <= admissions.Keys && SortedBy(Subject, out)
        invariant forall a :: a in out <==> a.identity in admissions.Keys - todo && admissions[a.identity] == a
      {
        var id :| id in todo;
        InsertBySorts(Subject, out, admissions[id]);
        out := InsertBy(Subject, out, admissions[id]);
        todo := todo - {id};
      }
    }

    method SortedRevocations() returns (out: seq<Revocation>)
      requires Sound()
      ensures SortedBy(Target, out)
      ensures forall r :: r in out <==> r.identity in revocations && revocations[r.identity] == r
    {
      var todo := revocations.Keys;
      out := [];
      while todo != {}
        invariant todo <= revocations.Keys && SortedBy(Target, out)
        invariant forall r :: r in out <==> r.identity in revocations.Keys - todo && revocations[r.identity] == r
      {
        var id :| id in todo;
        InsertBySorts(Target, out, revocations[id]);
        out := InsertBy(Target, out, revocations[id]);
        todo := todo - {id};
      }
    }

    method ValidAt(id: PublicKey, at: int64, visiting: Visiting) returns (valid: bool)
      modifies visiting
      ensures valid == MemberAt(Contents(), id, at, old(visiting.asked))
      ensures visiting.asked == old(visiting.asked)
      decreases Questions(Contents()) - visiting.asked, Rank(Contents(), Question(id, at))
    {
      RecordsRaiseQuestions(Contents(), id);
      if id == root {
        if id !in revocations || revocations[id].issuedAt > at {
          return true;
        }
        var rev := revocations[id];
        if rev.revoker == id {
          return false;
        }
        var revokerValid := ValidAt(rev.revoker, rev.issuedAt, visiting);
        return !revokerValid;
      }
      var q := Question(id, at);
      if q in visiting.asked {
        return false;
      }
      AskingUsesUp(Contents(), q, visiting.asked);
      ghost var open := visiting.asked;
      visiting.asked := visiting.asked + {q};
      valid := true;
      if id in revocations && revocations[id].issuedAt <= at {
        var rev := revocations[id];
        var revoked := rev.revoker == id;
        if !revoked {
          revoked := ValidAt(rev.revoker, rev.issuedAt, visiting);
        }
        if revoked {
          valid := false;
        }
      }
      if valid {
        if id !in admissions || admissions[id].admitter == id {
          valid := false;
        } else {
          valid := ValidAt(admissions[id].admitter, admissions[id].issuedAt, visiting);
        }
      }
      visiting.asked := visiting.asked - {q};
      assert visiting.asked == open;
    }

    /** valid: the walk, without the cache. */
    method Walk(id: PublicKey) returns (valid: bool)
      ensures valid == Member(Contents(), id)
    {
      var visiting := new Visiting();
      valid := ValidAt(id, MAX_INT64, visiting);
    }

    /** Valid: the cached answer is the walk's answer. */
    method Valid(id: PublicKey) returns (valid: bool)
      requires Sound()
      modifies this`members
      ensures Sound() && valid == Member(Contents(), id)
      ensures members == if valid then old(members) + {id} else old(members)
    {
      if id in members {
        return true;
      }
      valid := Walk(id);
      if valid {
        members := members + {id};
      }
    }

    method Lookup(id: PublicKey) returns (r: Option<Admission>)
      ensures r == if id in admissions then Some(admissions[id]) else None
    {
      r := if id in admissions then Some(admissions[id]) else None;
    }

    /** The one member with the name; nothing if there are several. */
    method ByName(name: Bytes) returns (r: Option<Admission>)
      ensures r.Some? <==> exists id :: OnlyNamed(Contents(), name, id)
      ensures r.Some? ==> exists id :: OnlyNamed(Contents(), name, id) && r.value == admissions[id]
    {
      var n, todo := 0, admissions.Keys;
      r := None;
      ghost var found: set<PublicKey> := {};
      while todo != {}
        invariant todo <= admissions.Keys && n == |found|
        invariant forall o :: o in found <==> o !in todo && Named(Contents(), name, o)
        invariant r.None? <==> found == {}
        invariant r.Some? ==> exists id :: id in found && admissions[id] == r.value
      {
        var id :| id in todo;
        todo := todo - {id};
        var valid := Walk(id);
        if valid && admissions[id].name == name {
          r, n := Some(admissions[id]), n + 1;
          found := found + {id};
        }
      }
      if n != 1 {
        forall id | id in found ensures exists o :: o in found && o != id {
          assert found != {id};
        }
        r := None;
      } else {
        OnlyOne(found);
        ghost var id :| id in found && admissions[id] == r.value;
        assert OnlyNamed(Contents(), name, id);
      }
    }

    /** One pass over the slots, in 64-bit arithmetic: it probes at most one slot more than are used. */
    static method FirstUnused(used: set<uint64>, limit: uint64) returns (r: Option<uint64>, probes: nat)
      ensures r == LeastUnused(used, 1, limit)
      ensures probes <= |used| + 1
    {
      var h: uint64 := 1;
      probes := 0;
      ghost var passed: set<uint64> := {};
      while h <= limit && h != 0
        invariant h == 0 ==>
          limit == TWO_TO_THE_64 - 1 && LeastUnused(used, 1, limit) == LeastUnused(used, TWO_TO_THE_64, limit)
        invariant h != 0 ==> LeastUnused(used, 1, limit) == LeastUnused(used, h, limit)
        invariant passed <= used && |passed| == probes
        invariant h != 0 ==> forall g :: g in passed ==> g < h
        decreases if h == 0 then 0 else TWO_TO_THE_64 - h
      {
        if h !in used {
          SubsetIsSmaller(passed, used);
          return Some(h), probes + 1;
        }
        passed := passed + {h};
        probes := probes + 1;
        h := (h + 1) % TWO_TO_THE_64;
      }
      SubsetIsSmaller(passed, used);
      r := None;
    }

    /** Neither pass probes more slots than there are admissions, and one. */
    method FreeHost(limit: uint64) returns (r: Option<uint64>, probes: nat)
      ensures r == FreeSlot(Contents(), limit)
      ensures probes <= 2 * (|admissions| + 1)
    {
      var taken: set<uint64>, held: set<uint64>, todo := {}, {}, admissions.Keys;
      while todo != {}
        invariant todo <= admissions.Keys
        invariant taken == set id | id in admissions.Keys - todo :: admissions[id].host
        invariant held == set id | id in admissions.Keys - todo && Member(Contents(), id) :: admissions[id].host
      {
        var id :| id in todo;
        todo := todo - {id};
        taken := taken + {admissions[id].host};
        var valid := Walk(id);
        if valid {
          held := held + {admissions[id].host};
        }
      }
      assert taken == TakenSlots(Contents()) && held == HeldSlots(Contents());
      SlotsInUseAreFew(Contents());
      r, probes := FirstUnused(taken, limit);
      if r.None? {
        var more;
        r, more := FirstUnused(held, limit);
        probes := probes + more;
      }
    }

    method HostConflict(id: PublicKey) returns (r: Option<Admission>)
      requires Sound()
      ensures r.Some? <==> Contested(Contents(), id)
      ensures r.Some? ==> r.value.identity in admissions && admissions[r.value.identity] == r.value
                          && Beats(Contents(), r.value.identity, admissions[id])
      ensures r.Some? <==>
        && id in admissions
        && exists o :: o in admissions && o != id && Member(Contents(), o)
                       && admissions[o].host == admissions[id].host
                       && (admissions[o].issuedAt < admissions[id].issuedAt
                           || (admissions[o].issuedAt == admissions[id].issuedAt && BytesLess(o.raw, id.raw)))
      ensures r.Some? ==>
        r.value.issuedAt < admissions[id].issuedAt
        || (r.value.issuedAt == admissions[id].issuedAt && BytesLess(r.value.identity.raw, id.raw))
    {
      if id !in admissions {
        return None;
      }
      LaterYields(Contents(), id);
      var mine, todo := admissions[id], admissions.Keys;
      while todo != {}
        invariant todo <= admissions.Keys
        invariant forall o :: o in admissions.Keys - todo ==> !Beats(Contents(), o, mine)
      {
        var o :| o in todo;
        todo := todo - {o};
        var a := admissions[o];
        var valid := Walk(o);
        if valid && !(a.identity == id || a.host != mine.host) {
          if a.issuedAt < mine.issuedAt || (a.issuedAt == mine.issuedAt && KeyLess(a.identity, id)) {
            assert Beats(Contents(), o, mine);
            return Some(a);
          }
        }
      }
      return None;
    }

    method NameTaken(name: Bytes, except: PublicKey) returns (taken: bool)
      requires Sound()
      ensures taken == NameInUse(Contents(), name, except)
      ensures taken <==>
        exists o :: o in admissions && o != except && Member(Contents(), o) && admissions[o].name == name
    {
      var todo := admissions.Keys;
      while todo != {}
        invariant todo <= admissions.Keys
        invariant forall o :: o in admissions.Keys - todo ==>
          !(Member(Contents(), o) && admissions[o].name == name && o != except)
      {
        var id :| id in todo;
        todo := todo - {id};
        var a := admissions[id];
        var valid := Walk(id);
        if valid && a.name == name && a.identity != except {
          return true;
        }
      }
      return false;
    }
  }

  lemma OnlyOne<T>(s: set<T>)
    requires |s| == 1
    ensures forall x, y :: x in s && y in s ==> x == y
  {
    forall x, y | x in s && y in s ensures x == y {
      if x != y {
        SubsetIsSmaller({x, y}, s);
      }
    }
  }

  lemma MergeOrderHolds(rs: Records)
    ensures forall a :: Admitted(a) in InMergeOrder(rs) <==> a in rs.admissions
    ensures forall r :: Revoked(r) in InMergeOrder(rs) <==> r in rs.revocations
  {
    var recs := InMergeOrder(rs);
    forall a | a in rs.admissions ensures Admitted(a) in recs {
      var i :| 0 <= i < |rs.admissions| && rs.admissions[i] == a;
      assert recs[i] == Admitted(a);
    }
    forall r | r in rs.revocations ensures Revoked(r) in recs {
      var i :| 0 <= i < |rs.revocations| && rs.revocations[i] == r;
      assert recs[|rs.admissions| + i] == Revoked(r);
    }
  }
}
