/**
 The lock-free cache in front of Set.Valid (internal/trust/set.go:43-84, 122-136), as
 atomic steps of any number of threads. A step is one access to shared memory: loading
 the cache pointer, a lookup in the map it led to, taking or releasing the lock, the walk
 under the read lock, storing an answer, changing a record, swapping the pointer.
*/
module TrustCache {
  import opened Basics
  import opened TrustRecords
  import opened TrustStore
  import opened TrustConvergence

  /** What a thread that has nothing to do may call. */
  datatype Call = CallValid(id: PublicKey) | CallAdd(rec: Record)

  /**
   Where a thread is. `gen` is the index of the cache map it loaded. The rest is
   bookkeeping for the theorem: `since` and `until` are the versions of the records
   current when the call began and returned, `seen` the version its answer rests on.
  */
  datatype Thread =
    | Idle
    | Called(id: PublicKey, since: nat)
    | Loaded(id: PublicKey, since: nat, gen: nat)
    | Missed(id: PublicKey, since: nat, gen: nat)
    | Reading(id: PublicKey, since: nat, gen: nat)
    | Decided(id: PublicKey, since: nat, gen: nat, answer: bool, seen: nat)
    | Unlocked(id: PublicKey, since: nat, gen: nat, answer: bool, seen: nat)
    | Answered(id: PublicKey, since: nat, answer: bool, seen: nat, until: nat)
    | Adding(rec: Record, since: nat)
    | Writing(rec: Record, since: nat)
    | Changed(rec: Record, since: nat)
    | Forgot(rec: Record, since: nat, changed: bool, seen: nat)
    | Added(rec: Record, since: nat, changed: bool, seen: nat, until: nat)

  /**
   store holds the maps as they are in memory; caches, every map the pointer has led to,
   the last being the current one, with the version behind each answer stored; history,
   the record sets in force so far, each from the swap of the pointer that announced it.
  */
  datatype State = State(
    store: Store,
    caches: seq<map<PublicKey, nat>>,
    history: seq<Store>,
    writer: Option<nat>,
    readers: set<nat>,
    threads: map<nat, Thread>)

  function Initial(s: Store): State {
    State(s, [map[]], [s], None, {}, map[])
  }

  function At(st: State, t: nat): Thread {
    if t in st.threads then st.threads[t] else Idle
  }

  function Move(st: State, t: nat, to: Thread): State {
    st.(threads := st.threads[t := to])
  }

  /** The version of the records in force. */
  function Now(st: State): nat
    requires st.history != []
  {
    |st.history| - 1
  }

  function Remember(entries: map<PublicKey, nat>, id: PublicKey, seen: nat): map<PublicKey, nat> {
    entries[id := seen]
  }

  /**
   One step of thread t; a thread waiting for the lock stays where it is, and one whose
   record fails validation never takes it.
  */
  function Step(verify: Verifier, st: State, t: nat, call: Call): State
    requires Shape(st)
  {
    var now := Now(st);
    match At(st, t)
    case Idle =>
      Move(st, t, match call case CallValid(id) => Called(id, now) case CallAdd(rec) => Adding(rec, now))
    case Called(id, since) =>
      Move(st, t, Loaded(id, since, |st.caches| - 1))
    case Loaded(id, since, m) =>
      if m < |st.caches| && id in st.caches[m] then Move(st, t, Answered(id, since, true, st.caches[m][id], now))
      else Move(st, t, Missed(id, since, m))
    case Missed(id, since, m) =>
      if st.writer.Some? then st
      else Move(st, t, Reading(id, since, m)).(readers := st.readers + {t})
    case Reading(id, since, m) =>
      Move(st, t, Decided(id, since, m, Member(st.store, id), now))
    case Decided(id, since, m, answer, seen) =>
      Move(st, t, Unlocked(id, since, m, answer, seen)).(readers := st.readers - {t})
    case Unlocked(id, since, m, answer, seen) =>
      var next := Move(st, t, Answered(id, since, answer, seen, now));
      if answer && m < |st.caches| then next.(caches := st.caches[m := Remember(st.caches[m], id, seen)]) else next
    case Answered(_, _, _, _, _) => Move(st, t, Idle)
    case Adding(rec, since) =>
      if !Acceptable(verify, st.history[now].root, rec) then Move(st, t, Added(rec, since, false, now, now))
      else if st.writer.Some? || st.readers != {} then st
      else Move(st, t, Writing(rec, since)).(writer := Some(t))
    case Writing(rec, since) =>
      if WithRecord(verify, st.store, rec) == st.store then Move(st, t, Forgot(rec, since, false, now))
      else Move(st, t, Changed(rec, since)).(store := WithRecord(verify, st.store, rec))
    case Changed(rec, since) =>
      Move(st, t, Forgot(rec, since, true, now)).(caches := st.caches + [map[]], history := st.history + [st.store])
    case Forgot(rec, since, changed, seen) =>
      Move(st, t, Added(rec, since, changed, seen, now)).(writer := None)
    case Added(_, _, _, _, _) => Move(st, t, Idle)
  }

  predicate Shape(st: State) {
    |st.caches| == |st.history| > 0
  }

  /** The answer was right for the version it rests on. */
  predicate RightAt(st: State, id: PublicKey, answer: bool, seen: nat) {
    seen < |st.history| && answer == Member(st.history[seen], id)
  }

  /** The addition took effect, or had none, at the version it rests on. */
  predicate TookEffect(verify: Verifier, st: State, rec: Record, changed: bool, seen: nat) {
    && seen < |st.history|
    && var after := WithRecord(verify, st.history[seen], rec);
       if changed then seen + 1 < |st.history| && st.history[seen + 1] == after && after != st.history[seen]
       else after == st.history[seen]
  }

  predicate ThreadOk(verify: Verifier, st: State, t: nat)
    requires Shape(st)
  {
    var now := Now(st);
    && (t in st.readers <==> At(st, t).Reading? || At(st, t).Decided?)
    && (st.writer == Some(t) <==> At(st, t).Writing? || At(st, t).Changed? || At(st, t).Forgot?)
    && match At(st, t)
       case Idle => true
       case Called(_, since) => since <= now
       case Loaded(_, since, m) => since <= m <= now
       case Missed(_, since, m) => since <= m <= now
       case Reading(_, since, m) => since <= m <= now
       case Decided(id, since, m, answer, seen) => since <= m <= seen && RightAt(st, id, answer, seen)
       case Unlocked(id, since, m, answer, seen) => since <= m <= seen && RightAt(st, id, answer, seen)
       case Answered(id, since, answer, seen, until) => since <= seen <= until <= now && RightAt(st, id, answer, seen)
       case Adding(_, since) => since <= now
       case Writing(_, since) => since <= now && st.store == st.history[now]
       case Changed(rec, since) => since <= now
         && st.store == WithRecord(verify, st.history[now], rec) != st.history[now]
       case Forgot(rec, since, changed, seen) =>
         since <= seen && TookEffect(verify, st, rec, changed, seen) && st.store == st.history[now]
       case Added(rec, since, changed, seen, until) =>
         since <= seen && (if changed then seen + 1 else seen) <= until <= now
           && TookEffect(verify, st, rec, changed, seen)
  }

  ghost predicate CachesOk(st: State)
    requires Shape(st)
  {
    forall m, id :: 0 <= m < |st.caches| && id in st.caches[m] ==>
      m <= st.caches[m][id] && RightAt(st, id, true, st.caches[m][id])
  }

  ghost predicate Inv(verify: Verifier, st: State) {
    && Shape(st)
    && CachesOk(st)
    && (forall t :: ThreadOk(verify, st, t))
    && (st.writer.None? ==> st.store == st.history[Now(st)])
    && (st.writer.Some? ==> st.readers == {})
  }

  lemma InitialHolds(verify: Verifier, s: Store)
    ensures Inv(verify, Initial(s))
  {
  }

  /** Facts about versions survive as more versions are added. */
  lemma VersionsStand(verify: Verifier, st: State, next: State, t: nat)
    requires Shape(st) && Shape(next) && ThreadOk(verify, st, t)
    requires st.history <= next.history && At(next, t) == At(st, t)
    requires t in st.readers <==> t in next.readers
    requires st.writer == Some(t) <==> next.writer == Some(t)
    requires At(st, t).Writing? || At(st, t).Changed? || At(st, t).Forgot? ==>
      next.store == st.store && next.history == st.history
    ensures ThreadOk(verify, next, t)
  {
  }

  /** A step touches its own thread, and the records only under the write lock. */
  lemma StepFootprint(verify: Verifier, st: State, t: nat, call: Call, u: nat)
    requires Inv(verify, st) && u != t
    ensures var next := Step(verify, st, t, call);
      && Shape(next) && st.history <= next.history
      && At(next, u) == At(st, u)
      && (u in st.readers <==> u in next.readers)
      && (st.writer == Some(u) <==> next.writer == Some(u))
      && (st.writer == Some(u) ==> next.store == st.store && next.history == st.history)
  {
    assert ThreadOk(verify, st, t);
  }

  lemma StepKeepsOthers(verify: Verifier, st: State, t: nat, call: Call, u: nat)
    requires Inv(verify, st) && u != t
    ensures Shape(Step(verify, st, t, call)) && ThreadOk(verify, Step(verify, st, t, call), u)
  {
    assert ThreadOk(verify, st, u);
    StepFootprint(verify, st, t, call, u);
    VersionsStand(verify, st, Step(verify, st, t, call), u);
  }

  predicate InValid(th: Thread) {
    th.Called? || th.Loaded? || th.Missed? || th.Reading? || th.Decided? || th.Unlocked? || th.Answered?
  }

  lemma StepKeepsOwnReader(verify: Verifier, st: State, t: nat, call: Call)
    requires Inv(verify, st) && InValid(At(st, t))
    ensures Shape(Step(verify, st, t, call)) && ThreadOk(verify, Step(verify, st, t, call), t)
  {
    assert ThreadOk(verify, st, t);
    match At(st, t)
    case Loaded(id, since, m) =>
      if id in st.caches[m] { assert RightAt(st, id, true, st.caches[m][id]); }
    case _ =>
  }

  predicate HoldsLock(th: Thread) {
    th.Writing? || th.Changed? || th.Forgot?
  }

  lemma StepKeepsOwnWriter(verify: Verifier, st: State, t: nat, call: Call)
    requires Inv(verify, st) && HoldsLock(At(st, t))
    ensures Shape(Step(verify, st, t, call)) && ThreadOk(verify, Step(verify, st, t, call), t)
  {
    assert ThreadOk(verify, st, t);
  }

  lemma StepKeepsOwnOutside(verify: Verifier, st: State, t: nat, call: Call)
    requires Inv(verify, st) && !InValid(At(st, t)) && !HoldsLock(At(st, t))
    ensures Shape(Step(verify, st, t, call)) && ThreadOk(verify, Step(verify, st, t, call), t)
  {
    assert ThreadOk(verify, st, t);
  }

  lemma StepKeepsOwn(verify: Verifier, st: State, t: nat, call: Call)
    requires Inv(verify, st)
    ensures Shape(Step(verify, st, t, call)) && ThreadOk(verify, Step(verify, st, t, call), t)
  {
    if InValid(At(st, t)) {
      StepKeepsOwnReader(verify, st, t, call);
    } else if HoldsLock(At(st, t)) {
      StepKeepsOwnWriter(verify, st, t, call);
    } else {
      StepKeepsOwnOutside(verify, st, t, call);
    }
  }

  lemma StepKeepsThreads(verify: Verifier, st: State, t: nat, call: Call)
    requires Inv(verify, st)
    ensures Shape(Step(verify, st, t, call)) && forall u :: ThreadOk(verify, Step(verify, st, t, call), u)
  {
    StepKeepsOwn(verify, st, t, call);
    forall u | u != t ensures ThreadOk(verify, Step(verify, st, t, call), u) {
      StepKeepsOthers(verify, st, t, call, u);
    }
  }

  lemma StepKeepsCaches(verify: Verifier, st: State, t: nat, call: Call)
    requires Inv(verify, st)
    ensures Shape(Step(verify, st, t, call)) && CachesOk(Step(verify, st, t, call))
  {
    assert ThreadOk(verify, st, t);
  }

  lemma StepKeepsInv(verify: Verifier, st: State, t: nat, call: Call)
    requires Inv(verify, st)
    ensures Inv(verify, Step(verify, st, t, call))
  {
    assert ThreadOk(verify, st, t);
    StepKeepsThreads(verify, st, t, call);
    StepKeepsCaches(verify, st, t, call);
  }

  // --- every interleaving ---

  datatype Turn = Turn(thread: nat, call: Call)

  /** The state after the turns; any interleaving of any calls is a sequence of turns. */
  ghost function After(verify: Verifier, s: Store, turns: seq<Turn>): (st: State)
    ensures Inv(verify, st)
  {
    if turns == [] then InitialHolds(verify, s); Initial(s)
    else
      var before, turn := After(verify, s, turns[..|turns| - 1]), turns[|turns| - 1];
      StepKeepsInv(verify, before, turn.thread, turn.call);
      Step(verify, before, turn.thread, turn.call)
  }

  /** The states that interleavings of calls on a set that started with s can reach. */
  ghost predicate Reachable(verify: Verifier, s: Store, st: State) {
    exists turns :: st == After(verify, s, turns)
  }

  lemma ReachableIsSound(verify: Verifier, s: Store, st: State)
    requires Reachable(verify, s, st)
    ensures Inv(verify, st)
  {
  }

  /**
   In every interleaving, a call of Valid returns the walk's answer for a record set in
   force at some moment between its start and its return, and an addition takes effect,
   or finds nothing to change, at such a moment.
  */
  lemma CallsLinearise(verify: Verifier, s: Store, st: State, t: nat)
    requires Reachable(verify, s, st)
    ensures match At(st, t)
      case Answered(id, since, answer, _, until) =>
        since <= until < |st.history| && exists v :: since <= v <= until && answer == Member(st.history[v], id)
      case Added(rec, since, changed, _, until) =>
        since <= until < |st.history|
        && exists v :: since <= v <= until && TookEffect(verify, st, rec, changed, v) && (changed ==> v < until)
      case _ => true
  {
    ReachableIsSound(verify, s, st);
    assert ThreadOk(verify, st, t);
  }

  /**
   Whenever no writer holds the lock, the records in memory are the ones in force and the
   current map holds members only.
  */
  lemma CacheHoldsMembersOnly(verify: Verifier, s: Store, st: State)
    requires Reachable(verify, s, st) && st.writer.None?
    ensures Shape(st) && st.store == st.history[Now(st)]
    ensures forall id :: id in st.caches[Now(st)] ==> Member(st.store, id)
  {
    ReachableIsSound(verify, s, st);
    forall id | id in st.caches[Now(st)] ensures Member(st.store, id) {
      assert RightAt(st, id, true, st.caches[Now(st)][id]);
    }
  }

  /**
   An entry of a map that has been replaced may be stale: it proves only that the identity
   was a member at some version no older than the map. A reader that loaded the map before
   the swap and looks it up after is answered from that window.
  */
  lemma OldMapsAreBounded(verify: Verifier, s: Store, st: State, m: nat, id: PublicKey)
    requires Reachable(verify, s, st) && m < |st.caches| && id in st.caches[m]
    ensures exists v :: m <= v < |st.history| && Member(st.history[v], id)
  {
    ReachableIsSound(verify, s, st);
    assert RightAt(st, id, true, st.caches[m][id]);
  }

  // --- a call that runs alone ---

  /** The state after n steps of the thread while nobody else moves. */
  function Alone(verify: Verifier, st: State, t: nat, call: Call, n: nat): (after: State)
    requires Shape(st)
    ensures Shape(after)
    decreases n
  {
    if n == 0 then st else Alone(verify, Step(verify, st, t, call), t, call, n - 1)
  }

  /**
   The thread's call of Valid is over, with the walk's answer for the records that are and
   were in memory; the current map has the identity exactly if it had it or the answer is yes.
  */
  ghost predicate Answers(st: State, after: State, t: nat, id: PublicKey)
    requires Shape(st) && Shape(after)
  {
    && At(after, t).Answered? && At(after, t).id == id && At(after, t).answer == Member(st.store, id)
    && after.store == st.store && |after.caches| == |st.caches|
    && (id in after.caches[Now(st)] <==> Member(st.store, id) || id in st.caches[Now(st)])
  }

  lemma FromUnlocked(verify: Verifier, st: State, t: nat, call: Call)
    requires Shape(st) && At(st, t).Unlocked? && At(st, t).gen == Now(st)
      && At(st, t).answer == Member(st.store, At(st, t).id)
    ensures Answers(st, Alone(verify, st, t, call, 1), t, At(st, t).id)
  {
    var next := Step(verify, st, t, call);
    assert Alone(verify, st, t, call, 1) == Alone(verify, next, t, call, 0) == next;
  }

  lemma FromDecided(verify: Verifier, st: State, t: nat, call: Call)
    requires Shape(st) && At(st, t).Decided? && At(st, t).gen == Now(st)
      && At(st, t).answer == Member(st.store, At(st, t).id)
    ensures Answers(st, Alone(verify, st, t, call, 2), t, At(st, t).id)
  {
    FromUnlocked(verify, Step(verify, st, t, call), t, call);
  }

  lemma FromReading(verify: Verifier, st: State, t: nat, call: Call)
    requires Shape(st) && At(st, t).Reading? && At(st, t).gen == Now(st)
    ensures Answers(st, Alone(verify, st, t, call, 3), t, At(st, t).id)
  {
    FromDecided(verify, Step(verify, st, t, call), t, call);
  }

  lemma FromMissed(verify: Verifier, st: State, t: nat, call: Call)
    requires Shape(st) && At(st, t).Missed? && At(st, t).gen == Now(st) && st.writer.None?
    ensures Answers(st, Alone(verify, st, t, call, 4), t, At(st, t).id)
  {
    FromReading(verify, Step(verify, st, t, call), t, call);
  }

  lemma FromLoaded(verify: Verifier, st: State, t: nat, call: Call) returns (n: nat)
    requires Shape(st) && At(st, t).Loaded? && At(st, t).gen == Now(st) && st.writer.None?
    requires At(st, t).id in st.caches[Now(st)] ==> Member(st.store, At(st, t).id)
    ensures n <= 5 && Answers(st, Alone(verify, st, t, call, n), t, At(st, t).id)
  {
    var next := Step(verify, st, t, call);
    if At(st, t).id in st.caches[Now(st)] {
      n := 1;
      assert Alone(verify, st, t, call, 1) == Alone(verify, next, t, call, 0) == next;
    } else {
      n := 5;
      FromMissed(verify, next, t, call);
    }
  }

  lemma FromCalled(verify: Verifier, st: State, t: nat, call: Call) returns (n: nat)
    requires Shape(st) && At(st, t).Called? && st.writer.None?
    requires At(st, t).id in st.caches[Now(st)] ==> Member(st.store, At(st, t).id)
    ensures n <= 6 && Answers(st, Alone(verify, st, t, call, n), t, At(st, t).id)
  {
    n := FromLoaded(verify, Step(verify, st, t, call), t, call);
    n := n + 1;
  }

  lemma FromIdle(verify: Verifier, st: State, t: nat, id: PublicKey) returns (n: nat)
    requires Shape(st) && At(st, t) == Idle && st.writer.None?
    requires id in st.caches[Now(st)] ==> Member(st.store, id)
    ensures n <= 7 && Answers(st, Alone(verify, st, t, CallValid(id), n), t, id)
  {
    var called := Step(verify, st, t, CallValid(id));
    assert At(called, t) == Called(id, Now(st)) && called.store == st.store && called.caches == st.caches;
    n := FromCalled(verify, called, t, CallValid(id));
    n := n + 1;
  }

  lemma CurrentMapIsRight(verify: Verifier, st: State, id: PublicKey)
    requires Inv(verify, st) && st.writer.None?
    ensures Shape(st) && (id in st.caches[Now(st)] ==> Member(st.store, id))
  {
    assert id in st.caches[Now(st)] ==> RightAt(st, id, true, st.caches[Now(st)][id]);
  }

  /**
   While no writer has the lock, a call of Valid that nobody interrupts returns after at
   most seven steps, with the walk's answer for the records in memory, and leaves the
   identity in the current map exactly if that answer is yes.
  */
  lemma ValidAlone(verify: Verifier, st: State, t: nat, id: PublicKey) returns (n: nat)
    requires Inv(verify, st) && At(st, t) == Idle && st.writer.None?
    ensures n <= 7 && Answers(st, Alone(verify, st, t, CallValid(id), n), t, id)
    ensures id in st.caches[Now(st)] ==> Member(st.store, id)
  {
    CurrentMapIsRight(verify, st, id);
    n := FromIdle(verify, st, t, id);
  }

  /** The thread's addition is over: the rule of the store decides what is in memory, in force, and cached. */
  ghost predicate Stores(verify: Verifier, st: State, after: State, t: nat, rec: Record)
    requires Shape(st) && Shape(after)
  {
    var result := WithRecord(verify, st.store, rec);
    && At(after, t).Added? && At(after, t).changed == (result != st.store)
    && after.store == result == after.history[Now(after)] && after.writer.None?
    && (result != st.store ==> after.caches == st.caches + [map[]])
  }

  lemma FromWriting(verify: Verifier, st: State, t: nat, call: Call) returns (n: nat)
    requires Shape(st) && At(st, t).Writing? && st.store == st.history[Now(st)]
    ensures n <= 3 && Stores(verify, st, Alone(verify, st, t, call, n), t, At(st, t).rec)
  {
    var rec := At(st, t).rec;
    var s1 := Step(verify, st, t, call);
    var s2 := Step(verify, s1, t, call);
    if WithRecord(verify, st.store, rec) == st.store {
      n := 2;
      assert At(s1, t).Forgot? && s1.store == st.store && s1.history == st.history;
      assert Alone(verify, st, t, call, 2) == Alone(verify, s1, t, call, 1) == Alone(verify, s2, t, call, 0) == s2;
    } else {
      n := 3;
      var s3 := Step(verify, s2, t, call);
      assert At(s1, t).Changed? && s1.store == WithRecord(verify, st.store, rec) && s1.caches == st.caches;
      assert At(s2, t).Forgot? && At(s2, t).changed && s2.store == s1.store && s2.caches == st.caches + [map[]];
      assert s2.history == s1.history + [s1.store];
      assert Alone(verify, st, t, call, 3) == Alone(verify, s1, t, call, 2) == Alone(verify, s2, t, call, 1);
      assert Alone(verify, s2, t, call, 1) == Alone(verify, s3, t, call, 0) == s3;
    }
  }

  /**
   While nobody reads or writes, an addition that nobody interrupts is over after at most
   five steps: the record is in memory as the rule of the store says, that is the version
   in force, nobody has the lock, and if anything changed the current map is empty.
  */
  lemma AddAlone(verify: Verifier, st: State, t: nat, rec: Record) returns (n: nat)
    requires Inv(verify, st) && At(st, t) == Idle && st.writer.None? && st.readers == {}
    ensures n <= 5 && Stores(verify, st, Alone(verify, st, t, CallAdd(rec), n), t, rec)
  {
    var call := CallAdd(rec);
    var s1 := Step(verify, st, t, call);
    assert At(s1, t) == Adding(rec, Now(st)) && s1.store == st.store && s1.history == st.history
      && s1.caches == st.caches;
    var s2 := Step(verify, s1, t, call);
    if !Acceptable(verify, st.store.root, rec) {
      n := 2;
      assert Alone(verify, st, t, call, 2) == Alone(verify, s1, t, call, 1) == Alone(verify, s2, t, call, 0) == s2;
    } else {
      assert At(s2, t).Writing? && At(s2, t).rec == rec && s2.store == st.store && s2.caches == st.caches;
      n := FromWriting(verify, s2, t, call);
      n := n + 2;
      assert Alone(verify, st, t, call, n) == Alone(verify, s1, t, call, n - 1) == Alone(verify, s2, t, call, n - 2);
    }
  }
}
