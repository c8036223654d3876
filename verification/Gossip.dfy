/**
 Any number of nodes gossiping their records (internal/cluster/cluster.go:499-565): when
 all of them end with the same set.
*/
module Gossip {
  import opened Basics
  import opened TrustRecords
  import opened TrustStore
  import opened TrustConvergence
  import opened TrustReplay

  /**
   What a node has sent: the records, and all the records these stand for. A broadcast of
   one stands for that one; a whole set stands for all that its node has heard, kept or
   replaced.
  */
  datatype Message = Message(recs: seq<Record>, covers: set<Record>)

  /** Every node's set, the records that have reached it in one way or the other, and all ever sent. */
  datatype Mesh = Mesh(stores: seq<Store>, heard: seq<set<Record>>, sent: seq<Message>)

  /**
   LocalState puts a node's whole set, listed in some order, into a message, and broadcast
   one record it holds. Receive merges a message; it may come late, again or never, and a
   push/pull is two shares and two receives.
  */
  datatype Step = Share(node: nat, recs: seq<Record>) | Broadcast(node: nat, rec: Record) | Receive(node: nat, msg: nat)

  ghost predicate CanHappen(mesh: Mesh, step: Step) {
    && |mesh.heard| == |mesh.stores| && step.node < |mesh.stores|
    && match step
       case Share(i, recs) => Lists(recs, mesh.stores[i])
       case Broadcast(i, rec) => Stored(mesh.stores[i], rec)
       case Receive(_, m) => m < |mesh.sent|
  }

  /** A step that cannot happen changes nothing. */
  ghost function Next(verify: Verifier, mesh: Mesh, step: Step): Mesh {
    if !CanHappen(mesh, step) then mesh
    else match step
      case Share(i, recs) => mesh.(sent := mesh.sent + [Message(recs, mesh.heard[i])])
      case Broadcast(_, rec) => mesh.(sent := mesh.sent + [Message([rec], {rec})])
      case Receive(j, m) =>
        mesh.(stores := mesh.stores[j := AddAll(verify, mesh.stores[j], mesh.sent[m].recs)],
              heard := mesh.heard[j := mesh.heard[j] + mesh.sent[m].covers])
  }

  /** The nodes start each knowing its own records alone. */
  ghost function Run(verify: Verifier, stores: seq<Store>, steps: seq<Step>): Mesh {
    if steps == [] then Mesh(stores, seq(|stores|, i requires 0 <= i < |stores| => RecordsOf(stores[i])), [])
    else Next(verify, Run(verify, stores, steps[..|steps| - 1]), steps[|steps| - 1])
  }

  /** Sound sets with one root. */
  ghost predicate OneCluster(verify: Verifier, stores: seq<Store>) {
    && (forall i :: 0 <= i < |stores| ==> WellFormed(verify, stores[i]))
    && (forall i, j :: 0 <= i < |stores| && 0 <= j < |stores| ==> stores[i].root == stores[j].root)
  }

  /** All the records the nodes start with. */
  ghost function Everything(stores: seq<Store>): set<Record> {
    set i, rec | 0 <= i < |stores| && rec in RecordsOf(stores[i]) :: rec
  }

  /** The records stand for the pool: none of it is newer than they are. */
  ghost predicate Covers(recs: seq<Record>, pool: set<Record>) {
    && (forall a :: Admitted(a) in pool ==>
          exists b :: Admitted(b) in recs && b.identity == a.identity && a.issuedAt <= b.issuedAt)
    && (forall r :: Revoked(r) in pool ==> exists q :: Revoked(q) in recs && q.identity == r.identity)
  }

  /** The store is what its node makes of some records that include all it has heard of. */
  ghost predicate Holds(stores: seq<Store>, s: Store, heard: set<Record>) {
    exists pool :: heard <= pool <= Everything(stores) && Summarises(pool, s)
  }

  ghost predicate NodeOk(verify: Verifier, stores: seq<Store>, mesh: Mesh, i: nat)
    requires i < |mesh.stores| && |mesh.heard| == |mesh.stores| == |stores|
  {
    mesh.stores[i].root == stores[i].root && Holds(stores, mesh.stores[i], mesh.heard[i])
  }

  ghost predicate MessageOk(stores: seq<Store>, msg: Message) {
    && (forall rec :: rec in msg.recs ==> rec in Everything(stores))
    && Covers(msg.recs, msg.covers) && msg.covers <= Everything(stores)
  }

  ghost predicate MeshOk(verify: Verifier, stores: seq<Store>, mesh: Mesh) {
    && |mesh.heard| == |mesh.stores| == |stores|
    && (forall i :: 0 <= i < |stores| ==> NodeOk(verify, stores, mesh, i))
    && (forall m :: 0 <= m < |mesh.sent| ==> MessageOk(stores, mesh.sent[m]))
  }

  /** Everything there is would be accepted by any of the nodes. */
  lemma EverythingIsAcceptable(verify: Verifier, stores: seq<Store>, i: nat)
    requires OneCluster(verify, stores) && i < |stores|
    ensures forall rec :: rec in Everything(stores) ==> Acceptable(verify, stores[i].root, rec)
  {
    forall rec | rec in Everything(stores) ensures Acceptable(verify, stores[i].root, rec) {
      var j :| 0 <= j < |stores| && rec in RecordsOf(stores[j]);
      RecordsOfAreStored(stores[j]);
    }
  }

  lemma StartIsOk(verify: Verifier, stores: seq<Store>)
    requires OneCluster(verify, stores)
    ensures MeshOk(verify, stores, Run(verify, stores, []))
  {
    var mesh := Run(verify, stores, []);
    forall i | 0 <= i < |stores| ensures NodeOk(verify, stores, mesh, i) {
      StoreSummarisesItself(stores[i]);
      assert mesh.heard[i] <= RecordsOf(stores[i]) <= Everything(stores);
    }
  }

  /** A store's own records stand for all it summarises. */
  lemma ListingCovers(pool: set<Record>, more: set<Record>, s: Store, recs: seq<Record>)
    requires Summarises(pool, s) && more <= pool && Lists(recs, s)
    ensures Covers(recs, more)
  {
    forall a | Admitted(a) in more
      ensures exists b :: Admitted(b) in recs && b.identity == a.identity && a.issuedAt <= b.issuedAt
    {
      assert Admitted(a) in pool;
      assert Stored(s, Admitted(s.admissions[a.identity]));
    }
    forall r | Revoked(r) in more ensures exists q :: Revoked(q) in recs && q.identity == r.identity {
      assert Revoked(r) in pool;
      assert Stored(s, Revoked(s.revocations[r.identity]));
    }
  }

  lemma StoredIsInPool(pool: set<Record>, s: Store, rec: Record)
    requires Summarises(pool, s) && Stored(s, rec)
    ensures rec in pool
  {
  }

  lemma ShareIsOk(stores: seq<Store>, s: Store, heard: set<Record>, recs: seq<Record>)
    requires Holds(stores, s, heard) && Lists(recs, s)
    ensures MessageOk(stores, Message(recs, heard))
  {
    var pool :| heard <= pool <= Everything(stores) && Summarises(pool, s);
    ListingCovers(pool, heard, s, recs);
    forall rec | rec in recs ensures rec in Everything(stores) {
      StoredIsInPool(pool, s, rec);
    }
  }

  lemma BroadcastIsOk(stores: seq<Store>, s: Store, heard: set<Record>, rec: Record)
    requires Holds(stores, s, heard) && Stored(s, rec)
    ensures MessageOk(stores, Message([rec], {rec}))
  {
    var pool :| heard <= pool <= Everything(stores) && Summarises(pool, s);
    StoredIsInPool(pool, s, rec);
    assert rec in [rec];
  }

  /** A summary of records that stand for a pool is a summary of the pool besides. */
  lemma CoveredIsSummarised(recs: seq<Record>, pool: set<Record>, more: set<Record>, s: Store)
    requires Summarises(pool, s) && Covers(recs, more) && forall rec :: rec in recs ==> rec in pool
    ensures Summarises(pool + more, s)
  {
  }

  lemma ReceiveIsOk(verify: Verifier, stores: seq<Store>, s: Store, heard: set<Record>, msg: Message)
    requires Holds(stores, s, heard) && MessageOk(stores, msg)
    requires forall rec :: rec in Everything(stores) ==> Acceptable(verify, s.root, rec)
    ensures Holds(stores, AddAll(verify, s, msg.recs), heard + msg.covers)
  {
    var pool :| heard <= pool <= Everything(stores) && Summarises(pool, s);
    MergeSummarises(verify, pool, s, msg.recs);
    var accepted := Accepted(verify, s.root, msg.recs);
    assert forall rec :: rec in msg.recs ==> rec in pool + accepted;
    CoveredIsSummarised(msg.recs, pool + accepted, msg.covers, AddAll(verify, s, msg.recs));
    var all := pool + accepted + msg.covers;
    assert heard + msg.covers <= all <= Everything(stores);
  }

  lemma StepKeepsOk(verify: Verifier, stores: seq<Store>, mesh: Mesh, step: Step)
    requires OneCluster(verify, stores) && MeshOk(verify, stores, mesh) && CanHappen(mesh, step)
    ensures MeshOk(verify, stores, Next(verify, mesh, step))
  {
    var next, i := Next(verify, mesh, step), step.node;
    assert NodeOk(verify, stores, mesh, i);
    match step {
      case Share(_, recs) => ShareIsOk(stores, mesh.stores[i], mesh.heard[i], recs);
      case Broadcast(_, rec) => BroadcastIsOk(stores, mesh.stores[i], mesh.heard[i], rec);
      case Receive(_, m) =>
        EverythingIsAcceptable(verify, stores, i);
        ReceiveIsOk(verify, stores, mesh.stores[i], mesh.heard[i], mesh.sent[m]);
    }
    forall j | 0 <= j < |stores| ensures NodeOk(verify, stores, next, j) {
      assert NodeOk(verify, stores, mesh, j);
    }
  }

  lemma {:induction false} RunsStayOk(verify: Verifier, stores: seq<Store>, steps: seq<Step>)
    requires OneCluster(verify, stores)
    ensures MeshOk(verify, stores, Run(verify, stores, steps))
  {
    if steps == [] {
      StartIsOk(verify, stores);
    } else {
      var before := Run(verify, stores, steps[..|steps| - 1]);
      RunsStayOk(verify, stores, steps[..|steps| - 1]);
      if CanHappen(before, steps[|steps| - 1]) {
        StepKeepsOk(verify, stores, before, steps[|steps| - 1]);
      }
    }
  }

  lemma StepKeepsUnopposed(verify: Verifier, stores: seq<Store>, mesh: Mesh, step: Step, i: nat, x: Record)
    requires MeshOk(verify, stores, mesh) && i < |stores| && Stored(mesh.stores[i], x)
    requires forall z :: z in Everything(stores) ==> !Newer(z, x)
    ensures |Next(verify, mesh, step).stores| == |stores| && Stored(Next(verify, mesh, step).stores[i], x)
  {
    if CanHappen(mesh, step) && step.Receive? && step.node == i {
      assert MessageOk(stores, mesh.sent[step.msg]);
      KeptThroughMerge(verify, mesh.stores[i], mesh.sent[step.msg].recs, x);
    }
  }

  /** A record nothing newer stands against is never given up by the node that started with it. */
  lemma {:induction false} UnopposedStays(verify: Verifier, stores: seq<Store>, steps: seq<Step>, i: nat, x: Record)
    requires OneCluster(verify, stores) && i < |stores| && Stored(stores[i], x)
    requires forall z :: z in Everything(stores) ==> !Newer(z, x)
    ensures |Run(verify, stores, steps).stores| == |stores| && Stored(Run(verify, stores, steps).stores[i], x)
  {
    if steps != [] {
      UnopposedStays(verify, stores, steps[..|steps| - 1], i, x);
      RunsStayOk(verify, stores, steps[..|steps| - 1]);
      StepKeepsUnopposed(verify, stores, Run(verify, stores, steps[..|steps| - 1]), steps[|steps| - 1], i, x);
    }
  }

  /** Every record anyone started with has reached everyone. */
  ghost predicate AllHeard(stores: seq<Store>, mesh: Mesh) {
    |mesh.heard| == |mesh.stores| && forall i :: 0 <= i < |mesh.heard| ==> Everything(stores) <= mesh.heard[i]
  }

  ghost predicate AllEqual(mesh: Mesh) {
    forall i, j :: 0 <= i < |mesh.stores| && 0 <= j < |mesh.stores| ==> mesh.stores[i] == mesh.stores[j]
  }

  lemma HeardAllHoldsEverything(verify: Verifier, stores: seq<Store>, mesh: Mesh, i: nat)
    requires MeshOk(verify, stores, mesh) && AllHeard(stores, mesh) && i < |stores|
    ensures Summarises(Everything(stores), mesh.stores[i])
  {
    assert NodeOk(verify, stores, mesh, i);
    var pool :| mesh.heard[i] <= pool <= Everything(stores) && Summarises(pool, mesh.stores[i]);
    assert pool == Everything(stores);
  }

  /**
   However many nodes share, broadcast and receive, with loss, delay, repetition and
   reordering: once every record anyone started with has reached everyone, in a broadcast or
   in somebody's whole set, all sets are equal exactly when something newer among those
   records stands against any rivals.
   Different revocations of one identity therefore part the mesh for good.
  */
  lemma MeshConvergesIff(verify: Verifier, stores: seq<Store>, steps: seq<Step>)
    requires OneCluster(verify, stores) && AllHeard(stores, Run(verify, stores, steps))
    ensures AllEqual(Run(verify, stores, steps)) <==> Settled(Everything(stores))
  {
    var last := Run(verify, stores, steps);
    RunsStayOk(verify, stores, steps);
    if Settled(Everything(stores)) {
      forall i, j | 0 <= i < |stores| && 0 <= j < |stores| ensures last.stores[i] == last.stores[j] {
        HeardAllHoldsEverything(verify, stores, last, i);
        HeardAllHoldsEverything(verify, stores, last, j);
        assert NodeOk(verify, stores, last, i) && NodeOk(verify, stores, last, j);
        SummaryIsUnique(Everything(stores), last.stores[i], last.stores[j]);
      }
    } else {
      var x, y :| x in Everything(stores) && y in Everything(stores) && Rivals(x, y)
                  && !exists z :: z in Everything(stores) && Newer(z, x);
      RivalsPartMesh(verify, stores, steps, x, y);
    }
  }

  /** Where nothing newer stands against rivals no run whatever makes all sets equal. */
  lemma RivalsPartMesh(verify: Verifier, stores: seq<Store>, steps: seq<Step>, x: Record, y: Record)
    requires OneCluster(verify, stores)
    requires x in Everything(stores) && y in Everything(stores) && Rivals(x, y)
    requires forall z :: z in Everything(stores) ==> !Newer(z, x)
    ensures !AllEqual(Run(verify, stores, steps))
  {
    var i :| 0 <= i < |stores| && x in RecordsOf(stores[i]);
    var j :| 0 <= j < |stores| && y in RecordsOf(stores[j]);
    RecordsOfAreStored(stores[i]);
    RecordsOfAreStored(stores[j]);
    assert forall z :: z in Everything(stores) && Newer(z, y) ==> Newer(z, x);
    UnopposedStays(verify, stores, steps, i, x);
    UnopposedStays(verify, stores, steps, j, y);
    RivalsExclude(Run(verify, stores, steps).stores[i], x, y);
  }

  /** In every run every set holds only what its signers signed. */
  lemma RunsStaySigned(verify: Verifier, stores: seq<Store>, steps: seq<Step>, i: nat)
    requires OneCluster(verify, stores) && i < |stores|
    ensures |Run(verify, stores, steps).stores| == |stores| && AllSigned(verify, Run(verify, stores, steps).stores[i])
  {
    var mesh := Run(verify, stores, steps);
    RunsStayOk(verify, stores, steps);
    assert NodeOk(verify, stores, mesh, i);
    var s := mesh.stores[i];
    var pool :| mesh.heard[i] <= pool <= Everything(stores) && Summarises(pool, s);
    EverythingIsAcceptable(verify, stores, i);
    forall id | id in s.admissions ensures SignedAdmission(verify, s.root, s.admissions[id]) {
      assert Acceptable(verify, s.root, Admitted(s.admissions[id]));
    }
    forall id | id in s.revocations ensures SignedRevocation(verify, s.revocations[id]) {
      assert Acceptable(verify, s.root, Revoked(s.revocations[id]));
    }
  }

  // --- everyone can hear everyone ---

  lemma RunGrows(verify: Verifier, stores: seq<Store>, steps: seq<Step>, step: Step)
    ensures Run(verify, stores, steps + [step]) == Next(verify, Run(verify, stores, steps), step)
  {
    assert (steps + [step])[..|steps|] == steps;
  }

  /** Nothing heard is forgotten from one mesh to the next. */
  ghost predicate HeardGrows(before: Mesh, after: Mesh) {
    && |before.heard| == |before.stores| == |after.heard| == |after.stores|
    && forall j :: 0 <= j < |before.heard| ==> before.heard[j] <= after.heard[j]
  }

  lemma {:induction false} FirstReceive(verify: Verifier, stores: seq<Store>, steps: seq<Step>, m: nat, n: nat)
    returns (more: seq<Step>)
    requires var mesh := Run(verify, stores, steps);
      |mesh.heard| == |mesh.stores| && m < |mesh.sent| && n <= |mesh.stores|
    ensures var mesh, after := Run(verify, stores, steps), Run(verify, stores, more);
      HeardGrows(mesh, after) && after.sent == mesh.sent && forall j :: 0 <= j < n ==>
        mesh.sent[m].covers <= after.heard[j]
  {
    more := steps;
    if n > 0 {
      more := FirstReceive(verify, stores, steps, m, n - 1);
      RunGrows(verify, stores, more, Receive(n - 1, m));
      more := more + [Receive(n - 1, m)];
    }
  }

  lemma {:induction false} FirstAreHeard(verify: Verifier, stores: seq<Store>, n: nat) returns (steps: seq<Step>)
    requires n <= |stores|
    ensures var mesh := Run(verify, stores, steps);
      && |mesh.heard| == |mesh.stores| == |stores|
      && forall i, j :: 0 <= i < |stores| && 0 <= j < |stores| && (i < n || i == j) ==>
           RecordsOf(stores[i]) <= mesh.heard[j]
  {
    steps := [];
    if n > 0 {
      steps := FirstAreHeard(verify, stores, n - 1);
      var mesh := Run(verify, stores, steps);
      var recs := SortRecords(RecordsStored(mesh.stores[n - 1]));
      RunGrows(verify, stores, steps, Share(n - 1, recs));
      steps := FirstReceive(verify, stores, steps + [Share(n - 1, recs)], |mesh.sent|, |stores|);
    }
  }

  /** What a store holds, whether or not it is filed as it should be. */
  ghost function RecordsStored(s: Store): set<Record> {
    set rec | rec in RecordsOf(s) && Stored(s, rec)
  }

  /**
   So the theorem is never about nothing: from any start there is a run after which every
   record has reached everyone.
  */
  lemma EveryoneCanHear(verify: Verifier, stores: seq<Store>) returns (steps: seq<Step>)
    ensures AllHeard(stores, Run(verify, stores, steps))
  {
    steps := FirstAreHeard(verify, stores, |stores|);
  }

  /** Nor only about whole sets: a broadcast that everyone receives has reached everyone. */
  lemma BroadcastIsHeard(verify: Verifier, stores: seq<Store>, steps: seq<Step>, i: nat, rec: Record)
    returns (more: seq<Step>)
    requires OneCluster(verify, stores) && i < |stores|
    requires |Run(verify, stores, steps).stores| == |stores| && Stored(Run(verify, stores, steps).stores[i], rec)
    ensures var mesh, next := Run(verify, stores, steps), Run(verify, stores, more);
      HeardGrows(mesh, next) && forall j :: 0 <= j < |stores| ==> rec in next.heard[j]
  {
    var mesh := Run(verify, stores, steps);
    RunsStayOk(verify, stores, steps);
    RunGrows(verify, stores, steps, Broadcast(i, rec));
    more := FirstReceive(verify, stores, steps + [Broadcast(i, rec)], |mesh.sent|, |stores|);
  }
}
