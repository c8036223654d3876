/**
 The table of gossip connections (internal/cluster/transport.go:326-360, 427-449) and the
 tie-break when two nodes dial each other at once, over every interleaving of the steps
 of both nodes.
*/
module Dialing {
  import opened Basics

  /** The smaller of the two identities. */
  function PreferredDialer(a: PublicKey, b: PublicKey): PublicKey {
    if KeyLess(b, a) then b else a
  }

  /** A new connection is turned away only when the preferred side dialled the current one and not the new one. */
  predicate KeepNew(cur: PublicKey, client: PublicKey, preferred: PublicKey) {
    cur != preferred || client == preferred
  }

  lemma BothSidesPreferTheSame(a: PublicKey, b: PublicKey)
    ensures PreferredDialer(a, b) == PreferredDialer(b, a)
    ensures var d := PreferredDialer(a, b); d in {a, b} && !KeyLess(a, d) && !KeyLess(b, d)
  {
    KeyLessIsStrictTotalOrder(a, b, a);
    KeyLessIsStrictTotalOrder(b, a, b);
  }

  // --- the table of one node ---

  class Conn {
    var open: bool

    constructor ()
      ensures open
    {
      open := true;
    }

    /** Closing a closed connection does nothing. */
    method Close()
      modifies this
      ensures !open
    {
      open := false;
    }
  }

  datatype PeerConn = PeerConn(conn: Conn, client: PublicKey)

  class Transport {
    const id: PublicKey
    var conns: map<Bytes, PeerConn>

    constructor (id: PublicKey)
      ensures this.id == id && conns == map[]
    {
      this.id := id;
      conns := map[];
    }

    /** The connection recorded for addr, while it is open. */
    function Live(addr: Bytes): (c: Option<Conn>)
      reads this, set a | a in conns :: conns[a].conn
    {
      if addr in conns && conns[addr].conn.open then Some(conns[addr].conn) else None
    }

    /**
     Other addresses keep their entries; of the two connections for this one exactly the one
     kept stays in the table.
    */
    method Register(addr: Bytes, conn: Conn, peer: PublicKey, client: PublicKey) returns (kept: Conn)
      requires forall a :: a in conns ==> conns[a].conn != conn
      modifies this, conn, set a | a == addr && a in conns :: conns[a].conn
      ensures forall a :: a != addr ==> (a in conns <==> a in old(conns)) && (a in conns ==> conns[a] == old(conns[a]))
      ensures addr in conns && conns[addr].conn == kept
      ensures var rival := old(Live(addr));
        if rival.Some? && !KeepNew(old(conns[addr].client), client, PreferredDialer(id, peer)) then
          conns == old(conns) && kept == rival.value && kept.open == old(kept.open) && !conn.open
        else
          kept == conn && conns[addr].client == client && conn.open == old(conn.open)
          && (addr in old(conns) ==> !old(conns[addr].conn).open)
      ensures kept != conn <==>
        && addr in old(conns) && old(conns[addr].conn.open) && PreferredDialer(id, peer) == old(conns[addr].client)
        && PreferredDialer(id, peer) != client
    {
      if addr in conns && conns[addr].conn.open {
        var cur := conns[addr];
        if !KeepNew(cur.client, client, PreferredDialer(id, peer)) {
          conn.Close();
          return cur.conn;
        }
        cur.conn.Close();
      }
      conns := conns[addr := PeerConn(conn, client)];
      return conn;
    }

    /** Only the entry that still is conn's goes; conn is closed either way. */
    method Forget(addr: Bytes, conn: Conn)
      modifies this, conn
      ensures !conn.open
      ensures conns == if addr in old(conns) && old(conns[addr].conn) == conn then old(conns) - {addr} else old(conns)
    {
      if addr in conns && conns[addr].conn == conn {
        conns := conns - {addr};
      }
      conn.Close();
    }

    method Lookup(addr: Bytes) returns (c: Option<Conn>)
      ensures c.Some? <==> addr in conns && conns[addr].conn.open
      ensures c.Some? ==> c.value == conns[addr].conn
    {
      c := None;
      if addr in conns {
        var cur := conns[addr].conn;
        if cur.open {
          c := Some(cur);
        }
      }
    }
  }

  // --- two nodes and the connections between them ---

  datatype Side = Left | Right

  function Other(x: Side): Side {
    if x == Left then Right else Left
  }

  datatype Pair = Pair(left: PublicKey, right: PublicKey)

  function IdOf(p: Pair, x: Side): PublicKey {
    if x == Left then p.left else p.right
  }

  /**
   table: the connection each side has recorded for the other; dialled: who opened each;
   registered and closed: at which sides that has happened to it.
  */
  datatype State = State(table: map<Side, nat>, dialled: map<nat, Side>, registered: set<(Side, nat)>,
      closed: set<(Side, nat)>)

  const START := State(map[], map[], {}, {})

  /**
   Dial opens a connection; Register is a side's register, called by the dialler when its
   dial returns and by the other when it accepts; Notice is the news that the other side
   has closed; Break is a failure from outside; Forget follows the end of a connection.
  */
  datatype Step =
    | Dial(x: Side, c: nat) | Register(x: Side, c: nat)
    | Notice(x: Side, c: nat) | Break(x: Side, c: nat) | Forget(x: Side, c: nat)

  /** A step that cannot happen changes nothing. */
  function Next(p: Pair, st: State, step: Step): State {
    match step
    case Dial(x, c) =>
      if c in st.dialled then st else st.(dialled := st.dialled[c := x])
    case Register(x, c) =>
      if c !in st.dialled || (x, c) in st.registered then st
      else
        var next := st.(registered := st.registered + {(x, c)});
        if x in st.table && (x, st.table[x]) !in st.closed then
          var cur := st.table[x];
          var preferred := PreferredDialer(IdOf(p, x), IdOf(p, Other(x)));
          if cur in st.dialled && !KeepNew(IdOf(p, st.dialled[cur]), IdOf(p, st.dialled[c]), preferred)
          then next.(closed := st.closed + {(x, c)})
          else next.(closed := st.closed + {(x, cur)}, table := st.table[x := c])
        else next.(table := st.table[x := c])
    case Notice(x, c) =>
      if (Other(x), c) in st.closed then st.(closed := st.closed + {(x, c)}) else st
    case Break(x, c) =>
      if c in st.dialled then st.(closed := st.closed + {(x, c)}) else st
    case Forget(x, c) =>
      if (x, c) !in st.registered || (x, c) !in st.closed then st
      else if x in st.table && st.table[x] == c then st.(table := st.table - {x}) else st
  }

  function Run(p: Pair, steps: seq<Step>): State {
    if steps == [] then START else Next(p, Run(p, steps[..|steps| - 1]), steps[|steps| - 1])
  }

  /** The preferred side dialled c. */
  predicate IsPreferred(p: Pair, st: State, c: nat)
    requires c in st.dialled
  {
    IdOf(p, st.dialled[c]) == PreferredDialer(p.left, p.right)
  }

  ghost predicate PreferredWithin(p: Pair, st: State, dials: set<nat>) {
    forall d :: d in st.dialled && IsPreferred(p, st, d) ==> d in dials
  }

  /** Nothing from outside breaks c. */
  ghost predicate Unbroken(steps: seq<Step>, c: nat) {
    forall i :: 0 <= i < |steps| && steps[i].Break? ==> steps[i].c != c
  }

  /**
   Among the connections of the run, c is the only one the preferred side dialled, and
   nothing from outside breaks it.
  */
  ghost predicate SolePreferred(p: Pair, st: State, steps: seq<Step>, c: nat) {
    PreferredWithin(p, st, {c}) && Unbroken(steps, c)
  }

  /**
   What every step keeps, whoever dialled what: a side's table holds each connection it has
   registered and not closed.
  */
  ghost predicate TableOk(st: State) {
    && (forall x :: x in st.table ==> (x, st.table[x]) in st.registered)
    && (forall x, c :: (x, c) in st.registered ==> c in st.dialled)
    && (forall x, c :: (x, c) in st.registered && (x, c) !in st.closed ==> x in st.table && st.table[x] == c)
  }

  lemma StepKeepsTable(p: Pair, st: State, step: Step)
    requires TableOk(st)
    ensures TableOk(Next(p, st, step))
  {
  }

  /** No node ever has two open connections to the other: what is registered and open is in the table. */
  lemma {:induction false} OneOpenConnection(p: Pair, steps: seq<Step>)
    ensures TableOk(Run(p, steps))
  {
    if steps != [] {
      OneOpenConnection(p, steps[..|steps| - 1]);
      StepKeepsTable(p, Run(p, steps[..|steps| - 1]), steps[|steps| - 1]);
    }
  }

  /** The identity of the side is the smaller of the two. */
  predicate IsSmaller(p: Pair, x: Side) {
    BytesLess(IdOf(p, x).raw, IdOf(p, Other(x)).raw)
  }

  /**
   After any run, a connection a side registers takes its place in the table, and is the one
   left open, unless the open one there was dialled by the smaller identity and it was not:
   so of two dials of one kind the later stands.
  */
  lemma NewConnectionStandsIff(p: Pair, steps: seq<Step>, x: Side, c: nat)
    requires p.left != p.right && c in Run(p, steps).dialled && (x, c) !in Run(p, steps).registered
    ensures var before, after := Run(p, steps), Run(p, steps + [Register(x, c)]);
      var rival := x in before.table && (x, before.table[x]) !in before.closed;
      && x in after.table && (rival ==> before.table[x] in before.dialled)
      && (after.table[x] == c <==>
            !(rival && IsSmaller(p, before.dialled[before.table[x]]) && !IsSmaller(p, before.dialled[c])))
      && after.closed == before.closed +
        if !rival then {} else if after.table[x] == c then {(x, before.table[x])} else {(x, c)}
  {
    OneOpenConnection(p, steps);
    assert (steps + [Register(x, c)])[..|steps|] == steps;
    KeyLessIsStrictTotalOrder(p.left, p.right, p.left);
  }

  lemma DialsOnlyGrow(p: Pair, st: State, step: Step)
    ensures forall d :: d in st.dialled ==>
      d in Next(p, st, step).dialled && Next(p, st, step).dialled[d] == st.dialled[d]
  {
  }

  /** The preferred connection is open at both ends and in the table wherever it is registered. */
  ghost predicate Stands(st: State, c: nat) {
    forall x :: (x, c) !in st.closed && ((x, c) in st.registered ==> x in st.table && st.table[x] == c)
  }

  lemma StepKeepsPreferred(p: Pair, st: State, step: Step, c: nat)
    requires TableOk(st) && Stands(st, c)
    requires c in Next(p, st, step).dialled && IsPreferred(p, Next(p, st, step), c)
    requires SolePreferred(p, Next(p, st, step), [step], c)
    ensures Stands(Next(p, st, step), c)
  {
    BothSidesPreferTheSame(p.left, p.right);
    assert [step][0] == step;
    DialsOnlyGrow(p, st, step);
  }

  lemma {:induction false} PreferredStands(p: Pair, steps: seq<Step>, c: nat)
    requires SolePreferred(p, Run(p, steps), steps, c)
    requires c in Run(p, steps).dialled ==> IsPreferred(p, Run(p, steps), c)
    ensures Stands(Run(p, steps), c)
  {
    if steps != [] {
      var init, step := steps[..|steps| - 1], steps[|steps| - 1];
      var st := Run(p, init);
      DialsOnlyGrow(p, st, step);
      forall i | 0 <= i < |init| ensures init[i] == steps[i] {
      }
      PreferredStands(p, init, c);
      OneOpenConnection(p, init);
      OneOpenConnection(p, steps);
      if c in Run(p, steps).dialled {
        StepKeepsPreferred(p, st, step, c);
      } else {
        NotYetDialled(p, st, step, c);
      }
    }
  }

  lemma NotYetDialled(p: Pair, st: State, step: Step, c: nat)
    requires TableOk(st) && Stands(st, c) && c !in Next(p, st, step).dialled
    ensures Stands(Next(p, st, step), c)
  {
    DialsOnlyGrow(p, st, step);
  }

  /**
   When both sides dial at once, however the steps of the two nodes interleave and however
   often the other side tries: if the side with the smaller identity dialled once, its
   connection is never closed by the tie-break or by forgetting another, each side that
   has registered it has it in its table, and has closed every other it registered.
  */
  lemma TieBreakAgrees(p: Pair, steps: seq<Step>, c: nat, x: Side)
    requires c in Run(p, steps).dialled && IsPreferred(p, Run(p, steps), c)
    requires SolePreferred(p, Run(p, steps), steps, c)
    ensures var st := Run(p, steps);
      && (x, c) !in st.closed
      && ((x, c) in st.registered ==> x in st.table && st.table[x] == c)
      && ((x, c) in st.registered ==> forall d :: d != c && (x, d) in st.registered ==> (x, d) in st.closed)
  {
    PreferredStands(p, steps, c);
    OneOpenConnection(p, steps);
  }

  /**
   Forgetting, of whatever connection and however late, removes no open one: after any run
   each connection a side has registered and not closed is still the one in its table.
  */
  lemma {:induction false} StaleForgetIsHarmless(p: Pair, steps: seq<Step>, x: Side, c: nat, d: nat)
    requires (x, d) in Run(p, steps).registered && (x, d) !in Run(p, steps).closed
    ensures var st := Run(p, steps + [Forget(x, c)]);
      (x, d) !in st.closed && x in st.table && st.table[x] == d
  {
    RunGrows(p, steps, Forget(x, c));
    OneOpenConnection(p, steps);
  }

  lemma RunGrows(p: Pair, steps: seq<Step>, step: Step)
    ensures Run(p, steps + [step]) == Next(p, Run(p, steps), step)
  {
    assert (steps + [step])[..|steps|] == steps;
  }

  /** Each side has closed the connection the other keeps. */
  predicate KeepApart(st: State) {
    && Left in st.table && Right in st.table && st.table[Left] != st.table[Right]
    && (Left, st.table[Right]) in st.closed && (Right, st.table[Left]) in st.closed
  }

  lemma DiallerRegistersTwo(p: Pair, x: Side, c: nat, d: nat) returns (steps: seq<Step>)
    requires IdOf(p, x) == PreferredDialer(p.left, p.right) && c != d
    ensures Run(p, steps) == State(map[x := d], map[c := x, d := x], {(x, c), (x, d)}, {(x, c)})
    ensures forall i :: 0 <= i < |steps| ==> !steps[i].Break?
  {
    var s1 := [] + [Dial(x, c)];
    var s2 := s1 + [Dial(x, d)];
    var s3 := s2 + [Register(x, c)];
    steps := s3 + [Register(x, d)];
    RunGrows(p, [], Dial(x, c));
    RunGrows(p, s1, Dial(x, d));
    RunGrows(p, s2, Register(x, c));
    RunGrows(p, s3, Register(x, d));
    BothSidesPreferTheSame(p.left, p.right);
    assert Run(p, s2) == State(map[], map[c := x, d := x], {}, {});
    assert Run(p, s3) == State(map[x := c], map[c := x, d := x], {(x, c)}, {});
  }

  /**
   With two connections from the preferred side the rule fails: each supersedes the other
   where it arrives last, so the two sides can close one each and be left with none.
  */
  lemma TwoPreferredDialsCanCollide(p: Pair, x: Side, c: nat, d: nat) returns (steps: seq<Step>)
    requires IdOf(p, x) == PreferredDialer(p.left, p.right) && c != d
    ensures KeepApart(Run(p, steps)) && Run(p, steps).dialled == map[c := x, d := x] && (x, c) in Run(p, steps).closed
    ensures forall i :: 0 <= i < |steps| ==> !steps[i].Break?
  {
    var o := Other(x);
    var s4 := DiallerRegistersTwo(p, x, c, d);
    var s5 := s4 + [Register(o, d)];
    steps := s5 + [Register(o, c)];
    RunGrows(p, s4, Register(o, d));
    RunGrows(p, s5, Register(o, c));
    BothSidesPreferTheSame(p.left, p.right);
    assert Run(p, s5) == State(map[x := d, o := d], map[c := x, d := x], {(x, c), (x, d), (o, d)}, {(x, c)});
  }

  /**
   Whatever the other side dials and however the steps fall, no connection the preferred
   side dialled is lost, if its dials are among these.
  */
  ghost predicate SafeWith(p: Pair, dials: set<nat>) {
    forall steps: seq<Step>, c: nat :: DialledAmong(p, steps, dials, c) ==> Stands(Run(p, steps), c)
  }

  ghost predicate DialledAmong(p: Pair, steps: seq<Step>, dials: set<nat>, c: nat) {
    && c in Run(p, steps).dialled && IsPreferred(p, Run(p, steps), c)
    && PreferredWithin(p, Run(p, steps), dials) && Unbroken(steps, c)
  }

  /** The tie-break is safe in every interleaving exactly when the preferred side dials at most once. */
  lemma TieBreakIsSafeIff(p: Pair, dials: set<nat>)
    ensures SafeWith(p, dials) <==> forall c, d :: c in dials && d in dials ==> c == d
  {
    if forall c, d :: c in dials && d in dials ==> c == d {
      forall steps: seq<Step>, c: nat | DialledAmong(p, steps, dials, c) ensures Stands(Run(p, steps), c) {
        PreferredStands(p, steps, c);
      }
    }
    if c, d :| c in dials && d in dials && c != d {
      var x := if p.left == PreferredDialer(p.left, p.right) then Left else Right;
      var steps := TwoPreferredDialsCanCollide(p, x, c, d);
      assert DialledAmong(p, steps, dials, c);
      assert !Stands(Run(p, steps), c);
    }
  }

  // --- the steps are what the table's methods do ---

  /**
   The transport of side x holds in its table for addr what the state says: name gives the
   connection object behind each number, open exactly while side x has not closed it.
  */
  ghost predicate Shows(p: Pair, st: State, x: Side, t: Transport, addr: Bytes, name: map<nat, Conn>)
    reads t, name.Values
  {
    && t.id == IdOf(p, x) && st.dialled.Keys == name.Keys
    && (forall c, d :: c in name && d in name && c != d ==> name[c] != name[d])
    && (forall c :: c in name ==> (name[c].open <==> (x, c) !in st.closed))
    && (forall a :: a in t.conns && a != addr ==> t.conns[a].conn !in name.Values)
    && (addr in t.conns <==> x in st.table)
    && (x in st.table ==>
          st.table[x] in name && t.conns[addr] == PeerConn(name[st.table[x]], IdOf(p, st.dialled[st.table[x]])))
  }

  /** Registering a connection on the table is the Register step. */
  method RegisterIsStep(t: Transport, addr: Bytes, c: nat, ghost p: Pair, ghost st: State, ghost x: Side,
      name: map<nat, Conn>, peer: PublicKey, client: PublicKey)
    requires Shows(p, st, x, t, addr, name) && TableOk(st) && c in name && (x, c) !in st.registered
    requires peer == IdOf(p, Other(x)) && client == IdOf(p, st.dialled[c])
    modifies t, name.Values
    ensures Shows(p, Next(p, st, Register(x, c)), x, t, addr, name)
  {
    ghost var next := Next(p, st, Register(x, c));
    assert name[c] in name.Values;
    assert x in st.table ==> st.table[x] != c;
    assert x in st.table ==> name[st.table[x]] in name.Values;
    var kept := t.Register(addr, name[c], peer, client);
  }

  /** Forgetting a registered connection that has ended is the Forget step. */
  method ForgetIsStep(t: Transport, addr: Bytes, c: nat, ghost p: Pair, ghost st: State, ghost x: Side,
      name: map<nat, Conn>)
    requires Shows(p, st, x, t, addr, name) && c in name && (x, c) in st.registered && (x, c) in st.closed
    modifies t, name[c]
    ensures Shows(p, Next(p, st, Forget(x, c)), x, t, addr, name)
  {
    assert name[c] in name.Values;
    t.Forget(addr, name[c]);
  }
}
