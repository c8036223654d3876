/**
 connect (internal/cluster/transport.go:451-479): concurrent callers for one address share
 one dial. Every access to the shared maps is a step of some thread.
*/
module SingleFlight {
  import opened Basics
  import D = Dialing

  type Address = Bytes

  /** The result of a dial, or of a caller that stopped waiting. */
  datatype Outcome = Connected(conn: nat) | Failed | Cancelled

  /** A dialCall: who dials, what came of it, and how often done has been closed. */
  datatype Flight = Flight(addr: Address, owner: nat, outcome: Option<Outcome>, closes: nat)

  datatype Thread =
    | Idle
    | Started(addr: Address)
    | NotFound(addr: Address)
    | Waiting(addr: Address, flight: nat)
    | InDial(addr: Address, flight: nat)
    | HasOutcome(addr: Address, flight: nat)
    | Unlisted(addr: Address, flight: nat)
    | Returned(addr: Address, outcome: Outcome, joined: Option<nat>)

  /** An entry of the connection table: a live connection, and whether this node dialled it. */
  datatype Entry = Entry(conn: nat, own: bool)

  /** table: live connections by address; dialing: the flight listed for an address; flights: all there have been. */
  datatype State = State(table: map<Address, Entry>, dialing: map<Address, nat>, flights: seq<Flight>,
      threads: map<nat, Thread>)

  const START := State(map[], map[], [], map[])

  /**
   What the scheduler and the outside world decide: a thread moves, a connection the peer
   dialled is accepted, or one is lost. keep is what register decides when the new
   connection meets another for its address; every decision of the tie-break is covered.
  */
  datatype Turn =
    | Go(thread: nat, addr: Address, outcome: Outcome, keep: bool, cancel: bool)
    | Accept(addr: Address, conn: nat, keep: bool)
    | Lose(addr: Address)

  function At(st: State, t: nat): Thread {
    if t in st.threads then st.threads[t] else Idle
  }

  function Move(st: State, t: nat, to: Thread): State {
    st.(threads := st.threads[t := to])
  }

  /** register: the new connection takes the place of the entry, or yields to it. */
  function Registered(table: map<Address, Entry>, addr: Address, e: Entry, keep: bool): (after: map<Address, Entry>)
    ensures addr in after
  {
    if addr in table && !keep then table else table[addr := e]
  }

  function Next(st: State, turn: Turn): State {
    match turn
    case Lose(addr) => st.(table := st.table - {addr})
    case Accept(addr, conn, keep) => st.(table := Registered(st.table, addr, Entry(conn, false), keep))
    case Go(t, a, outcome, keep, cancel) =>
      match At(st, t)
      case Idle => Move(st, t, Started(a))
      case Started(addr) =>
        if addr in st.table then Move(st, t, Returned(addr, Connected(st.table[addr].conn), None))
          else Move(st, t, NotFound(addr))
      case NotFound(addr) =>
        if addr in st.dialing then Move(st, t, Waiting(addr, st.dialing[addr]))
        else
          var f := |st.flights|;
          Move(st, t, InDial(addr, f)).(flights := st.flights + [Flight(addr, t, None, 0)],
            dialing := st.dialing[addr := f])
      case Waiting(addr, f) =>
        if f < |st.flights| && st.flights[f].closes > 0 && st.flights[f].outcome.Some?
        then Move(st, t, Returned(addr, st.flights[f].outcome.value, Some(f)))
        else if cancel then Move(st, t, Returned(addr, Cancelled, None)) else st
      case InDial(addr, f) =>
        if f >= |st.flights| || outcome.Cancelled? then st
        else
          var table := if outcome.Connected? then Registered(st.table, addr, Entry(outcome.conn, true), keep)
            else st.table;
          var got := if outcome.Connected? then Connected(table[addr].conn) else outcome;
          Move(st, t, HasOutcome(addr, f))
            .(table := table, flights := st.flights[f := st.flights[f].(outcome := Some(got))])
      case HasOutcome(addr, f) =>
        Move(st, t, Unlisted(addr, f)).(dialing := st.dialing - {addr})
      case Unlisted(addr, f) =>
        if f >= |st.flights| || st.flights[f].outcome.None? then st
        else
          Move(st, t, Returned(addr, st.flights[f].outcome.value, Some(f)))
            .(flights := st.flights[f := st.flights[f].(closes := st.flights[f].closes + 1)])
      case Returned(_, _, _) => Move(st, t, Idle)
  }

  function Run(turns: seq<Turn>): State {
    if turns == [] then START else Next(Run(turns[..|turns| - 1]), turns[|turns| - 1])
  }

  /** The thread is between listing the flight and closing its done channel. */
  predicate Flies(th: Thread, addr: Address, f: nat) {
    th == InDial(addr, f) || th == HasOutcome(addr, f) || th == Unlisted(addr, f)
  }

  predicate ThreadOk(st: State, t: nat) {
    match At(st, t)
    case InDial(addr, f) =>
      && f < |st.flights| && st.flights[f] == Flight(addr, t, None, 0) && addr in st.dialing && st.dialing[addr] == f
    case HasOutcome(addr, f) =>
      && f < |st.flights| && st.flights[f].(outcome := None) == Flight(addr, t, None, 0) && st.flights[f].outcome.Some?
      && addr in st.dialing && st.dialing[addr] == f
    case Unlisted(addr, f) =>
      f < |st.flights| && st.flights[f].(outcome := None) == Flight(addr, t, None, 0) && st.flights[f].outcome.Some?
    case Waiting(addr, f) => f < |st.flights| && st.flights[f].addr == addr
    case Returned(addr, outcome, Some(f)) =>
      f < |st.flights| && st.flights[f].addr == addr && st.flights[f].closes == 1
        && st.flights[f].outcome == Some(outcome)
    case _ => true
  }

  /** A flight is in the hands of its owner until done is closed, once; and only flights being flown are listed. */
  predicate FlightOk(st: State, f: nat)
    requires f < |st.flights|
  {
    var fl := st.flights[f];
    && fl.closes <= 1
    && (fl.closes == 0 ==> Flies(At(st, fl.owner), fl.addr, f))
    && (fl.closes == 1 ==> fl.outcome.Some?)
  }

  predicate ListedOk(st: State, addr: Address) {
    addr in st.dialing ==>
      var f := st.dialing[addr];
      f < |st.flights| && st.flights[f].addr == addr
      && (At(st, st.flights[f].owner) == InDial(addr, f) || At(st, st.flights[f].owner) == HasOutcome(addr, f))
  }

  ghost predicate Inv(st: State) {
    && (forall t :: ThreadOk(st, t))
    && (forall f :: 0 <= f < |st.flights| ==> FlightOk(st, f))
    && (forall addr :: ListedOk(st, addr))
  }

  lemma StepKeepsThreads(st: State, turn: Turn)
    requires Inv(st)
    ensures forall u :: ThreadOk(Next(st, turn), u)
  {
    forall u ensures ThreadOk(Next(st, turn), u) {
      assert ThreadOk(st, u);
      if turn.Go? {
        assert ThreadOk(st, turn.thread);
        StepKeepsThread(st, turn, u);
      }
    }
  }

  /** A step changes at most the flight its own thread is flying, and that is still open. */
  lemma StepTouchesOwnFlight(st: State, turn: Turn, f: nat)
    requires turn.Go? && ThreadOk(st, turn.thread) && f < |st.flights|
    ensures f < |Next(st, turn).flights|
    ensures Next(st, turn).flights[f] == st.flights[f]
      || (st.flights[f].owner == turn.thread && st.flights[f].closes == 0)
  {
  }

  lemma StepKeepsOwnThread(st: State, turn: Turn)
    requires Inv(st) && turn.Go?
    ensures ThreadOk(Next(st, turn), turn.thread)
  {
    var t := turn.thread;
    assert ThreadOk(st, t);
    if At(st, t).NotFound? { assert ListedOk(st, At(st, t).addr); }
    if At(st, t).Waiting? && At(st, t).flight < |st.flights| { assert FlightOk(st, At(st, t).flight); }
  }

  lemma StepKeepsThread(st: State, turn: Turn, u: nat)
    requires Inv(st) && turn.Go? && ThreadOk(st, u) && ThreadOk(st, turn.thread)
    ensures ThreadOk(Next(st, turn), u)
  {
    if u == turn.thread {
      StepKeepsOwnThread(st, turn);
    } else {
      assert At(Next(st, turn), u) == At(st, u);
      match At(st, u)
      case InDial(_, f) => StepTouchesOwnFlight(st, turn, f);
      case HasOutcome(_, f) => StepTouchesOwnFlight(st, turn, f);
      case Unlisted(_, f) => StepTouchesOwnFlight(st, turn, f);
      case Waiting(_, f) => StepTouchesOwnFlight(st, turn, f);
      case Returned(_, _, Some(f)) => StepTouchesOwnFlight(st, turn, f);
      case _ =>
    }
  }

  lemma StepKeepsFlights(st: State, turn: Turn)
    requires Inv(st)
    ensures forall f :: 0 <= f < |Next(st, turn).flights| ==> FlightOk(Next(st, turn), f)
  {
    var next := Next(st, turn);
    forall f | 0 <= f < |next.flights| ensures FlightOk(next, f) {
      if f < |st.flights| {
        assert FlightOk(st, f);
        if turn.Go? {
          assert ThreadOk(st, turn.thread);
          StepKeepsFlight(st, turn, f);
        }
      }
    }
  }

  lemma StepKeepsFlight(st: State, turn: Turn, f: nat)
    requires turn.Go? && ThreadOk(st, turn.thread) && f < |st.flights| && FlightOk(st, f)
    ensures f < |Next(st, turn).flights| && FlightOk(Next(st, turn), f)
  {
    StepTouchesOwnFlight(st, turn, f);
    if st.flights[f].owner != turn.thread {
      assert At(Next(st, turn), st.flights[f].owner) == At(st, st.flights[f].owner);
    }
  }

  lemma StepKeepsListed(st: State, turn: Turn)
    requires Inv(st)
    ensures forall addr :: ListedOk(Next(st, turn), addr)
  {
    forall addr ensures ListedOk(Next(st, turn), addr) {
      assert ListedOk(st, addr);
      if turn.Go? { assert ThreadOk(st, turn.thread); }
    }
  }

  lemma {:induction false} RunsKeepInv(turns: seq<Turn>)
    ensures Inv(Run(turns))
  {
    if turns != [] {
      var st, turn := Run(turns[..|turns| - 1]), turns[|turns| - 1];
      RunsKeepInv(turns[..|turns| - 1]);
      StepKeepsThreads(st, turn);
      StepKeepsFlights(st, turn);
      StepKeepsListed(st, turn);
    }
  }

  /** At most one thread dials an address at a time, and the dialing entry is there as long as it does. */
  lemma OneDialPerAddress(turns: seq<Turn>, t: nat, u: nat)
    requires At(Run(turns), t).InDial? && At(Run(turns), u).InDial?
    requires At(Run(turns), t).addr == At(Run(turns), u).addr
    ensures t == u
    ensures At(Run(turns), t).addr in Run(turns).dialing
      && Run(turns).dialing[At(Run(turns), t).addr] == At(Run(turns), t).flight
  {
    RunsKeepInv(turns);
    assert ThreadOk(Run(turns), t) && ThreadOk(Run(turns), u);
  }

  /** Whoever waits for a flight, or flew it, returns its outcome; done is closed once, after the outcome is there. */
  lemma CallersShareTheOutcome(turns: seq<Turn>, t: nat)
    ensures var st := Run(turns);
      match At(st, t)
      case Returned(addr, outcome, Some(f)) =>
        f < |st.flights| && st.flights[f].addr == addr && st.flights[f].outcome == Some(outcome)
          && st.flights[f].closes == 1
      case _ => true
    ensures forall f :: 0 <= f < |Run(turns).flights| ==> Run(turns).flights[f].closes <= 1
  {
    RunsKeepInv(turns);
    assert ThreadOk(Run(turns), t);
    forall f | 0 <= f < |Run(turns).flights| ensures Run(turns).flights[f].closes <= 1 {
      assert FlightOk(Run(turns), f);
    }
  }

  /** Nobody waits for a flight that has been abandoned: until done is closed its owner is flying it. */
  lemma WaitersAreServed(turns: seq<Turn>, t: nat)
    requires At(Run(turns), t).Waiting?
    ensures var st, f := Run(turns), At(Run(turns), t).flight;
      f < |st.flights| && (st.flights[f].closes == 1 || Flies(At(st, st.flights[f].owner), st.flights[f].addr, f))
  {
    RunsKeepInv(turns);
    assert ThreadOk(Run(turns), t);
    assert FlightOk(Run(turns), At(Run(turns), t).flight);
  }

  // --- and everyone gets somewhere ---

  lemma RunGrows(turns: seq<Turn>, turn: Turn)
    ensures Run(turns + [turn]) == Next(Run(turns), turn)
  {
    assert (turns + [turn])[..|turns|] == turns;
  }

  /** A caller that waits returns as soon as it moves once the flight it joined has landed. */
  lemma WaiterReturns(turns: seq<Turn>, turn: Turn)
    requires turn.Go? && At(Run(turns), turn.thread).Waiting?
    requires var f := At(Run(turns), turn.thread).flight; f < |Run(turns).flights| && Run(turns).flights[f].closes == 1
    ensures var f := At(Run(turns), turn.thread).flight;
      Run(turns).flights[f].outcome.Some?
      && At(Run(turns + [turn]), turn.thread)
      == Returned(At(Run(turns), turn.thread).addr, Run(turns).flights[f].outcome.value, Some(f))
  {
    RunsKeepInv(turns);
    assert FlightOk(Run(turns), At(Run(turns), turn.thread).flight);
    RunGrows(turns, turn);
  }

  /** A caller that finds no connection dials, or joins the dial under way. */
  lemma CallerJoinsOrDials(turns: seq<Turn>, turn: Turn)
    requires turn.Go? && At(Run(turns), turn.thread).NotFound?
    ensures var st, addr := Run(turns), At(Run(turns), turn.thread).addr;
      At(Run(turns + [turn]), turn.thread)
      == if addr in st.dialing then Waiting(addr, st.dialing[addr]) else InDial(addr, |st.flights|)
  {
    RunGrows(turns, turn);
  }

  /** From the outcome on the owner takes two steps: it removes the entry, then closes done and returns. */
  lemma OutcomeLands(st: State, go: Turn)
    requires go.Go? && At(st, go.thread).HasOutcome?
    requires var f := At(st, go.thread).flight; f < |st.flights| && st.flights[f].outcome.Some?
    ensures var addr, f := At(st, go.thread).addr, At(st, go.thread).flight;
      var after := Next(Next(st, go), go);
      && |after.flights| == |st.flights| && after.flights[f].closes == st.flights[f].closes + 1
      && addr !in after.dialing && after.table == st.table
      && At(after, go.thread) == Returned(addr, st.flights[f].outcome.value, Some(f))
  {
    assert At(Next(st, go), go.thread) == Unlisted(At(st, go.thread).addr, At(st, go.thread).flight);
  }

  /**
   A dial that comes back is over after three steps of its owner, in which the outcome is
   set, the entry removed and done closed: the owner returns that outcome, a connection
   exactly if one was made, and then the one in the table.
  */
  lemma FlightLands(turns: seq<Turn>, t: nat, outcome: Outcome, keep: bool, cancel: bool) returns (more: seq<Turn>)
    requires At(Run(turns), t).InDial? && !outcome.Cancelled?
    ensures var addr, f := At(Run(turns), t).addr, At(Run(turns), t).flight;
      var st := Run(more);
      && f < |st.flights| && st.flights[f].closes == 1 && addr !in st.dialing
      && At(st, t).Returned? && At(st, t).joined == Some(f) && At(st, t).addr == addr
      && (outcome.Failed? ==> At(st, t).outcome == Failed && st.table == Run(turns).table)
      && (outcome.Connected? ==> addr in st.table && At(st, t).outcome == Connected(st.table[addr].conn))
  {
    var go := Go(t, At(Run(turns), t).addr, outcome, keep, cancel);
    RunsKeepInv(turns);
    assert ThreadOk(Run(turns), t);
    var one, two := turns + [go], turns + [go] + [go];
    more := two + [go];
    RunGrows(turns, go);
    RunGrows(one, go);
    RunGrows(two, go);
    OutcomeLands(Run(one), go);
  }

  // --- the first step is the transport's lookup ---

  /** The transport's live connections are those of the state's table; name gives the object behind each number. */
  ghost predicate Shows(st: State, t: D.Transport, name: map<nat, D.Conn>)
    reads t, set a | a in t.conns :: t.conns[a].conn
  {
    forall addr ::
      && (addr in st.table <==> t.Live(addr).Some?)
      && (addr in st.table ==> st.table[addr].conn in name && t.Live(addr) == Some(name[st.table[addr].conn]))
  }

  /** A caller that has started finds what lookup finds, whatever else the turn holds. */
  method LookupIsStep(t: D.Transport, addr: Address, ghost st: State, ghost turn: Turn, ghost name: map<nat, D.Conn>)
    returns (c: Option<D.Conn>)
    requires Shows(st, t, name) && turn.Go? && At(st, turn.thread) == Started(addr)
    ensures match At(Next(st, turn), turn.thread)
      case Returned(a, Connected(k), None) => a == addr && k in name && c == Some(name[k])
      case NotFound(a) => a == addr && c.None?
      case _ => false
  {
    c := t.Lookup(addr);
    assert addr in st.table <==> t.Live(addr).Some?;
  }

  // --- dials that start over a live connection ---

  /** The thread dials an address to which the table holds a live connection this node dialled. */
  predicate DialsOver(st: State, t: nat, addr: Address) {
    At(st, t).InDial? && At(st, t).addr == addr && addr in st.table && st.table[addr].own
  }

  /** Only these threads call connect for the address. */
  ghost predicate CalledBy(turns: seq<Turn>, addr: Address, callers: set<nat>) {
    forall i :: 0 <= i < |turns| && turns[i].Go? && turns[i].addr == addr ==> turns[i].thread in callers
  }

  /** The thread has called connect for the address and not yet moved on to another call. */
  predicate On(th: Thread, addr: Address) {
    !th.Idle? && th.addr == addr
  }

  /** A caller that found no connection, or dials, is alone on the address, and no own connection has come up since. */
  ghost predicate Alone(st: State, addr: Address, callers: set<nat>) {
    && (forall t :: On(At(st, t), addr) ==> t in callers)
    && (forall t :: On(At(st, t), addr) && (At(st, t).NotFound? || At(st, t).InDial?) && addr in st.table ==>
      !st.table[addr].own)
  }

  lemma StepKeepsAlone(st: State, turn: Turn, addr: Address, callers: set<nat>)
    requires Alone(st, addr, callers) && forall t, u :: t in callers && u in callers ==> t == u
    requires turn.Go? && turn.addr == addr ==> turn.thread in callers
    ensures Alone(Next(st, turn), addr, callers)
  {
    var next := Next(st, turn);
    forall t | On(At(next, t), addr)
      ensures t in callers
      ensures (At(next, t).NotFound? || At(next, t).InDial?) && addr in next.table ==> !next.table[addr].own
    {
      if turn.Go? && turn.thread == t {
        OwnStepIsAlone(st, turn, addr);
      } else {
        OtherStepIsAlone(st, turn, addr, callers, t);
      }
    }
  }

  /** A thread that comes to look or dial sees no own connection. */
  lemma OwnStepIsAlone(st: State, turn: Turn, addr: Address)
    requires turn.Go? && On(At(Next(st, turn), turn.thread), addr)
    requires var th := At(st, turn.thread);
      On(th, addr) && (th.NotFound? || th.InDial?) && addr in st.table ==> !st.table[addr].own
    ensures var next := Next(st, turn);
      var th := At(next, turn.thread);
      (th.NotFound? || th.InDial?) && addr in next.table ==> !next.table[addr].own
    ensures turn.addr == addr || On(At(st, turn.thread), addr)
  {
  }

  /** Another thread's step gives the address an own connection only if that thread is on it too. */
  lemma OtherStepIsAlone(st: State, turn: Turn, addr: Address, callers: set<nat>, t: nat)
    requires Alone(st, addr, callers) && forall v, w :: v in callers && w in callers ==> v == w
    requires turn.Go? ==> turn.thread != t
    requires On(At(Next(st, turn), t), addr)
    ensures var next := Next(st, turn);
      && t in callers
      && ((At(next, t).NotFound? || At(next, t).InDial?) && addr in next.table ==> !next.table[addr].own)
  {
    assert At(Next(st, turn), t) == At(st, t);
  }

  lemma {:induction false} SoleCallerIsAlone(turns: seq<Turn>, addr: Address, callers: set<nat>)
    requires CalledBy(turns, addr, callers) && forall t, u :: t in callers && u in callers ==> t == u
    ensures Alone(Run(turns), addr, callers)
  {
    if turns != [] {
      var init := turns[..|turns| - 1];
      forall i | 0 <= i < |init| ensures init[i] == turns[i] {
      }
      SoleCallerIsAlone(init, addr, callers);
      StepKeepsAlone(Run(init), turns[|turns| - 1], addr, callers);
    }
  }

  lemma BothLook(addr: Address, t: nat, u: nat) returns (turns: seq<Turn>)
    requires t != u
    ensures Run(turns) == Dialled(addr, t, u, 0) && CalledBy(turns, addr, {t, u})
  {
    var one, two := Go(t, addr, Failed, true, false), Go(u, addr, Failed, true, false);
    RunGrows([], one);
    RunGrows([] + [one], one);
    RunGrows([] + [one] + [one], two);
    RunGrows([] + [one] + [one] + [two], two);
    turns := [] + [one] + [one] + [two] + [two];
    assert Run([] + [one] + [one]).threads == map[t := NotFound(addr)];
    assert Run(turns).threads == map[t := NotFound(addr), u := NotFound(addr)];
  }

  /** The states of a dial by u while t has looked: none yet, listed and dialling, connected. */
  function Dialled(addr: Address, t: nat, u: nat, k: nat): State {
    if k == 0 then State(map[], map[], [], map[t := NotFound(addr), u := NotFound(addr)])
    else if k == 1 then
      State(map[], map[addr := 0], [Flight(addr, u, None, 0)], map[t := NotFound(addr), u := InDial(addr, 0)])
    else
      State(map[addr := Entry(7, true)], map[addr := 0], [Flight(addr, u, Some(Connected(7)), 0)],
        map[t := NotFound(addr), u := HasOutcome(addr, 0)])
  }

  lemma DialStarts(addr: Address, t: nat, u: nat)
    requires t != u
    ensures Next(Dialled(addr, t, u, 0), Go(u, addr, Connected(7), true, false)) == Dialled(addr, t, u, 1)
  {
    assert map[t := NotFound(addr), u := NotFound(addr)][u := InDial(addr, 0)]
        == map[t := NotFound(addr), u := InDial(addr, 0)];
  }

  lemma DialConnects(addr: Address, t: nat, u: nat)
    requires t != u
    ensures Next(Dialled(addr, t, u, 1), Go(u, addr, Connected(7), true, false)) == Dialled(addr, t, u, 2)
  {
    assert map[t := NotFound(addr), u := InDial(addr, 0)][u := HasOutcome(addr, 0)]
        == map[t := NotFound(addr), u := HasOutcome(addr, 0)];
  }

  lemma DialUnlists(addr: Address, t: nat, u: nat)
    requires t != u
    ensures var st := Next(Dialled(addr, t, u, 2), Go(u, addr, Connected(7), true, false));
      At(st, t) == NotFound(addr) && addr !in st.dialing && st.table == map[addr := Entry(7, true)]
  {
  }

  lemma Extend(before: seq<Turn>, turn: Turn, addr: Address, callers: set<nat>) returns (turns: seq<Turn>)
    requires CalledBy(before, addr, callers) && (turn.Go? && turn.addr == addr ==> turn.thread in callers)
    ensures Run(turns) == Next(Run(before), turn) && CalledBy(turns, addr, callers)
  {
    RunGrows(before, turn);
    turns := before + [turn];
  }

  lemma OneDialSucceeds(addr: Address, t: nat, u: nat, before: seq<Turn>) returns (turns: seq<Turn>)
    requires t != u && CalledBy(before, addr, {t, u}) && Run(before) == Dialled(addr, t, u, 0)
    ensures At(Run(turns), t) == NotFound(addr) && addr !in Run(turns).dialing
    ensures Run(turns).table == map[addr := Entry(7, true)] && CalledBy(turns, addr, {t, u})
  {
    var go := Go(u, addr, Connected(7), true, false);
    DialStarts(addr, t, u);
    DialConnects(addr, t, u);
    DialUnlists(addr, t, u);
    turns := Extend(before, go, addr, {t, u});
    turns := Extend(turns, go, addr, {t, u});
    turns := Extend(turns, go, addr, {t, u});
  }

  /**
   The lookup is not repeated once the lock is taken, so of any two callers the one that
   looked before the other's dial succeeded dials again although there is by now a
   connection: single flight bounds the dials under way, not the connections of one's own
   that meet in register.
  */
  lemma SecondDialOverLiveConnection(addr: Address, t: nat, u: nat) returns (turns: seq<Turn>)
    requires t != u
    ensures CalledBy(turns, addr, {t, u}) && DialsOver(Run(turns), t, addr)
  {
    var looked := BothLook(addr, t, u);
    var dialled := OneDialSucceeds(addr, t, u, looked);
    RunGrows(dialled, Go(t, addr, Failed, true, false));
    turns := dialled + [Go(t, addr, Failed, true, false)];
  }

  ghost predicate NeverDialsOver(addr: Address, callers: set<nat>) {
    forall turns: seq<Turn>, t: nat :: CalledBy(turns, addr, callers) ==> !DialsOver(Run(turns), t, addr)
  }

  /**
   However the turns fall, and whatever the peer dials and register decides, no dial to an
   address runs beside a live connection of one's own exactly when there is at most one
   caller for it.
  */
  lemma NoSecondDialIff(addr: Address, callers: set<nat>)
    ensures NeverDialsOver(addr, callers) <==> forall t, u :: t in callers && u in callers ==> t == u
  {
    if forall t, u :: t in callers && u in callers ==> t == u {
      forall turns: seq<Turn>, t: nat | CalledBy(turns, addr, callers) ensures !DialsOver(Run(turns), t, addr) {
        SoleCallerIsAlone(turns, addr, callers);
      }
    }
    if t, u :| t in callers && u in callers && t != u {
      var turns := SecondDialOverLiveConnection(addr, t, u);
      assert CalledBy(turns, addr, callers);
    }
  }
}
