/**
 From a membership snapshot to the interface: which node an advertised network is routed
 to (internal/cli/agent_loop.go:69-109), the set-up of the interface and the reconciliation
 of its routing table (internal/wg/wireguard.go:127-211, 236-261).
*/
module Routes {
  import opened Basics
  import opened Overlay

  /** The parts of overlay.Node that are used here: addr is where the node is reached. */
  datatype Peer = Peer(name: Bytes, addr: Addr, overlayAddr: Addr, pubKey: Bytes, allowed: seq<Prefix>)

  /** netip.Prefix.Overlaps. */
  predicate Overlaps(p: Prefix, q: Prefix) {
    p.bits >= 0 && q.bits >= 0 && BitLen(p.addr) == BitLen(q.addr)
    && var free := BitLen(p.addr) - if p.bits < q.bits then p.bits else q.bits;
       Number(p.addr) / Pow2(free) == Number(q.addr) / Pow2(free)
  }

  lemma QuotientsAgree(x: nat, y: nat, p: nat, m: nat)
    requires p > 0 && m > 0 && x / p == y / p
    ensures x / (m * p) == y / (m * p)
  {
    QuotientTwice(x, p, m);
    QuotientTwice(y, p, m);
  }

  lemma QuotientTwice(x: nat, p: nat, m: nat)
    requires p > 0 && m > 0
    ensures x / p / m == x / (m * p)
  {
    var q, r := x / p, x % p;
    var k, j := q / m, q % m;
    assert x == q * p + r && q == k * m + j;
    assert (k * m + j) * p == k * (m * p) + j * p;
    assert j * p + r < m * p by {
      assert (j + 1) * p <= m * p by { ProductMonotone(j + 1, m, p); }
      assert (j + 1) * p == j * p + p;
    }
    DivisionIsUnique(k, j * p + r, m * p);
  }

  lemma ProductMonotone(a: nat, b: nat, p: nat)
    requires a <= b
    ensures a * p <= b * p
  {
    assert b * p == a * p + (b - a) * p;
  }

  /** The prefix read with more bits free. */
  lemma ContainedCoarser(x: nat, y: nat, k: nat, l: nat)
    requires k <= l && x / Pow2(k) == y / Pow2(k)
    ensures x / Pow2(l) == y / Pow2(l)
  {
    Pow2Adds(l - k, k);
    QuotientsAgree(x, y, Pow2(k), Pow2(l - k));
  }

  /** Two prefixes overlap exactly when some address lies in both. */
  lemma OverlapsIff(p: Prefix, q: Prefix)
    ensures Overlaps(p, q) <==> exists a :: Contains(p, a) && Contains(q, a)
  {
    if Overlaps(p, q) {
      if p.bits <= q.bits {
        assert Contains(p, q.addr) && Contains(q, q.addr);
      } else {
        assert Contains(p, p.addr) && Contains(q, p.addr);
      }
    }
    if a :| Contains(p, a) && Contains(q, a) {
      if p.bits <= q.bits {
        ContainedCoarser(Number(a), Number(q.addr), HostBits(q), HostBits(p));
      } else {
        ContainedCoarser(Number(a), Number(p.addr), HostBits(p), HostBits(q));
      }
    }
  }

  // --- who routes what ---

  function Elements(s: seq<Prefix>): set<Prefix> {
    set p | p in s
  }

  /** The networks of one node that are kept, in its order, each once. */
  function Keep(allowed: seq<Prefix>, net: Prefix, taken: set<Prefix>): seq<Prefix> {
    if allowed == [] then []
    else
      var init, p := Keep(allowed[..|allowed| - 1], net, taken), allowed[|allowed| - 1];
      if Overlaps(p, net) || p in taken || p in init then init else init + [p]
  }

  /** The networks that some node has been given. */
  function Taken(peers: seq<Peer>, net: Prefix): set<Prefix> {
    if peers == [] then {}
    else
      var init, last := peers[..|peers| - 1], peers[|peers| - 1];
      Taken(init, net) + Elements(Keep(last.allowed, net, Taken(init, net)))
  }

  /** The peers with what is left of their networks when each is given to the first to advertise it. */
  function Assign(peers: seq<Peer>, net: Prefix): (out: seq<Peer>)
    ensures |out| == |peers|
  {
    if peers == [] then []
    else
      var init, last := peers[..|peers| - 1], peers[|peers| - 1];
      Assign(init, net) + [last.(allowed := Keep(last.allowed, net, Taken(init, net)))]
  }

  lemma {:induction false} KeepIsExact(allowed: seq<Prefix>, net: Prefix, taken: set<Prefix>)
    ensures forall p :: p in Keep(allowed, net, taken) <==> p in allowed && !Overlaps(p, net) && p !in taken
    ensures forall i, j :: 0 <= i < j < |Keep(allowed, net, taken)| ==>
      Keep(allowed, net, taken)[i] != Keep(allowed, net, taken)[j]
  {
    if allowed != [] {
      var init, p := allowed[..|allowed| - 1], allowed[|allowed| - 1];
      KeepIsExact(init, net, taken);
      assert allowed == init + [p];
    }
  }

  /** Some peer advertises the network and it lies outside the overlay network. */
  predicate Offered(peers: seq<Peer>, net: Prefix, p: Prefix) {
    !Overlaps(p, net) && exists i :: 0 <= i < |peers| && p in peers[i].allowed
  }

  lemma {:induction false} TakenIsOffered(peers: seq<Peer>, net: Prefix, p: Prefix)
    ensures p in Taken(peers, net) <==> Offered(peers, net, p)
  {
    if peers != [] {
      var init, last := peers[..|peers| - 1], peers[|peers| - 1];
      TakenIsOffered(init, net, p);
      KeepIsExact(last.allowed, net, Taken(init, net));
      if i :| 0 <= i < |peers| && p in peers[i].allowed {
        assert i < |init| ==> init[i] == peers[i];
      }
      if i :| 0 <= i < |init| && p in init[i].allowed {
        assert peers[i] == init[i];
      }
    }
  }

  /**
   A node keeps a network exactly when it advertises it, it is outside the overlay network,
   and nobody before it advertises it.
  */
  lemma {:induction false} FirstAdvertiserKeeps(peers: seq<Peer>, net: Prefix, i: nat, p: Prefix)
    requires i < |peers|
    ensures p in Assign(peers, net)[i].allowed <==>
      p in peers[i].allowed && !Overlaps(p, net) && forall j :: 0 <= j < i ==> p !in peers[j].allowed
    ensures Assign(peers, net)[i] == peers[i].(allowed := Assign(peers, net)[i].allowed)
  {
    var init, last := peers[..|peers| - 1], peers[|peers| - 1];
    if i < |init| {
      FirstAdvertiserKeeps(init, net, i, p);
      assert forall j :: 0 <= j <= i ==> init[j] == peers[j];
    } else {
      KeepIsExact(last.allowed, net, Taken(init, net));
      TakenIsOffered(init, net, p);
      assert forall j :: 0 <= j < |init| ==> init[j] == peers[j];
    }
  }

  /** No network is given to two nodes, and every one offered is given to one. */
  lemma EachNetworkHasOneRouter(peers: seq<Peer>, net: Prefix, p: Prefix)
    ensures forall i, j :: 0 <= i < j < |peers| ==>
      !(p in Assign(peers, net)[i].allowed && p in Assign(peers, net)[j].allowed)
    ensures Offered(peers, net, p) <==> exists i :: 0 <= i < |peers| && p in Assign(peers, net)[i].allowed
  {
    forall i | 0 <= i < |peers| ensures p in Assign(peers, net)[i].allowed <==>
      p in peers[i].allowed && !Overlaps(p, net) && forall j :: 0 <= j < i ==> p !in peers[j].allowed
    {
      FirstAdvertiserKeeps(peers, net, i, p);
    }
    if Offered(peers, net, p) {
      var i :| 0 <= i < |peers| && p in peers[i].allowed;
      var first := FirstWith(peers, p, i);
      assert p in Assign(peers, net)[first].allowed;
    }
  }

  lemma {:induction false} FirstWith(peers: seq<Peer>, p: Prefix, i: nat) returns (first: nat)
    requires i < |peers| && p in peers[i].allowed
    ensures first <= i && p in peers[first].allowed && forall j :: 0 <= j < first ==> p !in peers[j].allowed
  {
    first := i;
    if j :| 0 <= j < i && p in peers[j].allowed {
      first := FirstWith(peers, p, j);
    }
  }

  // --- slices.SortFunc by name ---

  ghost predicate SortedByName(peers: seq<Peer>) {
    forall i, j :: 0 <= i < j < |peers| ==> !BytesLess(peers[j].name, peers[i].name)
  }

  ghost predicate DistinctNames(peers: seq<Peer>) {
    forall i, j :: 0 <= i < j < |peers| ==> peers[i].name != peers[j].name
  }

  function InsertByName(peers: seq<Peer>, n: Peer): seq<Peer> {
    if peers == [] || BytesLess(n.name, peers[0].name) then [n] + peers else [peers[0]] + InsertByName(peers[1..], n)
  }

  function SortByName(peers: seq<Peer>): seq<Peer> {
    if peers == [] then [] else InsertByName(SortByName(peers[1..]), peers[0])
  }

  lemma {:induction false} InsertByNameAdds(peers: seq<Peer>, n: Peer)
    ensures multiset(InsertByName(peers, n)) == multiset(peers) + multiset{n}
  {
    if peers != [] {
      assert peers == [peers[0]] + peers[1..];
      InsertByNameAdds(peers[1..], n);
    }
  }

  lemma {:induction false} InsertByNameSorts(peers: seq<Peer>, n: Peer)
    requires SortedByName(peers)
    ensures SortedByName(InsertByName(peers, n))
  {
    if peers != [] {
      if BytesLess(n.name, peers[0].name) {
        InsertInFront(peers, n);
      } else {
        InsertByNameSorts(peers[1..], n);
        InsertByNameAdds(peers[1..], n);
        var rest := InsertByName(peers[1..], n);
        forall j | 0 <= j < |rest| ensures !BytesLess(rest[j].name, peers[0].name) {
          assert rest[j] in multiset(rest);
          assert rest[j] == n || rest[j] in peers[1..];
        }
      }
    }
  }

  lemma InsertInFront(peers: seq<Peer>, n: Peer)
    requires SortedByName(peers) && peers != [] && BytesLess(n.name, peers[0].name)
    ensures SortedByName([n] + peers)
  {
    forall j | 0 <= j < |peers| ensures !BytesLess(peers[j].name, n.name) {
      if BytesLess(peers[j].name, n.name) {
        BytesLessIsTransitive(peers[j].name, n.name, peers[0].name);
        BytesLessIsAsymmetric(n.name, peers[0].name);
      }
    }
  }

  lemma {:induction false} SortByNameSorts(peers: seq<Peer>)
    ensures SortedByName(SortByName(peers)) && multiset(SortByName(peers)) == multiset(peers)
  {
    if peers != [] {
      assert peers == [peers[0]] + peers[1..];
      SortByNameSorts(peers[1..]);
      InsertByNameSorts(SortByName(peers[1..]), peers[0]);
      InsertByNameAdds(SortByName(peers[1..]), peers[0]);
    }
  }

  lemma MultisetKeepsDistinct(a: seq<Peer>, b: seq<Peer>)
    requires DistinctNames(a) && multiset(a) == multiset(b)
    ensures DistinctNames(b)
  {
    forall i, j | 0 <= i < j < |b| ensures b[i].name != b[j].name {
      assert b[i] in multiset(a) && b[j] in multiset(a);
      var k, l :| 0 <= k < |a| && 0 <= l < |a| && a[k] == b[i] && a[l] == b[j];
      if b[i] == b[j] {
        assert b == b[..j] + [b[j]] + b[j + 1..];
        assert b[i] in b[..j];
        assert multiset(b)[b[i]] >= 2;
        OnceInDistinct(a, k);
      }
    }
  }

  lemma OnceInDistinct(a: seq<Peer>, k: nat)
    requires DistinctNames(a) && k < |a|
    ensures multiset(a)[a[k]] == 1
  {
    assert a == a[..k] + [a[k]] + a[k + 1..];
    assert a[k] !in a[..k] && a[k] !in a[k + 1..];
  }

  lemma SmallestIsFirst(a: seq<Peer>, b: seq<Peer>)
    requires SortedByName(a) && SortedByName(b) && DistinctNames(a) && multiset(a) == multiset(b) && a != []
    ensures b != [] && a[0] == b[0]
  {
    assert |multiset(b)| == |multiset(a)| == |a|;
    assert a[0] in multiset(b) && b[0] in multiset(a);
    var i :| 0 <= i < |b| && b[i] == a[0];
    var j :| 0 <= j < |a| && a[j] == b[0];
    BytesLessIsConnected(a[0].name, b[0].name);
  }

  lemma TailsMatch(a: seq<Peer>, b: seq<Peer>)
    requires a != [] && b != [] && a[0] == b[0] && multiset(a) == multiset(b)
    ensures multiset(a[1..]) == multiset(b[1..])
  {
    assert a == [a[0]] + a[1..] && b == [b[0]] + b[1..];
    assert multiset(a[1..]) == multiset(a) - multiset{a[0]};
    assert multiset(b[1..]) == multiset(b) - multiset{b[0]};
  }

  lemma {:induction false} SortedIsUnique(a: seq<Peer>, b: seq<Peer>)
    requires SortedByName(a) && SortedByName(b) && DistinctNames(a)
    requires multiset(a) == multiset(b)
    ensures a == b
  {
    assert |a| == |multiset(a)| == |multiset(b)| == |b|;
    if a != [] {
      SmallestIsFirst(a, b);
      TailsMatch(a, b);
      SortedIsUnique(a[1..], b[1..]);
      assert a == [a[0]] + a[1..] && b == [b[0]] + b[1..];
    }
  }

  /** Snapshots that list the same nodes, under distinct names, are resolved the same way whatever their order. */
  lemma OrderOfSnapshotIsIrrelevant(a: seq<Peer>, b: seq<Peer>, net: Prefix)
    requires multiset(a) == multiset(b) && DistinctNames(a)
    ensures Assign(SortByName(a), net) == Assign(SortByName(b), net)
  {
    SortByNameSorts(a);
    SortByNameSorts(b);
    MultisetKeepsDistinct(a, SortByName(a));
    SortedIsUnique(SortByName(a), SortByName(b));
  }

  // --- the routing table ---

  function HostPrefix(a: Addr): Prefix {
    if a.NoAddr? then Prefix(NoAddr, -1) else Prefix(a, BitLen(a))
  }

  /** The prefix of one address and no other. */
  lemma HostPrefixIsOne(a: Addr, b: Addr)
    requires !a.NoAddr?
    ensures Contains(HostPrefix(a), b) <==> a == b
  {
    assert Pow2(0) == 1;
  }

  /** The host prefix of every peer's overlay address and the networks it advertises. */
  function PeerPrefixes(n: Peer): seq<Prefix> {
    [HostPrefix(n.overlayAddr)] + n.allowed
  }

  function Wanted(nodes: seq<Peer>): set<Prefix> {
    if nodes == [] then {}
    else Wanted(nodes[..|nodes| - 1]) + Elements(PeerPrefixes(nodes[|nodes| - 1]))
  }

  lemma {:induction false} WantedIsExact(nodes: seq<Peer>, p: Prefix)
    ensures p in Wanted(nodes) <==> exists i :: 0 <= i < |nodes| && p in PeerPrefixes(nodes[i])
  {
    if nodes != [] {
      var init := nodes[..|nodes| - 1];
      WantedIsExact(init, p);
      if i :| 0 <= i < |nodes| && p in PeerPrefixes(nodes[i]) {
        assert i < |init| ==> init[i] == nodes[i];
      }
      if i :| 0 <= i < |init| && p in PeerPrefixes(init[i]) {
        assert nodes[i] == init[i];
      }
    }
  }

  // --- the interface ---

  /** What wireguard is told of a peer; every peer listens on our own port. */
  datatype PeerConfig = PeerConfig(key: Bytes, endpoint: Addr, port: nat, keepalive: nat, allowed: seq<Prefix>)

  datatype Call =
    | Create | Configure(peers: seq<PeerConfig>) | SetAddr(addr: Prefix) | SetMtu | Up
    | Add(dst: Prefix) | List | Del(dst: Prefix) | Delete

  /**
   The interface as device, wireguard client and operating system hold it. A call fails or
   does its work; each is idempotent.
  */
  class Linker {
    const fails: Call -> bool
    const name: Bytes
    var present: bool
    var up: bool
    var addr: Option<Prefix>
    var mtu: nat
    var peers: seq<PeerConfig>
    var routes: set<Prefix>

    constructor (fails: Call -> bool, name: Bytes)
      ensures this.fails == fails && this.name == name && !present && !up && addr == None && peers == [] && routes == {}
    {
      this.fails, this.name := fails, name;
      present, up, addr, mtu, peers, routes := false, false, None, 0, [], {};
    }

    method Create() returns (osName: Option<Bytes>)
      modifies `present
      ensures osName == if fails(Call.Create) then None else Some(name)
      ensures present == (old(present) || osName.Some?)
    {
      osName := None;
      if !fails(Call.Create) {
        present, osName := true, Some(name);
      }
    }

    /** ConfigureDevice with ReplacePeers. */
    method Configure(cfgs: seq<PeerConfig>) returns (ok: bool)
      modifies `peers
      ensures ok == !fails(Call.Configure(cfgs)) && peers == if ok then cfgs else old(peers)
    {
      ok := !fails(Call.Configure(cfgs));
      if ok {
        peers := cfgs;
      }
    }

    method SetAddr(own: Prefix) returns (ok: bool)
      modifies `addr
      ensures ok == !fails(Call.SetAddr(own)) && addr == if ok then Some(own) else old(addr)
    {
      ok := !fails(Call.SetAddr(own));
      if ok {
        addr := Some(own);
      }
    }

    method SetMtu(value: nat) returns (ok: bool)
      modifies `mtu
      ensures ok == !fails(Call.SetMtu) && mtu == if ok then value else old(mtu)
    {
      ok := !fails(Call.SetMtu);
      if ok {
        mtu := value;
      }
    }

    method Up() returns (ok: bool)
      modifies `up
      ensures ok == !fails(Call.Up) && up == (ok || old(up))
    {
      ok := !fails(Call.Up);
      up := ok || up;
    }

    method AddRoute(dst: Prefix) returns (ok: bool)
      modifies `routes
      ensures ok == !fails(Add(dst)) && routes == if ok then old(routes) + {dst} else old(routes)
    {
      ok := !fails(Add(dst));
      if ok {
        routes := routes + {dst};
      }
    }

    method DelRoute(dst: Prefix) returns (ok: bool)
      modifies `routes
      ensures ok == !fails(Del(dst)) && routes == if ok then old(routes) - {dst} else old(routes)
    {
      ok := !fails(Del(dst));
      if ok {
        routes := routes - {dst};
      }
    }

    /** The interface goes with everything that was set on it. */
    method Delete() returns (ok: bool)
      modifies this
      ensures ok == !fails(Call.Delete)
      ensures ok ==> !present && !up && addr == None && peers == [] && routes == {}
      ensures !ok ==> present == old(present) && up == old(up) && addr == old(addr)
      ensures !ok ==> mtu == old(mtu) && peers == old(peers) && routes == old(routes)
    {
      ok := !fails(Call.Delete);
      if ok {
        present, up, addr, peers, routes := false, false, None, [], {};
      }
    }
  }

  class State {
    const overlayAddr: Addr
    const mtu: nat
    const port: nat
    const keepalive: nat
    /** wgtypes.ParseKey. */
    const parseKey: Bytes -> Option<Bytes>
    const link: Linker
    /** What the operating system calls the interface, once created. */
    var osName: Bytes

    constructor (overlayAddr: Addr, mtu: nat, port: nat, keepalive: nat, parseKey: Bytes -> Option<Bytes>, link: Linker)
      ensures this.overlayAddr == overlayAddr && this.mtu == mtu && this.port == port && this.keepalive == keepalive
      ensures this.parseKey == parseKey && this.link == link && osName == []
    {
      this.overlayAddr, this.mtu, this.port, this.keepalive := overlayAddr, mtu, port, keepalive;
      this.parseKey, this.link := parseKey, link;
      osName := [];
    }

    predicate KeysParse(nodes: seq<Peer>) {
      forall i :: 0 <= i < |nodes| ==> parseKey(nodes[i].pubKey).Some?
    }

    /** Each node is a peer under its key, at its address and our port, for its prefixes. */
    predicate Configures(nodes: seq<Peer>, cfgs: seq<PeerConfig>) {
      && |cfgs| == |nodes|
      && forall i :: 0 <= i < |nodes| ==>
           parseKey(nodes[i].pubKey) == Some(cfgs[i].key)
           && cfgs[i] == PeerConfig(cfgs[i].key, nodes[i].addr, port, keepalive, PeerPrefixes(nodes[i]))
    }

    method NodesToPeerConfigs(nodes: seq<Peer>) returns (cfgs: Option<seq<PeerConfig>>)
      ensures cfgs.Some? <==> KeysParse(nodes)
      ensures cfgs.Some? ==> Configures(nodes, cfgs.value)
    {
      var out: seq<PeerConfig> := [];
      for i := 0 to |nodes|
        invariant KeysParse(nodes[..i]) && Configures(nodes[..i], out)
      {
        var key := parseKey(nodes[i].pubKey);
        if key.None? {
          return None;
        }
        out := out + [PeerConfig(key.value, nodes[i].addr, port, keepalive, PeerPrefixes(nodes[i]))];
      }
      assert nodes[..|nodes|] == nodes;
      cfgs := Some(out);
    }

    /** No call that setting up for these nodes makes is one that fails; before are the routes already there. */
    ghost predicate CanSetUp(nodes: seq<Peer>, before: set<Prefix>) {
      CanSetUpDevice(nodes) && CanRoute(nodes, before)
    }

    ghost predicate CanSetUpDevice(nodes: seq<Peer>) {
      && !link.fails(Call.Create) && KeysParse(nodes)
      && (forall cfgs :: Configures(nodes, cfgs) ==> !link.fails(Configure(cfgs)))
      && !link.fails(SetAddr(HostPrefix(overlayAddr))) && !link.fails(SetMtu) && !link.fails(Up)
    }

    /** No wanted prefix is refused, the routes can be listed, and no stale one refuses to go. */
    ghost predicate CanRoute(nodes: seq<Peer>, before: set<Prefix>) {
      && (forall p :: p in Wanted(nodes) ==> !link.fails(Add(p)))
      && CanRemove(Wanted(nodes), before)
    }

    ghost predicate CanRemove(peers: set<Prefix>, before: set<Prefix>) {
      !link.fails(List) && forall p :: p in before && p !in peers && p != HostPrefix(overlayAddr) ==>
        !link.fails(Del(p))
    }

    /**
     Succeeds exactly when every call it has to make does. The interface is then up with our
     address, exactly the nodes as peers, and exactly their prefixes routed, and our own if it
     was there. Even when it fails no wanted route is lost and nothing else is added.
    */
    method SetUpInterface(nodes: seq<Peer>) returns (ok: bool)
      modifies this, link
      ensures ok <==> CanSetUp(nodes, old(link.routes))
      ensures ok ==> link.routes == Wanted(nodes) + (old(link.routes) * {HostPrefix(overlayAddr)})
      ensures ok ==> link.present && link.up && link.addr == Some(HostPrefix(overlayAddr)) && link.mtu == mtu
                     && Configures(nodes, link.peers) && osName == link.name
      ensures old(link.routes) * (Wanted(nodes) + {HostPrefix(overlayAddr)}) <= link.routes
      ensures link.routes <= old(link.routes) + Wanted(nodes)
    {
      ok := SetUpDevice(nodes);
      if ok {
        ok := SetUpRoutes(nodes);
      }
    }

    /** SetUpInterface up to the routes: device, peers, address, MTU, link. */
    method SetUpDevice(nodes: seq<Peer>) returns (ok: bool)
      modifies this, link`present, link`peers, link`addr, link`mtu, link`up
      ensures ok <==> CanSetUpDevice(nodes)
      ensures ok ==> link.present && link.up && link.addr == Some(HostPrefix(overlayAddr)) && link.mtu == mtu
                     && Configures(nodes, link.peers) && osName == link.name
    {
      var created := link.Create();
      if created.None? {
        return false;
      }
      if created.value != osName {
        osName := created.value;
      }
      var cfgs := NodesToPeerConfigs(nodes);
      if cfgs.None? {
        return false;
      }
      ConfigsAreUnique(nodes, cfgs.value);
      ok := link.Configure(cfgs.value);
      if ok {
        ok := link.SetAddr(HostPrefix(overlayAddr));
      }
      if ok {
        ok := link.SetMtu(mtu);
      }
      if ok {
        ok := link.Up();
      }
    }

    lemma ConfigsAreUnique(nodes: seq<Peer>, cfgs: seq<PeerConfig>)
      requires Configures(nodes, cfgs)
      ensures forall other :: Configures(nodes, other) ==> other == cfgs
    {
      forall other | Configures(nodes, other) ensures other == cfgs {
        assert forall i :: 0 <= i < |nodes| ==> other[i] == cfgs[i];
      }
    }

    /** The routes of one node; wanted are those of the nodes before it. */
    method AddRoutesOf(node: Peer, wanted: set<Prefix>) returns (ok: bool, all: set<Prefix>)
      modifies link`routes
      ensures ok <==> forall p :: p in PeerPrefixes(node) ==> !link.fails(Add(p))
      ensures ok ==> all == wanted + Elements(PeerPrefixes(node))
      ensures ok ==> link.routes == old(link.routes) + Elements(PeerPrefixes(node))
      ensures old(link.routes) <= link.routes <= old(link.routes) + Elements(PeerPrefixes(node))
    {
      var prefixes := PeerPrefixes(node);
      all := wanted;
      for k := 0 to |prefixes|
        invariant all == wanted + Elements(prefixes[..k])
        invariant link.routes == old(link.routes) + Elements(prefixes[..k])
        invariant forall p :: p in prefixes[..k] ==> !link.fails(Add(p))
      {
        assert prefixes[..k + 1] == prefixes[..k] + [prefixes[k]];
        var added := link.AddRoute(prefixes[k]);
        if !added {
          return false, all;
        }
        all := all + {prefixes[k]};
      }
      assert prefixes[..|prefixes|] == prefixes;
      ok := true;
    }

    /** The rest of SetUpInterface: the routes. */
    method SetUpRoutes(nodes: seq<Peer>) returns (ok: bool)
      modifies link`routes
      ensures ok <==> CanRoute(nodes, old(link.routes))
      ensures ok ==> link.routes == Wanted(nodes) + (old(link.routes) * {HostPrefix(overlayAddr)})
      ensures old(link.routes) * (Wanted(nodes) + {HostPrefix(overlayAddr)}) <= link.routes
      ensures link.routes <= old(link.routes) + Wanted(nodes)
    {
      var wanted: set<Prefix> := {};
      for i := 0 to |nodes|
        invariant wanted == Wanted(nodes[..i]) && link.routes == old(link.routes) + wanted
        invariant forall p :: p in wanted ==> !link.fails(Add(p))
      {
        assert nodes[..i + 1][..i] == nodes[..i];
        WantedGrows(nodes, i);
        var added, all := AddRoutesOf(nodes[i], wanted);
        if !added {
          return false;
        }
        wanted := all;
      }
      assert nodes[..|nodes|] == nodes;
      ok := RemoveStaleRoutes(wanted);
    }

    method RemoveStaleRoutes(peers: set<Prefix>) returns (ok: bool)
      modifies link`routes
      ensures ok <==> CanRemove(peers, old(link.routes))
      ensures ok ==> link.routes == old(link.routes) * (peers + {HostPrefix(overlayAddr)})
      ensures old(link.routes) * (peers + {HostPrefix(overlayAddr)}) <= link.routes <= old(link.routes)
    {
      var wanted := peers + {HostPrefix(overlayAddr)};
      if link.fails(List) {
        return false;
      }
      var todo := link.routes;
      while todo != {}
        invariant todo <= link.routes <= old(link.routes)
        invariant old(link.routes) * wanted <= link.routes
        invariant forall p :: p in link.routes - todo ==> p in wanted
        invariant forall p :: p in old(link.routes) - todo && p !in wanted ==> !link.fails(Del(p))
      {
        var dst :| dst in todo;
        if dst !in wanted {
          var removed := link.DelRoute(dst);
          if !removed {
            return false;
          }
        }
        todo := todo - {dst};
      }
      return true;
    }

    method DownInterface() returns (ok: bool)
      modifies this, link
      ensures ok == !link.fails(Call.Delete)
      ensures if ok then !link.present && link.routes == {} && link.peers == [] && osName == []
              else link.present == old(link.present) && link.routes == old(link.routes) && link.peers == old(link.peers)
                   && osName == old(osName)
    {
      ok := link.Delete();
      if ok {
        osName := [];
      }
    }
  }

  lemma WantedPrefix(nodes: seq<Peer>, i: nat, p: Prefix)
    requires i < |nodes| && p in PeerPrefixes(nodes[i])
    ensures p in Wanted(nodes)
  {
    WantedIsExact(nodes, p);
  }

  lemma WantedGrows(nodes: seq<Peer>, i: nat)
    requires i < |nodes|
    ensures Wanted(nodes[..i]) + Elements(PeerPrefixes(nodes[i])) <= Wanted(nodes)
  {
    forall p | p in Wanted(nodes[..i]) + Elements(PeerPrefixes(nodes[i])) ensures p in Wanted(nodes) {
      WantedIsExact(nodes[..i], p);
      if j :| 0 <= j < i && p in PeerPrefixes(nodes[..i][j]) {
        WantedPrefix(nodes, j, p);
      } else {
        WantedPrefix(nodes, i, p);
      }
    }
  }

  // --- the hosts entries ---

  /** hostEntries as apply fills it: of nodes with one address the last wins. */
  function HostEntries(peers: seq<Peer>): map<Addr, Bytes> {
    if peers == [] then map[]
    else HostEntries(peers[..|peers| - 1])[peers[|peers| - 1].overlayAddr := peers[|peers| - 1].name]
  }

  /** The address is some node's, and the name is that of the last such node by name. */
  ghost predicate LastNamed(peers: seq<Peer>, addr: Addr, name: Bytes) {
    && (exists n :: n in peers && n.overlayAddr == addr && n.name == name)
    && (forall n :: n in peers && n.overlayAddr == addr ==> !BytesLess(name, n.name))
  }

  lemma {:induction false} EntriesAreLastNamed(peers: seq<Peer>, addr: Addr)
    requires SortedByName(peers)
    ensures addr in HostEntries(peers) <==> exists n :: n in peers && n.overlayAddr == addr
    ensures addr in HostEntries(peers) ==> LastNamed(peers, addr, HostEntries(peers)[addr])
  {
    if peers != [] {
      var init, last := peers[..|peers| - 1], peers[|peers| - 1];
      assert peers == init + [last];
      EntriesAreLastNamed(init, addr);
      if last.overlayAddr == addr {
        forall n | n in peers ensures !BytesLess(last.name, n.name) {
          var i :| 0 <= i < |peers| && peers[i] == n;
          if i == |init| && BytesLess(last.name, n.name) { BytesLessIsAsymmetric(last.name, n.name); }
        }
      }
    }
  }

  /**
   One entry per address in the snapshot, naming the last node by name that has it,
   whatever the order of the snapshot.
  */
  lemma HostEntriesAreTheNodes(peers: seq<Peer>, addr: Addr)
    ensures addr in HostEntries(SortByName(peers)) <==> exists n :: n in peers && n.overlayAddr == addr
    ensures addr in HostEntries(SortByName(peers)) ==> LastNamed(peers, addr, HostEntries(SortByName(peers))[addr])
  {
    SortByNameSorts(peers);
    EntriesAreLastNamed(SortByName(peers), addr);
    SameElements(peers, SortByName(peers));
    SameElements(SortByName(peers), peers);
  }

  /** One entry per address in the snapshot, naming the last node by name that has it. */
  ghost predicate EntriesOf(peers: seq<Peer>, entries: map<Addr, Bytes>) {
    && (forall addr :: addr in entries <==> exists n :: n in peers && n.overlayAddr == addr)
    && (forall addr :: addr in entries ==> LastNamed(peers, addr, entries[addr]))
  }

  lemma EntriesAreComplete(peers: seq<Peer>)
    ensures EntriesOf(peers, HostEntries(SortByName(peers)))
  {
    forall addr
      ensures addr in HostEntries(SortByName(peers)) <==> exists n :: n in peers && n.overlayAddr == addr
      ensures addr in HostEntries(SortByName(peers)) ==> LastNamed(peers, addr, HostEntries(SortByName(peers))[addr])
    {
      HostEntriesAreTheNodes(peers, addr);
    }
  }

  /** apply's inner loop: one node's networks, and the table of who routes what. */
  method Filter(allowed: seq<Prefix>, net: Prefix, name: Bytes, routedBy: map<Prefix, Bytes>)
    returns (routes: seq<Prefix>, after: map<Prefix, Bytes>)
    ensures routes == Keep(allowed, net, routedBy.Keys)
    ensures after.Keys == routedBy.Keys + Elements(routes)
    ensures forall p :: p in after ==> after[p] == if p in routedBy then routedBy[p] else name
  {
    routes, after := [], routedBy;
    for k := 0 to |allowed|
      invariant routes == Keep(allowed[..k], net, routedBy.Keys)
      invariant after.Keys == routedBy.Keys + Elements(routes)
      invariant forall p :: p in after ==> after[p] == if p in routedBy then routedBy[p] else name
    {
      assert allowed[..k + 1][..k] == allowed[..k];
      var p := allowed[k];
      if !Overlaps(p, net) && p !in after {
        after := after[p := name];
        routes := routes + [p];
      }
    }
    assert allowed[..|allowed|] == allowed;
  }

  lemma OneMorePeer(sorted: seq<Peer>, net: Prefix, i: nat)
    requires i < |sorted|
    ensures var before, n := Taken(sorted[..i], net), sorted[i];
      && Assign(sorted[..i + 1], net) == Assign(sorted[..i], net) + [n.(allowed := Keep(n.allowed, net, before))]
      && Taken(sorted[..i + 1], net) == before + Elements(Keep(n.allowed, net, before))
      && HostEntries(sorted[..i + 1]) == HostEntries(sorted[..i])[n.overlayAddr := n.name]
  {
    assert sorted[..i + 1][..i] == sorted[..i];
  }

  /** apply's outer loop, over the sorted snapshot. */
  method AssignNetworks(sorted: seq<Peer>, net: Prefix) returns (given: seq<Peer>, entries: map<Addr, Bytes>)
    ensures given == Assign(sorted, net) && entries == HostEntries(sorted)
  {
    given, entries := sorted, map[];
    var routedBy: map<Prefix, Bytes> := map[];
    for i := 0 to |sorted|
      invariant |given| == |sorted|
      invariant given[..i] == Assign(sorted[..i], net) && entries == HostEntries(sorted[..i])
      invariant forall j :: i <= j < |sorted| ==> given[j] == sorted[j]
      invariant routedBy.Keys == Taken(sorted[..i], net)
    {
      OneMorePeer(sorted, net, i);
      var routes;
      routes, routedBy := Filter(given[i].allowed, net, given[i].name, routedBy);
      ghost var done := given[..i];
      given := given[i := given[i].(allowed := routes)];
      assert given[..i + 1] == done + [given[i]];
      entries := entries[given[i].overlayAddr := given[i].name];
    }
    assert sorted[..|sorted|] == sorted && given[..|sorted|] == given;
  }

  /** Some peer has the prefix for its own address, or offers it. */
  ghost predicate Reachable(peers: seq<Peer>, net: Prefix, p: Prefix) {
    (exists i :: 0 <= i < |peers| && p == HostPrefix(peers[i].overlayAddr)) || Offered(peers, net, p)
  }

  /** The configuration is the node's: its key, its address at our port, and its own overlay address allowed. */
  predicate IsPeerOf(state: State, n: Peer, c: PeerConfig) {
    && state.parseKey(n.pubKey) == Some(c.key) && c.endpoint == n.addr
    && c.port == state.port && c.keepalive == state.keepalive && HostPrefix(n.overlayAddr) in c.allowed
  }

  /** Each peer configured is a node of the snapshot, and each node is configured. */
  ghost predicate Peered(state: State, peers: seq<Peer>, cfgs: seq<PeerConfig>) {
    && |cfgs| == |peers|
    && (forall n :: n in peers ==> exists c :: c in cfgs && IsPeerOf(state, n, c))
    && (forall c :: c in cfgs ==> exists n :: n in peers && IsPeerOf(state, n, c))
  }

  /** A network is allowed to the one peer that routes it, aside from the addresses peers have themselves. */
  ghost predicate RoutedOnce(peers: seq<Peer>, net: Prefix, cfgs: seq<PeerConfig>) {
    && (forall i :: 0 <= i < |cfgs| ==> cfgs[i].allowed != [])
    && (forall i, j, p :: 0 <= i < j < |cfgs| ==> p !in cfgs[i].allowed[1..] || p !in cfgs[j].allowed[1..])
    && (forall p :: Offered(peers, net, p) <==> exists i :: 0 <= i < |cfgs| && p in cfgs[i].allowed[1..])
  }

  lemma NodesArePeered(state: State, peers: seq<Peer>, net: Prefix, cfgs: seq<PeerConfig>)
    requires state.Configures(Assign(SortByName(peers), net), cfgs)
    ensures Peered(state, peers, cfgs)
  {
    var sorted, given := SortByName(peers), Assign(SortByName(peers), net);
    AssignKeepsCount(peers, net);
    SortByNameSorts(peers);
    SameElements(peers, sorted);
    SameElements(sorted, peers);
    forall i | 0 <= i < |cfgs| ensures sorted[i] in peers && IsPeerOf(state, sorted[i], cfgs[i]) {
      FirstAdvertiserKeeps(sorted, net, i, HostPrefix(given[i].overlayAddr));
      assert PeerPrefixes(given[i])[0] == HostPrefix(sorted[i].overlayAddr);
      assert sorted[i] in sorted;
    }
    forall n | n in peers ensures exists c :: c in cfgs && IsPeerOf(state, n, c) {
      var i :| 0 <= i < |sorted| && sorted[i] == n;
      assert cfgs[i] in cfgs;
    }
  }

  /** Some peer is left with the network. */
  predicate Routed(given: seq<Peer>, p: Prefix) {
    exists i :: 0 <= i < |given| && p in given[i].allowed
  }

  lemma OfferedIsRouted(peers: seq<Peer>, net: Prefix, p: Prefix)
    ensures Offered(peers, net, p) <==> Routed(Assign(SortByName(peers), net), p)
  {
    var sorted := SortByName(peers);
    SortByNameSorts(peers);
    SameElements(peers, sorted);
    SameElements(sorted, peers);
    OfferedByElements(peers, sorted, net, p);
    OfferedByElements(sorted, peers, net, p);
    EachNetworkHasOneRouter(sorted, net, p);
  }

  lemma NetworksAreRoutedOnce(state: State, peers: seq<Peer>, net: Prefix, cfgs: seq<PeerConfig>)
    requires state.Configures(Assign(SortByName(peers), net), cfgs)
    ensures RoutedOnce(peers, net, cfgs)
  {
    var sorted, given := SortByName(peers), Assign(SortByName(peers), net);
    forall i | 0 <= i < |cfgs| ensures cfgs[i].allowed != [] && cfgs[i].allowed[1..] == given[i].allowed {
      assert cfgs[i].allowed == PeerPrefixes(given[i]);
    }
    forall p ensures Offered(peers, net, p) <==> Routed(given, p) {
      OfferedIsRouted(peers, net, p);
    }
    forall i, j, p | 0 <= i < j < |cfgs| ensures p !in given[i].allowed || p !in given[j].allowed {
      EachNetworkHasOneRouter(sorted, net, p);
    }
  }

  /**
   apply: the snapshot is sorted, its networks assigned, the interface set up with the
   result or, if that fails, taken down, and the hosts entries handed on.
  */
  method Apply(peers: seq<Peer>, net: Prefix, state: State)
    returns (ok: bool, given: seq<Peer>, entries: map<Addr, Bytes>, count: nat)
    modifies state, state.link
    ensures given == Assign(SortByName(peers), net) && count == |peers|
    ensures ok <==> state.CanSetUp(given, old(state.link.routes))
    ensures ok ==> state.link.up && state.Configures(given, state.link.peers)
    ensures ok ==> Peered(state, peers, state.link.peers) && RoutedOnce(peers, net, state.link.peers)
    ensures ok ==> forall p :: p in state.link.routes <==>
      Reachable(peers, net, p) || (p == HostPrefix(state.overlayAddr) && p in old(state.link.routes))
    ensures !ok && !state.link.fails(Delete) ==>
      !state.link.present && state.link.routes == {} && state.link.peers == []
    ensures EntriesOf(peers, entries)
  {
    given, entries := AssignNetworks(SortByName(peers), net);
    EntriesAreComplete(peers);
    ok := state.SetUpInterface(given);
    if ok {
      NodesArePeered(state, peers, net, state.link.peers);
      NetworksAreRoutedOnce(state, peers, net, state.link.peers);
    } else {
      var down := state.DownInterface();
    }
    AllRoutesAreTheNodes(peers, net);
    AssignKeepsCount(peers, net);
    count := |given|;
  }

  lemma AllRoutesAreTheNodes(peers: seq<Peer>, net: Prefix)
    ensures forall p :: p in Wanted(Assign(SortByName(peers), net)) <==> Reachable(peers, net, p)
  {
    forall p ensures p in Wanted(Assign(SortByName(peers), net)) <==> Reachable(peers, net, p) {
      RoutesAreTheNodes(peers, net, p);
    }
  }

  lemma AssignKeepsCount(peers: seq<Peer>, net: Prefix)
    ensures |Assign(SortByName(peers), net)| == |peers|
  {
    SortByNameSorts(peers);
    assert |multiset(SortByName(peers))| == |multiset(peers)|;
  }

  /**
   The routes that result: every peer's host prefix, and every network some peer advertises
   outside the overlay network; they depend on the nodes alone, not on their order.
  */
  lemma RoutesAreTheNodes(peers: seq<Peer>, net: Prefix, p: Prefix)
    ensures p in Wanted(Assign(SortByName(peers), net)) <==> Reachable(peers, net, p)
  {
    var sorted := SortByName(peers);
    SortByNameSorts(peers);
    AssignedAreReachable(sorted, net, p);
    SameElements(peers, sorted);
    SameElements(sorted, peers);
    ReachableByElements(peers, sorted, net, p);
    ReachableByElements(sorted, peers, net, p);
  }

  lemma AssignedAreReachable(sorted: seq<Peer>, net: Prefix, p: Prefix)
    ensures p in Wanted(Assign(sorted, net)) <==> Reachable(sorted, net, p)
  {
    var out := Assign(sorted, net);
    WantedIsExact(out, p);
    EachNetworkHasOneRouter(sorted, net, p);
    forall i | 0 <= i < |sorted| ensures out[i].overlayAddr == sorted[i].overlayAddr {
      FirstAdvertiserKeeps(sorted, net, i, p);
    }
    if i :| 0 <= i < |sorted| && p == HostPrefix(sorted[i].overlayAddr) {
      assert p in PeerPrefixes(out[i]);
    }
    if i :| 0 <= i < |sorted| && p in out[i].allowed {
      assert p in PeerPrefixes(out[i]);
    }
  }

  lemma ReachableByElements(a: seq<Peer>, b: seq<Peer>, net: Prefix, p: Prefix)
    requires forall n :: n in a ==> n in b
    ensures Reachable(a, net, p) ==> Reachable(b, net, p)
  {
    OfferedByElements(a, b, net, p);
    if i :| 0 <= i < |a| && p == HostPrefix(a[i].overlayAddr) {
      assert a[i] in a;
      var j :| 0 <= j < |b| && b[j] == a[i];
    }
  }

  lemma SameElements(a: seq<Peer>, b: seq<Peer>)
    requires multiset(a) == multiset(b)
    ensures forall n :: n in a ==> n in b
  {
    forall n | n in a ensures n in b {
      assert n in multiset(a);
    }
  }

  lemma OfferedByElements(a: seq<Peer>, b: seq<Peer>, net: Prefix, p: Prefix)
    requires forall n :: n in a ==> n in b
    ensures Offered(a, net, p) ==> Offered(b, net, p)
  {
    if i :| 0 <= i < |a| && p in a[i].allowed {
      assert a[i] in a;
      var j :| 0 <= j < |b| && b[j] == a[i];
    }
  }
}
