/** Runs of the network: where addresses come to be shared or kept for ever, and where an error is met. */
module DhcpRuns {
  import opened Options
  import opened DhcpMessages
  import opened ClientSteps
  import opened DhcpServers
  import opened DhcpNetwork

  /** There is a run from the one state to the other. */
  ghost predicate Reaches(cfg: Config, s0: System, s: System) {
    exists states :: Run(cfg, states) && states[0] == s0 && states[|states| - 1] == s
  }

  lemma ReachesItself(cfg: Config, s: System)
    requires Initial(s)
    ensures Reaches(cfg, s, s)
  {
    var states := [s];
    assert Run(cfg, states) && states[0] == s && states[|states| - 1] == s;
  }

  lemma ReachesNext(cfg: Config, s0: System, s: System, s': System)
    requires Reaches(cfg, s0, s) && Steps(cfg, s, s')
    ensures Reaches(cfg, s0, s')
  {
    hide Steps, Initial;
    var states :| Run(cfg, states) && states[0] == s0 && states[|states| - 1] == s;
    var longer := states + [s'];
    assert Run(cfg, longer) && longer[0] == s0 && longer[|longer| - 1] == s';
  }

  lemma ReachesInv(cfg: Config, s0: System, s: System)
    requires ConfigOk(cfg) && Reaches(cfg, s0, s)
    ensures Inv(cfg, s) && SameClients(s0, s)
  {
    hide Run, Reaches, Inv;
    var states := RunTo(cfg, s0, s);
    RunInv(cfg, states, |states| - 1);
    RunSameClients(cfg, states, |states| - 1);
  }

  lemma RunTo(cfg: Config, s0: System, s: System) returns (states: seq<System>)
    requires Reaches(cfg, s0, s)
    ensures states != [] && Run(cfg, states) && states[0] == s0 && states[|states| - 1] == s
  {
    states :| Run(cfg, states) && states[0] == s0 && states[|states| - 1] == s;
  }

  lemma Passes(cfg: Config, s0: System, s: System, until: real) returns (s': System)
    requires Reaches(cfg, s0, s) && s.now <= until && NoneOverdue(s, until)
    ensures Reaches(cfg, s0, s') && s' == s.(now := until)
  {
    s' := s.(now := until);
    assert Next(cfg, s, TimePasses(until), s');
    ReachesNext(cfg, s0, s, s');
  }

  /** The state after an event at a client. */
  lemma Acts(cfg: Config, s0: System, s: System, n: Node, e: Event, xid: nat) returns (s': System)
    requires Reaches(cfg, s0, s) && Enabled(s, n, e, xid) && ClientStep(s.clients[n], e, xid, s.now).Ended?
    ensures Reaches(cfg, s0, s')
    ensures var o := ClientStep(s.clients[n], e, xid, s.now);
      s' == s.(clients := s.clients[n := o.c], net := s.net + (set m | m in o.sent), owner := s.owner[xid := o.c.mac])
  {
    hide ClientStep;
    var o := ClientStep(s.clients[n], e, xid, s.now);
    s' := s.(clients := s.clients[n := o.c], net := s.net + (set m | m in o.sent), owner := s.owner[xid := o.c.mac]);
    assert Next(cfg, s, ClientActs(n, e, xid), s');
    ReachesNext(cfg, s0, s, s');
  }

  lemma Serves(cfg: Config, s0: System, s: System, m: Message) returns (s': System)
    requires Reaches(cfg, s0, s) && m in s.net
    ensures Reaches(cfg, s0, s')
    ensures var a := ServerStep(cfg, s.table, m, s.now);
      s' == s.(table := a.table, net := if a.reply.Some? then s.net + {a.reply.value} else s.net)
  {
    hide ServerStep;
    var a := ServerStep(cfg, s.table, m, s.now);
    s' := s.(table := a.table, net := if a.reply.Some? then s.net + {a.reply.value} else s.net);
    assert Next(cfg, s, ServerReceives(m), s');
    ReachesNext(cfg, s0, s, s');
  }

  /** A transaction id that has not been drawn. */
  lemma NewXid(s: System) returns (xid: nat)
    ensures xid > 0 && forall x :: x in s.owner ==> x < xid
  {
    xid := AboveAll(s.owner.Keys);
  }

  lemma {:induction false} AboveAll(used: set<nat>) returns (b: nat)
    ensures b > 0 && forall x :: x in used ==> x < b
  {
    if used == {} {
      b := 1;
    } else {
      var x :| x in used;
      b := AboveAll(used - {x});
      if b <= x { b := x + 1; }
      assert forall y :: y in used ==> y == x || y in used - {x};
    }
  }

  // ----- Clients with the same hardware address -----

  /** The client with its node down and nothing done. */
  ghost function Down(c: Client): Client {
    NewClient(c.hardware, c.startTime, false, 0.0).(mac := c.mac)
  }

  /** Those of the clients whose nodes have gone down, the others as they were. */
  ghost function DownBut(clients: map<Node, Client>, up: set<Node>): map<Node, Client> {
    map n | n in clients :: if n in up then clients[n] else Down(clients[n])
  }

  /** All nodes go down. */
  lemma AllDown(cfg: Config, s0: System) returns (s: System)
    requires Initial(s0)
    ensures Reaches(cfg, s0, s) && s.table == map[] && s.now == s0.now
    ensures s.clients == DownBut(s0.clients, {})
  {
    hide Reaches, Down;
    ReachesItself(cfg, s0);
    s := s0;
    var up := s0.clients.Keys;
    while up != {}
      invariant up <= s0.clients.Keys && Reaches(cfg, s0, s) && s.table == map[] && s.now == s0.now
      invariant s.clients == DownBut(s0.clients, up)
      decreases |up|
    {
      var n :| n in up;
      s := GoesDown(cfg, s0, s, n);
      up := up - {n};
    }
  }

  lemma GoesDown(cfg: Config, s0: System, s: System, n: Node) returns (s': System)
    requires Initial(s0) && Reaches(cfg, s0, s) && n in s0.clients && n in s.clients && s.clients[n] == s0.clients[n]
    ensures Reaches(cfg, s0, s') && s'.table == s.table && s'.now == s.now
    ensures s'.clients == s.clients[n := Down(s.clients[n])]
  {
    hide Reaches;
    s' := s;
    if s.clients[n].operational {
      var xid := NewXid(s);
      s' := Acts(cfg, s0, s, n, Stops, xid);
    }
  }

  /** A node that is down goes up, when the start time is past. */
  lemma GoesUp(cfg: Config, s0: System, s: System, n: Node) returns (s': System)
    requires Reaches(cfg, s0, s) && n in s.clients && !s.clients[n].operational && s.clients[n].startTime <= s.now
    ensures Reaches(cfg, s0, s') && s'.table == s.table && s'.now == s.now
    ensures s'.clients == s.clients[n := OnStart(s.clients[n], s.now)]
  {
    var xid := NewXid(s);
    s' := Acts(cfg, s0, s, n, Starts, xid);
  }

  /** A client whose start timer is due, with no lease. */
  ghost predicate Starting(c: Client, now: real) {
    c.operational && c.attached && !c.bound && c.lease == None && c.startTimer == Due(now)
  }

  /** A client that starts and is offered something binds it, all at the same time. */
  lemma Binds(cfg: Config, s0: System, s: System, n: Node) returns (s': System)
    requires ConfigOk(cfg) && Reaches(cfg, s0, s) && n in s.clients && Starting(s.clients[n], s.now)
    requires forall xid: nat :: ServerStep(cfg, s.table, DiscoverOf(s.clients[n].mac, xid), s.now).reply != None
    ensures Reaches(cfg, s0, s') && s'.now == s.now && n in s'.clients
    ensures s'.clients == s.clients[n := s'.clients[n]]
    ensures s'.clients[n].address != UNSPECIFIED
  {
    hide ServerStep, ClientStep, InitClient, Reaches, TableOk;
    var now, t, c := s.now, s.table, s.clients[n];
    var xid := NewXid(s);
    TableIsOk(cfg, s0, s);
    var ready := Ready(c);
    StartIsInit(c, xid, now);
    OfferedAddressIsBound(cfg, t, ready, xid, xid + 1, xid + 2, now);
    BoundStays(ready, xid, now);
    var s1 := Acts(cfg, s0, s, n, Expires(StartExpires), xid);
    var p := DiscoverOf(c.mac, xid);
    var s2 := Serves(cfg, s0, s1, p);
    var offer := ServerStep(cfg, t, p, now).reply.value;
    MessageLeavesBound(s2.clients[n], offer, xid + 1, now);
    var s3 := Acts(cfg, s0, s2, n, Arrives(offer), xid + 1);
    var r := ClientStep(s2.clients[n], Arrives(offer), xid + 1, now).sent[0];
    var s4 := Serves(cfg, s0, s3, r);
    s' := Acts(cfg, s0, s4, n, Arrives(ServerStep(cfg, s3.table, r, now).reply.value), xid + 2);
    TableIsOk(cfg, s0, s');
  }

  function Ready(c: Client): Client {
    Fired(c, StartExpires).(socketReady := true, bound := true, state := Init)
  }

  lemma TableIsOk(cfg: Config, s0: System, s: System)
    requires ConfigOk(cfg) && Reaches(cfg, s0, s)
    ensures TableOk(s.table) && NoUnspecified(s.table)
  {
    hide Reaches, TableOk;
    ReachesInv(cfg, s0, s);
  }

  lemma StartIsInit(c: Client, xid: nat, now: real)
    requires Starting(c, now)
    ensures ClientStep(c, Expires(StartExpires), xid, now) == InitClient(Ready(c), xid, now)
  {
  }

  lemma BoundStays(c: Client, xid: nat, now: real)
    ensures InitClient(c, xid, now).Ended? ==> InitClient(c, xid, now).c.bound == c.bound
  {
  }

  lemma MessageLeavesBound(c: Client, m: Message, xid: nat, now: real)
    ensures var o := ClientStep(c, Arrives(m), xid, now); o.Ended? ==> o.c.bound == c.bound
  {
  }

  /**
   * Two clients with the same hardware address come to share a network address: with all others down they start
   * at the same time, and the server has one address for both.
   */
  lemma EqualMacsShare(cfg: Config, s0: System, n: Node, n': Node) returns (s: System)
    requires ConfigOk(cfg) && cfg.maxClients > 0 && Initial(s0)
    requires n in s0.clients && n' in s0.clients && n != n' && s0.clients[n].mac == s0.clients[n'].mac
    ensures Reaches(cfg, s0, s) && s.clients.Keys == s0.clients.Keys
    ensures s.clients[n].address == s.clients[n'].address != UNSPECIFIED
  {
    hide Reaches, ServerStep, TableOk;
    s := AllDown(cfg, s0);
    var c, c' := s0.clients[n], s0.clients[n'];
    var start := Later(s.now, Later(c.startTime, c'.startTime));
    s := Passes(cfg, s0, s, start);
    s := GoesUp(cfg, s0, s, n);
    s := GoesUp(cfg, s0, s, n');
    EmptyTableOffers(cfg, c.mac, s.now);
    s := Binds(cfg, s0, s, n);
    var ip := s.clients[n].address;
    HeldIsOwned(cfg, s0, s, n);
    forall xid: nat ensures ServerStep(cfg, s.table, DiscoverOf(c.mac, xid), s.now).reply != None {
      KnownClientKeepsAddress(cfg, s.table, DiscoverOf(c.mac, xid), s.now, ip);
    }
    s := Binds(cfg, s0, s, n');
    HeldIsOwned(cfg, s0, s, n);
    HeldIsOwned(cfg, s0, s, n');
    OneAddressEach(s.table, c.mac, ip, s.clients[n'].address);
    ReachesInv(cfg, s0, s);
  }

  function Later(a: real, b: real): real {
    if a < b then b else a
  }

  lemma EmptyTableOffers(cfg: Config, mac: Mac, now: real)
    requires cfg.maxClients > 0
    ensures forall xid: nat :: ServerStep(cfg, map[], DiscoverOf(mac, xid), now).reply != None
  {
    var t: Table := map[];
    assert LeaseByMac(t, mac) == None && PoolAddress(cfg, 0) !in t;
    forall xid: nat ensures ServerStep(cfg, t, DiscoverOf(mac, xid), now).reply != None {
      OfferUnlessExhausted(cfg, t, DiscoverOf(mac, xid), now);
    }
  }

  lemma HeldIsOwned(cfg: Config, s0: System, s: System, n: Node)
    requires ConfigOk(cfg) && Reaches(cfg, s0, s) && n in s.clients
    ensures TableOk(s.table) && n in s0.clients && s.clients[n].mac == s0.clients[n].mac
    ensures s.clients[n].address != UNSPECIFIED ==> Owns(s.table, s.clients[n].mac, s.clients[n].address)
  {
    hide Reaches, TableOk, ClientOk;
    ReachesInv(cfg, s0, s);
  }

  lemma OneAddressEach(t: Table, mac: Mac, ip: Address, ip': Address)
    requires TableOk(t) && Owns(t, mac, ip) && Owns(t, mac, ip')
    ensures ip == ip'
  {
  }

  // ----- When addresses are unique -----

  /** From an empty pool no address is ever given. */
  lemma {:induction false} EmptyPoolEmptyTable(cfg: Config, states: seq<System>, i: nat)
    requires ConfigOk(cfg) && cfg.maxClients == 0 && Run(cfg, states) && i < |states|
    ensures states[i].table == map[]
  {
    hide Next, Inv;
    if i > 0 {
      EmptyPoolEmptyTable(cfg, states, i - 1);
      RunInv(cfg, states, i - 1);
      assert Steps(cfg, states[i - 1], states[i - 1 + 1]);
      var a :| Next(cfg, states[i - 1], a, states[i]);
      EmptyPoolStep(cfg, states[i - 1], a, states[i]);
    }
  }

  lemma EmptyPoolStep(cfg: Config, s: System, a: Action, s': System)
    requires cfg.maxClients == 0 && Inv(cfg, s) && s.table == map[] && Next(cfg, s, a, s')
    ensures s'.table == map[]
  {
    hide ClientStep, TableOk, ClientOk;
    if a.ServerReceives? {
      assert MessageOk(cfg, s.table, s.owner, a.m);
      assert LeaseByMac(map[], a.m.chaddr) == None;
      ScanFinds(cfg, map[], 0);
    }
  }

  /**
   * No two clients ever share an address, whatever is lost, repeated, reordered, crashed or restarted, if and only
   * if at the start no two have taken down the same hardware address, or the pool is empty.
   */
  lemma UniqueIffDistinctMacs(cfg: Config, s0: System)
    requires ConfigOk(cfg) && Initial(s0)
    ensures (forall s :: Reaches(cfg, s0, s) ==> Unique(s)) <==> DistinctMacs(s0) || cfg.maxClients == 0
  {
    hide Initial, Unique;
    if DistinctMacs(s0) || cfg.maxClients == 0 {
      forall s | Reaches(cfg, s0, s) ensures Unique(s) { UniqueWhen(cfg, s0, s); }
    } else {
      var n, n' :| n in s0.clients && n' in s0.clients && n != n' && s0.clients[n].mac == s0.clients[n'].mac;
      var s := EqualMacsShare(cfg, s0, n, n');
      SharedIsNotUnique(s, n, n');
    }
  }

  lemma SharedIsNotUnique(s: System, n: Node, n': Node)
    requires n in s.clients && n' in s.clients && n != n'
    requires s.clients[n].address == s.clients[n'].address != UNSPECIFIED
    ensures !Unique(s)
  {
    assert !Apart(s.clients[n], s.clients[n']);
  }

  lemma UniqueWhen(cfg: Config, s0: System, s: System)
    requires ConfigOk(cfg) && Reaches(cfg, s0, s) && (DistinctMacs(s0) || cfg.maxClients == 0)
    ensures Unique(s)
  {
    hide Run, Reaches, ClientOk;
    var states := RunTo(cfg, s0, s);
    var i := |states| - 1;
    RunSameClients(cfg, states, i);
    if cfg.maxClients == 0 {
      EmptyPoolEmptyTable(cfg, states, i);
      RunInv(cfg, states, i);
    } else {
      forall n, n' | n in s.clients && n' in s.clients && n != n' ensures Apart(s.clients[n], s.clients[n']) {
        AddressesAreUnique(cfg, states, i, n, n');
      }
    }
  }

  /** With hardware addresses that are set and all different, this means that at most one node is down at the start. */
  lemma DistinctIffOneDown(s0: System)
    requires Initial(s0)
    requires forall n :: n in s0.clients ==> s0.clients[n].hardware != NO_MAC
    requires forall n, n' :: n in s0.clients && n' in s0.clients && n != n' ==>
      s0.clients[n].hardware != s0.clients[n'].hardware
    ensures DistinctMacs(s0) <==> forall n, n' :: n in s0.clients && n' in s0.clients && n != n' ==>
      s0.clients[n].operational || s0.clients[n'].operational
  {
    assert forall n :: n in s0.clients ==>
      s0.clients[n].mac == if s0.clients[n].operational then s0.clients[n].hardware else NO_MAC;
  }

  /** Two clients with different interfaces, both down at the start, end with the same address configured. */
  lemma TwoDownShare() returns (s0: System, s: System)
    ensures ConfigOk(RunConfig()) && Reaches(RunConfig(), s0, s)
    ensures s0.clients == map[1 := NewClient(5, 0.0, false, 0.0), 2 := NewClient(6, 0.0, false, 0.0)]
    ensures s.clients.Keys == {1, 2} && s.clients[1].address == s.clients[2].address != UNSPECIFIED
  {
    hide Reaches;
    s0 := System(map[], map[1 := NewClient(5, 0.0, false, 0.0), 2 := NewClient(6, 0.0, false, 0.0)], {}, map[], 0.0);
    s := EqualMacsShare(RunConfig(), s0, 1, 2);
  }

  // ----- An association before the start timer -----

  /** An association reported before the start timer, in a state where it is an error. */
  lemma AssociatedTooEarly() returns (s: System)
    ensures Initial(s) && Enabled(s, 5, Associated, 1)
    ensures ClientStep(s.clients[5], Associated, 1, s.now) == Threw(SocketNotReady)
  {
    s := System(map[], map[5 := NewClient(5, 10.0, true, 0.0)], {}, map[], 0.0);
  }

  // ----- A run in which an address is forgotten -----

  function RunConfig(): Config {
    Config(1, 0, 1, 10, 1, 1000)
  }

  function RunLease(): Lease {
    Lease(10, 5, 1, 1, 0, 0.0, true)
  }

  function RunAck(): Message {
    Message(BootReply, Ack, 2, 10, 10, 5, UNSPECIFIED, 1, 1000.0, 500.0, 875.0)
  }

  /** The client of the run: started, looking for an offer, waiting for its acknowledgement, bound, renewing. */
  function Started(): Client {
    NewClient(5, 0.0, true, 0.0)
  }

  function Seeking(): Client {
    Started().(socketReady := true, bound := true, state := Selecting, xid := 1, to := Due(60.0), startTimer := Off)
  }

  function Waiting(): Client {
    Seeking().(state := Requesting, xid := 2, lease := Some(ClientLease(10, 5, 1, 0.0, 0.0, 0.0)), toKind := WaitAck)
  }

  function Configured(): Client {
    Waiting().(state := Bound, lease := Some(ClientLease(10, 5, 1, 1000.0, 500.0, 875.0)), address := 10,
               to := Off, t1 := Due(500.0), t2 := Due(875.0), leaseTimer := Due(1000.0))
  }

  function Extending(): Client {
    Configured().(state := Renewing, xid := 4, t1 := Off, to := Due(560.0))
  }

  function FirstState(): System {
    System(map[], map[5 := Started()], {}, map[], 0.0)
  }

  /** The first half of the run: a discover, its offer, the request and its acknowledgement. */
  lemma UpToAck() returns (s: System)
    ensures Reaches(RunConfig(), FirstState(), s)
    ensures s.now == 0.0 && s.clients == map[5 := Waiting()] && RunAck() in s.net && s.owner == map[1 := 5, 2 := 5]
  {
    hide ServerStep, ClientStep, Reaches;
    ReachesItself(RunConfig(), FirstState());
    s := FirstState();
    s := Discovering(s);
    s := Offered10(s);
    s := Requested(s);
    s := Acknowledged(s);
  }

  lemma Discovering(s: System) returns (s': System)
    requires s == FirstState() && Reaches(RunConfig(), FirstState(), s)
    ensures Reaches(RunConfig(), FirstState(), s')
    ensures s' == System(map[], map[5 := Seeking()], {DiscoverOf(5, 1)}, map[1 := 5], 0.0)
  {
    hide Reaches;
    s' := Acts(RunConfig(), FirstState(), s, 5, Expires(StartExpires), 1);
    assert s'.net == {DiscoverOf(5, 1)};
  }

  lemma Offered10(s: System) returns (s': System)
    requires s == System(map[], map[5 := Seeking()], {DiscoverOf(5, 1)}, map[1 := 5], 0.0)
    requires Reaches(RunConfig(), FirstState(), s)
    ensures Reaches(RunConfig(), FirstState(), s')
    ensures s'.table == map[10 := RunLease()] && OfferOf(RunConfig(), RunLease()) in s'.net
    ensures s'.clients == s.clients && s'.owner == s.owner && s'.now == 0.0
  {
    hide Reaches;
    s' := Serves(RunConfig(), FirstState(), s, DiscoverOf(5, 1));
    assert LeaseByMac(s.table, 5) == None;
    assert PoolAddress(RunConfig(), 0) == 10;
    assert AvailableLease(RunConfig(), s.table, UNSPECIFIED).ip == Some(10);
  }

  lemma Requested(s: System) returns (s': System)
    requires OfferOf(RunConfig(), RunLease()) in s.net && s.now == 0.0 && s.owner == map[1 := 5]
    requires s.clients == map[5 := Seeking()] && Reaches(RunConfig(), FirstState(), s)
    ensures Reaches(RunConfig(), FirstState(), s')
    ensures s'.table == s.table && RequestOf(5, 2, UNSPECIFIED, 10, 1) in s'.net
    ensures s'.clients == map[5 := Waiting()] && s'.owner == map[1 := 5, 2 := 5] && s'.now == 0.0
  {
    hide Reaches;
    s' := Acts(RunConfig(), FirstState(), s, 5, Arrives(OfferOf(RunConfig(), RunLease())), 2);
  }

  lemma Acknowledged(s: System) returns (s': System)
    requires RequestOf(5, 2, UNSPECIFIED, 10, 1) in s.net && s.table == map[10 := RunLease()]
    requires Reaches(RunConfig(), FirstState(), s)
    ensures Reaches(RunConfig(), FirstState(), s')
    ensures RunAck() in s'.net && s'.clients == s.clients && s'.owner == s.owner && s'.now == s.now
  {
    hide Reaches;
    s' := Serves(RunConfig(), FirstState(), s, RequestOf(5, 2, UNSPECIFIED, 10, 1));
    assert 10 in Holders(s.table, 5);
    assert LeaseByMac(s.table, 5) == Some(10);
  }

  /** The acknowledgement arrives, and half of the lease time later T1 expires. */
  lemma UpToRenewal() returns (s: System)
    ensures Reaches(RunConfig(), FirstState(), s)
    ensures s.now == 500.0 && s.clients == map[5 := Extending()] && 5 !in s.owner
  {
    hide Reaches;
    s := UpToAck();
    s := Acts(RunConfig(), FirstState(), s, 5, Arrives(RunAck()), 3);
    assert s.clients == map[5 := Configured()];
    s := Passes(RunConfig(), FirstState(), s, 500.0);
    s := Acts(RunConfig(), FirstState(), s, 5, Expires(T1Expires), 4);
    assert s.clients == map[5 := Extending()];
  }

  /**
   * A client that is bound, renews, and gets no answer: the response timeout starts it anew with the old address
   * configured and no lease timer.
   */
  lemma AddressOutlivesTimer() returns (s: System)
    ensures ConfigOk(RunConfig()) && Reaches(RunConfig(), FirstState(), s)
    ensures 5 in s.clients
    ensures s.clients[5].address == 10 && s.clients[5].leaseTimer == Off && s.clients[5].state == Selecting
  {
    hide Reaches;
    s := UpToRenewal();
    s := Passes(RunConfig(), FirstState(), s, 560.0);
    s := Acts(RunConfig(), FirstState(), s, 5, Expires(TimeoutExpires), 5);
  }
}
