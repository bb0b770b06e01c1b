/** One server and any number of clients on a network that loses, repeats and reorders messages. */
module DhcpNetwork {
  import opened Options
  import opened DhcpMessages
  import opened ClientSteps
  import opened DhcpServers

  // ----- What one client keeps -----

  /** T1 runs only while the client is bound, and T2 only while it renews or behind an earlier T1. */
  ghost predicate TimerDiscipline(c: Client) {
    (c.t1.Due? ==> c.state == Bound)
    && (c.t2.Due? ==> c.state == Renewing || (c.state == Bound && c.t1.Due? && c.t1.at < c.t2.at))
  }

  /** A lease, with an address, is known wherever a request could be sent or a timer leading to one could expire. */
  ghost predicate LeaseKnown(c: Client) {
    (c.state in {Requesting, Bound, Renewing, Rebinding, Rebooting} ==> c.lease != None)
    && (c.t1.Due? || c.t2.Due? || c.leaseTimer.Due? ==> c.lease != None)
    && (c.lease != None ==> c.lease.value.ip != UNSPECIFIED)
  }

  /** The lease timer runs only over a configured address, and exactly in these two states when there is one. */
  ghost predicate LeaseTimerDiscipline(c: Client) {
    (c.leaseTimer.Due? ==> c.address != UNSPECIFIED)
    && (c.address != UNSPECIFIED ==> (c.leaseTimer.Due? <==> c.state in {Bound, Renewing}))
    && (c.state == Rebooting ==> c.address == UNSPECIFIED) && (c.state == Bound ==> c.to == Off)
  }

  /** Before its first start timer a client has done nothing; after it the start time is past. */
  ghost predicate StartDiscipline(c: Client, now: real) {
    (c.socketReady ==> c.startTime <= now && c.state in {Rebooting, Selecting, Requesting, Bound, Renewing, Rebinding})
    && (!c.socketReady ==> Untouched(c))
    && (c.startTimer.Due? ==> !c.bound && c.startTime <= c.startTimer.at && c.address == UNSPECIFIED)
    && (c.startTimer.Due? ==> c.t1 == c.t2 == c.leaseTimer == Off)
    && (c.startTimer.Due? && c.socketReady ==> c.startTimer.at <= now)
  }

  ghost predicate Untouched(c: Client) {
    c.state == Idle && c.xid == 0 && c.lease == None && c.address == UNSPECIFIED
    && c.t1 == c.t2 == c.to == c.leaseTimer == Off
  }

  /** A node that is down has no interface, no bound socket and no timers. */
  ghost predicate NodeDiscipline(c: Client) {
    c.operational == c.attached && (c.bound ==> c.operational && c.socketReady)
    && (!c.operational ==> c.t1 == c.t2 == c.to == c.leaseTimer == c.startTimer == Off && c.address == UNSPECIFIED)
  }

  /** A client whose node is up waits for something: its start, the time to renew, or an answer. */
  ghost predicate Waits(c: Client) {
    c.operational ==>
      if !c.bound then c.startTimer.Due? else if c.state == Bound then c.t1.Due? else c.to.Due?
  }

  /** No timer is overdue. */
  ghost predicate OnTime(c: Client, now: real) {
    Ahead(c.t1, now) && Ahead(c.t2, now) && Ahead(c.to, now) && Ahead(c.leaseTimer, now) && Ahead(c.startTimer, now)
  }

  ghost predicate Ahead(t: Timer, now: real) {
    t.Due? ==> now <= t.at
  }

  ghost predicate ClientOk(c: Client, now: real) {
    TimerDiscipline(c) && LeaseKnown(c) && LeaseTimerDiscipline(c)
    && StartDiscipline(c, now) && NodeDiscipline(c) && Waits(c) && OnTime(c, now)
  }

  /** Offers and acknowledgements carry an address, and the latter times that lie in order. */
  ghost predicate ReplyOk(m: Message) {
    m.op == BootReply ==>
      (m.kind == Offer ==> m.yiaddr != UNSPECIFIED)
      && (m.kind == Ack ==> m.yiaddr != UNSPECIFIED && 0.0 < m.renewalTime < m.rebindingTime <= m.leaseTime)
  }

  /** What can happen to a client now: a timer expires when it is due, and messages come through the bound socket. */
  ghost predicate CanHappen(c: Client, e: Event, now: real) {
    match e
    case Expires(t) => TimerOf(c, t) == Due(now)
    case Arrives(m) => c.bound && ReplyOk(m) && (m.op == BootReply && m.xid == c.xid ==> c.xid != 0)
    case Associated => true
    case Starts => !c.operational
    case Stops => c.operational
  }

  /** An association that is reported before the start timer has opened the socket. */
  ghost predicate TooEarly(c: Client, e: Event) {
    e == Associated && c.attached && !c.socketReady
  }

  lemma InitClientKeeps(c: Client, xid: nat, now: real)
    requires c.socketReady && c.startTime <= now && c.operational == c.attached == true
    requires c.bound || c.startTimer.Due?
    requires c.startTimer.Due? ==> c.startTimer.at == now && !c.bound && c.address == UNSPECIFIED
    requires c.lease != None ==> c.lease.value.ip != UNSPECIFIED
    ensures var o := InitClient(c, xid, now); o.Ended? && ClientOk(o.c, now)
  {
  }

  lemma TimerKeeps(c: Client, t: Expiry, xid: nat, now: real)
    requires ClientOk(c, now) && TimerOf(c, t) == Due(now)
    ensures var o := OnTimer(Fired(c, t), t, xid, now); o.Ended? && ClientOk(o.c, now)
  {
    var f := Fired(c, t);
    match t
    case StartExpires =>
      if c.lease == None { InitClientKeeps(f.(socketReady := true, bound := true, state := Init), xid, now); }
    case TimeoutExpires =>
      InitClientKeeps(f, xid, now);
    case T1Expires =>
    case T2Expires =>
    case LeaseExpires =>
      InitClientKeeps(UnboundLease(f).(state := Init), xid, now);
  }

  lemma MessageKeeps(c: Client, m: Message, xid: nat, now: real)
    requires ClientOk(c, now) && CanHappen(c, Arrives(m), now) && c.operational
    ensures var o := OnMessage(c, m, xid, now); o.Ended? && ClientOk(o.c, now)
  {
    hide ClientOk, OnAck, OnOffer, InitClient;
    if m.op == BootReply && m.xid == c.xid {
      IsReady(c, m, now);
      if m.kind == Ack && c.lease != None { AckKeeps(c, m, now); }
      if m.kind == Offer { OfferKeeps(c, m, xid, now); }
      InitClientKeeps(c, xid, now);
      InitClientKeeps(UnboundLease(c), xid, now);
    }
  }

  lemma IsReady(c: Client, m: Message, now: real)
    requires ClientOk(c, now) && CanHappen(c, Arrives(m), now) && c.operational
    ensures m.op == BootReply && m.xid == c.xid ==>
      c.socketReady && c.attached && c.startTime <= now && c.state !in {Idle, Init, InitReboot}
    ensures c.startTimer == Off
    ensures c.state in {Requesting, Bound, Renewing, Rebinding, Rebooting} ==> c.lease != None
    ensures c.lease != None ==> c.lease.value.ip != UNSPECIFIED
  {
  }

  lemma AckKeeps(c: Client, m: Message, now: real)
    requires ClientOk(c, now) && ReplyOk(m) && m.op == BootReply && m.kind == Ack
    requires c.bound && c.lease != None
    ensures var o := OnAck(c, m, now); o.Ended? && ClientOk(o.c, now)
  {
  }

  lemma OfferKeeps(c: Client, m: Message, xid: nat, now: real)
    requires ClientOk(c, now) && ReplyOk(m) && m.op == BootReply && m.kind == Offer
    requires c.bound
    ensures c.state == Selecting ==> var o := OnOffer(c, m, xid, now); o.Ended? && ClientOk(o.c, now)
  {
  }

  /**
   * Every event leaves the client in order, and the only error it can meet is that of an association reported
   * before the start: T2 never expires in a wrong state, no request is sent in an invalid state or without a lease.
   */
  lemma StepKeeps(c: Client, e: Event, xid: nat, now: real)
    requires ClientOk(c, now) && CanHappen(c, e, now)
    ensures var o := ClientStep(c, e, xid, now);
      if TooEarly(c, e) then o == Threw(SocketNotReady) else o.Ended? && ClientOk(o.c, now)
  {
    match e
    case Expires(t) => TimerKeeps(c, t, xid, now);
    case Arrives(m) => if c.operational { MessageKeeps(c, m, xid, now); }
    case Associated => if c.attached && c.socketReady { InitClientKeeps(c, xid, now); }
    case Starts =>
    case Stops =>
  }

  // ----- The whole network -----

  /** A node of the network that runs a client. */
  type Node = nat

  /** `owner` records, for every transaction id used so far, the hardware address that the client drew it under. */
  datatype System = System(
    table: Table,
    clients: map<Node, Client>,
    net: set<Message>,
    owner: map<nat, Mac>,
    now: real)

  datatype Action = ServerReceives(m: Message) | ClientActs(n: Node, e: Event, xid: nat) | TimePasses(until: real)

  /** A running server with a positive lease time, an address of its own, and a pool without the unspecified address. */
  predicate ConfigOk(cfg: Config) {
    PoolOk(cfg) && cfg.leaseTime > 0 && cfg.serverIp != UNSPECIFIED
  }

  /** At the start the table and the network are empty, and each client has been initialized, its node up or down. */
  ghost predicate Initial(s: System) {
    s.table == map[] && s.net == {} && s.owner == map[] && s.now >= 0.0
    && forall n :: n in s.clients ==>
      var c := s.clients[n]; c == NewClient(c.hardware, c.startTime, c.operational, s.now)
  }

  ghost predicate NoneOverdue(s: System, until: real) {
    forall n :: n in s.clients ==> OnTime(s.clients[n], until)
  }

  /** Whether an event can befall a client; a message must have been sent at some time, and UDP needs a bound socket. */
  ghost predicate Enabled(s: System, n: Node, e: Event, xid: nat) {
    n in s.clients && xid != 0 && xid !in s.owner
    && match e
      case Expires(t) => TimerOf(s.clients[n], t) == Due(s.now)
      case Arrives(m) => m in s.net && s.clients[n].bound
      case Associated => true
      case Starts => !s.clients[n].operational
      case Stops => s.clients[n].operational
  }

  /** One step: the server or a client takes a message, which stays in the network, or something else happens. */
  ghost predicate Next(cfg: Config, s: System, a: Action, s': System) {
    match a
    case ServerReceives(m) =>
      m in s.net
      && var answer := ServerStep(cfg, s.table, m, s.now);
      s' == s.(table := answer.table, net := if answer.reply.Some? then s.net + {answer.reply.value} else s.net)
    case ClientActs(n, e, xid) =>
      Enabled(s, n, e, xid)
      && var o := ClientStep(s.clients[n], e, xid, s.now);
      o.Ended?
      && s' == s.(clients := s.clients[n := o.c], net := s.net + (set m | m in o.sent),
                  owner := s.owner[xid := o.c.mac])
    case TimePasses(until) =>
      s.now <= until && NoneOverdue(s, until) && s' == s.(now := until)
  }

  ghost predicate Steps(cfg: Config, s: System, s': System) {
    exists a :: Next(cfg, s, a, s')
  }

  ghost predicate Run(cfg: Config, states: seq<System>) {
    states != [] && Initial(states[0])
    && forall i :: 0 <= i < |states| - 1 ==> Steps(cfg, states[i], states[i + 1])
  }

  // ----- What every step of the network keeps -----

  ghost predicate Owns(t: Table, mac: Mac, ip: Address) {
    ip in t && t[ip].mac == mac
  }

  /** A request is its sender's own, a discover asks for nothing, and an offer is true and goes to the one who asked. */
  ghost predicate MessageOk(cfg: Config, t: Table, owner: map<nat, Mac>, m: Message) {
    ReplyOk(m) && m.xid in owner
    && (m.op == BootRequest ==> owner[m.xid] == m.chaddr)
    && (m.op == BootRequest && m.kind == Discover ==> m.requestedIp == UNSPECIFIED)
    && (m.op == BootReply && m.kind == Offer ==> owner[m.xid] == m.chaddr && Owns(t, m.chaddr, m.yiaddr))
  }

  /** What a client has recorded and configured is its own. */
  ghost predicate Holds(t: Table, owner: map<nat, Mac>, c: Client) {
    (c.xid != 0 ==> c.xid in owner && owner[c.xid] == c.mac)
    && (c.lease != None ==> Owns(t, c.mac, c.lease.value.ip))
    && (c.address != UNSPECIFIED ==> Owns(t, c.mac, c.address))
  }

  ghost predicate NetOk(cfg: Config, s: System) {
    forall m :: m in s.net ==> MessageOk(cfg, s.table, s.owner, m)
  }

  ghost predicate ClientsOk(s: System) {
    forall n :: n in s.clients ==> ClientOk(s.clients[n], s.now) && Holds(s.table, s.owner, s.clients[n])
  }

  ghost predicate Inv(cfg: Config, s: System) {
    TableOk(s.table) && NoUnspecified(s.table) && 0 !in s.owner && NetOk(cfg, s) && ClientsOk(s)
  }

  lemma InitialInv(cfg: Config, s: System)
    requires Initial(s)
    ensures Inv(cfg, s)
  {
  }

  lemma ServerKeepsInv(cfg: Config, s: System, m: Message, s': System)
    requires ConfigOk(cfg) && Inv(cfg, s) && Next(cfg, s, ServerReceives(m), s')
    ensures Inv(cfg, s')
  {
    hide ServerStep, TableOk, ClientOk;
    TableStaysOk(cfg, s.table, m, s.now);
    NoUnspecifiedKept(cfg, s.table, m, s.now);
    OwnersKeptUnlessStolen(cfg, s.table, m, s.now);
    RepliesAreTrue(cfg, s.table, m, s.now);
  }

  /** A request or discover of the client's own, under the transaction id just drawn. */
  ghost predicate OwnRequest(c: Client, xid: nat, m: Message) {
    m.op == BootRequest && m.chaddr == c.mac && m.xid == xid && (m.kind == Discover ==> m.requestedIp == UNSPECIFIED)
  }

  /** What a step may change: the recorded address only by an offer, the configured one only to the recorded one. */
  ghost predicate Shape(c: Client, e: Event, xid: nat, o: Outcome) {
    o.Ended? ==>
      (forall m :: m in o.sent ==> OwnRequest(c, xid, m))
      && o.c.mac == c.mac && (o.c.xid == c.xid || o.c.xid == xid)
      && (o.c.lease != None ==> (c.lease != None && o.c.lease.value.ip == c.lease.value.ip)
                                || (Offered(c, e) && o.c.lease.value.ip == e.m.yiaddr))
      && (o.c.address == UNSPECIFIED || o.c.address == c.address
          || (o.c.lease != None && o.c.address == o.c.lease.value.ip))
  }

  ghost predicate Offered(c: Client, e: Event) {
    e.Arrives? && e.m.op == BootReply && e.m.kind == Offer && e.m.xid == c.xid
  }

  lemma InitShape(c: Client, c0: Client, e: Event, xid: nat, now: real)
    requires c.mac == c0.mac && c.xid == c0.xid && c.lease == c0.lease
      && (c.address == c0.address || c.address == UNSPECIFIED)
    ensures Shape(c0, e, xid, InitClient(c, xid, now))
  {
  }

  lemma AckShape(c: Client, m: Message, xid: nat, now: real)
    ensures Shape(c, Arrives(m), xid, OnAck(c, m, now))
  {
  }

  lemma OfferShape(c: Client, m: Message, xid: nat, now: real)
    requires m.op == BootReply && m.kind == Offer && m.xid == c.xid
    ensures Shape(c, Arrives(m), xid, OnOffer(c, m, xid, now))
  {
  }

  lemma MessageShape(c: Client, m: Message, xid: nat, now: real)
    ensures Shape(c, Arrives(m), xid, OnMessage(c, m, xid, now))
  {
    hide InitClient, OnAck, OnOffer;
    if m.op == BootReply && m.xid == c.xid {
      AckShape(c, m, xid, now);
      if m.kind == Offer { OfferShape(c, m, xid, now); }
      InitShape(c, c, Arrives(m), xid, now);
      InitShape(UnboundLease(c), c, Arrives(m), xid, now);
    }
  }

  lemma TimerShape(c: Client, t: Expiry, xid: nat, now: real)
    ensures Shape(c, Expires(t), xid, OnTimer(Fired(c, t), t, xid, now))
  {
    hide InitClient;
    var f := Fired(c, t);
    match t
    case StartExpires => InitShape(f.(socketReady := true, bound := true, state := Init), c, Expires(t), xid, now);
    case TimeoutExpires => InitShape(f, c, Expires(t), xid, now);
    case T1Expires =>
    case T2Expires =>
    case LeaseExpires => InitShape(UnboundLease(f).(state := Init), c, Expires(t), xid, now);
  }

  lemma StepShape(c: Client, e: Event, xid: nat, now: real)
    ensures Shape(c, e, xid, ClientStep(c, e, xid, now))
  {
    match e
    case Expires(t) => TimerShape(c, t, xid, now);
    case Arrives(m) => MessageShape(c, m, xid, now);
    case Associated => InitShape(c, c, e, xid, now);
    case Starts =>
    case Stops =>
  }

  /** A client's step sends only what is its own, and records and configures only what it owns. */
  lemma StepHolds(cfg: Config, t: Table, owner: map<nat, Mac>, c: Client, e: Event, xid: nat, o: Outcome)
    requires Holds(t, owner, c) && Shape(c, e, xid, o) && o.Ended?
    requires xid != 0 && xid !in owner && 0 !in owner
    requires e.Arrives? ==> MessageOk(cfg, t, owner, e.m)
    ensures Holds(t, owner[xid := c.mac], o.c)
    ensures forall m :: m in o.sent ==> MessageOk(cfg, t, owner[xid := c.mac], m)
  {
  }

  lemma ClientKeepsInv(cfg: Config, s: System, n: Node, e: Event, xid: nat, s': System)
    requires ConfigOk(cfg) && Inv(cfg, s) && Next(cfg, s, ClientActs(n, e, xid), s')
    ensures Inv(cfg, s')
  {
    hide ClientStep, TableOk, ClientOk;
    var c := s.clients[n];
    assert CanHappen(c, e, s.now);
    StepKeeps(c, e, xid, s.now);
    StepShape(c, e, xid, s.now);
    StepHolds(cfg, s.table, s.owner, c, e, xid, ClientStep(c, e, xid, s.now));
  }

  lemma TimeKeepsInv(cfg: Config, s: System, until: real, s': System)
    requires Inv(cfg, s) && Next(cfg, s, TimePasses(until), s')
    ensures Inv(cfg, s')
  {
  }

  lemma {:induction false} RunInv(cfg: Config, states: seq<System>, i: nat)
    requires ConfigOk(cfg) && Run(cfg, states) && i < |states|
    ensures Inv(cfg, states[i])
  {
    hide Next, Initial, Inv;
    if i == 0 {
      InitialInv(cfg, states[0]);
    } else {
      RunInv(cfg, states, i - 1);
      assert Steps(cfg, states[i - 1], states[i - 1 + 1]);
      var a :| Next(cfg, states[i - 1], a, states[i]);
      match a
      case ServerReceives(m) => ServerKeepsInv(cfg, states[i - 1], m, states[i]);
      case ClientActs(n, e, xid) => ClientKeepsInv(cfg, states[i - 1], n, e, xid, states[i]);
      case TimePasses(until) => TimeKeepsInv(cfg, states[i - 1], until, states[i]);
    }
  }

  // ----- The results -----

  /** The clients stay the same, and with them the hardware addresses they have taken down. */
  ghost predicate SameClients(s: System, s': System) {
    s'.clients.Keys == s.clients.Keys
    && forall n :: n in s.clients ==> s'.clients[n].mac == s.clients[n].mac
  }

  lemma NextSameClients(cfg: Config, s: System, a: Action, s': System)
    requires Next(cfg, s, a, s')
    ensures SameClients(s, s')
  {
    hide ClientStep, ServerStep;
    if a.ClientActs? { StepShape(s.clients[a.n], a.e, a.xid, s.now); }
  }

  lemma {:induction false} RunSameClients(cfg: Config, states: seq<System>, i: nat)
    requires Run(cfg, states) && i < |states|
    ensures SameClients(states[0], states[i])
  {
    hide Next;
    if i > 0 {
      RunSameClients(cfg, states, i - 1);
      assert Steps(cfg, states[i - 1], states[i - 1 + 1]);
      var a :| Next(cfg, states[i - 1], a, states[i]);
      NextSameClients(cfg, states[i - 1], a, states[i]);
    }
  }

  /** No two clients have recorded or configured the same address. */
  ghost predicate Unique(s: System) {
    forall n, n' :: n in s.clients && n' in s.clients && n != n' ==> Apart(s.clients[n], s.clients[n'])
  }

  ghost predicate Apart(c: Client, c': Client) {
    (c.lease != None && c'.lease != None ==> c.lease.value.ip != c'.lease.value.ip)
    && (c.address != UNSPECIFIED ==> c.address != c'.address)
  }

  /** No two clients have taken down the same hardware address. */
  ghost predicate DistinctMacs(s: System) {
    forall n, n' :: n in s.clients && n' in s.clients && n != n' ==> s.clients[n].mac != s.clients[n'].mac
  }

  /**
   * In every reachable state what a client has recorded and configured is its own in the table, so that clients
   * that have not taken down the same hardware address share no network address.
   */
  lemma AddressesAreUnique(cfg: Config, states: seq<System>, i: nat, n: Node, n': Node)
    requires ConfigOk(cfg) && Run(cfg, states) && i < |states|
    requires n in states[0].clients && n' in states[0].clients
    requires states[0].clients[n].mac != states[0].clients[n'].mac
    ensures n in states[i].clients && n' in states[i].clients
    ensures var c := states[i].clients[n];
      (c.lease != None ==> Owns(states[i].table, c.mac, c.lease.value.ip))
      && (c.address != UNSPECIFIED ==> Owns(states[i].table, c.mac, c.address))
      && c.mac == states[0].clients[n].mac && Apart(c, states[i].clients[n'])
  {
    hide Run, ClientOk;
    RunInv(cfg, states, i);
    RunSameClients(cfg, states, i);
  }

  /** In every reachable state, an event at a client throws exactly when it is an association reported too early. */
  lemma ErrorsUnreachable(cfg: Config, states: seq<System>, i: nat, n: Node, e: Event, xid: nat)
    requires ConfigOk(cfg) && Run(cfg, states) && i < |states| && Enabled(states[i], n, e, xid)
    ensures var s := states[i];
      var o := ClientStep(s.clients[n], e, xid, s.now);
      if TooEarly(s.clients[n], e) then o == Threw(SocketNotReady) else o.Ended?
  {
    hide Run, ClientStep, ClientOk;
    RunInv(cfg, states, i);
    assert CanHappen(states[i].clients[n], e, states[i].now);
    StepKeeps(states[i].clients[n], e, xid, states[i].now);
  }

  /** The timer discipline of every reachable state. */
  lemma TimersInOrder(cfg: Config, states: seq<System>, i: nat, n: Node)
    requires ConfigOk(cfg) && Run(cfg, states) && i < |states| && n in states[i].clients
    ensures TimerDiscipline(states[i].clients[n]) && LeaseKnown(states[i].clients[n])
  {
    hide Run;
    RunInv(cfg, states, i);
  }

  /** No reachable client is stuck: one that is bound to its port renews when T1 expires, or waits for an answer. */
  lemma NeverStuck(cfg: Config, states: seq<System>, i: nat, n: Node)
    requires ConfigOk(cfg) && Run(cfg, states) && i < |states| && n in states[i].clients
    ensures var c := states[i].clients[n];
      (c.bound ==> if c.state == Bound then c.t1.Due? else c.to.Due?)
      && (c.operational && !c.bound ==> c.startTimer.Due?)
  {
    hide Run;
    RunInv(cfg, states, i);
  }

  // ----- Exchanges without loss -----

  /** A discover that is answered leads, when nothing is lost, to the offered address bound, confirmed by the server. */
  lemma OfferedAddressIsBound(cfg: Config, t: Table, c: Client, xid: nat, xid': nat, xid'': nat, now: real)
    requires ConfigOk(cfg) && TableOk(t) && NoUnspecified(t)
    requires c.operational && c.attached && c.socketReady && c.bound
    requires ServerStep(cfg, t, DiscoverOf(c.mac, xid), now).reply != None
    ensures var o := InitClient(c, xid, now);
      var a := ServerStep(cfg, t, DiscoverOf(c.mac, xid), now);
      o.Ended? && o.sent == [DiscoverOf(c.mac, xid)]
      && var o' := ClientStep(o.c, Arrives(a.reply.value), xid', now);
      o'.Ended? && |o'.sent| == 1
      && var a' := ServerStep(cfg, a.table, o'.sent[0], now);
      a'.reply.Some?
      && var o'' := ClientStep(o'.c, Arrives(a'.reply.value), xid'', now);
      o''.Ended? && o''.c.state == Bound && o''.sent == []
      && o''.c.address == a.reply.value.yiaddr && Owns(a'.table, c.mac, o''.c.address)
  {
    hide Scan;
    var p := DiscoverOf(c.mac, xid);
    var a := ServerStep(cfg, t, p, now);
    TableStaysOk(cfg, t, p, now);
    NoUnspecifiedKept(cfg, t, p, now);
    RepliesAreTrue(cfg, t, p, now);
    var offer := a.reply.value;
    RequestIsConfirmed(cfg, a.table, c.mac, offer.yiaddr, xid', now);
  }

  /** A request for the address that the table has for the client is confirmed. */
  lemma RequestIsConfirmed(cfg: Config, t: Table, mac: Mac, ip: Address, xid: nat, now: real)
    requires TableOk(t) && Owns(t, mac, ip)
    ensures var a := ServerStep(cfg, t, RequestOf(mac, xid, UNSPECIFIED, ip, cfg.serverIp), now);
      a.reply.Some? && a.reply.value.op == BootReply && a.reply.value.kind == Ack && a.reply.value.xid == xid
      && a.reply.value.yiaddr == ip && Owns(a.table, mac, ip)
  {
    assert ip in Holders(t, mac);
  }

  /** When T1 expires and nothing is lost, the lease is extended: the same address, and all timers from now on. */
  lemma RenewalExtends(cfg: Config, t: Table, c: Client, xid: nat, xid': nat, now: real)
    requires ConfigOk(cfg) && TableOk(t) && NoUnspecified(t)
    requires ClientOk(c, now) && c.t1 == Due(now) && c.lease != None && Owns(t, c.mac, c.lease.value.ip)
    ensures var o := ClientStep(c, Expires(T1Expires), xid, now);
      o.Ended? && |o.sent| == 1
      && var a := ServerStep(cfg, t, o.sent[0], now);
      a.reply.Some?
      && var o' := ClientStep(o.c, Arrives(a.reply.value), xid', now);
      o'.Ended? && o'.c.state == Bound && o'.c.address == c.lease.value.ip == o'.c.lease.value.ip
      && o'.c.leaseTimer == Due(now + cfg.leaseTime as real) && o'.c.to == Off
      && o'.c.t1 == Due(now + 0.5 * cfg.leaseTime as real) && o'.c.t2 == Due(now + 0.875 * cfg.leaseTime as real)
      && Owns(a.table, c.mac, o'.c.address)
  {
    hide Scan, LeaseByMac;
    var ip := c.lease.value.ip;
    assert ip != UNSPECIFIED;
    RepliesAreTrue(cfg, t, RequestOf(c.mac, xid, ip, UNSPECIFIED, UNSPECIFIED), now);
  }

  // ----- Addresses that outlive their lease timer -----

  /** The lease timer runs while an address is configured, so that the address is given up when the lease ends. */
  ghost predicate AddressExpires(c: Client) {
    c.address != UNSPECIFIED ==> c.leaseTimer.Due?
  }

  /** Events that turn the lease timer off and leave the address configured. */
  ghost predicate ForgetsExpiry(c: Client, e: Event) {
    c.address != UNSPECIFIED && e in {Expires(TimeoutExpires), Expires(T2Expires), Associated}
  }

  /**
   * A configured address stays under its lease timer, except through the second timer, a response timeout or an
   * association: these cancel the timer and keep the address.
   */
  lemma AddressExpiresUnlessForgotten(c: Client, e: Event, xid: nat, now: real)
    requires ClientOk(c, now) && CanHappen(c, e, now) && !TooEarly(c, e) && AddressExpires(c)
    ensures var o := ClientStep(c, e, xid, now);
      o.Ended? && (AddressExpires(o.c) <==> !ForgetsExpiry(c, e))
  {
    hide OnMessage, OnTimer;
    match e
    case Expires(t) => TimerExpiry(c, t, xid, now);
    case Arrives(m) => MessageExpiry(c, m, xid, now);
    case Associated =>
    case Starts =>
    case Stops =>
  }

  lemma TimerExpiry(c: Client, t: Expiry, xid: nat, now: real)
    requires ClientOk(c, now) && TimerOf(c, t) == Due(now) && AddressExpires(c)
    ensures var o := OnTimer(Fired(c, t), t, xid, now);
      o.Ended? && (AddressExpires(o.c) <==> !ForgetsExpiry(c, Expires(t)))
  {
    TimerKeeps(c, t, xid, now);
  }

  lemma MessageExpiry(c: Client, m: Message, xid: nat, now: real)
    requires ClientOk(c, now) && CanHappen(c, Arrives(m), now) && AddressExpires(c)
    ensures var o := OnMessage(c, m, xid, now); o.Ended? && AddressExpires(o.c)
  {
    MessageKeeps(c, m, xid, now);
  }

  /** In every reachable state a configured address is under its lease timer exactly while bound or renewing. */
  lemma AddressExpiresWhile(cfg: Config, states: seq<System>, i: nat, n: Node)
    requires ConfigOk(cfg) && Run(cfg, states) && i < |states| && n in states[i].clients
    ensures var c := states[i].clients[n];
      AddressExpires(c) <==> c.address == UNSPECIFIED || c.state in {Bound, Renewing}
  {
    hide Run;
    RunInv(cfg, states, i);
  }

  /** A run with its actions. */
  ghost predicate Trace(cfg: Config, states: seq<System>, actions: seq<Action>) {
    |states| == |actions| + 1 && Initial(states[0])
    && forall i :: 0 <= i < |actions| ==> Next(cfg, states[i], actions[i], states[i + 1])
  }

  ghost predicate AllExpire(s: System) {
    forall n :: n in s.clients ==> AddressExpires(s.clients[n])
  }

  ghost predicate Forgets(s: System, a: Action) {
    a.ClientActs? && a.n in s.clients && ForgetsExpiry(s.clients[a.n], a.e)
  }

  lemma TraceIsRun(cfg: Config, states: seq<System>, actions: seq<Action>)
    requires Trace(cfg, states, actions)
    ensures Run(cfg, states)
  {
    forall i | 0 <= i < |states| - 1 ensures Steps(cfg, states[i], states[i + 1]) {
      assert Next(cfg, states[i], actions[i], states[i + 1]);
    }
  }

  lemma NextExpires(cfg: Config, s: System, a: Action, s': System)
    requires ConfigOk(cfg) && Inv(cfg, s) && Next(cfg, s, a, s') && AllExpire(s)
    ensures AllExpire(s') <==> !Forgets(s, a)
  {
    hide ClientStep, ClientOk, TableOk, ServerStep, AddressExpires, ForgetsExpiry;
    if a.ClientActs? {
      var c := s.clients[a.n];
      assert CanHappen(c, a.e, s.now);
      StepKeeps(c, a.e, a.xid, s.now);
      AddressExpiresUnlessForgotten(c, a.e, a.xid, s.now);
      assert s'.clients[a.n] == ClientStep(c, a.e, a.xid, s.now).c;
    }
  }

  /** Throughout a run every configured address is under its lease timer if and only if no action forgets one. */
  lemma {:induction false} AddressesExpireInRuns(cfg: Config, states: seq<System>, actions: seq<Action>)
    requires ConfigOk(cfg) && Trace(cfg, states, actions)
    ensures (forall i :: 0 <= i < |states| ==> AllExpire(states[i]))
       <==> forall i :: 0 <= i < |actions| ==> !Forgets(states[i], actions[i])
    decreases |actions|
  {
    hide Next, AllExpire, Forgets, Inv;
    TraceIsRun(cfg, states, actions);
    if actions == [] {
      InitialExpires(states[0]);
    } else {
      var n := |actions| - 1;
      AddressesExpireInRuns(cfg, states[..n + 1], actions[..n]);
      assert forall i :: 0 <= i <= n ==> states[..n + 1][i] == states[i];
      assert forall i :: 0 <= i < n ==> actions[..n][i] == actions[i];
      RunInv(cfg, states, n);
      if AllExpire(states[n]) { NextExpires(cfg, states[n], actions[n], states[n + 1]); }
    }
  }

  lemma InitialExpires(s: System)
    requires Initial(s)
    ensures AllExpire(s)
  {
  }
}
