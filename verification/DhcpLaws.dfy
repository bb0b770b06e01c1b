/** Field by field: what every event makes a client send, wait for and keep, and what the server answers. */
module DhcpLaws {
  import opened Options
  import opened DhcpMessages
  import opened ClientSteps
  import opened DhcpServers
  import opened DhcpNetwork

  // ----- What a client sends -----

  /** Exactly one message is sent, a discover by this client under the new id that asks for nothing. */
  ghost predicate SendsDiscover(c: Client, xid: nat, o: Outcome) {
    o.Ended? && |o.sent| == 1 && o.c.xid == xid
    && var m := o.sent[0];
      m.op == BootRequest && m.kind == Discover && m.xid == xid && m.chaddr == c.mac
      && m.ciaddr == m.yiaddr == m.requestedIp == m.serverId == UNSPECIFIED
  }

  /** Exactly one message is sent, a request by this client under the new id with these addresses. */
  ghost predicate SendsRequest(c: Client, xid: nat, o: Outcome, ciaddr: Address, requested: Address, server: Address) {
    o.Ended? && |o.sent| == 1 && o.c.xid == xid
    && var m := o.sent[0];
      m.op == BootRequest && m.kind == Request && m.xid == xid && m.chaddr == c.mac && m.yiaddr == UNSPECIFIED
      && m.ciaddr == ciaddr && m.requestedIp == requested && m.serverId == server
  }

  /** The response timeout runs for a minute. */
  ghost predicate AwaitsFor(o: Outcome, kind: Timeout, now: real) {
    o.Ended? && o.c.to == Due(now + 60.0) && o.c.toKind == kind
  }

  /** The node's side of the client is as it was. */
  ghost predicate SameNode(c: Client, c': Client) {
    c'.hardware == c.hardware && c'.mac == c.mac && c'.startTime == c.startTime
    && c'.operational == c.operational && c'.attached == c.attached
  }

  /** A reply to the latest transaction. */
  predicate IsAnswer(c: Client, e: Event, kind: Kind) {
    e.Arrives? && c.operational && e.m.op == BootReply && e.m.xid == c.xid && e.m.kind == kind
  }

  /** A refusal where the client waits for a confirmation. */
  predicate IsRefused(c: Client, e: Event) {
    IsAnswer(c, e, Nak) && c.state in {Requesting, Rebooting, Renewing, Rebinding}
  }

  predicate IsConfirmed(c: Client, e: Event) {
    IsAnswer(c, e, Ack) && c.state in {Requesting, Rebooting, Renewing, Rebinding}
  }

  predicate IsOffered(c: Client, e: Event) {
    IsAnswer(c, e, Offer) && c.state == Selecting
  }

  /** The events that start the process anew. */
  predicate StartsAnew(c: Client, e: Event) {
    e == Expires(TimeoutExpires) || e == Expires(LeaseExpires) || (e == Associated && c.attached)
    || (e == Expires(StartExpires) && c.lease == None) || IsRefused(c, e)
  }

  /** Of these, the end of a lease and the refusal of one in use take the address away. */
  predicate TakesAddress(c: Client, e: Event) {
    e == Expires(LeaseExpires) || (IsRefused(c, e) && c.state in {Renewing, Rebinding})
  }

  /** Each of them sends a discover and waits for an offer, with no other timer of a lease running. */
  lemma StartingAnew(c: Client, e: Event, xid: nat, now: real)
    requires ClientOk(c, now) && CanHappen(c, e, now) && !TooEarly(c, e) && StartsAnew(c, e)
    ensures var o := ClientStep(c, e, xid, now);
      SendsDiscover(c, xid, o) && AwaitsFor(o, WaitOffer, now) && o.c.state == Selecting
      && o.c.t1 == o.c.t2 == o.c.leaseTimer == Off && o.c.lease == c.lease
      && o.c.address == (if TakesAddress(c, e) then UNSPECIFIED else c.address)
      && SameNode(c, o.c) && (e == Expires(StartExpires) ==> o.c.bound)
  {
    hide InitClient;
    if e == Expires(StartExpires) {
      Initially(Fired(c, StartExpires).(socketReady := true, bound := true, state := Init), xid, now);
    } else {
      var f := if e.Expires? then Fired(c, e.e) else c;
      Initially(f, xid, now);
      Initially(UnboundLease(f), xid, now);
      Initially(UnboundLease(f).(state := Init), xid, now);
    }
  }

  lemma Initially(c: Client, xid: nat, now: real)
    requires c.socketReady
    ensures var o := InitClient(c, xid, now);
      SendsDiscover(c, xid, o) && AwaitsFor(o, WaitOffer, now) && o.c.state == Selecting
      && o.c.t1 == o.c.t2 == o.c.leaseTimer == Off && o.c.lease == c.lease && o.c.address == c.address
      && SameNode(c, o.c) && o.c.bound == c.bound
  {
  }

  /**
   * The requests of section 4.3.6 of RFC 2131: T1 and T2 ask with the address in use, a restart asks for the address
   * known, and an offer is asked for from the server that made it.
   */
  lemma AskingForLease(c: Client, e: Event, xid: nat, now: real)
    requires ClientOk(c, now) && CanHappen(c, e, now) && c.lease != None
    ensures var o, ip := ClientStep(c, e, xid, now), c.lease.value.ip;
      (e == Expires(T1Expires) ==>
        SendsRequest(c, xid, o, ip, UNSPECIFIED, UNSPECIFIED) && AwaitsFor(o, WaitAck, now) && o.c.state == Renewing
        && o.c.t1 == Off && o.c.t2 == c.t2 && o.c.leaseTimer == c.leaseTimer && o.c.address == c.address)
      && (e == Expires(T2Expires) ==>
        SendsRequest(c, xid, o, ip, UNSPECIFIED, UNSPECIFIED) && AwaitsFor(o, WaitAck, now) && o.c.state == Rebinding
        && o.c.t1 == o.c.t2 == o.c.leaseTimer == Off && o.c.address == c.address)
      && (e == Expires(StartExpires) ==>
        SendsRequest(c, xid, o, UNSPECIFIED, ip, UNSPECIFIED) && AwaitsFor(o, WaitAck, now) && o.c.state == Rebooting
        && o.c.bound && o.c.t1 == o.c.t2 == o.c.leaseTimer == Off && o.c.address == UNSPECIFIED)
      && (e in {Expires(T1Expires), Expires(T2Expires), Expires(StartExpires)} ==>
        o.c.lease == c.lease && SameNode(c, o.c))
  {
  }

  lemma TakingOffer(c: Client, e: Event, xid: nat, now: real)
    requires ClientOk(c, now) && CanHappen(c, e, now) && IsOffered(c, e)
    ensures var o := ClientStep(c, e, xid, now);
      SendsRequest(c, xid, o, UNSPECIFIED, e.m.yiaddr, e.m.serverId) && AwaitsFor(o, WaitAck, now)
      && o.c.state == Requesting && o.c.lease.Some? && o.c.lease.value.ip == e.m.yiaddr
      && o.c.lease.value.mac == c.mac && o.c.lease.value.serverId == e.m.serverId
      && o.c.t1 == o.c.t2 == o.c.leaseTimer == Off && o.c.address == c.address && SameNode(c, o.c)
  {
  }

  /** A confirmation binds the address recorded, and sets the timers by its own times. */
  lemma TakingConfirmation(c: Client, e: Event, xid: nat, now: real)
    requires ClientOk(c, now) && CanHappen(c, e, now) && IsConfirmed(c, e)
    ensures var o := ClientStep(c, e, xid, now);
      o.Ended? && o.sent == [] && o.c.state == Bound && c.lease.Some? && o.c.address == c.lease.value.ip
      && o.c.lease == Some(c.lease.value.(leaseTime := e.m.leaseTime, renewalTime := e.m.renewalTime,
                                          rebindTime := e.m.rebindingTime))
      && o.c.t1 == Due(now + e.m.renewalTime) && o.c.t2 == Due(now + e.m.rebindingTime)
      && o.c.leaseTimer == Due(now + e.m.leaseTime) && o.c.to == Off && o.c.xid == c.xid && SameNode(c, o.c)
  {
  }

  /** Any other message changes nothing. */
  lemma OtherMessage(c: Client, m: Message, xid: nat, now: real)
    requires ClientOk(c, now) && CanHappen(c, Arrives(m), now)
    requires !IsRefused(c, Arrives(m)) && !IsConfirmed(c, Arrives(m)) && !IsOffered(c, Arrives(m))
    ensures ClientStep(c, Arrives(m), xid, now) == Ended(c, [])
  {
  }

  /** A node that comes up schedules the start; one that goes down forgets all but the lease and the state. */
  lemma NodeEvent(c: Client, e: Event, xid: nat, now: real)
    requires e == Starts || e == Stops
    ensures var o := ClientStep(c, e, xid, now);
      o.Ended? && o.sent == [] && o.c.operational == o.c.attached == (e == Starts)
      && o.c.state == c.state && o.c.lease == c.lease && o.c.xid == c.xid
      && o.c.hardware == c.hardware && o.c.mac == c.mac && o.c.startTime == c.startTime
      && (if e == Starts then
            o.c.startTimer.Due? && o.c.startTimer.at >= now && o.c.startTimer.at >= c.startTime
            && (o.c.startTimer.at == now || o.c.startTimer.at == c.startTime)
            && o.c.t1 == c.t1 && o.c.t2 == c.t2 && o.c.to == c.to && o.c.leaseTimer == c.leaseTimer
            && o.c.address == c.address && o.c.bound == c.bound
          else
            o.c.t1 == o.c.t2 == o.c.to == o.c.leaseTimer == o.c.startTimer == Off
            && o.c.address == UNSPECIFIED && !o.c.bound)
  {
  }

  // ----- What the server answers -----

  predicate IsDiscover(p: Message) {
    p.op == BootRequest && p.kind == Discover
  }

  predicate IsRequest(p: Message) {
    p.op == BootRequest && p.kind == Request
  }

  /** What all replies say; a refusal says no more. */
  lemma ReplyFields(cfg: Config, t: Table, p: Message, now: real)
    requires TableOk(t)
    ensures var a := ServerStep(cfg, t, p, now);
      a.reply.Some? ==>
        var r := a.reply.value;
        r.op == BootReply && r.xid == p.xid && r.serverId == cfg.serverIp && r.requestedIp == UNSPECIFIED
        && (r.kind == Nak ==> r.chaddr == p.chaddr && r.yiaddr == UNSPECIFIED && r.ciaddr == UNSPECIFIED)
        && (r.kind == Offer ==> r.ciaddr == UNSPECIFIED) && (r.kind == Ack ==> r.ciaddr == r.yiaddr)
  {
    ScanFinds(cfg, t, 0);
  }

  /**
   * A request is refused if and only if it names this server and asks for an address that its sender does not have,
   * or names another one and gives an address as its own that is not in the table.
   */
  lemma RefusedIff(cfg: Config, t: Table, p: Message, now: real)
    requires TableOk(t)
    ensures var a := ServerStep(cfg, t, p, now);
      (a.reply.Some? && a.reply.value.kind == Nak) <==>
        IsRequest(p)
        && if p.serverId == cfg.serverIp then !Owns(t, p.chaddr, p.requestedIp)
           else p.ciaddr != UNSPECIFIED && p.ciaddr !in t
  {
    ScanFinds(cfg, t, 0);
    SameNetwork(p.requestedIp, cfg.subnetMask);
    if Owns(t, p.chaddr, p.requestedIp) { assert p.requestedIp in Holders(t, p.chaddr); }
  }

  /** The address a request is confirmed for: one its sender has been offered, one to reboot with, or one in use. */
  lemma ConfirmedIff(cfg: Config, t: Table, p: Message, now: real, ip: Address)
    requires TableOk(t)
    ensures var a := ServerStep(cfg, t, p, now);
      (a.reply.Some? && a.reply.value.kind == Ack && a.reply.value.yiaddr == ip) <==>
        IsRequest(p)
        && if p.serverId == cfg.serverIp then p.requestedIp == ip && Owns(t, p.chaddr, ip)
           else ip in t && ip == if p.ciaddr == UNSPECIFIED then p.requestedIp else p.ciaddr
  {
    ScanFinds(cfg, t, 0);
    SameNetwork(p.requestedIp, cfg.subnetMask);
    if Owns(t, p.chaddr, p.requestedIp) { assert p.requestedIp in Holders(t, p.chaddr); }
  }

  /** An address that the pool has and the table does not, with all before it in the table. */
  ghost predicate FirstFree(cfg: Config, t: Table, ip: Address) {
    ip !in t
    && exists n: nat :: n < cfg.maxClients && ip == PoolAddress(cfg, n)
         && forall k :: 0 <= k < n ==> PoolAddress(cfg, k) in t
  }

  /** The address that a discover is offered: its sender's own, else the one asked for, else the first free one. */
  lemma OfferedIs(cfg: Config, t: Table, p: Message, now: real)
    requires TableOk(t)
    ensures var a := ServerStep(cfg, t, p, now);
      (a.reply.Some? && a.reply.value.kind == Offer ==>
        var ip := a.reply.value.yiaddr;
        IsDiscover(p) && a.reply.value.chaddr == p.chaddr
        && (Owns(t, p.chaddr, ip)
            || (LeaseByMac(t, p.chaddr) == None
                && if p.requestedIp != UNSPECIFIED then ip == p.requestedIp else FirstFree(cfg, t, ip))))
      && (IsDiscover(p) && a.reply == None ==>
        LeaseByMac(t, p.chaddr) == None && p.requestedIp == UNSPECIFIED
        && forall k :: 0 <= k < cfg.maxClients ==> PoolAddress(cfg, k) in t)
  {
    ScanFinds(cfg, t, 0);
  }

  /** The entry at `ip` after an answer that offers or confirms it, and the entry after any other. */
  ghost predicate Stamped(cfg: Config, t: Table, p: Message, now: real, ip: Address, a: Answer) {
    if a.reply.Some? && a.reply.value.kind != Nak && ip == a.reply.value.yiaddr then
      ip in a.table
      && var l := a.table[ip];
        l.ip == ip && l.xid == p.xid && l.leaseTime == now && l.leased && l.mac == a.reply.value.chaddr
        && (a.reply.value.kind == Ack ==> ip in t && l.mac == t[ip].mac)
        && (if ip in t && t[ip].mac == l.mac then l.gateway == t[ip].gateway && l.subnetMask == t[ip].subnetMask
            else l.gateway == cfg.gateway && l.subnetMask == cfg.subnetMask)
    else
      (ip in a.table <==> ip in t) && (ip in t ==> a.table[ip] == t[ip])
  }

  /**
   * The table changes only at the address offered or confirmed: that entry is stamped with the transaction and the
   * time, and an offer makes its asker the holder.
   */
  lemma TableAfter(cfg: Config, t: Table, p: Message, now: real, ip: Address)
    requires TableOk(t)
    ensures Stamped(cfg, t, p, now, ip, ServerStep(cfg, t, p, now))
  {
    hide OnDiscover, OnRequest;
    if IsDiscover(p) { TableAfterDiscover(cfg, t, p, now, ip); }
    if IsRequest(p) { TableAfterRequest(cfg, t, p, now, ip); }
  }

  lemma TableAfterDiscover(cfg: Config, t: Table, p: Message, now: real, ip: Address)
    requires TableOk(t)
    ensures Stamped(cfg, t, p, now, ip, OnDiscover(cfg, t, p, now))
  {
    ScanFinds(cfg, t, 0);
  }

  lemma TableAfterRequest(cfg: Config, t: Table, p: Message, now: real, ip: Address)
    requires TableOk(t)
    ensures Stamped(cfg, t, p, now, ip, OnRequest(cfg, t, p, now))
  {
  }
}
