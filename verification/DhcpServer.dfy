/** The messages of the protocol, as far as the server and the client look at them. */
module DhcpMessages {
  /** An IPv4 address; 0 is the unspecified one. */
  type Address = n: int | 0 <= n < 0x1_0000_0000

  type Mac = nat

  /** A hardware address that has not been set. */
  const NO_MAC: Mac := 0

  const UNSPECIFIED: Address := 0

  datatype Op = BootRequest | BootReply

  datatype Kind = Discover | Offer | Request | Decline | Ack | Nak | Release | Inform

  datatype Message = Message(
    op: Op,
    kind: Kind,
    xid: nat,
    ciaddr: Address,
    yiaddr: Address,
    chaddr: Mac,
    requestedIp: Address,
    serverId: Address,
    leaseTime: real,
    renewalTime: real,
    rebindingTime: real)
}

/** The server: its table of leases and what it does with a message. */
module DhcpServers {
  import opened Options
  import opened DhcpMessages

  datatype Lease = Lease(
    ip: Address,
    mac: Mac,
    xid: nat,
    gateway: Address,
    subnetMask: Address,
    leaseTime: real,
    leased: bool)

  datatype Config = Config(
    serverIp: Address,
    subnetMask: Address,
    gateway: Address,
    start: Address,
    maxClients: nat,
    leaseTime: nat)

  type Table = map<Address, Lease>

  datatype Answer = Answer(table: Table, reply: Option<Message>)

  // ----- Lookups -----

  lemma {:induction false} LeastExists(s: set<Address>) returns (least: Address)
    requires s != {}
    ensures least in s && forall k :: k in s ==> least <= k
  {
    var x :| x in s;
    if s == {x} {
      least := x;
    } else {
      var l := LeastExists(s - {x});
      least := if x < l then x else l;
      forall k | k in s ensures least <= k {
        if k != x { assert k in s - {x}; }
      }
    }
  }

  ghost predicate IsLeast(s: set<Address>, a: Address) {
    a in s && forall k :: k in s ==> a <= k
  }

  ghost function Holders(t: Table, mac: Mac): set<Address> {
    set ip | ip in t && t[ip].mac == mac
  }

  /** The first address that the table has for a hardware address. */
  ghost function LeaseByMac(t: Table, mac: Mac): (r: Option<Address>)
    ensures r.Some? <==> exists ip :: ip in t && t[ip].mac == mac
    ensures r.Some? ==> r.value in t && t[r.value].mac == mac && IsLeast(Holders(t, mac), r.value)
  {
    var s := Holders(t, mac);
    if s == {} then
      assert forall ip :: ip in t && t[ip].mac == mac ==> ip in s;
      None
    else
      var l := Least(s);
      assert l in s;
      Some(l)
  }

  ghost function Least(s: set<Address>): (a: Address)
    requires s != {}
    ensures IsLeast(s, a)
  {
    assert exists l :: IsLeast(s, l) by { var l := LeastExists(s); assert IsLeast(s, l); }
    var a :| IsLeast(s, a);
    a
  }

  function NewLease(cfg: Config, ip: Address): Lease {
    Lease(ip, 0, 0, cfg.gateway, cfg.subnetMask, 0.0, false)
  }

  /** The `i`-th address of the pool. */
  function PoolAddress(cfg: Config, i: nat): Address {
    (cfg.start + i) % 0x1_0000_0000
  }

  datatype Found = Found(table: Table, ip: Option<Address>)

  /** The first address of the pool from the `i`-th on that is new or no longer leased. */
  function Scan(cfg: Config, t: Table, i: nat): Found
    requires i <= cfg.maxClients
    decreases cfg.maxClients - i
  {
    if i == cfg.maxClients then Found(t, None)
    else
      var ip := PoolAddress(cfg, i);
      if ip in t then
        if !t[ip].leased then Found(t, Some(ip)) else Scan(cfg, t, i + 1)
      else
        Found(t[ip := NewLease(cfg, ip)], Some(ip))
  }

  /** The address for a new client. A requested address is given whether or not another client has it. */
  function AvailableLease(cfg: Config, t: Table, requested: Address): Found {
    if requested != UNSPECIFIED then
      if requested in t && !t[requested].leased then Found(t, Some(requested))
      else Found(t[requested := NewLease(cfg, requested)], Some(requested))
    else
      Scan(cfg, t, 0)
  }

  // ----- Replies -----

  function OfferOf(cfg: Config, lease: Lease): Message {
    Message(BootReply, Offer, lease.xid, UNSPECIFIED, lease.ip, lease.mac, UNSPECIFIED, cfg.serverIp,
            cfg.leaseTime as real, cfg.leaseTime as real * 0.5, cfg.leaseTime as real * 0.875)
  }

  function AckOf(cfg: Config, lease: Lease): Message {
    Message(BootReply, Ack, lease.xid, lease.ip, lease.ip, lease.mac, UNSPECIFIED, cfg.serverIp,
            cfg.leaseTime as real, cfg.leaseTime as real * 0.5, cfg.leaseTime as real * 0.875)
  }

  function NakOf(cfg: Config, p: Message): Message {
    Message(BootReply, Nak, p.xid, UNSPECIFIED, UNSPECIFIED, p.chaddr, UNSPECIFIED, cfg.serverIp, 0.0, 0.0, 0.0)
  }

  /** Whether two addresses agree in all bits of the mask. */
  predicate MaskedEqual(a: nat, b: nat, mask: nat) {
    mask == 0 || ((mask % 2 == 1 ==> a % 2 == b % 2) && MaskedEqual(a / 2, b / 2, mask / 2))
  }

  lemma {:induction false} SameNetwork(a: nat, mask: nat)
    ensures MaskedEqual(a, a, mask)
  {
    if mask != 0 { SameNetwork(a / 2, mask / 2); }
  }

  // ----- The server's step -----

  function Offering(cfg: Config, t: Table, ip: Address, now: real): Answer
    requires ip in t
  {
    Answer(t[ip := t[ip].(leaseTime := now)], Some(OfferOf(cfg, t[ip])))
  }

  /** The lease confirmed for the transaction of the request. */
  function Acknowledging(cfg: Config, t: Table, ip: Address, xid: nat, now: real): Answer
    requires ip in t
  {
    var lease := t[ip].(xid := xid, leaseTime := now, leased := true);
    Answer(t[ip := lease], Some(AckOf(cfg, lease)))
  }

  ghost function OnDiscover(cfg: Config, t: Table, p: Message, now: real): Answer {
    match LeaseByMac(t, p.chaddr)
    case Some(ip) => Offering(cfg, t[ip := t[ip].(xid := p.xid)], ip, now)
    case None =>
      var found := AvailableLease(cfg, t, p.requestedIp);
      if found.ip.None? then Answer(t, None)
      else
        var ip := found.ip.value;
        FoundIsThere(cfg, t, p.requestedIp);
        Offering(cfg, found.table[ip := found.table[ip].(mac := p.chaddr, xid := p.xid, leased := true)], ip, now)
  }

  ghost function OnRequest(cfg: Config, t: Table, p: Message, now: real): Answer {
    if p.serverId == cfg.serverIp then
      match LeaseByMac(t, p.chaddr)
      case Some(ip) =>
        if t[ip].ip != p.requestedIp then Answer(t, Some(NakOf(cfg, p)))
        else Acknowledging(cfg, t, ip, p.xid, now)
      case None => Answer(t, Some(NakOf(cfg, p)))
    else if p.ciaddr == UNSPECIFIED then
      if p.requestedIp !in t then Answer(t, None)
      else if MaskedEqual(p.requestedIp, t[p.requestedIp].ip, cfg.subnetMask) then
        Acknowledging(cfg, t, p.requestedIp, p.xid, now)
      else Answer(t, Some(NakOf(cfg, p)))
    else if p.ciaddr in t then Acknowledging(cfg, t, p.ciaddr, p.xid, now)
    else Answer(t, Some(NakOf(cfg, p)))
  }

  ghost function ServerStep(cfg: Config, t: Table, p: Message, now: real): Answer {
    if p.op == BootRequest && p.kind == Discover then OnDiscover(cfg, t, p, now)
    else if p.op == BootRequest && p.kind == Request then OnRequest(cfg, t, p, now)
    else Answer(t, None)
  }

  lemma {:induction false} ScanFinds(cfg: Config, t: Table, i: nat)
    requires i <= cfg.maxClients
    ensures var f := Scan(cfg, t, i);
      match f.ip
      case None =>
        f.table == t
        && forall k :: i <= k < cfg.maxClients ==> PoolAddress(cfg, k) in t && t[PoolAddress(cfg, k)].leased
      case Some(ip) =>
        ip in f.table && (ip in t ==> f.table == t && !t[ip].leased)
        && (ip !in t ==> f.table == t[ip := NewLease(cfg, ip)])
        && exists n: nat :: i <= n < cfg.maxClients && ip == PoolAddress(cfg, n)
             && forall k :: i <= k < n ==> PoolAddress(cfg, k) in t && t[PoolAddress(cfg, k)].leased
    decreases cfg.maxClients - i
  {
    if i < cfg.maxClients {
      var ip := PoolAddress(cfg, i);
      if ip in t && t[ip].leased {
        ScanFinds(cfg, t, i + 1);
      }
    }
  }

  lemma FoundIsThere(cfg: Config, t: Table, requested: Address)
    ensures var f := AvailableLease(cfg, t, requested); f.ip.Some? ==> f.ip.value in f.table
  {
    ScanFinds(cfg, t, 0);
  }

  // ----- What every step keeps -----

  /** Every entry is under its own address and in use, and no hardware address has two. */
  ghost predicate TableOk(t: Table) {
    (forall ip :: ip in t ==> t[ip].ip == ip && t[ip].leased)
    && forall ip, ip' :: ip in t && ip' in t && t[ip].mac == t[ip'].mac ==> ip == ip'
  }

  /** Nobody's address is taken away or given to somebody else. */
  ghost predicate OwnersKept(t: Table, t': Table) {
    forall ip :: ip in t ==> ip in t' && t'[ip].mac == t[ip].mac
  }

  /** A discover by a newcomer who asks for an address that the table has. */
  ghost predicate Steals(t: Table, p: Message) {
    p.op == BootRequest && p.kind == Discover && LeaseByMac(t, p.chaddr) == None
    && p.requestedIp != UNSPECIFIED && p.requestedIp in t
  }

  lemma TableStaysOk(cfg: Config, t: Table, p: Message, now: real)
    requires TableOk(t)
    ensures TableOk(ServerStep(cfg, t, p, now).table)
  {
    StepShape(cfg, t, p, now);
  }

  /** A step leaves the table, renews an entry for its owner, or makes an entry for a newcomer. */
  lemma StepShape(cfg: Config, t: Table, p: Message, now: real)
    requires TableOk(t)
    ensures var t' := ServerStep(cfg, t, p, now).table;
      t' == t
      || (exists ip, l: Lease :: ip in t && l.ip == ip && l.leased && l.mac == t[ip].mac && t' == t[ip := l])
      || (p.op == BootRequest && p.kind == Discover && LeaseByMac(t, p.chaddr) == None
          && exists ip, l: Lease :: Newcomer(cfg, t, p, ip, l) && t' == t[ip := l])
  {
    hide TableOk;
    UseTableOk(t);
    ScanFinds(cfg, t, 0);
    var t' := ServerStep(cfg, t, p, now).table;
    if p.op == BootRequest && p.kind == Discover && LeaseByMac(t, p.chaddr) == None {
      var found := AvailableLease(cfg, t, p.requestedIp);
      if found.ip.Some? {
        var ip := found.ip.value;
        FoundIsThere(cfg, t, p.requestedIp);
        assert Newcomer(cfg, t, p, ip, t'[ip]) && t' == t[ip := t'[ip]];
      }
    } else if t' != t {
      var ip := if p.kind == Discover || p.serverId == cfg.serverIp then LeaseByMac(t, p.chaddr).value
                else if p.ciaddr == UNSPECIFIED then p.requestedIp else p.ciaddr;
      assert t'[ip].ip == ip && t'[ip].leased && t'[ip].mac == t[ip].mac && t' == t[ip := t'[ip]];
    }
  }

  lemma UseTableOk(t: Table)
    requires TableOk(t)
    ensures forall ip :: ip in t ==> t[ip].ip == ip && t[ip].leased
  {
  }

  /** The entry made for a newcomer: at the requested address, or at the first of the pool that is not in the table. */
  ghost predicate Newcomer(cfg: Config, t: Table, p: Message, ip: Address, l: Lease) {
    l.ip == ip && l.leased && l.mac == p.chaddr
    && (if p.requestedIp != UNSPECIFIED then ip == p.requestedIp
        else ip !in t && exists n: nat :: n < cfg.maxClients && ip == PoolAddress(cfg, n))
  }

  /** A message leaves every address with its owner unless it is a discover that asks for one already given. */
  lemma OwnersKeptUnlessStolen(cfg: Config, t: Table, p: Message, now: real)
    requires TableOk(t)
    ensures OwnersKept(t, ServerStep(cfg, t, p, now).table) <==> !Steals(t, p)
  {
    StepShape(cfg, t, p, now);
    ScanFinds(cfg, t, 0);
    if Steals(t, p) {
      assert ServerStep(cfg, t, p, now).table[p.requestedIp].mac == p.chaddr != t[p.requestedIp].mac;
    }
  }

  /** The pool lies within the address space and leaves out the unspecified address. */
  predicate PoolOk(cfg: Config) {
    0 < cfg.start && cfg.start + cfg.maxClients <= 0x1_0000_0000
  }

  ghost predicate NoUnspecified(t: Table) {
    UNSPECIFIED !in t
  }

  lemma NoUnspecifiedKept(cfg: Config, t: Table, p: Message, now: real)
    requires TableOk(t) && PoolOk(cfg) && NoUnspecified(t)
    ensures NoUnspecified(ServerStep(cfg, t, p, now).table)
  {
    StepShape(cfg, t, p, now);
  }

  /** The lease time with a half of it to renewing and seven eighths to rebinding. */
  predicate TimesFit(cfg: Config, r: Message) {
    r.leaseTime == cfg.leaseTime as real
    && r.renewalTime == 0.5 * r.leaseTime && r.rebindingTime == 0.875 * r.leaseTime
  }

  /**
   * A reply is for the transaction of the message it answers. An offer or an acknowledgement names an
   * address and the hardware address that holds it, and an offer goes to the one who asked.
   */
  lemma RepliesAreTrue(cfg: Config, t: Table, p: Message, now: real)
    requires TableOk(t)
    ensures var a := ServerStep(cfg, t, p, now);
      a.reply.Some? ==>
        var r := a.reply.value;
        r.op == BootReply && r.xid == p.xid && p.op == BootRequest
        && (r.kind == Offer || r.kind == Ack || r.kind == Nak)
        && (r.kind == Offer <==> p.kind == Discover)
        && (r.kind == Offer ==> r.chaddr == p.chaddr)
        && (r.kind != Nak ==> r.yiaddr in a.table && a.table[r.yiaddr].mac == r.chaddr)
        && (r.kind != Nak ==> TimesFit(cfg, r))
  {
    ScanFinds(cfg, t, 0);
  }

  /** A client known to the server is offered the address it has. */
  lemma KnownClientKeepsAddress(cfg: Config, t: Table, p: Message, now: real, ip: Address)
    requires TableOk(t) && ip in t && t[ip].mac == p.chaddr && p.op == BootRequest && p.kind == Discover
    ensures var a := ServerStep(cfg, t, p, now);
      a.reply.Some? && a.reply.value.kind == Offer && a.reply.value.yiaddr == ip
  {
    assert ip in Holders(t, p.chaddr);
  }

  /** A newcomer without wishes gets no offer exactly when the whole pool is in use. */
  lemma OfferUnlessExhausted(cfg: Config, t: Table, p: Message, now: real)
    requires TableOk(t) && p.op == BootRequest && p.kind == Discover && p.requestedIp == UNSPECIFIED
    requires LeaseByMac(t, p.chaddr) == None
    ensures ServerStep(cfg, t, p, now).reply == None <==>
            forall k :: 0 <= k < cfg.maxClients ==> PoolAddress(cfg, k) in t
    ensures ServerStep(cfg, t, p, now).reply == None ==> ServerStep(cfg, t, p, now).table == t
  {
    ScanFinds(cfg, t, 0);
  }

  /** The answer to a rebooted client is never a refusal: it is confirmed if the address is known, else ignored. */
  lemma RebootIsNeverRefused(cfg: Config, t: Table, p: Message, now: real)
    requires TableOk(t) && p.op == BootRequest && p.kind == Request
    requires p.serverId != cfg.serverIp && p.ciaddr == UNSPECIFIED
    ensures var a := ServerStep(cfg, t, p, now);
      if p.requestedIp in t then a.reply.Some? && a.reply.value.kind == Ack && a.reply.value.yiaddr == p.requestedIp
      else a.reply == None
  {
    SameNetwork(p.requestedIp, cfg.subnetMask);
  }

  // ----- The server object -----

  class DHCPServer {
    const cfg: Config
    var leased: Table

    constructor (config: Config)
      ensures cfg == config && leased == map[]
    {
      cfg, leased := config, map[];
    }

    /** Walks through the table in the order of the addresses. */
    method GetLeaseByMac(mac: Mac) returns (r: Option<Address>)
      ensures r == LeaseByMac(leased, mac)
    {
      var rest := leased.Keys;
      while rest != {}
        invariant rest <= leased.Keys
        invariant forall ip :: ip in leased && ip !in rest ==> leased[ip].mac != mac
        decreases |rest|
      {
        ghost var l := LeastExists(rest);
        var ip: Address :| ip in rest && forall k :: k in rest ==> ip <= k;
        if leased[ip].mac == mac {
          assert IsLeast(Holders(leased, mac), ip);
          return Some(ip);
        }
        rest := rest - {ip};
      }
      r := None;
    }

    method GetAvailableLease(requested: Address) returns (r: Option<Address>)
      modifies this
      ensures Found(leased, r) == AvailableLease(cfg, old(leased), requested)
    {
      if requested != UNSPECIFIED {
        if requested in leased && !leased[requested].leased {
          return Some(requested);
        }
        leased := leased[requested := NewLease(cfg, requested)];
        return Some(requested);
      }
      var i := 0;
      while i < cfg.maxClients
        invariant i <= cfg.maxClients && leased == old(leased)
        invariant Scan(cfg, leased, 0) == Scan(cfg, leased, i)
      {
        var ip := PoolAddress(cfg, i);
        if ip in leased {
          if !leased[ip].leased {
            return Some(ip);
          }
        } else {
          leased := leased[ip := NewLease(cfg, ip)];
          return Some(ip);
        }
        i := i + 1;
      }
      r := None;
    }

    method SendOffer(ip: Address, now: real) returns (reply: Message)
      requires ip in leased
      modifies this
      ensures Answer(leased, Some(reply)) == Offering(cfg, old(leased), ip, now)
    {
      reply := OfferOf(cfg, leased[ip]);
      leased := leased[ip := leased[ip].(leaseTime := now)];
    }

    method SendAck(ip: Address, now: real) returns (reply: Message)
      requires ip in leased
      modifies this
      ensures reply == AckOf(cfg, old(leased)[ip]) && leased == old(leased)[ip := old(leased)[ip].(leaseTime := now)]
    {
      reply := AckOf(cfg, leased[ip]);
      leased := leased[ip := leased[ip].(leaseTime := now)];
    }

    method ProcessDHCPMessage(p: Message, now: real) returns (reply: Option<Message>)
      modifies this
      ensures Answer(leased, reply) == ServerStep(cfg, old(leased), p, now)
    {
      reply := None;
      if p.op == BootRequest {
        if p.kind == Discover {
          var lease := GetLeaseByMac(p.chaddr);
          if lease == None {
            FoundIsThere(cfg, leased, p.requestedIp);
            ScanFinds(cfg, leased, 0);
            lease := GetAvailableLease(p.requestedIp);
            if lease != None {
              var ip := lease.value;
              leased := leased[ip := leased[ip].(mac := p.chaddr, xid := p.xid, leased := true)];
              var offer := SendOffer(ip, now);
              reply := Some(offer);
            }
          } else {
            var ip := lease.value;
            leased := leased[ip := leased[ip].(xid := p.xid)];
            var offer := SendOffer(ip, now);
            reply := Some(offer);
          }
        } else if p.kind == Request {
          if p.serverId == cfg.serverIp {
            var lease := GetLeaseByMac(p.chaddr);
            if lease != None {
              if leased[lease.value].ip != p.requestedIp {
                reply := Some(NakOf(cfg, p));
              } else {
                reply := Confirm(lease.value, p.xid, now);
              }
            } else {
              reply := Some(NakOf(cfg, p));
            }
          } else if p.ciaddr == UNSPECIFIED {
            if p.requestedIp in leased {
              if MaskedEqual(p.requestedIp, leased[p.requestedIp].ip, cfg.subnetMask) {
                reply := Confirm(p.requestedIp, p.xid, now);
              } else {
                reply := Some(NakOf(cfg, p));
              }
            }
          } else {
            if p.ciaddr in leased {
              reply := Confirm(p.ciaddr, p.xid, now);
            } else {
              reply := Some(NakOf(cfg, p));
            }
          }
        }
      }
    }

    method Confirm(ip: Address, xid: nat, now: real) returns (reply: Option<Message>)
      requires ip in leased
      modifies this
      ensures Answer(leased, reply) == Acknowledging(cfg, old(leased), ip, xid, now)
    {
      leased := leased[ip := leased[ip].(xid := xid, leaseTime := cfg.leaseTime as real, leased := true)];
      var ack := SendAck(ip, now);
      reply := Some(ack);
      assert leased == old(leased)[ip := old(leased)[ip].(xid := xid, leaseTime := now, leased := true)];
    }
  }
}
