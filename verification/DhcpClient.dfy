/** The client: its state, its five timers, and what it does with a message, a timer or a change of its node. */
module ClientSteps {
  import opened Options
  import opened DhcpMessages

  datatype ClientState = Idle | Init | InitReboot | Rebooting | Selecting | Requesting | Bound | Renewing | Rebinding

  /** A timer that is off, or scheduled for a time. */
  datatype Timer = Off | Due(at: real)

  datatype Timeout = WaitOffer | WaitAck

  datatype ClientLease = ClientLease(
    ip: Address,
    mac: Mac,
    serverId: Address,
    leaseTime: real,
    renewalTime: real,
    rebindTime: real)

  /**
   * The client's fields; `hardware` and `address` are those of its interface, and `attached` tells that it has one.
   * `mac` is the hardware address that the client has taken down for its messages. The socket is `socketReady` once
   * it has an output gate, and `bound` while UDP has it bound to the client's port.
   */
  datatype Client = Client(
    hardware: Mac,
    mac: Mac,
    startTime: real,
    operational: bool,
    attached: bool,
    socketReady: bool,
    bound: bool,
    state: ClientState,
    xid: nat,
    lease: Option<ClientLease>,
    address: Address,
    t1: Timer,
    t2: Timer,
    to: Timer,
    toKind: Timeout,
    leaseTimer: Timer,
    startTimer: Timer)

  /** What stops the simulation with an error. */
  datatype Error = SocketNotReady | AlreadyBound | InvalidState | WrongStateForT2 | NoLease | UnknownState

  /** A handler either ends, with the messages sent, or throws. */
  datatype Outcome = Ended(c: Client, sent: seq<Message>) | Threw(error: Error)

  const RESPONSE_TIMEOUT: real := 60.0

  // ----- Sending -----

  function DiscoverOf(mac: Mac, xid: nat): Message {
    Message(BootRequest, Discover, xid, UNSPECIFIED, UNSPECIFIED, mac, UNSPECIFIED, UNSPECIFIED, 0.0, 0.0, 0.0)
  }

  function RequestOf(mac: Mac, xid: nat, ciaddr: Address, requestedIp: Address, serverId: Address): Message {
    Message(BootRequest, Request, xid, ciaddr, UNSPECIFIED, mac, requestedIp, serverId, 0.0, 0.0, 0.0)
  }

  function SendDiscover(c: Client, xid: nat): Outcome {
    if c.socketReady then Ended(c.(xid := xid), [DiscoverOf(c.mac, xid)]) else Threw(SocketNotReady)
  }

  /** The request that the state calls for; none is called for in most states. */
  function SendRequest(c: Client, xid: nat): Outcome {
    if c.state !in {InitReboot, Requesting, Renewing, Rebinding} then Threw(InvalidState)
    else if c.lease == None then Threw(NoLease)
    else if !c.socketReady then Threw(SocketNotReady)
    else
      var lease := c.lease.value;
      var request :=
        if c.state == InitReboot then RequestOf(c.mac, xid, UNSPECIFIED, lease.ip, UNSPECIFIED)
        else if c.state == Requesting then RequestOf(c.mac, xid, UNSPECIFIED, lease.ip, lease.serverId)
        else RequestOf(c.mac, xid, lease.ip, UNSPECIFIED, UNSPECIFIED);
      Ended(c.(xid := xid), [request])
  }

  // ----- Steps of the handlers -----

  function WithTimeout(c: Client, kind: Timeout, now: real): Client {
    c.(to := Due(now + RESPONSE_TIMEOUT), toKind := kind)
  }

  function WithoutTimers(c: Client): Client {
    c.(t1 := Off, t2 := Off, to := Off, leaseTimer := Off)
  }

  /** The process from the start: all timers off, a discover, and a wait for an offer. */
  function InitClient(c: Client, xid: nat, now: real): Outcome {
    var o := SendDiscover(WithoutTimers(c), xid);
    if o.Threw? then o else Ended(WithTimeout(o.c, WaitOffer, now).(state := Selecting), o.sent)
  }

  function InitRebootedClient(c: Client, xid: nat, now: real): Outcome {
    var o := SendRequest(c, xid);
    if o.Threw? then o else Ended(WithTimeout(o.c, WaitAck, now).(state := Rebooting), o.sent)
  }

  function UnboundLease(c: Client): Client {
    WithoutTimers(c).(address := UNSPECIFIED)
  }

  function RecordOffer(c: Client, m: Message): Client {
    if m.yiaddr == UNSPECIFIED then c
    else c.(lease := Some(ClientLease(m.yiaddr, c.mac, m.serverId, 0.0, 0.0, 0.0)))
  }

  function RecordLease(lease: ClientLease, m: Message): ClientLease {
    if m.yiaddr == UNSPECIFIED then lease
    else lease.(leaseTime := m.leaseTime, renewalTime := m.renewalTime, rebindTime := m.rebindingTime)
  }

  /** An acknowledgement: the times recorded, the timers set by them, and the address configured. */
  function OnAck(c: Client, m: Message, now: real): Outcome {
    if c.lease == None then Threw(NoLease)
    else
      var lease := RecordLease(c.lease.value, m);
      Ended(c.(lease := Some(lease), to := Off, t1 := Due(now + lease.renewalTime), t2 := Due(now + lease.rebindTime),
               address := lease.ip, leaseTimer := Due(now + lease.leaseTime), state := Bound), [])
  }

  function OnOffer(c: Client, m: Message, xid: nat, now: real): Outcome {
    SendRequest(RecordOffer(WithTimeout(c, WaitAck, now).(state := Requesting), m), xid)
  }

  /** A message from the network, looked at only when it is a reply to the latest transaction. */
  function OnMessage(c: Client, m: Message, xid: nat, now: real): Outcome {
    if m.op != BootReply || m.xid != c.xid then Ended(c, [])
    else match c.state
      case Init => Ended(c, [])
      case Selecting => if m.kind == Offer then OnOffer(c, m, xid, now) else Ended(c, [])
      case Requesting =>
        if m.kind == Ack then OnAck(c, m, now) else if m.kind == Nak then InitClient(c, xid, now) else Ended(c, [])
      case Bound => Ended(c, [])
      case Renewing =>
        if m.kind == Ack then OnAck(c, m, now)
        else if m.kind == Nak then InitClient(UnboundLease(c), xid, now) else Ended(c, [])
      case Rebinding =>
        if m.kind == Nak then InitClient(UnboundLease(c), xid, now)
        else if m.kind == Ack then OnAck(c, m, now) else Ended(c, [])
      case Rebooting =>
        if m.kind == Ack then OnAck(c, m, now) else if m.kind == Nak then InitClient(c, xid, now) else Ended(c, [])
      case Idle => Threw(UnknownState)
      case InitReboot => Threw(UnknownState)
  }

  datatype Expiry = StartExpires | TimeoutExpires | T1Expires | T2Expires | LeaseExpires

  function TimerOf(c: Client, e: Expiry): Timer {
    match e
    case StartExpires => c.startTimer
    case TimeoutExpires => c.to
    case T1Expires => c.t1
    case T2Expires => c.t2
    case LeaseExpires => c.leaseTimer
  }

  /** The timer taken off the schedule, as the simulator does before it hands it over. */
  function Fired(c: Client, e: Expiry): Client {
    match e
    case StartExpires => c.(startTimer := Off)
    case TimeoutExpires => c.(to := Off)
    case T1Expires => c.(t1 := Off)
    case T2Expires => c.(t2 := Off)
    case LeaseExpires => c.(leaseTimer := Off)
  }

  function OnTimer(c: Client, e: Expiry, xid: nat, now: real): Outcome {
    match e
    case StartExpires =>
      if c.bound then Threw(AlreadyBound)
      else
        var ready := c.(socketReady := true, bound := true);
        if c.lease != None then InitRebootedClient(ready.(state := InitReboot), xid, now)
        else InitClient(ready.(state := Init), xid, now)
    case TimeoutExpires => InitClient(c, xid, now)
    case T1Expires => SendRequest(WithTimeout(c.(state := Renewing), WaitAck, now), xid)
    case T2Expires =>
      if c.state == Renewing then
        var o := SendRequest(WithoutTimers(c).(state := Rebinding), xid);
        if o.Threw? then o else Ended(WithTimeout(o.c, WaitAck, now), o.sent)
      else
        Threw(WrongStateForT2)
    case LeaseExpires => InitClient(UnboundLease(c).(state := Init), xid, now)
  }

  /** The link coming up starts the process again; without an interface it is not the client's link. */
  function OnAssociated(c: Client, xid: nat, now: real): Outcome {
    if c.attached then InitClient(c, xid, now) else Ended(c, [])
  }

  function OnStart(c: Client, now: real): Client {
    c.(attached := true, operational := true, startTimer := Due(if c.startTime < now then now else c.startTime))
  }

  /** Shutdown or crash. UDP clears its sockets, the interface loses its address; lease and state are kept. */
  function OnStop(c: Client): Client {
    WithoutTimers(c).(startTimer := Off, attached := false, operational := false, bound := false,
                      address := UNSPECIFIED)
  }

  /** A client after its initialization: only if its node is up does it take down its hardware address, and start. */
  function NewClient(hardware: Mac, startTime: real, up: bool, now: real): Client {
    var idle := Client(hardware, NO_MAC, startTime, false, false, false, false, Idle, 0, None, UNSPECIFIED,
                       Off, Off, Off, WaitOffer, Off, Off);
    if up then OnStart(idle.(mac := hardware), now) else idle
  }

  /** What can happen to a client. */
  datatype Event = Expires(e: Expiry) | Arrives(m: Message) | Associated | Starts | Stops

  function ClientStep(c: Client, e: Event, xid: nat, now: real): Outcome {
    match e
    case Expires(t) => OnTimer(Fired(c, t), t, xid, now)
    case Arrives(m) => if c.operational then OnMessage(c, m, xid, now) else Ended(c, [])
    case Associated => OnAssociated(c, xid, now)
    case Starts => Ended(OnStart(c, now), [])
    case Stops => Ended(OnStop(c), [])
  }

}

/** The client object, whose methods take the steps. */
module DhcpClients {
  import opened Options
  import opened DhcpMessages
  import opened Steps = ClientSteps

  class DHCPClient {
    const hardware: Mac
    var mac: Mac
    const startTime: real
    var isOperational: bool
    var attached: bool
    var socketReady: bool
    var bound: bool
    var clientState: ClientState
    var xid: nat
    var lease: Option<ClientLease>
    var address: Address
    var timerT1: Timer
    var timerT2: Timer
    var timerTo: Timer
    var timerToKind: Timeout
    var leaseTimer: Timer
    var startTimer: Timer
    var sent: seq<Message>

    ghost function View(): Client
      reads this
    {
      Client(hardware, mac, startTime, isOperational, attached, socketReady, bound, clientState, xid, lease, address,
             timerT1, timerT2, timerTo, timerToKind, leaseTimer, startTimer)
    }

    /** How a handler came out: with the client it says and its messages sent, or with the error it says. */
    ghost predicate CameOut(o: Outcome, before: seq<Message>, error: Option<Error>)
      reads this
    {
      match o
      case Ended(c, messages) => error == None && View() == c && sent == before + messages
      case Threw(e) => error == Some(e)
    }

    constructor (hardware: Mac, startTime: real, up: bool, now: real)
      ensures sent == [] && View() == NewClient(hardware, startTime, up, now)
    {
      this.hardware, this.startTime := hardware, startTime;
      mac := if up then hardware else NO_MAC;
      isOperational, attached := up, up;
      socketReady, bound, clientState, xid, lease, address := false, false, Idle, 0, None, UNSPECIFIED;
      timerT1, timerT2, timerTo, timerToKind, leaseTimer := Off, Off, Off, WaitOffer, Off;
      startTimer := if up then Due(if startTime < now then now else startTime) else Off;
      sent := [];
    }

    /** Gives the socket its gate and binds it; binding a bound port is an error. */
    method OpenSocket() returns (error: Option<Error>)
      modifies this`socketReady, this`bound
      ensures error == (if old(bound) then Some(AlreadyBound) else None)
      ensures socketReady && bound
    {
      socketReady := true;
      if bound {
        return Some(AlreadyBound);
      }
      bound := true;
      error := None;
    }

    method SendToUDP(m: Message) returns (error: Option<Error>)
      modifies this`sent
      ensures error == (if socketReady then None else Some(SocketNotReady))
      ensures error == None ==> sent == old(sent) + [m]
    {
      if !socketReady {
        return Some(SocketNotReady);
      }
      sent := sent + [m];
      error := None;
    }

    method SendDiscover(newXid: nat) returns (error: Option<Error>)
      modifies this
      ensures CameOut(Steps.SendDiscover(old(View()), newXid), old(sent), error)
    {
      xid := newXid;
      error := SendToUDP(DiscoverOf(mac, xid));
    }

    method SendRequest(newXid: nat) returns (error: Option<Error>)
      modifies this
      ensures CameOut(Steps.SendRequest(old(View()), newXid), old(sent), error)
    {
      xid := newXid;
      if clientState == InitReboot {
        if lease == None { return Some(NoLease); }
        error := SendToUDP(RequestOf(mac, xid, UNSPECIFIED, lease.value.ip, UNSPECIFIED));
      } else if clientState == Requesting {
        if lease == None { return Some(NoLease); }
        error := SendToUDP(RequestOf(mac, xid, UNSPECIFIED, lease.value.ip, lease.value.serverId));
      } else if clientState == Renewing {
        if lease == None { return Some(NoLease); }
        error := SendToUDP(RequestOf(mac, xid, lease.value.ip, UNSPECIFIED, UNSPECIFIED));
      } else if clientState == Rebinding {
        if lease == None { return Some(NoLease); }
        error := SendToUDP(RequestOf(mac, xid, lease.value.ip, UNSPECIFIED, UNSPECIFIED));
      } else {
        error := Some(InvalidState);
      }
    }

    method ScheduleTimerTO(kind: Timeout, now: real)
      modifies this`timerTo, this`timerToKind
      ensures View() == WithTimeout(old(View()), kind, now)
    {
      timerTo := Off;
      timerToKind := kind;
      timerTo := Due(now + RESPONSE_TIMEOUT);
    }

    method CancelTimers()
      modifies this`timerT1, this`timerT2, this`timerTo, this`leaseTimer
      ensures View() == WithoutTimers(old(View()))
    {
      timerT1 := Off;
      timerT2 := Off;
      timerTo := Off;
      leaseTimer := Off;
    }

    method InitClient(newXid: nat, now: real) returns (error: Option<Error>)
      modifies this
      ensures CameOut(Steps.InitClient(old(View()), newXid, now), old(sent), error)
    {
      CancelTimers();
      error := SendDiscover(newXid);
      if error != None { return; }
      ScheduleTimerTO(WaitOffer, now);
      clientState := Selecting;
    }

    method InitRebootedClient(newXid: nat, now: real) returns (error: Option<Error>)
      modifies this
      ensures CameOut(Steps.InitRebootedClient(old(View()), newXid, now), old(sent), error)
    {
      error := SendRequest(newXid);
      if error != None { return; }
      ScheduleTimerTO(WaitAck, now);
      clientState := Rebooting;
    }

    method RecordOffer(m: Message)
      modifies this`lease
      ensures View() == Steps.RecordOffer(old(View()), m)
    {
      if m.yiaddr != UNSPECIFIED {
        lease := Some(ClientLease(m.yiaddr, mac, m.serverId, 0.0, 0.0, 0.0));
      }
    }

    method RecordLease(m: Message)
      requires lease != None
      modifies this`lease
      ensures lease == Some(Steps.RecordLease(old(lease).value, m))
    {
      if m.yiaddr != UNSPECIFIED {
        var known := lease.value;
        lease := Some(known.(leaseTime := m.leaseTime, renewalTime := m.renewalTime, rebindTime := m.rebindingTime));
      }
    }

    method BindLease(now: real)
      requires lease != None
      modifies this`address, this`leaseTimer
      ensures address == lease.value.ip && leaseTimer == Due(now + lease.value.leaseTime)
    {
      address := lease.value.ip;
      leaseTimer := Off;
      leaseTimer := Due(now + lease.value.leaseTime);
    }

    method UnboundLease()
      modifies this
      ensures View() == Steps.UnboundLease(old(View())) && sent == old(sent)
    {
      CancelTimers();
      address := UNSPECIFIED;
    }

    method HandleDHCPACK(m: Message, now: real) returns (error: Option<Error>)
      modifies this
      ensures match OnAck(old(View()), m, now)
        case Ended(c, messages) => error == None && View() == c.(state := old(clientState)) && sent == old(sent)
        case Threw(e) => error == Some(e)
    {
      if lease == None { return Some(NoLease); }
      RecordLease(m);
      timerTo := Off;
      timerT1 := Due(now + lease.value.renewalTime);
      timerT2 := Due(now + lease.value.rebindTime);
      BindLease(now);
      error := None;
    }

    method HandleDHCPMessage(m: Message, newXid: nat, now: real) returns (error: Option<Error>)
      requires isOperational
      modifies this
      ensures CameOut(OnMessage(old(View()), m, newXid, now), old(sent), error)
    {
      hide Steps.InitClient, Steps.SendRequest;
      error := None;
      if m.op != BootReply || m.xid != xid {
        return;
      }
      match clientState {
        case Init =>
        case Selecting =>
          if m.kind == Offer {
            ScheduleTimerTO(WaitAck, now);
            clientState := Requesting;
            RecordOffer(m);
            error := SendRequest(newXid);
          }
        case Requesting =>
          if m.kind == Ack {
            error := HandleDHCPACK(m, now);
            clientState := Bound;
          } else if m.kind == Nak {
            error := InitClient(newXid, now);
          }
        case Bound =>
        case Renewing =>
          if m.kind == Ack {
            error := HandleDHCPACK(m, now);
            clientState := Bound;
          } else if m.kind == Nak {
            UnboundLease();
            error := InitClient(newXid, now);
          }
        case Rebinding =>
          if m.kind == Nak {
            UnboundLease();
            error := InitClient(newXid, now);
          } else if m.kind == Ack {
            error := HandleDHCPACK(m, now);
            clientState := Bound;
          }
        case Rebooting =>
          if m.kind == Ack {
            error := HandleDHCPACK(m, now);
            clientState := Bound;
          } else if m.kind == Nak {
            error := InitClient(newXid, now);
          }
        case _ =>
          error := Some(UnknownState);
      }
    }

    method HandleTimer(e: Expiry, newXid: nat, now: real) returns (error: Option<Error>)
      modifies this
      ensures CameOut(OnTimer(old(View()), e, newXid, now), old(sent), error)
    {
      hide Steps.InitClient, Steps.InitRebootedClient, Steps.SendRequest;
      match e {
        case StartExpires =>
          error := OpenSocket();
          if error != None { return; }
          if lease != None {
            clientState := InitReboot;
            error := InitRebootedClient(newXid, now);
          } else {
            clientState := Init;
            error := InitClient(newXid, now);
          }
        case TimeoutExpires =>
          error := InitClient(newXid, now);
        case T1Expires =>
          clientState := Renewing;
          ScheduleTimerTO(WaitAck, now);
          error := SendRequest(newXid);
        case T2Expires =>
          if clientState == Renewing {
            clientState := Rebinding;
            CancelTimers();
            error := SendRequest(newXid);
            if error != None { return; }
            ScheduleTimerTO(WaitAck, now);
          } else {
            error := Some(WrongStateForT2);
          }
        case LeaseExpires =>
          UnboundLease();
          clientState := Init;
          error := InitClient(newXid, now);
      }
    }

    method ReceiveAssociation(newXid: nat, now: real) returns (error: Option<Error>)
      modifies this
      ensures CameOut(OnAssociated(old(View()), newXid, now), old(sent), error)
    {
      error := None;
      if attached {
        error := InitClient(newXid, now);
      }
    }

    method StartApp(now: real)
      modifies this
      ensures View() == OnStart(old(View()), now) && sent == old(sent)
    {
      attached := true;
      startTimer := Due(if startTime < now then now else startTime);
      isOperational := true;
    }

    /** What a shutdown or crash of the node does to the client, the loss of its socket and address included. */
    method StopApp()
      modifies this
      ensures View() == OnStop(old(View())) && sent == old(sent)
    {
      CancelTimers();
      startTimer := Off;
      isOperational := false;
      attached := false;
      bound := false;
      address := UNSPECIFIED;
    }
  }
}
