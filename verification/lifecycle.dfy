/**
 The application over time: calls of `APP_Tasks`, the receive signal and the console commands
 interleaved in any order, each taken as one atomic event, and what holds of every session
 reachable from `APP_Initialize` that way.
 */
module Lifecycle {
  import opened CTypes
  import opened CString
  import opened Session
  import opened App
  import opened AppCommands
  import IpPortParser

  /** One atomic change of the application data. */
  datatype Event =
    | Tick(env: Env)              // APP_Tasks
    | ReceiveSignal               // _APP_MessageReceiveHandler
    | Connect(argv: seq<CStr>)    // connect_tls
    | Disconnect                  // disconnect_tls
    | Send(argv: seq<CStr>)       // send_msg
    | SetIpMode(argv: seq<CStr>)  // ipmode

  /** The event has defined behaviour in C: the commands that copy `argv[1]` need it to exist,
      and `send_msg` needs it to fit the message buffer. */
  predicate Defined(cfg: Config, s: Session, e: Event)
  {
    match e
    case Connect(argv) => |argv| >= 2
    case Send(argv) => s.state == WaitForMessage ==> |argv| >= 2 && |argv[1]| <= cfg.messageSize
    case _ => true
  }

  function Apply(cfg: Config, s: Session, e: Event): Session
    requires Defined(cfg, s, e)
  {
    match e
    case Tick(env) => Step(cfg, s, env).next
    case ReceiveSignal => MessageReceiveHandler(s)
    case Connect(argv) => ConnectTlsCommand(cfg, s, argv)
    case Disconnect => DisconnectTlsCommand(s)
    case Send(argv) => SendMsgCommand(cfg, s, argv)
    case SetIpMode(argv) => IpModeCommand(s, argv)
  }

  /** The session after a sequence of events, or None when one of them is undefined. */
  function Run(cfg: Config, s: Session, es: seq<Event>): Option<Session>
    decreases |es|
  {
    if |es| == 0 then Some(s)
    else if !Defined(cfg, s, es[0]) then None
    else Run(cfg, Apply(cfg, s, es[0]), es[1..])
  }

  /** What holds of every session reachable from `APP_Initialize`: the buffers keep their
      sizes, `urlBuffer` stays all NULs, the start, DNS, connection and negotiation times stay
      zero, nothing is ever counted as sent, the raw and clear received counters agree, and the
      port fits `TCP_PORT`. */
  predicate Inv(cfg: Config, s: Session)
  {
    && |s.ipPortBuffer| == cfg.ipPortBufferSize
    && |s.message| == cfg.messageSize
    && |s.urlBuffer| == cfg.urlBufferSize
    && (forall i | 0 <= i < |s.urlBuffer| :: s.urlBuffer[i] == '\0')
    && s.testStart == 0 && s.dnsComplete == 0 && s.connectionOpened == 0 && s.sslNegComplete == 0
    && s.rawBytesSent == 0 && s.clearBytesSent == 0
    && s.rawBytesReceived == s.clearBytesReceived
    && s.port < Pow2(cfg.portBits)
  }

  lemma InitializeEstablishesInv(cfg: Config)
    ensures Inv(cfg, Initialize(cfg))
  {
  }

  /** Every case of `APP_Tasks` keeps the invariant. */
  lemma StepPreservesInv(cfg: Config, s: Session, env: Env)
    requires Inv(cfg, s)
    ensures Inv(cfg, Step(cfg, s, env).next)
  {
    var t := Step(cfg, s, env).next;
    if s.state == ParseIpPort {
      assert Step(cfg, s, env) == StepConnecting(cfg, s, env) == StepParseIpPort(cfg, s, env);
      ParseStepPreservesInv(cfg, s, env);
    } else if s.state == RecvMessage {
      assert Step(cfg, s, env) == StepTransferring(s, env) == StepRecvMessage(s, env);
    } else {
      assert OnlyWrites(s, t, Writes(s.state));
      assert Writes(s.state) <= {FState, FSocket, FReceiveHandle};
    }
  }

  lemma ParseStepPreservesInv(cfg: Config, s: Session, env: Env)
    requires Inv(cfg, s) && s.state == ParseIpPort
    ensures Inv(cfg, StepParseIpPort(cfg, s, env).next)
  {
    var p := IpPortParser.ParseIpPort(s.ipPortBuffer, cfg.portBits);
    assert |p.buffer| == |s.ipPortBuffer| && p.port < Pow2(cfg.portBits);
    var t := StepParsed(s, p, env).next;
    assert StepParseIpPort(cfg, s, env).next == t;
    assert OnlyWrites(s, t, Writes(ParseIpPort));
    assert t.urlBuffer == s.urlBuffer && t.message == s.message && t.testStart == s.testStart;
    if t.state != OpenSecureSocket {
      assert OnlyWrites(s, t, {FState, FIpPortBuffer, FHost, FPort, FAddress});
    }
  }

  lemma ApplyPreservesInv(cfg: Config, s: Session, e: Event)
    requires Inv(cfg, s) && Defined(cfg, s, e)
    ensures Inv(cfg, Apply(cfg, s, e))
  {
    match e
    case Tick(env) => StepPreservesInv(cfg, s, env);
    case ReceiveSignal =>
    case Connect(argv) =>
    case Disconnect =>
    case Send(argv) =>
    case SetIpMode(argv) =>
  }

  lemma {:induction false} RunPreservesInv(cfg: Config, s: Session, es: seq<Event>)
    requires Inv(cfg, s)
    ensures Run(cfg, s, es).Some? ==> Inv(cfg, Run(cfg, s, es).value)
    decreases |es|
  {
    if |es| > 0 && Defined(cfg, s, es[0]) {
      ApplyPreservesInv(cfg, s, es[0]);
      RunPreservesInv(cfg, Apply(cfg, s, es[0]), es[1..]);
    }
  }

  /** Every session reachable from `APP_Initialize` satisfies the invariant. */
  lemma ReachableSessionsSatisfyInv(cfg: Config, es: seq<Event>)
    ensures Run(cfg, Initialize(cfg), es).Some? ==> Inv(cfg, Run(cfg, Initialize(cfg), es).value)
  {
    InitializeEstablishesInv(cfg);
    RunPreservesInv(cfg, Initialize(cfg), es);
  }

  /** What `stats` can report on a reachable session: nothing sent, equal raw and clear
      received counts, zero DNS and connection times, never the negotiation branch, and a
      first-packet time measured from timer value zero. */
  lemma StatsOnReachableSession(cfg: Config, es: seq<Event>, s: Session, freq: uint32)
    requires ValidConfig(cfg) && freq > 0
    requires Run(cfg, Initialize(cfg), es) == Some(s)
    ensures |s.urlBuffer| == cfg.urlBufferSize
    ensures var r := StatsCommand(s, freq);
      && r.rawSent == 0 && r.clearSent == 0
      && r.rawReceived == r.clearReceived
      && r.dnsLookup == 0 && r.tcpStart == 0
      && r.firstPacket == AfterConnection(Interval(s.firstRxDataPacket, 0, freq))
  {
    ReachableSessionsSatisfyInv(cfg, es);
    assert Inv(cfg, s);
    assert s.urlBuffer[4] == '\0';
    IntervalOfOneSample(0, freq);
  }

  /** Only a call of `APP_Tasks` in the parse state writes the DNS, connection and negotiation
      times, and it writes zero. */
  lemma OnlyParseWritesAttemptTimes(cfg: Config, s: Session, e: Event)
    requires Defined(cfg, s, e)
    ensures var t := Apply(cfg, s, e);
      (t.dnsComplete != s.dnsComplete || t.connectionOpened != s.connectionOpened || t.sslNegComplete != s.sslNegComplete)
      ==> e.Tick? && s.state == ParseIpPort && t.dnsComplete == t.connectionOpened == t.sslNegComplete == 0
  {
    if e.Tick? && s.state == ParseIpPort {
      StepParsesBuffer(cfg, s, e.env);
    } else if e.Tick? {
      assert OnlyWrites(s, Step(cfg, s, e.env).next, Writes(s.state));
      assert FDnsComplete !in Writes(s.state) && FConnectionOpened !in Writes(s.state)
        && FSslNegComplete !in Writes(s.state);
    }
  }

  // ---------------------------------------------------------------------------
  // Waiting

  /** The answers of the environment keep the application where it is: a stack or interface
      not yet ready, a socket not yet connected or still negotiating, no room to write, nothing
      to read, or a state in which a step does nothing. */
  predicate Parked(s: Session, env: Env)
  {
    match s.state
    case WaitForTcpipInit => env.stackStatus >= 0 && env.stackStatus != SysStatusReady
    case WaitForIp => !InterfacesReadyFrom(env.interfaceReady, 0)
    case WaitForSecureConnection => !env.isConnected
    case WaitForNegotiation => env.isNegotiating
    case SendMessage => !env.writeReady
    case RecvMessage => !env.readReady
    case _ => Idle(s.state)
  }

  function Ticks(envs: seq<Env>): (es: seq<Event>)
    ensures |es| == |envs|
    ensures forall i | 0 <= i < |envs| :: es[i] == Tick(envs[i])
  {
    if |envs| == 0 then [] else [Tick(envs[0])] + Ticks(envs[1..])
  }

  /** Any number of steps that keep finding the environment not ready change nothing and touch
      no socket; a send without room is retried for as long as it takes. */
  lemma {:induction false} ParkedStepsChangeNothing(cfg: Config, s: Session, envs: seq<Env>)
    requires forall i | 0 <= i < |envs| :: Parked(s, envs[i])
    ensures Run(cfg, s, Ticks(envs)) == Some(s)
    ensures forall i | 0 <= i < |envs| :: Step(cfg, s, envs[i]) == Outcome(s, NoIo)
    decreases |envs|
  {
    forall i | 0 <= i < |envs| ensures Step(cfg, s, envs[i]) == Outcome(s, NoIo) {
      assert Parked(s, envs[i]);
    }
    if |envs| > 0 {
      var es := Ticks(envs);
      assert es[1..] == Ticks(envs[1..]);
      ParkedStepsChangeNothing(cfg, s, envs[1..]);
    }
  }

  // ---------------------------------------------------------------------------
  // Receiving

  /** A receive signal followed by a step that finds data returns to the interrupted state,
      counts the bytes read in both received counters and leaves the connection otherwise as
      it was. */
  lemma ReceiveResumesInterruptedState(cfg: Config, s: Session, env: Env)
    requires s.state != RecvMessage && env.readReady
    ensures var t := Apply(cfg, Apply(cfg, s, ReceiveSignal), Tick(env));
      && t.state == s.state && t.oldstate == s.state
      && t.clearBytesReceived == AddU32(s.clearBytesReceived, env.bytesRead)
      && t.rawBytesReceived == AddU32(s.rawBytesReceived, env.bytesRead)
      && t.lastRxDataPacket == env.clockLast
      && OnlyWrites(s, t, {FOldState, FFirstRx, FLastRx, FRawReceived, FClearReceived})
  {
  }

  /** A second receive signal before the first is served overwrites the saved state with the
      receive state itself, so serving it leaves the application in the receive state. */
  lemma RepeatedSignalLosesInterruptedState(cfg: Config, s: Session, env: Env)
    requires env.readReady
    ensures var t := Apply(cfg, Apply(cfg, Apply(cfg, s, ReceiveSignal), ReceiveSignal), Tick(env));
      t.state == RecvMessage && t.oldstate == RecvMessage
  {
  }

  // ---------------------------------------------------------------------------
  // Connecting, sending and closing

  /** An environment in which everything succeeds at once for the given host and port. */
  predicate Cooperative(env: Env, host: CStr, port: nat)
  {
    && env.stringToAddress(host).Some?
    && env.socketOpen(IPv4, port, env.stringToAddress(host).value) != InvalidSocket
    && env.isConnected && !env.isNegotiating && env.isSecure && env.writeReady
  }

  /** `connect_tls host:port` and one step store the host and port and, when the address
      converts, go on to open the socket. */
  lemma ConnectParsesHostAndPort(cfg: Config, s: Session, argv: seq<CStr>, host: CStr, port: nat, env: Env)
    requires |argv| == 2 && argv[1] == IpPortParser.FormatIpPort(host, port)
    requires host != [] && ':' !in host
    requires 0 < port <= 65535 && port < Pow2(cfg.portBits)
    requires |IpPortParser.FormatIpPort(host, port)| <= cfg.ipPortBufferSize
    requires env.stringToAddress(host).Some?
    ensures var t := Apply(cfg, Apply(cfg, s, Connect(argv)), Tick(env));
      && t.state == OpenSecureSocket
      && AttemptReset(t)
      && t.host == Some(host) && t.port == port
      && t.address == env.stringToAddress(host).value
  {
    var s1 := Apply(cfg, s, Connect(argv));
    var p := IpPortParser.ParseIpPort(s1.ipPortBuffer, cfg.portBits);
    assert p.host == Some(host) && p.port == port by {
      IpPortParser.ParseFormatRoundTrip(host, port, cfg.ipPortBufferSize, cfg.portBits);
    }
    StepParsesBuffer(cfg, s1, env);
  }

  /** From opening the socket, three steps in a cooperative environment reach the state waiting
      for messages with the socket stored and the host and port unchanged. */
  lemma SecureConnectionEstablished(cfg: Config, s: Session, env: Env)
    requires s.state == OpenSecureSocket
    requires env.socketOpen(IPv4, s.port, s.address) != InvalidSocket
    requires env.isConnected && !env.isNegotiating && env.isSecure
    ensures var t := Apply(cfg, Apply(cfg, Apply(cfg, s, Tick(env)), Tick(env)), Tick(env));
      && t.state == WaitForMessage
      && t.socket == env.socketOpen(IPv4, s.port, s.address)
      && t.receiveHandle == env.signalHandle
      && OnlyWrites(s, t, {FState, FSocket, FReceiveHandle})
  {
    var s1 := Apply(cfg, s, Tick(env));
    assert s1 == StepOpenSecureSocket(s, env).next;
    var s2 := Apply(cfg, s1, Tick(env));
    assert s2 == StepWaitForSecureConnection(s1, env).next;
    assert s2.state == WaitForNegotiation;
    assert Apply(cfg, s2, Tick(env)) == StepWaitForNegotiation(s2, env).next;
  }

  /** `connect_tls host:port`, from whatever state, and four steps in a cooperative
      environment reach the state waiting for messages with the host, port and socket stored
      and the counters of the attempt reset. */
  lemma ConnectReachesWaitForMessage(cfg: Config, s: Session, argv: seq<CStr>, host: CStr, port: nat, env: Env)
    requires |argv| == 2 && argv[1] == IpPortParser.FormatIpPort(host, port)
    requires host != [] && ':' !in host
    requires 0 < port <= 65535 && port < Pow2(cfg.portBits)
    requires |IpPortParser.FormatIpPort(host, port)| <= cfg.ipPortBufferSize
    requires Cooperative(env, host, port)
    ensures var s2 := Apply(cfg, Apply(cfg, s, Connect(argv)), Tick(env));
      var t := Apply(cfg, Apply(cfg, Apply(cfg, s2, Tick(env)), Tick(env)), Tick(env));
      && t.state == WaitForMessage
      && t.host == Some(host) && t.port == port
      && t.socket == env.socketOpen(IPv4, port, env.stringToAddress(host).value)
      && AttemptReset(t)
  {
    var s2 := Apply(cfg, Apply(cfg, s, Connect(argv)), Tick(env));
    var t := Apply(cfg, Apply(cfg, Apply(cfg, s2, Tick(env)), Tick(env)), Tick(env));
    var address := env.stringToAddress(host).value;
    assert s2.state == OpenSecureSocket && AttemptReset(s2) && s2.host == Some(host)
      && s2.port == port && s2.address == address by {
      ConnectParsesHostAndPort(cfg, s, argv, host, port, env);
    }
    assert t.state == WaitForMessage && t.socket == env.socketOpen(IPv4, port, address)
      && OnlyWrites(s2, t, {FState, FSocket, FReceiveHandle}) by {
      SecureConnectionEstablished(cfg, s2, env);
    }
  }

  /** `send_msg` while waiting for messages and one step with room to write return to waiting
      for messages with the message stored and no other field changed. */
  lemma SendReturnsToWaitForMessage(cfg: Config, s: Session, argv: seq<CStr>, env: Env)
    requires s.state == WaitForMessage && |argv| == 2 && |argv[1]| <= cfg.messageSize && env.writeReady
    ensures var u := Apply(cfg, Apply(cfg, s, Send(argv)), Tick(env));
      && u.state == WaitForMessage
      && CStringOf(u.message) == argv[1]
      && OnlyWrites(s, u, {FMessage})
  {
    var s1 := Apply(cfg, s, Send(argv));
    assert Apply(cfg, s1, Tick(env)) == StepSendMessage(s1, env).next;
  }

  /** The send step hands the whole message buffer to the socket: the message and the NUL
      padding after it, `sizeof(message)` bytes in all. */
  lemma SendWritesWholeBuffer(cfg: Config, s: Session, argv: seq<CStr>, env: Env)
    requires s.state == WaitForMessage && |argv| == 2 && |argv[1]| <= cfg.messageSize && env.writeReady
    ensures var msg := argv[1];
      var o := Step(cfg, SendMsgCommand(cfg, s, argv), env);
      && o.io.Write?
      && o.io.socket == s.socket
      && |o.io.bytes| == cfg.messageSize
      && o.io.bytes[..|msg|] == msg
      && (forall i | |msg| <= i < cfg.messageSize :: o.io.bytes[i] == '\0')
  {
    var m := SendMsgCommand(cfg, s, argv).message;
    assert CStringOf(m) == argv[1];
  }

  /** `disconnect_tls` while waiting for messages closes the socket on the next step and returns
      to waiting for a command; while the connection is still being set up it does nothing. */
  lemma DisconnectClosesOnlyFromWaitForMessage(cfg: Config, s: Session, env: Env)
    ensures s.state == WaitForMessage ==>
      var o := Step(cfg, Apply(cfg, s, Disconnect), env);
      o.next.state == WaitingForCommand && o.io == Close(s.socket, s.receiveHandle)
    ensures s.state == WaitForSecureConnection || s.state == WaitForNegotiation ==>
      Apply(cfg, s, Disconnect) == s
  {
  }

  /** `connect_tls` during a connection abandons it: the parse state is entered with the old
      socket still stored and never closed. */
  lemma ConnectAbandonsOpenConnection(cfg: Config, s: Session, argv: seq<CStr>)
    requires |argv| >= 2 && s.state == WaitForMessage
    ensures var t := Apply(cfg, s, Connect(argv));
      t.state == ParseIpPort && t.socket == s.socket && t.receiveHandle == s.receiveHandle
  {
  }

  // ---------------------------------------------------------------------------
  // The IP mode

  /** No step reads the IP mode: changing it changes nothing else a step does. */
  lemma StepIgnoresIpMode(cfg: Config, s: Session, env: Env, mode: int)
    ensures Step(cfg, s.(ipMode := mode), env)
      == Outcome(Step(cfg, s, env).next.(ipMode := mode), Step(cfg, s, env).io)
  {
    var m := s.(ipMode := mode);
    if StartingUp(s.state) {
      assert Step(cfg, m, env) == StepStartingUp(m, env);
      assert Step(cfg, s, env) == StepStartingUp(s, env);
    } else if s.state == ParseIpPort {
      StepParsesBuffer(cfg, m, env);
      StepParsesBuffer(cfg, s, env);
    } else if Connecting(s.state) {
      assert Step(cfg, m, env) == StepConnecting(cfg, m, env);
      assert Step(cfg, s, env) == StepConnecting(cfg, s, env);
    } else if Transferring(s.state) {
      assert Step(cfg, m, env) == StepTransferring(m, env);
      assert Step(cfg, s, env) == StepTransferring(s, env);
    }
  }
}
