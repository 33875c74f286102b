/**
 `app.c`: one call of `APP_Tasks` as a function from the application data and the answers of
 the environment to the next application data and the socket call the step made, the receive
 signal handler, and `htons`.
 */
module App {
  import opened CTypes
  import opened CString
  import opened Session
  import IpPortParser

  /** `htons` as the application defines it: the two bytes of a 16-bit value swapped. */
  function Htons(n: bv16): (r: bv16)
    ensures r & 0xff == n >> 8
    ensures r >> 8 == n & 0xff
  {
    ((n & 0xff) << 8) | ((n & 0xff00) >> 8)
  }

  /** Swapping the bytes twice gives the value back. */
  lemma HtonsInvolution(n: bv16)
    ensures Htons(Htons(n)) == n
  {
  }

  /** The call into the presentation layer that changes the socket, if a step makes one. */
  datatype Io =
    | NoIo
    | Open(family: AddressType, port: nat, address: uint32)   // NET_PRES_SocketOpen
    | Register(socket: int)                                  // NET_PRES_SocketSignalHandlerRegister
    | Write(socket: int, bytes: seq<char>)                   // NET_PRES_SocketWrite
    | Read(socket: int, capacity: nat)                       // NET_PRES_SocketRead
    | Close(socket: int, signalHandle: int)                  // ..SignalHandlerDeregister, then ..SocketClose

  datatype Outcome = Outcome(next: Session, io: Io)

  /** The fields each case of `APP_Tasks` may write. */
  function Writes(st: AppState): set<Field>
  {
    match st
    case Init => {FState}
    case WaitForTcpipInit => {FState}
    case WaitForIp => {FState}
    case ParseIpPort =>
      {FState, FIpPortBuffer, FHost, FPort, FAddress, FQueryState,
       FDnsComplete, FConnectionOpened, FSslNegComplete, FFirstRx, FLastRx,
       FRawSent, FRawReceived, FClearSent, FClearReceived}
    case OpenSecureSocket => {FState, FSocket}
    case WaitForSecureConnection => {FState}
    case WaitForNegotiation => {FState, FReceiveHandle}
    case SendMessage => {FState}
    case RecvMessage => {FState, FFirstRx, FLastRx, FRawReceived, FClearReceived}
    case CloseConnection => {FState}
    case _ => {}
  }

  /** The states in which a step does nothing at all. */
  predicate Idle(st: AppState)
  {
    st == WaitingForCommand || st == WaitForMessage || st == TcpipError || st.Unlisted?
  }

  /** A new connection attempt: the clock samples and byte counters the parser resets are zero. */
  predicate AttemptReset(s: Session)
  {
    && s.dnsComplete == 0 && s.connectionOpened == 0 && s.sslNegComplete == 0
    && s.firstRxDataPacket == 0 && s.lastRxDataPacket == 0
    && s.rawBytesReceived == 0 && s.rawBytesSent == 0
    && s.clearBytesReceived == 0 && s.clearBytesSent == 0
  }

  function StepInit(s: Session): (o: Outcome)
    requires s.state == Init
    ensures o.next.state == WaitForTcpipInit
    ensures OnlyWrites(s, o.next, {FState}) && o.io == NoIo
  {
    Outcome(s.(state := WaitForTcpipInit), NoIo)
  }

  /** A failed stack parks the application in the error state, a ready one moves it on, and
      any other status leaves it waiting. */
  function StepWaitForTcpipInit(s: Session, status: int): (o: Outcome)
    requires s.state == WaitForTcpipInit
    ensures status < 0 ==> o.next.state == TcpipError
    ensures status == SysStatusReady ==> o.next.state == WaitForIp
    ensures 0 <= status && status != SysStatusReady ==> o.next == s
    ensures OnlyWrites(s, o.next, {FState}) && o.io == NoIo
  {
    if status < 0 then Outcome(s.(state := TcpipError), NoIo)
    else if status == SysStatusReady then Outcome(s.(state := WaitForIp), NoIo)
    else Outcome(s, NoIo)
  }

  /** The loop of `APP_TCPIP_WAIT_FOR_IP`, from interface `i` on: false as soon as one
      interface is not ready. */
  function InterfacesReadyFrom(ready: seq<bool>, i: nat): (b: bool)
    requires i <= |ready|
    ensures b <==> forall j | i <= j < |ready| :: ready[j]
    decreases |ready| - i
  {
    if i == |ready| then true
    else if !ready[i] then false
    else InterfacesReadyFrom(ready, i + 1)
  }

  /** The application waits for a command once every interface is ready (at once when there
      are none) and otherwise stays where it is. */
  function StepWaitForIp(s: Session, ready: seq<bool>): (o: Outcome)
    requires s.state == WaitForIp
    ensures o.next.state == WaitingForCommand <==> forall i | 0 <= i < |ready| :: ready[i]
    ensures o.next.state != WaitingForCommand ==> o.next == s
    ensures OnlyWrites(s, o.next, {FState}) && o.io == NoIo
  {
    if InterfacesReadyFrom(ready, 0) then Outcome(s.(state := WaitingForCommand), NoIo)
    else Outcome(s, NoIo)
  }

  /** The parsed host and port are stored before they are checked. Port 0 or above 65535
      ("Invalid PORT") and a host the address conversion rejects ("Invalid IP") lead back to
      waiting for a command, the latter with whatever the failed conversion left in the
      address; otherwise the address is stored, the family is IPv4, the attempt's
      counters are reset and the socket is opened next. `p` is what `_APP_ParseIPPort` gave. */
  function StepParsed(s: Session, p: IpPortParser.ParseResult, env: Env): (o: Outcome)
    requires s.state == ParseIpPort
    ensures o.next.host == p.host && o.next.port == p.port && o.next.ipPortBuffer == p.buffer
    ensures var accepted := 0 < p.port <= 65535 && p.host.Some? && env.stringToAddress(p.host.value).Some?;
      && (o.next.state == OpenSecureSocket <==> accepted)
      && (!accepted ==> o.next.state == WaitingForCommand)
      && (!(0 < p.port <= 65535) ==> OnlyWrites(s, o.next, {FState, FIpPortBuffer, FHost, FPort}))
      && (!accepted ==> OnlyWrites(s, o.next, {FState, FIpPortBuffer, FHost, FPort, FAddress}))
      && (0 < p.port <= 65535 && p.host.Some? && !accepted ==>
            o.next.address == env.addressOnFailure(p.host.value))
      && (accepted ==> o.next.address == env.stringToAddress(p.host.value).value)
      && (accepted ==> o.next.queryState == IPv4 && AttemptReset(o.next))
    ensures OnlyWrites(s, o.next, Writes(ParseIpPort)) && o.io == NoIo
  {
    var parsed := s.(ipPortBuffer := p.buffer, host := p.host, port := p.port);
    if p.port <= 0 || p.port > 65535 then
      Outcome(parsed.(state := WaitingForCommand), NoIo)
    // The parser gives a NULL host only with port 0, so the address conversion never sees one.
    else if p.host.None? then
      Outcome(parsed.(state := WaitingForCommand), NoIo)
    else if env.stringToAddress(p.host.value).None? then
      Outcome(parsed.(address := env.addressOnFailure(p.host.value), state := WaitingForCommand), NoIo)
    else
      Outcome(parsed.(
        address := env.stringToAddress(p.host.value).value,
        queryState := IPv4,
        dnsComplete := 0, connectionOpened := 0, sslNegComplete := 0,
        firstRxDataPacket := 0, lastRxDataPacket := 0,
        rawBytesReceived := 0, rawBytesSent := 0, clearBytesReceived := 0, clearBytesSent := 0,
        state := OpenSecureSocket), NoIo)
  }

  /** The parse state: `_APP_ParseIPPort` on the buffer, then the checks of `StepParsed`. */
  function StepParseIpPort(cfg: Config, s: Session, env: Env): Outcome
    requires s.state == ParseIpPort
  {
    StepParsed(s, IpPortParser.ParseIpPort(s.ipPortBuffer, cfg.portBits), env)
  }

  /** The socket is opened as an IPv4 encrypted stream client to the stored port and address,
      whatever the IP mode; the handle is stored even when it is the invalid one. */
  function StepOpenSecureSocket(s: Session, env: Env): (o: Outcome)
    requires s.state == OpenSecureSocket
    ensures o.io == Open(IPv4, s.port, s.address)
    ensures o.next.socket == env.socketOpen(IPv4, s.port, s.address)
    ensures o.next.socket == InvalidSocket ==> o.next.state == WaitingForCommand
    ensures o.next.socket != InvalidSocket ==> o.next.state == WaitForSecureConnection
    ensures OnlyWrites(s, o.next, {FState, FSocket})
  {
    var h := env.socketOpen(IPv4, s.port, s.address);
    if h == InvalidSocket then Outcome(s.(socket := h, state := WaitingForCommand), Open(IPv4, s.port, s.address))
    else Outcome(s.(socket := h, state := WaitForSecureConnection), Open(IPv4, s.port, s.address))
  }

  function StepWaitForSecureConnection(s: Session, env: Env): (o: Outcome)
    requires s.state == WaitForSecureConnection
    ensures env.isConnected ==> o.next.state == WaitForNegotiation
    ensures !env.isConnected ==> o.next == s
    ensures OnlyWrites(s, o.next, {FState}) && o.io == NoIo
  {
    if !env.isConnected then Outcome(s, NoIo)
    else Outcome(s.(state := WaitForNegotiation), NoIo)
  }

  /** Once negotiation is over, a secure socket gets the receive handler and waits for
      messages; an insecure one is closed. */
  function StepWaitForNegotiation(s: Session, env: Env): (o: Outcome)
    requires s.state == WaitForNegotiation
    ensures env.isNegotiating ==> o.next == s && o.io == NoIo
    ensures !env.isNegotiating && env.isSecure ==>
      && o.next.state == WaitForMessage
      && o.next.receiveHandle == env.signalHandle
      && o.io == Register(s.socket)
    ensures !env.isNegotiating && !env.isSecure ==> o.next.state == CloseConnection && o.io == NoIo
    ensures !env.isNegotiating && !env.isSecure ==> OnlyWrites(s, o.next, {FState})
    ensures OnlyWrites(s, o.next, {FState, FReceiveHandle})
  {
    if env.isNegotiating then Outcome(s, NoIo)
    else if env.isSecure then
      Outcome(s.(receiveHandle := env.signalHandle, state := WaitForMessage), Register(s.socket))
    else Outcome(s.(state := CloseConnection), NoIo)
  }

  /** A ready socket is given the whole message buffer, padding included; otherwise the step
      stays here and tries again next time. No byte counter moves either way. */
  function StepSendMessage(s: Session, env: Env): (o: Outcome)
    requires s.state == SendMessage
    ensures env.writeReady ==> o.next.state == WaitForMessage && o.io == Write(s.socket, s.message)
    ensures !env.writeReady ==> o.next == s && o.io == NoIo
    ensures OnlyWrites(s, o.next, {FState})
  {
    if env.writeReady then Outcome(s.(state := WaitForMessage), Write(s.socket, s.message))
    else Outcome(s, NoIo)
  }

  /** Without data to read nothing changes. With data, the first-packet time is taken only if
      it is still zero, the last-packet time always, both received counters grow by the number
      of bytes read (at most the 256-byte buffer), and the interrupted state is resumed. */
  function StepRecvMessage(s: Session, env: Env): (o: Outcome)
    requires s.state == RecvMessage
    ensures !env.readReady ==> o.next == s && o.io == NoIo
    ensures env.readReady ==>
      && o.next.state == s.oldstate
      && o.next.firstRxDataPacket == (if s.firstRxDataPacket == 0 then env.clockFirst else s.firstRxDataPacket)
      && o.next.lastRxDataPacket == env.clockLast
      && o.next.clearBytesReceived == AddU32(s.clearBytesReceived, env.bytesRead)
      && o.next.rawBytesReceived == AddU32(s.rawBytesReceived, env.bytesRead)
      && o.io == Read(s.socket, NetworkBufferSize)
    ensures OnlyWrites(s, o.next, Writes(RecvMessage))
  {
    if !env.readReady then Outcome(s, NoIo)
    else
      var first := if s.firstRxDataPacket == 0 then env.clockFirst else s.firstRxDataPacket;
      Outcome(s.(
        firstRxDataPacket := first,
        lastRxDataPacket := env.clockLast,
        clearBytesReceived := AddU32(s.clearBytesReceived, env.bytesRead),
        rawBytesReceived := AddU32(s.rawBytesReceived, env.bytesRead),
        state := s.oldstate), Read(s.socket, NetworkBufferSize))
  }

  /** The receive handler is deregistered and the socket closed; both handles keep their
      values. */
  function StepCloseConnection(s: Session): (o: Outcome)
    requires s.state == CloseConnection
    ensures o.next.state == WaitingForCommand
    ensures o.io == Close(s.socket, s.receiveHandle)
    ensures OnlyWrites(s, o.next, {FState})
  {
    Outcome(s.(state := WaitingForCommand), Close(s.socket, s.receiveHandle))
  }

  /** The states that bring the stack up. */
  predicate StartingUp(st: AppState)
  {
    st == Init || st == WaitForTcpipInit || st == WaitForIp
  }

  /** The states that set a connection up. */
  predicate Connecting(st: AppState)
  {
    st == ParseIpPort || st == OpenSecureSocket || st == WaitForSecureConnection || st == WaitForNegotiation
  }

  /** The states that use or end an established connection. */
  predicate Transferring(st: AppState)
  {
    st == SendMessage || st == RecvMessage || st == CloseConnection
  }

  function StepStartingUp(s: Session, env: Env): (o: Outcome)
    requires StartingUp(s.state)
    ensures OnlyWrites(s, o.next, Writes(s.state))
  {
    match s.state
    case Init => StepInit(s)
    case WaitForTcpipInit => StepWaitForTcpipInit(s, env.stackStatus)
    case WaitForIp => StepWaitForIp(s, env.interfaceReady)
  }

  function StepConnecting(cfg: Config, s: Session, env: Env): (o: Outcome)
    requires Connecting(s.state)
    ensures OnlyWrites(s, o.next, Writes(s.state))
  {
    match s.state
    case ParseIpPort => StepParseIpPort(cfg, s, env)
    case OpenSecureSocket => StepOpenSecureSocket(s, env)
    case WaitForSecureConnection => StepWaitForSecureConnection(s, env)
    case WaitForNegotiation => StepWaitForNegotiation(s, env)
  }

  function StepTransferring(s: Session, env: Env): (o: Outcome)
    requires Transferring(s.state)
    ensures OnlyWrites(s, o.next, Writes(s.state))
  {
    match s.state
    case SendMessage => StepSendMessage(s, env)
    case RecvMessage => StepRecvMessage(s, env)
    case CloseConnection => StepCloseConnection(s)
  }

  /** A step in the parse state is `StepParsed` applied to what the parser gives. */
  lemma StepParsesBuffer(cfg: Config, s: Session, env: Env)
    requires s.state == ParseIpPort
    ensures Step(cfg, s, env) == StepParsed(s, IpPortParser.ParseIpPort(s.ipPortBuffer, cfg.portBits), env)
  {
    assert Step(cfg, s, env) == StepConnecting(cfg, s, env) == StepParseIpPort(cfg, s, env);
  }

  /** `APP_Tasks`: one step writes only the fields its case names, and the idle states
      (including the error state and any state without a case) do nothing. */
  function Step(cfg: Config, s: Session, env: Env): (o: Outcome)
    ensures OnlyWrites(s, o.next, Writes(s.state))
    ensures Idle(s.state) ==> o.next == s && o.io == NoIo
  {
    if StartingUp(s.state) then StepStartingUp(s, env)
    else if Connecting(s.state) then StepConnecting(cfg, s, env)
    else if Transferring(s.state) then StepTransferring(s, env)
    else Outcome(s, NoIo)
  }

  /** `_APP_MessageReceiveHandler`: the current state is saved and the receive state entered. */
  function MessageReceiveHandler(s: Session): (r: Session)
    ensures r.state == RecvMessage && r.oldstate == s.state
    ensures OnlyWrites(s, r, {FState, FOldState})
  {
    s.(oldstate := s.state, state := RecvMessage)
  }
}
