/**
 The application data of the TLS client demo (`APP_DATA appData` in `app.c`), the states of
 its state machine, and the answers its environment gives to the step function.
 */
module Session {
  import opened CTypes
  import opened CString

  /** The cases of `APP_Tasks`. `Unlisted` stands for any other value of the state
      enumeration, which the step function's `default` case leaves alone. */
  datatype AppState =
    | Init
    | WaitForTcpipInit
    | WaitForIp
    | WaitingForCommand
    | ParseIpPort
    | OpenSecureSocket
    | WaitForSecureConnection
    | WaitForNegotiation
    | WaitForMessage
    | SendMessage
    | RecvMessage
    | CloseConnection
    | TcpipError
    | Unlisted(code: nat)

  /** `IP_ADDRESS_TYPE`; `AnyAddress` is the all-zero value. */
  datatype AddressType = AnyAddress | IPv4 | IPv6

  /** Sizes and widths fixed by the application header, which this model leaves open:
      the width of `TCP_PORT` in bits and the sizes of the three character buffers. */
  datatype Config = Config(portBits: nat, ipPortBufferSize: nat, messageSize: nat, urlBufferSize: nat)

  /** `urlBuffer[4]` is read by the `stats` command, so the buffer holds at least five characters. */
  predicate ValidConfig(cfg: Config)
  {
    cfg.urlBufferSize > 4
  }

  /** `SYS_STATUS_READY` of the Harmony system service status codes. */
  const SysStatusReady: int := 2

  /** `NET_PRES_INVALID_SOCKET`, the handle `NET_PRES_SocketOpen` returns when it fails. */
  const InvalidSocket: int := -1

  /** `sizeof(networkBuffer)`, the capacity of every socket read. */
  const NetworkBufferSize: int := 256

  /** The number of bytes one `NET_PRES_SocketRead` into `networkBuffer` can return. */
  type ReadCount = n: int | 0 <= n <= NetworkBufferSize

  /** What the network stack, the presentation layer and the system timer answer during one
      call of `APP_Tasks`; each field is read only by the case of the step that needs it. */
  datatype Env = Env(
    stackStatus: int,                                // TCPIP_STACK_Status
    interfaceReady: seq<bool>,                       // TCPIP_STACK_NetIsReady, one per interface
    stringToAddress: CStr -> Option<uint32>,         // TCPIP_Helper_StringToIPAddress
    addressOnFailure: CStr -> uint32,                // what it leaves in the address when it fails
    socketOpen: (AddressType, nat, uint32) -> int,   // NET_PRES_SocketOpen(family, port, address)
    isConnected: bool,                               // NET_PRES_SocketIsConnected
    isNegotiating: bool,                             // NET_PRES_SocketIsNegotiatingEncryption
    isSecure: bool,                                  // NET_PRES_SocketIsSecure
    signalHandle: int,                               // NET_PRES_SocketSignalHandlerRegister
    writeReady: bool,                                // NET_PRES_SocketWriteIsReady
    readReady: bool,                                 // NET_PRES_SocketReadIsReady
    bytesRead: ReadCount,                            // NET_PRES_SocketRead
    clockFirst: uint32,                              // first SYS_TMR_SystemCountGet sample
    clockLast: uint32                                // second SYS_TMR_SystemCountGet sample
  )

  /** `appData`. `host` is the token the parser found (None for NULL); the byte counters and
      clock samples are 32-bit unsigned values. */
  datatype Session = Session(
    state: AppState,
    oldstate: AppState,
    ipPortBuffer: seq<char>,
    host: Option<CStr>,
    port: nat,
    address: uint32,
    queryState: AddressType,
    socket: int,
    receiveHandle: int,
    message: seq<char>,
    ipMode: int,
    testStart: uint32,
    dnsComplete: uint32,
    connectionOpened: uint32,
    sslNegComplete: uint32,
    firstRxDataPacket: uint32,
    lastRxDataPacket: uint32,
    rawBytesSent: uint32,
    rawBytesReceived: uint32,
    clearBytesSent: uint32,
    clearBytesReceived: uint32,
    urlBuffer: seq<char>
  )

  /** The fields of `appData`, for stating which of them an operation writes. */
  datatype Field =
    | FState | FOldState | FIpPortBuffer | FHost | FPort | FAddress | FQueryState
    | FSocket | FReceiveHandle | FMessage | FIpMode
    | FTestStart | FDnsComplete | FConnectionOpened | FSslNegComplete
    | FFirstRx | FLastRx
    | FRawSent | FRawReceived | FClearSent | FClearReceived | FUrlBuffer

  /** `b` agrees with `a` on every field outside `fs`: an operation that takes `a` to `b`
      writes at most the fields `fs`. */
  predicate OnlyWrites(a: Session, b: Session, fs: set<Field>)
  {
    && (FState !in fs ==> a.state == b.state)
    && (FOldState !in fs ==> a.oldstate == b.oldstate)
    && (FIpPortBuffer !in fs ==> a.ipPortBuffer == b.ipPortBuffer)
    && (FHost !in fs ==> a.host == b.host)
    && (FPort !in fs ==> a.port == b.port)
    && (FAddress !in fs ==> a.address == b.address)
    && (FQueryState !in fs ==> a.queryState == b.queryState)
    && (FSocket !in fs ==> a.socket == b.socket)
    && (FReceiveHandle !in fs ==> a.receiveHandle == b.receiveHandle)
    && (FMessage !in fs ==> a.message == b.message)
    && (FIpMode !in fs ==> a.ipMode == b.ipMode)
    && (FTestStart !in fs ==> a.testStart == b.testStart)
    && (FDnsComplete !in fs ==> a.dnsComplete == b.dnsComplete)
    && (FConnectionOpened !in fs ==> a.connectionOpened == b.connectionOpened)
    && (FSslNegComplete !in fs ==> a.sslNegComplete == b.sslNegComplete)
    && (FFirstRx !in fs ==> a.firstRxDataPacket == b.firstRxDataPacket)
    && (FLastRx !in fs ==> a.lastRxDataPacket == b.lastRxDataPacket)
    && (FRawSent !in fs ==> a.rawBytesSent == b.rawBytesSent)
    && (FRawReceived !in fs ==> a.rawBytesReceived == b.rawBytesReceived)
    && (FClearSent !in fs ==> a.clearBytesSent == b.clearBytesSent)
    && (FClearReceived !in fs ==> a.clearBytesReceived == b.clearBytesReceived)
    && (FUrlBuffer !in fs ==> a.urlBuffer == b.urlBuffer)
  }

  /** `APP_Initialize`: the whole of `appData` cleared to zero bytes, then the initial state and
      IP mode 4. Zero bytes read as the first enumerator, a NULL host, empty C strings and zero
      counters. */
  function Initialize(cfg: Config): (s: Session)
    ensures s.state == Init && s.oldstate == Init && s.ipMode == 4
    ensures s.host == None && s.port == 0 && s.address == 0 && s.queryState == AnyAddress
    ensures s.socket == 0 && s.receiveHandle == 0
    ensures |s.ipPortBuffer| == cfg.ipPortBufferSize && CStringOf(s.ipPortBuffer) == []
    ensures |s.message| == cfg.messageSize && CStringOf(s.message) == []
    ensures |s.urlBuffer| == cfg.urlBufferSize
    ensures forall i | 0 <= i < |s.urlBuffer| :: s.urlBuffer[i] == '\0'
    ensures s.rawBytesSent == s.rawBytesReceived == s.clearBytesSent == s.clearBytesReceived == 0
    ensures s.testStart == s.dnsComplete == s.connectionOpened == s.sslNegComplete == 0
    ensures s.firstRxDataPacket == s.lastRxDataPacket == 0
  {
    CStringOfTerminated([], Zeros(cfg.ipPortBufferSize));
    CStringOfTerminated([], Zeros(cfg.messageSize));
    assert [] + Zeros(cfg.ipPortBufferSize) == Zeros(cfg.ipPortBufferSize);
    assert [] + Zeros(cfg.messageSize) == Zeros(cfg.messageSize);
    Session(
      state := Init, oldstate := Init,
      ipPortBuffer := Zeros(cfg.ipPortBufferSize), host := None, port := 0, address := 0,
      queryState := AnyAddress, socket := 0, receiveHandle := 0,
      message := Zeros(cfg.messageSize), ipMode := 4,
      testStart := 0, dnsComplete := 0, connectionOpened := 0, sslNegComplete := 0,
      firstRxDataPacket := 0, lastRxDataPacket := 0,
      rawBytesSent := 0, rawBytesReceived := 0, clearBytesSent := 0, clearBytesReceived := 0,
      urlBuffer := Zeros(cfg.urlBufferSize))
  }
}
