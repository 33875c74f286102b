/**
 `app_commands.c`: the console commands that write the application data (`connect_tls`,
 `disconnect_tls`, `send_msg`, `ipmode`) and the interval arithmetic of `stats`.
 `argv` holds the command's words, `argv[0]` being the command name, so `argc` is `|argv|`.
 */
module AppCommands {
  import opened CTypes
  import opened CString
  import opened Session

  /** `connect_tls`: whatever the current state (a wrong one only draws a message) the
      argument is copied into `ipPortBuffer`, truncated to the buffer, and the parse state is
      entered. A missing argument is a NULL `argv[1]`, which C does not allow to be copied. */
  function ConnectTlsCommand(cfg: Config, s: Session, argv: seq<CStr>): (r: Session)
    requires |argv| >= 2
    ensures r.state == ParseIpPort
    ensures |r.ipPortBuffer| == cfg.ipPortBufferSize
    ensures CStringOf(r.ipPortBuffer) ==
      if |argv[1]| < cfg.ipPortBufferSize then argv[1] else argv[1][..cfg.ipPortBufferSize]
    ensures OnlyWrites(s, r, {FState, FIpPortBuffer})
  {
    s.(state := ParseIpPort, ipPortBuffer := StrNCpy(argv[1], cfg.ipPortBufferSize))
  }

  /** `disconnect_tls`: only a connection waiting for messages is sent to be closed. */
  function DisconnectTlsCommand(s: Session): (r: Session)
    ensures s.state == WaitForMessage ==> r.state == CloseConnection
    ensures s.state != WaitForMessage ==> r == s
    ensures OnlyWrites(s, r, {FState})
  {
    if s.state != WaitForMessage then s else s.(state := CloseConnection)
  }

  /** `send_msg`: only while waiting for messages, the message buffer is cleared, the argument
      copied into it and the send state entered. The copy is bounded by the argument's length,
      not the buffer's, so the argument has to fit. */
  function SendMsgCommand(cfg: Config, s: Session, argv: seq<CStr>): (r: Session)
    requires s.state == WaitForMessage ==> |argv| >= 2 && |argv[1]| <= cfg.messageSize
    ensures s.state != WaitForMessage ==> r == s
    ensures s.state == WaitForMessage ==>
      && r.state == SendMessage
      && |r.message| == cfg.messageSize
      && CStringOf(r.message) == argv[1]
      && (forall i | |argv[1]| <= i < |r.message| :: r.message[i] == '\0')
    ensures OnlyWrites(s, r, {FState, FMessage})
  {
    if s.state != WaitForMessage then s
    else
      var cleared := Zeros(cfg.messageSize);
      var copied := argv[1] + cleared[|argv[1]|..];
      CStringOfTerminated(argv[1], cleared[|argv[1]|..]);
      s.(message := copied, state := SendMessage)
  }

  /** `ipmode`: with exactly one argument the IP mode becomes its `atoi` value, unchecked;
      otherwise nothing changes. */
  function IpModeCommand(s: Session, argv: seq<CStr>): (r: Session)
    ensures |argv| != 2 ==> r == s
    ensures |argv| == 2 ==> r.ipMode == Atoi(argv[1])
    ensures OnlyWrites(s, r, {FIpMode})
  {
    if |argv| != 2 then s else s.(ipMode := Atoi(argv[1]))
  }

  /** One interval of `stats` in milliseconds: the difference of two timer samples in
      `uint32_t`, times 1000 in `unsigned long long`, divided by the timer frequency and
      stored back into a `uint32_t`. */
  function Interval(later: uint32, earlier: uint32, freq: uint32): uint32
    requires freq > 0
  {
    var elapsed := SubU32(later, earlier);
    var product := (elapsed * 1000) % Uint64Modulus;
    (product / freq) % Uint32Modulus
  }

  /** The interval is the elapsed time in milliseconds even across a wrap of the timer, and the
      64-bit product never overflows. It is reduced modulo 2^32 only when it does not fit. */
  lemma IntervalMeasuresElapsedTime(earlier: uint32, ticks: nat, freq: uint32)
    requires ticks < Uint32Modulus && freq > 0
    ensures Interval(AddU32(earlier, ticks), earlier, freq) == (ticks * 1000 / freq) % Uint32Modulus
    ensures ticks * 1000 / freq < Uint32Modulus ==> Interval(AddU32(earlier, ticks), earlier, freq) == ticks * 1000 / freq
  {
    var later := AddU32(earlier, ticks);
    if earlier + ticks < Uint32Modulus {
      assert later == earlier + ticks;
    } else {
      assert later == earlier + ticks - Uint32Modulus < earlier;
    }
    assert SubU32(later, earlier) == ticks;
    var product := ticks * 1000;
    assert product < Uint64Modulus;
    assert product % Uint64Modulus == product;
  }

  /** With a timer of at least 1 kHz no interval is ever truncated. */
  lemma IntervalFitsForKilohertzTimers(earlier: uint32, ticks: nat, freq: uint32)
    requires ticks < Uint32Modulus && freq >= 1000
    ensures Interval(AddU32(earlier, ticks), earlier, freq) == ticks * 1000 / freq
    ensures Interval(AddU32(earlier, ticks), earlier, freq) <= ticks
  {
    IntervalMeasuresElapsedTime(earlier, ticks, freq);
    var q := ticks * 1000 / freq;
    DivTimesDivisor(ticks * 1000, freq);
    MulMonotone(q, 1000, freq);
    assert q * 1000 <= ticks * 1000;
  }

  /** Two equal samples are zero milliseconds apart. */
  lemma IntervalOfOneSample(t: uint32, freq: uint32)
    requires freq > 0
    ensures Interval(t, t, freq) == 0
  {
    assert SubU32(t, t) == 0;
  }

  lemma MulMonotone(a: nat, b: int, c: int)
    requires b <= c
    ensures a * b <= a * c
  {
    assert a * c - a * b == a * (c - b);
  }

  lemma DivTimesDivisor(x: nat, f: int)
    requires f > 0
    ensures (x / f) * f <= x
  {
  }

  datatype FirstPacketTimes =
    | AfterNegotiation(negotiation: uint32, firstPacket: uint32)
    | AfterConnection(firstPacket: uint32)

  /** What `stats` prints. */
  datatype Report = Report(
    rawSent: uint32, rawReceived: uint32, clearSent: uint32, clearReceived: uint32,
    dnsLookup: uint32, tcpStart: uint32, firstPacket: FirstPacketTimes, lastPacket: uint32)

  /** `stats`: the four byte counters and the intervals between the recorded clock samples,
      with the negotiation time reported only when `urlBuffer[4]` is 's'. It reads the
      application data and writes none of it. */
  function StatsCommand(s: Session, freq: uint32): (r: Report)
    requires freq > 0 && |s.urlBuffer| > 4
    ensures r.rawSent == s.rawBytesSent && r.rawReceived == s.rawBytesReceived
    ensures r.clearSent == s.clearBytesSent && r.clearReceived == s.clearBytesReceived
    ensures r.dnsLookup == Interval(s.dnsComplete, s.testStart, freq)
    ensures r.tcpStart == Interval(s.connectionOpened, s.dnsComplete, freq)
    ensures r.firstPacket.AfterNegotiation? <==> s.urlBuffer[4] == 's'
    ensures s.urlBuffer[4] == 's' ==> r.firstPacket == AfterNegotiation(
      Interval(s.sslNegComplete, s.connectionOpened, freq), Interval(s.firstRxDataPacket, s.sslNegComplete, freq))
    ensures s.urlBuffer[4] != 's' ==>
      r.firstPacket == AfterConnection(Interval(s.firstRxDataPacket, s.connectionOpened, freq))
    ensures r.lastPacket == Interval(s.lastRxDataPacket, s.firstRxDataPacket, freq)
  {
    var first :=
      if s.urlBuffer[4] == 's' then
        AfterNegotiation(
          Interval(s.sslNegComplete, s.connectionOpened, freq),
          Interval(s.firstRxDataPacket, s.sslNegComplete, freq))
      else
        AfterConnection(Interval(s.firstRxDataPacket, s.connectionOpened, freq));
    Report(
      s.rawBytesSent, s.rawBytesReceived, s.clearBytesSent, s.clearBytesReceived,
      Interval(s.dnsComplete, s.testStart, freq),
      Interval(s.connectionOpened, s.dnsComplete, freq),
      first,
      Interval(s.lastRxDataPacket, s.firstRxDataPacket, freq))
  }
}
