# TLS client state machine

A Dafny model of the TLS client demo application in `firmware/src/app.c` and of the console commands in
`firmware/src/app_commands.c` that drive it.

The model covers the following:

- `APP_Initialize`.
- Every case of `APP_Tasks`, the cooperative step function that takes one connection from start-up through:
  - the parse of a `host:port` text;
  - socket opening;
  - TLS negotiation;
  - sending and receiving;
  - closing the connection.
- The receive-signal handler, `_APP_MessageReceiveHandler`.
- The `host:port` parser, `_APP_ParseIPPort`, with the C semantics of `strtok` and `atoi`.
- `htons`.
- The commands `connect_tls`, `disconnect_tls`, `send_msg` and `ipmode`.
- The interval arithmetic of `stats`.

How the model is built:

- **Data.** The application data `appData` is an immutable `Session` record, so every operation is a pure function.
- **Environment.** The step function receives a record `Env` of the answers that the following give during one call:
  - the TCP/IP stack;
  - the presentation layer (`NET_PRES_*`);
  - the system timer.
- **Step results.** Each step returns:
  - the next session;
  - the socket call the step made (`Io`): open, register, write, read, or close.
- **Event interleaving.** Module `Lifecycle` interleaves steps, receive signals and commands as atomic events in any order, and proves:
  - an invariant of every session reachable from `APP_Initialize`;
  - scenarios: connect, send, receive, disconnect, and waiting.

Modules:

- `CTypes`: `uint32_t` arithmetic that wraps around, conversion to an unsigned type of a given width, and `Option` for NULL.
- `CString`: `strncpy`, C strings inside buffers, `strtok`, `atoi`, and decimal numerals.
- `Session`: the application data, the state enumeration, the environment, and `APP_Initialize`.
- `IpPortParser`: `_APP_ParseIPPort` and its round trip with the text `host:port`.
- `App`: the cases of `APP_Tasks`, the receive handler, and `htons`.
- `AppCommands`: the console commands and the `stats` intervals.
- `Lifecycle`: event sequences, the reachable-state invariant, and scenarios.
- `ParseExamples`: concrete parses, and the consequences of the width of `TCP_PORT`.

The application header `app.h` is not part of this model. The constants it fixes are handled as follows:

- **Parameters.** A `Config` holds:
  - the sizes of `ipPortBuffer`, `message` and `urlBuffer`;
  - the width of `TCP_PORT`.
- **Counters and clock samples.** They are `uint32_t`.
- **`NET_PRES_INVALID_SOCKET`.** It is -1. Only comparisons with it matter.
- **`SYS_STATUS_READY`.** It is 2, the Harmony value.
- **`ipMode`.** It is an unbounded integer, so `ipmode 260` stores 260 whatever the width of the real field. No step reads it (`Lifecycle.StepIgnoresIpMode`).

### Where the code and its documentation differ

The model follows the code in each case below.

- **Parse rejection.** A rejected `host:port` still overwrites the stored host and port (`app.c:190-205`). They are stored before they are checked.
- **Sending.** A send finding no room to write stays in the send state and tries again on the next step. It does not drop the message (`app.c:303-317`). No step updates the sent-byte counters.
- **Disconnecting.** `disconnect_tls` acts only while waiting for messages (`app_commands.c:122-130`). While the connection is still being set up it does nothing.
- **16-bit port check.** With a 16-bit `TCP_PORT`, the check `port > 65535` can never fire. `host:70000` is therefore accepted as port 4464 (`ParseExamples.PortWrapsFor16Bits`).
- **Timing fields.** The test start, DNS, connection and negotiation times are only ever reset to zero, never recorded.
- **Received counters.** They wrap around on `+=` (`app.c:340-341`) rather than saturating.
- **Closing.** The close step deregisters the handler and closes the socket but leaves both handles stored (`app.c:352-362`). It does not clear them.
- **`urlBuffer`.** It is never written. So `stats` never takes its negotiation branch on a reachable session.

## Model

| member | source | states |
|---|---|---|
| CTypes.ToUnsigned | firmware/src/app.c:387 | converting `atoi`'s `int` into a `TCP_PORT` of the given width gives a value below 2^width that differs from the input by a multiple of 2^width, so it equals the input whenever that already fits |
| CTypes.ToUnsignedOfNegative | firmware/src/app.c:387 | a negative `atoi` result no larger in magnitude than 2^width becomes itself plus 2^width in `TCP_PORT` |
| CTypes.AddU32 | firmware/src/app.c:340-341 | adding to a `uint32_t` counter gives the sum, or the sum less 2^32 when it overflows |
| CTypes.SubU32 | firmware/src/app_commands.c:202-222 | subtracting two `uint32_t` timer samples gives the difference, plus 2^32 when the later sample has wrapped |
| CString.StrNCpy | firmware/src/app_commands.c:105 | `strncpy` into an n-character buffer fills exactly n characters; the C string read back is the source, cut at n when it does not fit; the rest is NUL padding |
| CString.Strtok | firmware/src/app.c:379-382 | one `strtok` call returns the next non-empty token that holds no delimiter (or NULL at the end of the string), NULs only a delimiter, and leaves the not-yet-scanned tokens of the reference split as they were |
| CString.TokensOfPair | firmware/src/app.c:379-382 | the text `a:b`, with both parts non-empty and free of ':', has exactly the tokens `a` and `b` |
| CString.DigitsValueDecimal | firmware/src/app.c:387 | the value of the decimal numeral of n is n, so numerals and their values are inverse |
| CString.AtoiReadsNumeral | firmware/src/app.c:387 | `Atoi`, the model of the `atoi` that converts the port token: `atoi` of a decimal numeral followed by anything that is not a digit gives the numeral's value |
| CString.AtoiReadsSignedNumeral | firmware/src/app_commands.c:188 | `Atoi`, also the model of the `atoi` of the `ipmode` argument: `atoi` honours a leading '+' or '-' in front of a numeral |
| Session.Initialize | firmware/src/app.c:99-105 | `APP_Initialize` zeroes the application data: initial state, NULL host, empty C strings, zero handles, counters and clock samples, all-NUL `urlBuffer`; then IP mode 4 |
| IpPortParser.FirstTwoTokens | firmware/src/app.c:379-382 | the two `strtok` calls return the first and second token of the reference split, NULL exactly when there are fewer, and never a second token without a first |
| IpPortParser.ParseIpPort | firmware/src/app.c:374-396 | the host is the first token; the port is `atoi` of the second token reduced to `TCP_PORT`'s width, or 0 with `APP_NO_PORT` when there is no second token; a NULL host comes only with port 0; the buffer keeps its length and changes only where a ':' became NUL |
| IpPortParser.ParsePair | firmware/src/app.c:374-396 | any text `host:tail` with both parts non-empty, free of ':' and fitting the buffer parses to the host and `atoi` of the tail reduced to `TCP_PORT`'s width, with no error |
| IpPortParser.ParseFormatRoundTrip | firmware/src/app.c:374-396 | parsing the text `host:port`, copied by `connect_tls` into a large enough buffer, gives back the host and the port reduced to `TCP_PORT`'s width, with no error |
| App.Htons | firmware/src/app.c:86-88 | the low byte of the result is the input's high byte and the high byte its low byte |
| App.HtonsInvolution | firmware/src/app.c:86-88 | swapping the bytes twice gives the value back |
| App.StepInit | firmware/src/app.c:121-127 | the initial state moves on to waiting for the stack, writing nothing else |
| App.StepWaitForTcpipInit | firmware/src/app.c:130-163 | a negative stack status parks in the error state, `SYS_STATUS_READY` moves on to waiting for an IP, any other status leaves everything unchanged |
| App.InterfacesReadyFrom | firmware/src/app.c:164-175 | the interface loop answers true exactly when every interface from the given index on is ready |
| App.StepWaitForIp | firmware/src/app.c:164-184 | the application waits for a command exactly when all interfaces are ready, and is otherwise unchanged |
| App.StepParsed | firmware/src/app.c:187-225 | host, port and buffer are stored before the checks; it goes on to open the socket exactly when the port is in 1..65535, the host exists and the address converts; the address, IPv4 and zeroed attempt counters are stored then; an "Invalid PORT" rejection goes back to waiting for a command writing only state, buffer, host and port; an "Invalid IP" rejection also leaves in the address whatever the failed conversion wrote there |
| App.StepParsesBuffer | firmware/src/app.c:187-225 | the parse case, `StepParseIpPort`: a step in the parse state runs the parser on `ipPortBuffer` with the width of `TCP_PORT` and then the checks of `StepParsed` |
| App.StepOpenSecureSocket | firmware/src/app.c:226-252 | the socket is opened as IPv4 to the stored port and address whatever the IP mode; the handle is stored; the invalid handle leads back to waiting for a command, any other to waiting for the connection |
| App.StepWaitForSecureConnection | firmware/src/app.c:254-267 | a connected socket moves on to negotiation; otherwise nothing changes |
| App.StepWaitForNegotiation | firmware/src/app.c:268-296 | while negotiating nothing changes; a secure socket gets the receive handler registered and waits for messages; an insecure one goes to be closed, writing only the state, so the close step later deregisters the handle stored before |
| App.StepSendMessage | firmware/src/app.c:303-317 | a ready socket is given the whole message buffer and the state returns to waiting for messages; otherwise nothing changes; no counter moves |
| App.StepRecvMessage | firmware/src/app.c:318-350 | with data to read: the first-packet time is set only if still zero, the last-packet time always, both received counters grow by the bytes read (wrapping), and the interrupted state is resumed; without data nothing changes |
| App.StepCloseConnection | firmware/src/app.c:352-363 | the handler is deregistered and the socket closed with the stored handles, and the application waits for a command |
| App.Step | firmware/src/app.c:117-371 | every case of `APP_Tasks` writes only the fields that case names; the idle states, the error state and any state without a case change nothing and touch no socket |
| App.MessageReceiveHandler | firmware/src/app.c:402-410 | the signal saves the current state as the old state, enters the receive state and writes nothing else |
| AppCommands.ConnectTlsCommand | firmware/src/app_commands.c:84-106 | from any state, the argument is copied into `ipPortBuffer` truncated to its size, and the parse state is entered; nothing else changes |
| AppCommands.DisconnectTlsCommand | firmware/src/app_commands.c:107-132 | only while waiting for messages is the connection sent to be closed; in every other state nothing changes |
| AppCommands.SendMsgCommand | firmware/src/app_commands.c:133-174 | while waiting for messages the buffer holds the argument followed by NULs and the send state is entered; otherwise nothing changes |
| AppCommands.IpModeCommand | firmware/src/app_commands.c:178-190 | with exactly one argument the IP mode becomes its `atoi` value, unchecked; otherwise nothing changes |
| AppCommands.IntervalMeasuresElapsedTime | firmware/src/app_commands.c:201-223 | `Interval`, the expression behind each `stats` time: an interval is the elapsed ticks times 1000 over the timer frequency, correct across a wrap of the 32-bit timer; the 64-bit product never overflows; only the final store into `uint32_t` can truncate |
| AppCommands.IntervalFitsForKilohertzTimers | firmware/src/app_commands.c:201-223 | with a timer of at least 1 kHz no interval is truncated, and an interval never exceeds the elapsed ticks |
| AppCommands.IntervalOfOneSample | firmware/src/app_commands.c:201-223 | two equal samples are zero milliseconds apart |
| AppCommands.StatsCommand | firmware/src/app_commands.c:192-225 | the report carries the four byte counters unchanged; the DNS time is measured from the test start, the connection time from the DNS completion; when `urlBuffer[4]` is 's' (and only then) it reports the negotiation time from the connection and the first-packet time from the negotiation, otherwise the first-packet time from the connection; the last-packet time is measured from the first packet |
| Lifecycle.InitializeEstablishesInv | firmware/src/app.c:99-105 | the session after `APP_Initialize` satisfies the reachable-state invariant |
| Lifecycle.StepPreservesInv | firmware/src/app.c:117-371 | every case of `APP_Tasks` preserves the invariant: buffer sizes, all-NUL `urlBuffer`, zero start/DNS/connection/negotiation times, nothing sent, equal raw and clear received counters, port within `TCP_PORT` |
| Lifecycle.ParseStepPreservesInv | firmware/src/app.c:187-225 | the parse case preserves the invariant |
| Lifecycle.ApplyPreservesInv | firmware/src/app_commands.c:84-190 | every step, receive signal and command preserves the invariant |
| Lifecycle.RunPreservesInv | firmware/src/app.c:117-371 | any sequence of defined events preserves the invariant |
| Lifecycle.ReachableSessionsSatisfyInv | firmware/src/app.c:99-371 | every session reachable from `APP_Initialize` satisfies the invariant |
| Lifecycle.StatsOnReachableSession | firmware/src/app_commands.c:192-225 | on a reachable session `stats` reports nothing sent, equal raw and clear received counts, zero DNS and connection times, never the negotiation branch, and a first-packet time measured from timer value 0 |
| Lifecycle.OnlyParseWritesAttemptTimes | firmware/src/app.c:212-220 | only a step in the parse state changes the DNS, connection or negotiation time, and it sets them to zero |
| Lifecycle.ParkedStepsChangeNothing | firmware/src/app.c:130-317 | any number of steps that find the stack, interfaces, connection, negotiation or socket not ready change nothing and make no socket call |
| Lifecycle.ReceiveResumesInterruptedState | firmware/src/app.c:318-350 | a receive signal and a step with data return to the interrupted state; both received counters grow by the bytes read; only the old state, packet times and received counters change |
| Lifecycle.RepeatedSignalLosesInterruptedState | firmware/src/app.c:402-410 | a second signal before the first is served saves the receive state itself, so serving it leaves the application in the receive state |
| Lifecycle.ConnectParsesHostAndPort | firmware/src/app_commands.c:104-105 | `connect_tls host:port` and one step store the host, port and converted address, reset the attempt's counters and go on to open the socket |
| Lifecycle.SecureConnectionEstablished | firmware/src/app.c:226-296 | from opening the socket, three steps in a cooperative environment reach waiting for messages, with the socket and receive handle stored and nothing else changed |
| Lifecycle.ConnectReachesWaitForMessage | firmware/src/app_commands.c:84-106 | `connect_tls host:port` from any state and four cooperative steps reach waiting for messages with host, port and socket stored and the attempt's counters reset |
| Lifecycle.SendReturnsToWaitForMessage | firmware/src/app_commands.c:148-171 | `send_msg` and a step with room to write return to waiting for messages with the message stored and no other field changed |
| Lifecycle.SendWritesWholeBuffer | firmware/src/app.c:303-311 | the send step writes all `sizeof(message)` bytes: the message followed by its NUL padding |
| Lifecycle.DisconnectClosesOnlyFromWaitForMessage | firmware/src/app_commands.c:122-130 | a disconnect while waiting for messages closes the socket on the next step and returns to waiting for a command; while the connection is being set up it changes nothing |
| Lifecycle.ConnectAbandonsOpenConnection | firmware/src/app_commands.c:99-105 | `connect_tls` on an open connection enters the parse state with the old socket stored and never closed |
| Lifecycle.StepIgnoresIpMode | firmware/src/app.c:226-234 | no step reads the IP mode: changing it changes nothing else a step does |
| ParseExamples.HostAndPortExample | firmware/src/app.c:374-396 | "10.0.0.5:11111" parses to host "10.0.0.5", port 11111, no error |
| ParseExamples.HostWithoutPortExample | firmware/src/app.c:374-396 | "10.0.0.5" parses to host "10.0.0.5", port 0 and `APP_NO_PORT` |
| ParseExamples.UpperPortCheckIsDeadFor16Bits | firmware/src/app.c:193 | with a 16-bit `TCP_PORT` the parsed port never exceeds 65535 |
| ParseExamples.NegativePortWrapsFor16Bits | firmware/src/app.c:387 | with a 16-bit `TCP_PORT`, `host:-n` parses to port 65536 - n with no error |
| ParseExamples.NegativeNumeralWrapsFor16Bits | firmware/src/app.c:387 | `atoi` of "-n" stored in a 16-bit `TCP_PORT` gives 65536 - n |
| ParseExamples.PortWrapsFor16Bits | firmware/src/app.c:187-225 | with a 16-bit `TCP_PORT`, `host:70000` is accepted as port 4464 |
| ParseExamples.PortRejectedFor32Bits | firmware/src/app.c:187-225 | with a 32-bit `TCP_PORT`, `host:70000` is rejected back to waiting for a command |

## Left out

- `_APP_ParseMessage` (`app.c:397-400`) returns its argument unchanged and is never called, so it has no model.
- `SYS_CONSOLE_PRINT`, `SYS_CONSOLE_MESSAGE` and the `wolfSSL` log calls have no effect on the application data and are not modelled.
- The received bytes are not modelled, only their count. The step reads them into `networkBuffer` and prints them.
- `NET_PRES_*`, `TCPIP_*` and the TLS library are outside the model. The model sees only their answers, as fields of `Env`, and their effects, as `Io`.
- `APP_Commands_Init`, the command table, the `stats` console output and `_APP_ParseUrl` are not modelled. They change no application data.
- Clock values and timer frequency are parameters, because the system timer is outside the model.
- Asynchrony is not modelled. The receive signal and the console commands are atomic events between steps. A signal arriving in the middle of a step is not represented.
- `CString.Atoi`: does not model the undefined behaviour of `atoi` on a value that overflows `int`. It reads an unbounded integer.
- `CString.CStringOf`: a buffer without a NUL is read up to its end, where C would read past it.
- `App.StepParsed`: the host is stored as a copy of the token, not as a pointer into `ipPortBuffer`. A later `connect_tls` overwrites that buffer in C, but does not change the stored host in the model.
- `App.StepParsed`: the body of `TCPIP_Helper_StringToIPAddress` is not part of this model. What it leaves in the address when it fails is an answer of the environment, `addressOnFailure`.
- `AppCommands.ConnectTlsCommand`: requires an argument, because with no argument C passes a NULL `argv[1]` to `strncpy`. The messages printed for a wrong `argc` are not modelled.
- `AppCommands.SendMsgCommand`: requires the argument to fit the message buffer while waiting for messages, because the C copy is bounded only by the argument's length and overruns the buffer otherwise.
- `AppCommands.StatsCommand`: only reads the application data, which its type guarantees, so no frame clause is stated.
