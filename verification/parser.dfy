/**
 `_APP_ParseIPPort`: splits the `host:port` text of `ipPortBuffer` with two `strtok` calls and
 converts the port token with `atoi`, storing the result in a `TCP_PORT` of configurable width.
 */
module IpPortParser {
  import opened CTypes
  import opened CString

  /** `APP_NO_ERROR` and `APP_NO_PORT`. */
  datatype ParseCode = NoError | NoPort

  /** The values `_APP_ParseIPPort` stores through its `host` and `port` pointers, its return
      code, and the buffer after `strtok` has written NULs over the delimiters it stopped at. */
  datatype ParseResult = ParseResult(host: Option<CStr>, port: nat, code: ParseCode, buffer: seq<char>)

  /** `buf` with a NUL written at index `cut`, when there is one. */
  function Cut(buf: seq<char>, cut: Option<nat>): (r: seq<char>)
    ensures |r| == |buf|
    ensures forall i | 0 <= i < |buf| :: r[i] == buf[i] || (cut == Some(i) && r[i] == '\0')
  {
    if cut.Some? && cut.value < |buf| then buf[cut.value := '\0'] else buf
  }

  /** The first two `strtok` calls on `c` return its first two tokens, or NULL where it has fewer. */
  lemma FirstTwoTokens(c: CStr)
    ensures var first := Strtok(c, 0, ':');
      var second := Strtok(c, first.next, ':');
      var ts := Tokens(c, ':');
      && (first.token.Some? <==> |ts| >= 1)
      && (first.token.Some? ==> first.token.value == ts[0])
      && (second.token.Some? <==> |ts| >= 2)
      && (second.token.Some? ==> second.token.value == ts[1])
      && (first.token.None? ==> second.token.None?)
  {
    var first := Strtok(c, 0, ':');
    var second := Strtok(c, first.next, ':');
    assert c[0..] == c;
    assert c[|c|..] == [] && Split([], ':') == [[]] && DropEmpty([[]]) == [];
  }

  /** `_APP_ParseIPPort(buffer, &host, &port)` with a `TCP_PORT` that is `portBits` wide.
      The host is the first token of the C string in the buffer, the port is `atoi` of the
      second token converted to `TCP_PORT`, and a missing second token gives port 0 and
      `APP_NO_PORT`. */
  function ParseIpPort(buffer: seq<char>, portBits: nat): (r: ParseResult)
    ensures var ts := Tokens(CStringOf(buffer), ':');
      && (r.host.Some? <==> |ts| >= 1)
      && (r.host.Some? ==> r.host.value == ts[0])
      && (r.code == NoError <==> |ts| >= 2)
      && (|ts| >= 2 ==> r.port == ToUnsigned(Atoi(ts[1]), portBits))
      && (|ts| < 2 ==> r.port == 0)
    ensures r.host.None? ==> r.port == 0 && r.code == NoPort
    ensures r.port < Pow2(portBits)
    ensures |r.buffer| == |buffer|
    ensures forall i | 0 <= i < |buffer| :: r.buffer[i] == buffer[i] || (buffer[i] == ':' && r.buffer[i] == '\0')
  {
    var c := CStringOf(buffer);
    var first := Strtok(c, 0, ':');
    var second := Strtok(c, first.next, ':');
    FirstTwoTokens(c);
    var once := Cut(buffer, first.cut);
    var twice := Cut(once, second.cut);
    assert first.cut.Some? ==> buffer[first.cut.value] == c[first.cut.value] == ':';
    assert second.cut.Some? ==> once[second.cut.value] == buffer[second.cut.value] == c[second.cut.value] == ':';
    match second.token
    case Some(p) => ParseResult(first.token, ToUnsigned(Atoi(p), portBits), NoError, twice)
    case None => ParseResult(first.token, 0, NoPort, twice)
  }

  /** The text "host:port" for a host and a port number. */
  function FormatIpPort(host: CStr, port: nat): (t: CStr)
  {
    DecimalHasNoColon(port);
    host + [':'] + Decimal(port)
  }

  /** The text "host:tail", copied by `connect_tls` into a buffer of `size` characters, parses
      to the host and `atoi` of the tail, whenever both parts are non-empty, hold no ':' and the
      text fits in the buffer. */
  lemma ParsePair(host: CStr, tail: CStr, size: nat, portBits: nat)
    requires host != [] && ':' !in host && tail != [] && ':' !in tail
    requires |host + [':'] + tail| <= size
    ensures var r := ParseIpPort(StrNCpy(host + [':'] + tail, size), portBits);
      r.host == Some(host) && r.port == ToUnsigned(Atoi(tail), portBits) && r.code == NoError
  {
    var t := host + [':'] + tail;
    if |t| == size {
      assert t[..size] == t;
    }
    assert CStringOf(StrNCpy(t, size)) == t;
    TokensOfPair(host, tail, ':');
  }

  /** Parsing the text `connect_tls` copied into a buffer of `size` characters gives back the
      host and the port number, reduced to the width of `TCP_PORT`, whenever the host is
      non-empty, holds no ':' and the text fits in the buffer. */
  lemma ParseFormatRoundTrip(host: CStr, port: nat, size: nat, portBits: nat)
    requires host != [] && ':' !in host
    requires |FormatIpPort(host, port)| <= size
    ensures var r := ParseIpPort(StrNCpy(FormatIpPort(host, port), size), portBits);
      r.host == Some(host) && r.port == ToUnsigned(port, portBits) && r.code == NoError
  {
    DecimalHasNoColon(port);
    ParsePair(host, Decimal(port), size, portBits);
    AtoiReadsNumeral(port, []);
    assert Decimal(port) + [] == Decimal(port);
  }
}
