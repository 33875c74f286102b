/**
 Concrete inputs to the `host:port` parser and the parse state, and what the width of
 `TCP_PORT` does to a port number that does not fit it.
 */
module ParseExamples {
  import opened CTypes
  import opened CString
  import opened Session
  import opened App
  import IpPortParser

  /** "10.0.0.5:11111" gives the host "10.0.0.5" and the port 11111. */
  lemma HostAndPortExample()
    ensures var r := IpPortParser.ParseIpPort(StrNCpy("10.0.0.5:11111", 32), 16);
      r.host == Some("10.0.0.5") && r.port == 11111 && r.code == IpPortParser.NoError
  {
    FormatExample();
    Pow2Widths();
    IpPortParser.ParseFormatRoundTrip("10.0.0.5", 11111, 32, 16);
  }

  lemma FormatExample()
    ensures IpPortParser.FormatIpPort("10.0.0.5", 11111) == "10.0.0.5:11111"
  {
    assert DigitChar(1) == '1';
    assert Decimal(1) == "1";
    assert Decimal(11) == "1" + "1";
    assert Decimal(111) == "11" + "1";
    assert Decimal(1111) == "111" + "1";
    assert Decimal(11111) == "1111" + "1";
  }

  /** "10.0.0.5" alone gives the host, port 0 and `APP_NO_PORT`. */
  lemma HostWithoutPortExample()
    ensures var r := IpPortParser.ParseIpPort(StrNCpy("10.0.0.5", 32), 16);
      r.host == Some("10.0.0.5") && r.port == 0 && r.code == IpPortParser.NoPort
  {
    var c: CStr := "10.0.0.5";
    assert CStringOf(StrNCpy(c, 32)) == c;
    SplitWhole(c, ':');
    assert Tokens(c, ':') == [c];
  }

  /** With a 16-bit `TCP_PORT` the parser never yields a port above 65535, so the upper bound
      test of the parse state can never reject one. */
  lemma UpperPortCheckIsDeadFor16Bits(buffer: seq<char>)
    ensures IpPortParser.ParseIpPort(buffer, 16).port <= 65535
  {
    Pow2Widths();
  }

  /** With a 16-bit `TCP_PORT` a negative port such as "host:-1" converts to 65536 minus its
      magnitude, a port the parse state accepts. */
  lemma NegativePortWrapsFor16Bits(host: CStr, n: nat, size: nat)
    requires host != [] && ':' !in host
    requires 0 < n < 0x1_0000
    requires |host + [':', '-'] + Decimal(n)| <= size
    ensures var r := IpPortParser.ParseIpPort(StrNCpy(host + [':', '-'] + Decimal(n), size), 16);
      r.host == Some(host) && r.port == 0x1_0000 - n && r.code == IpPortParser.NoError
  {
    var tail := ['-'] + Decimal(n);
    assert host + [':', '-'] + Decimal(n) == host + [':'] + tail;
    DecimalHasNoColon(n);
    IpPortParser.ParsePair(host, tail, size, 16);
    NegativeNumeralWrapsFor16Bits(n);
  }

  /** `atoi` of "-n" converted to a 16-bit `TCP_PORT`. */
  lemma NegativeNumeralWrapsFor16Bits(n: nat)
    requires 0 < n < 0x1_0000
    ensures ToUnsigned(Atoi(['-'] + Decimal(n)), 16) == 0x1_0000 - n
  {
    AtoiReadsSignedNumeral('-', n, []);
    assert ['-'] + Decimal(n) + [] == ['-'] + Decimal(n);
    Pow2Widths();
    ToUnsignedOfNegative(Atoi(['-'] + Decimal(n)), 16);
  }

  lemma FormatPort70000(host: CStr)
    ensures IpPortParser.FormatIpPort(host, 70000) == host + ":70000"
  {
    assert DigitChar(7) == '7' && DigitChar(0) == '0';
    assert Decimal(7) == "7";
    assert Decimal(70) == "7" + "0";
    assert Decimal(700) == "70" + "0";
    assert Decimal(7000) == "700" + "0";
    assert Decimal(70000) == "7000" + "0";
  }

  /** With a 16-bit `TCP_PORT`, "host:70000" stores port 4464 and goes on to open a socket to
      it. */
  lemma PortWrapsFor16Bits(cfg: Config, s: Session, host: CStr, env: Env)
    requires cfg.portBits == 16 && s.state == ParseIpPort
    requires host != [] && ':' !in host
    requires |host + ":70000"| <= cfg.ipPortBufferSize
    requires s.ipPortBuffer == StrNCpy(host + ":70000", cfg.ipPortBufferSize)
    requires env.stringToAddress(host).Some?
    ensures var o := Step(cfg, s, env);
      o.next.state == OpenSecureSocket && o.next.port == 4464 && o.next.host == Some(host)
  {
    var p := IpPortParser.ParseIpPort(s.ipPortBuffer, 16);
    assert p.host == Some(host) && p.port == 4464 by {
      FormatPort70000(host);
      IpPortParser.ParseFormatRoundTrip(host, 70000, cfg.ipPortBufferSize, 16);
      Pow2Widths();
      assert ToUnsigned(70000, 16) == 4464;
    }
    StepParsesBuffer(cfg, s, env);
  }

  /** With a 32-bit `TCP_PORT` the same text keeps port 70000 and is rejected: back to waiting
      for a command, with host and port left as parsed. */
  lemma PortRejectedFor32Bits(cfg: Config, s: Session, host: CStr, env: Env)
    requires cfg.portBits == 32 && s.state == ParseIpPort
    requires host != [] && ':' !in host
    requires |host + ":70000"| <= cfg.ipPortBufferSize
    requires s.ipPortBuffer == StrNCpy(host + ":70000", cfg.ipPortBufferSize)
    ensures var o := Step(cfg, s, env);
      o.next.state == WaitingForCommand && o.next.port == 70000 && o.next.host == Some(host)
  {
    var p := IpPortParser.ParseIpPort(s.ipPortBuffer, 32);
    assert p.host == Some(host) && p.port == 70000 by {
      FormatPort70000(host);
      IpPortParser.ParseFormatRoundTrip(host, 70000, cfg.ipPortBufferSize, 32);
      Pow2Widths();
    }
    StepParsesBuffer(cfg, s, env);
  }
}
