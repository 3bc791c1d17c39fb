/** Server side of the SOCKS5 negotiation of RFC 1928: method selection
    (section 3), the CONNECT request with its ATYP address (sections 4
    and 5) and the replies (section 6).

    Every handler is given twice: a function over the bytes the client has
    still to send, giving the outcome, how many bytes were consumed, the replies
    written and the connections dialled; and a method over a Reader, a Writer
    and a Dialer, proved to do exactly what that function says. */
module S5 {
  import opened Streams

  type Octets4 = s: seq<byte> | |s| == 4 witness [0, 0, 0, 0]
  type Octets16 = s: seq<byte> | |s| == 16 witness [0, 0, 0, 0, 0, 0, 0, 0, 0, 0, 0, 0, 0, 0, 0, 0]
  /** The body of a string with a one-byte length prefix. */
  type PString = s: seq<byte> | |s| < 0x100
  type Port = p: int | 0 <= p < 0x1_0000

  const SocksVersion: byte := 0x05
  const NoAuthentication: byte := 0x00
  const NoAcceptableMethods: byte := 0xFF
  const CmdConnect: byte := 0x01
  const AtypIPv4: byte := 0x01
  const AtypDomain: byte := 0x03
  const AtypIPv6: byte := 0x04
  const RepSucceeded: byte := 0x00

  const AcceptReply: seq<byte> := [SocksVersion, NoAuthentication]
  const RejectReply: seq<byte> := [SocksVersion, NoAcceptableMethods]
  /** REP 0x01 (general failure) with an all-zero IPv4 BND.ADDR and BND.PORT. */
  const GeneralFailureReply: seq<byte> := [0x05, 0x01, 0x00, 0x01, 0x00, 0x00, 0x00, 0x00, 0x00, 0x00]
  /** REP 0x07 (command not supported) with an all-zero IPv4 BND.ADDR and BND.PORT. */
  const CommandNotSupportedReply: seq<byte> := [0x05, 0x07, 0x00, 0x01, 0x00, 0x00, 0x00, 0x00, 0x00, 0x00]

  /** DST.ADDR as raw bytes; the domain name is the undecoded Pascal-string body. */
  datatype Address = IPv4(v4: Octets4) | DomainName(name: PString) | IPv6(v6: Octets16)
  datatype Destination = Destination(addr: Address, port: Port)
  datatype Request = Request(command: byte, dest: Destination)

  /** Our end of an outbound connection, as its socket name reports it. */
  datatype LocalEndpoint = LocalV4(ip4: Octets4, lport: Port) | LocalV6(ip6: Octets16, lport: Port)
  /** What `open_connection` to a destination gives. */
  datatype Dialled = ConnectFailed | Connected(local: LocalEndpoint)

  /** What a handler does given the client's unread bytes: its outcome, the
      bytes it consumed, the chunks it wrote (one per `write` call) and the
      destinations it tried to connect to. */
  datatype Exchange<+T> = Exchange(outcome: Outcome<T>, consumed: nat, writes: seq<seq<byte>>, dials: seq<Destination>)

  // ---------------------------------------------------------------------
  // Wire encodings

  function EncodePString(x: PString): seq<byte>
  {
    [|x|] + x
  }

  function EncodeAddress(a: Address): seq<byte>
  {
    match a
    case IPv4(v4) => [AtypIPv4] + v4
    case DomainName(name) => [AtypDomain] + EncodePString(name)
    case IPv6(v6) => [AtypIPv6] + v6
  }

  /** Big-endian 16-bit port, as `struct.pack(">H", port)`. */
  function EncodePort(p: Port): seq<byte>
  {
    [p / 0x100, p % 0x100]
  }

  /** The client's request message: VER CMD RSV ATYP DST.ADDR DST.PORT. */
  function EncodeRequest(q: Request): seq<byte>
  {
    [SocksVersion, q.command, 0x00] + EncodeAddress(q.dest.addr) + EncodePort(q.dest.port)
  }

  function BoundAddress(l: LocalEndpoint): Address
  {
    match l
    case LocalV4(ip4, _) => IPv4(ip4)
    case LocalV6(ip6, _) => IPv6(ip6)
  }

  /** The success reply: VER REP RSV, then our local endpoint as an IPv6 or
      IPv4 address according to its family, then its port. */
  function SuccessReply(l: LocalEndpoint): (r: seq<byte>)
    ensures |r| == if l.LocalV6? then 22 else 10
    ensures r[..3] == [SocksVersion, RepSucceeded, 0x00]
    ensures r[3] == if l.LocalV6? then AtypIPv6 else AtypIPv4
  {
    [SocksVersion, RepSucceeded, 0x00] + EncodeAddress(BoundAddress(l)) + EncodePort(l.lport)
  }

  // ---------------------------------------------------------------------
  // Parsers (read_pstring, read_atyp_addr and the request of
  // handle_connection_request), as functions of the unread bytes

  function ParsePString(s: seq<byte>): (r: Read<PString>)
    ensures r.consumed <= |s|
    ensures r.outcome.Return? <==> 0 < |s| && s[0] < |s|
    ensures r.outcome.Return? ==> r.consumed == 1 + s[0] as int && s[..r.consumed] == EncodePString(r.outcome.value)
    ensures r.outcome.Raise? ==> r == Read(Raise(IncompleteReadError), |s|)
  {
    var head := ReadExactlyOn(s, 1);
    match head.outcome
    case Raise(e) => Read(Raise(e), head.consumed)
    case Return(length) =>
      var body := ReadExactlyOn(s[1..], length[0]);
      match body.outcome
      case Raise(e) => Read(Raise(e), 1 + body.consumed)
      case Return(bytes) => Read(Return(bytes), 1 + body.consumed)
  }

  /** ATYP then the address; `decodes` says whether a domain name is valid
      UTF-8 (a failed decode raises UnicodeDecodeError, a ValueError). */
  function ParseAtypAddr(s: seq<byte>, decodes: seq<byte> -> bool): (r: Read<Address>)
    ensures r.consumed <= |s|
    ensures r.outcome.Return? ==> s[..r.consumed] == EncodeAddress(r.outcome.value)
    ensures r.outcome.Raise? && r.outcome.error != ValueError ==> r == Read(Raise(IncompleteReadError), |s|)
  {
    var head := ReadExactlyOn(s, 1);
    match head.outcome
    case Raise(e) => Read(Raise(e), head.consumed)
    case Return(atyp) =>
      var rest := s[1..];
      if atyp[0] == AtypIPv4 then
        var raw := ReadExactlyOn(rest, 4);
        match raw.outcome
        case Raise(e) => Read(Raise(e), 1 + raw.consumed)
        case Return(v4) => Read(Return(IPv4(v4)), 1 + raw.consumed)
      else if atyp[0] == AtypDomain then
        var name := ParsePString(rest);
        match name.outcome
        case Raise(e) => Read(Raise(e), 1 + name.consumed)
        case Return(bytes) =>
          if decodes(bytes) then Read(Return(DomainName(bytes)), 1 + name.consumed)
          else Read(Raise(ValueError), 1 + name.consumed)
      else if atyp[0] == AtypIPv6 then
        var raw := ReadExactlyOn(rest, 16);
        match raw.outcome
        case Raise(e) => Read(Raise(e), 1 + raw.consumed)
        case Return(v6) => Read(Return(IPv6(v6)), 1 + raw.consumed)
      else
        Read(Raise(ValueError), 1)
  }

  /** How much each ATYP consumes, and exactly when read_atyp_addr raises
      ValueError: an unknown ATYP, or a domain name that does not decode. */
  lemma AtypAddrCases(s: seq<byte>, decodes: seq<byte> -> bool)
    ensures var r := ParseAtypAddr(s, decodes);
      && (r.outcome.Return? && r.outcome.value.DomainName? ==> decodes(r.outcome.value.name))
      && (|s| == 0 ==> r == Read(Raise(IncompleteReadError), 0))
      && (0 < |s| && s[0] == AtypIPv4 ==> r.consumed == if 5 <= |s| then 5 else |s|)
      && (0 < |s| && s[0] == AtypDomain ==> r.consumed == 1 + ParsePString(s[1..]).consumed)
      && (0 < |s| && s[0] == AtypIPv6 ==> r.consumed == if 17 <= |s| then 17 else |s|)
      && (0 < |s| && s[0] !in {AtypIPv4, AtypDomain, AtypIPv6} ==> r == Read(Raise(ValueError), 1))
      && (r.outcome == Raise(ValueError) <==>
            0 < |s| && (s[0] !in {AtypIPv4, AtypDomain, AtypIPv6} ||
                        (s[0] == AtypDomain && ParsePString(s[1..]).outcome.Return? && !decodes(ParsePString(s[1..]).outcome.value))))
  {
  }

  /** DST.PORT, as `struct.unpack(">H", ...)`. */
  function ParsePort(s: seq<byte>): (r: Read<Port>)
    ensures r.outcome.Return? <==> 2 <= |s|
    ensures r.outcome.Return? ==> r.consumed == 2 && s[..2] == EncodePort(r.outcome.value)
    ensures r.outcome.Raise? ==> r == Read(Raise(IncompleteReadError), |s|)
  {
    var raw := ReadExactlyOn(s, 2);
    match raw.outcome
    case Raise(e) => Read(Raise(e), raw.consumed)
    case Return(hilo) => Read(Return(0x100 * hilo[0] as int + hilo[1] as int), raw.consumed)
  }

  /** The header VER CMD RSV is malformed when VER is not 5 or RSV is not 0. */
  predicate MalformedHeader(s: seq<byte>)
    requires 3 <= |s|
  {
    s[0] != SocksVersion || s[2] != 0x00
  }

  /** The request message: header, then address, then port; the command is
      only looked at afterwards. */
  function ParseRequest(s: seq<byte>, decodes: seq<byte> -> bool): (r: Read<Request>)
    ensures r.consumed <= |s|
  {
    var header := ReadExactlyOn(s, 3);
    match header.outcome
    case Raise(e) => Read(Raise(e), header.consumed)
    case Return(vcr) =>
      if vcr[0] != SocksVersion || vcr[2] != 0x00 then Read(Raise(ValueError), 3)
      else
        var addr := ParseAtypAddr(s[3..], decodes);
        match addr.outcome
        case Raise(e) => Read(Raise(e), 3 + addr.consumed)
        case Return(a) =>
          var port := ParsePort(s[3 + addr.consumed..]);
          match port.outcome
          case Raise(e) => Read(Raise(e), 3 + addr.consumed + port.consumed)
          case Return(p) => Read(Return(Request(vcr[1], Destination(a, p))), 3 + addr.consumed + port.consumed)
  }

  /** What a parsed request consumed is its encoding; a bad VER or RSV
      raises ValueError after three bytes; ValueError comes exactly from the
      header or the address; any other error is a short stream. */
  lemma RequestCases(s: seq<byte>, decodes: seq<byte> -> bool)
    ensures var r := ParseRequest(s, decodes);
      && (r.outcome.Return? ==> s[..r.consumed] == EncodeRequest(r.outcome.value))
      && (3 <= |s| && MalformedHeader(s) ==> r == Read(Raise(ValueError), 3))
      && (r.outcome == Raise(ValueError) <==>
            3 <= |s| && (MalformedHeader(s) || ParseAtypAddr(s[3..], decodes).outcome == Raise(ValueError)))
      && (r.outcome.Raise? && r.outcome.error != ValueError ==> r == Read(Raise(IncompleteReadError), |s|))
  {
  }

  // ---------------------------------------------------------------------
  // Handlers as functions

  /** handle_version_method: VER, then the method list as a Pascal string. */
  function VersionMethodExchange(s: seq<byte>): (e: Exchange<bool>)
    ensures e.consumed <= |s| && e.dials == []
    ensures e.outcome.Raise? ==> e == Exchange(Raise(IncompleteReadError), |s|, [], [])
    ensures e.outcome.Raise? <==> |s| == 0 || (s[0] == SocksVersion && ParsePString(s[1..]).outcome.Raise?)
    ensures 0 < |s| && s[0] != SocksVersion ==> e == Exchange(Return(false), 1, [], [])
    ensures e.outcome == Return(true) <==>
      0 < |s| && s[0] == SocksVersion && ParsePString(s[1..]).outcome.Return? &&
      NoAuthentication in ParsePString(s[1..]).outcome.value
    ensures e.outcome == Return(true) ==> e.consumed == 1 + ParsePString(s[1..]).consumed && e.writes == [AcceptReply]
    ensures 0 < |s| && s[0] == SocksVersion && ParsePString(s[1..]).outcome.Return? &&
            NoAuthentication !in ParsePString(s[1..]).outcome.value ==>
      e == Exchange(Return(false), 1 + ParsePString(s[1..]).consumed, [RejectReply], [])
  {
    var version := ReadExactlyOn(s, 1);
    match version.outcome
    case Raise(e) => Exchange(Raise(e), version.consumed, [], [])
    case Return(v) =>
      if v[0] != SocksVersion then Exchange(Return(false), 1, [], [])
      else
        var methods := ParsePString(s[1..]);
        match methods.outcome
        case Raise(e) => Exchange(Raise(e), 1 + methods.consumed, [], [])
        case Return(ms) =>
          if NoAuthentication in ms then Exchange(Return(true), 1 + methods.consumed, [AcceptReply], [])
          else Exchange(Return(false), 1 + methods.consumed, [RejectReply], [])
  }

  /** handle_connection_request, with `route` standing for `open_connection`.
      The outcome is the destination connected to, or None for `False`. */
  function RequestExchange(s: seq<byte>, decodes: seq<byte> -> bool, route: Destination -> Dialled): (e: Exchange<Option<Destination>>)
    ensures e.consumed == ParseRequest(s, decodes).consumed
    ensures e.outcome.Raise? <==> ParseRequest(s, decodes).outcome.Raise?
    ensures e.outcome.Raise? ==> e.outcome == ParseRequest(s, decodes).outcome.PropagateFailure() && e.writes == [] && e.dials == []
    ensures ParseRequest(s, decodes).outcome.Return? && s[1] != CmdConnect ==>
      e.outcome == Return(None) && e.writes == [CommandNotSupportedReply] && e.dials == []
    ensures ParseRequest(s, decodes).outcome.Return? && s[1] == CmdConnect ==>
      var d := ParseRequest(s, decodes).outcome.value.dest;
      e.dials == [d] &&
      (route(d).ConnectFailed? ==> e.outcome == Return(None) && e.writes == [GeneralFailureReply]) &&
      (route(d).Connected? ==> e.outcome == Return(Some(d)) && e.writes == [SuccessReply(route(d).local)])
  {
    var request := ParseRequest(s, decodes);
    match request.outcome
    case Raise(e) => Exchange(Raise(e), request.consumed, [], [])
    case Return(q) =>
      if q.command != CmdConnect then
        Exchange(Return(None), request.consumed, [CommandNotSupportedReply], [])
      else
        match route(q.dest)
        case ConnectFailed => Exchange(Return(None), request.consumed, [GeneralFailureReply], [q.dest])
        case Connected(local) => Exchange(Return(Some(q.dest)), request.consumed, [SuccessReply(local)], [q.dest])
  }

  /** `except ValueError: return False`. */
  function CatchValueError<T>(o: Outcome<Option<T>>): (r: Outcome<Option<T>>)
    ensures o == Raise(ValueError) ==> r == Return(None)
    ensures o != Raise(ValueError) ==> r == o
  {
    if o == Raise(ValueError) then Return(None) else o
  }

  /** handle_socks5: method selection, then (only if it succeeded) the request;
      a ValueError from either becomes `False`. */
  function Socks5Exchange(s: seq<byte>, decodes: seq<byte> -> bool, route: Destination -> Dialled): (e: Exchange<Option<Destination>>)
    ensures e.consumed <= |s|
    ensures e.outcome != Raise(ValueError)
    ensures e.outcome.Raise? ==> e.outcome.error == IncompleteReadError && e.consumed == |s|
    ensures VersionMethodExchange(s).outcome != Return(true) ==>
      e.consumed == VersionMethodExchange(s).consumed && e.writes == VersionMethodExchange(s).writes && e.dials == []
    ensures VersionMethodExchange(s).outcome == Return(false) ==> e.outcome == Return(None)
    ensures VersionMethodExchange(s).outcome.Raise? ==> e.outcome == Raise(IncompleteReadError)
    ensures VersionMethodExchange(s).outcome == Return(true) ==>
      var n := VersionMethodExchange(s).consumed;
      var request := RequestExchange(s[n..], decodes, route);
      e.consumed == n + request.consumed && e.writes == [AcceptReply] + request.writes && e.dials == request.dials &&
      (request.outcome == Raise(ValueError) ==> e.outcome == Return(None)) &&
      (request.outcome != Raise(ValueError) ==> e.outcome == request.outcome)
  {
    var greeting := VersionMethodExchange(s);
    match greeting.outcome
    case Raise(err) => Exchange(CatchValueError(Raise(err)), greeting.consumed, greeting.writes, [])
    case Return(ok) =>
      if !ok then Exchange(Return(None), greeting.consumed, greeting.writes, [])
      else
        var request := RequestExchange(s[greeting.consumed..], decodes, route);
        Exchange(CatchValueError(request.outcome), greeting.consumed + request.consumed,
                 greeting.writes + request.writes, request.dials)
  }

  // ---------------------------------------------------------------------
  // Properties

  lemma PStringRoundTrip(x: PString, rest: seq<byte>)
    ensures ParsePString(EncodePString(x) + rest) == Read(Return(x), 1 + |x|)
  {
    var s := EncodePString(x) + rest;
    assert s[0] == |x|;
    assert s[1..][..|x|] == x;
  }

  lemma PortRoundTrip(p: Port, rest: seq<byte>)
    ensures ParsePort(EncodePort(p) + rest) == Read(Return(p), 2)
  {
    var s := EncodePort(p) + rest;
    assert s[..2] == EncodePort(p);
  }

  /** Encoding an address of any of the three kinds and parsing it back gives
      the address, having consumed exactly its encoding. */
  lemma {:induction false} AddressRoundTrip(a: Address, rest: seq<byte>, decodes: seq<byte> -> bool)
    requires a.DomainName? ==> decodes(a.name)
    ensures ParseAtypAddr(EncodeAddress(a) + rest, decodes) == Read(Return(a), |EncodeAddress(a)|)
  {
    match a
    case IPv4(v4) => IPv4RoundTrip(v4, rest, decodes);
    case DomainName(name) => DomainRoundTrip(name, rest, decodes);
    case IPv6(v6) => IPv6RoundTrip(v6, rest, decodes);
  }

  lemma IPv4RoundTrip(v4: Octets4, rest: seq<byte>, decodes: seq<byte> -> bool)
    ensures ParseAtypAddr([AtypIPv4] + v4 + rest, decodes) == Read(Return(IPv4(v4)), 5)
  {
    var s := [AtypIPv4] + v4 + rest;
    assert s[1..] == v4 + rest;
    assert (v4 + rest)[..4] == v4;
  }

  lemma DomainRoundTrip(name: PString, rest: seq<byte>, decodes: seq<byte> -> bool)
    requires decodes(name)
    ensures ParseAtypAddr([AtypDomain] + EncodePString(name) + rest, decodes) == Read(Return(DomainName(name)), 2 + |name|)
  {
    var s := [AtypDomain] + EncodePString(name) + rest;
    assert s[1..] == EncodePString(name) + rest;
    PStringRoundTrip(name, rest);
  }

  lemma IPv6RoundTrip(v6: Octets16, rest: seq<byte>, decodes: seq<byte> -> bool)
    ensures ParseAtypAddr([AtypIPv6] + v6 + rest, decodes) == Read(Return(IPv6(v6)), 17)
  {
    var s := [AtypIPv6] + v6 + rest;
    assert s[1..] == v6 + rest;
    assert (v6 + rest)[..16] == v6;
  }



  /** A strict prefix of an encoded address ends in IncompleteReadError, the
      whole prefix consumed. */
  lemma {:induction false} AddressTruncated(a: Address, n: nat, decodes: seq<byte> -> bool)
    requires n < |EncodeAddress(a)|
    ensures ParseAtypAddr(EncodeAddress(a)[..n], decodes) == Read(Raise(IncompleteReadError), n)
  {
    var s := EncodeAddress(a)[..n];
    if 0 < n && a.DomainName? {
      assert s[1..] == EncodePString(a.name)[..n - 1];
      if 1 < n {
        assert s[1..][0] == |a.name|;
      }
    }
  }

  lemma {:induction false} RequestRoundTrip(q: Request, rest: seq<byte>, decodes: seq<byte> -> bool)
    requires q.dest.addr.DomainName? ==> decodes(q.dest.addr.name)
    ensures ParseRequest(EncodeRequest(q) + rest, decodes) == Read(Return(q), |EncodeRequest(q)|)
  {
    var s := EncodeRequest(q) + rest;
    var addr := EncodeAddress(q.dest.addr);
    assert s[3..] == addr + (EncodePort(q.dest.port) + rest);
    AddressRoundTrip(q.dest.addr, EncodePort(q.dest.port) + rest, decodes);
    assert s[3 + |addr|..] == EncodePort(q.dest.port) + rest;
    PortRoundTrip(q.dest.port, rest);
  }

  /** The success reply carries our endpoint: its ATYP and BND.ADDR part reads
      back with read_atyp_addr as that address, followed by its port. */
  lemma {:induction false} SuccessReplyRoundTrip(l: LocalEndpoint, decodes: seq<byte> -> bool)
    ensures var r := SuccessReply(l);
      var n := |EncodeAddress(BoundAddress(l))|;
      ParseAtypAddr(r[3..], decodes) == Read(Return(BoundAddress(l)), n) &&
      ParsePort(r[3 + n..]) == Read(Return(l.lport), 2) &&
      3 + n + 2 == |r|
  {
    var r := SuccessReply(l);
    var a := BoundAddress(l);
    assert r[3..] == EncodeAddress(a) + EncodePort(l.lport);
    AddressRoundTrip(a, EncodePort(l.lport), decodes);
    assert r[3 + |EncodeAddress(a)|..] == EncodePort(l.lport) + [];
    PortRoundTrip(l.lport, []);
  }

  /** A request whose command is not CONNECT never dials: its exchange is the
      same whatever `open_connection` would have done. */
  lemma UnsupportedCommandNeverDials(s: seq<byte>, decodes: seq<byte> -> bool, route1: Destination -> Dialled, route2: Destination -> Dialled)
    requires ParseRequest(s, decodes).outcome.Return? && s[1] != CmdConnect
    ensures RequestExchange(s, decodes, route1) == RequestExchange(s, decodes, route2)
    ensures RequestExchange(s, decodes, route1).dials == []
  {
  }

  /** The port is 256 * hi + lo of the two bytes after the address. */
  lemma RequestPort(s: seq<byte>, decodes: seq<byte> -> bool)
    requires ParseRequest(s, decodes).outcome.Return?
    ensures var n := 3 + ParseAtypAddr(s[3..], decodes).consumed;
      n + 2 <= |s| && ParseRequest(s, decodes).outcome.value.dest.port == 0x100 * s[n] as int + s[n + 1] as int
  {
  }

  /** A greeting offering only "no authentication" is accepted after its
      three bytes. */
  lemma NoAuthGreeting(rest: seq<byte>)
    ensures VersionMethodExchange([SocksVersion, 0x01, NoAuthentication] + rest) == Exchange(Return(true), 3, [AcceptReply], [])
  {
    var s := [SocksVersion, 0x01, NoAuthentication] + rest;
    assert s[1..] == EncodePString([NoAuthentication]) + rest;
    PStringRoundTrip([NoAuthentication], rest);
  }

  /** A well-formed CONNECT request whose connection succeeds is answered with
      the success reply for our end of the connection. */
  lemma ConnectSucceeds(q: Request, rest: seq<byte>, decodes: seq<byte> -> bool, route: Destination -> Dialled, l: LocalEndpoint)
    requires q.command == CmdConnect
    requires q.dest.addr.DomainName? ==> decodes(q.dest.addr.name)
    requires route(q.dest) == Connected(l)
    ensures RequestExchange(EncodeRequest(q) + rest, decodes, route)
         == Exchange(Return(Some(q.dest)), |EncodeRequest(q)|, [SuccessReply(l)], [q.dest])
  {
    RequestRoundTrip(q, rest, decodes);
  }

  const ExampleDest: Destination := Destination(IPv4([93, 184, 216, 34]), 80)

  /** The request for 93.184.216.34:80 on the wire. */
  lemma ExampleRequestBytes()
    ensures EncodeRequest(Request(CmdConnect, ExampleDest)) == [0x05, 0x01, 0x00, 0x01, 93, 184, 216, 34, 0x00, 80]
  {
  }

  /** The scenario of a client asking for 93.184.216.34:80 after offering only
      "no authentication", when the connection succeeds. */
  lemma ConnectIPv4Scenario(l: Octets4, lport: Port, decodes: seq<byte> -> bool, route: Destination -> Dialled)
    requires route(ExampleDest) == Connected(LocalV4(l, lport))
    ensures var s := [SocksVersion, 0x01, NoAuthentication] + EncodeRequest(Request(CmdConnect, ExampleDest));
      Socks5Exchange(s, decodes, route) ==
        Exchange(Return(Some(ExampleDest)), 13, [AcceptReply, SuccessReply(LocalV4(l, lport))], [ExampleDest])
  {
    var q := Request(CmdConnect, ExampleDest);
    var s := [SocksVersion, 0x01, NoAuthentication] + EncodeRequest(q);
    NoAuthGreeting(EncodeRequest(q));
    assert s[3..] == EncodeRequest(q) + [];
    ConnectSucceeds(q, [], decodes, route, LocalV4(l, lport));
    Socks5Steps(s, decodes, route);
    ExampleRequestBytes();
  }


  // ---------------------------------------------------------------------
  // Finding: s5.py:56 hands a str to StreamWriter.write

  /** handle_version_method as written: the reject reply is the str
      "\x05\xFF", which StreamWriter.write refuses with TypeError before
      anything is queued. */
  function VersionMethodAsWritten(s: seq<byte>): Exchange<bool>
  {
    var version := ReadExactlyOn(s, 1);
    match version.outcome
    case Raise(e) => Exchange(Raise(e), version.consumed, [], [])
    case Return(v) =>
      if v[0] != SocksVersion then Exchange(Return(false), 1, [], [])
      else
        var methods := ParsePString(s[1..]);
        match methods.outcome
        case Raise(e) => Exchange(Raise(e), 1 + methods.consumed, [], [])
        case Return(ms) =>
          if NoAuthentication in ms then Exchange(Return(true), 1 + methods.consumed, [AcceptReply], [])
          else Exchange(Raise(TypeError), 1 + methods.consumed, [], [])
  }

  /** Whenever no acceptable method is offered, the code as written raises
      TypeError and sends nothing, where the intended reply is 05 FF. */
  lemma RejectAsWrittenRaisesTypeError(s: seq<byte>)
    requires 0 < |s| && s[0] == SocksVersion && ParsePString(s[1..]).outcome.Return?
    requires NoAuthentication !in ParsePString(s[1..]).outcome.value
    ensures VersionMethodAsWritten(s).outcome == Raise(TypeError) && VersionMethodAsWritten(s).writes == []
    ensures VersionMethodExchange(s).outcome == Return(false) && VersionMethodExchange(s).writes == [RejectReply]
  {
  }

  /** A client offering only username/password (method 0x02). */
  lemma RejectAsWrittenExample()
    ensures VersionMethodAsWritten([0x05, 0x01, 0x02]).outcome == Raise(TypeError)
    ensures VersionMethodExchange([0x05, 0x01, 0x02]) == Exchange(Return(false), 3, [[0x05, 0xFF]], [])
  {
    var s: seq<byte> := [0x05, 0x01, 0x02];
    assert s[1..] == EncodePString([0x02]) + [];
    PStringRoundTrip([0x02], []);
    RejectAsWrittenRaisesTypeError(s);
  }

  // ---------------------------------------------------------------------
  // Handlers as methods over the streams

  /** `open_connection`, with the outcome for each destination fixed by
      `route`; every attempt is recorded. */
  class Dialer {
    const route: Destination -> Dialled
    var attempts: seq<Destination>

    constructor (route: Destination -> Dialled)
      ensures this.route == route && attempts == []
    {
      this.route := route;
      attempts := [];
    }

    method OpenConnection(d: Destination) returns (r: Dialled)
      modifies this
      ensures r == route(d) && attempts == old(attempts) + [d]
    {
      r := route(d);
      attempts := attempts + [d];
    }
  }

  method ReadPString(reader: Reader) returns (o: Outcome<PString>)
    requires reader.Valid()
    modifies reader
    ensures reader.Valid()
    ensures o == ParsePString(old(reader.Unread())).outcome
    ensures reader.pos == old(reader.pos) + ParsePString(old(reader.Unread())).consumed
  {
    var length :- reader.ReadExactly(1);
    var body :- reader.ReadExactly(length[0]);
    return Return(body);
  }

  method ReadAtypAddr(reader: Reader, decodes: seq<byte> -> bool) returns (o: Outcome<Address>)
    requires reader.Valid()
    modifies reader
    ensures reader.Valid()
    ensures o == ParseAtypAddr(old(reader.Unread()), decodes).outcome
    ensures reader.pos == old(reader.pos) + ParseAtypAddr(old(reader.Unread()), decodes).consumed
  {
    var atyp :- reader.ReadExactly(1);
    if atyp[0] == AtypIPv4 {
      var v4 :- reader.ReadExactly(4);
      return Return(IPv4(v4));
    } else if atyp[0] == AtypDomain {
      var name :- ReadPString(reader);
      if !decodes(name) {
        return Raise(ValueError);
      }
      return Return(DomainName(name));
    } else if atyp[0] == AtypIPv6 {
      var v6 :- reader.ReadExactly(16);
      return Return(IPv6(v6));
    } else {
      return Raise(ValueError);
    }
  }

  /** Socks5Exchange as the two handlers in sequence. */
  lemma Socks5Steps(s: seq<byte>, decodes: seq<byte> -> bool, route: Destination -> Dialled)
    ensures var g := VersionMethodExchange(s);
      var r := RequestExchange(s[g.consumed..], decodes, route);
      var e := Socks5Exchange(s, decodes, route);
      && (g.outcome.Raise? ==> e == Exchange(CatchValueError(Raise(g.outcome.error)), g.consumed, g.writes, []))
      && (g.outcome == Return(false) ==> e == Exchange(Return(None), g.consumed, g.writes, []))
      && (g.outcome == Return(true) ==> e == Exchange(CatchValueError(r.outcome), g.consumed + r.consumed, g.writes + r.writes, r.dials))
  {
  }

  method HandleVersionMethod(reader: Reader, writer: Writer) returns (o: Outcome<bool>)
    requires reader.Valid()
    modifies reader, writer
    ensures reader.Valid()
    ensures o == VersionMethodExchange(old(reader.Unread())).outcome
    ensures reader.pos == old(reader.pos) + VersionMethodExchange(old(reader.Unread())).consumed
    ensures writer.log == old(writer.log) + DataEvents(VersionMethodExchange(old(reader.Unread())).writes)
  {
    AppendNothing(writer.log);
    DataEventsSmall(AcceptReply);
    DataEventsSmall(RejectReply);
    var version :- reader.ReadExactly(1);
    if version[0] != SocksVersion {
      return Return(false);
    }
    var methods :- ReadPString(reader);
    if NoAuthentication in methods {
      writer.Write(AcceptReply);
      return Return(true);
    } else {
      writer.Write(RejectReply);
      return Return(false);
    }
  }

  /** The reading half of handle_connection_request: header, address and
      port. */
  method ReadRequest(reader: Reader, decodes: seq<byte> -> bool) returns (o: Outcome<Request>)
    requires reader.Valid()
    modifies reader
    ensures reader.Valid()
    ensures o == ParseRequest(old(reader.Unread()), decodes).outcome
    ensures reader.pos == old(reader.pos) + ParseRequest(old(reader.Unread()), decodes).consumed
  {
    ghost var s := reader.Unread();
    var header :- reader.ReadExactly(3);
    var version, command, reserved := header[0], header[1], header[2];
    if version != SocksVersion || reserved != 0x00 {
      return Raise(ValueError);
    }
    assert reader.Unread() == s[3..];
    var addr :- ReadAtypAddr(reader, decodes);
    assert reader.Unread() == s[3 + ParseAtypAddr(s[3..], decodes).consumed..];
    var hilo :- reader.ReadExactly(2);
    var port: Port := 0x100 * hilo[0] as int + hilo[1] as int;
    return Return(Request(command, Destination(addr, port)));
  }

  method HandleConnectionRequest(reader: Reader, writer: Writer, dialer: Dialer, decodes: seq<byte> -> bool)
    returns (o: Outcome<Option<Destination>>)
    requires reader.Valid()
    modifies reader, writer, dialer
    ensures reader.Valid()
    ensures var e := RequestExchange(old(reader.Unread()), decodes, dialer.route);
      o == e.outcome && reader.pos == old(reader.pos) + e.consumed &&
      writer.log == old(writer.log) + DataEvents(e.writes) &&
      dialer.attempts == old(dialer.attempts) + e.dials
  {
    AppendNothing(writer.log);
    AppendNothing(dialer.attempts);
    DataEventsSmall(GeneralFailureReply);
    DataEventsSmall(CommandNotSupportedReply);
    var request :- ReadRequest(reader, decodes);
    var dest := request.dest;
    if request.command == CmdConnect {
      var dialled := dialer.OpenConnection(dest);
      if dialled.ConnectFailed? {
        writer.Write(GeneralFailureReply);
        return Return(None);
      }
      DataEventsSmall(SuccessReply(dialled.local));
      writer.Write(SuccessReply(dialled.local));
      return Return(Some(dest));
    } else {
      writer.Write(CommandNotSupportedReply);
      return Return(None);
    }
  }

  method HandleSocks5(reader: Reader, writer: Writer, dialer: Dialer, decodes: seq<byte> -> bool)
    returns (o: Outcome<Option<Destination>>)
    requires reader.Valid()
    modifies reader, writer, dialer
    ensures reader.Valid()
    ensures var e := Socks5Exchange(old(reader.Unread()), decodes, dialer.route);
      o == e.outcome && reader.pos == old(reader.pos) + e.consumed &&
      writer.log == old(writer.log) + DataEvents(e.writes) &&
      dialer.attempts == old(dialer.attempts) + e.dials
  {
    ghost var s := reader.Unread();
    ghost var greeting := VersionMethodExchange(s);
    ghost var rest := RequestExchange(s[greeting.consumed..], decodes, dialer.route);
    Socks5Steps(s, decodes, dialer.route);
    AppendNothing(dialer.attempts);
    var ok := HandleVersionMethod(reader, writer);
    if ok.Raise? {
      return CatchValueError(Raise(ok.error));
    }
    if !ok.value {
      return Return(None);
    }
    assert reader.Unread() == s[greeting.consumed..];
    var request := HandleConnectionRequest(reader, writer, dialer, decodes);
    DataEventsAppend(greeting.writes, rest.writes);
    AppendAssoc(old(writer.log), DataEvents(greeting.writes), DataEvents(rest.writes));
    return CatchValueError(request);
  }

}
