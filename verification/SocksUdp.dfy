/**
 * SOCKS5 UDP framing, section 7 of RFC 1928 (internal/network/socks_udp.go).
 * Addresses are byte strings; a domain source address is kept as host and port.
 */
module SocksUdp {
  import opened Wrappers

  newtype byte = x: int | 0 <= x < 0x100

  type Bytes = seq<byte>
  type Port = p: int | 0 <= p < 0x1_0000

  const ATYP_IPV4: byte := 0x01
  const ATYP_DOMAIN: byte := 0x03
  const ATYP_IPV6: byte := 0x04
  const FRAG_NONE: byte := 0x00
  const IPV4_SIZE := 4
  const IPV6_SIZE := 16
  const PORT_SIZE := 2
  const MAX_DOMAIN_LEN := 255
  const READ_SLACK := 512
  const MAX_HEADER := 262

  datatype SocksError = HeaderInvalid | UnsupportedAtyp | ShortRead | ShortBuffer

  datatype SocksAddr = SocksAddr(atyp: byte, ip: Bytes, host: Bytes, port: Port)

  datatype NetAddr = UdpAddr(ip: Bytes, port: Port) | HostPort(host: Bytes, port: Port)

  // ----- Addresses -----

  predicate IsMapped(ip: Bytes) {
    |ip| == IPV6_SIZE && (forall i :: 0 <= i < 10 ==> ip[i] == 0) && ip[10] == 0xff && ip[11] == 0xff
  }

  // net.IP.To4
  function To4(ip: Bytes): Option<Bytes> {
    if |ip| == IPV4_SIZE then Some(ip) else if IsMapped(ip) then Some(ip[12..]) else None
  }

  function PutUint16(port: Port): (r: Bytes)
    ensures |r| == PORT_SIZE
  {
    [(port / 0x100) as byte, (port % 0x100) as byte]
  }

  function Uint16(b: Bytes): Port
    requires |b| == PORT_SIZE
  {
    b[0] as int * 0x100 + b[1] as int
  }

  lemma PortRoundTrip(port: Port)
    ensures Uint16(PutUint16(port)) == port
  {
  }

  lemma PortBytesRoundTrip(b: Bytes)
    requires |b| == PORT_SIZE
    ensures PutUint16(Uint16(b)) == b
  {
  }

  // What the encoder accepts: an IPv4 address in either form, a real IPv6 address, a domain of 1 to 255 bytes.
  predicate Encodable(addr: SocksAddr) {
    || (addr.atyp == ATYP_IPV4 && To4(addr.ip).Some?)
    || (addr.atyp == ATYP_IPV6 && |addr.ip| == IPV6_SIZE && !IsMapped(addr.ip))
    || (addr.atyp == ATYP_DOMAIN && 0 < |addr.host| <= MAX_DOMAIN_LEN)
  }

  function EncodeAddr(addr: SocksAddr): Result<Bytes, SocksError> {
    if addr.atyp == ATYP_IPV4 then
      var ip := To4(addr.ip);
      if ip.None? then Err(UnsupportedAtyp) else Ok([ATYP_IPV4] + ip.value + PutUint16(addr.port))
    else if addr.atyp == ATYP_IPV6 then
      if |addr.ip| != IPV6_SIZE || To4(addr.ip).Some? then Err(UnsupportedAtyp)
      else Ok([ATYP_IPV6] + addr.ip + PutUint16(addr.port))
    else if addr.atyp == ATYP_DOMAIN then
      if |addr.host| == 0 || |addr.host| > MAX_DOMAIN_LEN then Err(HeaderInvalid)
      else Ok([ATYP_DOMAIN] + [|addr.host| as byte] + addr.host + PutUint16(addr.port))
    else Err(UnsupportedAtyp)
  }

  function EncodeHeader(dst: SocksAddr, payload: Bytes): Result<Bytes, SocksError> {
    var addrBytes := EncodeAddr(dst);
    if addrBytes.Err? then Err(addrBytes.error)
    else Ok([FRAG_NONE, FRAG_NONE, FRAG_NONE] + addrBytes.value + payload)
  }

  datatype Read = Read(addr: SocksAddr, consumed: int)

  function ReadAddr(buf: Bytes, atyp: byte): (r: Result<Read, SocksError>)
    ensures r.Ok? ==> 0 <= r.value.consumed <= |buf| && r.value.consumed <= 1 + MAX_DOMAIN_LEN + PORT_SIZE
  {
    if atyp == ATYP_IPV4 then
      if |buf| < IPV4_SIZE + PORT_SIZE then Err(HeaderInvalid)
      else Ok(Read(SocksAddr(atyp, buf[..IPV4_SIZE], [], Uint16(buf[IPV4_SIZE..IPV4_SIZE + PORT_SIZE])),
                   IPV4_SIZE + PORT_SIZE))
    else if atyp == ATYP_IPV6 then
      if |buf| < IPV6_SIZE + PORT_SIZE then Err(HeaderInvalid)
      else Ok(Read(SocksAddr(atyp, buf[..IPV6_SIZE], [], Uint16(buf[IPV6_SIZE..IPV6_SIZE + PORT_SIZE])),
                   IPV6_SIZE + PORT_SIZE))
    else if atyp == ATYP_DOMAIN then
      if |buf| < 1 then Err(HeaderInvalid)
      else
        var hostLen := buf[0] as int;
        var need := 1 + hostLen + PORT_SIZE;
        if |buf| < need then Err(HeaderInvalid)
        else Ok(Read(SocksAddr(atyp, [], buf[1..1 + hostLen], Uint16(buf[1 + hostLen..need])), need))
    else Err(UnsupportedAtyp)
  }

  function ToNetAddr(addr: SocksAddr): Result<NetAddr, SocksError> {
    if addr.atyp == ATYP_IPV4 || addr.atyp == ATYP_IPV6 then Ok(UdpAddr(addr.ip, addr.port))
    else if addr.atyp == ATYP_DOMAIN then Ok(HostPort(addr.host, addr.port))
    else Err(UnsupportedAtyp)
  }

  datatype Packet = Packet(payload: Bytes, source: NetAddr)

  function DecodeHeader(packet: Bytes): Result<Packet, SocksError> {
    if |packet| < 2 + 1 + 1 + PORT_SIZE then Err(HeaderInvalid)
    else if packet[2] != FRAG_NONE then Err(HeaderInvalid)
    else
      var rest := packet[4..];
      var read := ReadAddr(rest, packet[3]);
      if read.Err? then Err(read.error)
      else
        var source := ToNetAddr(read.value.addr);
        if source.Err? then Err(source.error) else Ok(Packet(rest[read.value.consumed..], source.value))
  }

  // ----- Round trips -----

  // The source address a receiver of the encoded header sees.
  function AddressOf(addr: SocksAddr): NetAddr
    requires Encodable(addr)
  {
    if addr.atyp == ATYP_DOMAIN then HostPort(addr.host, addr.port)
    else if addr.atyp == ATYP_IPV4 then UdpAddr(To4(addr.ip).value, addr.port)
    else UdpAddr(addr.ip, addr.port)
  }

  /** Encoding succeeds exactly on encodable addresses. */
  lemma EncodesIffEncodable(addr: SocksAddr, payload: Bytes)
    ensures EncodeHeader(addr, payload).Ok? <==> Encodable(addr)
  {
  }

  // The bytes of an encodable address, whichever kind it is: kind, what the kind needs, port.
  function Body(addr: SocksAddr): (r: Bytes)
    requires Encodable(addr)
    ensures 0 < |r| <= 1 + MAX_DOMAIN_LEN
  {
    if addr.atyp == ATYP_DOMAIN then [|addr.host| as byte] + addr.host
    else if addr.atyp == ATYP_IPV4 then To4(addr.ip).value
    else addr.ip
  }

  lemma EncodedShape(addr: SocksAddr)
    requires Encodable(addr)
    ensures EncodeAddr(addr) == Ok([addr.atyp] + Body(addr) + PutUint16(addr.port))
    ensures addr.atyp == ATYP_IPV4 ==> |Body(addr)| == IPV4_SIZE
    ensures addr.atyp == ATYP_IPV6 ==> |Body(addr)| == IPV6_SIZE
  {
    hide PutUint16;
    if addr.atyp == ATYP_DOMAIN {
      assert [ATYP_DOMAIN] + [|addr.host| as byte] + addr.host == [ATYP_DOMAIN] + Body(addr);
    }
  }

  lemma ReadOfEncoded(addr: SocksAddr, payload: Bytes)
    requires Encodable(addr)
    ensures var rest := Body(addr) + PutUint16(addr.port) + payload;
            var read := ReadAddr(rest, addr.atyp);
            && read.Ok? && rest[read.value.consumed..] == payload
            && ToNetAddr(read.value.addr) == Ok(AddressOf(addr))
  {
    hide IsMapped, Uint16;
    PortRoundTrip(addr.port);
    EncodedShape(addr);
    var body := Body(addr);
    var rest := body + PutUint16(addr.port) + payload;
    assert rest[..|body|] == body;
    assert rest[|body|..|body| + PORT_SIZE] == PutUint16(addr.port);
    assert rest[|body| + PORT_SIZE..] == payload;
    if addr.atyp == ATYP_DOMAIN {
      assert rest[0] == body[0] && rest[1..|body|] == body[1..] == addr.host;
    }
  }

  /** Decoding an encoded datagram returns its address, port and payload, for every address the encoder accepts. */
  lemma DecodeOfEncode(addr: SocksAddr, payload: Bytes)
    requires Encodable(addr)
    ensures EncodeHeader(addr, payload).Ok?
    ensures DecodeHeader(EncodeHeader(addr, payload).value) == Ok(Packet(payload, AddressOf(addr)))
  {
    hide ReadAddr, ToNetAddr, AddressOf, EncodeAddr, Body, PutUint16;
    ReadOfEncoded(addr, payload);
    EncodedShape(addr);
    var rest := Body(addr) + PutUint16(addr.port) + payload;
    var packet := EncodeHeader(addr, payload).value;
    assert packet == [FRAG_NONE, FRAG_NONE, FRAG_NONE, addr.atyp] + rest;
    assert packet[4..] == rest;
  }

  // The address a decoded packet carries, in encoder form.
  function Reencoded(source: NetAddr): SocksAddr {
    match source
    case UdpAddr(ip, port) => SocksAddr(if |ip| == IPV4_SIZE then ATYP_IPV4 else ATYP_IPV6, ip, [], port)
    case HostPort(host, port) => SocksAddr(ATYP_DOMAIN, [], host, port)
  }

  // A packet the decoder accepts whose address the encoder accepts too: no mapped IPv6, no empty domain.
  predicate AddressRoundTrips(packet: Bytes)
    requires DecodeHeader(packet).Ok?
  {
    || packet[3] == ATYP_IPV4
    || (packet[3] == ATYP_IPV6 && !IsMapped(packet[4..4 + IPV6_SIZE]))
    || (packet[3] == ATYP_DOMAIN && packet[4] != 0)
  }

  // The encoder puts back what the reader took: kind, body and port, in front of what is left.
  lemma BodyRestored(rest: Bytes, n: int, kind: Bytes, body: Bytes, port: Port)
    requires PORT_SIZE <= n <= |rest|
    requires body == rest[..n - PORT_SIZE] && port == Uint16(rest[n - PORT_SIZE..n])
    ensures kind + body + PutUint16(port) + rest[n..] == kind + rest
  {
    hide PutUint16, Uint16;
    PortBytesRoundTrip(rest[n - PORT_SIZE..n]);
    var tail := rest[n - PORT_SIZE..n];
    assert rest == body + tail + rest[n..];
    assert kind + body + tail + rest[n..] == kind + (body + tail + rest[n..]);
  }

  lemma IpRestored(rest: Bytes, atyp: byte)
    requires ReadAddr(rest, atyp).Ok? && atyp != ATYP_DOMAIN
    ensures var read := ReadAddr(rest, atyp).value;
            var again := EncodeAddr(read.addr);
            && (again.Ok? <==> atyp == ATYP_IPV4 || !IsMapped(rest[..IPV6_SIZE]))
            && (again.Ok? ==> again.value + rest[read.consumed..] == [atyp] + rest)
  {
    hide IsMapped, PutUint16, Uint16;
    var read := ReadAddr(rest, atyp).value;
    BodyRestored(rest, read.consumed, [atyp], read.addr.ip, read.addr.port);
  }

  lemma DomainRestored(rest: Bytes)
    requires ReadAddr(rest, ATYP_DOMAIN).Ok?
    ensures var read := ReadAddr(rest, ATYP_DOMAIN).value;
            var again := EncodeAddr(read.addr);
            && (again.Ok? <==> rest[0] != 0)
            && (again.Ok? ==> again.value + rest[read.consumed..] == [ATYP_DOMAIN] + rest)
  {
    hide IsMapped, PutUint16, Uint16;
    var read := ReadAddr(rest, ATYP_DOMAIN).value;
    var body := rest[..read.consumed - PORT_SIZE];
    assert |read.addr.host| as byte == rest[0];
    assert [ATYP_DOMAIN] + [rest[0]] + read.addr.host == [ATYP_DOMAIN] + body;
    BodyRestored(rest, read.consumed, [ATYP_DOMAIN], body, read.addr.port);
  }

  lemma ReadRestored(rest: Bytes, atyp: byte)
    requires ReadAddr(rest, atyp).Ok?
    ensures var read := ReadAddr(rest, atyp).value;
            var again := EncodeAddr(read.addr);
            && (again.Ok? <==> || atyp == ATYP_IPV4
                               || (atyp == ATYP_IPV6 && !IsMapped(rest[..IPV6_SIZE]))
                               || (atyp == ATYP_DOMAIN && rest[0] != 0))
            && (again.Ok? ==> again.value + rest[read.consumed..] == [atyp] + rest)
  {
    hide IsMapped, EncodeAddr, Uint16;
    if atyp == ATYP_DOMAIN {
      DomainRestored(rest);
    } else {
      IpRestored(rest, atyp);
    }
  }

  /**
   * Encoding a decoded datagram again restores it up to the reserved bytes exactly when its address is
   * neither an IPv4-mapped IPv6 address nor an empty domain.
   */
  lemma EncodeOfDecode(packet: Bytes)
    ensures DecodeHeader(packet).Ok? ==>
              var decoded := DecodeHeader(packet).value;
              EncodeHeader(Reencoded(decoded.source), decoded.payload) == Ok([0, 0] + packet[2..])
              <==> AddressRoundTrips(packet)
  {
    hide IsMapped, EncodeAddr;
    if DecodeHeader(packet).Ok? {
      var rest := packet[4..];
      ReadRestored(rest, packet[3]);
      var read := ReadAddr(rest, packet[3]).value;
      assert Reencoded(DecodeHeader(packet).value.source) == read.addr;
      assert [0, 0] + packet[2..] == [FRAG_NONE, FRAG_NONE, FRAG_NONE] + ([packet[3]] + rest);
      var again := EncodeAddr(read.addr);
      if again.Ok? {
        var payload := rest[read.consumed..];
        var zeros := [FRAG_NONE, FRAG_NONE, FRAG_NONE];
        assert zeros + again.value + payload == zeros + (again.value + payload);
      }
      if packet[3] == ATYP_IPV6 {
        assert packet[4..4 + IPV6_SIZE] == rest[..IPV6_SIZE];
      }
    }
  }

  // The decoder accepts the datagram, the encoder refuses the address it carries.
  predicate CannotBeReencoded(packet: Bytes) {
    DecodeHeader(packet).Ok? && EncodeHeader(Reencoded(DecodeHeader(packet).value.source), []).Err?
  }

  /** The first exception is met: a domain of no bytes is accepted. */
  lemma EmptyDomainCannotBeReencoded(high: byte, low: byte)
    ensures CannotBeReencoded([0, 0, FRAG_NONE, ATYP_DOMAIN, 0, high, low])
  {
    var packet: Bytes := [0, 0, FRAG_NONE, ATYP_DOMAIN, 0, high, low];
    assert packet[4..] == [0, high, low];
  }

  /** So is the second: 192.0.2.1 mapped into IPv6, port 80. */
  lemma MappedAddressCannotBeReencoded()
    ensures CannotBeReencoded(
              [0, 0, FRAG_NONE, ATYP_IPV6] + [0, 0, 0, 0, 0, 0, 0, 0, 0, 0, 0xff, 0xff, 192, 0, 2, 1] + [0, 80])
  {
    var ip: Bytes := [0, 0, 0, 0, 0, 0, 0, 0, 0, 0, 0xff, 0xff, 192, 0, 2, 1];
    var packet := [0, 0, FRAG_NONE, ATYP_IPV6] + ip + [0, 80];
    assert packet[4..] == ip + [0, 80];
    assert (ip + [0, 80])[..IPV6_SIZE] == ip;
    assert IsMapped(ip);
  }

  // ----- Reading from a stream -----

  class Reader {
    var data: Bytes

    constructor (data: Bytes)
      ensures this.data == data
    {
      this.data := data;
    }

    // io.ReadFull
    method ReadFull(n: nat) returns (r: Result<Bytes, SocksError>)
      modifies this
      ensures n <= |old(data)| ==> r == Ok(old(data)[..n]) && data == old(data)[n..]
      ensures n > |old(data)| ==> r == Err(ShortRead) && data == []
    {
      if n > |data| {
        data := [];
        return Err(ShortRead);
      }
      r := Ok(data[..n]);
      data := data[n..];
    }

    /** The stream reader agrees with the buffer reader on success, value and bytes consumed. */
    method ReadSocksAddr(atyp: byte) returns (r: Result<Read, SocksError>)
      modifies this
      ensures r.Ok? <==> ReadAddr(old(data), atyp).Ok?
      ensures r.Ok? ==> r == ReadAddr(old(data), atyp) && data == old(data)[r.value.consumed..]
      ensures r.Err? ==> r.error == if atyp in {ATYP_IPV4, ATYP_IPV6, ATYP_DOMAIN} then ShortRead else UnsupportedAtyp
    {
      ghost var was := data;
      if atyp == ATYP_IPV4 {
        var buf := ReadFull(IPV4_SIZE + PORT_SIZE);
        if buf.Err? {
          return Err(buf.error);
        }
        assert buf.value[IPV4_SIZE..] == was[IPV4_SIZE..IPV4_SIZE + PORT_SIZE]
               && buf.value[..IPV4_SIZE] == was[..IPV4_SIZE];
        return Ok(Read(SocksAddr(atyp, buf.value[..IPV4_SIZE], [], Uint16(buf.value[IPV4_SIZE..])), |buf.value|));
      } else if atyp == ATYP_IPV6 {
        var buf := ReadFull(IPV6_SIZE + PORT_SIZE);
        if buf.Err? {
          return Err(buf.error);
        }
        assert buf.value[IPV6_SIZE..] == was[IPV6_SIZE..IPV6_SIZE + PORT_SIZE]
               && buf.value[..IPV6_SIZE] == was[..IPV6_SIZE];
        return Ok(Read(SocksAddr(atyp, buf.value[..IPV6_SIZE], [], Uint16(buf.value[IPV6_SIZE..])), |buf.value|));
      } else if atyp == ATYP_DOMAIN {
        var length := ReadFull(1);
        if length.Err? {
          return Err(length.error);
        }
        var hostLen := length.value[0] as int;
        var buf := ReadFull(hostLen + PORT_SIZE);
        if buf.Err? {
          return Err(buf.error);
        }
        assert buf.value == was[1..1 + hostLen + PORT_SIZE];
        assert buf.value[..hostLen] == was[1..1 + hostLen];
        assert buf.value[hostLen..] == was[1 + hostLen..1 + hostLen + PORT_SIZE];
        assert was[1..][hostLen + PORT_SIZE..] == was[1 + hostLen + PORT_SIZE..];
        return Ok(Read(SocksAddr(atyp, [], buf.value[..hostLen], Uint16(buf.value[hostLen..])), 1 + |buf.value|));
      }
      return Err(UnsupportedAtyp);
    }
  }

  // ----- Receiving -----

  /** No decodable datagram carries more than MAX_HEADER bytes before its payload. */
  lemma HeaderIsSmall(packet: Bytes)
    ensures DecodeHeader(packet).Ok? ==>
              var payload := DecodeHeader(packet).value.payload;
              |payload| <= |packet| <= |payload| + MAX_HEADER && payload == packet[|packet| - |payload|..]
  {
  }

  // Cutting a datagram off behind its header changes nothing but the payload's length.
  lemma DecodeOfPrefix(packet: Bytes, n: nat)
    requires MAX_HEADER <= n <= |packet|
    ensures DecodeHeader(packet[..n]).Ok? <==> DecodeHeader(packet).Ok?
    ensures DecodeHeader(packet).Ok? ==>
              var (whole, cut) := (DecodeHeader(packet).value, DecodeHeader(packet[..n]).value);
              cut.source == whole.source && cut.payload + packet[n..] == whole.payload
    ensures DecodeHeader(packet).Err? ==> DecodeHeader(packet[..n]).error == DecodeHeader(packet).error
  {
    hide ReadAddr, ToNetAddr;
    var cut := packet[..n];
    assert cut[2] == packet[2] && cut[3] == packet[3];
    ReadOfPrefix(packet[4..], packet[3], n - 4);
    assert cut[4..] == packet[4..][..n - 4];
    if DecodeHeader(packet).Ok? {
      var r := ReadAddr(packet[4..], packet[3]).value.consumed;
      assert cut[4..][r..] == packet[4 + r..n] && packet[4..][r..] == packet[4 + r..];
      assert packet[4 + r..n] + packet[n..] == packet[4 + r..];
    }
  }

  lemma ReadOfPrefix(buf: Bytes, atyp: byte, n: nat)
    requires 1 + MAX_DOMAIN_LEN + PORT_SIZE <= n <= |buf|
    ensures ReadAddr(buf[..n], atyp) == ReadAddr(buf, atyp)
  {
    var cut := buf[..n];
    assert cut[..IPV4_SIZE] == buf[..IPV4_SIZE]
           && cut[IPV4_SIZE..IPV4_SIZE + PORT_SIZE] == buf[IPV4_SIZE..IPV4_SIZE + PORT_SIZE];
    assert cut[..IPV6_SIZE] == buf[..IPV6_SIZE]
           && cut[IPV6_SIZE..IPV6_SIZE + PORT_SIZE] == buf[IPV6_SIZE..IPV6_SIZE + PORT_SIZE];
    var h := buf[0] as int;
    assert cut[1..1 + h] == buf[1..1 + h] && cut[1 + h..1 + h + PORT_SIZE] == buf[1 + h..1 + h + PORT_SIZE];
  }

  datatype Received = Received(copied: Bytes, source: Option<NetAddr>, err: Option<SocksError>)

  /**
   * Receiving into a buffer of `size` bytes hands over the whole payload exactly when it fits: the
   * scratch slack always leaves room for the header.
   */
  method ReadFrom(datagram: Bytes, size: nat) returns (r: Received)
    ensures DecodeHeader(datagram).Err? ==> r == Received([], None, Some(DecodeHeader(datagram).error))
    ensures DecodeHeader(datagram).Ok? ==>
              var whole := DecodeHeader(datagram).value;
              && r.source == Some(whole.source)
              && (|whole.payload| <= size ==> r.copied == whole.payload && r.err == None)
              && (|whole.payload| > size ==> r.copied == whole.payload[..size] && r.err == Some(ShortBuffer))
  {
    var scratch := size + READ_SLACK;
    HeaderIsSmall(datagram);
    var packet := if |datagram| <= scratch then datagram else datagram[..scratch];
    if |datagram| > scratch {
      DecodeOfPrefix(datagram, scratch);
    }
    var decoded := DecodeHeader(packet);
    if decoded.Err? {
      return Received([], None, Some(decoded.error));
    }
    var payload := decoded.value.payload;
    var copied := if |payload| <= size then payload else payload[..size];
    if |copied| < |payload| {
      return Received(copied, Some(decoded.value.source), Some(ShortBuffer));
    }
    return Received(copied, Some(decoded.value.source), None);
  }
}
