/**
 * The datagrams of section 7 of RFC 1928 byte by byte: which address is where, which datagrams are
 * accepted, and which error the others give.
 */
module SocksReference {
  import opened Wrappers
  import opened SocksUdp

  // A port at a position, the high byte first.
  predicate PortAt(packet: Bytes, i: int, port: Port) {
    0 <= i < |packet| - 1 && packet[i] as int * 256 + packet[i + 1] as int == port
  }

  // The layout of a datagram: two reserved bytes, no fragment, the kind of address, the address, the port, the payload.
  predicate IsLaidOut(packet: Bytes, atyp: byte, address: Bytes, port: Port, payload: Bytes) {
    && |packet| == 4 + |address| + 2 + |payload| && packet[..3] == [0, 0, 0] && packet[3] == atyp
    && packet[4..4 + |address|] == address && PortAt(packet, 4 + |address|, port)
    && packet[4 + |address| + 2..] == payload
  }

  // An IPv4 address written as sixteen bytes: ten zeros and two 0xff in front.
  predicate IsMappedV4(ip: Bytes) {
    |ip| == 16 && ip[..10] == [0, 0, 0, 0, 0, 0, 0, 0, 0, 0] && ip[10] == 255 && ip[11] == 255
  }

  lemma MappedIff(ip: Bytes)
    ensures IsMapped(ip) <==> IsMappedV4(ip)
  {
    if IsMapped(ip) {
      assert ip[..10] == [0, 0, 0, 0, 0, 0, 0, 0, 0, 0];
    }
    if IsMappedV4(ip) {
      forall i | 0 <= i < 10
        ensures ip[i] == 0
      {
        assert ip[i] == ip[..10][i];
      }
    }
  }

  /**
   * What encoding gives. Kind 1 wants an address of four bytes or a mapped one and writes its last four
   * bytes, kind 4 one of sixteen bytes that is not mapped, kind 3 a domain of 1 to 255 bytes with its
   * length in front; a bad domain makes the header invalid, everything else is unsupported.
   */
  lemma EncodedLayout(addr: SocksAddr, payload: Bytes)
    ensures var r := EncodeHeader(addr, payload);
            if addr.atyp == 1 then
              if |addr.ip| == 4 || IsMappedV4(addr.ip)
              then r.Ok? && IsLaidOut(r.value, 1, addr.ip[|addr.ip| - 4..], addr.port, payload)
              else r == Err(UnsupportedAtyp)
            else if addr.atyp == 4 then
              if |addr.ip| == 16 && !IsMappedV4(addr.ip)
              then r.Ok? && IsLaidOut(r.value, 4, addr.ip, addr.port, payload)
              else r == Err(UnsupportedAtyp)
            else if addr.atyp == 3 then
              if 1 <= |addr.host| <= 255
              then r.Ok? && IsLaidOut(r.value, 3, [|addr.host| as byte] + addr.host, addr.port, payload)
              else r == Err(HeaderInvalid)
            else r == Err(UnsupportedAtyp)
  {
    hide EncodeAddr, IsMapped, IsMappedV4, Body, IsLaidOut;
    MappedIff(addr.ip);
    EncodeErrors(addr);
    if Encodable(addr) {
      EncodedShape(addr);
      BodyIs(addr);
      LaidOut(addr.atyp, Body(addr), addr.port, payload);
    }
  }

  lemma EncodeErrors(addr: SocksAddr)
    ensures EncodeAddr(addr).Ok? <==> Encodable(addr)
    ensures EncodeAddr(addr).Err? ==>
              EncodeAddr(addr).error == if addr.atyp == 3 then HeaderInvalid else UnsupportedAtyp
  {
  }

  lemma BodyIs(addr: SocksAddr)
    requires Encodable(addr)
    ensures Body(addr) == if addr.atyp == 3 then [|addr.host| as byte] + addr.host
                          else if addr.atyp == 1 then addr.ip[|addr.ip| - 4..] else addr.ip
  {
    if addr.atyp == 1 && |addr.ip| == 4 {
      assert addr.ip[0..] == addr.ip;
    }
  }

  lemma LaidOut(atyp: byte, body: Bytes, port: Port, payload: Bytes)
    ensures IsLaidOut([0, 0, 0] + ([atyp] + body + PutUint16(port)) + payload, atyp, body, port, payload)
  {
    var packet := [0, 0, 0] + ([atyp] + body + PutUint16(port)) + payload;
    assert packet[4..4 + |body|] == body;
    assert packet[4 + |body| + 2..] == payload;
    assert packet[4 + |body|] == PutUint16(port)[0] && packet[4 + |body| + 1] == PutUint16(port)[1];
  }

  // How many bytes come before the payload of a datagram of six bytes or more, or none for another kind of address.
  function HeaderSize(packet: Bytes): Option<int>
    requires |packet| >= 6
  {
    if packet[3] == 1 then Some(10)
    else if packet[3] == 4 then Some(22)
    else if packet[3] == 3 then Some(7 + packet[4] as int)
    else None
  }

  /**
   * What decoding gives: nothing on fewer than six bytes or on a fragment, whatever the reserved bytes
   * hold; else by the kind of address, the bytes behind it, the port behind them and the payload.
   */
  lemma DecodedLayout(packet: Bytes)
    ensures var r := DecodeHeader(packet);
            if |packet| < 6 || packet[2] != 0 then r == Err(HeaderInvalid)
            else
              match HeaderSize(packet)
              case None => r == Err(UnsupportedAtyp)
              case Some(n) =>
                if |packet| < n then r == Err(HeaderInvalid)
                else
                  && r.Ok? && r.value.payload == packet[n..] && PortAt(packet, n - 2, r.value.source.port)
                  && (packet[3] == 3 ==> r.value.source.HostPort? && r.value.source.host == packet[5..n - 2])
                  && (packet[3] != 3 ==> r.value.source.UdpAddr? && r.value.source.ip == packet[4..n - 2])
  {
    if |packet| >= 6 && packet[2] == 0 {
      var rest := packet[4..];
      match HeaderSize(packet)
      case None =>
      case Some(n) =>
        if |packet| >= n {
          assert rest[n - 6..n - 4] == packet[n - 2..n];
          assert packet[n - 2..n][0] == packet[n - 2] && packet[n - 2..n][1] == packet[n - 1];
          assert rest[n - 4..] == packet[n..];
          assert rest[..n - 6] == packet[4..n - 2];
          if packet[3] == 3 {
            assert rest[1..n - 6] == packet[5..n - 2];
          }
        }
    }
  }
}
