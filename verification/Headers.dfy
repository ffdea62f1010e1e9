/**
 * Reading packets by the standards: the IPv4 header of RFC 791 (section 3.1), the echo message of
 * RFC 792, the UDP header of RFC 768 and the checksum of RFC 1071.
 */
module Headers {
  import opened CInt
  import opened ProbeCommand

  function TwoBytes(high: int, low: int): int { high * 256 + low }

  /** A 16-bit field in network order. */
  function Word(b: seq<Byte>, at: nat): (w: int)
    requires at + 2 <= |b|
    ensures 0 <= w < 65536
  {
    TwoBytes(b[at], b[at + 1])
  }

  datatype Ip4 = Ip4(version: int, headerWords: int, tos: Byte, totalLength: int, identification: int, fragment: int,
                     ttl: Byte, protocol: Byte, checksum: int, source: seq<Byte>, dest: seq<Byte>, payload: seq<Byte>)

  function ReadIp4(b: seq<Byte>): Ip4
    requires |b| >= 20
  {
    Ip4(b[0] / 16, b[0] % 16, b[1], Word(b, 2), Word(b, 4), Word(b, 6), b[8], b[9], Word(b, 10), b[12..16], b[16..20], b[20..])
  }

  datatype Icmp = Icmp(kind: Byte, code: Byte, checksum: int, identifier: int, sequence: int, payload: seq<Byte>)

  function ReadIcmp(b: seq<Byte>): Icmp
    requires |b| >= 8
  {
    Icmp(b[0], b[1], Word(b, 2), Word(b, 4), Word(b, 6), b[8..])
  }

  datatype Udp = Udp(source: int, dest: int, length: int, checksum: int, payload: seq<Byte>)

  function ReadUdp(b: seq<Byte>): Udp
    requires |b| >= 8
  {
    Udp(Word(b, 0), Word(b, 2), Word(b, 4), Word(b, 6), b[8..])
  }

  /** The sum of the 16-bit words, a last odd byte padded with zero. */
  function WordTotal(b: seq<Byte>): nat {
    if |b| == 0 then 0
    else if |b| == 1 then TwoBytes(b[0], 0)
    else Word(b, 0) + WordTotal(b[2..])
  }

  /** A message that carries its checksum adds up to nothing but ones. */
  predicate Verifies(b: seq<Byte>) { WordTotal(b) > 0 && WordTotal(b) % 0xFFFF == 0 }

  /** The IPv4 header of a probe: what was asked for, and zero where the kernel fills in. */
  predicate Ip4AsRequested(b: seq<Byte>, lengthHostOrder: bool, p: ProbeParam, source: seq<Byte>, dest: seq<Byte>, size: int) {
    |b| >= 20 &&
    var ip := ReadIp4(b);
    && ip.version == 4 && ip.headerWords == 5
    && ip.tos == p.typeOfService % 256 && ip.ttl == p.ttl % 256 && ip.protocol == p.protocol % 256
    && (if lengthHostOrder then TwoBytes(b[3], b[2]) else ip.totalLength) == size
    && ip.identification == 0 && ip.fragment == 0 && ip.checksum == 0
    && ip.source == source && ip.dest == dest
  }

  predicate EchoAsRequested(b: seq<Byte>, pid: int, sequence: int, p: ProbeParam) {
    |b| >= 8 &&
    var echo := ReadIcmp(b);
    && echo.kind == 8 && echo.code == 0 && Verifies(b)
    && echo.identifier == pid % 65536 && echo.sequence == sequence % 65536
    && forall i :: 0 <= i < |echo.payload| ==> echo.payload[i] == p.bitPattern % 256
  }

  /** The sequence number goes to the first of destination port, source port and checksum that is free. */
  predicate UdpAsRequested(b: seq<Byte>, pid: int, sequence: int, p: ProbeParam) {
    |b| >= 8 &&
    var udp := ReadUdp(b);
    && udp.length == |b|
    && udp.dest == (if p.destPort != 0 then p.destPort else sequence) % 65536
    && udp.source == (if p.localPort != 0 then p.localPort else if p.destPort != 0 then sequence else pid) % 65536
    && udp.checksum == (if p.destPort != 0 && p.localPort != 0 then sequence else 0) % 65536
    && forall i :: 0 <= i < |udp.payload| ==> udp.payload[i] == p.bitPattern % 256
  }

  /** A whole ICMP or UDP probe over IPv4, with its IP header if the socket is raw. */
  predicate ProbeAsRequested(b: seq<Byte>, raw: bool, lengthHostOrder: bool, pid: int, sequence: int, p: ProbeParam,
                             source: seq<Byte>, dest: seq<Byte>)
  {
    && (raw ==> Ip4AsRequested(b, lengthHostOrder, p, source, dest, |b|))
    && var transport := if raw then b[20..] else b;
       if p.protocol == 1 then EchoAsRequested(transport, pid, sequence, p)
       else UdpAsRequested(transport, pid, sequence, p)
  }
}
