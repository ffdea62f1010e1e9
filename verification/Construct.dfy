/** Building the IPv4 probe packets (packet/construct_unix.c). */
module Construct {
  import opened CInt
  import opened Checksum
  import opened ProbeCommand
  import opened Headers
  import opened Options

  const IP_HEADER_SIZE := 20
  const IP6_HEADER_SIZE := 40
  const TRANSPORT_HEADER_SIZE := 8   // ICMP and UDP alike
  const SIZE_OF_INT := 4
  const ICMP_ECHO := 8

  /** What the platform was able to open, and who we are. */
  datatype NetConfig = NetConfig(ip4Raw: bool, ip6Raw: bool, lengthHostOrder: bool, pid: int)

  // ----- sizes -----

  predicate IsStream(protocol: int) { protocol == IPPROTO_TCP || protocol == IPPROTO_SCTP }

  /** The space the headers we build ourselves need, counting an IPv6 header the kernel adds. */
  function HeaderSpace(config: NetConfig, p: ProbeParam): nat {
    (if p.ipVersion == 6 && config.ip6Raw then IP6_HEADER_SIZE
     else if p.ipVersion == 4 && config.ip4Raw then IP_HEADER_SIZE
     else 0)
    + TRANSPORT_HEADER_SIZE + if p.protocol == IPPROTO_UDP then SIZE_OF_INT else 0
  }

  /** The size to transmit; negative for what cannot be built. */
  function PacketSize(config: NetConfig, p: ProbeParam): int {
    if IsStream(p.protocol) then 0
    else if p.ipVersion !in {4, 6} || p.protocol !in {IPPROTO_ICMP, IPPROTO_UDP} then -1
    else
      var full := if p.packetSize > HeaderSpace(config, p) then p.packetSize else HeaderSpace(config, p);
      if p.ipVersion == 6 && config.ip6Raw then full - IP6_HEADER_SIZE else full
  }

  /** The larger of what was asked for and what the headers need; a UDP payload has room for an int. */
  lemma SizeIsLargest(config: NetConfig, p: ProbeParam)
    requires p.ipVersion in {4, 6} && p.protocol in {IPPROTO_ICMP, IPPROTO_UDP}
    ensures var ip := if p.ipVersion == 4 then (if config.ip4Raw then 20 else 0) else (if config.ip6Raw then 40 else 0);
            var least := ip + 8 + if p.protocol == 17 then 4 else 0;
            var size := PacketSize(config, p) + if p.ipVersion == 6 then ip else 0;
            size >= p.packetSize && size >= least && (size == p.packetSize || size == least)
  {}

  method ComputePacketSize(config: NetConfig, p: ProbeParam) returns (size: int)
    ensures size == PacketSize(config, p)
  {
    size := 0;
    if p.protocol == IPPROTO_TCP {
      return 0;
    }
    if p.protocol == IPPROTO_SCTP {
      return 0;
    }
    if p.ipVersion == 6 {
      if config.ip6Raw {
        size := size + IP6_HEADER_SIZE;
      }
    } else if p.ipVersion == 4 {
      if config.ip4Raw {
        size := size + IP_HEADER_SIZE;
      }
    } else {
      return -1;
    }
    if p.protocol == IPPROTO_ICMP {
      size := size + TRANSPORT_HEADER_SIZE;
    } else if p.protocol == IPPROTO_UDP {
      size := size + TRANSPORT_HEADER_SIZE;
      size := size + SIZE_OF_INT;
    } else {
      return -1;
    }
    if p.packetSize > size {
      size := p.packetSize;
    }
    if p.ipVersion == 6 && config.ip6Raw {
      size := size - IP6_HEADER_SIZE;
    }
  }

  // ----- the bytes -----

  function Fill(n: nat, pattern: int): seq<Byte> { seq(n, _ => ToByte(pattern)) }

  /** The header length field: network order, or host order on systems that want that. */
  function LengthBytes(config: NetConfig, length: int): (bytes: seq<Byte>)
    ensures |bytes| == 2
  {
    var w := ToWord16(length);
    if config.lengthHostOrder then [Low(w), High(w)] else [High(w), Low(w)]
  }

  function Ip4Header(config: NetConfig, size: int, source: seq<Byte>, dest: seq<Byte>, p: ProbeParam): (h: seq<Byte>)
    requires |source| == 4 && |dest| == 4
    ensures |h| == IP_HEADER_SIZE && h[9] == ToByte(p.protocol)
  {
    [0x45, ToByte(p.typeOfService)] + LengthBytes(config, size) + [0, 0, 0, 0, ToByte(p.ttl), ToByte(p.protocol), 0, 0]
    + source + dest
  }

  function EchoHeader(pid: int, sequence: int, checksum: Word16): (h: seq<Byte>)
    ensures |h| == TRANSPORT_HEADER_SIZE
  {
    [ICMP_ECHO, 0] + NetworkBytes(checksum) + NetworkBytes(ToWord16(pid)) + NetworkBytes(ToWord16(sequence))
  }

  /** The ports and checksum of a UDP probe: the sequence goes where the request leaves room. */
  datatype UdpFields = UdpFields(source: Word16, dest: Word16, checksum: Word16)

  function UdpFieldsFor(pid: int, sequence: int, p: ProbeParam): UdpFields {
    var s := ToWord16(sequence);
    if p.destPort == 0 then UdpFields(ToWord16(if p.localPort != 0 then p.localPort else pid), s, 0)
    else if p.localPort != 0 then UdpFields(ToWord16(p.localPort), ToWord16(p.destPort), s)
    else UdpFields(s, ToWord16(p.destPort), 0)
  }

  function UdpHeader(f: UdpFields, size: int): (h: seq<Byte>)
    ensures |h| == TRANSPORT_HEADER_SIZE
  {
    NetworkBytes(f.source) + NetworkBytes(f.dest) + NetworkBytes(ToWord16(size)) + NetworkBytes(f.checksum)
  }

  /** The first eight bytes after any IP header. */
  function TransportHeader(config: NetConfig, sequence: int, p: ProbeParam, size: int): (h: seq<Byte>)
    requires size >= TRANSPORT_HEADER_SIZE
    ensures |h| == TRANSPORT_HEADER_SIZE
  {
    if p.protocol == IPPROTO_ICMP then
      var payload := Fill(size - TRANSPORT_HEADER_SIZE, p.bitPattern);
      EchoHeader(config.pid, sequence, ChecksumOf(EchoHeader(config.pid, sequence, 0) + payload))
    else UdpHeader(UdpFieldsFor(config.pid, sequence, p), size)
  }

  /** A whole ICMP or UDP probe as handed to `sendto`. */
  function ProbePacket(config: NetConfig, sequence: int, p: ProbeParam,
                       source: seq<Byte>, dest: seq<Byte>, size: int): (packet: seq<Byte>)
    requires |source| == 4 && |dest| == 4
    requires size >= TRANSPORT_HEADER_SIZE + if config.ip4Raw then IP_HEADER_SIZE else 0
    ensures |packet| == size
  {
    var at := if config.ip4Raw then IP_HEADER_SIZE else 0;
    (if config.ip4Raw then Ip4Header(config, size, source, dest, p) else [])
    + TransportHeader(config, sequence, p, size - at)
    + Fill(size - at - TRANSPORT_HEADER_SIZE, p.bitPattern)
  }

  /** A packet handed to `sendto`, and what it was built from. */
  datatype Wire = Wire(param: ProbeParam, source: seq<Byte>, dest: seq<Byte>, bytes: seq<Byte>)

  // ----- writing them -----

  function Overwrite(b: seq<Byte>, at: nat, bytes: seq<Byte>): (r: seq<Byte>)
    requires at + |bytes| <= |b|
    ensures |r| == |b|
  {
    b[..at] + bytes + b[at + |bytes|..]
  }

  lemma OverwriteSlices(b: seq<Byte>, at: nat, bytes: seq<Byte>, end: nat)
    requires at + |bytes| <= end <= |b|
    ensures Overwrite(b, at, bytes)[at..end] == bytes + b[at + |bytes|..end]
    ensures Overwrite(b, at, bytes)[..at] == b[..at]
    ensures Overwrite(b, at, bytes)[at + |bytes|..end] == b[at + |bytes|..end]
  {}

  /** A 16-bit field assigned a value in network order. */
  method StoreWord(packet: array<Byte>, at: nat, w: Word16)
    requires at + 2 <= packet.Length
    modifies packet
    ensures packet[..] == old(packet[..])[at := High(w)][at + 1 := Low(w)]
  {
    packet[at] := High(w);
    packet[at + 1] := Low(w);
  }

  method StoreBytes(packet: array<Byte>, at: nat, bytes: seq<Byte>)
    requires at + |bytes| <= packet.Length
    modifies packet
    ensures packet[..] == Overwrite(old(packet[..]), at, bytes)
  {
    forall i | 0 <= i < |bytes| {
      packet[at + i] := bytes[i];
    }
  }

  /** `memset` of a stretch of the buffer. */
  method SetBytes(packet: array<Byte>, at: nat, count: nat, value: int)
    requires at + count <= packet.Length
    modifies packet
    ensures packet[..] == Overwrite(old(packet[..]), at, Fill(count, value))
  {
    forall i | 0 <= i < count {
      packet[at + i] := ToByte(value);
    }
  }

  method ConstructIp4Header(config: NetConfig, packet: array<Byte>, size: int,
                            source: seq<Byte>, dest: seq<Byte>, p: ProbeParam)
    requires packet.Length >= IP_HEADER_SIZE && |source| == 4 && |dest| == 4
    modifies packet
    ensures packet[..] == Overwrite(old(packet[..]), 0, Ip4Header(config, size, source, dest, p))
    ensures 0 <= size < 65536 ==> Ip4AsRequested(packet[..], config.lengthHostOrder, p, source, dest, size)
  {
    hide ToByte, ToWord16, High, Low, LengthBytes, Overwrite, Fill, Ip4AsRequested;
    ghost var before := packet[..];
    SetBytes(packet, 0, IP_HEADER_SIZE, 0);
    packet[0] := 0x45;
    packet[1] := ToByte(p.typeOfService);
    var length := LengthBytes(config, size);
    packet[2], packet[3] := length[0], length[1];
    packet[8] := ToByte(p.ttl);
    packet[9] := ToByte(p.protocol);
    StoreBytes(packet, 12, source);
    StoreBytes(packet, 16, dest);
    Ip4Assembled(before, length, ToByte(p.typeOfService), ToByte(p.ttl), ToByte(p.protocol), source, dest);
    OverwriteStarts(before, Ip4Header(config, size, source, dest, p));
    if 0 <= size < 65536 {
      HeaderReads(config, packet[..], size, source, dest, p);
    }
  }

  lemma OverwriteStarts(b: seq<Byte>, bytes: seq<Byte>)
    requires |bytes| <= |b|
    ensures Overwrite(b, 0, bytes)[..|bytes|] == bytes
  {}

  lemma OverwriteAt(b: seq<Byte>, at: nat, bytes: seq<Byte>, i: nat)
    requires at + |bytes| <= |b| && i < |b|
    ensures Overwrite(b, at, bytes)[i] == if at <= i < at + |bytes| then bytes[i - at] else b[i]
  {}

  lemma Ip4Assembled(b: seq<Byte>, length: seq<Byte>, tos: Byte, ttl: Byte, protocol: Byte,
                                        source: seq<Byte>, dest: seq<Byte>)
    requires |b| >= IP_HEADER_SIZE && |length| == 2 && |source| == |dest| == 4
    ensures var zeros := Overwrite(b, 0, Fill(IP_HEADER_SIZE, 0));
            var fields: seq<Byte> := zeros[0 := 0x45][1 := tos][2 := length[0]][3 := length[1]][8 := ttl][9 := protocol];
            Overwrite(Overwrite(fields, 12, source), 16, dest)
            == Overwrite(b, 0, [0x45, tos] + length + [0, 0, 0, 0, ttl, protocol, 0, 0] + source + dest)
  {
    ZeroByte();
    var zeros := Overwrite(b, 0, Fill(IP_HEADER_SIZE, 0));
    var fields: seq<Byte> := zeros[0 := 0x45][1 := tos][2 := length[0]][3 := length[1]][8 := ttl][9 := protocol];
    var header: seq<Byte> := [0x45, tos] + length + [0, 0, 0, 0, ttl, protocol, 0, 0] + source + dest;
    var with := Overwrite(fields, 12, source);
    var x, y := Overwrite(with, 16, dest), Overwrite(b, 0, header);
    hide Overwrite;
    forall i | 0 <= i < |b|
      ensures x[i] == y[i]
    {
      OverwriteAt(b, 0, Fill(IP_HEADER_SIZE, 0), i);
      OverwriteAt(fields, 12, source, i);
      OverwriteAt(with, 16, dest, i);
      OverwriteAt(b, 0, header, i);
    }
  }

  lemma ZeroByte()
    ensures ToByte(0) == 0
  {}

  lemma EchoAssembled(b: seq<Byte>, at: nat, pid: int, sequence: int)
    requires at + TRANSPORT_HEADER_SIZE <= |b|
    ensures var zeros := Overwrite(b, at, Fill(TRANSPORT_HEADER_SIZE, 0));
            var w, v := ToWord16(pid), ToWord16(sequence);
            Overwrite(b, at, EchoHeader(pid, sequence, 0))
            == zeros[at := ICMP_ECHO][at + 4 := High(w)][at + 5 := Low(w)][at + 6 := High(v)][at + 7 := Low(v)]
  {
    hide ToWord16;
    ZeroByte();
    ZeroChecksumField(pid, sequence);
  }

  lemma EchoChecksummed(b: seq<Byte>, at: nat, pid: int, sequence: int, c: Word16)
    requires at + TRANSPORT_HEADER_SIZE <= |b|
    ensures Overwrite(b, at, EchoHeader(pid, sequence, 0))[at + 2 := High(c)][at + 3 := Low(c)]
         == Overwrite(b, at, EchoHeader(pid, sequence, c))
  {
    hide ToWord16;
  }

  /** Write the echo header at `at`; the checksum covers everything from there to the end. */
  method ConstructIcmp4Header(config: NetConfig, sequence: int, packet: array<Byte>, size: nat)
    requires size <= packet.Length && size <= PACKET_BUFFER_SIZE
    requires size >= TRANSPORT_HEADER_SIZE + if config.ip4Raw then IP_HEADER_SIZE else 0
    modifies packet
    ensures var at := if config.ip4Raw then IP_HEADER_SIZE else 0;
            var payload := old(packet[at + TRANSPORT_HEADER_SIZE..size]);
            var checksum := ChecksumOf(EchoHeader(config.pid, sequence, 0) + payload);
            && packet[..] == Overwrite(old(packet[..]), at, EchoHeader(config.pid, sequence, checksum))
            && ChecksumOf(packet[at..size]) == 0
  {
    hide ChecksumOf, ToWord16, High, Low, EchoHeader, Overwrite, Fill, ToByte;
    var icmp, icmpSize;
    if config.ip4Raw {
      icmp, icmpSize := IP_HEADER_SIZE, size - IP_HEADER_SIZE;
    } else {
      icmp, icmpSize := 0, size;
    }
    ghost var payload, before := packet[icmp + TRANSPORT_HEADER_SIZE..size], packet[..];
    assert payload == before[icmp + TRANSPORT_HEADER_SIZE..size];
    SetBytes(packet, icmp, TRANSPORT_HEADER_SIZE, 0);
    packet[icmp] := ICMP_ECHO;
    StoreWord(packet, icmp + 4, ToWord16(config.pid));
    StoreWord(packet, icmp + 6, ToWord16(sequence));
    EchoAssembled(before, icmp, config.pid, sequence);
    OverwriteSlices(before, icmp, EchoHeader(config.pid, sequence, 0), size);
    assert packet[icmp..icmp + icmpSize] == packet[..][icmp..size];
    var checksum := ComputeChecksum(packet, icmp, icmpSize);
    StoreWord(packet, icmp + 2, checksum);
    EchoChecksummed(before, icmp, config.pid, sequence, checksum);
    EchoSigned(config.pid, sequence, payload);
    OverwriteSlices(before, icmp, EchoHeader(config.pid, sequence, checksum), size);
    assert packet[icmp..size] == packet[..][icmp..size];
  }

  lemma ZeroChecksumField(pid: int, sequence: int)
    ensures var h := EchoHeader(pid, sequence, 0);
            h == [ICMP_ECHO, 0, 0, 0] + NetworkBytes(ToWord16(pid)) + NetworkBytes(ToWord16(sequence))
  {
    hide ToWord16;
    assert NetworkBytes(0) == [0, 0];
  }

  /** Storing the checksum into the echo header makes the message verify. */
  lemma EchoSigned(pid: int, sequence: int, payload: seq<Byte>)
    ensures var c := ChecksumOf(EchoHeader(pid, sequence, 0) + payload);
            ChecksumOf(EchoHeader(pid, sequence, c) + payload) == 0
  {
    hide ChecksumOf, ToWord16;
    var unsigned: seq<Byte> := EchoHeader(pid, sequence, 0) + payload;
    var c := ChecksumOf(unsigned);
    ZeroChecksumField(pid, sequence);
    StoredChecksumVerifies(unsigned);
    assert EchoHeader(pid, sequence, c) + payload == unsigned[2 := High(c)][3 := Low(c)];
  }

  method SetUdpPorts(pid: int, sequence: int, p: ProbeParam) returns (f: UdpFields)
    ensures f == UdpFieldsFor(pid, sequence, p)
  {
    f := UdpFields(0, 0, 0);
    if p.destPort != 0 {
      f := f.(dest := ToWord16(p.destPort));
      if p.localPort != 0 {
        f := f.(source := ToWord16(p.localPort));
        f := f.(checksum := ToWord16(sequence));
      } else {
        f := f.(source := ToWord16(sequence));
        f := f.(checksum := 0);
      }
    } else {
      f := f.(dest := ToWord16(sequence));
      if p.localPort != 0 {
        f := f.(source := ToWord16(p.localPort));
      } else {
        f := f.(source := ToWord16(pid));
      }
      f := f.(checksum := 0);
    }
  }

  method ConstructUdp4Header(config: NetConfig, sequence: int, packet: array<Byte>, size: nat, p: ProbeParam)
    requires size <= packet.Length
    requires size >= TRANSPORT_HEADER_SIZE + if config.ip4Raw then IP_HEADER_SIZE else 0
    modifies packet
    ensures var at := if config.ip4Raw then IP_HEADER_SIZE else 0;
            packet[..] == Overwrite(old(packet[..]), at,
                                    UdpHeader(UdpFieldsFor(config.pid, sequence, p), size - at))
  {
    hide ToWord16, High, Low, UdpFieldsFor, Overwrite, Fill, UdpHeader;
    ghost var before := packet[..];
    var udp, udpSize;
    if config.ip4Raw {
      udp, udpSize := IP_HEADER_SIZE, size - IP_HEADER_SIZE;
    } else {
      udp, udpSize := 0, size;
    }
    SetBytes(packet, udp, TRANSPORT_HEADER_SIZE, 0);
    var f := SetUdpPorts(config.pid, sequence, p);
    StoreWord(packet, udp, f.source);
    StoreWord(packet, udp + 2, f.dest);
    StoreWord(packet, udp + 6, f.checksum);
    StoreWord(packet, udp + 4, ToWord16(udpSize));
    UdpAssembled(before, udp, f, udpSize);
  }

  lemma UdpAssembled(b: seq<Byte>, at: nat, f: UdpFields, size: int)
    requires at + TRANSPORT_HEADER_SIZE <= |b|
    ensures var zeros := Overwrite(b, at, Fill(TRANSPORT_HEADER_SIZE, 0));
            var s, d, c, w := f.source, f.dest, f.checksum, ToWord16(size);
            zeros[at := High(s)][at + 1 := Low(s)][at + 2 := High(d)][at + 3 := Low(d)]
                 [at + 6 := High(c)][at + 7 := Low(c)][at + 4 := High(w)][at + 5 := Low(w)]
            == Overwrite(b, at, UdpHeader(f, size))
  {
    hide ToWord16, High, Low;
  }

  // ----- read by the standards -----

  lemma {:induction false} WordSumIsTotal(b: seq<Byte>)
    ensures WordSum(b) == WordTotal(b)
    decreases |b|
  {
    if |b| >= 2 {
      WordSumFront(b);
      WordSumIsTotal(b[2..]);
    } else if |b| == 1 {
      WordSumOne(b);
    }
  }

  lemma WordSumOne(b: seq<Byte>)
    requires |b| == 1
    ensures WordSum(b) == TwoBytes(b[0], 0)
  {
    assert b[..0] == [];
  }

  lemma {:induction false} WordSumFront(b: seq<Byte>)
    requires |b| >= 2
    ensures WordSum(b) == Word(b, 0) + WordSum(b[2..])
    decreases |b|
  {
    var n := |b| - 1;
    if |b| == 2 {
      assert b[2..] == [];
      WordSumOne(b[..1]);
    } else {
      WordSumFront(b[..n]);
      assert b[..n][2..] == b[2..][..n - 2];
      assert Weight(n) == Weight(n - 2);
    }
  }

  lemma ZeroChecksumVerifies(b: seq<Byte>)
    requires ChecksumOf(b) == 0
    ensures Verifies(b)
  {
    hide WordSum, WordTotal;
    WordSumIsTotal(b);
    FoldedIsTheRemainder(WordSum(b));
  }

  /** The bytes of the header, offset by offset. */
  lemma HeaderBytes(config: NetConfig, size: int, source: seq<Byte>, dest: seq<Byte>, p: ProbeParam)
    requires |source| == |dest| == 4
    ensures var h, length := Ip4Header(config, size, source, dest, p), LengthBytes(config, size);
            && |h| == 20 && h[0] == 0x45 && h[1] == ToByte(p.typeOfService) && h[2] == length[0] && h[3] == length[1]
            && h[4] == h[5] == h[6] == h[7] == 0 && h[8] == ToByte(p.ttl) && h[9] == ToByte(p.protocol)
            && h[10] == h[11] == 0 && h[12..16] == source && h[16..20] == dest
  {
    hide LengthBytes, ToByte;
  }

  lemma LengthReads(config: NetConfig, size: int)
    requires 0 <= size < 65536
    ensures var length := LengthBytes(config, size);
            (if config.lengthHostOrder then TwoBytes(length[1], length[0]) else TwoBytes(length[0], length[1])) == size
  {
    TwoBytesRead(ToWord16(size));
    hide High, Low, TwoBytes;
  }

  lemma HeaderReads(config: NetConfig, b: seq<Byte>, size: int, source: seq<Byte>, dest: seq<Byte>, p: ProbeParam)
    requires |source| == |dest| == 4 && 0 <= size < 65536
    requires |b| >= IP_HEADER_SIZE && b[..IP_HEADER_SIZE] == Ip4Header(config, size, source, dest, p)
    ensures Ip4AsRequested(b, config.lengthHostOrder, p, source, dest, size)
  {
    hide *;
    var h := Ip4Header(config, size, source, dest, p);
    HeaderBytes(config, size, source, dest, p);
    LengthReads(config, size);
    HeaderStarts(b, h);
    SameBytes(b, h);
    BytesRead(b, config.lengthHostOrder, p, source, dest, size, LengthBytes(config, size));
  }

  lemma BytesRead(b: seq<Byte>, hostOrder: bool, p: ProbeParam, source: seq<Byte>, dest: seq<Byte>, size: int, length: seq<Byte>)
    requires |b| >= 20 && |length| == 2 && b[0] == 0x45 && b[1] == ToByte(p.typeOfService)
    requires b[2] == length[0] && b[3] == length[1] && b[4] == b[5] == b[6] == b[7] == 0
    requires b[8] == ToByte(p.ttl) && b[9] == ToByte(p.protocol) && b[10] == b[11] == 0
    requires b[12..16] == source && b[16..20] == dest
    requires (if hostOrder then TwoBytes(length[1], length[0]) else TwoBytes(length[0], length[1])) == size
    ensures Ip4AsRequested(b, hostOrder, p, source, dest, size)
  {
    ZeroWord();
    AsBytes(p);
    hide TwoBytes, ToByte;
    assert 0x45 / 16 == 4 && 0x45 % 16 == 5;
  }

  lemma ZeroWord()
    ensures TwoBytes(0, 0) == 0
  {}

  lemma AsBytes(p: ProbeParam)
    ensures ToByte(p.typeOfService) == p.typeOfService % 256 && ToByte(p.ttl) == p.ttl % 256
    ensures ToByte(p.protocol) == p.protocol % 256
  {}

  lemma HeaderStarts(b: seq<Byte>, h: seq<Byte>)
    requires |b| >= IP_HEADER_SIZE && b[..IP_HEADER_SIZE] == h
    ensures |b| >= 20 && b[..20] == h
  {}

  lemma SameBytes(b: seq<Byte>, h: seq<Byte>)
    requires |h| == 20 <= |b| && b[..20] == h
    ensures forall i :: 0 <= i < 20 ==> b[i] == h[i]
    ensures b[12..16] == h[12..16] && b[16..20] == h[16..20]
  {
    forall i | 0 <= i < 20
      ensures b[i] == h[i]
    {
      assert b[..20][i] == h[i];
    }
  }

  lemma EchoReads(config: NetConfig, b: seq<Byte>, sequence: int, p: ProbeParam, checksum: Word16)
    requires |b| >= TRANSPORT_HEADER_SIZE && ChecksumOf(b) == 0
    requires b == EchoHeader(config.pid, sequence, checksum) + Fill(|b| - TRANSPORT_HEADER_SIZE, p.bitPattern)
    ensures EchoAsRequested(b, config.pid, sequence, p)
  {
    hide ChecksumOf, WordTotal;
    ZeroChecksumVerifies(b);
    var h := EchoHeader(config.pid, sequence, checksum);
    assert forall i :: 0 <= i < 8 ==> b[i] == h[i];
    assert b[8..] == Fill(|b| - TRANSPORT_HEADER_SIZE, p.bitPattern);
  }

  lemma TwoBytesRead(w: Word16)
    ensures TwoBytes(High(w), Low(w)) == w
  {}

  lemma UdpFieldsRead(f: UdpFields, b: seq<Byte>)
    requires TRANSPORT_HEADER_SIZE <= |b| < 65536 && b[..TRANSPORT_HEADER_SIZE] == UdpHeader(f, |b|)
    ensures var udp := ReadUdp(b);
            udp.source == f.source && udp.dest == f.dest && udp.checksum == f.checksum && udp.length == |b|
  {
    hide High, Low, TwoBytes;
    var h := UdpHeader(f, |b|);
    assert forall i :: 0 <= i < 8 ==> b[i] == h[i];
    TwoBytesRead(f.source);
    TwoBytesRead(f.dest);
    TwoBytesRead(f.checksum);
    TwoBytesRead(ToWord16(|b|));
  }

  lemma PatternReads(b: seq<Byte>, h: seq<Byte>, pattern: int)
    requires |h| == TRANSPORT_HEADER_SIZE <= |b| && b == h + Fill(|b| - TRANSPORT_HEADER_SIZE, pattern)
    ensures b[..8] == h && forall i :: 0 <= i < |b[8..]| ==> b[8..][i] == pattern % 256
  {
    assert b[8..] == Fill(|b| - TRANSPORT_HEADER_SIZE, pattern);
  }

  lemma UdpReads(config: NetConfig, b: seq<Byte>, sequence: int, p: ProbeParam)
    requires TRANSPORT_HEADER_SIZE <= |b| < 65536
    requires b == UdpHeader(UdpFieldsFor(config.pid, sequence, p), |b|) + Fill(|b| - TRANSPORT_HEADER_SIZE, p.bitPattern)
    ensures UdpAsRequested(b, config.pid, sequence, p)
  {
    hide UdpHeader, Fill, Word;
    PatternReads(b, UdpHeader(UdpFieldsFor(config.pid, sequence, p), |b|), p.bitPattern);
    UdpFieldsRead(UdpFieldsFor(config.pid, sequence, p), b);
  }

  /** Every packet reads, by the standards, as what was asked for. */
  lemma ProbePacketReads(config: NetConfig, sequence: int, p: ProbeParam, source: seq<Byte>, dest: seq<Byte>, size: int)
    requires |source| == |dest| == 4 && p.protocol in {IPPROTO_ICMP, IPPROTO_UDP}
    requires (if config.ip4Raw then IP_HEADER_SIZE else 0) + TRANSPORT_HEADER_SIZE <= size <= PACKET_BUFFER_SIZE
    ensures ProbeAsRequested(ProbePacket(config, sequence, p, source, dest, size), config.ip4Raw, config.lengthHostOrder,
                             config.pid, sequence, p, source, dest)
  {
    hide Ip4Header, EchoHeader, UdpHeader, ChecksumOf, UdpFieldsFor, Fill, Ip4AsRequested, EchoAsRequested, UdpAsRequested;
    var b := ProbePacket(config, sequence, p, source, dest, size);
    var at := if config.ip4Raw then IP_HEADER_SIZE else 0;
    var transport := if config.ip4Raw then b[20..] else b;
    var pattern := Fill(size - at - TRANSPORT_HEADER_SIZE, p.bitPattern);
    assert transport == TransportHeader(config, sequence, p, size - at) + pattern;
    if config.ip4Raw {
      assert b[..20] == Ip4Header(config, size, source, dest, p);
      HeaderReads(config, b, size, source, dest, p);
    }
    if p.protocol == IPPROTO_ICMP {
      EchoSigned(config.pid, sequence, pattern);
      EchoReads(config, transport, sequence, p, ChecksumOf(EchoHeader(config.pid, sequence, 0) + pattern));
    } else {
      UdpReads(config, transport, sequence, p);
    }
  }

  // ----- one call of construct_packet -----

  datatype Errno =
    | EINVAL | ENETDOWN | ENETUNREACH | EHOSTUNREACH | EPERM | EADDRINUSE | EADDRNOTAVAIL | ECONNREFUSED
    | OtherErrno(code: int)

  /** What the system calls of one try give: success or an errno, and the socket of a stream probe. */
  datatype System = System(ok: bool, errno: Errno, socket: int)

  /** The result of one try, errno afterwards, and the socket it opened. */
  datatype Attempt = Attempt(size: int, errno: Errno, socket: Option<int>)

  /** A raw IPv4 packet without a routing mark needs no system call. */
  predicate CannotFail(config: NetConfig, p: ProbeParam) {
    p.ipVersion == 4 && config.ip4Raw && p.routingMark == 0
  }

  function Constructed(config: NetConfig, p: ProbeParam, sys: System): Attempt {
    var size := PacketSize(config, p);
    if size < 0 || size > PACKET_BUFFER_SIZE || p.ipVersion !in {4, 6} then Attempt(-1, EINVAL, None)
    else if IsStream(p.protocol) then
      if sys.ok then Attempt(0, sys.errno, Some(sys.socket)) else Attempt(-1, sys.errno, None)
    else if sys.ok || CannotFail(config, p) then Attempt(size, sys.errno, None)
    else Attempt(-1, sys.errno, None)
  }

  /** A size too large for the buffer, or a system call that fails: nothing else is an error. */
  lemma ConstructedIff(config: NetConfig, p: ProbeParam, sys: System)
    requires p.ipVersion in {4, 6} && p.protocol in {IPPROTO_ICMP, IPPROTO_UDP}
    ensures Constructed(config, p, sys).size < 0 <==>
              PacketSize(config, p) > PACKET_BUFFER_SIZE || (!sys.ok && !CannotFail(config, p))
    ensures Constructed(config, p, sys).size >= 0 ==> Constructed(config, p, sys).size >= TRANSPORT_HEADER_SIZE
  {}

  /**
   * Construct a probe.  On success the packet of an IPv4 ICMP or UDP probe stands in the buffer; the
   * bytes of an IPv6 packet are not part of this model.
   */
  method ConstructPacket(config: NetConfig, sequence: int, packet: array<Byte>,
                         source: seq<Byte>, dest: seq<Byte>, p: ProbeParam, sys: System) returns (a: Attempt)
    requires packet.Length == PACKET_BUFFER_SIZE && |source| == 4 && |dest| == 4
    modifies packet
    ensures a == Constructed(config, p, sys)
    ensures a.size > 0 && p.ipVersion == 4 ==>
              HeaderSpace(config, p) <= a.size <= PACKET_BUFFER_SIZE
              && packet[..a.size] == ProbePacket(config, sequence, p, source, dest, a.size)
    ensures a.size > 0 && p.ipVersion == 4 ==>
              ProbeAsRequested(packet[..a.size], config.ip4Raw, config.lengthHostOrder, config.pid, sequence, p, source, dest)
  {
    hide ChecksumOf, ProbePacket, Overwrite, ToByte, ProbeAsRequested;
    var size := ComputePacketSize(config, p);
    if size < 0 {
      return Attempt(-1, EINVAL, None);
    }
    if PACKET_BUFFER_SIZE < size {
      return Attempt(-1, EINVAL, None);
    }
    ghost var blank := packet[..];
    SetBytes(packet, 0, size, p.bitPattern);
    if p.ipVersion == 4 {
      a := ConstructIp4Packet(config, sequence, packet, size, source, dest, p, sys, blank);
    } else if p.ipVersion == 6 {
      if !sys.ok {
        return Attempt(-1, sys.errno, None);
      }
      a := if IsStream(p.protocol) then Attempt(0, sys.errno, Some(sys.socket)) else Attempt(size, sys.errno, None);
    } else {
      return Attempt(-1, EINVAL, None);
    }
  }

  method ConstructIp4Packet(config: NetConfig, sequence: int, packet: array<Byte>, size: nat,
                            source: seq<Byte>, dest: seq<Byte>, p: ProbeParam, sys: System, ghost blank: seq<Byte>)
      returns (a: Attempt)
    requires packet.Length == PACKET_BUFFER_SIZE == |blank| && |source| == 4 && |dest| == 4
    requires p.ipVersion == 4 && size == PacketSize(config, p) <= PACKET_BUFFER_SIZE
    requires packet[..] == Overwrite(blank, 0, Fill(size, p.bitPattern))
    modifies packet
    ensures a == Constructed(config, p, sys)
    ensures !IsStream(p.protocol) ==>
              HeaderSpace(config, p) <= size
              && packet[..size] == ProbePacket(config, sequence, p, source, dest, size)
    ensures !IsStream(p.protocol) ==>
              ProbeAsRequested(packet[..size], config.ip4Raw, config.lengthHostOrder, config.pid, sequence, p, source, dest)
  {
    hide ProbeAsRequested, ChecksumOf, EchoHeader, UdpHeader, UdpFieldsFor, Ip4Header, ToByte, Overwrite, Fill;
    if IsStream(p.protocol) {
      if !sys.ok {
        return Attempt(-1, sys.errno, None);
      }
      return Attempt(0, sys.errno, Some(sys.socket));
    }
    ghost var at := if config.ip4Raw then IP_HEADER_SIZE else 0;
    ghost var filled := packet[..];
    if config.ip4Raw {
      ConstructIp4Header(config, packet, size, source, dest, p);
    }
    ghost var header := packet[..];
    FilledBehind(config, p, source, dest, size, blank, filled, header);
    assert packet[at + TRANSPORT_HEADER_SIZE..size] == header[at + TRANSPORT_HEADER_SIZE..size];
    if p.protocol == IPPROTO_ICMP {
      ConstructIcmp4Header(config, sequence, packet, size);
    } else {
      ConstructUdp4Header(config, sequence, packet, size, p);
    }
    ProbeAssembled(config, sequence, p, source, dest, size, header);
    ProbePacketReads(config, sequence, p, source, dest, size);
    if p.routingMark != 0 && !sys.ok {
      return Attempt(-1, sys.errno, None);
    }
    if !config.ip4Raw && !sys.ok {
      return Attempt(-1, sys.errno, None);
    }
    a := Attempt(size, sys.errno, None);
  }

  /** The pattern fills whatever lies behind the headers. */
  lemma FilledBehind(config: NetConfig, p: ProbeParam, source: seq<Byte>, dest: seq<Byte>, size: nat,
                                        blank: seq<Byte>, filled: seq<Byte>, header: seq<Byte>)
    requires |source| == |dest| == 4 && size <= |blank|
    requires size >= TRANSPORT_HEADER_SIZE + if config.ip4Raw then IP_HEADER_SIZE else 0
    requires filled == Overwrite(blank, 0, Fill(size, p.bitPattern))
    requires header == if config.ip4Raw then Overwrite(filled, 0, Ip4Header(config, size, source, dest, p)) else filled
    ensures var at := if config.ip4Raw then IP_HEADER_SIZE else 0;
            && header[at + TRANSPORT_HEADER_SIZE..size] == Fill(size - at - TRANSPORT_HEADER_SIZE, p.bitPattern)
            && header[..at] == if config.ip4Raw then Ip4Header(config, size, source, dest, p) else []
  {
    hide Ip4Header, Overwrite, ToByte;
    var at := if config.ip4Raw then IP_HEADER_SIZE else 0;
    OverwriteSlices(blank, 0, Fill(size, p.bitPattern), size);
    assert filled[0..size] == Fill(size, p.bitPattern) + blank[size..size] == Fill(size, p.bitPattern);
    if config.ip4Raw {
      var h := Ip4Header(config, size, source, dest, p);
      OverwriteSlices(filled, 0, h, size);
      assert header[..at] == header[0..size][..at] == h;
      assert header[at..size] == filled[at..size];
    }
    assert forall i :: at + TRANSPORT_HEADER_SIZE <= i < size ==> header[i] == filled[i] == filled[0..size][i];
  }

  lemma ProbeAssembled(config: NetConfig, sequence: int, p: ProbeParam, source: seq<Byte>, dest: seq<Byte>,
                                          size: nat, header: seq<Byte>)
    requires |source| == |dest| == 4 && size <= |header|
    requires size >= TRANSPORT_HEADER_SIZE + if config.ip4Raw then IP_HEADER_SIZE else 0
    requires var at := if config.ip4Raw then IP_HEADER_SIZE else 0;
             && header[at + TRANSPORT_HEADER_SIZE..size] == Fill(size - at - TRANSPORT_HEADER_SIZE, p.bitPattern)
             && header[..at] == if config.ip4Raw then Ip4Header(config, size, source, dest, p) else []
    ensures var at := if config.ip4Raw then IP_HEADER_SIZE else 0;
            Overwrite(header, at, TransportHeader(config, sequence, p, size - at))[..size]
            == ProbePacket(config, sequence, p, source, dest, size)
  {
    hide Ip4Header, Overwrite, Fill, TransportHeader;
    var at := if config.ip4Raw then IP_HEADER_SIZE else 0;
    var transport := TransportHeader(config, sequence, p, size - at);
    var packet := Overwrite(header, at, transport);
    OverwriteSlices(header, at, transport, size);
    assert packet[..size] == packet[..at] + packet[at..size];
  }
}
