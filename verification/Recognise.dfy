/**
 * Which outstanding probe an incoming packet answers (packet/deconstruct_unix.c, find_probe of
 * packet/probe.c), and why a quoted probe is recognised as itself.  IPv4.
 */
module Recognise {
  import opened CInt
  import opened Checksum
  import opened ProbeCommand
  import opened Headers
  import opened Options
  import opened Construct
  import opened Mpls
  import opened ReplyLine

  const ICMP_ECHOREPLY := 0
  const ICMP_DEST_UNREACH := 3
  const ICMP_TIME_EXCEEDED := 11
  const ICMP_PORT_UNREACH := 3

  // ----- looking a probe up -----

  /** The position of the first outstanding sequence whose `htons` is the raw field. */
  function FindSequence(sequences: seq<int>, raw: RawWord): (r: Option<nat>)
    ensures r.Some? ==> r.value < |sequences|
  {
    if sequences == [] then None
    else if Htons(sequences[0]) == raw then Some(0)
    else
      var rest := FindSequence(sequences[1..], raw);
      if rest.None? then None else Some(rest.value + 1)
  }

  lemma {:induction false} FindsTheFirst(sequences: seq<int>, raw: RawWord)
    ensures var r := FindSequence(sequences, raw);
            && (r.Some? ==> Htons(sequences[r.value]) == raw && forall i :: 0 <= i < r.value ==> Htons(sequences[i]) != raw)
            && (r.None? ==> forall i :: 0 <= i < |sequences| ==> Htons(sequences[i]) != raw)
  {
    hide Htons;
    if sequences != [] && Htons(sequences[0]) != raw {
      var rest := sequences[1..];
      FindsTheFirst(rest, raw);
      assert forall i :: 1 <= i < |sequences| ==> sequences[i] == rest[i - 1];
    }
  }

  /** What stands for the identifier of a protocol that has none. */
  const NO_ID := RawWord(0, 0)

  /** ICMP leaves room for an identifier, which must be ours; the other protocols do not. */
  function FindProbe(pid: int, sequences: seq<int>, protocol: int, id: RawWord, raw: RawWord): (r: Option<nat>)
    ensures r.Some? ==> r.value < |sequences|
  {
    if protocol == IPPROTO_ICMP && id != Htons(pid) then None else FindSequence(sequences, raw)
  }

  /** A 16-bit field of a packet as loaded by the host. */
  function Field(bytes: seq<Byte>, at: nat): RawWord
    requires at + 2 <= |bytes|
  {
    RawWord(bytes[at], bytes[at + 1])
  }

  /** A UDP probe may carry its sequence in the destination port, the source port or the checksum. */
  function SelectUdp(pid: int, sequences: seq<int>, udp: seq<Byte>): (r: Option<nat>)
    requires |udp| >= TRANSPORT_HEADER_SIZE
    ensures r.Some? ==> r.value < |sequences|
  {
    var byDest := FindProbe(pid, sequences, IPPROTO_UDP, NO_ID, Field(udp, 2));
    var bySource := FindProbe(pid, sequences, IPPROTO_UDP, NO_ID, Field(udp, 0));
    if byDest.Some? then byDest
    else if bySource.Some? then bySource
    else FindProbe(pid, sequences, IPPROTO_UDP, NO_ID, Field(udp, 6))
  }

  /** The probe whose packet is quoted: an IP header, then the start of its payload. */
  function SelectInner(pid: int, sequences: seq<int>, inner: seq<Byte>): (r: Option<nat>)
    ensures r.Some? ==> r.value < |sequences|
  {
    if |inner| < IP_HEADER_SIZE + TRANSPORT_HEADER_SIZE then None
    else
      var protocol := inner[9];
      if protocol == IPPROTO_ICMP then FindProbe(pid, sequences, IPPROTO_ICMP, Field(inner, 24), Field(inner, 26))
      else if protocol == IPPROTO_UDP then SelectUdp(pid, sequences, inner[IP_HEADER_SIZE..])
      else if protocol == IPPROTO_TCP || protocol == IPPROTO_SCTP then
        FindProbe(pid, sequences, protocol, NO_ID, Field(inner, 20))
      else None
  }

  datatype Match = Match(index: nat, icmp: IcmpResult)

  function WithResult(index: Option<nat>, icmp: IcmpResult): Option<Match> {
    if index.None? then None else Some(Match(index.value, icmp))
  }

  /** The outer IP header: a raw socket hands it over, a datagram socket does not. */
  function OuterSize(config: NetConfig): nat { if config.ip4Raw then IP_HEADER_SIZE else 0 }

  /** What an ICMP message means: the probe it answers and how. */
  function SelectIcmp(config: NetConfig, sequences: seq<int>, icmp: seq<Byte>): (m: Option<Match>)
    requires |icmp| >= ICMP_HEADER_SIZE
    ensures m.Some? ==> m.value.index < |sequences|
  {
    if icmp[0] == ICMP_ECHOREPLY then
      WithResult(FindProbe(config.pid, sequences, IPPROTO_ICMP, Field(icmp, 4), Field(icmp, 6)), EchoReply)
    else if |icmp| < OuterSize(config) + ICMP_HEADER_SIZE then None
    else if icmp[0] == ICMP_TIME_EXCEEDED then
      WithResult(SelectInner(config.pid, sequences, icmp[ICMP_HEADER_SIZE..]), TimeExceeded)
    else if icmp[0] == ICMP_DEST_UNREACH then
      WithResult(SelectInner(config.pid, sequences, icmp[ICMP_HEADER_SIZE..]),
                 if icmp[1] == ICMP_PORT_UNREACH then EchoReply else DestUnreach)
    else None
  }

  function SelectPacket(config: NetConfig, sequences: seq<int>, packet: seq<Byte>): (m: Option<Match>)
    ensures m.Some? ==> m.value.index < |sequences|
  {
    if |packet| < OuterSize(config) + ICMP_HEADER_SIZE then None
    else if config.ip4Raw && packet[9] != IPPROTO_ICMP then None
    else SelectIcmp(config, sequences, packet[OuterSize(config)..])
  }

  // ----- recognising our own packets -----

  predicate Distinct(sequences: seq<int>) {
    && (forall i :: 0 <= i < |sequences| ==> 0 <= sequences[i] < 0x1_0000)
    && (forall i, j :: 0 <= i < j < |sequences| ==> sequences[i] != sequences[j])
  }

  /** A field holding an outstanding sequence finds exactly that probe; any other finds nothing. */
  lemma {:induction false} FindsExactly(sequences: seq<int>, bytes: seq<Byte>, at: nat)
    requires Distinct(sequences) && at + 2 <= |bytes|
    ensures forall i :: 0 <= i < |sequences| ==>
              (FindSequence(sequences, Field(bytes, at)) == Some(i) <==> sequences[i] == Word(bytes, at))
    ensures FindSequence(sequences, Field(bytes, at)).None? <==> Word(bytes, at) !in sequences
  {
    hide Htons, FindSequence;
    FindsTheFirst(sequences, Field(bytes, at));
    forall i | 0 <= i < |sequences|
      ensures Htons(sequences[i]) == Field(bytes, at) <==> sequences[i] == Word(bytes, at)
    {
      HtonsMatches(sequences[i], bytes[at], bytes[at + 1]);
      SmallWord(sequences, i);
    }
  }

  /** Exactly when a UDP probe's requested ports do not shadow it with another outstanding sequence. */
  predicate PortsDoNotCollide(sequences: seq<int>, sequence: int, p: ProbeParam) {
    var dest, local := ToWord16(p.destPort), ToWord16(p.localPort);
    p.destPort == 0 || dest == sequence
    || (dest !in sequences && (p.localPort == 0 || local == sequence || local !in sequences))
  }

  /** The outstanding sequence number the answer to a UDP probe is credited to. */
  function Credited(sequences: seq<int>, sequence: int, p: ProbeParam): int {
    var dest, local := ToWord16(p.destPort), ToWord16(p.localPort);
    if p.destPort == 0 then sequence
    else if dest in sequences then dest
    else if p.localPort != 0 && local in sequences then local
    else sequence
  }

  lemma CreditedIff(sequences: seq<int>, sequence: int, p: ProbeParam)
    requires sequence in sequences
    ensures Credited(sequences, sequence, p) == sequence <==> PortsDoNotCollide(sequences, sequence, p)
  {}

  /** A datagram whose header carries the fields. */
  predicate Carries(udp: seq<Byte>, f: UdpFields) {
    |udp| >= TRANSPORT_HEADER_SIZE && Word(udp, 0) == f.source && Word(udp, 2) == f.dest && Word(udp, 6) == f.checksum
  }

  lemma HeaderCarries(f: UdpFields, size: int, udp: seq<Byte>)
    requires |udp| >= TRANSPORT_HEADER_SIZE && udp[..TRANSPORT_HEADER_SIZE] == UdpHeader(f, size)
    ensures Carries(udp, f)
  {
    hide High, Low, ToWord16;
    var h := udp[..TRANSPORT_HEADER_SIZE];
    assert h[0] == udp[0] && h[1] == udp[1] && h[2] == udp[2] && h[3] == udp[3] && h[6] == udp[6] && h[7] == udp[7];
    NetworkRoundTrip(f.source);
    NetworkRoundTrip(f.dest);
    NetworkRoundTrip(f.checksum);
  }

  /** The probe selected by a UDP header built for probe i, whatever its ports: i itself or another. */
  lemma UdpSelects(config: NetConfig, sequences: seq<int>, i: nat, p: ProbeParam, udp: seq<Byte>, j: nat)
    requires Distinct(sequences) && i < |sequences| && j < |sequences|
    requires Carries(udp, UdpFieldsFor(config.pid, sequences[i], p))
    ensures SelectUdp(config.pid, sequences, udp) == Some(j) <==> sequences[j] == Credited(sequences, sequences[i], p)
  {
    hide FindSequence, ToWord16, Distinct, Word;
    FindsExactly(sequences, udp, 2);
    FindsExactly(sequences, udp, 0);
    FindsExactly(sequences, udp, 6);
    assert ToWord16(sequences[i]) == sequences[i] by { SmallWord(sequences, i); }
  }

  lemma UdpRecognised(config: NetConfig, sequences: seq<int>, i: nat, p: ProbeParam, udp: seq<Byte>)
    requires Distinct(sequences) && i < |sequences|
    requires Carries(udp, UdpFieldsFor(config.pid, sequences[i], p))
    ensures SelectUdp(config.pid, sequences, udp) == Some(i) <==> PortsDoNotCollide(sequences, sequences[i], p)
  {
    hide Carries, UdpFieldsFor, SelectUdp;
    UdpSelects(config, sequences, i, p, udp, i);
    assert sequences[i] in sequences;
    CreditedIff(sequences, sequences[i], p);
  }

  /** Probe 33000 to destination port 33001 while probe 33001 is outstanding: its answer goes to the latter. */
  lemma CollisionExample(config: NetConfig, p: ProbeParam, udp: seq<Byte>)
    requires p.destPort == 33001
    ensures Distinct([33001, 33000]) && !PortsDoNotCollide([33001, 33000], 33000, p)
    ensures Carries(udp, UdpFieldsFor(config.pid, 33000, p)) ==> SelectUdp(config.pid, [33001, 33000], udp) == Some(0)
  {
    hide Carries, UdpFieldsFor, SelectUdp;
    var sequences := [33001, 33000];
    assert sequences[0] == 33001;
    if Carries(udp, UdpFieldsFor(config.pid, 33000, p)) {
      UdpSelects(config, sequences, 1, p, udp, 0);
    }
  }

  lemma SmallWord(sequences: seq<int>, i: nat)
    requires Distinct(sequences) && i < |sequences|
    ensures ToWord16(sequences[i]) == sequences[i]
  {}

  /** An echo message with our identifier and the number of an outstanding probe finds that probe. */
  lemma EchoRecognised(config: NetConfig, sequences: seq<int>, i: nat, echo: seq<Byte>)
    requires Distinct(sequences) && i < |sequences| && |echo| >= TRANSPORT_HEADER_SIZE
    requires Word(echo, 4) == ToWord16(config.pid) && Word(echo, 6) == sequences[i]
    ensures FindProbe(config.pid, sequences, IPPROTO_ICMP, Field(echo, 4), Field(echo, 6)) == Some(i)
  {
    hide FindSequence, Distinct, Htons, ToWord16;
    HtonsMatches(config.pid, echo[4], echo[5]);
    FindsExactly(sequences, echo, 6);
  }

  lemma EchoHeaderReads(pid: int, sequence: Word16, checksum: Word16, echo: seq<Byte>)
    requires |echo| >= TRANSPORT_HEADER_SIZE && echo[..TRANSPORT_HEADER_SIZE] == EchoHeader(pid, sequence, checksum)
    ensures Word(echo, 4) == ToWord16(pid) && Word(echo, 6) == sequence
  {
    hide High, Low;
    var h := echo[..TRANSPORT_HEADER_SIZE];
    assert h[4] == echo[4] && h[5] == echo[5] && h[6] == echo[6] && h[7] == echo[7];
    NetworkRoundTrip(ToWord16(pid));
    NetworkRoundTrip(ToWord16(sequence));
  }

  /** An ICMP error quoting a packet: our headers, then the quoted bytes. */
  function Quoting(outer: seq<Byte>, icmpHead: seq<Byte>, quotedHeader: seq<Byte>, quoted: seq<Byte>): seq<Byte> {
    outer + icmpHead + quotedHeader + quoted
  }

  function QuoteResult(icmpHead: seq<Byte>): IcmpResult
    requires |icmpHead| == ICMP_HEADER_SIZE
  {
    if icmpHead[0] == ICMP_TIME_EXCEEDED then TimeExceeded
    else if icmpHead[1] == ICMP_PORT_UNREACH then EchoReply
    else DestUnreach
  }

  /** The outer header as the socket hands it over. */
  predicate OuterOk(config: NetConfig, outer: seq<Byte>) {
    |outer| == OuterSize(config) && (config.ip4Raw ==> outer[9] == IPPROTO_ICMP)
  }

  lemma QuoteIsSelected(config: NetConfig, sequences: seq<int>,
                                           outer: seq<Byte>, icmpHead: seq<Byte>, quotedHeader: seq<Byte>, quoted: seq<Byte>)
    requires OuterOk(config, outer) && |quotedHeader| == IP_HEADER_SIZE && |icmpHead| == ICMP_HEADER_SIZE
    requires icmpHead[0] in {ICMP_TIME_EXCEEDED, ICMP_DEST_UNREACH}
    ensures SelectPacket(config, sequences, Quoting(outer, icmpHead, quotedHeader, quoted))
         == WithResult(SelectInner(config.pid, sequences, quotedHeader + quoted), QuoteResult(icmpHead))
  {
    hide SelectInner;
    var packet := Quoting(outer, icmpHead, quotedHeader, quoted);
    var icmp := icmpHead + (quotedHeader + quoted);
    assert packet[OuterSize(config)..] == icmp;
    assert icmp[ICMP_HEADER_SIZE..] == quotedHeader + quoted;
  }

  /**
   * The choice depends only on the quoted protocol byte and the first eight quoted payload bytes:
   * routers may change everything else.
   */
  lemma ChoiceDependsOnNineBytes(pid: int, sequences: seq<int>,
                                                    header1: seq<Byte>, quoted1: seq<Byte>,
                                                    header2: seq<Byte>, quoted2: seq<Byte>)
    requires |header1| == |header2| == IP_HEADER_SIZE && header1[9] == header2[9]
    requires |quoted1| >= 8 && |quoted2| >= 8 && quoted1[..8] == quoted2[..8]
    ensures SelectInner(pid, sequences, header1 + quoted1) == SelectInner(pid, sequences, header2 + quoted2)
  {
    var inner1, inner2 := header1 + quoted1, header2 + quoted2;
    assert inner1[IP_HEADER_SIZE..] == quoted1 && inner2[IP_HEADER_SIZE..] == quoted2;
    var a, b := quoted1[..8], quoted2[..8];
    assert a[0] == quoted1[0] && a[1] == quoted1[1] && a[2] == quoted1[2] && a[3] == quoted1[3];
    assert a[4] == quoted1[4] && a[5] == quoted1[5] && a[6] == quoted1[6] && a[7] == quoted1[7];
    assert b[0] == quoted2[0] && b[1] == quoted2[1] && b[2] == quoted2[2] && b[3] == quoted2[3];
    assert b[4] == quoted2[4] && b[5] == quoted2[5] && b[6] == quoted2[6] && b[7] == quoted2[7];
  }

  /** Where the headers lie in a raw probe. */
  lemma ProbeSlices(config: NetConfig, sequence: int, p: ProbeParam, source: seq<Byte>, dest: seq<Byte>,
                                       size: int, end: nat)
    requires config.ip4Raw && |source| == |dest| == 4
    requires IP_HEADER_SIZE + TRANSPORT_HEADER_SIZE <= end <= size
    ensures var packet := ProbePacket(config, sequence, p, source, dest, size);
            && packet[9] == ToByte(p.protocol)
            && packet[IP_HEADER_SIZE..end][..TRANSPORT_HEADER_SIZE]
               == TransportHeader(config, sequence, p, size - IP_HEADER_SIZE)
  {
    hide Ip4Header, TransportHeader, Fill, ToByte;
    var header := Ip4Header(config, size, source, dest, p);
    var transport := TransportHeader(config, sequence, p, size - IP_HEADER_SIZE);
    var rest := Fill(size - IP_HEADER_SIZE - TRANSPORT_HEADER_SIZE, p.bitPattern);
    var packet := ProbePacket(config, sequence, p, source, dest, size);
    assert packet == header + transport + rest;
    assert forall k :: 0 <= k < TRANSPORT_HEADER_SIZE ==>
             packet[IP_HEADER_SIZE..end][k] == packet[IP_HEADER_SIZE + k] == transport[k];
  }

  /**
   * Build, quote, recognise: for every outstanding ICMP or UDP probe, an ICMP error quoting its
   * header (however rewritten, save the protocol) and at least eight bytes of what follows selects
   * exactly that probe, for UDP if and only if the requested ports do not collide.
   */
  lemma QuotedProbeIsRecognised(
      config: NetConfig, sequences: seq<int>, i: nat, p: ProbeParam, source: seq<Byte>, dest: seq<Byte>, size: int,
      outer: seq<Byte>, icmpHead: seq<Byte>, quotedHeader: seq<Byte>, quotedLength: nat, rest: seq<Byte>)
    requires config.ip4Raw && Distinct(sequences) && i < |sequences|
    requires p.protocol in {IPPROTO_ICMP, IPPROTO_UDP} && size >= IP_HEADER_SIZE + TRANSPORT_HEADER_SIZE
    requires |source| == |dest| == 4
    requires OuterOk(config, outer) && |quotedHeader| == IP_HEADER_SIZE && |icmpHead| == ICMP_HEADER_SIZE
    requires icmpHead[0] in {ICMP_TIME_EXCEEDED, ICMP_DEST_UNREACH}
    requires var packet := ProbePacket(config, sequences[i], p, source, dest, size);
             && quotedHeader[9] == packet[9]
             && IP_HEADER_SIZE + 8 <= quotedLength <= size
    ensures var packet := ProbePacket(config, sequences[i], p, source, dest, size);
            SelectPacket(config, sequences,
                         Quoting(outer, icmpHead, quotedHeader, packet[IP_HEADER_SIZE..quotedLength] + rest))
            == Some(Match(i, QuoteResult(icmpHead)))
            <==> p.protocol == IPPROTO_ICMP || PortsDoNotCollide(sequences, sequences[i], p)
  {
    hide EchoHeader, UdpHeader, UdpFieldsFor, ProbePacket, SelectUdp, FindProbe, PortsDoNotCollide, ChecksumOf, Distinct;
    ProbeSlices(config, sequences[i], p, source, dest, size, quotedLength);
    var packet := ProbePacket(config, sequences[i], p, source, dest, size);
    var transport := TransportHeader(config, sequences[i], p, size - IP_HEADER_SIZE);
    var quoted := packet[IP_HEADER_SIZE..quotedLength] + rest;
    var inner := quotedHeader + quoted;
    QuoteIsSelected(config, sequences, outer, icmpHead, quotedHeader, quoted);
    assert packet[9] == p.protocol;
    assert inner[IP_HEADER_SIZE..] == quoted;
    assert quoted[..8] == packet[IP_HEADER_SIZE..quotedLength][..8] == transport;
    assert Field(inner, 24) == Field(quoted, 4) && Field(inner, 26) == Field(quoted, 6);
    if p.protocol == IPPROTO_ICMP {
      var payload := Fill(size - IP_HEADER_SIZE - TRANSPORT_HEADER_SIZE, p.bitPattern);
      assert 0 <= sequences[i] < 0x1_0000 by { SmallWord(sequences, i); }
      EchoHeaderReads(config.pid, sequences[i], ChecksumOf(EchoHeader(config.pid, sequences[i], 0) + payload), quoted);
      EchoRecognised(config, sequences, i, quoted);
    } else {
      HeaderCarries(UdpFieldsFor(config.pid, sequences[i], p), size - IP_HEADER_SIZE, quoted);
      UdpRecognised(config, sequences, i, p, quoted);
    }
  }

  /** A quoted TCP or SCTP probe is recognised by the local port it was bound to. */
  lemma QuotedStreamIsRecognised(
      config: NetConfig, sequences: seq<int>, i: nat,
      outer: seq<Byte>, icmpHead: seq<Byte>, quotedHeader: seq<Byte>, quoted: seq<Byte>)
    requires Distinct(sequences) && i < |sequences|
    requires OuterOk(config, outer) && |quotedHeader| == IP_HEADER_SIZE && |icmpHead| == ICMP_HEADER_SIZE
    requires icmpHead[0] in {ICMP_TIME_EXCEEDED, ICMP_DEST_UNREACH}
    requires quotedHeader[9] in {IPPROTO_TCP, IPPROTO_SCTP} && |quoted| >= 8
    requires Word(quoted, 0) == sequences[i]
    ensures SelectPacket(config, sequences, Quoting(outer, icmpHead, quotedHeader, quoted))
         == Some(Match(i, QuoteResult(icmpHead)))
  {
    hide FindSequence, Distinct;
    QuoteIsSelected(config, sequences, outer, icmpHead, quotedHeader, quoted);
    FindsExactly(sequences, quotedHeader + quoted, IP_HEADER_SIZE);
  }

  /** An echo reply with our identifier selects the probe it echoes. */
  lemma EchoReplyIsRecognised(config: NetConfig, sequences: seq<int>, i: nat, outer: seq<Byte>, icmp: seq<Byte>)
    requires Distinct(sequences) && i < |sequences| && OuterOk(config, outer)
    requires |icmp| >= ICMP_HEADER_SIZE && icmp[0] == ICMP_ECHOREPLY
    requires Word(icmp, 4) == ToWord16(config.pid) && Word(icmp, 6) == sequences[i]
    ensures SelectPacket(config, sequences, outer + icmp) == Some(Match(i, EchoReply))
  {
    hide FindProbe, Distinct, ToWord16, Word;
    assert (outer + icmp)[OuterSize(config)..] == icmp;
    EchoRecognised(config, sequences, i, icmp);
  }
}
