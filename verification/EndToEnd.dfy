/**
 * From what the front end asks for to the bytes on the wire, and from the bytes that come back to the
 * words the front end reads.
 */
module EndToEnd {
  import opened CInt
  import opened Text
  import opened TimeVal
  import opened Framing
  import opened CmdParse
  import opened ProbeCommand
  import opened CommandLine
  import opened Options
  import opened Checksum
  import opened Headers
  import opened Construct
  import opened Mpls
  import opened ReplyLine
  import opened Recognise
  import opened Engine
  import opened EngineTheorems
  import opened TurnTheorems
  import opened DaemonOutput

  /** The line the front end prints for a control block is carried out as that control block intends. */
  lemma CommandIsCarriedOut(config: Config, s: State, c: CommandLine.Control, os: SendOutcome)
    requires c.Valid() && !Refused(c) && VersionSupported(config.support, if c.ip6 then 6 else 4)
    requires ProtocolSupported(config.support, c.protocol)
    ensures |CommandWords(c)| > 0
    ensures DispatchEvent(config, s, Line(Join(CommandWords(c))), os)
         == SendProbe(config.net, Dispatched(s, c.sequence), c.Intended(), os)
  {
    hide SendProbe, ParseLine, DecodedAll, Join, CommandWords, Scan, CheckSupport;
    BaseStarts(c);
    CommandRoundTrip(c);
    assert Requested(ParseLine(Join(CommandWords(c))).command, config.support) == Request.Send(c.Intended());
  }

  /** A control block over IPv4 with ICMP or UDP: if its probe is sent, these are the bytes. */
  lemma CommandOnTheWire(config: Config, s: State, c: CommandLine.Control, os: SendOutcome)
    requires c.Valid() && !Refused(c) && config.support.ip4 && !c.ip6 && c.protocol in {IPPROTO_ICMP, IPPROTO_UDP}
    requires AllWired(config.net, s) && |CommandWords(c)| > 0
    ensures var after := DispatchEvent(config, s, Line(Join(CommandWords(c))), os);
            |after.probes| > |s.probes| ==>
              var p := after.probes[0];
              && p.token == c.sequence && p.param == Some(c.Intended()) && p.wire.Some?
              && SentFor(config.net, p, c)
  {
    hide *;
    CommandSupported(config, c);
    CommandIsCarriedOut(config, s, c, os);
    IntendedIs(c);
    var before := Dispatched(s, c.sequence);
    DispatchedWired(config.net, s, c.sequence);
    SendRecords(config.net, before, c.Intended(), os);
    var after := SendProbe(config.net, before, c.Intended(), os);
    if |after.probes| > |s.probes| {
      HeadWired(config.net, after);
      WireReads(config.net, after.probes[0], c);
    }
  }

  lemma CommandSupported(config: Config, c: CommandLine.Control)
    requires config.support.ip4 && !c.ip6 && c.protocol in {IPPROTO_ICMP, IPPROTO_UDP}
    ensures VersionSupported(config.support, if c.ip6 then 6 else 4) && ProtocolSupported(config.support, c.protocol)
  {}

  lemma IntendedIs(c: CommandLine.Control)
    ensures var p := c.Intended();
            && p.ipVersion == (if c.ip6 then 6 else 4) && p.commandToken == c.sequence && p.protocol == c.protocol
            && p.ttl == c.ttl && p.typeOfService == c.tos && p.bitPattern == c.bitPattern
            && p.destPort == c.remotePort && p.localPort == c.localPort
  {}

  lemma DispatchedWired(config: NetConfig, s: State, token: int)
    requires AllWired(config, s)
    ensures AllWired(config, Dispatched(s, token)) && |Dispatched(s, token).probes| == |s.probes|
  {
    hide Wired;
  }

  lemma HeadWired(config: NetConfig, s: State)
    requires AllWired(config, s) && s.probes != []
    ensures var p := s.probes[0];
            && Wired(config, p) && (p.wire.Some? ==> |p.wire.value.bytes| <= PACKET_BUFFER_SIZE)
            && p.param.Some? && p.param.value.commandToken == p.token
  {
    hide ProbePacket;
  }

  /** The bytes of a probe, read by the standards, are those of the control block. */
  ghost predicate SentFor(config: NetConfig, p: ProbeRecord, c: CommandLine.Control) {
    p.wire.Some? &&
    var b := p.wire.value.bytes;
    && (config.ip4Raw ==>
          |b| >= 20 &&
          var ip := ReadIp4(b);
          && ip.version == 4 && ip.headerWords == 5 && ip.ttl == c.ttl % 256 && ip.tos == c.tos % 256
          && ip.protocol == c.protocol && ip.source == p.wire.value.source && ip.dest == p.wire.value.dest)
    && var transport := if config.ip4Raw then b[20..] else b;
       && |transport| >= 8
       && (c.protocol == 1 ==>
             var echo := ReadIcmp(transport);
             && echo.kind == 8 && echo.code == 0 && Verifies(transport)
             && echo.identifier == config.pid % 65536 && echo.sequence == p.sequence % 65536
             && forall i :: 0 <= i < |echo.payload| ==> echo.payload[i] == c.bitPattern % 256)
       && (c.protocol == 17 ==>
             var udp := ReadUdp(transport);
             && udp.length == |transport| && udp.dest == (if c.remotePort != 0 then c.remotePort else p.sequence) % 65536
             && (c.localPort != 0 ==> udp.source == c.localPort % 65536)
             && forall i :: 0 <= i < |udp.payload| ==> udp.payload[i] == c.bitPattern % 256)
  }

  lemma WireReads(config: NetConfig, p: ProbeRecord, c: CommandLine.Control)
    requires Wired(config, p) && p.wire.Some? && p.param == Some(c.Intended())
    requires |p.wire.value.bytes| <= PACKET_BUFFER_SIZE && c.protocol in {IPPROTO_ICMP, IPPROTO_UDP}
    ensures SentFor(config, p, c)
  {
    hide ProbePacket, WordTotal;
    var w := p.wire.value;
    ProbePacketReads(config, p.sequence, w.param, w.source, w.dest, |w.bytes|);
  }

  // ----- what comes back -----

  /** The word for a quoting ICMP error, by its type and code. */
  function WordFor(icmpHead: seq<Byte>): string
    requires |icmpHead| == 8
  {
    if icmpHead[0] == 11 then "ttl-expired" else if icmpHead[1] == 3 then "reply" else "no-route"
  }

  /** The front end gets a line with the word, the token, the sender and the time. */
  ghost predicate LineSays(line: string, word: string, p: ProbeRecord, from: string, received: Time) {
    ParseLine(line).Parsed? &&
    var c := ParseLine(line).command;
    && c.name == word && c.token == p.token && |c.arguments| >= 2
    && c.arguments[0] == CmdParse.Argument("ip-4", from)
    && c.arguments[1].name == "round-trip-time"
    && (0 <= Micros(received) - Micros(p.departureTime) < 0x8000_0000 ==>
          c.arguments[1].value == Decimal(Micros(received) - Micros(p.departureTime)))
  }

  /**
   * Over every run: when an ICMP error arrives that quotes what was sent for a probe, and no earlier
   * packet of the turn mentions the probe, a line is printed that says in words what happened.
   */
  lemma ErrorIsPrinted(isAddress: string -> bool, config: Config, turns: seq<Turn>, d: Daemon, turn: Turn, i: nat, j: nat,
                       icmpHead: seq<Byte>)
    requires Reached(config, turns, d) && !Exits(d) && i < |d.net.probes| && j < |turn.packets| && |icmpHead| == 8
    requires forall k :: 0 <= k < j ==> !Mentions(config.net, d.net.probes[i].sequence, turn.packets[k].bytes)
    requires Unambiguous(d.net, i) && Quotes(config.net, d.net.probes[i].wire.value, turn.packets[j].bytes, icmpHead)
    requires AddressesOk(isAddress) && WordOk(config.version) && TurnOk(isAddress, turn)
    requires forall k :: 0 <= k < |turns| ==> TurnOk(isAddress, turns[k])
    ensures exists m :: |d.net.output| <= m < |OneTurn(config, d, turn).net.output|
                        && LineSays(Printed(OneTurn(config, d, turn).net.output[m]), WordFor(icmpHead),
                                    d.net.probes[i], turn.packets[j].from, turn.packets[j].received)
  {
    var p, packet := d.net.probes[i], turn.packets[j];
    var line := AnswerLine(p, QuoteResult(icmpHead), packet.from, packet.received, PacketLabels(config.net, packet.bytes));
    var after := OneTurn(config, d, turn).net;
    assert AnswersTo(config.net, d.net, i, packet.bytes, QuoteResult(icmpHead)) by {
      hide Quotes, Unambiguous, QuoteResult;
    }
    assert icmpHead[0] in {11, 3} by { hide Unambiguous; }
    AnswerSays(isAddress, p, icmpHead, packet, PacketLabels(config.net, packet.bytes));
    hide *;
    ArrivalIsAnswered(config, turns, d, turn, i, j, QuoteResult(icmpHead));
    TurnsPrintable(isAddress, config, turns, d, turn);
    var m := WhereSaid(d.net, after, line);
    LineIsOk(isAddress, after, m);
  }

  lemma WhereSaid(before: State, after: State, l: OutputLine) returns (m: nat)
    requires SaidSince(before, after, l)
    ensures |before.output| <= m < |after.output| && after.output[m] == l
  {
    m :| |before.output| <= m < |after.output| && after.output[m] == l;
  }

  lemma LineIsOk(isAddress: string -> bool, s: State, m: nat)
    requires Printable(isAddress, s) && m < |s.output|
    ensures LineOk(isAddress, s.output[m])
  {
    hide LineOk;
  }

  lemma TurnsPrintable(isAddress: string -> bool, config: Config, turns: seq<Turn>, d: Daemon, turn: Turn)
    requires Reached(config, turns, d) && AddressesOk(isAddress) && WordOk(config.version) && TurnOk(isAddress, turn)
    requires forall k :: 0 <= k < |turns| ==> TurnOk(isAddress, turns[k])
    ensures Printable(isAddress, OneTurn(config, d, turn).net)
  {
    hide AddressesOk, WordOk, TurnOk, OneTurn, Run;
    RunPrintable(isAddress, config, START_UP, turns);
    TurnPrintable(isAddress, config, d, turn);
  }

  lemma AnswerSays(isAddress: string -> bool, p: ProbeRecord, icmpHead: seq<Byte>, packet: Packet, labels: seq<Label>)
    requires |icmpHead| == 8 && icmpHead[0] in {11, 3}
    ensures var line := AnswerLine(p, QuoteResult(icmpHead), packet.from, packet.received, labels);
            LineOk(isAddress, line) ==> LineSays(Printed(line), WordFor(icmpHead), p, packet.from, packet.received)
  {
    var line := AnswerLine(p, QuoteResult(icmpHead), packet.from, packet.received, labels);
    AnswerIs(p, icmpHead, packet.from, packet.received, labels);
    TimePrinted(packet.received, p.departureTime);
    if LineOk(isAddress, line) {
      OkAnswer(isAddress, line);
      hide LineOk, NameOf, AnswerLine, ParseLine, Printed, Decimal, WordFor, ToInt32, RoundTripUs;
      NamesAreSaid(isAddress, line);
    }
  }

  lemma AnswerIs(p: ProbeRecord, icmpHead: seq<Byte>, from: string, received: Time, labels: seq<Label>)
    requires |icmpHead| == 8 && icmpHead[0] in {11, 3}
    ensures var line := AnswerLine(p, QuoteResult(icmpHead), from, received, labels);
            && line.Answered? && NameOf(line) == WordFor(icmpHead) && LineToken(line) == p.token
            && line.response.address == from && !line.response.ip6
            && line.response.roundTripUs == RoundTripUs(received, p.departureTime)
  {
    hide RoundTripUs;
  }

  lemma TimePrinted(received: Time, departed: Time)
    ensures 0 <= Micros(received) - Micros(departed) < 0x8000_0000 ==>
              ToInt32(RoundTripUs(received, departed)) == Micros(received) - Micros(departed)
  {}

  lemma OkAnswer(isAddress: string -> bool, l: OutputLine)
    requires LineOk(isAddress, l) && l.Answered?
    ensures ParseLine(Printed(l)).Parsed?
    ensures var c := ParseLine(Printed(l)).command;
            && |c.arguments| >= 2
            && c.arguments[0] == CmdParse.Argument(if l.response.ip6 then "ip-6" else "ip-4", l.response.address)
            && c.arguments[1] == CmdParse.Argument("round-trip-time", Decimal(ToInt32(l.response.roundTripUs)))
  {
    PrintedAnswer(l);
    hide ParseLine, Join, Decimal, ReplyWords, ToInt32, Printed;
    ReplySaysResult(l.response);
  }
}
