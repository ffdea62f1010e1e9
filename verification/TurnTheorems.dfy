/**
 * What one turn of the event loop does for a probe that is outstanding when it begins: it is answered
 * by the first packet meant for it, or by what became of its socket, or reported as unanswered once its
 * time is up; otherwise it goes on waiting.
 */
module TurnTheorems {
  import opened CInt
  import opened Seqs
  import opened TimeVal
  import opened Sequences
  import opened Framing
  import opened LineBuffers
  import opened CmdParse
  import opened ProbeCommand
  import opened Options
  import opened Checksum
  import opened Headers
  import opened Construct
  import opened Mpls
  import opened ReplyLine
  import opened Recognise
  import opened Engine
  import opened EngineTheorems

  // ----- who a packet can be meant for -----

  /** With this probe alone outstanding, the packet would be taken for an answer to it. */
  predicate Mentions(config: NetConfig, sequence: int, bytes: seq<Byte>) {
    SelectPacket(config, [sequence], bytes).Some?
  }

  lemma FoundAlone(sequences: seq<int>, raw: RawWord)
    ensures var r := FindSequence(sequences, raw);
            r.Some? ==> FindSequence([sequences[r.value]], raw) == Some(0)
  {
    hide Htons;
  }

  lemma UdpFoundAlone(pid: int, sequences: seq<int>, udp: seq<Byte>)
    requires |udp| >= TRANSPORT_HEADER_SIZE
    ensures var r := SelectUdp(pid, sequences, udp); r.Some? ==> SelectUdp(pid, [sequences[r.value]], udp).Some?
  {
    hide FindSequence;
    FoundAlone(sequences, Field(udp, 2));
    FoundAlone(sequences, Field(udp, 0));
    FoundAlone(sequences, Field(udp, 6));
  }

  lemma InnerFoundAlone(pid: int, sequences: seq<int>, inner: seq<Byte>)
    ensures var r := SelectInner(pid, sequences, inner); r.Some? ==> SelectInner(pid, [sequences[r.value]], inner).Some?
  {
    hide FindSequence, SelectUdp;
    if |inner| >= IP_HEADER_SIZE + TRANSPORT_HEADER_SIZE {
      FoundAlone(sequences, Field(inner, 26));
      FoundAlone(sequences, Field(inner, 20));
      UdpFoundAlone(pid, sequences, inner[IP_HEADER_SIZE..]);
    }
  }

  /** A packet selects only probes it mentions. */
  lemma SelectedIsMentioned(config: NetConfig, sequences: seq<int>, bytes: seq<Byte>)
    ensures var m := SelectPacket(config, sequences, bytes);
            m.Some? ==> Mentions(config, sequences[m.value.index], bytes)
  {
    hide FindSequence, SelectInner;
    if SelectPacket(config, sequences, bytes).Some? {
      var icmp := bytes[OuterSize(config)..];
      FoundAlone(sequences, Field(icmp, 6));
      InnerFoundAlone(config.pid, sequences, icmp[ICMP_HEADER_SIZE..]);
    }
  }

  /** An ICMP identifier that is not ours selects nothing, quoted or in an echo reply. */
  lemma ForeignIdentifier(config: NetConfig, sequences: seq<int>, icmp: seq<Byte>)
    requires |icmp| >= ICMP_HEADER_SIZE
    ensures icmp[0] == 0 && FromNetwork(icmp[4], icmp[5]) != ToWord16(config.pid) ==> SelectIcmp(config, sequences, icmp) == None
  {
    hide FindSequence;
    HtonsMatches(config.pid, icmp[4], icmp[5]);
  }

  lemma ForeignQuotedIdentifier(pid: int, sequences: seq<int>, inner: seq<Byte>)
    requires |inner| >= 28 && inner[9] == 1
    ensures FromNetwork(inner[24], inner[25]) != ToWord16(pid) ==> SelectInner(pid, sequences, inner) == None
  {
    hide FindSequence;
    HtonsMatches(pid, inner[24], inner[25]);
  }

  // ----- what a turn keeps -----

  /** The probe has left the list, and its serial number will not come again. */
  ghost predicate Gone(s: State, serial: nat) {
    serial < s.issued && forall q :: q in s.probes ==> q.serial != serial
  }

  /** The line stands in the output behind what was there before. */
  ghost predicate SaidSince(before: State, after: State, l: OutputLine) {
    exists m :: |before.output| <= m < |after.output| && after.output[m] == l
  }

  ghost predicate Later(s: State, r: State) { s.output <= r.output && s.issued <= r.issued }

  lemma SaidStays(a: State, b: State, c: State, l: OutputLine)
    requires Later(b, c)
    ensures SaidSince(a, b, l) ==> SaidSince(a, c, l)
  {
    if SaidSince(a, b, l) {
      var m :| |a.output| <= m < |b.output| && b.output[m] == l;
      assert c.output[m] == l;
    }
  }

  lemma SaidEarlier(a: State, b: State, c: State, l: OutputLine)
    requires Later(a, b)
    ensures SaidSince(b, c, l) ==> SaidSince(a, c, l)
  {}

  lemma RetireIsLater(s: State, k: nat, l: OutputLine)
    requires k < |s.probes|
    ensures Later(s, Retire(s, k, l)) && SaidSince(s, Retire(s, k, l), l)
    ensures forall q :: q in Retire(s, k, l).probes ==> q in s.probes
  {
    WithoutAt(s.probes, k);
    assert Retire(s, k, l).output[|s.output|] == l;
  }

  lemma {:induction false} ReceivingIsLater(config: NetConfig, s: State, packets: seq<Packet>)
    ensures var r := ReceiveAll(config, s, packets); Later(s, r) && r.issued == s.issued
    decreases |packets|
  {
    hide SelectPacket, PacketLabels, Answer;
    if packets != [] {
      ReceivingIsLater(config, s, packets[..|packets| - 1]);
    }
  }

  lemma SweepingIsLater(s: State, verdict: ProbeRecord -> Option<OutputLine>)
    ensures var r := SweepState(s, verdict); Later(s, r) && r.issued == s.issued && forall q :: q in r.probes ==> q in s.probes
  {
    SweepIsExact(s.probes, verdict);
  }

  /** A probe the verdict is about says its line and goes; any other stays. */
  lemma SweepingOne(s: State, verdict: ProbeRecord -> Option<OutputLine>, p: ProbeRecord)
    requires p in s.probes
    ensures var r := SweepState(s, verdict);
            && (p in r.probes <==> verdict(p).None?)
            && (verdict(p).Some? ==> SaidSince(s, r, verdict(p).value))
  {
    SweepIsExact(s.probes, verdict);
    var swept, r := Sweep(s.probes, verdict), SweepState(s, verdict);
    if verdict(p).Some? {
      assert verdict(p).value in swept.lines;
      var k :| 0 <= k < |swept.lines| && swept.lines[k] == verdict(p).value;
      assert r.output[|s.output| + k] == verdict(p).value;
    }
  }

  /** Two probes of an orderly list with one serial are one. */
  lemma SerialIsUnique(s: State, p: ProbeRecord, q: ProbeRecord)
    requires Orderly(s) && p in s.probes && q in s.probes && p.serial == q.serial
    ensures p == q
  {
    hide Issued;
  }

  lemma GoneIfNotThere(s: State, r: State, p: ProbeRecord)
    requires Orderly(s) && p in s.probes && p !in r.probes && r.issued >= s.issued
    requires forall q :: q in r.probes ==> q in s.probes
    ensures Gone(r, p.serial)
  {
    hide Issued;
    forall q | q in r.probes
      ensures q.serial != p.serial
    {
      if q.serial == p.serial {
        SerialIsUnique(s, p, q);
      }
    }
  }

  // ----- dispatching adds probes and lines, and takes nothing away -----

  lemma {:induction false} TrySerial(config: NetConfig, p: ProbeParam, system: nat -> System, k: nat, t: Tried)
    requires k < MAX_TRIES && t.serial < t.issued
    ensures var r := Try(config, p, system, k, t); r.serial >= t.serial && r.issued >= t.issued
    decreases MAX_TRIES - k
  {
    hide Constructed, NextSequence;
    var a := Constructed(config, p, system(k));
    if !(a.size > 0 || !IsStream(p.protocol) || a.errno != EADDRINUSE) && k + 1 < MAX_TRIES {
      var socket := if a.socket.Some? then a.socket.value else t.socket;
      TrySerial(config, p, system, k + 1,
                Tried(a, t.nextSequence, t.issued, socket, NextSequence(t.nextSequence), t.issued + 1));
    }
  }

  ghost predicate OnlyAdds(s: State, r: State) {
    Later(s, r)
    && (forall q :: q in s.probes ==> q in r.probes)
    && (forall q :: q in r.probes ==> q in s.probes || q.serial >= s.issued)
  }

  lemma SendOnlyAdds(config: NetConfig, s: State, p: ProbeParam, os: SendOutcome)
    ensures OnlyAdds(s, SendProbe(config, s, p, os))
  {
    hide Try, ReportFor, Answer, WireOf, NextSequence;
    if |s.probes| < MAX_PROBES && os.allocates {
      var s1 := AllocProbe(s, p.commandToken);
      WithoutFirst(s.probes);
      assert s1.probes[1..] == s.probes;
      var t0 := Tried(NO_ATTEMPT, s1.probes[0].sequence, s1.probes[0].serial, 0, s1.nextSequence, s1.issued);
      TrySerial(config, p, os.system, 0, t0);
      if os.resolves.Some? {
        var s2 := AfterTries(config, s1, p, os);
        assert s2.probes == [s2.probes[0]] + s.probes;
      }
    }
  }

  lemma {:induction false} DispatchOnlyAdds(config: Config, s: State, events: seq<Event>, os: nat -> SendOutcome)
    ensures OnlyAdds(s, DispatchAll(config, s, events, os))
    decreases |events|
  {
    hide ParseLine, Requested, SendProbe, CheckSupport;
    if events != [] {
      var n := |events| - 1;
      DispatchOnlyAdds(config, s, events[..n], os);
      var before, e := DispatchAll(config, s, events[..n], os), events[n];
      if e.Line? && ParseLine(e.text).Parsed? && ParseLine(e.text).command.name == "send-probe" {
        var c := ParseLine(e.text).command;
        if Requested(c, config.support).Send? {
          SendOnlyAdds(config.net, Dispatched(before, c.token), Requested(c, config.support).param, os(n));
        }
      }
    }
  }

  lemma GoneStays(s: State, r: State, serial: nat)
    requires Gone(s, serial) && OnlyAdds(s, r)
    ensures Gone(r, serial)
  {}

  // ----- packets -----

  /** A packet that does not mention the probe leaves it on the list. */
  lemma {:induction false} UnmentionedStays(config: NetConfig, s: State, packets: seq<Packet>, p: ProbeRecord)
    requires Orderly(s) && p in s.probes
    requires forall k :: 0 <= k < |packets| ==> !Mentions(config, p.sequence, packets[k].bytes)
    ensures p in ReceiveAll(config, s, packets).probes
    decreases |packets|
  {
    hide SelectPacket, PacketLabels, Answer, Mentions, Orderly;
    if packets != [] {
      var n := |packets| - 1;
      UnmentionedStays(config, s, packets[..n], p);
      var before := ReceiveAll(config, s, packets[..n]);
      var sequences := SequencesOf(before.probes);
      SelectedIsMentioned(config, sequences, packets[n].bytes);
      assert !Mentions(config, p.sequence, packets[n].bytes);
      var m := SelectPacket(config, sequences, packets[n].bytes);
      if m.Some? {
        WithoutAt(before.probes, m.value.index);
        var i :| 0 <= i < |before.probes| && before.probes[i] == p;
        assert sequences[m.value.index] == before.probes[m.value.index].sequence;
        assert i != m.value.index;
        assert Without(before.probes, m.value.index)[if i < m.value.index then i else i - 1] == p;
      }
    }
  }

  lemma {:induction false} ReceivedInOrder(config: NetConfig, s: State, a: seq<Packet>, b: seq<Packet>)
    ensures ReceiveAll(config, s, a + b) == ReceiveAll(config, ReceiveAll(config, s, a), b)
    decreases |b|
  {
    hide ReceivePacket;
    if b == [] {
      assert a + b == a;
    } else {
      var n := |b| - 1;
      ReceivedInOrder(config, s, a, b[..n]);
      assert (a + b)[..|a + b| - 1] == a + b[..n] && (a + b)[|a + b| - 1] == b[n];
    }
  }

  /** Fewer probes outstanding: what was unambiguous stays so. */
  lemma StillUnambiguous(s: State, i: nat, r: State, k: nat)
    requires Orderly(s) && Unambiguous(s, i) && Orderly(r) && r.issued == s.issued
    requires k < |r.probes| && r.probes[k] == s.probes[i] && forall q :: q in r.probes ==> q in s.probes
    ensures Unambiguous(r, k)
  {
    hide Issued;
    assert r.probes[|r.probes| - 1] in s.probes;
    assert r.probes[|r.probes| - 1].serial >= s.probes[|s.probes| - 1].serial;
    FewerSequences(s.probes, r.probes);
    var p := s.probes[i].wire.value.param;
    FewerPorts(SequencesOf(s.probes), SequencesOf(r.probes), s.probes[i].sequence, p);
  }

  lemma FewerSequences(probes: seq<ProbeRecord>, kept: seq<ProbeRecord>)
    requires forall q :: q in kept ==> q in probes
    ensures forall w :: w in SequencesOf(kept) ==> w in SequencesOf(probes)
  {
    forall w | w in SequencesOf(kept)
      ensures w in SequencesOf(probes)
    {
      var k :| 0 <= k < |kept| && SequencesOf(kept)[k] == w;
      assert kept[k] in probes;
      var i :| 0 <= i < |probes| && probes[i] == kept[k];
      assert SequencesOf(probes)[i] == w;
    }
  }

  lemma FewerPorts(sequences: seq<int>, kept: seq<int>, sequence: int, p: ProbeParam)
    requires forall w :: w in kept ==> w in sequences
    ensures PortsDoNotCollide(sequences, sequence, p) ==> PortsDoNotCollide(kept, sequence, p)
  {}

  /** An echo reply with our identifier and the probe's number. */
  predicate Echoes(config: NetConfig, sequence: int, bytes: seq<Byte>) {
    var at := OuterSize(config);
    && at + ICMP_HEADER_SIZE <= |bytes| && OuterOk(config, bytes[..at])
    && bytes[at] == 0 && Word(bytes, at + 4) == ToWord16(config.pid) && Word(bytes, at + 6) == sequence
  }

  /** At most one turn of the sequence numbers since the oldest probe. */
  ghost predicate OneTurnOfNumbers(s: State) {
    s.probes != [] ==> s.issued - s.probes[|s.probes| - 1].serial <= SPAN
  }

  lemma EchoIsAnswered(config: NetConfig, s: State, i: nat, bytes: seq<Byte>, from: string, received: Time)
    requires Orderly(s) && i < |s.probes| && OneTurnOfNumbers(s) && Echoes(config, s.probes[i].sequence, bytes)
    ensures AnswersFor(s, ReceivePacket(config, s, Packet(bytes, from, received)), i, EchoReply, from, received,
                       PacketLabels(config, bytes))
  {
    hide SelectPacket, Distinct, PacketLabels, OuterOk, Orderly;
    OutstandingAreDistinct(s);
    var outer, icmp := bytes[..OuterSize(config)], bytes[OuterSize(config)..];
    assert bytes == outer + icmp;
    EchoReplyIsRecognised(config, SequencesOf(s.probes), i, outer, icmp);
  }

  /** The packet answers the probe: it quotes what was sent, or echoes it. */
  ghost predicate AnswersTo(config: NetConfig, s: State, i: nat, bytes: seq<Byte>, icmp: IcmpResult)
    requires i < |s.probes|
  {
    || (Unambiguous(s, i) && exists icmpHead: seq<Byte> :: |icmpHead| == 8 && Quotes(config, s.probes[i].wire.value, bytes, icmpHead)
                                                           && icmp == QuoteResult(icmpHead))
    || (OneTurnOfNumbers(s) && Echoes(config, s.probes[i].sequence, bytes) && icmp == EchoReply)
  }

  lemma AnswerIsGiven(config: NetConfig, s: State, i: nat, packet: Packet, icmp: IcmpResult)
    requires Orderly(s) && AllWired(config, s) && i < |s.probes| && AnswersTo(config, s, i, packet.bytes, icmp)
    ensures AnswersFor(s, ReceivePacket(config, s, packet), i, icmp, packet.from, packet.received, PacketLabels(config, packet.bytes))
  {
    hide Orderly, PortsDoNotCollide, Quotes, Echoes, Wired, ReceivePacket, AnswersFor;
    assert s.probes[i] in s.probes;
    if OneTurnOfNumbers(s) && Echoes(config, s.probes[i].sequence, packet.bytes) && icmp == EchoReply {
      EchoIsAnswered(config, s, i, packet.bytes, packet.from, packet.received);
    } else {
      var icmpHead: seq<Byte> :| |icmpHead| == 8 && Quotes(config, s.probes[i].wire.value, packet.bytes, icmpHead)
                                 && icmp == QuoteResult(icmpHead);
      QuotedProbeIsAnswered(config, s, i, packet.bytes, icmpHead, packet.from, packet.received);
    }
  }

  /** Fewer probes outstanding: a packet that answers the probe still does. */
  lemma StillAnswersTo(config: NetConfig, s: State, i: nat, r: State, k: nat, bytes: seq<Byte>, icmp: IcmpResult)
    requires Orderly(s) && i < |s.probes| && AnswersTo(config, s, i, bytes, icmp) && Orderly(r) && r.issued == s.issued
    requires k < |r.probes| && r.probes[k] == s.probes[i] && forall q :: q in r.probes ==> q in s.probes
    ensures AnswersTo(config, r, k, bytes, icmp)
  {
    hide Issued, Quotes, Echoes, Unambiguous;
    if Unambiguous(s, i) {
      StillUnambiguous(s, i, r, k);
    }
    assert r.probes[|r.probes| - 1] in s.probes;
    assert r.probes[|r.probes| - 1].serial >= s.probes[|s.probes| - 1].serial;
  }

  /** A probe that is still there when a packet for it comes is answered by that packet. */
  lemma PacketsAnswer(config: NetConfig, s: State, packets: seq<Packet>, i: nat, j: nat, icmp: IcmpResult)
    requires Orderly(s) && AllWired(config, s) && i < |s.probes| && j < |packets|
    requires s.probes[i] in ReceiveAll(config, s, packets[..j]).probes
    requires AnswersTo(config, s, i, packets[j].bytes, icmp)
    ensures var r := ReceiveAll(config, s, packets);
            && Gone(r, s.probes[i].serial)
            && SaidSince(s, r, AnswerLine(s.probes[i], icmp, packets[j].from, packets[j].received,
                                          PacketLabels(config, packets[j].bytes)))
  {
    hide Orderly, AllWired, AnswersTo, Mentions, ReceiveAll, ReceivePacket, PacketLabels, Later, SaidSince, Gone;
    var p := s.probes[i];
    var a, b := packets[..j], packets[j + 1..];
    var s1 := ReceiveAll(config, s, a);
    ReceiveAllOrderly(config, s, a);
    ReceivingIsLater(config, s, a);
    ReceivingOnlyRemoves(config, s, a);
    FewerWired(config, s, s1);
    var i1 :| 0 <= i1 < |s1.probes| && s1.probes[i1] == p;
    StillAnswersTo(config, s, i, s1, i1, packets[j].bytes, icmp);
    AnswerIsGiven(config, s1, i1, packets[j], icmp);
    var s2 := ReceivePacket(config, s1, packets[j]);
    var line := AnswerLine(p, icmp, packets[j].from, packets[j].received, PacketLabels(config, packets[j].bytes));
    AnsweredIsGone(s1, s2, i1, icmp, packets[j].from, packets[j].received, PacketLabels(config, packets[j].bytes));
    var r := ReceiveAll(config, s2, b);
    ReceivingIsLater(config, s2, b);
    ReceivingOnlyRemoves(config, s2, b);
    GoneForGood(s2, r, p.serial);
    SaidStays(s1, s2, r, line);
    SaidEarlier(s, s1, r, line);
    assert packets == a + ([packets[j]] + b);
    ReceivedInOrder(config, s, a, [packets[j]] + b);
    ReceivedInOrder(config, s1, [packets[j]], b);
    OneReceived(config, s1, packets[j]);
  }

  /** One of the packets was taken for an answer to the probe, and the answer printed. */
  ghost predicate AnsweredBySome(config: NetConfig, s: State, r: State, packets: seq<Packet>, p: ProbeRecord) {
    exists k: nat, icmp :: k < |packets| && Mentions(config, p.sequence, packets[k].bytes)
      && SaidSince(s, r, AnswerLine(p, icmp, packets[k].from, packets[k].received, PacketLabels(config, packets[k].bytes)))
  }

  /** A probe leaves while receiving only by being answered. */
  lemma {:induction false} LeavesAnswered(config: NetConfig, s: State, packets: seq<Packet>, p: ProbeRecord)
    requires p in s.probes && p !in ReceiveAll(config, s, packets).probes
    ensures AnsweredBySome(config, s, ReceiveAll(config, s, packets), packets, p)
    decreases |packets|
  {
    hide SelectPacket, PacketLabels, Mentions, SaidSince, Later;
    var n := |packets| - 1;
    var before, packet := ReceiveAll(config, s, packets[..n]), packets[n];
    var r := ReceiveAll(config, s, packets);
    ReceivingIsLater(config, s, packets[..n]);
    var m := SelectPacket(config, SequencesOf(before.probes), packet.bytes);
    if p !in before.probes {
      LeavesAnswered(config, s, packets[..n], p);
      var k: nat, icmp :| k < n && Mentions(config, p.sequence, packets[..n][k].bytes)
        && SaidSince(s, before, AnswerLine(p, icmp, packets[k].from, packets[k].received, PacketLabels(config, packets[k].bytes)));
      ReceivingOneIsLater(config, before, packet);
      SaidStays(s, before, r, AnswerLine(p, icmp, packets[k].from, packets[k].received, PacketLabels(config, packets[k].bytes)));
    } else {
      LeftIsSelected(config, before, packet, p);
      var line := AnswerLine(p, m.value.icmp, packet.from, packet.received, PacketLabels(config, packet.bytes));
      SaidEarlier(s, before, r, line);
    }
  }

  lemma ReceivingOneIsLater(config: NetConfig, s: State, packet: Packet)
    ensures Later(s, ReceivePacket(config, s, packet))
  {
    hide SelectPacket, PacketLabels, Answer;
  }

  lemma OthersStay(probes: seq<ProbeRecord>, k: nat, i: nat)
    requires k < |probes| && i < |probes|
    ensures i != k ==> probes[i] in Without(probes, k)
  {
    WithoutAt(probes, k);
    if i < k {
      assert Without(probes, k)[i] == probes[i];
    } else if k < i {
      assert Without(probes, k)[i - 1] == probes[i];
    }
  }

  lemma LeftIsSelected(config: NetConfig, s: State, packet: Packet, p: ProbeRecord)
    requires p in s.probes && p !in ReceivePacket(config, s, packet).probes
    ensures var m := SelectPacket(config, SequencesOf(s.probes), packet.bytes);
            && m.Some? && Mentions(config, p.sequence, packet.bytes)
            && SaidSince(s, ReceivePacket(config, s, packet),
                         AnswerLine(p, m.value.icmp, packet.from, packet.received, PacketLabels(config, packet.bytes)))
  {
    hide SelectPacket, PacketLabels, Mentions;
    var sequences := SequencesOf(s.probes);
    var m := SelectPacket(config, sequences, packet.bytes);
    SelectedIsMentioned(config, sequences, packet.bytes);
    var i :| 0 <= i < |s.probes| && s.probes[i] == p;
    OthersStay(s.probes, m.value.index, i);
    var r := ReceivePacket(config, s, packet);
    assert r.output[|s.output|] == AnswerLine(p, m.value.icmp, packet.from, packet.received, PacketLabels(config, packet.bytes));
  }

  lemma OneReceived(config: NetConfig, s: State, packet: Packet)
    ensures ReceiveAll(config, s, [packet]) == ReceivePacket(config, s, packet)
  {
    hide ReceivePacket;
    assert [packet][..0] == [];
  }

  lemma FewerWired(config: NetConfig, s: State, r: State)
    requires AllWired(config, s) && forall q :: q in r.probes ==> q in s.probes
    ensures AllWired(config, r)
  {
    hide Wired;
  }

  lemma AnsweredIsGone(s: State, r: State, i: nat, icmp: IcmpResult, from: string, received: Time, labels: seq<Label>)
    requires Orderly(s) && i < |s.probes| && AnswersFor(s, r, i, icmp, from, received, labels)
    ensures Gone(r, s.probes[i].serial) && SaidSince(s, r, AnswerLine(s.probes[i], icmp, from, received, labels))
  {
    hide Issued, AnswerLine;
    WithoutAt(s.probes, i);
    assert r.output[|s.output|] == AnswerLine(s.probes[i], icmp, from, received, labels);
  }

  lemma GoneForGood(s: State, r: State, serial: nat)
    requires Gone(s, serial) && r.issued >= s.issued && forall q :: q in r.probes ==> q in s.probes
    ensures Gone(r, serial)
  {}

  // ----- the turn -----

  /** The states a turn goes through. */
  ghost predicate Phases(config: Config, d: Daemon, turn: Turn, received: State, checked: State, timed: State, after: State) {
    received == ReceiveAll(config.net, d.net, turn.packets)
    && checked == SweepState(received, SocketVerdict(turn.sockets))
    && timed == SweepState(checked, TimeoutVerdict(turn.now))
    && after == DispatchAll(config, timed, Scan(START, d.partial + InputOf(d, turn)).events, turn.sends)
  }

  lemma TurnHasPhases(config: Config, d: Daemon, turn: Turn)
    requires Orderly(d.net)
    ensures var received := ReceiveAll(config.net, d.net, turn.packets);
            var checked := SweepState(received, SocketVerdict(turn.sockets));
            var timed := SweepState(checked, TimeoutVerdict(turn.now));
            var after := OneTurn(config, d, turn).net;
            && Phases(config, d, turn, received, checked, timed, after)
            && Orderly(received) && Orderly(checked) && Orderly(timed)
            && Later(d.net, received) && Later(received, checked) && Later(checked, timed) && OnlyAdds(timed, after)
            && (forall q :: q in received.probes ==> q in d.net.probes)
            && (forall q :: q in checked.probes ==> q in received.probes)
            && (forall q :: q in timed.probes ==> q in checked.probes)
  {
    hide Orderly, Scan, ReceiveAll, DispatchAll, SweepState, SocketVerdict, TimeoutVerdict, OnlyAdds, Later;
    var received := ReceiveAll(config.net, d.net, turn.packets);
    ReceiveAllOrderly(config.net, d.net, turn.packets);
    ReceivingIsLater(config.net, d.net, turn.packets);
    ReceivingOnlyRemoves(config.net, d.net, turn.packets);
    SweepOrderly(received, SocketVerdict(turn.sockets));
    SweepingIsLater(received, SocketVerdict(turn.sockets));
    var checked := SweepState(received, SocketVerdict(turn.sockets));
    SweepOrderly(checked, TimeoutVerdict(turn.now));
    SweepingIsLater(checked, TimeoutVerdict(turn.now));
    DispatchOnlyAdds(config, SweepState(checked, TimeoutVerdict(turn.now)),
                     Scan(START, d.partial + InputOf(d, turn)).events, turn.sends);
  }

  /** The state of the machine after some run from the start. */
  ghost predicate Reached(config: Config, turns: seq<Turn>, d: Daemon) { d == Run(config, START_UP, turns) }

  ghost predicate Unmentioned(config: Config, turn: Turn, sequence: int) {
    forall k :: 0 <= k < |turn.packets| ==> !Mentions(config.net, sequence, turn.packets[k].bytes)
  }

  lemma AnsweredThrough(d: State, received: State, checked: State, timed: State, after: State, serial: nat, l: OutputLine)
    requires Later(received, checked) && Later(checked, timed) && OnlyAdds(timed, after) && Later(d, received)
    requires forall q :: q in checked.probes ==> q in received.probes
    requires forall q :: q in timed.probes ==> q in checked.probes
    ensures Gone(received, serial) && SaidSince(d, received, l) ==> Gone(after, serial) && SaidSince(d, after, l)
    ensures Gone(checked, serial) && SaidSince(received, checked, l) ==> Gone(after, serial) && SaidSince(d, after, l)
    ensures Gone(timed, serial) && SaidSince(checked, timed, l) ==> Gone(after, serial) && SaidSince(d, after, l)
  {
    hide SaidSince;
    assert Later(timed, after) && Later(received, timed) && Later(received, after) && Later(checked, after);
    SaidStays(d, received, after, l);
    SaidEarlier(d, received, checked, l);
    SaidStays(received, checked, after, l);
    SaidEarlier(d, received, after, l);
    SaidStays(checked, timed, after, l);
    SaidEarlier(d, checked, after, l);
    assert Later(d, checked);
    if Gone(received, serial) { GoneForGood(received, checked, serial); }
    if Gone(checked, serial) { GoneForGood(checked, timed, serial); }
    if Gone(timed, serial) { GoneStays(timed, after, serial); }
  }

  /**
   * A turn receives: if a packet that arrives quotes what was sent for a probe, or echoes it, and no
   * earlier one mentions the probe, then the probe is gone after the turn and its answer is printed,
   * with its token, the result, the sender, the round trip time and the labels.
   */
  lemma ArrivalIsAnswered(config: Config, turns: seq<Turn>, d: Daemon, turn: Turn, i: nat, j: nat, icmp: IcmpResult)
    requires Reached(config, turns, d) && i < |d.net.probes| && j < |turn.packets|
    requires forall k :: 0 <= k < j ==> !Mentions(config.net, d.net.probes[i].sequence, turn.packets[k].bytes)
    requires AnswersTo(config.net, d.net, i, turn.packets[j].bytes, icmp)
    ensures var after := OneTurn(config, d, turn).net;
            && Gone(after, d.net.probes[i].serial)
            && SaidSince(d.net, after, AnswerLine(d.net.probes[i], icmp, turn.packets[j].from, turn.packets[j].received,
                                                  PacketLabels(config.net, turn.packets[j].bytes)))
  {
    var p := d.net.probes[i];
    assert p in d.net.probes;
    assert forall k :: 0 <= k < j ==> turn.packets[..j][k] == turn.packets[k];
    hide *;
    RunReached(config, turns, d);
    UnmentionedStays(config.net, d.net, turn.packets[..j], p);
    PacketsAnswer(config.net, d.net, turn.packets, i, j, icmp);
    TurnHasPhases(config, d, turn);
    var received := ReceiveAll(config.net, d.net, turn.packets);
    var checked := SweepState(received, SocketVerdict(turn.sockets));
    AnsweredThrough(d.net, received, checked, SweepState(checked, TimeoutVerdict(turn.now)), OneTurn(config, d, turn).net,
                    d.net.probes[i].serial,
                    AnswerLine(d.net.probes[i], icmp, turn.packets[j].from, turn.packets[j].received,
                               PacketLabels(config.net, turn.packets[j].bytes)));
  }

  /**
   * Whatever came before it in the turn: when a packet for the probe arrives, the probe is gone after
   * the turn, and one of the packets that mention it, up to this one, was printed as its answer.
   */
  lemma ArrivalEndsTheWait(config: Config, turns: seq<Turn>, d: Daemon, turn: Turn, i: nat, j: nat, icmp: IcmpResult)
    requires Reached(config, turns, d) && i < |d.net.probes| && j < |turn.packets|
    requires AnswersTo(config.net, d.net, i, turn.packets[j].bytes, icmp)
    ensures var p, after := d.net.probes[i], OneTurn(config, d, turn).net;
            && Gone(after, p.serial)
            && exists k: nat, r :: k <= j && (k == j || Mentions(config.net, p.sequence, turn.packets[k].bytes))
                 && SaidSince(d.net, after, AnswerLine(p, r, turn.packets[k].from, turn.packets[k].received,
                                                       PacketLabels(config.net, turn.packets[k].bytes)))
  {
    hide *;
    var p := d.net.probes[i];
    assert p in d.net.probes;
    var a := turn.packets[..j];
    assert forall k :: 0 <= k < j ==> a[k] == turn.packets[k];
    assert turn.packets == a + turn.packets[j..];
    RunReached(config, turns, d);
    TurnHasPhases(config, d, turn);
    var received := ReceiveAll(config.net, d.net, turn.packets);
    var checked := SweepState(received, SocketVerdict(turn.sockets));
    var timed, after := SweepState(checked, TimeoutVerdict(turn.now)), OneTurn(config, d, turn).net;
    var before := ReceiveAll(config.net, d.net, a);
    if p in before.probes {
      PacketsAnswer(config.net, d.net, turn.packets, i, j, icmp);
      AnsweredThrough(d.net, received, checked, timed, after, p.serial,
                      AnswerLine(p, icmp, turn.packets[j].from, turn.packets[j].received,
                                 PacketLabels(config.net, turn.packets[j].bytes)));
    } else {
      LeavesAnswered(config.net, d.net, a, p);
      ReceivedInOrder(config.net, d.net, a, turn.packets[j..]);
      ReceivingIsLater(config.net, d.net, a);
      ReceivingIsLater(config.net, before, turn.packets[j..]);
      ReceivingOnlyRemoves(config.net, d.net, a);
      ReceivingOnlyRemoves(config.net, before, turn.packets[j..]);
      GoneIfLeft(d.net, before, p);
      GoneOn(before, received, p.serial);
      var k, r := WhoAnswered(config.net, d.net, before, a, p);
      var line := AnswerLine(p, r, turn.packets[k].from, turn.packets[k].received, PacketLabels(config.net, turn.packets[k].bytes));
      SaidStays(d.net, before, received, line);
      AnsweredThrough(d.net, received, checked, timed, after, p.serial, line);
    }
  }

  lemma GoneOn(s: State, r: State, serial: nat)
    requires Gone(s, serial) && Later(s, r) && forall q :: q in r.probes ==> q in s.probes
    ensures Gone(r, serial)
  {}

  lemma WhoAnswered(config: NetConfig, s: State, r: State, packets: seq<Packet>, p: ProbeRecord) returns (k: nat, icmp: IcmpResult)
    requires AnsweredBySome(config, s, r, packets, p)
    ensures k < |packets| && Mentions(config, p.sequence, packets[k].bytes)
    ensures SaidSince(s, r, AnswerLine(p, icmp, packets[k].from, packets[k].received, PacketLabels(config, packets[k].bytes)))
  {
    k, icmp :| k < |packets| && Mentions(config, p.sequence, packets[k].bytes)
      && SaidSince(s, r, AnswerLine(p, icmp, packets[k].from, packets[k].received, PacketLabels(config, packets[k].bytes)));
  }

  lemma RunReached(config: Config, turns: seq<Turn>, d: Daemon)
    requires Reached(config, turns, d)
    ensures Balanced(d.net) && Orderly(d.net) && AllWired(config.net, d.net)
  {
    RunIsKnown(config, turns);
  }

  /** What becomes of the socket of a stream probe, and what is printed then. */
  function SocketLine(p: ProbeRecord, status: SocketStatus): Option<OutputLine> {
    match status
    case NotWritable => None
    case Connected(now) =>
      Some(Answered(Response(p.token, EchoReply, p.remoteAddress.ip6, p.remoteAddress.text, RoundTripUs(now, p.departureTime), [])))
    case Failed(err, now) =>
      if err == ECONNREFUSED then
        Some(Answered(Response(p.token, EchoReply, p.remoteAddress.ip6, p.remoteAddress.text, RoundTripUs(now, p.departureTime), [])))
      else Some(SendFailed(p.token, ReportFor(err)))
  }

  lemma VerdictIsSocketLine(p: ProbeRecord, sockets: int -> SocketStatus)
    ensures SocketVerdict(sockets)(p) == if p.socket == 0 then None else SocketLine(p, sockets(p.socket))
  {}

  /** A turn looks at the sockets: a connection made or refused is an answer, another failure an error. */
  lemma SocketIsReported(config: Config, turns: seq<Turn>, d: Daemon, turn: Turn, i: nat)
    requires Reached(config, turns, d) && i < |d.net.probes| && Unmentioned(config, turn, d.net.probes[i].sequence)
    requires d.net.probes[i].socket != 0 && !turn.sockets(d.net.probes[i].socket).NotWritable?
    ensures var p, after := d.net.probes[i], OneTurn(config, d, turn).net;
            && Gone(after, p.serial)
            && SocketLine(p, turn.sockets(p.socket)).Some?
            && SaidSince(d.net, after, SocketLine(p, turn.sockets(p.socket)).value)
  {
    var p := d.net.probes[i];
    VerdictIsSocketLine(p, turn.sockets);
    assert SocketLine(p, turn.sockets(p.socket)).Some?;
    assert p in d.net.probes;
    hide *;
    RunReached(config, turns, d);
    UnmentionedHere(config, turn, p.sequence);
    UnmentionedStays(config.net, d.net, turn.packets, p);
    TurnHasPhases(config, d, turn);
    var received := ReceiveAll(config.net, d.net, turn.packets);
    var checked := SweepState(received, SocketVerdict(turn.sockets));
    SweepingOne(received, SocketVerdict(turn.sockets), p);
    GoneIfLeft(received, checked, p);
    AnsweredThrough(d.net, received, checked, SweepState(checked, TimeoutVerdict(turn.now)), OneTurn(config, d, turn).net,
                    p.serial, SocketLine(p, turn.sockets(p.socket)).value);
  }

  lemma UnmentionedHere(config: Config, turn: Turn, sequence: int)
    requires Unmentioned(config, turn, sequence)
    ensures forall k :: 0 <= k < |turn.packets| ==> !Mentions(config.net, sequence, turn.packets[k].bytes)
  {}

  lemma GoneIfLeft(s: State, r: State, p: ProbeRecord)
    requires Orderly(s) && p in s.probes && p !in r.probes && Later(s, r) && forall q :: q in r.probes ==> q in s.probes
    ensures Gone(r, p.serial)
  {
    GoneIfNotThere(s, r, p);
  }

  /** Nothing has come for the probe, by packet or socket. */
  ghost predicate NothingCame(config: Config, turn: Turn, p: ProbeRecord) {
    Unmentioned(config, turn, p.sequence) && (p.socket == 0 || turn.sockets(p.socket).NotWritable?)
  }

  /** Whether the time the command asked for has passed since the departure, in microseconds. */
  ghost predicate TimeIsUp(p: ProbeRecord, now: Time)
    requires p.param.Some?
  {
    Micros(now) > Micros(p.departureTime) + 1_000_000 * p.param.value.timeout
  }

  lemma ExpiredIffTimeIsUp(p: ProbeRecord, now: Time)
    requires Timed(p) && 0 <= now.usec < 1_000_000 && 0 <= p.departureTime.usec < 1_000_000
    ensures Expired(p, now) <==> TimeIsUp(p, now)
  {
    CompareIsOrder(p.timeoutTime, now);
  }

  /**
   * When nothing came, the probe is reported as unanswered exactly if more time has passed since its
   * departure than its command allowed; otherwise it is still outstanding after the turn.
   */
  lemma TimeoutIsReported(config: Config, turns: seq<Turn>, d: Daemon, turn: Turn, i: nat)
    requires Reached(config, turns, d) && i < |d.net.probes| && NothingCame(config, turn, d.net.probes[i])
    requires 0 <= turn.now.usec < 1_000_000 && 0 <= d.net.probes[i].departureTime.usec < 1_000_000
    ensures var p, after := d.net.probes[i], OneTurn(config, d, turn).net;
            && p.param.Some?
            && (if TimeIsUp(p, turn.now) then Gone(after, p.serial) && SaidSince(d.net, after, NoReply(p.token))
                else p in after.probes)
  {
    var p := d.net.probes[i];
    RunReached(config, turns, d);
    assert p in d.net.probes && Wired(config.net, p);
    ExpiredIffTimeIsUp(p, turn.now);
    VerdictIsSocketLine(p, turn.sockets);
    assert TimeoutVerdict(turn.now)(p) == if TimeIsUp(p, turn.now) then Some(NoReply(p.token)) else None;
    assert SocketVerdict(turn.sockets)(p).None? && Unmentioned(config, turn, p.sequence);
    assert p.param.Some?;
    hide *;
    UnmentionedHere(config, turn, p.sequence);
    UnmentionedStays(config.net, d.net, turn.packets, p);
    TurnHasPhases(config, d, turn);
    var received := ReceiveAll(config.net, d.net, turn.packets);
    var checked := SweepState(received, SocketVerdict(turn.sockets));
    var timed := SweepState(checked, TimeoutVerdict(turn.now));
    SweepingOne(received, SocketVerdict(turn.sockets), p);
    SweepingOne(checked, TimeoutVerdict(turn.now), p);
    if TimeIsUp(p, turn.now) {
      GoneIfLeft(checked, timed, p);
      AnsweredThrough(d.net, received, checked, timed, OneTurn(config, d, turn).net, p.serial, NoReply(p.token));
    } else {
      StaysThrough(timed, OneTurn(config, d, turn).net, p);
    }
  }

  lemma StaysThrough(s: State, r: State, p: ProbeRecord)
    requires OnlyAdds(s, r) && p in s.probes
    ensures p in r.probes
  {}

  /** Over every run, a probe's deadline is its departure plus what its command asked for. */
  lemma DeadlinesAreAsRequested(config: Config, turns: seq<Turn>, d: Daemon, p: ProbeRecord)
    requires Reached(config, turns, d) && p in d.net.probes
    ensures p.param.Some? && p.param.value.commandToken == p.token
    ensures Micros(p.timeoutTime) == Micros(p.departureTime) + 1_000_000 * p.param.value.timeout
  {
    RunReached(config, turns, d);
    assert Wired(config.net, p);
  }

  /** A run with one turn more is the run and then the turn. */
  lemma {:induction false} RunOneMore(config: Config, d: Daemon, turns: seq<Turn>, turn: Turn)
    requires !Exits(d)
    ensures var r := Run(config, d, turns);
            Run(config, d, turns + [turn]) == if Exits(r) then r else OneTurn(config, r, turn)
    decreases |turns|
  {
    hide OneTurn, Exits;
    if turns == [] {
      assert [turn][1..] == [] && turns + [turn] == [turn];
    } else {
      assert (turns + [turn])[0] == turns[0] && (turns + [turn])[1..] == turns[1..] + [turn];
      var after := OneTurn(config, d, turns[0]);
      if !Exits(after) {
        RunOneMore(config, after, turns[1..], turn);
      }
    }
  }

  /** The labels of an answer are those of the extension of the packet, the first eight. */
  lemma LabelsAreTheExtension(config: NetConfig, outer: seq<Byte>, head: seq<Byte>, version: Byte, reserved: Byte, sum: seq<Byte>,
                              before: seq<Object>, ls: seq<Label>, rest: seq<Byte>)
    requires OuterOk(config, outer) && |head| == ICMP_HEADER_SIZE + ORIGINAL_DATAGRAM_SIZE && version / 16 == 2 && |sum| == 2
    requires forall x :: x in before ==> Encodable(x) && !x.IsMpls()
    requires forall l :: l in ls ==> l.Valid()
    requires Encodable(Object(1, 1, EncodeLabels(ls)))
    ensures var extension := [version, reserved] + sum;
            var objects := EncodeObjects(before) + (EncodeObject(Object(1, 1, EncodeLabels(ls))) + rest);
            PacketLabels(config, outer + (head + extension + objects)) == if |ls| <= 8 then ls else ls[..8]
  {
    hide EncodeObjects, EncodeObject, EncodeLabels, LabelsOfMessage, Encodable;
    ExtensionRoundTrip(head, version, reserved, sum, before, ls, rest);
    var message := head + ([version, reserved] + sum)
                   + (EncodeObjects(before) + (EncodeObject(Object(1, 1, EncodeLabels(ls))) + rest));
    assert (outer + message)[OuterSize(config)..] == message;
  }
}
