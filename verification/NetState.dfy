/**
 * The network state of mtr-packet on the heap (packet/probe.c, packet/probe_unix.c,
 * packet/deconstruct_unix.c).  Every operation refines the state machine of module Engine.
 */
module NetState {
  import opened CInt
  import opened Seqs
  import opened TimeVal
  import opened Sequences
  import opened ProbeList
  import opened ProbeCommand
  import opened Options
  import opened Checksum
  import opened Construct
  import opened Mpls
  import opened ReplyLine
  import opened Recognise
  import opened Engine

  /** The data of a probe; its list links are not part of it. */
  ghost function RecordOf(p: ProbeNode): ProbeRecord
    reads p`serial, p`sequence, p`token, p`remoteAddress, p`socket, p`timeoutTime, p`departureTime, p`param, p`wire
  {
    ProbeRecord(p.serial, p.sequence, p.token, p.remoteAddress, p.socket, p.timeoutTime, p.departureTime, p.param, p.wire)
  }

  ghost function RecordsOf(nodes: seq<ProbeNode>): (r: seq<ProbeRecord>)
    reads nodes`serial, nodes`sequence, nodes`token, nodes`remoteAddress, nodes`socket
    reads nodes`timeoutTime, nodes`departureTime, nodes`param, nodes`wire
    ensures |r| == |nodes|
    ensures forall i :: 0 <= i < |nodes| ==> r[i] == RecordOf(nodes[i])
  {
    if nodes == [] then [] else [RecordOf(nodes[0])] + RecordsOf(nodes[1..])
  }

  lemma RecordsCons(p: ProbeNode, nodes: seq<ProbeNode>)
    ensures RecordsOf([p] + nodes) == [RecordOf(p)] + RecordsOf(nodes)
  {
    assert ([p] + nodes)[1..] == nodes;
  }

  lemma RecordsWithout(nodes: seq<ProbeNode>, k: nat)
    requires k < |nodes|
    ensures RecordsOf(Without(nodes, k)) == Without(RecordsOf(nodes), k)
  {
    WithoutAt(nodes, k);
    WithoutAt(RecordsOf(nodes), k);
  }

  /** A try gives bytes exactly for what WireOf records. */
  lemma TriesBuild(config: NetConfig, p: ProbeParam, os: SendOutcome, t0: Tried)
    ensures var t := Try(config, p, os.system, 0, t0);
            (p.ipVersion == 4 && 0 < t.last.size && !IsStream(p.protocol))
            <==> (p.ipVersion == 4 && t.last.size >= HeaderSpace(config, p))
  {
    hide Try;
    TryBuilds(config, p, os.system, 0, t0);
  }

  /** A sweep that has reached position i: what it kept so far, then the rest of the list. */
  function SweepTo(s: State, verdict: ProbeRecord -> Option<OutputLine>, i: nat): State
    requires i <= |s.probes|
  {
    var swept := Sweep(s.probes[..i], verdict);
    s.(probes := swept.kept + s.probes[i..], output := s.output + swept.lines)
  }

  function KeptTo(s: State, verdict: ProbeRecord -> Option<OutputLine>, i: nat): nat
    requires i <= |s.probes|
  {
    |Sweep(s.probes[..i], verdict).kept|
  }

  lemma SweepBegins(s: State, verdict: ProbeRecord -> Option<OutputLine>)
    ensures SweepTo(s, verdict, 0) == s && KeptTo(s, verdict, 0) == 0
    ensures SweepTo(s, verdict, |s.probes|) == SweepState(s, verdict)
  {
    assert s.probes[..|s.probes|] == s.probes;
    assert Sweep(s.probes, verdict).kept + [] == Sweep(s.probes, verdict).kept;
  }

  /** One step of a sweep keeps the probe it looks at, or retires just that one. */
  lemma SweepSteps(s: State, verdict: ProbeRecord -> Option<OutputLine>, i: nat)
    requires i < |s.probes|
    ensures var here, k, v := SweepTo(s, verdict, i), KeptTo(s, verdict, i), verdict(s.probes[i]);
            && k < |here.probes| && here.probes[k] == s.probes[i]
            && SweepTo(s, verdict, i + 1) == (if v.None? then here else Retire(here, k, v.value))
            && KeptTo(s, verdict, i + 1) == (if v.None? then k + 1 else k)
  {
    var swept, p := Sweep(s.probes[..i], verdict), s.probes[i];
    assert s.probes[..i + 1][..i] == s.probes[..i];
    assert s.probes[i..] == [p] + s.probes[i + 1..];
    if verdict(p).None? {
      assert swept.kept + s.probes[i..] == (swept.kept + [p]) + s.probes[i + 1..];
    } else {
      assert Without(swept.kept + s.probes[i..], |swept.kept|) == swept.kept + s.probes[i + 1..];
    }
  }

  /** A walk over the list `all` of state s0 that has looked at the first i probes and kept k of them. */
  ghost predicate Halfway(s0: State, verdict: ProbeRecord -> Option<OutputLine>, all: seq<ProbeNode>, i: nat,
                          nodes: seq<ProbeNode>, k: nat, here: State) {
    i <= |all| == |s0.probes| && k == KeptTo(s0, verdict, i) && here == SweepTo(s0, verdict, i)
    && Rest(nodes, k, all, i) && Among(nodes, all)
  }

  lemma WalkBegins(s0: State, verdict: ProbeRecord -> Option<OutputLine>, all: seq<ProbeNode>)
    requires |all| == |s0.probes|
    ensures Halfway(s0, verdict, all, 0, all, 0, s0)
  {
    SweepBegins(s0, verdict);
    RestBegins(all);
  }

  lemma WalkAt(s0: State, verdict: ProbeRecord -> Option<OutputLine>, all: seq<ProbeNode>, i: nat,
                                  nodes: seq<ProbeNode>, k: nat, here: State)
    requires Halfway(s0, verdict, all, i, nodes, k, here) && i < |all|
    ensures k < |nodes| && nodes[k] == all[i] && k < |here.probes| && here.probes[k] == s0.probes[i]
    ensures if i + 1 < |all| then k + 1 < |nodes| && nodes[k + 1] == all[i + 1] else k + 1 == |nodes|
  {
    hide Sweep, Rest, SweepTo, KeptTo;
    SweepSteps(s0, verdict, i);
    RestSteps(nodes, k, all, i);
  }

  /** One probe looked at: it stays, or just it is retired. */
  lemma WalkOn(s0: State, verdict: ProbeRecord -> Option<OutputLine>, all: seq<ProbeNode>, i: nat,
                                  nodes: seq<ProbeNode>, k: nat, here: State, nodes': seq<ProbeNode>, here': State)
    requires Halfway(s0, verdict, all, i, nodes, k, here) && i < |all|
    requires k < |nodes| && k < |here.probes|
    requires var v := verdict(s0.probes[i]);
             if v.None? then nodes' == nodes && here' == here
             else nodes' == Without(nodes, k) && here' == Retire(here, k, v.value)
    ensures Halfway(s0, verdict, all, i + 1, nodes', if verdict(s0.probes[i]).None? then k + 1 else k, here')
  {
    hide Sweep, Rest, SweepTo, KeptTo, Without, Retire;
    SweepSteps(s0, verdict, i);
    RestSteps(nodes, k, all, i);
  }

  lemma WalkEnds(s0: State, verdict: ProbeRecord -> Option<OutputLine>, all: seq<ProbeNode>, i: nat,
                                    nodes: seq<ProbeNode>, k: nat, here: State)
    requires Halfway(s0, verdict, all, i, nodes, k, here) && i >= |all|
    ensures here == SweepState(s0, verdict) && Among(nodes, all)
  {
    hide Sweep, Rest;
    SweepBegins(s0, verdict);
  }

  class Net {
    var outstandingProbeCount: int
    const outstandingProbes: List
    var nextSequence: int
    var output: seq<OutputLine>         // what has been written to standard output
    ghost var issued: nat               // sequence numbers issued so far
    ghost var dispatched: seq<int>      // tokens of the send-probe commands dispatched so far

    ghost predicate Valid()
      reads this`outstandingProbeCount, outstandingProbes
      reads outstandingProbes.nodes`next, outstandingProbes.nodes`prev
    {
      outstandingProbes.Valid() && outstandingProbeCount == |outstandingProbes.nodes|
    }

    /** The state of the machine this is an implementation of. */
    ghost function View(): State
      reads this, outstandingProbes`nodes
      reads outstandingProbes.nodes`serial, outstandingProbes.nodes`sequence, outstandingProbes.nodes`token
      reads outstandingProbes.nodes`remoteAddress, outstandingProbes.nodes`socket
      reads outstandingProbes.nodes`timeoutTime, outstandingProbes.nodes`departureTime
      reads outstandingProbes.nodes`param, outstandingProbes.nodes`wire
    {
      State(RecordsOf(outstandingProbes.nodes), nextSequence, issued, dispatched, output)
    }

    constructor ()
      ensures Valid() && View() == INITIAL && fresh(outstandingProbes) && outstandingProbes.nodes == []
    {
      outstandingProbeCount := 0;
      outstandingProbes := new List();
      nextSequence := MIN_PORT;
      output := [];
      issued, dispatched := 0, [];
    }

    lemma ListIsValid()
      requires Valid()
      ensures outstandingProbes.Valid() && |View().probes| == |outstandingProbes.nodes|
    {}

    lemma ViewAt(k: nat)
      requires Valid() && k < |outstandingProbes.nodes|
      ensures k < |View().probes| && View().probes[k] == RecordOf(outstandingProbes.nodes[k])
    {}

    lemma HeadView()
      requires Valid() && outstandingProbes.nodes != []
      ensures var head, tail := RecordOf(outstandingProbes.nodes[0]), RecordsOf(outstandingProbes.nodes[1..]);
              && View().probes == [head] + tail
              && View().probes[0] == head && View().probes[1..] == tail
    {}

    method Print(line: OutputLine)
      modifies this`output
      ensures output == old(output) + [line]
    {
      output := output + [line];
    }

    /** The count is the length of the list. */
    lemma CountIsKnown()
      requires Valid()
      ensures outstandingProbeCount == |View().probes|
    {}

    method SayIt(line: OutputLine)
      requires Valid()
      modifies this`output
      ensures Valid() && View() == Say(old(View()), line)
    {
      Print(line);
    }

    /** A send-probe command has been recognised. */
    method BeginDispatch(token: int)
      requires Valid()
      modifies this`dispatched
      ensures Valid() && View() == Dispatched(old(View()), token)
    {
      dispatched := dispatched + [token];
    }

    /** Give a probe the next sequence number. */
    method TakeSequence(probe: ProbeNode)
      modifies this`nextSequence, this`issued, probe`sequence, probe`serial
      ensures probe.sequence == old(nextSequence) && probe.serial == old(issued)
      ensures nextSequence == NextSequence(old(nextSequence)) && issued == old(issued) + 1
    {
      probe.sequence := nextSequence;
      nextSequence := nextSequence + 1;
      if nextSequence > MAX_PORT {
        nextSequence := MIN_PORT;
      }
      probe.serial, issued := issued, issued + 1;
    }

    /** Allocate and number a probe, and put it at the head of the list. */
    method InsertNewProbe(token: int) returns (probe: ProbeNode)
      requires Valid()
      modifies this, outstandingProbes, outstandingProbes.nodes`prev
      ensures Valid() && fresh(probe)
      ensures outstandingProbes.nodes == [probe] + old(outstandingProbes.nodes)
      ensures View() == Engine.AllocProbe(old(View()), token)
    {
      hide List.Valid, RecordsOf, NextSequence;
      ghost var nodes := outstandingProbes.nodes;
      probe := new ProbeNode(token);
      TakeSequence(probe);
      outstandingProbeCount := outstandingProbeCount + 1;
      outstandingProbes.InsertHead(probe);
      assert RecordsOf(nodes) == old(RecordsOf(outstandingProbes.nodes));
      RecordsCons(probe, nodes);
    }

    method AllocProbe(token: int, allocates: bool) returns (probe: ProbeNode?)
      requires Valid()
      modifies this, outstandingProbes, outstandingProbes.nodes`prev
      ensures Valid()
      ensures probe == null <==> old(outstandingProbeCount) >= MAX_PROBES || !allocates
      ensures probe == null ==> View() == old(View()) && outstandingProbes.nodes == old(outstandingProbes.nodes)
      ensures probe != null ==> fresh(probe) && outstandingProbes.nodes == [probe] + old(outstandingProbes.nodes)
                                && View() == Engine.AllocProbe(old(View()), token)
    {
      hide List.Valid, RecordsOf, Engine.AllocProbe;
      if outstandingProbeCount >= MAX_PROBES {
        return null;
      }
      if !allocates {
        return null;
      }
      probe := InsertNewProbe(token);
    }

    method FreeProbe(probe: ProbeNode, ghost k: nat)
      requires Valid() && k < |outstandingProbes.nodes| && outstandingProbes.nodes[k] == probe
      modifies this`outstandingProbeCount, outstandingProbes,
               outstandingProbes.nodes`next, outstandingProbes.nodes`prev, probe`socket
      ensures Valid()
      ensures outstandingProbes.nodes == Without(old(outstandingProbes.nodes), k)
      ensures View() == old(View()).(probes := Without(old(View()).probes, k))
    {
      hide List.Valid, RecordsOf;
      ghost var rest := Without(outstandingProbes.nodes, k);
      RecordsWithout(outstandingProbes.nodes, k);
      outstandingProbes.OnceOnly(k);
      outstandingProbes.Remove(probe, k);
      outstandingProbeCount := outstandingProbeCount - 1;
      if probe.socket != 0 {
        probe.socket := 0;
      }
      assert probe !in rest;
      assert RecordsOf(rest) == old(RecordsOf(Without(outstandingProbes.nodes, k)));
    }

    /** Answer the command that sent the probe, and forget the probe. */
    method RespondToProbe(probe: ProbeNode, ghost k: nat, response: Response)
      requires Valid() && k < |outstandingProbes.nodes| && outstandingProbes.nodes[k] == probe
      modifies this`outstandingProbeCount, this`output, outstandingProbes,
               outstandingProbes.nodes`next, outstandingProbes.nodes`prev, probe`socket
      ensures Valid()
      ensures outstandingProbes.nodes == Without(old(outstandingProbes.nodes), k)
      ensures View() == Retire(old(View()), k, Answered(response))
    {
      hide List.Valid, RecordsOf, Without;
      Print(Answered(response));
      FreeProbe(probe, k);
    }

    method ReceiveProbe(probe: ProbeNode, ghost k: nat, icmp: IcmpResult, from: Address,
                        timestamp: Time, labels: seq<Label>)
      requires Valid() && k < |outstandingProbes.nodes| && outstandingProbes.nodes[k] == probe
      modifies this`outstandingProbeCount, this`output, outstandingProbes,
               outstandingProbes.nodes`next, outstandingProbes.nodes`prev, probe`socket
      ensures Valid()
      ensures outstandingProbes.nodes == Without(old(outstandingProbes.nodes), k)
      ensures View() == Retire(old(View()), k, Answer(old(View()).probes[k], icmp, from, timestamp, labels))
    {
      var roundTripUs := ((timestamp.sec - probe.departureTime.sec) * 1_000_000
                          + timestamp.usec - probe.departureTime.usec) % 0x1_0000_0000;
      assert roundTripUs == RoundTripUs(timestamp, probe.departureTime);
      RespondToProbe(probe, k, Response(probe.token, icmp, from.ip6, from.text, roundTripUs, labels));
    }

    /** Print a line about the probe and forget it. */
    method RetireProbe(probe: ProbeNode, ghost k: nat, line: OutputLine)
      requires Valid() && k < |outstandingProbes.nodes| && outstandingProbes.nodes[k] == probe
      modifies this`outstandingProbeCount, this`output, outstandingProbes,
               outstandingProbes.nodes`next, outstandingProbes.nodes`prev, probe`socket
      ensures Valid()
      ensures outstandingProbes.nodes == Without(old(outstandingProbes.nodes), k)
      ensures View() == Retire(old(View()), k, line)
    {
      hide List.Valid, RecordsOf, Without;
      Print(line);
      FreeProbe(probe, k);
    }

    /**
     * The retry loop: construct the packet; a stream probe whose port is in use tries again with the
     * next number.
     */
    method TryToConstruct(config: NetConfig, probe: ProbeNode, p: ProbeParam, os: SendOutcome, packet: array<Byte>)
        returns (last: Attempt)
      requires packet.Length == PACKET_BUFFER_SIZE
      modifies this`nextSequence, this`issued, probe`sequence, probe`serial, probe`socket, packet
      ensures Tried(last, probe.sequence, probe.serial, probe.socket, nextSequence, issued)
           == Try(config, p, os.system, 0, Tried(NO_ATTEMPT, old(probe.sequence), old(probe.serial), old(probe.socket),
                                                 old(nextSequence), old(issued)))
      ensures last.size > 0 && p.ipVersion == 4 && !IsStream(p.protocol) ==>
                HeaderSpace(config, p) <= last.size <= PACKET_BUFFER_SIZE
                && packet[..last.size] == ProbePacket(config, probe.sequence, p, os.source, os.dest, last.size)
    {
      hide Constructed, ProbePacket;
      ghost var result := Try(config, p, os.system, 0,
                              Tried(NO_ATTEMPT, probe.sequence, probe.serial, probe.socket, nextSequence, issued));
      last := NO_ATTEMPT;
      var tryTimes := MIN_PORT;
      while tryTimes < MAX_PORT
        invariant MIN_PORT <= tryTimes <= MAX_PORT
        invariant tryTimes < MAX_PORT ==>
                    result == Try(config, p, os.system, tryTimes - MIN_PORT,
                                  Tried(last, probe.sequence, probe.serial, probe.socket, nextSequence, issued))
        invariant tryTimes == MAX_PORT ==>
                    result == Tried(last, probe.sequence, probe.serial, probe.socket, nextSequence, issued)
        invariant last.size <= 0
      {
        last := ConstructPacket(config, probe.sequence, packet, os.source, os.dest, p, os.system(tryTimes - MIN_PORT));
        if last.socket.Some? {
          probe.socket := last.socket.value;
        }
        if last.size > 0 { break; }
        if !IsStream(p.protocol) { break; }
        if last.errno != EADDRINUSE { break; }
        TakeSequence(probe);
        tryTimes := tryTimes + 1;
      }
    }

    /** Fill in the newest probe and try to construct its packet. */
    method Prepare(config: NetConfig, probe: ProbeNode, p: ProbeParam, os: SendOutcome) returns (last: Attempt)
      requires Valid() && outstandingProbes.nodes != [] && outstandingProbes.nodes[0] == probe
      requires probe.socket == 0 && os.resolves.Some?
      modifies this`nextSequence, this`issued, probe`sequence, probe`serial, probe`socket,
               probe`remoteAddress, probe`departureTime, probe`param, probe`wire
      ensures Valid() && View() == AfterTries(config, old(View()), p, os)
      ensures last == TriesFor(config, old(View()), p, os).last
    {
      hide List.Valid, RecordsOf, Try, Without, WireOf;
      ghost var rest := outstandingProbes.nodes[1..];
      ghost var tail := RecordsOf(rest);
      outstandingProbes.HeadOnce();
      HeadView();
      probe.remoteAddress := Address(p.ipVersion == 6, os.resolves.value);
      probe.departureTime := os.departure;
      probe.param := Some(p);
      last := TryAndRecord(config, probe, p, os);
      assert RecordsOf(rest) == tail;
      HeadView();
    }

    /** The tries with the packet buffer, and the packet to be sent kept for the record. */
    method TryAndRecord(config: NetConfig, probe: ProbeNode, p: ProbeParam, os: SendOutcome) returns (last: Attempt)
      requires probe.socket == 0
      modifies this`nextSequence, this`issued, probe`sequence, probe`serial, probe`socket, probe`wire
      ensures var t := Try(config, p, os.system, 0, Tried(NO_ATTEMPT, old(probe.sequence), old(probe.serial), 0,
                                                          old(nextSequence), old(issued)));
              && Tried(last, probe.sequence, probe.serial, probe.socket, nextSequence, issued) == t
              && probe.wire == WireOf(config, p, os, t)
    {
      hide Try, ProbePacket, HeaderSpace;
      ghost var t0 := Tried(NO_ATTEMPT, probe.sequence, probe.serial, 0, nextSequence, issued);
      var packet := new Byte[PACKET_BUFFER_SIZE](_ => 0);
      last := TryToConstruct(config, probe, p, os, packet);
      probe.wire := if p.ipVersion == 4 && 0 < last.size && !IsStream(p.protocol)
        then Some(Wire(p, os.source, os.dest, packet[..last.size])) else None;
      TriesBuild(config, p, os, t0);
    }

    /** From now on the newest probe can expire. */
    method StartTimeout(probe: ProbeNode, timeout: int)
      requires Valid() && outstandingProbes.nodes != [] && outstandingProbes.nodes[0] == probe
      modifies probe`timeoutTime
      ensures Valid()
      ensures var s, head := old(View()), old(View()).probes[0];
              View() == s.(probes := [head.(timeoutTime := Deadline(head.departureTime, timeout))] + s.probes[1..])
    {
      hide List.Valid, RecordsOf, Without;
      ghost var rest := outstandingProbes.nodes[1..];
      ghost var tail := RecordsOf(rest);
      outstandingProbes.HeadOnce();
      HeadView();
      probe.timeoutTime := probe.departureTime;
      probe.timeoutTime := probe.timeoutTime.(sec := probe.timeoutTime.sec + timeout);
      assert RecordsOf(rest) == tail;
      HeadView();
    }

    /** After the tries: report an error, or send the packet and start the timeout. */
    method Settle(probe: ProbeNode, last: Attempt, p: ProbeParam, os: SendOutcome)
      requires Valid() && outstandingProbes.nodes != [] && outstandingProbes.nodes[0] == probe
      modifies this`outstandingProbeCount, this`output, outstandingProbes,
               outstandingProbes.nodes`next, outstandingProbes.nodes`prev, probe`socket, probe`timeoutTime
      ensures Valid()
      ensures old(View()).probes != [] && View() == Engine.Settle(old(View()), last, p, os)
      ensures outstandingProbes.nodes in {old(outstandingProbes.nodes), Without(old(outstandingProbes.nodes), 0)}
    {
      hide List.Valid, Valid, View, RoundTripUs, ReportFor, RecordsOf, Without, Retire;
      ListIsValid();
      ViewAt(0);
      if last.size < 0 {
        if last.errno == ECONNREFUSED {
          ReceiveProbe(probe, 0, EchoReply, probe.remoteAddress, os.now, []);
        } else {
          RetireProbe(probe, 0, SendFailed(probe.token, ReportFor(last.errno)));
        }
        return;
      }
      if last.size > 0 {
        if os.sendError.Some? {
          RetireProbe(probe, 0, SendFailed(probe.token, ReportFor(os.sendError.value)));
          return;
        }
      }
      StartTimeout(probe, p.timeout);
    }

    method SendProbe(config: NetConfig, p: ProbeParam, os: SendOutcome)
      requires Valid()
      modifies this, outstandingProbes, outstandingProbes.nodes`next, outstandingProbes.nodes`prev
      ensures Valid() && View() == Engine.SendProbe(config, old(View()), p, os)
      ensures forall j :: 0 <= j < |outstandingProbes.nodes| ==>
                outstandingProbes.nodes[j] in old(outstandingProbes.nodes) || fresh(outstandingProbes.nodes[j])
    {
      hide List.Valid, Engine.Settle, RecordsOf, AfterTries, TriesFor, Without, View;
      CountIsKnown();
      var probe := AllocProbe(p.commandToken, os.allocates);
      if probe == null {
        SayIt(ProbesExhausted(p.commandToken));
        return;
      }
      ListIsValid();
      ViewAt(0);
      if os.resolves.None? {
        RetireProbe(probe, 0, BadAddress(p.commandToken));
        WithoutHead(probe, old(outstandingProbes.nodes));
        return;
      }
      var last := Prepare(config, probe, p, os);
      Settle(probe, last, p, os);
      WithoutHead(probe, old(outstandingProbes.nodes));
    }

    /** Report a no-reply for every probe past its deadline; the others stay, in their order. */
    method CheckProbeTimeouts(now: Time)
      requires Valid()
      modifies this`outstandingProbeCount, this`output, outstandingProbes
      modifies outstandingProbes.nodes`next, outstandingProbes.nodes`prev, outstandingProbes.nodes`socket
      ensures Valid() && View() == SweepState(old(View()), TimeoutVerdict(now))
      ensures Among(outstandingProbes.nodes, old(outstandingProbes.nodes))
    {
      hide List.Valid, Valid, View, RecordsOf, Sweep, SweepTo, KeptTo, Without, Retire, Rest, Halfway, SweepState;
      ghost var all, s0, verdict := outstandingProbes.nodes, View(), TimeoutVerdict(now);
      ghost var i, k := 0, 0;
      ListIsValid();
      WalkBegins(s0, verdict, all);
      AllAmong(all);
      var probe := outstandingProbes.first;
      outstandingProbes.FirstIs();
      while probe != null
        invariant Valid() && i <= |all| && Among(outstandingProbes.nodes, all)
        invariant Halfway(s0, verdict, all, i, outstandingProbes.nodes, k, View())
        invariant probe == if i < |all| then all[i] else null
        decreases |all| - i
      {
        ghost var nodes, here := outstandingProbes.nodes, View();
        WalkAt(s0, verdict, all, i, nodes, k, here);
        ListIsValid();
        ViewAt(k);
        outstandingProbes.NextIs(k);
        var safeNext := probe.next;
        if CompareTimeval(probe.timeoutTime, now) < 0 {
          RetireProbe(probe, k, NoReply(probe.token));
        }
        WalkOn(s0, verdict, all, i, nodes, k, here, outstandingProbes.nodes, View());
        AmongAfter(all, nodes, k);
        if verdict(s0.probes[i]).None? {
          k := k + 1;
        }
        probe := safeNext;
        i := i + 1;
      }
      WalkEnds(s0, verdict, all, i, outstandingProbes.nodes, k, View());
    }

    /** Look at the socket of one stream probe; the connection attempt may have been decided. */
    method ReceiveRepliesFromProbeSocket(probe: ProbeNode, ghost k: nat, status: int -> SocketStatus)
        returns (retired: bool)
      requires Valid() && k < |outstandingProbes.nodes| && outstandingProbes.nodes[k] == probe
      modifies this`outstandingProbeCount, this`output, outstandingProbes,
               outstandingProbes.nodes`next, outstandingProbes.nodes`prev, probe`socket
      ensures Valid() && k < |old(View()).probes|
      ensures var v := SocketVerdict(status)(old(View()).probes[k]);
              && retired == v.Some?
              && View() == (if v.None? then old(View()) else Retire(old(View()), k, v.value))
      ensures outstandingProbes.nodes ==
                if retired then Without(old(outstandingProbes.nodes), k) else old(outstandingProbes.nodes)
    {
      hide List.Valid, Valid, View, RoundTripUs, ReportFor, RecordsOf, Without, Retire;
      ListIsValid();
      ViewAt(k);
      if probe.socket == 0 {
        return false;
      }
      match status(probe.socket) {
        case NotWritable =>
          return false;
        case Connected(now) =>
          ReceiveProbe(probe, k, EchoReply, probe.remoteAddress, now, []);
        case Failed(err, now) =>
          if err == ECONNREFUSED {
            ReceiveProbe(probe, k, EchoReply, probe.remoteAddress, now, []);
          } else {
            RetireProbe(probe, k, SendFailed(probe.token, ReportFor(err)));
          }
      }
      retired := true;
    }

    /** Visit every outstanding probe once, though any of them may leave while it is visited. */
    method ReceiveRepliesFromSockets(status: int -> SocketStatus)
      requires Valid()
      modifies this`outstandingProbeCount, this`output, outstandingProbes
      modifies outstandingProbes.nodes`next, outstandingProbes.nodes`prev, outstandingProbes.nodes`socket
      ensures Valid() && View() == SweepState(old(View()), SocketVerdict(status))
      ensures Among(outstandingProbes.nodes, old(outstandingProbes.nodes))
    {
      hide *;
      ghost var all, s0, verdict := outstandingProbes.nodes, View(), SocketVerdict(status);
      ghost var i, k := 0, 0;
      ListIsValid();
      WalkBegins(s0, verdict, all);
      AllAmong(all);
      var probe := outstandingProbes.first;
      outstandingProbes.FirstIs();
      while probe != null
        invariant Valid() && i <= |all| && Among(outstandingProbes.nodes, all)
        invariant Halfway(s0, verdict, all, i, outstandingProbes.nodes, k, View())
        invariant probe == if i < |all| then all[i] else null
        decreases |all| - i
      {
        ghost var nodes, here := outstandingProbes.nodes, View();
        WalkAt(s0, verdict, all, i, nodes, k, here);
        ListIsValid();
        outstandingProbes.NextIs(k);
        var safeNext := probe.next;
        AmongMeans(outstandingProbes.nodes, all);
        var retired := ReceiveRepliesFromProbeSocket(probe, k, status);
        WalkOn(s0, verdict, all, i, nodes, k, here, outstandingProbes.nodes, View());
        AmongAfter(all, nodes, k);
        if verdict(s0.probes[i]).None? {
          k := k + 1;
        }
        probe := safeNext;
        i := i + 1;
      }
      WalkEnds(s0, verdict, all, i, outstandingProbes.nodes, k, View());
    }

    /** LIST_FOREACH over the outstanding probes, comparing raw 16-bit values. */
    method FindProbe(pid: int, protocol: int, id: RawWord, sequence: RawWord) returns (probe: ProbeNode?, ghost k: nat)
      requires Valid()
      ensures probe == null <==>
                Recognise.FindProbe(pid, SequencesOf(View().probes), protocol, id, sequence).None?
      ensures probe != null ==>
                k < |outstandingProbes.nodes| && probe == outstandingProbes.nodes[k]
                && Recognise.FindProbe(pid, SequencesOf(View().probes), protocol, id, sequence) == Some(k)
    {
      hide List.Valid, RecordsOf, Htons, FindSequence;
      k := 0;
      if protocol == IPPROTO_ICMP {
        if id != Htons(pid) {
          return null, 0;
        }
      }
      ghost var nodes, sequences := outstandingProbes.nodes, SequencesOf(View().probes);
      probe := outstandingProbes.first;
      outstandingProbes.FirstIs();
      while probe != null
        invariant k <= |nodes| && probe == if k < |nodes| then nodes[k] else null
        invariant forall i :: 0 <= i < k ==> Htons(sequences[i]) != sequence
        decreases |nodes| - k
      {
        ViewAt(k);
        if Htons(probe.sequence) == sequence {
          FoundFirst(sequences, sequence, k);
          return;
        }
        outstandingProbes.NextIs(k);
        probe, k := probe.next, k + 1;
      }
      FindsTheFirst(sequences, sequence);
    }

    /** Retire the probe that was found, if one was. */
    method ReceiveFound(probe: ProbeNode?, ghost k: nat, icmp: IcmpResult, from: string, timestamp: Time,
                        labels: seq<Label>)
      requires Valid()
      requires probe != null ==> k < |outstandingProbes.nodes| && outstandingProbes.nodes[k] == probe
      modifies this`outstandingProbeCount, this`output, outstandingProbes
      modifies outstandingProbes.nodes`next, outstandingProbes.nodes`prev, outstandingProbes.nodes`socket
      ensures Valid() && Among(outstandingProbes.nodes, old(outstandingProbes.nodes))
      ensures |old(View()).probes| == |old(outstandingProbes.nodes)|
      ensures View() == Engine.ReceiveProbe(old(View()), if probe == null then None else Some(k),
                                            icmp, from, timestamp, labels)
    {
      hide List.Valid, Valid, View, RecordsOf, Without, Retire;
      ListIsValid();
      RestBegins(outstandingProbes.nodes);
      if probe != null {
        AllAmong(outstandingProbes.nodes);
        AmongAfter(outstandingProbes.nodes, outstandingProbes.nodes, k);
        ReceiveProbe(probe, k, icmp, Address(false, from), timestamp, labels);
      }
    }

    method FindAndReceiveProbe(pid: int, from: string, timestamp: Time, icmp: IcmpResult,
                               protocol: int, id: RawWord, sequence: RawWord, labels: seq<Label>)
      requires Valid()
      modifies this`outstandingProbeCount, this`output, outstandingProbes
      modifies outstandingProbes.nodes`next, outstandingProbes.nodes`prev, outstandingProbes.nodes`socket
      ensures Valid() && Among(outstandingProbes.nodes, old(outstandingProbes.nodes))
      ensures View() == Engine.ReceiveProbe(old(View()),
                          Recognise.FindProbe(pid, SequencesOf(old(View()).probes), protocol, id, sequence),
                          icmp, from, timestamp, labels)
    {
      hide List.Valid, Valid, View, RecordsOf, Recognise.FindProbe, Engine.ReceiveProbe;
      var probe, k := FindProbe(pid, protocol, id, sequence);
      ReceiveFound(probe, k, icmp, from, timestamp, labels);
    }

    method HandleInnerUdpPacket(pid: int, from: string, icmp: IcmpResult, packet: array<Byte>, udp: nat, end: nat,
                                timestamp: Time, labels: seq<Label>)
      requires Valid() && udp + 8 <= end <= packet.Length
      modifies this`outstandingProbeCount, this`output, outstandingProbes
      modifies outstandingProbes.nodes`next, outstandingProbes.nodes`prev, outstandingProbes.nodes`socket
      ensures Valid() && Among(outstandingProbes.nodes, old(outstandingProbes.nodes))
      ensures View() == Engine.ReceiveProbe(old(View()),
                          SelectUdp(pid, SequencesOf(old(View()).probes), packet[udp..end]),
                          icmp, from, timestamp, labels)
    {
      hide List.Valid, Valid, View, RecordsOf, Recognise.FindProbe, Engine.ReceiveProbe;
      ghost var bytes := packet[udp..end];
      assert Field(bytes, 0) == RawWord(packet[udp], packet[udp + 1]);
      assert Field(bytes, 2) == RawWord(packet[udp + 2], packet[udp + 3]);
      assert Field(bytes, 6) == RawWord(packet[udp + 6], packet[udp + 7]);
      var probe, k := FindProbe(pid, IPPROTO_UDP, NO_ID, RawWord(packet[udp + 2], packet[udp + 3]));
      if probe == null {
        probe, k := FindProbe(pid, IPPROTO_UDP, NO_ID, RawWord(packet[udp], packet[udp + 1]));
      }
      if probe == null {
        probe, k := FindProbe(pid, IPPROTO_UDP, NO_ID, RawWord(packet[udp + 6], packet[udp + 7]));
      }
      ReceiveFound(probe, k, icmp, from, timestamp, labels);
    }

    /** The IP packet embedded in an ICMP error, from `ip` up to `end`. */
    method HandleInnerIp4Packet(pid: int, from: string, icmp: IcmpResult, packet: array<Byte>, ip: nat, end: nat,
                                timestamp: Time, labels: seq<Label>)
      requires Valid() && ip <= end <= packet.Length && ip + 20 <= packet.Length
      modifies this`outstandingProbeCount, this`output, outstandingProbes
      modifies outstandingProbes.nodes`next, outstandingProbes.nodes`prev, outstandingProbes.nodes`socket
      ensures Valid() && Among(outstandingProbes.nodes, old(outstandingProbes.nodes))
      ensures View() == Engine.ReceiveProbe(old(View()),
                          SelectInner(pid, SequencesOf(old(View()).probes), packet[ip..end]),
                          icmp, from, timestamp, labels)
    {
      hide List.Valid, Valid, View, RecordsOf, Recognise.FindProbe, Engine.ReceiveProbe, SelectUdp, SelectInner, Field;
      ghost var s0 := View();
      var packetLength := end - ip;
      ghost var inner := packet[ip..end];
      if packetLength >= 28 {
        InnerFields(packet[..], ip, end);
      }
      SelectInnerCases(pid, SequencesOf(s0.probes), inner);
      NothingReceived(s0, icmp, from, timestamp, labels);
      RestBegins(outstandingProbes.nodes);
      if packet[ip + 9] == IPPROTO_ICMP {
        if packetLength < 28 { return; }
        FindAndReceiveProbe(pid, from, timestamp, icmp, IPPROTO_ICMP,
                            RawWord(packet[ip + 24], packet[ip + 25]), RawWord(packet[ip + 26], packet[ip + 27]), labels);
      } else if packet[ip + 9] == IPPROTO_UDP {
        if packetLength < 28 { return; }
        HandleInnerUdpPacket(pid, from, icmp, packet, ip + 20, end, timestamp, labels);
      } else if packet[ip + 9] == IPPROTO_TCP {
        if packetLength < 28 { return; }
        FindAndReceiveProbe(pid, from, timestamp, icmp, IPPROTO_TCP, NO_ID,
                            RawWord(packet[ip + 20], packet[ip + 21]), labels);
      } else if packet[ip + 9] == IPPROTO_SCTP {
        if packetLength < 28 { return; }
        FindAndReceiveProbe(pid, from, timestamp, icmp, IPPROTO_SCTP, NO_ID,
                            RawWord(packet[ip + 20], packet[ip + 21]), labels);
      }
    }

    /** A packet from the ICMP socket; a raw socket includes the outer IP header. */
    method HandleReceivedIp4Packet(config: NetConfig, from: string, packet: array<Byte>, packetLength: nat, timestamp: Time)
      requires Valid() && packetLength <= packet.Length && 28 <= packet.Length
      modifies this`outstandingProbeCount, this`output, outstandingProbes
      modifies outstandingProbes.nodes`next, outstandingProbes.nodes`prev, outstandingProbes.nodes`socket
      ensures Valid() && Among(outstandingProbes.nodes, old(outstandingProbes.nodes))
      ensures View() == Engine.ReceivePacket(config, old(View()), Packet(packet[..packetLength], from, timestamp))
    {
      hide List.Valid, Valid, View, RecordsOf, Recognise.FindProbe, SelectInner, LabelsOfMessage;
      ghost var bytes, s0 := packet[..packetLength], View();
      RestBegins(outstandingProbes.nodes);
      var ipIcmpSize := 0;
      if config.ip4Raw {
        ipIcmpSize := ipIcmpSize + IP_HEADER_SIZE;
      }
      ipIcmpSize := ipIcmpSize + ICMP_HEADER_SIZE;
      if packetLength < ipIcmpSize {
        return;
      }
      var icmp, icmpLength;
      if config.ip4Raw {
        if packet[9] != IPPROTO_ICMP {
          return;
        }
        icmp := IP_HEADER_SIZE;
        icmpLength := packetLength - IP_HEADER_SIZE;
      } else {
        icmp := 0;
        icmpLength := packetLength;
      }
      assert bytes[icmp..] == packet[icmp..icmp + icmpLength];
      HandleReceivedIcmp4Packet(config, from, packet, icmp, icmpLength, timestamp);
    }

    /** The ICMP message at `icmp`: an echo reply, or an error quoting one of our probes. */
    method HandleReceivedIcmp4Packet(config: NetConfig, from: string, packet: array<Byte>, icmp: nat, packetLength: nat,
                                     timestamp: Time)
      requires Valid() && 8 <= packetLength && icmp + packetLength <= packet.Length
      requires !config.ip4Raw ==> icmp + 28 <= packet.Length
      modifies this`outstandingProbeCount, this`output, outstandingProbes
      modifies outstandingProbes.nodes`next, outstandingProbes.nodes`prev, outstandingProbes.nodes`socket
      ensures Valid() && Among(outstandingProbes.nodes, old(outstandingProbes.nodes))
      ensures var message := packet[icmp..icmp + packetLength];
              View() == ReceiveIcmp(config, old(View()), message, from, timestamp, LabelsOfMessage(message, MAX_MPLS_LABELS))
    {
      hide List.Valid, Valid, View, RecordsOf, Recognise.FindProbe, SelectInner, LabelsOfMessage, Engine.ReceiveProbe,
           ReceiveIcmp, Field;
      ghost var message, s0 := packet[icmp..icmp + packetLength], View();
      assert message[0] == packet[icmp] && message[1] == packet[icmp + 1];
      var mpls := new Label[MAX_MPLS_LABELS](_ => Label(0, 0, 0, 0));
      var mplsCount := DecodeMplsLabels(packet, icmp, packetLength, mpls, MAX_MPLS_LABELS);
      var labels := mpls[..mplsCount];
      RestBegins(outstandingProbes.nodes);
      ReceiveIcmpCases(config, s0, message, from, timestamp, labels);
      IcmpFields(packet[..], icmp, icmp + packetLength);
      if packet[icmp] == ICMP_ECHOREPLY {
        FindAndReceiveProbe(config.pid, from, timestamp, EchoReply, IPPROTO_ICMP,
                            RawWord(packet[icmp + 4], packet[icmp + 5]), RawWord(packet[icmp + 6], packet[icmp + 7]), labels);
      }
      if packetLength < OuterSize(config) + ICMP_HEADER_SIZE {
        return;
      }
      assert message[8..] == packet[icmp + 8..icmp + packetLength];
      if packet[icmp] == ICMP_TIME_EXCEEDED {
        HandleInnerIp4Packet(config.pid, from, TimeExceeded, packet, icmp + 8, icmp + packetLength, timestamp, labels);
      }
      if packet[icmp] == ICMP_DEST_UNREACH {
        if packet[icmp + 1] == ICMP_PORT_UNREACH {
          HandleInnerIp4Packet(config.pid, from, EchoReply, packet, icmp + 8, icmp + packetLength, timestamp, labels);
        } else {
          HandleInnerIp4Packet(config.pid, from, DestUnreach, packet, icmp + 8, icmp + packetLength, timestamp, labels);
        }
      }
    }

    /** How long until the next deadline; `found` is false when nothing is outstanding. */
    method GetNextProbeTimeout(now: Time) returns (found: bool, timeout: Time)
      requires Valid()
      ensures found <==> View().probes != []
      ensures found ==> Normalized(timeout)
      ensures found ==> forall p :: p in View().probes ==>
                          Micros(timeout) <= Max(0, Micros(p.timeoutTime) - Micros(now))
      ensures found ==> (exists p :: p in View().probes &&
                                     Micros(timeout) == Max(0, Micros(p.timeoutTime) - Micros(now)))
    {
      hide List.Valid, RecordsOf;
      found, timeout := false, Time(0, 0);
      ghost var nodes, probes := outstandingProbes.nodes, View().probes;
      ghost var k := 0;
      var probe := outstandingProbes.first;
      outstandingProbes.FirstIs();
      while probe != null
        invariant k <= |nodes| && probe == (if k < |nodes| then nodes[k] else null)
        invariant found <==> k > 0
        invariant found ==> Normalized(timeout)
        invariant forall i :: 0 <= i < k ==>
                    Micros(timeout) <= Max(0, Micros(probes[i].timeoutTime) - Micros(now))
        invariant found ==> (exists i :: 0 <= i < k &&
                                         Micros(timeout) == Max(0, Micros(probes[i].timeoutTime) - Micros(now)))
        decreases |nodes| - k
      {
        ViewAt(k);
        var probeTimeout := Time(probe.timeoutTime.sec - now.sec, probe.timeoutTime.usec - now.usec);
        assert Micros(probeTimeout) == Micros(probes[k].timeoutTime) - Micros(now);
        probeTimeout := NormalizeTimeval(probeTimeout);
        if found {
          CompareIsOrder(probeTimeout, timeout);
          if CompareTimeval(probeTimeout, timeout) < 0 {
            timeout := probeTimeout;
          }
        } else {
          timeout := probeTimeout;
          found := true;
        }
        outstandingProbes.NextIs(k);
        probe, k := probe.next, k + 1;
      }
      hide *;
      LeastOverAll(probes, now, timeout, k, found);
    }
  }

  lemma LeastOverAll(probes: seq<ProbeRecord>, now: Time, timeout: Time, k: nat, found: bool)
    requires k == |probes| && (found <==> k > 0)
    requires forall i :: 0 <= i < k ==> Micros(timeout) <= Max(0, Micros(probes[i].timeoutTime) - Micros(now))
    requires found ==> (exists i :: 0 <= i < k && Micros(timeout) == Max(0, Micros(probes[i].timeoutTime) - Micros(now)))
    ensures found <==> probes != []
    ensures found ==> forall p :: p in probes ==> Micros(timeout) <= Max(0, Micros(p.timeoutTime) - Micros(now))
    ensures found ==> (exists p :: p in probes && Micros(timeout) == Max(0, Micros(p.timeoutTime) - Micros(now)))
  {
    hide Micros, Max;
    if found {
      var i :| 0 <= i < k && Micros(timeout) == Max(0, Micros(probes[i].timeoutTime) - Micros(now));
      assert probes[i] in probes;
    }
  }

  /** While the time to the next deadline is positive, no probe is past its deadline. */
  lemma NoneExpiredBefore(s: State, now: Time, timeout: Time)
    requires 0 <= now.usec < MICROS && forall p :: p in s.probes ==> 0 <= p.timeoutTime.usec < MICROS
    requires forall p :: p in s.probes ==> Micros(timeout) <= Max(0, Micros(p.timeoutTime) - Micros(now))
    requires Micros(timeout) > 0
    ensures forall p :: p in s.probes ==> !Expired(p, now)
    ensures SweepState(s, TimeoutVerdict(now)) == s
  {
    forall p | p in s.probes
      ensures !Expired(p, now)
    {
      CompareIsOrder(p.timeoutTime, now);
    }
    NothingToSweep(s.probes, TimeoutVerdict(now));
  }

  lemma {:induction false} NothingToSweep(probes: seq<ProbeRecord>, verdict: ProbeRecord -> Option<OutputLine>)
    requires forall p :: p in probes ==> verdict(p).None?
    ensures Sweep(probes, verdict) == Swept(probes, [])
    decreases |probes|
  {
    if probes != [] {
      NothingToSweep(probes[..|probes| - 1], verdict);
    }
  }

  /** Every one of these probes is one of those. */
  ghost predicate Among(nodes: seq<ProbeNode>, all: seq<ProbeNode>) {
    forall j :: 0 <= j < |nodes| ==> nodes[j] in all
  }

  lemma AmongMeans(nodes: seq<ProbeNode>, all: seq<ProbeNode>)
    requires Among(nodes, all)
    ensures forall j :: 0 <= j < |nodes| ==> nodes[j] in all
  {}

  lemma AllAmong(all: seq<ProbeNode>)
    ensures Among(all, all)
  {}

  lemma AmongAfter(all: seq<ProbeNode>, nodes: seq<ProbeNode>, k: nat)
    requires k < |nodes| && Among(nodes, all)
    ensures Among(Without(nodes, k), all)
  {
    WithoutAt(nodes, k);
  }

  /** A walk that stands at position i of the original list stands at position k of the current one. */
  ghost predicate Rest(nodes: seq<ProbeNode>, k: nat, all: seq<ProbeNode>, i: nat) {
    k <= |nodes| && i <= |all| && nodes[k..] == all[i..]
  }

  lemma NothingReceived(s: State, icmp: IcmpResult, from: string, timestamp: Time, labels: seq<Label>)
    ensures Engine.ReceiveProbe(s, None, icmp, from, timestamp, labels) == s
  {}

  lemma IcmpFields(packet: seq<Byte>, icmp: nat, end: nat)
    requires icmp + 8 <= end <= |packet|
    ensures Field(packet[icmp..end], 4) == RawWord(packet[icmp + 4], packet[icmp + 5])
    ensures Field(packet[icmp..end], 6) == RawWord(packet[icmp + 6], packet[icmp + 7])
  {}

  /** What an ICMP message does, by its type and code. */
  lemma ReceiveIcmpCases(config: NetConfig, s: State, message: seq<Byte>, from: string, received: Time, labels: seq<Label>)
    requires |message| >= 8
    ensures var sequences, r := SequencesOf(s.probes), ReceiveIcmp(config, s, message, from, received, labels);
            if message[0] == ICMP_ECHOREPLY then
              r == Engine.ReceiveProbe(s, Recognise.FindProbe(config.pid, sequences, IPPROTO_ICMP, Field(message, 4), Field(message, 6)),
                                       EchoReply, from, received, labels)
            else if |message| < OuterSize(config) + ICMP_HEADER_SIZE then r == s
            else if message[0] == ICMP_TIME_EXCEEDED then
              r == Engine.ReceiveProbe(s, SelectInner(config.pid, sequences, message[8..]), TimeExceeded, from, received, labels)
            else if message[0] == ICMP_DEST_UNREACH then
              r == Engine.ReceiveProbe(s, SelectInner(config.pid, sequences, message[8..]),
                                       if message[1] == ICMP_PORT_UNREACH then EchoReply else DestUnreach, from, received, labels)
            else r == s
  {
    hide Recognise.FindProbe, SelectInner, Field, Answer;
  }

  lemma InnerFields(packet: seq<Byte>, ip: nat, end: nat)
    requires ip + 28 <= end <= |packet|
    ensures var inner := packet[ip..end];
            && inner[9] == packet[ip + 9] && inner[20..] == packet[ip + 20..end]
            && Field(inner, 20) == RawWord(packet[ip + 20], packet[ip + 21])
            && Field(inner, 24) == RawWord(packet[ip + 24], packet[ip + 25])
            && Field(inner, 26) == RawWord(packet[ip + 26], packet[ip + 27])
  {}

  lemma SelectInnerCases(pid: int, sequences: seq<int>, inner: seq<Byte>)
    ensures |inner| < 28 ==> SelectInner(pid, sequences, inner) == None
    ensures |inner| >= 28 ==>
              var protocol, r := inner[9], SelectInner(pid, sequences, inner);
              if protocol !in {IPPROTO_ICMP, IPPROTO_UDP, IPPROTO_TCP, IPPROTO_SCTP} then r == None
              else if protocol == IPPROTO_ICMP then
                r == Recognise.FindProbe(pid, sequences, IPPROTO_ICMP, Field(inner, 24), Field(inner, 26))
              else if protocol == IPPROTO_UDP then r == SelectUdp(pid, sequences, inner[20..])
              else r == Recognise.FindProbe(pid, sequences, protocol, NO_ID, Field(inner, 20))
  {}

  lemma FoundFirst(sequences: seq<int>, raw: RawWord, k: nat)
    requires k < |sequences| && Htons(sequences[k]) == raw
    requires forall i :: 0 <= i < k ==> Htons(sequences[i]) != raw
    ensures FindSequence(sequences, raw) == Some(k)
  {
    hide FindSequence, Htons;
    FindsTheFirst(sequences, raw);
    var r := FindSequence(sequences, raw);
    assert r.Some?;
    assert !(r.value < k) && !(k < r.value);
  }

  lemma WithoutHead(p: ProbeNode, nodes: seq<ProbeNode>)
    ensures Without([p] + nodes, 0) == nodes
  {}

  lemma RestBegins(all: seq<ProbeNode>)
    ensures Rest(all, 0, all, 0) && Among(all, all)
  {}

  lemma RestSteps(nodes: seq<ProbeNode>, k: nat, all: seq<ProbeNode>, i: nat)
    requires Rest(nodes, k, all, i) && i < |all| && Among(nodes, all)
    ensures k < |nodes| && nodes[k] == all[i] && nodes[k] in all
    ensures if i + 1 < |all| then k + 1 < |nodes| && nodes[k + 1] == all[i + 1] else k + 1 == |nodes|
    ensures Rest(nodes, k + 1, all, i + 1)
    ensures Rest(Without(nodes, k), k, all, i + 1) && Among(Without(nodes, k), all)
  {
    assert nodes[k] == nodes[k..][0] && all[i] == all[i..][0];
    assert nodes[k + 1..] == nodes[k..][1..] && all[i + 1..] == all[i..][1..];
    if i + 1 < |all| {
      assert nodes[k + 1] == nodes[k..][1] && all[i + 1] == all[i..][1];
    }
    assert Without(nodes, k)[k..] == nodes[k + 1..];
    WithoutAt(nodes, k);
  }
}
