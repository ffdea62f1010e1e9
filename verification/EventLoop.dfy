/**
 * The main loop of mtr-packet (packet/packet.c) and command dispatch (packet/command.c), over the
 * heap state and the command buffer.  A run of the loop is a run of the machine of module Engine.
 */
module EventLoop {
  import opened CInt
  import opened Text
  import opened TimeVal
  import opened ProbeList
  import opened Framing
  import opened LineBuffers
  import opened CmdParse
  import opened ProbeCommand
  import opened Construct
  import opened Options
  import opened Checksum
  import opened Engine
  import opened NetState

  // ----- what lines can be -----

  /** A line short enough for the buffer, without NULs. */
  predicate LineFits(e: Event) { e.Line? ==> |e.text| <= MAX_LINE && NoNul(e.text) }

  lemma {:induction false} ScannedLinesFit(s: Scanner, input: string)
    requires NoNul(s.partial) && |s.partial| <= MAX_LINE && NoNul(input)
    requires forall i :: 0 <= i < |s.events| ==> LineFits(s.events[i])
    ensures forall i :: 0 <= i < |Scan(s, input).events| ==> LineFits(Scan(s, input).events[i])
    decreases |input|
  {
    if input != "" {
      ScannedLinesFit(Step(s, input[0]), input[1..]);
    }
  }

  /** The probes on the list were there before, or are new. */
  twostate predicate OldOrNew(net: Net, all: seq<ProbeNode>)
    reads net.outstandingProbes
  {
    forall j :: 0 <= j < |net.outstandingProbes.nodes| ==>
      net.outstandingProbes.nodes[j] in all || fresh(net.outstandingProbes.nodes[j])
  }

  // ----- dispatch -----

  /** `find_parameter`. */
  method LookUpParameter(arguments: seq<Argument>, name: string) returns (value: Option<string>)
    ensures value == FindParameter(arguments, name)
  {
    var i := 0;
    while i < |arguments|
      invariant i <= |arguments|
      invariant FindParameter(arguments, name) == FindParameter(arguments[i..], name)
    {
      if arguments[i].name == name {
        return Some(arguments[i].value);
      }
      i := i + 1;
    }
    return None;
  }

  method CheckSupportCommand(net: Net, config: Config, c: Command)
    requires net.Valid()
    modifies net`output
    ensures net.Valid() && net.View() == Say(old(net.View()), Noticed(CheckSupport(config, c)))
  {
    hide List.Valid, RecordsOf, Net.View, Net.Valid, FindParameter;
    var feature := LookUpParameter(c.arguments, "feature");
    if feature.None? {
      net.SayIt(Noticed(FeatureMissing(c.token)));
      return;
    }
    net.SayIt(Noticed(FeatureSupport(c.token, FeatureAnswer(config, feature.value))));
  }

  method DispatchCommand(net: Net, config: Config, c: Command, os: SendOutcome)
    requires net.Valid()
    modifies net, net.outstandingProbes, net.outstandingProbes.nodes
    ensures net.Valid() && net.View() == Engine.DispatchCommand(config, old(net.View()), c, os)
    ensures OldOrNew(net, old(net.outstandingProbes.nodes))
  {
    hide List.Valid, RecordsOf, Requested, Engine.SendProbe, CheckSupport;
    if c.name == "check-support" {
      CheckSupportCommand(net, config, c);
    } else if c.name == "send-probe" {
      var request := PrepareProbe(c, config.support);
      net.BeginDispatch(c.token);
      match request {
        case Refuse(reason) => net.SayIt(RequestRefused(c.token, reason));
        case Send(p) => net.SendProbe(config.net, p, os);
      }
    } else {
      net.SayIt(Noticed(UnknownCommand(c.token)));
    }
  }

  /** Copy the line into a command string of its own, parse it there, dispatch it. */
  method DispatchLine(net: Net, config: Config, text: string, os: SendOutcome)
    requires net.Valid() && |text| <= MAX_LINE && NoNul(text)
    modifies net, net.outstandingProbes, net.outstandingProbes.nodes
    ensures net.Valid() && net.View() == Engine.DispatchEvent(config, old(net.View()), Line(text), os)
    ensures OldOrNew(net, old(net.outstandingProbes.nodes))
  {
    hide List.Valid, RecordsOf, ParseLine, Engine.DispatchCommand, Net.View;
    var fullCommand := new char[BUFFER_SIZE](i => if 0 <= i < |text| then text[i] else NUL);
    assert fullCommand[..|text|] == text;
    var parsed := ParseCommand(fullCommand, text);
    match parsed {
      case Invalid => net.SayIt(Noticed(CommandParseError));
      case Parsed(command) => DispatchCommand(net, config, command, os);
    }
  }

  method DispatchEvents(net: Net, config: Config, events: seq<Event>, sends: nat -> SendOutcome)
    requires net.Valid() && forall i :: 0 <= i < |events| ==> LineFits(events[i])
    modifies net, net.outstandingProbes, net.outstandingProbes.nodes
    ensures net.Valid() && net.View() == DispatchAll(config, old(net.View()), events, sends)
    ensures OldOrNew(net, old(net.outstandingProbes.nodes))
  {
    hide List.Valid, RecordsOf, Engine.DispatchEvent, Net.Valid, Net.View;
    ghost var s0 := net.View();
    var n := 0;
    while n < |events|
      invariant 0 <= n <= |events| && net.Valid()
      invariant net.View() == DispatchAll(config, s0, events[..n], sends)
      invariant OldOrNew(net, old(net.outstandingProbes.nodes))
    {
      assert events[..n + 1][..n] == events[..n];
      match events[n] {
        case Overflow =>
          OverflowIsNoted(config, net.View(), sends(n));
          net.SayIt(Noticed(CommandBufferOverflow));
        case Line(text) => DispatchLine(net, config, text, sends(n));
      }
      n := n + 1;
    }
    assert events[..n] == events;
  }

  lemma OverflowIsNoted(config: Config, s: State, os: SendOutcome)
    ensures Engine.DispatchEvent(config, s, Overflow, os) == Say(s, Noticed(CommandBufferOverflow))
  {}

  // ----- receiving -----

  method ReceivePackets(net: Net, config: NetConfig, packets: seq<Packet>)
    requires net.Valid() && forall i :: 0 <= i < |packets| ==> |packets[i].bytes| <= PACKET_BUFFER_SIZE
    modifies net, net.outstandingProbes, net.outstandingProbes.nodes
    ensures net.Valid() && net.View() == ReceiveAll(config, old(net.View()), packets)
    ensures OldOrNew(net, old(net.outstandingProbes.nodes))
  {
    hide List.Valid, RecordsOf, ReceivePacket, Net.Valid, Net.View;
    ghost var s0 := net.View();
    var n := 0;
    while n < |packets|
      invariant 0 <= n <= |packets| && net.Valid()
      invariant net.View() == ReceiveAll(config, s0, packets[..n])
      invariant OldOrNew(net, old(net.outstandingProbes.nodes))
    {
      assert packets[..n + 1][..n] == packets[..n];
      var bytes := packets[n].bytes;
      var packet := new Byte[PACKET_BUFFER_SIZE](i => if 0 <= i < |bytes| then bytes[i] else 0);
      assert packet[..|bytes|] == bytes;
      net.HandleReceivedIp4Packet(config, packets[n].from, packet, |bytes|, packets[n].received);
      n := n + 1;
    }
    assert packets[..n] == packets;
  }

  // ----- the loop -----

  /**
   * The contracts of `read` and `recvmsg`: between one byte and the space offered, and no more than
   * the packet buffer holds; the stream has no NULs.
   */
  predicate InputFits(d: Daemon, turn: Turn) {
    && (forall i :: 0 <= i < |turn.packets| ==> |turn.packets[i].bytes| <= PACKET_BUFFER_SIZE)
    && (d.open && turn.input.Bytes? ==>
          0 < |turn.input.chunk| <= MAX_LINE + 1 - |d.partial| && NoNul(turn.input.chunk))
  }

  /** The system keeps that contract over a whole run. */
  predicate ReadsFit(config: Config, d: Daemon, turns: seq<Turn>)
    decreases |turns|
  {
    turns == [] ||
    (InputFits(d, turns[0]) &&
     (Exits(OneTurn(config, d, turns[0])) || ReadsFit(config, OneTurn(config, d, turns[0]), turns[1..])))
  }

  /** One turn: receive, read, time out, dispatch. */
  method TakeTurn(config: Config, net: Net, buffer: CommandBuffer, open: bool, turn: Turn) returns (stillOpen: bool)
    requires net.Valid() && buffer.Idle()
    requires InputFits(Daemon(net.View(), buffer.Contents(), open), turn)
    modifies net, net.outstandingProbes, net.outstandingProbes.nodes, buffer, buffer.incomingBuffer
    ensures net.Valid() && buffer.Idle()
    ensures Daemon(net.View(), buffer.Contents(), stillOpen)
         == OneTurn(config, Daemon(old(net.View()), old(buffer.Contents()), open), turn)
    ensures OldOrNew(net, old(net.outstandingProbes.nodes))
  {
    hide List.Valid, RecordsOf, Net.Valid, Net.View, Scan, ReceiveAll, DispatchAll, SweepState;
    ghost var all, before := net.outstandingProbes.nodes, Daemon(net.View(), buffer.Contents(), open);
    ReceivePackets(net, config.net, turn.packets);
    net.ReceiveRepliesFromSockets(turn.sockets);
    stillOpen := open;
    if open {
      var status := buffer.ReadCommands(turn.input);
      if status == -1 {
        stillOpen := false;
      }
    }
    assert buffer.Contents() == before.partial + InputOf(before, turn);
    net.CheckProbeTimeouts(turn.now);
    ScannedLinesFit(START, buffer.Contents());
    var events := buffer.DispatchBufferCommands();
    DispatchEvents(net, config, events, turn.sends);
  }

  /**
   * Run the loop until it exits or the turns are used up.  It exits as soon as the input is
   * closed and nothing is outstanding, and then every command has been answered.
   */
  method MainLoop(config: Config, turns: seq<Turn>) returns (net: Net, ghost end: Daemon, exited: bool)
    requires ReadsFit(config, START_UP, turns)
    ensures net.Valid() && end == Run(config, START_UP, turns) && net.View() == end.net
    ensures exited <==> Exits(end)
  {
    hide List.Valid, RecordsOf, Net.Valid, Net.View, OneTurn;
    net := new Net();
    var buffer := new CommandBuffer();
    var open := true;
    end, exited := START_UP, false;
    var i := 0;
    assert turns[0..] == turns;
    while i < |turns| && !exited
      invariant 0 <= i <= |turns| && net.Valid() && buffer.Idle()
      invariant fresh(net) && fresh(net.outstandingProbes) && fresh(buffer) && fresh(buffer.incomingBuffer)
      invariant forall j :: 0 <= j < |net.outstandingProbes.nodes| ==> fresh(net.outstandingProbes.nodes[j])
      invariant end == Daemon(net.View(), buffer.Contents(), open)
      invariant exited <==> Exits(end)
      invariant Run(config, START_UP, turns) == if exited then end else Run(config, end, turns[i..])
      invariant !exited ==> ReadsFit(config, end, turns[i..])
      decreases |turns| - i
    {
      assert turns[i..][1..] == turns[i + 1..];
      open := TakeTurn(config, net, buffer, open, turns[i]);
      end := OneTurn(config, end, turns[i]);
      i := i + 1;
      net.CountIsKnown();
      if !open {
        if net.outstandingProbeCount == 0 {
          exited := true;
        }
      }
    }
    if !exited {
      assert turns[i..] == [];
    }
  }
}
