/**
 * Every line of the input is served, over every run and however it was read: a probe command is taken
 * up under its token, and anything else gets its notice, in order.
 */
module InputTheorems {
  import opened CInt
  import opened Text
  import opened Seqs
  import opened TimeVal
  import opened Framing
  import opened LineBuffers
  import opened CmdParse
  import opened ProbeCommand
  import opened Options
  import opened Construct
  import opened Mpls
  import opened ReplyLine
  import opened Recognise
  import opened Engine
  import opened EngineTheorems

  /** What was read from the pipe, up to its end. */
  function InputRead(open: bool, turns: seq<Turn>): string
    decreases |turns|
  {
    if turns == [] || !open || turns[0].input.Closed? then ""
    else (if turns[0].input.Bytes? then turns[0].input.chunk else "") + InputRead(true, turns[1..])
  }

  /** The token of a line that is a probe command. */
  function CommandToken(e: Event): Option<int> {
    if e.Line? && ParseLine(e.text).Parsed? && ParseLine(e.text).command.name == "send-probe"
    then Some(ParseLine(e.text).command.token) else None
  }

  function SendTokens(events: seq<Event>): seq<int> {
    if events == [] then []
    else
      var t := CommandToken(events[|events| - 1]);
      SendTokens(events[..|events| - 1]) + if t.Some? then [t.value] else []
  }

  /** What is said about an event that is no probe command. */
  function NoticeFor(config: Config, e: Event): Option<Notice> {
    match e
    case Overflow => Some(CommandBufferOverflow)
    case Line(text) =>
      match ParseLine(text)
      case Invalid => Some(CommandParseError)
      case Parsed(c) =>
        if c.name == "send-probe" then None
        else if c.name == "check-support" then
          var feature := FindParameter(c.arguments, "feature");
          Some(if feature.None? then FeatureMissing(c.token) else FeatureSupport(c.token, FeatureAnswer(config, feature.value)))
        else Some(UnknownCommand(c.token))
  }

  function NoticesFor(config: Config, events: seq<Event>): seq<Notice> {
    if events == [] then []
    else
      var n := NoticeFor(config, events[|events| - 1]);
      NoticesFor(config, events[..|events| - 1]) + if n.Some? then [n.value] else []
  }

  function NoticesIn(lines: seq<OutputLine>): seq<Notice> {
    if lines == [] then []
    else
      var l := lines[|lines| - 1];
      NoticesIn(lines[..|lines| - 1]) + if l.Noticed? then [l.notice] else []
  }

  lemma NoticesOneMore(lines: seq<OutputLine>, l: OutputLine)
    ensures NoticesIn(lines + [l]) == NoticesIn(lines) + if l.Noticed? then [l.notice] else []
  {
    assert (lines + [l])[..|lines|] == lines;
  }

  lemma {:induction false} NoneNoticed(a: seq<OutputLine>, b: seq<OutputLine>)
    requires forall l :: l in b ==> !l.Noticed?
    ensures NoticesIn(a + b) == NoticesIn(a)
    decreases |b|
  {
    if b == [] {
      assert a + b == a;
    } else {
      var n := |b| - 1;
      NoneNoticed(a, b[..n]);
      NoticesOneMore(a + b[..n], b[n]);
      assert a + b == a + b[..n] + [b[n]] && b[n] in b;
    }
  }

  lemma {:induction false} ServedAppend(config: Config, a: seq<Event>, b: seq<Event>)
    ensures SendTokens(a + b) == SendTokens(a) + SendTokens(b)
    ensures NoticesFor(config, a + b) == NoticesFor(config, a) + NoticesFor(config, b)
    decreases |b|
  {
    hide CommandToken, NoticeFor;
    if b == [] {
      assert a + b == a;
    } else {
      var n := |b| - 1;
      ServedAppend(config, a, b[..n]);
      assert (a + b)[..|a + b| - 1] == a + b[..n] && (a + b)[|a + b| - 1] == b[n];
    }
  }

  /** Only dispatching takes commands up or gives notice. */
  ghost predicate Quiet(s: State, r: State) {
    r.dispatched == s.dispatched && NoticesIn(r.output) == NoticesIn(s.output)
  }

  lemma SayIsQuiet(s: State, r: State, l: OutputLine)
    requires r.output == s.output + [l] && r.dispatched == s.dispatched && !l.Noticed?
    ensures Quiet(s, r)
  {
    NoticesOneMore(s.output, l);
  }

  lemma {:induction false} ReceivingIsQuiet(config: NetConfig, s: State, packets: seq<Packet>)
    ensures Quiet(s, ReceiveAll(config, s, packets))
    decreases |packets|
  {
    hide SelectPacket, PacketLabels;
    if packets != [] {
      var n := |packets| - 1;
      ReceivingIsQuiet(config, s, packets[..n]);
      var before, packet := ReceiveAll(config, s, packets[..n]), packets[n];
      var m := SelectPacket(config, SequencesOf(before.probes), packet.bytes);
      if m.Some? {
        SayIsQuiet(before, ReceivePacket(config, before, packet),
                   Answer(before.probes[m.value.index], m.value.icmp, Address(false, packet.from), packet.received,
                          PacketLabels(config, packet.bytes)));
      }
    }
  }

  lemma SweepingIsQuiet(s: State, verdict: ProbeRecord -> Option<OutputLine>)
    requires AnswersOwn(verdict)
    ensures Quiet(s, SweepState(s, verdict))
  {
    SweepIsExact(s.probes, verdict);
    forall l | l in Sweep(s.probes, verdict).lines
      ensures !l.Noticed?
    {
      var p :| p in s.probes && verdict(p) == Some(l);
      assert TokenOf(verdict(p).value) == Some(p.token);
    }
    NoneNoticed(s.output, Sweep(s.probes, verdict).lines);
  }

  lemma SendingIsQuiet(config: NetConfig, s: State, p: ProbeParam, os: SendOutcome)
    ensures Quiet(s, SendProbe(config, s, p, os))
  {
    var after := SendProbe(config, s, p, os);
    SendLeavesOneTrace(config, s, p, os);
    hide SendProbe;
    if AnsweredAtOnce(s, after, p.commandToken) {
      assert after.output == s.output + [after.output[|s.output|]];
      SayIsQuiet(s, after, after.output[|s.output|]);
    }
  }

  lemma EventIsServed(config: Config, s: State, e: Event, os: SendOutcome)
    ensures var r, t, n := DispatchEvent(config, s, e, os), CommandToken(e), NoticeFor(config, e);
            && r.dispatched == s.dispatched + (if t.Some? then [t.value] else [])
            && NoticesIn(r.output) == NoticesIn(s.output) + if n.Some? then [n.value] else []
  {
    hide ParseLine, Requested, SendProbe, FindParameter, FeatureAnswer;
    if NoticeFor(config, e).Some? {
      NoticesOneMore(s.output, Noticed(NoticeFor(config, e).value));
    } else {
      var c := ParseLine(e.text).command;
      var s1 := Dispatched(s, c.token);
      match Requested(c, config.support) {
        case Refuse(reason) => SayIsQuiet(s1, Say(s1, RequestRefused(c.token, reason)), RequestRefused(c.token, reason));
        case Send(p) => SendingIsQuiet(config.net, s1, p, os);
      }
    }
  }

  lemma {:induction false} EventsAreServed(config: Config, s: State, events: seq<Event>, os: nat -> SendOutcome)
    ensures var r := DispatchAll(config, s, events, os);
            && r.dispatched == s.dispatched + SendTokens(events)
            && NoticesIn(r.output) == NoticesIn(s.output) + NoticesFor(config, events)
    decreases |events|
  {
    hide DispatchEvent, CommandToken, NoticeFor, NoticesIn;
    if events != [] {
      var n := |events| - 1;
      EventsAreServed(config, s, events[..n], os);
      EventIsServed(config, DispatchAll(config, s, events[..n], os), events[n], os(n));
    }
  }

  /** All that came so far has been served, and the rest of it is an unfinished line. */
  ghost predicate Served(config: Config, d: Daemon, input: string) {
    var scanned := Scan(START, input);
    && scanned.partial == d.partial && OneLine(d.partial) && |d.partial| <= MAX_LINE
    && d.net.dispatched == SendTokens(scanned.events)
    && NoticesIn(d.net.output) == NoticesFor(config, scanned.events)
  }

  lemma TurnServes(config: Config, d: Daemon, turn: Turn, input: string)
    requires Served(config, d, input)
    ensures Served(config, OneTurn(config, d, turn), input + InputOf(d, turn))
  {
    hide Scan, ReceiveAll, SweepState, DispatchAll, SocketVerdict, TimeoutVerdict, NoticesIn, NoticesFor, SendTokens, AnswersOwn;
    var received := ReceiveAll(config.net, d.net, turn.packets);
    ReceivingIsQuiet(config.net, d.net, turn.packets);
    VerdictsAnswerOwn(turn.now, turn.sockets);
    SweepingIsQuiet(received, SocketVerdict(turn.sockets));
    var checked := SweepState(received, SocketVerdict(turn.sockets));
    SweepingIsQuiet(checked, TimeoutVerdict(turn.now));
    var timed := SweepState(checked, TimeoutVerdict(turn.now));
    var before, now := Scan(START, input), Scan(START, d.partial + InputOf(d, turn));
    EventsAreServed(config, timed, now.events, turn.sends);
    ScanAppend(START, input, InputOf(d, turn));
    ScanResume(before, InputOf(d, turn));
    ScanFrom(before.events, d.partial + InputOf(d, turn));
    ScanKeepsPartial(START, d.partial + InputOf(d, turn));
    ServedAppend(config, before.events, now.events);
  }

  lemma ScanFrom(events: seq<Event>, input: string)
    ensures Scan(Scanner("", events), input) == Scanner(Scan(START, input).partial, events + Scan(START, input).events)
  {
    ScanShift(events, START, input);
    assert events + [] == events;
  }

  lemma {:induction false} RunServes(config: Config, d: Daemon, turns: seq<Turn>, input: string)
    requires Served(config, d, input)
    ensures Served(config, Run(config, d, turns), input + InputRead(d.open, turns))
    decreases |turns|
  {
    hide Served, OneTurn;
    assert input + "" == input;
    if turns != [] {
      var after := OneTurn(config, d, turns[0]);
      TurnServes(config, d, turns[0], input);
      TurnOpens(config, d, turns[0]);
      ClosedReadsNothing(turns);
      ClosedReadsNothing(turns[1..]);
      if !Exits(after) {
        RunServes(config, after, turns[1..], input + InputOf(d, turns[0]));
      }
      assert input + InputOf(d, turns[0]) + InputRead(after.open, turns[1..])
          == input + (InputOf(d, turns[0]) + InputRead(after.open, turns[1..]));
      assert InputOf(d, turns[0]) + "" == InputOf(d, turns[0]);
    }
  }

  lemma TurnOpens(config: Config, d: Daemon, turn: Turn)
    ensures OneTurn(config, d, turn).open == (d.open && !turn.input.Closed?)
  {}

  lemma ClosedReadsNothing(turns: seq<Turn>)
    ensures InputRead(false, turns) == ""
  {}

  /**
   * Over every run: the commands taken up are the probe commands among the lines of the input, in
   * order, and the notices printed are those due for the other lines, in order.
   */
  lemma InputIsServed(config: Config, turns: seq<Turn>)
    ensures var d, scanned := Run(config, START_UP, turns), Scan(START, InputRead(true, turns));
            && d.net.dispatched == SendTokens(scanned.events)
            && NoticesIn(d.net.output) == NoticesFor(config, scanned.events)
            && d.partial == scanned.partial
  {
    RunServes(config, START_UP, turns, "");
    assert "" + InputRead(true, turns) == InputRead(true, turns);
  }

  /**
   * Exactly one reply per command of the input: for every token, probe commands read = replies printed
   * + probes outstanding, and at most 1024 of those.
   */
  lemma EveryLineIsAnswered(config: Config, turns: seq<Turn>, token: int)
    ensures var d := Run(config, START_UP, turns);
            var commands := SendTokens(Scan(START, InputRead(true, turns)).events);
            && multiset(commands)[token] == Answers(d.net.output)[token] + multiset(TokensOf(d.net.probes))[token]
            && |d.net.probes| <= 1024
            && (Exits(d) ==> multiset(commands)[token] == Answers(d.net.output)[token])
  {
    hide Run, SendTokens, Scan, InputRead, Answers, TokensOf;
    InputIsServed(config, turns);
    EveryCommandAnsweredOnce(config, turns, token);
  }
}
