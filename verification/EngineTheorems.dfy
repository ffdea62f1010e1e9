/** What every run of the engine keeps. */
module EngineTheorems {
  import opened CInt
  import opened Seqs
  import opened TimeVal
  import opened Sequences
  import opened Framing
  import opened LineBuffers
  import opened CmdParse
  import opened ProbeCommand
  import opened Options
  import opened Checksum
  import opened Headers
  import opened Construct
  import opened Mpls
  import opened ReplyLine
  import opened Recognise
  import opened Engine

  // ----- exactly one reply per command -----

  /** The tokens of the commands answered so far, as a bag. */
  function Answers(lines: seq<OutputLine>): multiset<int> {
    if lines == [] then multiset{}
    else
      Answers(lines[..|lines| - 1]) + AnswerOf(lines[|lines| - 1])
  }

  function AnswerOf(l: OutputLine): multiset<int> {
    if TokenOf(l).None? then multiset{} else multiset{TokenOf(l).value}
  }

  /** Per token: commands dispatched = replies printed + probes outstanding. */
  ghost predicate Balanced(s: State) {
    multiset(s.dispatched) == Answers(s.output) + multiset(TokensOf(s.probes))
  }

  lemma AnswersOneMore(lines: seq<OutputLine>, l: OutputLine)
    ensures Answers(lines + [l]) == Answers(lines) + AnswerOf(l)
  {
    assert (lines + [l])[..|lines|] == lines;
  }

  lemma {:induction false} AnswersAppend(a: seq<OutputLine>, b: seq<OutputLine>)
    ensures Answers(a + b) == Answers(a) + Answers(b)
    decreases |b|
  {
    hide AnswerOf;
    if b == [] {
      assert a + b == a;
    } else {
      var n := |b| - 1;
      AnswersAppend(a, b[..n]);
      AnswersOneMore(a + b[..n], b[n]);
      assert a + b == a + b[..n] + [b[n]];
    }
  }

  lemma TokensWithout(probes: seq<ProbeRecord>, k: nat)
    requires k < |probes|
    ensures multiset(TokensOf(probes)) == multiset(TokensOf(Without(probes, k))) + multiset{probes[k].token}
  {
    WithoutAt(probes, k);
    WithoutAt(TokensOf(probes), k);
    assert TokensOf(Without(probes, k)) == Without(TokensOf(probes), k);
    WithoutBag(TokensOf(probes), k);
  }

  lemma TokensCons(p: ProbeRecord, probes: seq<ProbeRecord>)
    ensures multiset(TokensOf([p] + probes)) == multiset{p.token} + multiset(TokensOf(probes))
  {
    assert TokensOf([p] + probes) == [p.token] + TokensOf(probes);
  }

  /** A probe that leaves with a line bearing its own token keeps the balance. */
  lemma RetireBalances(s: State, k: nat, l: OutputLine)
    requires Balanced(s) && k < |s.probes| && TokenOf(l) == Some(s.probes[k].token)
    ensures Balanced(Retire(s, k, l))
  {
    TokensWithout(s.probes, k);
    AnswersOneMore(s.output, l);
  }

  ghost predicate AnswersOwn(verdict: ProbeRecord -> Option<OutputLine>) {
    forall p :: verdict(p).Some? ==> TokenOf(verdict(p).value) == Some(p.token)
  }

  lemma SweepOneMore(probes: seq<ProbeRecord>, verdict: ProbeRecord -> Option<OutputLine>)
    requires probes != []
    ensures var n := |probes| - 1;
            var before, r, v := Sweep(probes[..n], verdict), Sweep(probes, verdict), verdict(probes[n]);
            r == if v.None? then before.(kept := before.kept + [probes[n]]) else before.(lines := before.lines + [v.value])
  {}

  lemma TokensOneMore(probes: seq<ProbeRecord>, p: ProbeRecord)
    ensures multiset(TokensOf(probes + [p])) == multiset(TokensOf(probes)) + multiset{p.token}
  {
    assert TokensOf(probes + [p]) == TokensOf(probes) + [p.token];
  }

  lemma OwnAnswer(verdict: ProbeRecord -> Option<OutputLine>, p: ProbeRecord)
    requires AnswersOwn(verdict) && verdict(p).Some?
    ensures AnswerOf(verdict(p).value) == multiset{p.token}
  {}

  lemma NothingBalances(verdict: ProbeRecord -> Option<OutputLine>)
    ensures Sweep([], verdict) == Swept([], []) && Answers([]) == multiset{} && TokensOf([]) == []
  {}

  lemma {:induction false} SweepBalances(probes: seq<ProbeRecord>, verdict: ProbeRecord -> Option<OutputLine>)
    requires AnswersOwn(verdict)
    ensures var r := Sweep(probes, verdict);
            multiset(TokensOf(probes)) == Answers(r.lines) + multiset(TokensOf(r.kept))
    decreases |probes|
  {
    hide Sweep, TokensOf, Answers, AnswerOf, AnswersOwn, TokenOf;
    if probes == [] {
      NothingBalances(verdict);
    } else {
      var n := |probes| - 1;
      var p, before := probes[n], Sweep(probes[..n], verdict);
      SweepBalances(probes[..n], verdict);
      SweepOneMore(probes, verdict);
      TokensOneMore(probes[..n], p);
      assert probes == probes[..n] + [p];
      if verdict(p).None? {
        TokensOneMore(before.kept, p);
      } else {
        OwnAnswer(verdict, p);
        AnswersOneMore(before.lines, verdict(p).value);
      }
    }
  }

  lemma SweepStateBalances(s: State, verdict: ProbeRecord -> Option<OutputLine>)
    requires Balanced(s) && AnswersOwn(verdict)
    ensures Balanced(SweepState(s, verdict))
  {
    SweepBalances(s.probes, verdict);
    AnswersAppend(s.output, Sweep(s.probes, verdict).lines);
  }

  /** The command was answered at once, and nothing else changed on the list. */
  ghost predicate AnsweredAtOnce(s: State, after: State, token: int) {
    && after.probes == s.probes && after.dispatched == s.dispatched
    && |after.output| == |s.output| + 1 && after.output[..|s.output|] == s.output
    && TokenOf(after.output[|s.output|]) == Some(token)
  }

  /** Nothing was printed, and one new probe with the token is at the head of the list. */
  ghost predicate LeftOutstanding(s: State, after: State, token: int) {
    && after.output == s.output && after.dispatched == s.dispatched
    && |after.probes| == |s.probes| + 1 && after.probes[1..] == s.probes && after.probes[0].token == token
  }

  /** Sending answers the command at once or leaves exactly one probe outstanding for it. */
  lemma SendLeavesOneTrace(config: NetConfig, s: State, p: ProbeParam, os: SendOutcome)
    ensures var after := SendProbe(config, s, p, os);
            AnsweredAtOnce(s, after, p.commandToken) != LeftOutstanding(s, after, p.commandToken)
  {
    hide Try, ReportFor, WireOf;
    WithoutFirst(s.probes);
    assert AllocProbe(s, p.commandToken).probes[1..] == s.probes;
  }

  lemma AnswerBalances(s: State, after: State, token: int)
    requires Balanced(s) && AnsweredAtOnce(Dispatched(s, token), after, token)
    ensures Balanced(after)
  {
    var l := after.output[|s.output|];
    assert after.output == s.output + [l];
    AnswersOneMore(s.output, l);
  }

  lemma OutstandingBalances(s: State, after: State, token: int)
    requires Balanced(s) && LeftOutstanding(Dispatched(s, token), after, token)
    ensures Balanced(after)
  {
    TokensCons(after.probes[0], s.probes);
    assert after.probes == [after.probes[0]] + s.probes;
  }

  lemma SendBalances(config: NetConfig, s: State, p: ProbeParam, os: SendOutcome)
    requires Balanced(s)
    ensures Balanced(SendProbe(config, Dispatched(s, p.commandToken), p, os))
  {
    hide SendProbe, AnsweredAtOnce, LeftOutstanding, Balanced;
    var s0 := Dispatched(s, p.commandToken);
    var after := SendProbe(config, s0, p, os);
    SendLeavesOneTrace(config, s0, p, os);
    if AnsweredAtOnce(s0, after, p.commandToken) {
      AnswerBalances(s, after, p.commandToken);
    } else {
      OutstandingBalances(s, after, p.commandToken);
    }
  }

  lemma WithoutFirst(probes: seq<ProbeRecord>)
    ensures forall p: ProbeRecord :: Without([p] + probes, 0) == probes
  {
    forall p: ProbeRecord
      ensures Without([p] + probes, 0) == probes
    {}
  }

  lemma ReceiveBalances(config: NetConfig, s: State, packet: Packet)
    requires Balanced(s)
    ensures Balanced(ReceivePacket(config, s, packet))
  {
    hide SelectPacket, PacketLabels;
    var m := SelectPacket(config, SequencesOf(s.probes), packet.bytes);
    if m.Some? {
      RetireBalances(s, m.value.index,
        Answer(s.probes[m.value.index], m.value.icmp, Address(false, packet.from), packet.received, PacketLabels(config, packet.bytes)));
    }
  }

  lemma {:induction false} ReceiveAllBalances(config: NetConfig, s: State, packets: seq<Packet>)
    requires Balanced(s)
    ensures Balanced(ReceiveAll(config, s, packets))
    decreases |packets|
  {
    if packets != [] {
      ReceiveAllBalances(config, s, packets[..|packets| - 1]);
      ReceiveBalances(config, ReceiveAll(config, s, packets[..|packets| - 1]), packets[|packets| - 1]);
    }
  }

  lemma NoticeBalances(s: State, n: Notice)
    requires Balanced(s)
    ensures Balanced(Say(s, Noticed(n)))
  {
    AnswersOneMore(s.output, Noticed(n));
  }

  lemma DispatchBalances(config: Config, s: State, e: Event, os: SendOutcome)
    requires Balanced(s)
    ensures Balanced(DispatchEvent(config, s, e, os))
  {
    hide ParseLine, Requested, SendProbe, Balanced;
    NoticeBalances(s, CommandBufferOverflow);
    NoticeBalances(s, CommandParseError);
    if e.Line? && ParseLine(e.text).Parsed? {
      var c := ParseLine(e.text).command;
      NoticeBalances(s, CheckSupport(config, c));
      NoticeBalances(s, UnknownCommand(c.token));
      match Requested(c, config.support) {
        case Refuse(reason) =>
          AnswerBalances(s, Say(Dispatched(s, c.token), RequestRefused(c.token, reason)), c.token);
        case Send(p) =>
          SendKeepsToken(c, config.support);
          SendBalances(config.net, s, p, os);
      }
    }
  }

  /** No argument can change the token a probe will be answered under. */
  lemma SendKeepsToken(c: Command, support: Support)
    ensures Requested(c, support).Send? ==> Requested(c, support).param.commandToken == c.token
  {
    hide WholeNumber;
    DecodingKeepsToken(Defaults(c.token), c.arguments);
  }

  lemma {:induction false} DecodingKeepsToken(p: ProbeParam, arguments: seq<Argument>)
    ensures DecodedAll(p, arguments).Some? ==> DecodedAll(p, arguments).value.commandToken == p.commandToken
    decreases |arguments|
  {
    hide WholeNumber;
    if arguments != [] {
      DecodingKeepsToken(p, arguments[..|arguments| - 1]);
    }
  }

  lemma {:induction false} DispatchAllBalances(config: Config, s: State, events: seq<Event>, os: nat -> SendOutcome)
    requires Balanced(s)
    ensures Balanced(DispatchAll(config, s, events, os))
    decreases |events|
  {
    if events != [] {
      var n := |events| - 1;
      DispatchAllBalances(config, s, events[..n], os);
      DispatchBalances(config, DispatchAll(config, s, events[..n], os), events[n], os(n));
    }
  }

  // ----- sequence numbers and capacity -----

  /** The newest probe comes first; each carries the number issued for its serial. */
  ghost predicate Numbered(probes: seq<ProbeRecord>, issued: nat) {
    && (forall i :: 0 <= i < |probes| ==> probes[i].serial < issued && probes[i].sequence == Issued(probes[i].serial))
    && (forall i, j :: 0 <= i < j < |probes| ==> probes[i].serial > probes[j].serial)
  }

  ghost predicate Orderly(s: State) {
    |s.probes| <= MAX_PROBES && s.nextSequence == Issued(s.issued) && Numbered(s.probes, s.issued)
  }

  lemma WithoutOrderly(s: State, k: nat, l: OutputLine)
    requires Orderly(s) && k < |s.probes|
    ensures Orderly(Retire(s, k, l))
  {
    hide Issued;
    WithoutAt(s.probes, k);
  }

  /** The kept probes are some of the probes, in order. */
  lemma {:induction false} SweepNumbered(probes: seq<ProbeRecord>, verdict: ProbeRecord -> Option<OutputLine>, issued: nat)
    requires Numbered(probes, issued)
    ensures var kept := Sweep(probes, verdict).kept;
            Numbered(kept, issued) && |kept| <= |probes|
            && (probes != [] ==> forall p :: p in kept ==> p.serial >= probes[|probes| - 1].serial)
    decreases |probes|
  {
    hide Issued;
    if probes != [] {
      var n := |probes| - 1;
      assert probes[..n] == probes[..n];
      SweepNumbered(probes[..n], verdict, issued);
      if n > 0 {
        assert probes[..n][n - 1].serial > probes[n].serial;
      }
    }
  }

  lemma SweepOrderly(s: State, verdict: ProbeRecord -> Option<OutputLine>)
    requires Orderly(s)
    ensures Orderly(SweepState(s, verdict))
  {
    SweepNumbered(s.probes, verdict, s.issued);
  }

  ghost predicate TriedInOrder(t: Tried) {
    t.nextSequence == Issued(t.issued) && t.sequence == Issued(t.serial) && t.serial < t.issued
  }

  /** Retries keep the numbering, and issue at most one number per try. */
  lemma {:induction false} TryInOrder(config: NetConfig, p: ProbeParam, system: nat -> System, k: nat, t: Tried)
    requires k < MAX_TRIES && TriedInOrder(t)
    ensures var r := Try(config, p, system, k, t);
            && TriedInOrder(r) && r.serial >= t.serial
            && t.issued <= r.issued <= t.issued + (MAX_TRIES - k)
    decreases MAX_TRIES - k
  {
    hide Issued, Constructed;
    var a := Constructed(config, p, system(k));
    if !(a.size > 0 || !IsStream(p.protocol) || a.errno != EADDRINUSE) {
      IssuedNext(t.issued);
      if k + 1 < MAX_TRIES {
        var socket := if a.socket.Some? then a.socket.value else t.socket;
        TryInOrder(config, p, system, k + 1,
                   Tried(a, t.nextSequence, t.issued, socket, NextSequence(t.nextSequence), t.issued + 1));
      }
    }
  }

  lemma HeadNumbered(p: ProbeRecord, probes: seq<ProbeRecord>, before: nat, after: nat)
    requires Numbered(probes, before) && before <= p.serial < after && p.sequence == Issued(p.serial)
    ensures Numbered([p] + probes, after)
  {
    hide Issued;
  }

  lemma MoreNumbered(probes: seq<ProbeRecord>, before: nat, after: nat)
    requires Numbered(probes, before) && before <= after
    ensures Numbered(probes, after)
  {}

  /** What sending does to the numbering: the retry loop may use up many numbers for one probe. */
  lemma SendOrderly(config: NetConfig, s: State, p: ProbeParam, os: SendOutcome)
    requires Orderly(s)
    ensures Orderly(SendProbe(config, s, p, os))
    ensures s.issued <= SendProbe(config, s, p, os).issued <= s.issued + 1 + MAX_TRIES
  {
    hide Issued, Try, Numbered, ReportFor, Answer, WireOf;
    if |s.probes| < MAX_PROBES && os.allocates {
      var s1 := AllocProbe(s, p.commandToken);
      IssuedNext(s.issued);
      WithoutFirst(s.probes);
      assert s1.probes[1..] == s.probes;
      MoreNumbered(s.probes, s.issued, s1.issued);
      var t0 := Tried(NO_ATTEMPT, s1.probes[0].sequence, s1.probes[0].serial, 0, s1.nextSequence, s1.issued);
      TryInOrder(config, p, os.system, 0, t0);
      if os.resolves.Some? {
        var s2 := AfterTries(config, s1, p, os);
        MoreNumbered(s.probes, s.issued, s2.issued);
        var probe := s2.probes[0];
        HeadNumbered(probe.(timeoutTime := Deadline(probe.departureTime, p.timeout)), s.probes, s.issued, s2.issued);
      }
    }
  }

  lemma {:induction false} ReceiveAllOrderly(config: NetConfig, s: State, packets: seq<Packet>)
    requires Orderly(s)
    ensures Orderly(ReceiveAll(config, s, packets))
    decreases |packets|
  {
    hide SelectPacket, PacketLabels, Orderly;
    if packets != [] {
      var before, packet := ReceiveAll(config, s, packets[..|packets| - 1]), packets[|packets| - 1];
      ReceiveAllOrderly(config, s, packets[..|packets| - 1]);
      var m := SelectPacket(config, SequencesOf(before.probes), packet.bytes);
      if m.Some? {
        WithoutOrderly(before, m.value.index,
          Answer(before.probes[m.value.index], m.value.icmp, Address(false, packet.from), packet.received, PacketLabels(config, packet.bytes)));
      }
    }
  }

  lemma {:induction false} DispatchAllOrderly(config: Config, s: State, events: seq<Event>, os: nat -> SendOutcome)
    requires Orderly(s)
    ensures Orderly(DispatchAll(config, s, events, os))
    decreases |events|
  {
    hide ParseLine, Requested, SendProbe, Numbered;
    if events != [] {
      var n := |events| - 1;
      DispatchAllOrderly(config, s, events[..n], os);
      var before, e := DispatchAll(config, s, events[..n], os), events[n];
      if e.Line? && ParseLine(e.text).Parsed? && ParseLine(e.text).command.name == "send-probe" {
        var c := ParseLine(e.text).command;
        if Requested(c, config.support).Send? {
          SendOrderly(config.net, Dispatched(before, c.token), Requested(c, config.support).param, os(n));
        }
      }
    }
  }

  /** Two outstanding probes share a sequence number exactly when whole turns lie between them. */
  lemma SequencesCollideIff(s: State, i: nat, j: nat)
    requires Orderly(s) && i < j < |s.probes|
    ensures s.probes[i].sequence == s.probes[j].sequence
            <==> (s.probes[i].serial - s.probes[j].serial) % SPAN == 0
  {
    SameIssuedIff(s.probes[j].serial, s.probes[i].serial);
  }

  lemma SameIssuedIff(m: nat, n: nat)
    requires m < n
    ensures Issued(m) == Issued(n) <==> (n - m) % SPAN == 0
  {
    var a, b := m / SPAN, n / SPAN;
    assert m == a * SPAN + m % SPAN && n == b * SPAN + n % SPAN;
    assert n - m == (b - a) * SPAN + (n % SPAN - m % SPAN);
    if Issued(m) == Issued(n) {
      assert n - m == (b - a) * SPAN;
    }
  }

  /** While fewer than a full turn has been issued since the oldest outstanding probe, all differ. */
  lemma OutstandingAreDistinct(s: State)
    requires Orderly(s)
    requires s.probes != [] ==> s.issued - s.probes[|s.probes| - 1].serial <= SPAN
    ensures Distinct(SequencesOf(s.probes))
  {
    hide Issued;
    var probes := s.probes;
    forall i | 0 <= i < |probes|
      ensures 0 <= SequencesOf(probes)[i] < 0x1_0000
    {
      IssuedInRange(probes[i].serial);
    }
    forall i, j | 0 <= i < j < |probes|
      ensures SequencesOf(probes)[i] != SequencesOf(probes)[j]
    {
      assert probes[j].serial >= probes[|probes| - 1].serial;
      ConsecutiveAreDistinct(probes[j].serial, probes[i].serial);
    }
  }

  /** ... and then a lookup finds the one probe with the number asked for, or nothing. */
  lemma LookupIsExact(s: State, bytes: seq<Byte>, at: nat)
    requires Orderly(s) && at + 2 <= |bytes|
    requires s.probes != [] ==> s.issued - s.probes[|s.probes| - 1].serial <= SPAN
    ensures forall i :: 0 <= i < |s.probes| ==>
              (FindSequence(SequencesOf(s.probes), Field(bytes, at)) == Some(i) <==> s.probes[i].sequence == Word(bytes, at))
  {
    OutstandingAreDistinct(s);
    FindsExactly(SequencesOf(s.probes), bytes, at);
  }

  // ----- whole runs -----

  /** What holds of mtr-packet between any two turns of its event loop. */
  ghost predicate Sound(d: Daemon) {
    Balanced(d.net) && Orderly(d.net) && OneLine(d.partial) && |d.partial| <= MAX_LINE
  }

  lemma VerdictsAnswerOwn(now: Time, status: int -> SocketStatus)
    ensures AnswersOwn(TimeoutVerdict(now)) && AnswersOwn(SocketVerdict(status))
  {}

  lemma TurnIsSound(config: Config, d: Daemon, turn: Turn)
    requires Sound(d)
    ensures Sound(OneTurn(config, d, turn))
  {
    hide Balanced, Orderly, Scan, ReceiveAll, DispatchAll, SweepState, SocketVerdict, TimeoutVerdict;
    VerdictsAnswerOwn(turn.now, turn.sockets);
    ReceiveAllBalances(config.net, d.net, turn.packets);
    ReceiveAllOrderly(config.net, d.net, turn.packets);
    var received := ReceiveAll(config.net, d.net, turn.packets);
    SweepStateBalances(received, SocketVerdict(turn.sockets));
    SweepOrderly(received, SocketVerdict(turn.sockets));
    var s1 := SweepState(received, SocketVerdict(turn.sockets));
    SweepStateBalances(s1, TimeoutVerdict(turn.now));
    SweepOrderly(s1, TimeoutVerdict(turn.now));
    var s2 := SweepState(s1, TimeoutVerdict(turn.now));
    var input := d.partial + InputOf(d, turn);
    ScanKeepsPartial(START, input);
    DispatchAllBalances(config, s2, Scan(START, input).events, turn.sends);
    DispatchAllOrderly(config, s2, Scan(START, input).events, turn.sends);
  }

  /** Over every run and every behaviour of the system, between any two turns. */
  lemma {:induction false} RunIsSound(config: Config, d: Daemon, turns: seq<Turn>)
    requires Sound(d)
    ensures Sound(Run(config, d, turns))
    decreases |turns|
  {
    hide Sound, OneTurn;
    if turns != [] {
      TurnIsSound(config, d, turns[0]);
      var after := OneTurn(config, d, turns[0]);
      if !Exits(after) {
        RunIsSound(config, after, turns[1..]);
      }
    }
  }

  lemma StartsSound()
    ensures Sound(START_UP)
  {}

  /**
   * Exactly one reply per command: in every run from the start, each token has been answered as
   * often as it was dispatched, less its outstanding probes; when the program exits there are none.
   */
  lemma EveryCommandAnsweredOnce(config: Config, turns: seq<Turn>, token: int)
    ensures var d := Run(config, START_UP, turns);
            && multiset(d.net.dispatched)[token] == Answers(d.net.output)[token] + multiset(TokensOf(d.net.probes))[token]
            && |d.net.probes| <= 1024
            && (Exits(d) ==> multiset(d.net.dispatched)[token] == Answers(d.net.output)[token])
  {
    hide Run;
    StartsSound();
    RunIsSound(config, START_UP, turns);
    var d := Run(config, START_UP, turns);
    assert Sound(d);
    if Exits(d) {
      assert TokensOf(d.net.probes) == [];
    }
  }

  /** The sweep neither loses nor invents: it keeps what the verdict keeps, and says one line each. */
  lemma {:induction false} SweepIsExact(probes: seq<ProbeRecord>, verdict: ProbeRecord -> Option<OutputLine>)
    ensures var r := Sweep(probes, verdict);
            && |r.kept| + |r.lines| == |probes|
            && (forall p :: p in r.kept <==> p in probes && verdict(p).None?)
            && (forall l :: l in r.lines <==> exists p :: p in probes && verdict(p) == Some(l))
    decreases |probes|
  {
    if probes != [] {
      var n := |probes| - 1;
      var before, r := Sweep(probes[..n], verdict), Sweep(probes, verdict);
      SweepIsExact(probes[..n], verdict);
      assert probes == probes[..n] + [probes[n]];
      forall l
        ensures l in r.lines <==> exists p :: p in probes && verdict(p) == Some(l)
      {
        if l in r.lines {
          if l in before.lines {
            var p :| p in probes[..n] && verdict(p) == Some(l);
            assert p in probes;
          } else {
            assert probes[n] in probes && verdict(probes[n]) == Some(l);
          }
        }
        if p :| p in probes && verdict(p) == Some(l) {
          assert p in probes[..n] || p == probes[n];
        }
      }
    }
  }

  /** A probe not past its deadline, and only such a probe, survives the timeout check. */
  lemma TimeoutsAreExact(s: State, now: Time, p: ProbeRecord)
    ensures p in SweepState(s, TimeoutVerdict(now)).probes <==> p in s.probes && !Expired(p, now)
  {
    SweepIsExact(s.probes, TimeoutVerdict(now));
  }

  lemma {:induction false} ReceivingOnlyRemoves(config: NetConfig, s: State, packets: seq<Packet>)
    ensures forall p :: p in ReceiveAll(config, s, packets).probes ==> p in s.probes
    decreases |packets|
  {
    hide SelectPacket, PacketLabels;
    if packets != [] {
      ReceivingOnlyRemoves(config, s, packets[..|packets| - 1]);
      var before, packet := ReceiveAll(config, s, packets[..|packets| - 1]), packets[|packets| - 1];
    }
  }

  /** Once the input is closed, a turn whose clock is past every deadline is the last. */
  lemma ClosedAndExpiredExits(config: Config, d: Daemon, turn: Turn)
    requires Sound(d) && (!d.open || turn.input.Closed?)
    requires forall p :: p in d.net.probes ==> Expired(p, turn.now)
    ensures Exits(OneTurn(config, d, turn))
  {
    hide Balanced, Orderly, Scan, ReceiveAll, Sweep, SocketVerdict, TimeoutVerdict, Expired;
    var received := ReceiveAll(config.net, d.net, turn.packets);
    ReceivingOnlyRemoves(config.net, d.net, turn.packets);
    SweepIsExact(received.probes, SocketVerdict(turn.sockets));
    var s1 := SweepState(received, SocketVerdict(turn.sockets));
    var s2 := SweepState(s1, TimeoutVerdict(turn.now));
    assert s2.probes == [] || s2.probes[0] in s2.probes;
    forall p
      ensures p !in s2.probes
    {
      TimeoutsAreExact(s1, turn.now, p);
    }
    ScanPlain(START, d.partial);
    assert d.partial + "" == d.partial == "" + d.partial;
  }

  /**
   * Every run in which the input closes and the clock then passes every deadline does exit, having
   * answered each command exactly once.
   */
  lemma RunsThatCloseExit(config: Config, before: seq<Turn>, last: Turn)
    requires var d := Run(config, START_UP, before);
             && (!d.open || last.input.Closed?)
             && forall p :: p in d.net.probes ==> Expired(p, last.now)
    ensures var d := Run(config, START_UP, before);
            var end := if Exits(d) then d else OneTurn(config, d, last);
            Exits(end) && multiset(end.net.dispatched) == Answers(end.net.output)
  {
    hide Run, OneTurn, Sound;
    StartsSound();
    RunIsSound(config, START_UP, before);
    var d := Run(config, START_UP, before);
    if Exits(d) {
      EmptyIsAnswered(d);
    } else {
      ClosedAndExpiredExits(config, d, last);
      TurnIsSound(config, d, last);
      EmptyIsAnswered(OneTurn(config, d, last));
    }
  }

  lemma EmptyIsAnswered(d: Daemon)
    requires Sound(d) && d.net.probes == []
    ensures multiset(d.net.dispatched) == Answers(d.net.output)
  {
    assert TokensOf(d.net.probes) == [];
  }

  // ----- what was sent, and what comes back -----

  /** The deadline is the departure plus the timeout the command asked for, in seconds. */
  ghost predicate Timed(r: ProbeRecord) {
    r.param.Some? && r.param.value.commandToken == r.token
    && r.timeoutTime.sec == r.departureTime.sec + r.param.value.timeout && r.timeoutTime.usec == r.departureTime.usec
  }

  /** The recorded packet is the one built for this probe's command under its final sequence number. */
  ghost predicate Wired(config: NetConfig, r: ProbeRecord) {
    Timed(r)
    && (r.wire.Some? ==>
          var w := r.wire.value;
          && |w.source| == 4 && |w.dest| == 4
          && r.param == Some(w.param) && w.param.ipVersion == 4 && w.param.protocol in {IPPROTO_ICMP, IPPROTO_UDP}
          && HeaderSpace(config, w.param) <= |w.bytes| <= PACKET_BUFFER_SIZE
          && w.bytes == ProbePacket(config, r.sequence, w.param, w.source, w.dest, |w.bytes|))
  }

  ghost predicate AllWired(config: NetConfig, s: State) {
    forall p :: p in s.probes ==> Wired(config, p)
  }

  /** An IPv4 ICMP or UDP probe that is left outstanding has its packet recorded, and rightly. */
  lemma SendRecords(config: NetConfig, s: State, p: ProbeParam, os: SendOutcome)
    requires AllWired(config, s)
    ensures AllWired(config, SendProbe(config, s, p, os))
    ensures var after := SendProbe(config, s, p, os);
            |after.probes| > |s.probes| ==> after.probes[0].param == Some(p)
    ensures var after := SendProbe(config, s, p, os);
            |after.probes| > |s.probes| && p.ipVersion == 4 && p.protocol in {IPPROTO_ICMP, IPPROTO_UDP} ==>
              after.probes[0].wire.Some? && after.probes[0].wire.value.param == p
  {
    hide Try, ReportFor, Answer, Wired, ProbePacket;
    if |s.probes| < MAX_PROBES && os.allocates {
      var s1 := AllocProbe(s, p.commandToken);
      WithoutFirst(s.probes);
      assert s1.probes[1..] == s.probes;
      if os.resolves.Some? {
        var t := TriesFor(config, s1, p, os);
        TryBuilds(config, p, os.system, 0, Tried(NO_ATTEMPT, s1.probes[0].sequence, s1.probes[0].serial, 0, s1.nextSequence, s1.issued));
        var s2 := AfterTries(config, s1, p, os);
        var head := s2.probes[0].(timeoutTime := Deadline(os.departure, p.timeout));
        HeadIsWired(config, p, os, t, head);
        assert s2.probes[1..] == s.probes;
      }
    }
  }

  lemma HeadIsWired(config: NetConfig, p: ProbeParam, os: SendOutcome, t: Tried, head: ProbeRecord)
    requires head.wire == WireOf(config, p, os, t) && head.token == p.commandToken && head.sequence == t.sequence
    requires head.param == Some(p) && head.timeoutTime == Deadline(head.departureTime, p.timeout)
    requires t.last.size >= 0 && p.ipVersion == 4 && !IsStream(p.protocol) ==>
               HeaderSpace(config, p) <= t.last.size <= PACKET_BUFFER_SIZE && p.protocol in {IPPROTO_ICMP, IPPROTO_UDP}
    requires IsStream(p.protocol) ==> t.last.size <= 0
    ensures Wired(config, head)
  {}

  lemma {:induction false} DispatchRecords(config: Config, s: State, events: seq<Event>, os: nat -> SendOutcome)
    requires AllWired(config.net, s)
    ensures AllWired(config.net, DispatchAll(config, s, events, os))
    decreases |events|
  {
    hide ParseLine, Requested, SendProbe, Wired, CheckSupport;
    if events != [] {
      var n := |events| - 1;
      DispatchRecords(config, s, events[..n], os);
      var before, e := DispatchAll(config, s, events[..n], os), events[n];
      if e.Line? && ParseLine(e.text).Parsed? && ParseLine(e.text).command.name == "send-probe" {
        var c := ParseLine(e.text).command;
        if Requested(c, config.support).Send? {
          SendRecords(config.net, Dispatched(before, c.token), Requested(c, config.support).param, os(n));
        }
      }
    }
  }

  lemma TurnRecords(config: Config, d: Daemon, turn: Turn)
    requires AllWired(config.net, d.net)
    ensures AllWired(config.net, OneTurn(config, d, turn).net)
  {
    hide Wired, Scan, ReceiveAll, DispatchAll, Sweep, SocketVerdict, TimeoutVerdict;
    var received := ReceiveAll(config.net, d.net, turn.packets);
    ReceivingOnlyRemoves(config.net, d.net, turn.packets);
    SweepIsExact(received.probes, SocketVerdict(turn.sockets));
    var s1 := SweepState(received, SocketVerdict(turn.sockets));
    SweepIsExact(s1.probes, TimeoutVerdict(turn.now));
    var s2 := SweepState(s1, TimeoutVerdict(turn.now));
    DispatchRecords(config, s2, Scan(START, d.partial + InputOf(d, turn)).events, turn.sends);
  }

  /** In every run, every recorded packet is the one built for the probe that carries it. */
  lemma {:induction false} RunRecords(config: Config, d: Daemon, turns: seq<Turn>)
    requires AllWired(config.net, d.net)
    ensures AllWired(config.net, Run(config, d, turns).net)
    decreases |turns|
  {
    hide AllWired, OneTurn;
    if turns != [] {
      TurnRecords(config, d, turns[0]);
      var after := OneTurn(config, d, turns[0]);
      if !Exits(after) {
        RunRecords(config, after, turns[1..]);
      }
    }
  }

  /** The answer for a probe, field by field. */
  function AnswerLine(p: ProbeRecord, icmp: IcmpResult, from: string, received: Time, labels: seq<Label>): OutputLine {
    Answered(Response(p.token, icmp, false, from, RoundTripUs(received, p.departureTime), labels))
  }

  /** The round trip time is the time between departure and arrival, in microseconds, below an hour or so. */
  lemma TimeIsElapsed(received: Time, departed: Time)
    requires 0 <= Micros(received) - Micros(departed) < 0x1_0000_0000
    ensures RoundTripUs(received, departed) == Micros(received) - Micros(departed)
  {}

  /** Exactly probe i of s has gone, and exactly its answer was printed. */
  ghost predicate AnswersFor(s: State, after: State, i: nat, icmp: IcmpResult, from: string, received: Time, labels: seq<Label>)
    requires i < |s.probes|
  {
    after.probes == Without(s.probes, i)
    && after.output == s.output + [AnswerLine(s.probes[i], icmp, from, received, labels)]
    && after.issued == s.issued
  }

  /**
   * Bytes quote what was sent for probe i: the IP header with the same protocol, however rewritten,
   * at least eight bytes of what followed it, and anything after that.
   */
  ghost predicate Quotes(config: NetConfig, w: Wire, bytes: seq<Byte>, icmpHead: seq<Byte>) {
    config.ip4Raw && |icmpHead| == ICMP_HEADER_SIZE && icmpHead[0] in {ICMP_TIME_EXCEEDED, ICMP_DEST_UNREACH}
    && |w.bytes| >= IP_HEADER_SIZE + 8
    && exists outer, quotedHeader, length, rest ::
         && OuterOk(config, outer) && |quotedHeader| == IP_HEADER_SIZE && quotedHeader[9] == w.bytes[9]
         && IP_HEADER_SIZE + 8 <= length <= |w.bytes|
         && bytes == Quoting(outer, icmpHead, quotedHeader, w.bytes[IP_HEADER_SIZE..length] + rest)
  }

  /** At most one turn of the sequence numbers since the oldest probe, and for UDP no port in the way. */
  ghost predicate Unambiguous(s: State, i: nat) {
    i < |s.probes| && s.issued - s.probes[|s.probes| - 1].serial <= SPAN
    && s.probes[i].wire.Some?
    && var p := s.probes[i].wire.value.param;
       p.protocol == IPPROTO_ICMP || PortsDoNotCollide(SequencesOf(s.probes), s.probes[i].sequence, p)
  }

  /** In any orderly state, an ICMP error quoting what was sent for probe i retires exactly that probe. */
  lemma QuotedProbeIsAnswered(config: NetConfig, s: State, i: nat, bytes: seq<Byte>, icmpHead: seq<Byte>,
                                                 from: string, received: Time)
    requires Orderly(s) && Unambiguous(s, i) && Wired(config, s.probes[i])
    requires Quotes(config, s.probes[i].wire.value, bytes, icmpHead)
    ensures AnswersFor(s, ReceivePacket(config, s, Packet(bytes, from, received)), i, QuoteResult(icmpHead), from, received,
                       PacketLabels(config, bytes))
  {
    hide ProbePacket, SelectPacket, PortsDoNotCollide, Distinct, Orderly, PacketLabels, Quoting, OuterOk;
    OutstandingAreDistinct(s);
    var w := s.probes[i].wire.value;
    var outer, quotedHeader, length, rest :|
      && OuterOk(config, outer) && |quotedHeader| == IP_HEADER_SIZE && quotedHeader[9] == w.bytes[9]
      && IP_HEADER_SIZE + 8 <= length <= |w.bytes|
      && bytes == Quoting(outer, icmpHead, quotedHeader, w.bytes[IP_HEADER_SIZE..length] + rest);
    QuotedProbeIsRecognised(config, SequencesOf(s.probes), i, w.param, w.source, w.dest, |w.bytes|,
                            outer, icmpHead, quotedHeader, length, rest);
  }

  /**
   * From command to reply, over every run: while a probe is outstanding whose packet was ours to
   * build, an ICMP error quoting what was sent prints one line, under the token of the command that
   * was dispatched.
   */
  lemma WhatWasSentIsAnswered(config: Config, turns: seq<Turn>, s: State, i: nat, bytes: seq<Byte>,
                                                 icmpHead: seq<Byte>, from: string, received: Time)
    requires s == Run(config, START_UP, turns).net && Unambiguous(s, i)
    requires Quotes(config.net, s.probes[i].wire.value, bytes, icmpHead)
    ensures AnswersFor(s, ReceivePacket(config.net, s, Packet(bytes, from, received)), i, QuoteResult(icmpHead), from, received,
                       PacketLabels(config.net, bytes))
    ensures Wired(config.net, s.probes[i]) && s.probes[i].wire.value.param.commandToken in s.dispatched
  {
    hide Run, Balanced, Orderly, Quotes, QuoteResult, ReceivePacket, AnswersFor, Wired;
    RunIsKnown(config, turns);
    WireIsKnown(config.net, s, i);
    QuotedProbeIsAnswered(config.net, s, i, bytes, icmpHead, from, received);
    TokenWasDispatched(s, i);
  }

  lemma RunIsKnown(config: Config, turns: seq<Turn>)
    ensures var s := Run(config, START_UP, turns).net; Balanced(s) && Orderly(s) && AllWired(config.net, s)
  {
    hide Run, Balanced, Orderly;
    StartsSound();
    RunIsSound(config, START_UP, turns);
    RunRecords(config, START_UP, turns);
  }

  lemma WireIsKnown(config: NetConfig, s: State, i: nat)
    requires AllWired(config, s) && i < |s.probes| && s.probes[i].wire.Some?
    ensures Wired(config, s.probes[i])
    ensures var w := s.probes[i].wire.value;
            && |w.source| == 4 && |w.dest| == 4 && s.probes[i].token == w.param.commandToken && s.probes[i].param == Some(w.param)
            && |w.bytes| >= HeaderSpace(config, w.param)
            && w.bytes == ProbePacket(config, s.probes[i].sequence, w.param, w.source, w.dest, |w.bytes|)
  {
    hide ProbePacket;
    assert s.probes[i] in s.probes;
  }

  lemma TokenWasDispatched(s: State, i: nat)
    requires Balanced(s) && i < |s.probes|
    ensures s.probes[i].token in s.dispatched
  {
    hide Answers;
    assert TokensOf(s.probes)[i] == s.probes[i].token;
    assert s.probes[i].token in multiset(s.dispatched);
  }
}
