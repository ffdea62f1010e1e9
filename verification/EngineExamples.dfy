/**
 * A run of the daemon in which two outstanding probes share a sequence number, though only three
 * commands were given: the retry loop of a stream probe uses up the numbers between.
 */
module EngineExamples {
  import opened CInt
  import opened Text
  import opened Seqs
  import opened TimeVal
  import opened Sequences
  import opened Framing
  import opened LineBuffers
  import opened CmdParse
  import opened ProbeCommand
  import opened CommandLine
  import opened Options
  import opened Checksum
  import opened Construct
  import opened Recognise
  import opened Engine
  import opened EngineTheorems
  import opened EndToEnd
  import opened NetState
  import opened EventLoop

  /** A turn in which nothing happens but the arrival of one command. */
  function CommandTurn(c: CommandLine.Control, os: SendOutcome): Turn {
    Turn([], _ => NotWritable, Bytes(Join(CommandWords(c)) + "\n"), Time(0, 0), _ => os)
  }

  ghost predicate NoneExpired(s: State) {
    forall p :: p in s.probes ==> !Expired(p, Time(0, 0))
  }

  lemma NothingSwept(s: State)
    requires NoneExpired(s)
    ensures SweepState(s, SocketVerdict(_ => NotWritable)) == s
    ensures SweepState(s, TimeoutVerdict(Time(0, 0))) == s
  {
    NothingToSweep(s.probes, SocketVerdict(_ => NotWritable));
    NothingToSweep(s.probes, TimeoutVerdict(Time(0, 0)));
    assert s.output + [] == s.output;
  }

  /** What becomes of a command the front end prints, when it arrives alone. */
  lemma CommandArrives(config: Config, d: Daemon, c: CommandLine.Control, os: SendOutcome)
    requires d.partial == "" && d.open && NoneExpired(d.net)
    requires c.Valid() && !Refused(c) && VersionSupported(config.support, if c.ip6 then 6 else 4)
    requires ProtocolSupported(config.support, c.protocol)
    ensures InputFits(d, CommandTurn(c, os))
    ensures OneTurn(config, d, CommandTurn(c, os))
         == Daemon(SendProbe(config.net, Dispatched(d.net, c.sequence), c.Intended(), os), "", true)
  {
    hide SendProbe, SweepState, SocketVerdict, TimeoutVerdict, DispatchEvent, ParseLine, Join, CommandWords, Scan;
    BaseStarts(c);
    var text := Join(CommandWords(c));
    CommandFits(c);
    CommandRoundTrip(c);
    CommandIsCarriedOut(config, d.net, c, os);
    NothingSwept(d.net);
    assert "" + (text + "\n") == text + "\n";
    assert [Line(text)][..0] == [];
    assert DispatchAll(config, d.net, [], _ => os) == d.net;
  }

  lemma CommandFits(c: CommandLine.Control)
    requires c.Valid()
    ensures var chunk := Join(CommandWords(c)) + "\n"; 0 < |chunk| <= MAX_LINE + 1 && NoNul(chunk)
  {
    AllAreWords(c);
    WordsMakeOneLine(CommandWords(c));
    CommandWordsShort(c);
    JoinShort(CommandWords(c));
  }

  /** n tries that find the port in use, then one that does not. */
  lemma {:induction false} TriesFail(config: NetConfig, p: ProbeParam, system: nat -> System, k: nat, n: nat, t: Tried)
    requires k <= n < MAX_TRIES && IsStream(p.protocol)
    requires forall j :: k <= j < n ==> Constructed(config, p, system(j)).size <= 0
                                        && Constructed(config, p, system(j)).errno == EADDRINUSE
    requires Constructed(config, p, system(n)).errno != EADDRINUSE
    ensures var r := Try(config, p, system, k, t);
            && r.last == Constructed(config, p, system(n)) && r.issued == t.issued + (n - k)
            && r.serial == if n == k then t.serial else t.issued + (n - k) - 1
    decreases n - k
  {
    hide Constructed;
    if k < n {
      var a := Constructed(config, p, system(k));
      var socket := if a.socket.Some? then a.socket.value else t.socket;
      TriesFail(config, p, system, k + 1, n,
                Tried(a, t.nextSequence, t.issued, socket, NextSequence(t.nextSequence), t.issued + 1));
    }
  }

  const USED_UP := SPAN - 2

  /** Every system call succeeds, but the first `used` ports are in use. */
  function Outcome(used: nat): SendOutcome {
    SendOutcome(true, Some("10.0.0.2"), [10, 0, 0, 1], [10, 0, 0, 2], Time(0, 0),
                k => if k < used then System(false, EADDRINUSE, 0) else System(true, OtherErrno(115), 7),
                None, Time(0, 0))
  }

  /** A probe that is left outstanding, with the serial its last try gave it. */
  lemma SendsOne(config: NetConfig, s: State, p: ProbeParam, used: nat)
    requires |s.probes| < MAX_PROBES && NoneExpired(s) && p.timeout == 10 && p.ipVersion == 4
    requires if IsStream(p.protocol) then used < MAX_TRIES else used == 0 && p.protocol == IPPROTO_ICMP
    requires p.packetSize <= PACKET_BUFFER_SIZE
    ensures var r := SendProbe(config, s, p, Outcome(used));
            && NoneExpired(r) && r.issued == s.issued + 1 + used
            && |r.probes| == |s.probes| + 1 && r.probes[1..] == s.probes
            && r.probes[0].serial == s.issued + used
  {
    hide ProbePacket, WireOf, Try;
    var s1 := AllocProbe(s, p.commandToken);
    WithoutFirst(s.probes);
    assert s1.probes[1..] == s.probes;
    var os := Outcome(used);
    var t0 := Tried(NO_ATTEMPT, s1.probes[0].sequence, s1.probes[0].serial, 0, s1.nextSequence, s1.issued);
    if IsStream(p.protocol) {
      TriesFail(config, p, os.system, 0, used, t0);
    } else {
      TryOnce(config, p, os.system, t0);
    }
  }

  lemma TryOnce(config: NetConfig, p: ProbeParam, system: nat -> System, t: Tried)
    requires !IsStream(p.protocol)
    ensures var r := Try(config, p, system, 0, t);
            r.last == Constructed(config, p, system(0)) && r.issued == t.issued && r.serial == t.serial
  {}

  function Command(protocol: int, sequence: int): CommandLine.Control {
    CommandLine.Control(false, "10.0.0.2", "10.0.0.1", protocol, 64, 0, 0, 1, 10_000_000, 0, 0, 0, sequence)
  }

  /** ICMP, TCP with 32534 ports in use, ICMP. */
  function CollidingTurns(): seq<Turn> {
    [CommandTurn(Command(IPPROTO_ICMP, 33000), Outcome(0)),
     CommandTurn(Command(IPPROTO_TCP, 33001), Outcome(USED_UP)),
     CommandTurn(Command(IPPROTO_ICMP, 33002), Outcome(0))]
  }

  /** Three probes, of which the first and the last have the same number; it finds only the newer. */
  ghost predicate Collided(s: State) {
    |s.probes| == 3 && s.probes[0].sequence == s.probes[2].sequence
    && FindSequence(SequencesOf(s.probes), Htons(s.probes[2].sequence)) == Some(0)
  }

  lemma NumbersCollide(config: Config)
    requires config.support.ip4
    ensures ReadsFit(config, START_UP, CollidingTurns())
    ensures Collided(Run(config, START_UP, CollidingTurns()).net)
  {
    hide Outcome, CommandTurn, OneTurn, Run, Collided;
    var t1, t2, t3 := CommandTurn(Command(IPPROTO_ICMP, 33000), Outcome(0)),
                      CommandTurn(Command(IPPROTO_TCP, 33001), Outcome(USED_UP)),
                      CommandTurn(Command(IPPROTO_ICMP, 33002), Outcome(0));
    var d1 := OneTurn(config, START_UP, t1);
    var d2 := OneTurn(config, d1, t2);
    var d3 := OneTurn(config, d2, t3);
    FreshState();
    CommandSends(config, START_UP, Command(IPPROTO_ICMP, 33000), 0);
    CommandSends(config, d1, Command(IPPROTO_TCP, 33001), USED_UP);
    CommandSends(config, d2, Command(IPPROTO_ICMP, 33002), 0);
    ThreeTurns(config, t1, t2, t3, d1, d2, d3);
    StartsSound();
    RunIsSound(config, START_UP, CollidingTurns());
    SerialsCollide(d3.net);
  }

  lemma SerialsCollide(s: State)
    requires Orderly(s) && |s.probes| == 3 && s.probes[0].serial == SPAN && s.probes[2].serial == 0
    ensures Collided(s)
  {
    hide Orderly, FindSequence, Htons, SequencesOf, Issued;
    SequencesCollideIff(s, 0, 2);
    FirstIsFound(s.probes);
  }

  /** A command of ours arrives alone, and its probe is left outstanding. */
  lemma CommandSends(config: Config, d: Daemon, c: CommandLine.Control, used: nat)
    requires config.support.ip4 && d.partial == "" && d.open && NoneExpired(d.net) && |d.net.probes| < MAX_PROBES
    requires (c == Command(IPPROTO_ICMP, c.sequence) && used == 0)
             || (c == Command(IPPROTO_TCP, c.sequence) && used < MAX_TRIES)
    requires IsInt32(c.sequence)
    ensures InputFits(d, CommandTurn(c, Outcome(used)))
    ensures var r := OneTurn(config, d, CommandTurn(c, Outcome(used)));
            && r.partial == "" && r.open && NoneExpired(r.net) && r.net.issued == d.net.issued + 1 + used
            && |r.net.probes| == |d.net.probes| + 1 && r.net.probes[1..] == d.net.probes
            && r.net.probes[0].serial == d.net.issued + used
  {
    hide Outcome, CommandTurn, SendProbe, OneTurn, NoneExpired, IsWord;
    AddressWords();
    AlsoDispatched(d.net, c.sequence);
    CommandArrives(config, d, c, Outcome(used));
    SendsOne(config.net, Dispatched(d.net, c.sequence), c.Intended(), used);
  }

  lemma FreshState()
    ensures NoneExpired(INITIAL)
  {}

  lemma AlsoDispatched(s: State, token: int)
    requires NoneExpired(s)
    ensures NoneExpired(Dispatched(s, token))
  {}

  lemma ThreeTurns(config: Config, t1: Turn, t2: Turn, t3: Turn, d1: Daemon, d2: Daemon, d3: Daemon)
    requires d1 == OneTurn(config, START_UP, t1) && d2 == OneTurn(config, d1, t2) && d3 == OneTurn(config, d2, t3)
    requires d1.open && d2.open && d3.open
    requires InputFits(START_UP, t1) && InputFits(d1, t2) && InputFits(d2, t3)
    ensures Run(config, START_UP, [t1, t2, t3]) == d3 && ReadsFit(config, START_UP, [t1, t2, t3])
  {
    hide OneTurn, InputFits;
    assert [t1, t2, t3][1..] == [t2, t3] && [t2, t3][1..] == [t3] && [t3][1..] == [];
    assert Run(config, d2, [t3]) == d3 && ReadsFit(config, d2, [t3]);
    assert Run(config, d1, [t2, t3]) == d3 && ReadsFit(config, d1, [t2, t3]);
  }

  lemma FirstIsFound(probes: seq<ProbeRecord>)
    requires probes != []
    ensures FindSequence(SequencesOf(probes), Htons(probes[0].sequence)) == Some(0)
  {}
}
