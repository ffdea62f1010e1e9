/**
 * The front end prints a `send-probe` command (ui/cmdpipe.c); framed, tokenized, parsed and decoded
 * by mtr-packet it means what the front end was asked to do.
 */
module CommandLine {
  import opened CInt
  import opened Text
  import opened Framing
  import opened CmdParse
  import opened ProbeCommand
  import opened Options

  const COMMAND_BUFFER_SIZE := 4096
  const MAX_ADDRESS_TEXT := 45

  /** The parts of `struct mtr_ctl` and the call that a command depends on.  Addresses are text. */
  datatype Control = Control(
    ip6: bool, remote: string, local: string, protocol: int,
    packetSize: int, bitPattern: int, tos: int, ttl: int, probeTimeout: int,
    remotePort: int, localPort: int, mark: int, sequence: int)
  {
    predicate Valid() {
      && IsWord(remote) && |remote| <= MAX_ADDRESS_TEXT && NUL !in remote
      && IsWord(local) && |local| <= MAX_ADDRESS_TEXT && NUL !in local
      && protocol in {IPPROTO_ICMP, IPPROTO_UDP, IPPROTO_TCP, IPPROTO_SCTP}
      && IsInt32(packetSize) && IsInt32(bitPattern) && IsInt32(tos) && IsInt32(ttl)
      && IsInt32(probeTimeout) && IsInt32(remotePort) && IsInt32(localPort) && IsInt32(mark)
      && IsInt32(sequence)
    }

    /** The probe this control block asks for. */
    function Intended(): ProbeParam {
      ProbeParam(if ip6 then 6 else 4, sequence, Some(remote), Some(local), protocol,
                 remotePort, localPort, tos, mark, ttl, packetSize, bitPattern,
                 TruncDiv(probeTimeout, 1_000_000))
    }
  }

  // ----- printing -----

  /** `snprintf` into a buffer of the given size. */
  function Snprintf(size: nat, text: string): string
    requires size > 0
  {
    if |text| < size then text else text[..size - 1]
  }

  /** `strncat`: append at most `limit` characters. */
  function Strncat(text: string, more: string, limit: nat): string {
    text + if |more| <= limit then more else more[..limit]
  }

  function ProtocolName(protocol: int): string {
    if protocol == IPPROTO_ICMP then "icmp"
    else if protocol == IPPROTO_UDP then "udp"
    else if protocol == IPPROTO_TCP then "tcp"
    else "sctp"
  }

  function BaseWords(c: Control): seq<string> {
    [Decimal(c.sequence), "send-probe", if c.ip6 then "ip-6" else "ip-4", c.remote,
     if c.ip6 then "local-ip-6" else "local-ip-4", c.local, "protocol", ProtocolName(c.protocol)]
  }

  method ConstructBaseCommand(c: Control) returns (command: string)
    requires c.Valid()
    ensures command == Join(BaseWords(c)) && |command| <= 150
  {
    var ipType, localIpType;
    if c.ip6 {
      ipType, localIpType := "ip-6", "local-ip-6";
    } else {
      ipType, localIpType := "ip-4", "local-ip-4";
    }
    var protocol;
    if c.protocol == IPPROTO_ICMP {
      protocol := "icmp";
    } else if c.protocol == IPPROTO_UDP {
      protocol := "udp";
    } else if c.protocol == IPPROTO_TCP {
      protocol := "tcp";
    } else {
      protocol := "sctp";
    }
    DecimalLength(c.sequence);
    JoinEight(Decimal(c.sequence), "send-probe", ipType, c.remote, localIpType, c.local, "protocol", protocol);
    command := Snprintf(COMMAND_BUFFER_SIZE,
      Decimal(c.sequence) + " " + "send-probe" + " " + ipType + " " + c.remote + " "
      + localIpType + " " + c.local + " " + "protocol" + " " + protocol);
  }

  lemma JoinTwo(a: string, b: string)
    ensures Join([a, b]) == a + " " + b
  {
    assert [a, b][1..] == [b];
    assert JoinWith(" ", [b]) == b;
  }

  lemma JoinEight(a: string, b: string, c: string, d: string,
                                     e: string, f: string, g: string, h: string)
    ensures Join([a, b, c, d, e, f, g, h])
         == a + " " + b + " " + c + " " + d + " " + e + " " + f + " " + g + " " + h
  {
    var cd, ef, gh := [c, d], [e, f], [g, h];
    JoinTwo(a, b); JoinTwo(c, d); JoinTwo(e, f); JoinTwo(g, h);
    JoinAppend([a, b], cd);
    JoinAppend([a, b] + cd, ef);
    JoinAppend([a, b] + cd + ef, gh);
    assert [a, b] + cd + ef + gh == [a, b, c, d, e, f, g, h];
    assert a + " " + b + " " + (c + " " + d) == a + " " + b + " " + c + " " + d;
    assert Join([a, b] + cd) + " " + (e + " " + f) == Join([a, b] + cd) + " " + e + " " + f;
    assert Join([a, b] + cd + ef) + " " + (g + " " + h) == Join([a, b] + cd + ef) + " " + g + " " + h;
  }

  method AppendCommandArgument(command: string, name: string, value: int, ghost ws: seq<string>)
      returns (extended: string)
    requires IsInt32(value) && |name| <= 11
    requires |command| <= 4000
    requires ws != [] && command == Join(ws)
    ensures extended == Join(ws + [name, Decimal(value)])
    ensures |extended| <= |command| + 24
  {
    var remainingSize := COMMAND_BUFFER_SIZE - |command| - 1;
    DecimalLength(value);
    var argument := Snprintf(COMMAND_BUFFER_SIZE, " " + name + " " + Decimal(value));
    extended := Strncat(command, argument, remainingSize);
    JoinAppend(ws, [name, Decimal(value)]);
    JoinTwo(name, Decimal(value));
    assert command + (" " + name + " " + Decimal(value)) == command + " " + (name + " " + Decimal(value));
  }

  function OptionalWords(name: string, value: int): seq<string> {
    if value == 0 then [] else [name, Decimal(value)]
  }

  lemma NoWords(ws: seq<string>, name: string)
    ensures ws + OptionalWords(name, 0) == ws
  {}

  function FixedWords(c: Control): seq<string> {
    ["size", Decimal(c.packetSize), "bit-pattern", Decimal(c.bitPattern), "tos", Decimal(c.tos),
     "ttl", Decimal(c.ttl), "timeout", Decimal(TruncDiv(c.probeTimeout, 1_000_000))]
  }

  /** The words of the command line, in order. */
  function CommandWords(c: Control): seq<string> {
    BaseWords(c) + FixedWords(c) + OptionalWords("port", c.remotePort)
    + OptionalWords("local-port", c.localPort) + OptionalWords("mark", c.mark)
  }

  lemma TimeoutFits(c: Control)
    requires c.Valid()
    ensures IsInt32(TruncDiv(c.probeTimeout, 1_000_000))
  {}

  /** What is written to the pipe: one line, never truncated. */
  method SendProbeCommand(c: Control) returns (line: string)
    requires c.Valid()
    ensures line == Join(CommandWords(c)) + "\n"
    ensures |line| <= MAX_LINE
  {
    hide Join, Decimal, TruncDiv;
    TimeoutFits(c);
    var command := ConstructBaseCommand(c);
    ghost var ws := BaseWords(c);
    command := AppendCommandArgument(command, "size", c.packetSize, ws);
    ws := ws + ["size", Decimal(c.packetSize)];
    command := AppendCommandArgument(command, "bit-pattern", c.bitPattern, ws);
    ws := ws + ["bit-pattern", Decimal(c.bitPattern)];
    command := AppendCommandArgument(command, "tos", c.tos, ws);
    ws := ws + ["tos", Decimal(c.tos)];
    command := AppendCommandArgument(command, "ttl", c.ttl, ws);
    ws := ws + ["ttl", Decimal(c.ttl)];
    var timeout := TruncDiv(c.probeTimeout, 1_000_000);
    command := AppendCommandArgument(command, "timeout", timeout, ws);
    ws := ws + ["timeout", Decimal(timeout)];
    assert ws == BaseWords(c) + FixedWords(c);
    if c.remotePort != 0 {
      command := AppendCommandArgument(command, "port", c.remotePort, ws);
    } else {
      NoWords(ws, "port");
    }
    ws := ws + OptionalWords("port", c.remotePort);
    if c.localPort != 0 {
      command := AppendCommandArgument(command, "local-port", c.localPort, ws);
    } else {
      NoWords(ws, "local-port");
    }
    ws := ws + OptionalWords("local-port", c.localPort);
    if c.mark != 0 {
      command := AppendCommandArgument(command, "mark", c.mark, ws);
    } else {
      NoWords(ws, "mark");
    }
    ws := ws + OptionalWords("mark", c.mark);
    var remainingSize := COMMAND_BUFFER_SIZE - |command| - 1;
    line := Strncat(command, "\n", remainingSize);
  }

  // ----- reading it back -----

  /** A local port that would need a privileged bind. */
  predicate Refused(c: Control) { c.localPort != 0 && c.localPort < MIN_UNPRIVILEGED_PORT }

  lemma DecimalIsWord(x: int)
    ensures IsWord(Decimal(x)) && NUL !in Decimal(x)
  {
    var s := Decimal(x);
    forall i | 0 <= i < |s|
      ensures !IsSpace(s[i]) && s[i] != NUL
    {
      assert IsDigit(s[i]) || s[i] == '-';
    }
  }

  lemma WholeDecimal(x: int)
    requires IsInt32(x)
    ensures WholeNumber(Decimal(x)) == Some(x)
  {
    StrtolWholeDecimal(x);
    ToInt32Exact(x);
  }

  /** The name and value words `ws` turn the defaults for `token` into `p`; they are plain words. */
  ghost predicate Says(token: int, ws: seq<string>, p: Option<ProbeParam>) {
    && |ws| % 2 == 0
    && (forall w :: w in ws ==> IsWord(w) && NUL !in w)
    && DecodedAll(Defaults(token), Pairs(ws)) == p
  }

  lemma SaysMore(token: int, ws: seq<string>, p: ProbeParam, name: string, value: string)
    requires Says(token, ws, Some(p)) && IsWord(name) && NUL !in name && IsWord(value) && NUL !in value
    ensures Says(token, ws + [name, value], Decoded(p, Argument(name, value)))
  {
    PairsAppend(ws, name, value);
    var all := Pairs(ws) + [Argument(name, value)];
    assert all[..|all| - 1] == Pairs(ws);
  }

  lemma NumberDecoded(p: ProbeParam, name: string, v: int)
    requires IsInt32(v) && name in NUMERIC_NAMES
    ensures Decoded(p, Argument(name, Decimal(v)))
         == if name == "local-port" && v < MIN_UNPRIVILEGED_PORT then None else Some(Assign(p, name, v))
  {
    hide Assign, Decimal;
    WholeDecimal(v);
  }

  lemma SaysNumber(token: int, ws: seq<string>, p: ProbeParam, name: string, v: int)
    requires Says(token, ws, Some(p)) && IsInt32(v)
    requires name in NUMERIC_NAMES && IsWord(name) && NUL !in name
    ensures Says(token, ws + [name, Decimal(v)],
                 if name == "local-port" && v < MIN_UNPRIVILEGED_PORT then None else Some(Assign(p, name, v)))
  {
    hide Says, Decoded, Decimal, Assign;
    DecimalIsWord(v);
    NumberDecoded(p, name, v);
    SaysMore(token, ws, p, name, Decimal(v));
  }

  lemma SaysOptional(token: int, ws: seq<string>, p: ProbeParam, name: string, v: int)
    requires Says(token, ws, Some(p)) && IsInt32(v)
    requires name in NUMERIC_NAMES && IsWord(name) && NUL !in name
    requires Assign(p, name, 0) == p
    ensures Says(token, ws + OptionalWords(name, v),
                 if name == "local-port" && v != 0 && v < MIN_UNPRIVILEGED_PORT then None
                 else Some(Assign(p, name, v)))
  {
    if v == 0 {
      assert ws + [] == ws;
    } else {
      SaysNumber(token, ws, p, name, v);
    }
  }

  lemma SaysEnough(token: int)
    ensures Says(token, [], Some(Defaults(token)))
  {}

  lemma SaysAddresses(c: Control, p: ProbeParam)
    requires c.Valid() && Says(c.sequence, [], Some(p))
    ensures Says(c.sequence, BaseWords(c)[2..6],
                 Some(p.(ipVersion := if c.ip6 then 6 else 4,
                         remoteAddress := Some(c.remote), localAddress := Some(c.local))))
  {
    hide DecodedAll, Pairs, Says, WholeNumber, Decimal;
    var ip, local := BaseWords(c)[2], BaseWords(c)[4];
    SaysMore(c.sequence, [], p, ip, c.remote);
    var q := p.(ipVersion := if c.ip6 then 6 else 4, remoteAddress := Some(c.remote));
    SaysMore(c.sequence, [] + [ip, c.remote], q, local, c.local);
    assert BaseWords(c)[2..6] == [] + [ip, c.remote] + [local, c.local];
  }

  lemma SaysProtocol(token: int, ws: seq<string>, p: ProbeParam, protocol: int)
    requires Says(token, ws, Some(p))
    requires protocol in {IPPROTO_ICMP, IPPROTO_UDP, IPPROTO_TCP, IPPROTO_SCTP}
    ensures Says(token, ws + ["protocol", ProtocolName(protocol)], Some(p.(protocol := protocol)))
  {
    hide DecodedAll, Pairs, Says, WholeNumber;
    SaysMore(token, ws, p, "protocol", ProtocolName(protocol));
  }

  lemma BaseSays(c: Control)
    requires c.Valid()
    ensures Says(c.sequence, BaseWords(c)[2..],
                 Some(Defaults(c.sequence).(ipVersion := if c.ip6 then 6 else 4,
                   remoteAddress := Some(c.remote), localAddress := Some(c.local), protocol := c.protocol)))
  {
    hide DecodedAll, Pairs, Says, Decimal;
    var p := Defaults(c.sequence);
    SaysEnough(c.sequence);
    SaysAddresses(c, p);
    var q := p.(ipVersion := if c.ip6 then 6 else 4,
                remoteAddress := Some(c.remote), localAddress := Some(c.local));
    SaysProtocol(c.sequence, BaseWords(c)[2..6], q, c.protocol);
    assert BaseWords(c)[2..] == BaseWords(c)[2..6] + ["protocol", ProtocolName(c.protocol)];
  }

  lemma FixedSays(c: Control)
    requires c.Valid()
    ensures Says(c.sequence, BaseWords(c)[2..] + FixedWords(c),
                 Some(c.Intended().(destPort := 0, localPort := 0, routingMark := 0)))
  {
    hide DecodedAll, Decoded, Pairs, Decimal, Says, TruncDiv;
    var t := c.sequence;
    var timeout := TruncDiv(c.probeTimeout, 1_000_000);
    var p := Defaults(t).(ipVersion := if c.ip6 then 6 else 4, remoteAddress := Some(c.remote),
                          localAddress := Some(c.local), protocol := c.protocol);
    var ws := BaseWords(c)[2..];
    BaseSays(c);
    TimeoutFits(c);
    SaysNumber(t, ws, p, "size", c.packetSize);
    p, ws := p.(packetSize := c.packetSize), ws + ["size", Decimal(c.packetSize)];
    SaysNumber(t, ws, p, "bit-pattern", c.bitPattern);
    p, ws := p.(bitPattern := c.bitPattern), ws + ["bit-pattern", Decimal(c.bitPattern)];
    SaysNumber(t, ws, p, "tos", c.tos);
    p, ws := p.(typeOfService := c.tos), ws + ["tos", Decimal(c.tos)];
    SaysNumber(t, ws, p, "ttl", c.ttl);
    p, ws := p.(ttl := c.ttl), ws + ["ttl", Decimal(c.ttl)];
    SaysNumber(t, ws, p, "timeout", timeout);
    p, ws := p.(timeout := timeout), ws + ["timeout", Decimal(timeout)];
    assert ws == BaseWords(c)[2..] + FixedWords(c);
  }

  /**
   * For every control block: the printed line is delivered whole, within the buffer and the
   * argument limit, and the daemon reads back exactly the probe that was meant.  It is refused
   * exactly when a privileged local port was asked for.
   */
  lemma CommandRoundTrip(c: Control)
    requires c.Valid()
    ensures var text := Join(CommandWords(c));
            && Scan(START, text + "\n") == Scanner("", [Line(text)])
            && ParseLine(text).Parsed?
            && ParseLine(text).command.token == c.sequence
            && ParseLine(text).command.name == "send-probe"
            && |ParseLine(text).command.arguments| <= 11
            && DecodedAll(Defaults(c.sequence), ParseLine(text).command.arguments)
               == if Refused(c) then None else Some(c.Intended())
  {
    hide DecodedAll, Pairs, Says, Decimal, Join, Words, Strtol, BaseWords, FixedWords, OptionalWords;
    BaseStarts(c);
    var ws, text := CommandWords(c), Join(CommandWords(c));
    CommandSays(c);
    AllAreWords(c);
    WordsOfJoin(ws);
    WordsMakeOneLine(ws);
    CommandWordsShort(c);
    JoinShort(ws);
    ScanLine([], text, "");
    assert text + "\n" + "" == text + "\n";
    assert ws[0] == Decimal(c.sequence) && ws[1] == "send-probe";
    StrtolWholeDecimal(c.sequence);
    ToInt32Exact(c.sequence);
    SaysMeans(c.sequence, ws[2..], if Refused(c) then None else Some(c.Intended()));
    PairsLength(ws[2..]);
  }

  /** A control block that is refused: local port 80. */
  lemma RefusedExample()
    ensures var c := Control(false, "10.0.0.2", "10.0.0.1", IPPROTO_UDP, 64, 0, 0, 1, 10_000_000, 0, 80, 0, 33000);
            && c.Valid() && ParseLine(Join(CommandWords(c))).Parsed?
            && DecodedAll(Defaults(33000), ParseLine(Join(CommandWords(c))).command.arguments) == None
  {
    hide CommandWords, Join, ParseLine, DecodedAll;
    AddressWords();
    CommandRoundTrip(Control(false, "10.0.0.2", "10.0.0.1", IPPROTO_UDP, 64, 0, 0, 1, 10_000_000, 0, 80, 0, 33000));
  }

  lemma AddressWords()
    ensures IsWord("10.0.0.2") && NUL !in "10.0.0.2" && IsWord("10.0.0.1") && NUL !in "10.0.0.1"
  {}

  lemma SaysMeans(token: int, ws: seq<string>, p: Option<ProbeParam>)
    requires Says(token, ws, p)
    ensures |ws| % 2 == 0 && DecodedAll(Defaults(token), Pairs(ws)) == p
    ensures forall w :: w in ws ==> IsWord(w) && NUL !in w
  {}

  lemma SaysNoMore(token: int, ws: seq<string>, name: string, v: int)
    requires Says(token, ws, None) && IsWord(name) && NUL !in name
    ensures Says(token, ws + OptionalWords(name, v), None)
  {
    if v == 0 {
      assert ws + [] == ws;
    } else {
      DecimalIsWord(v);
      PairsAppend(ws, name, Decimal(v));
      var all := Pairs(ws) + [Argument(name, Decimal(v))];
      assert all[..|all| - 1] == Pairs(ws);
    }
  }

  lemma CommandSays(c: Control)
    requires c.Valid()
    ensures Says(c.sequence, CommandWords(c)[2..], if Refused(c) then None else Some(c.Intended()))
  {
    hide DecodedAll, Decoded, Pairs, Decimal, Says, TruncDiv, OptionalWords, BaseWords, FixedWords;
    BaseLength(c);
    var t := c.sequence;
    var ws := BaseWords(c)[2..] + FixedWords(c);
    var p := c.Intended().(destPort := 0, localPort := 0, routingMark := 0);
    FixedSays(c);
    SaysOptional(t, ws, p, "port", c.remotePort);
    ws, p := ws + OptionalWords("port", c.remotePort), p.(destPort := c.remotePort);
    SaysOptional(t, ws, p, "local-port", c.localPort);
    ws, p := ws + OptionalWords("local-port", c.localPort), p.(localPort := c.localPort);
    if Refused(c) {
      SaysNoMore(t, ws, "mark", c.mark);
    } else {
      SaysOptional(t, ws, p, "mark", c.mark);
    }
    assert CommandWords(c)[2..] == ws + OptionalWords("mark", c.mark);
  }

  lemma BaseLength(c: Control)
    ensures |BaseWords(c)| == 8
  {}

  lemma BaseStarts(c: Control)
    ensures |CommandWords(c)| >= 2
    ensures CommandWords(c)[0] == Decimal(c.sequence) && CommandWords(c)[1] == "send-probe"
  {}

  lemma AllAreWords(c: Control)
    requires c.Valid()
    ensures forall w :: w in CommandWords(c) ==> IsWord(w) && NUL !in w
  {
    hide Decimal, IsWord, BaseWords, FixedWords, OptionalWords, Says, CommandWords;
    var ws := CommandWords(c);
    CommandSays(c);
    BaseStarts(c);
    SaysMeans(c.sequence, ws[2..], if Refused(c) then None else Some(c.Intended()));
    DecimalIsWord(c.sequence);
    SendProbeIsWord();
    assert ws == [ws[0], ws[1]] + ws[2..];
  }

  lemma SendProbeIsWord()
    ensures IsWord("send-probe") && NUL !in "send-probe"
  {}

  ghost predicate Short(ws: seq<string>) { forall i :: 0 <= i < |ws| ==> |ws[i]| <= MAX_ADDRESS_TEXT }

  lemma ShortTogether(a: seq<string>, b: seq<string>)
    requires Short(a) && Short(b)
    ensures Short(a + b)
  {}

  lemma ShortBase(c: Control)
    requires c.Valid()
    ensures Short(BaseWords(c)) && |BaseWords(c)| == 8
  {
    hide Decimal;
    DecimalLength(c.sequence);
  }

  lemma ShortFixed(c: Control)
    requires c.Valid()
    ensures Short(FixedWords(c)) && |FixedWords(c)| == 10
  {
    hide Decimal, TruncDiv;
    TimeoutFits(c);
    DecimalLength(c.packetSize);
    DecimalLength(c.bitPattern);
    DecimalLength(c.tos);
    DecimalLength(c.ttl);
    DecimalLength(TruncDiv(c.probeTimeout, 1_000_000));
  }

  lemma ShortOptional(name: string, v: int)
    requires |name| <= MAX_ADDRESS_TEXT && IsInt32(v)
    ensures Short(OptionalWords(name, v)) && |OptionalWords(name, v)| <= 2
  {
    hide Decimal;
    DecimalLength(v);
  }

  lemma CommandWordsShort(c: Control)
    requires c.Valid()
    ensures Short(CommandWords(c)) && 2 <= |CommandWords(c)| <= 24
  {
    hide Short, BaseWords, FixedWords, OptionalWords;
    ShortBase(c);
    ShortFixed(c);
    ShortOptional("port", c.remotePort);
    ShortOptional("local-port", c.localPort);
    ShortOptional("mark", c.mark);
    ShortTogether(BaseWords(c), FixedWords(c));
    ShortTogether(BaseWords(c) + FixedWords(c), OptionalWords("port", c.remotePort));
    ShortTogether(BaseWords(c) + FixedWords(c) + OptionalWords("port", c.remotePort),
                  OptionalWords("local-port", c.localPort));
    ShortTogether(BaseWords(c) + FixedWords(c) + OptionalWords("port", c.remotePort)
                  + OptionalWords("local-port", c.localPort), OptionalWords("mark", c.mark));
  }

  lemma {:induction false} JoinShort(ws: seq<string>)
    requires ws != [] && Short(ws)
    ensures |Join(ws)| <= (MAX_ADDRESS_TEXT + 1) * |ws|
  {
    if |ws| > 1 {
      JoinShort(ws[1..]);
    }
  }

  lemma WordIsOneLine(w: string)
    requires IsWord(w)
    ensures '\n' !in w
  {
    assert forall i :: 0 <= i < |w| ==> !IsSpace(w[i]);
    assert IsSpace('\n');
  }

  lemma {:induction false} WordsMakeOneLine(ws: seq<string>)
    requires ws != [] && forall w :: w in ws ==> IsWord(w) && NUL !in w
    ensures OneLine(Join(ws)) && NUL !in Join(ws)
  {
    assert ws[0] in ws;
    WordIsOneLine(ws[0]);
    if |ws| > 1 {
      WordsMakeOneLine(ws[1..]);
    }
  }

  lemma {:induction false} PairsLength(ws: seq<string>)
    requires |ws| % 2 == 0
    ensures |Pairs(ws)| == |ws| / 2
  {
    if ws != [] {
      PairsLength(ws[2..]);
    }
  }
}
