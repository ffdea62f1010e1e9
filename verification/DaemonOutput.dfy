/**
 * Everything mtr-packet prints, as text, and what the front end makes of it: over whole runs, each
 * line arrives as printed, parses, and becomes a report exactly when it is an answer to a probe.
 */
module DaemonOutput {
  import opened CInt
  import opened Text
  import opened Seqs
  import opened TimeVal
  import opened Sequences
  import opened Framing
  import opened LineBuffers
  import opened CmdParse
  import opened ProbeCommand
  import opened CommandLine
  import opened Options
  import opened Construct
  import opened Mpls
  import opened ReplyLine
  import opened Recognise
  import opened Engine
  import opened EngineTheorems

  // ----- the text of a line -----

  const ECONNREFUSED_NUMBER := 111

  function ErrnoNumber(e: Errno): int { if e.OtherErrno? then e.code else ECONNREFUSED_NUMBER }

  function ReportWords(r: ErrorReport): (ws: seq<string>)
    ensures ws != []
  {
    match r
    case ReportInvalidArgument => ["invalid-argument"]
    case ReportNetworkDown => ["network-down"]
    case ReportNoRoute => ["no-route"]
    case ReportPermissionDenied => ["permission-denied"]
    case ReportAddressInUse => ["address-in-use"]
    case ReportAddressNotAvailable => ["address-not-available"]
    case ReportUnexpected(e) => ["unexpected-error", "errno", Decimal(ErrnoNumber(e))]
  }

  function RefusalWords(r: Refusal): (ws: seq<string>)
    ensures ws != []
  {
    match r
    case InvalidArgument => ["invalid-argument"]
    case IpVersionNotSupported => ["invalid-argument", "reason", "ip-version-not-supported"]
    case ProtocolNotSupported => ["invalid-argument", "reason", "protocol-not-supported"]
  }

  function LineWords(l: OutputLine): (ws: seq<string>)
    ensures ws != []
  {
    match l
    case Answered(response) => ReplyWords(response)
    case NoReply(token) => [Decimal(token), "no-reply"]
    case SendFailed(token, report) => [Decimal(token)] + ReportWords(report)
    case ProbesExhausted(token) => [Decimal(token), "probes-exhausted"]
    case BadAddress(token) => [Decimal(token), "invalid-argument"]
    case RequestRefused(token, reason) => [Decimal(token)] + RefusalWords(reason)
    case Noticed(notice) =>
      match notice
      case CommandParseError => [Decimal(0), "command-parse-error"]
      case CommandBufferOverflow => [Decimal(0), "command-buffer-overflow"]
      case UnknownCommand(token) => [Decimal(token), "unknown-command"]
      case FeatureSupport(token, support) => [Decimal(token), "feature-support", "support", support]
      case FeatureMissing(token) => [Decimal(token), "invalid-argument"]
  }

  /** The number a line begins with. */
  function LineToken(l: OutputLine): int {
    if TokenOf(l).Some? then TokenOf(l).value
    else
      match l.notice
      case UnknownCommand(token) => token
      case FeatureSupport(token, _) => token
      case FeatureMissing(token) => token
      case _ => 0
  }

  function Printed(l: OutputLine): string { Join(LineWords(l)) }

  const WORD_LIMIT := 150

  predicate WordOk(w: string) { IsWord(w) && NUL !in w && |w| <= WORD_LIMIT }

  /** The texts `inet_ntop` prints are short words. */
  ghost predicate AddressesOk(isAddress: string -> bool) {
    forall t :: isAddress(t) ==> IsWord(t) && NUL !in t && |t| <= MAX_ADDRESS_TEXT
  }

  predicate ErrnoOk(e: Errno) { IsInt32(ErrnoNumber(e)) }

  /** What can be said of every line the daemon prints. */
  ghost predicate LineOk(isAddress: string -> bool, l: OutputLine) {
    && IsInt32(LineToken(l))
    && (l.Answered? ==> isAddress(l.response.address) && l.response.Valid() && AllValid(l.response.labels))
    && (l.SendFailed? && l.report.ReportUnexpected? ==> ErrnoOk(l.report.errno))
    && (l.Noticed? && l.notice.FeatureSupport? ==> WordOk(l.notice.support))
  }

  lemma {:induction false} MplsTextBounded(ls: seq<Label>)
    requires ls != [] && AllValid(ls) && |ls| <= MAX_MPLS_LABELS
    ensures |MplsText(ls)| <= 17 * |ls|
  {
    hide LabelText;
    var n := |ls| - 1;
    assert ls == ls[..n] + [ls[n]];
    LabelTextShort(ls[n]);
    if n == 0 {
      MplsTextOne(ls[0]);
    } else {
      MplsTextBounded(ls[..n]);
      MplsTextAppend(ls[..n], ls[n]);
    }
  }

  lemma ShortNumber(x: int)
    requires IsInt32(x)
    ensures WordOk(Decimal(x))
  {
    DecimalIsWord(x);
    DecimalLength(x);
  }

  lemma ErrorWordsOk()
    ensures WordOk("invalid-argument") && WordOk("network-down") && WordOk("no-route") && WordOk("permission-denied")
  {}

  lemma AddressWordsOk()
    ensures WordOk("address-in-use") && WordOk("address-not-available")
  {}

  lemma UnexpectedWordsOk()
    ensures WordOk("unexpected-error") && WordOk("errno") && WordOk("reason") && WordOk("no-reply")
  {}

  lemma ReasonWordsOk()
    ensures WordOk("ip-version-not-supported") && WordOk("protocol-not-supported")
  {}

  lemma CommandWordsOk()
    ensures WordOk("command-parse-error") && WordOk("unknown-command") && WordOk("probes-exhausted")
  {}

  lemma FeatureWordsOk()
    ensures WordOk("command-buffer-overflow") && WordOk("feature-support") && WordOk("support")
  {}

  lemma AnswerWordsOk(r: Response)
    requires r.Valid() && AllValid(r.labels)
    ensures forall w :: w in ReplyWords(r) ==> WordOk(w)
  {
    hide Decimal, ToInt32, MplsText, IsWord;
    ReplyWordsAreWords(r);
    ShortNumber(r.token);
    ShortNumber(ToInt32(r.roundTripUs));
    if r.labels != [] {
      MplsTextBounded(r.labels);
    }
  }

  lemma LineWordsOk(isAddress: string -> bool, l: OutputLine)
    requires LineOk(isAddress, l)
    ensures var ws := LineWords(l); 2 <= |ws| <= 8 && |ws| % 2 == 0
    ensures LineWords(l)[0] == Decimal(LineToken(l))
    ensures forall w :: w in LineWords(l) ==> WordOk(w)
  {
    ShortNumber(LineToken(l));
    ErrorWordsOk();
    AddressWordsOk();
    UnexpectedWordsOk();
    ReasonWordsOk();
    CommandWordsOk();
    FeatureWordsOk();
    if l.Answered? {
      AnswerWordsOk(l.response);
    } else if l.SendFailed? && l.report.ReportUnexpected? {
      ShortNumber(ErrnoNumber(l.report.errno));
    }
    hide Decimal, ToInt32, MplsText, WordOk;
  }

  lemma {:induction false} JoinBounded(ws: seq<string>)
    requires ws != [] && forall w :: w in ws ==> |w| <= WORD_LIMIT
    ensures |Join(ws)| <= (WORD_LIMIT + 1) * |ws|
  {
    assert ws[0] in ws;
    if |ws| > 1 {
      JoinBounded(ws[1..]);
    }
  }

  /** Whatever is printed is one line that survives framing and parses under the line's token. */
  lemma PrintedArrives(isAddress: string -> bool, l: OutputLine)
    requires LineOk(isAddress, l)
    ensures OneLine(Printed(l)) && NUL !in Printed(l) && |Printed(l)| <= MAX_LINE
    ensures var ws := LineWords(l);
            |ws| >= 2 && |ws| % 2 == 0 && ParseLine(Printed(l)) == Parsed(CmdParse.Command(LineToken(l), ws[1], Pairs(ws[2..])))
  {
    hide LineWords, Join, Words, Strtol, Pairs, LineToken, Decimal;
    LineWordsOk(isAddress, l);
    var ws := LineWords(l);
    WordsMakeOneLine(ws);
    JoinBounded(ws);
    WordsOfJoin(ws);
    StrtolWholeDecimal(LineToken(l));
    ToInt32Exact(LineToken(l));
  }

  /** The name under which each line goes out, written out. */
  function NameOf(l: OutputLine): string {
    match l
    case Answered(r) =>
      (match r.icmp case EchoReply => "reply" case TimeExceeded => "ttl-expired" case DestUnreach => "no-route")
    case NoReply(_) => "no-reply"
    case SendFailed(_, report) =>
      (match report
       case ReportInvalidArgument => "invalid-argument"
       case ReportNetworkDown => "network-down"
       case ReportNoRoute => "no-route"
       case ReportPermissionDenied => "permission-denied"
       case ReportAddressInUse => "address-in-use"
       case ReportAddressNotAvailable => "address-not-available"
       case ReportUnexpected(_) => "unexpected-error")
    case ProbesExhausted(_) => "probes-exhausted"
    case BadAddress(_) => "invalid-argument"
    case RequestRefused(_, _) => "invalid-argument"
    case Noticed(n) =>
      (match n
       case CommandParseError => "command-parse-error"
       case CommandBufferOverflow => "command-buffer-overflow"
       case UnknownCommand(_) => "unknown-command"
       case FeatureSupport(_, _) => "feature-support"
       case FeatureMissing(_) => "invalid-argument")
  }

  lemma AnswerName(r: Response)
    ensures |LineWords(Answered(r))| >= 2 && LineWords(Answered(r))[1] == NameOf(Answered(r))
  {
    hide Decimal, ToInt32, MplsText;
  }

  lemma ErrorName(token: int, report: ErrorReport)
    ensures |LineWords(SendFailed(token, report))| >= 2
    ensures LineWords(SendFailed(token, report))[1] == NameOf(SendFailed(token, report))
  {
    hide Decimal;
  }

  lemma SecondWord(l: OutputLine)
    ensures |LineWords(l)| >= 2 && LineWords(l)[1] == NameOf(l)
  {
    hide Decimal, ReplyWords, ReportWords;
    if l.Answered? {
      AnswerName(l.response);
    } else if l.SendFailed? {
      ErrorName(l.token, l.report);
    }
  }

  lemma NamesAreSaid(isAddress: string -> bool, l: OutputLine)
    requires LineOk(isAddress, l)
    ensures ParseLine(Printed(l)).Parsed? && ParseLine(Printed(l)).command.name == NameOf(l)
    ensures ParseLine(Printed(l)).command.token == LineToken(l)
  {
    hide LineWords, NameOf, LineOk, ParseLine, Printed, LineToken;
    PrintedArrives(isAddress, l);
    SecondWord(l);
  }

  /** Which line a failed send prints, by errno. */
  lemma ErrnoNames(token: int, e: Errno)
    ensures var name := NameOf(SendFailed(token, ReportFor(e)));
            && (e == EINVAL ==> name == "invalid-argument") && (e == ENETDOWN ==> name == "network-down")
            && (e == ENETUNREACH || e == EHOSTUNREACH ==> name == "no-route")
            && (e == EPERM ==> name == "permission-denied") && (e == EADDRINUSE ==> name == "address-in-use")
            && (e == EADDRNOTAVAIL ==> name == "address-not-available")
            && (e == ECONNREFUSED || e.OtherErrno? ==> name == "unexpected-error")
  {}

  // ----- what the front end makes of it -----

  predicate IsFatal(l: OutputLine) {
    match l
    case SendFailed(_, report) => !(report.ReportNetworkDown? || report.ReportNoRoute?)
    case ProbesExhausted(_) => true
    case BadAddress(_) => true
    case RequestRefused(_, _) => true
    case Noticed(notice) => notice.FeatureMissing?
    case _ => false
  }

  lemma {:induction false} NoAddressFound(arguments: seq<CmdParse.Argument>, ip6: bool, isAddress: string -> bool)
    requires forall a :: a in arguments ==> a.name != if ip6 then "ip-6" else "ip-4"
    ensures !GatherAll(arguments, ip6, isAddress).foundIp
    decreases |arguments|
  {
    hide ParsedMpls, Strtol;
    if arguments != [] {
      NoAddressFound(arguments[..|arguments| - 1], ip6, isAddress);
    }
  }

  lemma OneArgument(name: string, value: string)
    ensures Pairs([name, value]) == [CmdParse.Argument(name, value)]
  {
    PairsOfNone();
    PairsAppend([], name, value);
    assert [] + [name, value] == [name, value];
  }

  lemma AnswerArguments(r: Response)
    requires |ReplyWords(r)| % 2 == 0
    ensures forall a :: a in Pairs(ReplyWords(r)[2..]) ==>
              a.name == (if r.ip6 then "ip-6" else "ip-4") || a.name == "round-trip-time" || a.name == "mpls"
  {
    hide Decimal, ToInt32, MplsText, Pairs;
    var ip, time := if r.ip6 then "ip-6" else "ip-4", Decimal(ToInt32(r.roundTripUs));
    OneArgument(ip, r.address);
    PairsAppend([ip, r.address], "round-trip-time", time);
    var both := [ip, r.address] + ["round-trip-time", time];
    if r.labels == [] {
      assert ReplyWords(r)[2..] == both;
    } else {
      PairsAppend(both, "mpls", MplsText(r.labels));
      assert ReplyWords(r)[2..] == both + ["mpls", MplsText(r.labels)];
    }
  }

  /** A line that is no answer has at most one argument. */
  lemma OtherArguments(l: OutputLine)
    requires !l.Answered?
    ensures var ws := LineWords(l);
            |ws| == 2 || (|ws| == 4 && (ws[2] == "errno" || ws[2] == "reason" || ws[2] == "support"))
  {
    hide Decimal, ReplyWords;
  }

  /** The arguments of a line that is not an answer in our address family name no address of it. */
  lemma NoAddressNamed(l: OutputLine, ip6: bool)
    requires !l.Answered? || l.response.ip6 != ip6
    requires |LineWords(l)| >= 2 && |LineWords(l)| % 2 == 0
    ensures forall a :: a in Pairs(LineWords(l)[2..]) ==> a.name != if ip6 then "ip-6" else "ip-4"
  {
    if l.Answered? {
      AnswerArguments(l.response);
      assert LineWords(l) == ReplyWords(l.response);
    } else {
      hide LineWords, Pairs;
      OtherArguments(l);
      PairsOfNone();
      var ws := LineWords(l)[2..];
      if ws != [] {
        OneArgument(ws[0], ws[1]);
        assert ws == [ws[0], ws[1]];
      }
    }
  }

  /** The lines that stop the front end, by their second word. */
  lemma FatalNames(l: OutputLine)
    ensures |LineWords(l)| >= 2 && (IsErrorName(LineWords(l)[1]) <==> IsFatal(l))
  {
    hide Decimal, ToInt32, MplsText;
  }

  lemma HandledByName(line: string, c: CmdParse.Command, ip6: bool, isAddress: string -> bool)
    ensures ParseLine(line) == Parsed(c) && !GatherAll(c.arguments, ip6, isAddress).foundIp ==>
              HandledReply(line, ip6, isAddress) == if IsErrorName(c.name) then Fatal else Ignored
  {
    hide ParseLine, GatherAll, IsErrorName;
  }

  /** What the front end should make of a line. */
  ghost predicate HandledWell(l: OutputLine, h: Handled, ip6: bool) {
    if l.Answered? && l.response.ip6 == ip6 then
      && h.Report? && h.sequence == l.response.token && h.address == l.response.address
      && h.roundTrip == ToInt32(l.response.roundTripUs)
      && h.err == (if l.response.icmp == DestUnreach then NetUnreach else NoError)
      && h.mpls.Valid() && h.mpls.Labels() == l.response.labels
    else h == if IsFatal(l) then Fatal else Ignored
  }

  /**
   * A line becomes a report if and only if it answers a probe in the front end's address family, and
   * then with the same token, address, time, result and labels; other lines are ignored or fatal.
   */
  lemma ReportIffAnswered(isAddress: string -> bool, l: OutputLine, ip6: bool)
    requires LineOk(isAddress, l)
    ensures HandledWell(l, HandledReply(Printed(l), ip6, isAddress), ip6)
  {
    hide HandledWell, LineOk, Printed, HandledReply;
    if l.Answered? && l.response.ip6 == ip6 {
      AnswerReported(isAddress, l, ip6);
    } else {
      OthersHandled(isAddress, l, ip6);
    }
  }

  lemma AnswerReported(isAddress: string -> bool, l: OutputLine, ip6: bool)
    requires LineOk(isAddress, l) && l.Answered? && l.response.ip6 == ip6
    ensures HandledWell(l, HandledReply(Printed(l), ip6, isAddress), ip6)
  {
    hide LineWords, HandledReply, ReplyWords, ToInt32, Printed;
    ReplyRoundTrip(l.response, isAddress);
    PrintedAnswer(l);
  }

  lemma OthersHandled(isAddress: string -> bool, l: OutputLine, ip6: bool)
    requires LineOk(isAddress, l) && !(l.Answered? && l.response.ip6 == ip6)
    ensures HandledWell(l, HandledReply(Printed(l), ip6, isAddress), ip6)
  {
    hide LineWords, LineOk, HandledReply, ParseLine, Pairs, GatherAll, IsFatal, IsErrorName, Printed;
    PrintedArrives(isAddress, l);
    NoAddressNamed(l, ip6);
    var ws := LineWords(l);
    NoAddressFound(Pairs(ws[2..]), ip6, isAddress);
    HandledByName(Printed(l), CmdParse.Command(LineToken(l), ws[1], Pairs(ws[2..])), ip6, isAddress);
    FatalNames(l);
  }

  lemma PrintedAnswer(l: OutputLine)
    requires l.Answered?
    ensures Printed(l) == Join(ReplyWords(l.response))
  {}

  // ----- whole runs -----

  ghost predicate ProbeOk(isAddress: string -> bool, p: ProbeRecord) {
    IsInt32(p.token) && isAddress(p.remoteAddress.text)
  }

  /** All that was printed and all that may yet be answered. */
  ghost predicate Printable(isAddress: string -> bool, s: State) {
    && (forall l :: l in s.output ==> LineOk(isAddress, l))
    && (forall p :: p in s.probes ==> ProbeOk(isAddress, p))
  }

  /** The system resolves to addresses, and its error numbers are numbers. */
  ghost predicate SystemOk(isAddress: string -> bool, os: SendOutcome) {
    && (os.resolves.Some? ==> isAddress(os.resolves.value))
    && (forall k :: ErrnoOk(os.system(k).errno))
    && (os.sendError.Some? ==> ErrnoOk(os.sendError.value))
  }

  ghost predicate TurnOk(isAddress: string -> bool, turn: Turn) {
    && (forall i :: 0 <= i < |turn.packets| ==> isAddress(turn.packets[i].from))
    && (forall k :: turn.sockets(k).Failed? ==> ErrnoOk(turn.sockets(k).err))
    && (forall n :: SystemOk(isAddress, turn.sends(n)))
  }

  lemma SayOk(isAddress: string -> bool, s: State, l: OutputLine)
    requires Printable(isAddress, s) && LineOk(isAddress, l)
    ensures Printable(isAddress, Say(s, l))
  {
    hide LineOk, ProbeOk;
  }

  lemma RetireOk(isAddress: string -> bool, s: State, k: nat, l: OutputLine)
    requires Printable(isAddress, s) && LineOk(isAddress, l) && k < |s.probes|
    ensures Printable(isAddress, Retire(s, k, l))
  {
    hide LineOk, ProbeOk;
    WithoutAt(s.probes, k);
  }

  lemma AnswerOk(isAddress: string -> bool, p: ProbeRecord, icmp: IcmpResult, from: Address,
                                    received: Time, labels: seq<Label>)
    requires AddressesOk(isAddress) && IsInt32(p.token) && isAddress(from.text)
    requires AllValid(labels) && |labels| <= MAX_MPLS_LABELS
    ensures LineOk(isAddress, Answer(p, icmp, from, received, labels))
  {}

  lemma LabelsAreOk(config: NetConfig, bytes: seq<Byte>)
    ensures var ls := PacketLabels(config, bytes); AllValid(ls) && |ls| <= MAX_MPLS_LABELS
  {
    hide FirstMplsPayload;
  }

  lemma {:induction false} ReceivePrintable(isAddress: string -> bool, config: NetConfig, s: State, packets: seq<Packet>)
    requires AddressesOk(isAddress) && Printable(isAddress, s)
    requires forall i :: 0 <= i < |packets| ==> isAddress(packets[i].from)
    ensures Printable(isAddress, ReceiveAll(config, s, packets))
    decreases |packets|
  {
    hide SelectPacket, PacketLabels, LineOk, Answer, AddressesOk, Retire;
    if packets != [] {
      var n := |packets| - 1;
      ReceivePrintable(isAddress, config, s, packets[..n]);
      var before, packet := ReceiveAll(config, s, packets[..n]), packets[n];
      var m := SelectPacket(config, SequencesOf(before.probes), packet.bytes);
      if m.Some? {
        var p, labels := before.probes[m.value.index], PacketLabels(config, packet.bytes);
        LabelsAreOk(config, packet.bytes);
        assert ProbeOk(isAddress, p);
        AnswerOk(isAddress, p, m.value.icmp, Address(false, packet.from), packet.received, labels);
        RetireOk(isAddress, before, m.value.index,
                 Answer(p, m.value.icmp, Address(false, packet.from), packet.received, labels));
      }
    }
  }

  /** What a sweep says is fit to be printed. */
  ghost predicate VerdictOk(isAddress: string -> bool, verdict: ProbeRecord -> Option<OutputLine>) {
    forall p :: ProbeOk(isAddress, p) && verdict(p).Some? ==> LineOk(isAddress, verdict(p).value)
  }

  lemma SweepPrintable(isAddress: string -> bool, s: State, verdict: ProbeRecord -> Option<OutputLine>)
    requires Printable(isAddress, s) && VerdictOk(isAddress, verdict)
    ensures Printable(isAddress, SweepState(s, verdict))
  {
    hide LineOk, ProbeOk, Sweep;
    SweepIsExact(s.probes, verdict);
    var swept := Sweep(s.probes, verdict);
    forall l | l in swept.lines
      ensures LineOk(isAddress, l)
    {
      var p :| p in s.probes && verdict(p) == Some(l);
      assert ProbeOk(isAddress, p);
    }
  }

  lemma VerdictsOk(isAddress: string -> bool, now: Time, status: int -> SocketStatus)
    requires AddressesOk(isAddress) && forall k :: status(k).Failed? ==> ErrnoOk(status(k).err)
    ensures VerdictOk(isAddress, TimeoutVerdict(now)) && VerdictOk(isAddress, SocketVerdict(status))
  {
    hide Answer;
    var v := SocketVerdict(status);
    forall p | ProbeOk(isAddress, p) && v(p).Some?
      ensures LineOk(isAddress, v(p).value)
    {
      var st := status(p.socket);
      if st.Connected? || st.err == ECONNREFUSED {
        AnswerOk(isAddress, p, EchoReply, p.remoteAddress, st.now, []);
      } else {
        ReportOk(isAddress, p.token, st.err);
      }
    }
  }

  lemma {:induction false} TryErrnoOk(config: NetConfig, p: ProbeParam, system: nat -> System, k: nat, t: Tried)
    requires k < MAX_TRIES && forall j :: ErrnoOk(system(j).errno)
    ensures ErrnoOk(Try(config, p, system, k, t).last.errno)
    decreases MAX_TRIES - k
  {
    var a := Constructed(config, p, system(k));
    if !(a.size > 0 || !IsStream(p.protocol) || a.errno != EADDRINUSE) && k + 1 < MAX_TRIES {
      var socket := if a.socket.Some? then a.socket.value else t.socket;
      TryErrnoOk(config, p, system, k + 1,
                 Tried(a, t.nextSequence, t.issued, socket, NextSequence(t.nextSequence), t.issued + 1));
    }
  }

  lemma SettlePrintable(isAddress: string -> bool, s: State, last: Attempt, p: ProbeParam, os: SendOutcome)
    requires AddressesOk(isAddress) && Printable(isAddress, s) && s.probes != []
    requires ErrnoOk(last.errno) && (os.sendError.Some? ==> ErrnoOk(os.sendError.value))
    ensures Printable(isAddress, Settle(s, last, p, os))
  {
    hide Answer, AddressesOk, LineOk, Retire;
    var probe := s.probes[0];
    assert ProbeOk(isAddress, probe);
    AnswerOk(isAddress, probe, EchoReply, probe.remoteAddress, os.now, []);
    RetireOk(isAddress, s, 0, Answer(probe, EchoReply, probe.remoteAddress, os.now, []));
    ReportOk(isAddress, probe.token, last.errno);
    RetireOk(isAddress, s, 0, SendFailed(probe.token, ReportFor(last.errno)));
    if os.sendError.Some? {
      ReportOk(isAddress, probe.token, os.sendError.value);
      RetireOk(isAddress, s, 0, SendFailed(probe.token, ReportFor(os.sendError.value)));
    }
  }

  lemma ReportOk(isAddress: string -> bool, token: int, e: Errno)
    requires IsInt32(token) && ErrnoOk(e)
    ensures LineOk(isAddress, SendFailed(token, ReportFor(e)))
  {}

  lemma SendPrintable(isAddress: string -> bool, config: NetConfig, s: State, p: ProbeParam, os: SendOutcome)
    requires AddressesOk(isAddress) && Printable(isAddress, s) && IsInt32(p.commandToken) && SystemOk(isAddress, os)
    ensures Printable(isAddress, SendProbe(config, s, p, os))
  {
    hide Try, Settle, AddressesOk, WireOf, Printable, LineOk;
    TokenOnlyOk(isAddress, p.commandToken);
    if |s.probes| >= MAX_PROBES || !os.allocates {
      SayOk(isAddress, s, ProbesExhausted(p.commandToken));
    } else {
      var s1 := AllocProbe(s, p.commandToken);
      WithoutFirst(s.probes);
      assert s1.probes[1..] == s.probes;
      if os.resolves.None? {
        SayOk(isAddress, s, BadAddress(p.commandToken));
        SameListPrintable(isAddress, Say(s, BadAddress(p.commandToken)), Retire(s1, 0, BadAddress(p.commandToken)));
      } else {
        var s2 := AfterTries(config, s1, p, os);
        HeadPrintable(isAddress, s, s2);
        TryErrnoOk(config, p, os.system, 0,
                   Tried(NO_ATTEMPT, s1.probes[0].sequence, s1.probes[0].serial, 0, s1.nextSequence, s1.issued));
        SettlePrintable(isAddress, s2, TriesFor(config, s1, p, os).last, p, os);
      }
    }
  }

  lemma TokenOnlyOk(isAddress: string -> bool, token: int)
    requires IsInt32(token)
    ensures LineOk(isAddress, ProbesExhausted(token)) && LineOk(isAddress, BadAddress(token))
  {}

  lemma SameListPrintable(isAddress: string -> bool, s: State, r: State)
    requires Printable(isAddress, s) && r.probes == s.probes && r.output == s.output
    ensures Printable(isAddress, r)
  {}

  lemma HeadPrintable(isAddress: string -> bool, s: State, r: State)
    requires Printable(isAddress, s) && r.output == s.output && r.probes != [] && r.probes[1..] == s.probes
    requires ProbeOk(isAddress, r.probes[0])
    ensures Printable(isAddress, r)
  {
    hide LineOk, ProbeOk;
    assert r.probes == [r.probes[0]] + s.probes;
  }

  lemma NoticesOk(isAddress: string -> bool, config: Config, c: CmdParse.Command)
    requires IsInt32(c.token) && WordOk(config.version)
    ensures LineOk(isAddress, Noticed(CommandParseError)) && LineOk(isAddress, Noticed(CommandBufferOverflow))
    ensures LineOk(isAddress, Noticed(UnknownCommand(c.token))) && LineOk(isAddress, Noticed(CheckSupport(config, c)))
    ensures forall reason :: LineOk(isAddress, RequestRefused(c.token, reason))
  {
    hide FindParameter;
  }

  lemma DispatchPrintable(isAddress: string -> bool, config: Config, s: State, e: Event, os: SendOutcome)
    requires AddressesOk(isAddress) && Printable(isAddress, s) && WordOk(config.version) && SystemOk(isAddress, os)
    ensures Printable(isAddress, DispatchEvent(config, s, e, os))
  {
    hide AddressesOk, Printable, LineOk, SystemOk, WordOk, SendProbe, Requested, CheckSupport, Words, Strtol, Pairs;
    var none := CmdParse.Command(0, "", []);
    var c := if e.Line? && ParseLine(e.text).Parsed? then ParseLine(e.text).command else none;
    NoticesOk(isAddress, config, c);
    SayOk(isAddress, s, Noticed(CommandParseError));
    SayOk(isAddress, s, Noticed(CommandBufferOverflow));
    SayOk(isAddress, s, Noticed(UnknownCommand(c.token)));
    SayOk(isAddress, s, Noticed(CheckSupport(config, c)));
    DispatchedPrintable(isAddress, s, c.token);
    match Requested(c, config.support) {
      case Refuse(reason) => SayOk(isAddress, Dispatched(s, c.token), RequestRefused(c.token, reason));
      case Send(p) =>
        SendKeepsToken(c, config.support);
        SendPrintable(isAddress, config.net, Dispatched(s, c.token), p, os);
    }
  }

  lemma DispatchedPrintable(isAddress: string -> bool, s: State, token: int)
    requires Printable(isAddress, s)
    ensures Printable(isAddress, Dispatched(s, token))
  {
    hide LineOk, ProbeOk;
  }

  lemma {:induction false} DispatchAllPrintable(isAddress: string -> bool, config: Config, s: State, events: seq<Event>,
                                                os: nat -> SendOutcome)
    requires AddressesOk(isAddress) && Printable(isAddress, s) && WordOk(config.version)
    requires forall n :: SystemOk(isAddress, os(n))
    ensures Printable(isAddress, DispatchAll(config, s, events, os))
    decreases |events|
  {
    hide AddressesOk, Printable, SystemOk, WordOk, DispatchEvent;
    if events != [] {
      var n := |events| - 1;
      DispatchAllPrintable(isAddress, config, s, events[..n], os);
      DispatchPrintable(isAddress, config, DispatchAll(config, s, events[..n], os), events[n], os(n));
    }
  }

  lemma TurnPrintable(isAddress: string -> bool, config: Config, d: Daemon, turn: Turn)
    requires AddressesOk(isAddress) && WordOk(config.version) && TurnOk(isAddress, turn) && Printable(isAddress, d.net)
    ensures Printable(isAddress, OneTurn(config, d, turn).net)
  {
    hide AddressesOk, Printable, SystemOk, WordOk, VerdictOk, ReceiveAll, SweepState, DispatchAll, Scan, SocketVerdict, TimeoutVerdict, ErrnoOk;
    ReceivePrintable(isAddress, config.net, d.net, turn.packets);
    var received := ReceiveAll(config.net, d.net, turn.packets);
    VerdictsOk(isAddress, turn.now, turn.sockets);
    SweepPrintable(isAddress, received, SocketVerdict(turn.sockets));
    var s1 := SweepState(received, SocketVerdict(turn.sockets));
    SweepPrintable(isAddress, s1, TimeoutVerdict(turn.now));
    var s2 := SweepState(s1, TimeoutVerdict(turn.now));
    DispatchAllPrintable(isAddress, config, s2, Scan(START, d.partial + InputOf(d, turn)).events, turn.sends);
  }

  lemma {:induction false} RunPrintable(isAddress: string -> bool, config: Config, d: Daemon, turns: seq<Turn>)
    requires AddressesOk(isAddress) && WordOk(config.version) && Printable(isAddress, d.net)
    requires forall i :: 0 <= i < |turns| ==> TurnOk(isAddress, turns[i])
    ensures Printable(isAddress, Run(config, d, turns).net)
    decreases |turns|
  {
    hide AddressesOk, Printable, TurnOk, WordOk, OneTurn;
    if turns != [] {
      TurnPrintable(isAddress, config, d, turns[0]);
      var after := OneTurn(config, d, turns[0]);
      if !Exits(after) {
        RunPrintable(isAddress, config, after, turns[1..]);
      }
    }
  }

  /** The texts of lines, in order. */
  function Texts(lines: seq<OutputLine>): (ts: seq<string>)
    ensures |ts| == |lines| && forall i :: 0 <= i < |lines| ==> ts[i] == Printed(lines[i])
  {
    seq(|lines|, i requires 0 <= i < |lines| => Printed(lines[i]))
  }

  /**
   * The front end reads the whole output of any run line by line as it was printed, and understands
   * each line: an answer to a probe in its address family as a report with that probe's token,
   * everything else as something to ignore or an error to stop at.
   */
  lemma OutputIsUnderstood(isAddress: string -> bool, config: Config, turns: seq<Turn>, ip6: bool)
    requires AddressesOk(isAddress) && WordOk(config.version)
    requires forall i :: 0 <= i < |turns| ==> TurnOk(isAddress, turns[i])
    ensures var texts := Texts(Run(config, START_UP, turns).net.output);
            Scan(START, Encode(texts)) == Scanner("", seq(|texts|, i requires 0 <= i < |texts| => Line(texts[i])))
    ensures forall l :: l in Run(config, START_UP, turns).net.output ==>
              HandledWell(l, HandledReply(Printed(l), ip6, isAddress), ip6)
  {
    hide Run, LineOk, Printed, HandledReply, HandledWell, Scan, Encode, AddressesOk;
    RunPrintable(isAddress, config, START_UP, turns);
    var lines := Run(config, START_UP, turns).net.output;
    forall l | l in lines
      ensures HandledWell(l, HandledReply(Printed(l), ip6, isAddress), ip6)
    {
      ReportIffAnswered(isAddress, l, ip6);
    }
    var texts := Texts(lines);
    forall t | t in texts
      ensures OneLine(t) && |t| <= MAX_LINE
    {
      var i :| 0 <= i < |texts| && texts[i] == t;
      PrintedArrives(isAddress, lines[i]);
    }
    EncodedLinesArrive([], texts);
    var events := seq(|texts|, i requires 0 <= i < |texts| => Line(texts[i]));
    assert [] + events == events;
  }
}
