/**
 * What a `send-probe` command means, name by name: every field has the value of the last argument
 * that names it, or its default; and what check-support promises is what send-probe accepts.
 */
module CommandMeaning {
  import opened CInt
  import opened Text
  import opened CmdParse
  import opened ProbeCommand
  import opened CommandLine
  import opened Options
  import opened Engine

  /** The value of the last argument with the name. */
  function Last(arguments: seq<CmdParse.Argument>, name: string): Option<string> {
    if arguments == [] then None
    else if arguments[|arguments| - 1].name == name then Some(arguments[|arguments| - 1].value)
    else Last(arguments[..|arguments| - 1], name)
  }

  function NumberOr(value: Option<string>, default: int): int {
    if value.Some? && WholeNumber(value.value).Some? then WholeNumber(value.value).value else default
  }

  predicate IsProtocolName(value: string) { value == "icmp" || value == "udp" || value == "tcp" || value == "sctp" }

  predicate IsNumeric(name: string) {
    name == "port" || name == "local-port" || name == "tos" || name == "mark"
    || name == "size" || name == "bit-pattern" || name == "ttl" || name == "timeout"
  }

  /** The only arguments that are refused. */
  predicate IsBad(a: CmdParse.Argument) {
    (a.name == "protocol" && !IsProtocolName(a.value))
    || (IsNumeric(a.name) && WholeNumber(a.value).None?)
    || (a.name == "local-port" && WholeNumber(a.value).Some? && WholeNumber(a.value).value < 1024)
  }

  predicate NoneBad(arguments: seq<CmdParse.Argument>) {
    forall i :: 0 <= i < |arguments| ==> !IsBad(arguments[i])
  }

  /** A command is refused for its arguments exactly when one of them is bad. */
  lemma {:induction false} RefusedIffBad(p: ProbeParam, arguments: seq<CmdParse.Argument>)
    ensures DecodedAll(p, arguments).Some? <==> NoneBad(arguments)
    decreases |arguments|
  {
    hide WholeNumber;
    if arguments != [] {
      var n := |arguments| - 1;
      RefusedIffBad(p, arguments[..n]);
      assert NoneBad(arguments) <==> NoneBad(arguments[..n]) && !IsBad(arguments[n]) by {
        assert forall i :: 0 <= i < n ==> arguments[..n][i] == arguments[i];
      }
      hide NoneBad;
      OneRefusedIffBad(arguments[n]);
    }
  }

  lemma OneRefusedIffBad(a: CmdParse.Argument)
    ensures forall p :: Decoded(p, a).Some? <==> !IsBad(a)
  {
    hide WholeNumber, Assign;
  }

  lemma LastOneMore(arguments: seq<CmdParse.Argument>, name: string)
    requires arguments != []
    ensures var n := |arguments| - 1;
            Last(arguments, name) == if arguments[n].name == name then Some(arguments[n].value) else Last(arguments[..n], name)
  {}

  /** What one argument does to the numeric fields. */
  lemma OneNumber(p: ProbeParam, a: CmdParse.Argument)
    requires Decoded(p, a).Some?
    ensures var q := Decoded(p, a).value;
            && q.commandToken == p.commandToken
            && (IsNumeric(a.name) ==> WholeNumber(a.value).Some?)
            && q.destPort == (if a.name == "port" then NumberOr(Some(a.value), 0) else p.destPort)
            && q.localPort == (if a.name == "local-port" then NumberOr(Some(a.value), 0) else p.localPort)
            && q.typeOfService == (if a.name == "tos" then NumberOr(Some(a.value), 0) else p.typeOfService)
            && q.routingMark == (if a.name == "mark" then NumberOr(Some(a.value), 0) else p.routingMark)
            && q.packetSize == (if a.name == "size" then NumberOr(Some(a.value), 64) else p.packetSize)
            && q.bitPattern == (if a.name == "bit-pattern" then NumberOr(Some(a.value), 0) else p.bitPattern)
            && q.ttl == (if a.name == "ttl" then NumberOr(Some(a.value), 255) else p.ttl)
            && q.timeout == (if a.name == "timeout" then NumberOr(Some(a.value), 10) else p.timeout)
  {
    hide WholeNumber;
  }

  /** The numeric fields. */
  lemma {:induction false} NumbersAreLast(token: int, arguments: seq<CmdParse.Argument>)
    requires DecodedAll(Defaults(token), arguments).Some?
    ensures var p := DecodedAll(Defaults(token), arguments).value;
            && p.commandToken == token
            && p.destPort == NumberOr(Last(arguments, "port"), 0)
            && p.localPort == NumberOr(Last(arguments, "local-port"), 0)
            && p.typeOfService == NumberOr(Last(arguments, "tos"), 0)
            && p.routingMark == NumberOr(Last(arguments, "mark"), 0)
            && p.packetSize == NumberOr(Last(arguments, "size"), 64)
            && p.bitPattern == NumberOr(Last(arguments, "bit-pattern"), 0)
            && p.ttl == NumberOr(Last(arguments, "ttl"), 255)
            && p.timeout == NumberOr(Last(arguments, "timeout"), 10)
    decreases |arguments|
  {
    if arguments == [] {
      NothingNamed();
    } else {
      var front, a := arguments[..|arguments| - 1], arguments[|arguments| - 1];
      NumbersAreLast(token, front);
      OneNumber(DecodedAll(Defaults(token), front).value, a);
      LastOneMore(arguments, "port");
      LastOneMore(arguments, "local-port");
      LastOneMore(arguments, "tos");
      LastOneMore(arguments, "mark");
      LastOneMore(arguments, "size");
      LastOneMore(arguments, "bit-pattern");
      LastOneMore(arguments, "ttl");
      LastOneMore(arguments, "timeout");
      hide Last, Decoded, NumberOr, IsNumeric, WholeNumber, Defaults;
    }
  }

  lemma NothingNamed()
    ensures forall name :: Last([], name) == None
  {}

  /** The protocol number of a name, by the registry. */
  function ProtocolOf(name: string): int {
    if name == "icmp" then 1 else if name == "udp" then 17 else if name == "tcp" then 6 else 132
  }

  /** What one argument does to protocol and addresses. */
  lemma OneName(p: ProbeParam, a: CmdParse.Argument)
    requires Decoded(p, a).Some?
    ensures var q := Decoded(p, a).value;
            && q.protocol == (if a.name == "protocol" then ProtocolOf(a.value) else p.protocol)
            && q.ipVersion == (if a.name == "ip-4" then 4 else if a.name == "ip-6" then 6 else p.ipVersion)
            && q.remoteAddress == (if a.name == "ip-4" || a.name == "ip-6" then Some(a.value) else p.remoteAddress)
            && q.localAddress == (if a.name == "local-ip-4" || a.name == "local-ip-6" then Some(a.value) else p.localAddress)
  {
    hide WholeNumber;
  }

  /** The last argument that names a remote address, with its version. */
  function LastRemote(arguments: seq<CmdParse.Argument>): Option<CmdParse.Argument> {
    if arguments == [] then None
    else
      var a := arguments[|arguments| - 1];
      if a.name == "ip-4" || a.name == "ip-6" then Some(a) else LastRemote(arguments[..|arguments| - 1])
  }

  function LastLocal(arguments: seq<CmdParse.Argument>): Option<string> {
    if arguments == [] then None
    else
      var a := arguments[|arguments| - 1];
      if a.name == "local-ip-4" || a.name == "local-ip-6" then Some(a.value) else LastLocal(arguments[..|arguments| - 1])
  }

  ghost predicate RemoteIs(p: ProbeParam, remote: Option<CmdParse.Argument>) {
    if remote.None? then p.ipVersion == 0 && p.remoteAddress == None
    else p.remoteAddress == Some(remote.value.value) && p.ipVersion == (if remote.value.name == "ip-4" then 4 else 6)
  }

  /** Protocol and addresses. */
  lemma {:induction false} NamesAreLast(token: int, arguments: seq<CmdParse.Argument>)
    requires DecodedAll(Defaults(token), arguments).Some?
    ensures var p, protocol := DecodedAll(Defaults(token), arguments).value, Last(arguments, "protocol");
            && p.protocol == (if protocol.Some? then ProtocolOf(protocol.value) else 1)
            && RemoteIs(p, LastRemote(arguments)) && p.localAddress == LastLocal(arguments)
    decreases |arguments|
  {
    if arguments != [] {
      var front, a := arguments[..|arguments| - 1], arguments[|arguments| - 1];
      NamesAreLast(token, front);
      OneName(DecodedAll(Defaults(token), front).value, a);
      LastOneMore(arguments, "protocol");
      hide Last, Decoded, ProtocolOf, Defaults;
    }
  }

  // ----- support -----

  function VersionFeature(version: int): string { if version == 4 then "ip-4" else "ip-6" }

  /** A well-formed command is carried out iff check-support says ok of its IP version and its protocol. */
  lemma SupportIsHonest(config: Config, c: CmdParse.Command, protocol: string)
    requires NoneBad(c.arguments) && LastRemote(c.arguments).Some?
    requires protocol == if Last(c.arguments, "protocol").Some? then Last(c.arguments, "protocol").value else "icmp"
    ensures var p := DecodedAll(Defaults(c.token), c.arguments);
            && p.Some?
            && (Requested(c, config.support).Send? <==>
                  FeatureAnswer(config, VersionFeature(p.value.ipVersion)) == "ok" && FeatureAnswer(config, protocol) == "ok")
  {
    hide Last, LastRemote, LastLocal, NoneBad, DecodedAll, WholeNumber;
    RefusedIffBad(Defaults(c.token), c.arguments);
    NamesAreLast(c.token, c.arguments);
    if Last(c.arguments, "protocol").Some? {
      LastIsNotBad(c.arguments, "protocol");
    }
  }

  lemma {:induction false} LastIsNotBad(arguments: seq<CmdParse.Argument>, name: string)
    requires NoneBad(arguments) && Last(arguments, name).Some?
    ensures !IsBad(CmdParse.Argument(name, Last(arguments, name).value))
    decreases |arguments|
  {
    var n := |arguments| - 1;
    if arguments[n].name == name {
      assert arguments[n] == CmdParse.Argument(name, Last(arguments, name).value);
    } else {
      assert forall i :: 0 <= i < n ==> arguments[..n][i] == arguments[i];
      LastIsNotBad(arguments[..n], name);
    }
  }
}
