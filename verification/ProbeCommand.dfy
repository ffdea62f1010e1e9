/**
 * The `send-probe` command at both ends of the pipe: how mtr-packet decodes it (packet/command.c)
 * and how the front end prints it (ui/cmdpipe.c).
 */
module ProbeCommand {
  import opened CInt
  import opened Text
  import opened Framing
  import opened CmdParse
  import opened Options

  const IPPROTO_ICMP := 1
  const IPPROTO_TCP := 6
  const IPPROTO_UDP := 17
  const IPPROTO_SCTP := 132

  const MIN_UNPRIVILEGED_PORT := 1024

  /** A socket address, by its family and its text. */
  datatype Address = Address(ip6: bool, text: string)

  /** `struct probe_param_t`; an address that was not given is a null pointer. */
  datatype ProbeParam = ProbeParam(
    ipVersion: int, commandToken: int,
    remoteAddress: Option<string>, localAddress: Option<string>,
    protocol: int, destPort: int, localPort: int, typeOfService: int, routingMark: int,
    ttl: int, packetSize: int, bitPattern: int, timeout: int)

  // ----- decoding -----

  function Defaults(token: int): ProbeParam {
    ProbeParam(0, token, None, None, IPPROTO_ICMP, 0, 0, 0, 0, 255, 64, 0, 10)
  }

  function ProtocolNumber(name: string): Option<int> {
    if name == "icmp" then Some(IPPROTO_ICMP)
    else if name == "udp" then Some(IPPROTO_UDP)
    else if name == "tcp" then Some(IPPROTO_TCP)
    else if name == "sctp" then Some(IPPROTO_SCTP)
    else None
  }

  /** A number must be the whole value; a `long` is then narrowed to an `int`. */
  function WholeNumber(value: string): Option<int> {
    var r := Strtol(value);
    if r.used == |value| then Some(ToInt32(r.value)) else None
  }

  /** The effect of one argument, or None if the argument is refused.  Unknown names are ignored. */
  function Decoded(p: ProbeParam, a: Argument): Option<ProbeParam> {
    var number := WholeNumber(a.value);
    if a.name == "ip-4" then Some(p.(ipVersion := 4, remoteAddress := Some(a.value)))
    else if a.name == "ip-6" then Some(p.(ipVersion := 6, remoteAddress := Some(a.value)))
    else if a.name == "local-ip-4" || a.name == "local-ip-6" then Some(p.(localAddress := Some(a.value)))
    else if a.name == "protocol" then
      var protocol := ProtocolNumber(a.value);
      if protocol.None? then None else Some(p.(protocol := protocol.value))
    else if a.name !in NUMERIC_NAMES then Some(p)
    else if number.None? then None
    else if a.name == "local-port" && number.value < MIN_UNPRIVILEGED_PORT then None
    else Some(Assign(p, a.name, number.value))
  }

  const NUMERIC_NAMES := {"port", "local-port", "tos", "mark", "size", "bit-pattern", "ttl", "timeout"}

  function Assign(p: ProbeParam, name: string, v: int): ProbeParam
    requires name in NUMERIC_NAMES
  {
    if name == "port" then p.(destPort := v)
    else if name == "local-port" then p.(localPort := v)
    else if name == "tos" then p.(typeOfService := v)
    else if name == "mark" then p.(routingMark := v)
    else if name == "size" then p.(packetSize := v)
    else if name == "bit-pattern" then p.(bitPattern := v)
    else if name == "ttl" then p.(ttl := v)
    else p.(timeout := v)
  }

  /** All the arguments, in order. */
  function DecodedAll(p: ProbeParam, arguments: seq<Argument>): Option<ProbeParam> {
    if arguments == [] then Some(p)
    else
      var before := DecodedAll(p, arguments[..|arguments| - 1]);
      if before.None? then None else Decoded(before.value, arguments[|arguments| - 1])
  }

  /** One numeric argument: the field is assigned before the text after the number is examined. */
  method DecodeNumber(value: string) returns (ok: bool, number: int)
    ensures ok == WholeNumber(value).Some?
    ensures ok ==> number == WholeNumber(value).value
  {
    var parsed := Strtol(value);
    number := ToInt32(parsed.value);
    ok := parsed.used == |value|;
  }

  method DecodeProbeArgument(p: ProbeParam, a: Argument) returns (ok: bool, param: ProbeParam)
    ensures ok == Decoded(p, a).Some?
    ensures ok ==> param == Decoded(p, a).value
  {
    hide Strtol, WholeNumber;
    ok, param := true, p;
    var number;
    var name := a.name;
    if name == "ip-4" {
      param := param.(ipVersion := 4);
      param := param.(remoteAddress := Some(a.value));
    }
    if name == "ip-6" {
      param := param.(ipVersion := 6);
      param := param.(remoteAddress := Some(a.value));
    }
    if name == "local-ip-4" {
      param := param.(localAddress := Some(a.value));
    }
    if name == "local-ip-6" {
      param := param.(localAddress := Some(a.value));
    }
    if name == "protocol" {
      if a.value == "icmp" {
        param := param.(protocol := IPPROTO_ICMP);
      } else if a.value == "udp" {
        param := param.(protocol := IPPROTO_UDP);
      } else if a.value == "tcp" {
        param := param.(protocol := IPPROTO_TCP);
      } else if a.value == "sctp" {
        param := param.(protocol := IPPROTO_SCTP);
      } else {
        return false, param;
      }
    }
    if name == "port" {
      ok, number := DecodeNumber(a.value);
      param := param.(destPort := number);
      if !ok { return; }
    }
    if name == "local-port" {
      ok, number := DecodeNumber(a.value);
      param := param.(localPort := number);
      if !ok { return; }
      if param.localPort < MIN_UNPRIVILEGED_PORT {
        param := param.(localPort := 0);
        return false, param;
      }
    }
    if name == "tos" {
      ok, number := DecodeNumber(a.value);
      param := param.(typeOfService := number);
      if !ok { return; }
    }
    if name == "mark" {
      ok, number := DecodeNumber(a.value);
      param := param.(routingMark := number);
      if !ok { return; }
    }
    if name == "size" {
      ok, number := DecodeNumber(a.value);
      param := param.(packetSize := number);
      if !ok { return; }
    }
    if name == "bit-pattern" {
      ok, number := DecodeNumber(a.value);
      param := param.(bitPattern := number);
      if !ok { return; }
    }
    if name == "ttl" {
      ok, number := DecodeNumber(a.value);
      param := param.(ttl := number);
      if !ok { return; }
    }
    if name == "timeout" {
      ok, number := DecodeNumber(a.value);
      param := param.(timeout := number);
      if !ok { return; }
    }
  }

  // ----- what the command asks for -----

  /** What the platform was able to open. */
  datatype Support = Support(ip4: bool, ip6: bool, sctp: bool)

  predicate VersionSupported(s: Support, version: int) {
    (version == 4 && s.ip4) || (version == 6 && s.ip6)
  }

  predicate ProtocolSupported(s: Support, protocol: int) {
    protocol == IPPROTO_ICMP || protocol == IPPROTO_UDP || protocol == IPPROTO_TCP
    || (protocol == IPPROTO_SCTP && s.sctp)
  }

  datatype Refusal = InvalidArgument | IpVersionNotSupported | ProtocolNotSupported
  datatype Request = Send(param: ProbeParam) | Refuse(reason: Refusal)

  function Requested(command: Command, support: Support): Request {
    var p := DecodedAll(Defaults(command.token), command.arguments);
    if p.None? then Refuse(InvalidArgument)
    else if !VersionSupported(support, p.value.ipVersion) then Refuse(IpVersionNotSupported)
    else if !ProtocolSupported(support, p.value.protocol) then Refuse(ProtocolNotSupported)
    else Send(p.value)
  }

  /** Decode the arguments one at a time and stop at the first that is refused. */
  method PrepareProbe(command: Command, support: Support) returns (request: Request)
    ensures request == Requested(command, support)
  {
    var param := Defaults(command.token);
    var i := 0;
    while i < |command.arguments|
      invariant 0 <= i <= |command.arguments|
      invariant DecodedAll(Defaults(command.token), command.arguments[..i]) == Some(param)
    {
      assert command.arguments[..i + 1][..i] == command.arguments[..i];
      var ok;
      ok, param := DecodeProbeArgument(param, command.arguments[i]);
      if !ok {
        RefusedEarly(Defaults(command.token), command.arguments, i + 1);
        return Refuse(InvalidArgument);
      }
      i := i + 1;
    }
    assert command.arguments[..i] == command.arguments;
    if !VersionSupported(support, param.ipVersion) {
      return Refuse(IpVersionNotSupported);
    }
    if !ProtocolSupported(support, param.protocol) {
      return Refuse(ProtocolNotSupported);
    }
    request := Send(param);
  }

  lemma {:induction false} RefusedEarly(p: ProbeParam, arguments: seq<Argument>, n: nat)
    requires n <= |arguments| && DecodedAll(p, arguments[..n]).None?
    ensures DecodedAll(p, arguments).None?
    decreases |arguments|
  {
    if n < |arguments| {
      var shorter := arguments[..|arguments| - 1];
      assert shorter[..n] == arguments[..n];
      RefusedEarly(p, shorter, n);
    } else {
      assert arguments[..n] == arguments;
    }
  }
}
