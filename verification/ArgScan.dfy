/**
 * What an argument vector means, read from left to right without moving anything: the reading that
 * the repeated calls of getopt (portability/getopt.c) must agree with.
 */
module ArgScan {
  import opened Options

  datatype HasArg = NoArgument | RequiredArgument | OptionalArgument

  /** `struct option`; `flag` is the variable to store into, if any. */
  datatype LongOption = LongOption(name: string, hasArg: HasArg, flag: Option<nat>, val: int)

  datatype Ordering = RequireOrder | Permute | ReturnInOrder

  /** What one call is given; a null table of long options is None. */
  datatype Syntax = Syntax(optstring: string, longopts: Option<seq<LongOption>>, ordering: Ordering)

  /** What one call stores besides optarg: optopt for a bad option, longind and the flag for a long one. */
  datatype Effect = Nothing | BadOption(c: char) | LongFound(index: nat, flag: Option<nat>, val: int)

  /** What one call tells its caller. */
  datatype Event = Event(value: int, arg: Option<string>, effect: Effect)

  /** The variables an effect may change. */
  datatype Globals = Globals(longind: nat, optopt: char, flags: map<nat, int>)

  function Changed(g: Globals, e: Effect): Globals {
    match e
    case Nothing => g
    case BadOption(c) => g.(optopt := c)
    case LongFound(k, flag, val) =>
      g.(longind := k, flags := if flag.Some? then g.flags[flag.value := val] else g.flags)
  }

  /** A decoded option: what it leaves of a cluster and how many elements it finishes. */
  datatype Step = Step(event: Event, pending: string, used: nat)

  /** The events in order, and for each element whether option parsing consumed it. */
  datatype Outcome = Outcome(events: seq<Event>, taken: seq<bool>)

  predicate IsNonOption(e: string) { |e| == 0 || e[0] != '-' || |e| == 1 }

  predicate IsLong(sp: Syntax, e: string) { sp.longopts.Some? && |e| > 1 && e[1] == '-' }

  function NoEvent(value: int): Event { Event(value, None, Nothing) }

  /** A long option with a flag stores its value there and reports 0. */
  function LongEvent(k: nat, o: LongOption, arg: Option<string>): Event {
    Event(if o.flag.Some? then 0 else o.val, arg, LongFound(k, o.flag, o.val))
  }

  // ----- long options -----

  predicate Matches(o: LongOption, key: string) { |key| <= |o.name| && o.name[..|key|] == key }

  function FirstExact(os: seq<LongOption>, key: string, i: nat): (k: nat)
    requires i <= |os|
    ensures i <= k <= |os|
    ensures k < |os| ==> os[k].name == key
    ensures forall j :: i <= j < k ==> os[j].name != key
    decreases |os| - i
  {
    if i == |os| || os[i].name == key then i else FirstExact(os, key, i + 1)
  }

  function FirstMatch(os: seq<LongOption>, key: string, i: nat): (k: nat)
    requires i <= |os|
    ensures i <= k <= |os|
    ensures k < |os| ==> Matches(os[k], key)
    ensures forall j :: i <= j < k ==> !Matches(os[j], key)
    decreases |os| - i
  {
    if i == |os| || Matches(os[i], key) then i else FirstMatch(os, key, i + 1)
  }

  datatype Match = Found(index: nat) | Ambiguous | Unknown

  /** An exact name wins; otherwise an abbreviation must fit one option only. */
  function Resolve(os: seq<LongOption>, key: string): (m: Match)
    ensures m.Found? ==> m.index < |os| && Matches(os[m.index], key)
  {
    var e, k := FirstExact(os, key, 0), FirstMatch(os, key, 0);
    if e < |os| then Found(e)
    else if k == |os| then Unknown
    else if FirstMatch(os, key, k + 1) < |os| then Ambiguous
    else Found(k)
  }

  /** Which option a name selects, said without the search. */
  ghost predicate Selects(os: seq<LongOption>, key: string, k: nat) {
    k < |os| && Matches(os[k], key) &&
    if os[k].name == key then forall j :: 0 <= j < k ==> os[j].name != key
    else forall j :: 0 <= j < |os| && j != k ==> !Matches(os[j], key)
  }

  lemma ResolveSelects(os: seq<LongOption>, key: string, k: nat)
    ensures Resolve(os, key) == Found(k) <==> Selects(os, key, k)
    ensures Resolve(os, key).Unknown? <==> forall j :: 0 <= j < |os| ==> !Matches(os[j], key)
  {}

  function NameEnd(s: string): (n: nat)
    ensures n <= |s| && '=' !in s[..n] && (n < |s| ==> s[n] == '=')
  {
    if s == "" || s[0] == '=' then 0 else 1 + NameEnd(s[1..])
  }

  function MissingArgument(sp: Syntax): int {
    if |sp.optstring| > 0 && sp.optstring[0] == ':' then ':' as int else '?' as int
  }

  /** Long option number k has been selected by the first `end` characters. */
  function FoundStep(sp: Syntax, k: nat, o: LongOption, pending: string, end: nat, next: Option<string>): (s: Step)
    requires end <= |pending|
    ensures 1 <= s.used <= 2 && s.pending == "" && (s.used == 2 ==> next.Some?)
  {
    if end < |pending| then
      if o.hasArg.NoArgument? then Step(NoEvent('?' as int), "", 1)
      else Step(LongEvent(k, o, Some(pending[end + 1..])), "", 1)
    else if !o.hasArg.RequiredArgument? then Step(LongEvent(k, o, None), "", 1)
    else if next.Some? then Step(LongEvent(k, o, next), "", 2)
    else Step(NoEvent(MissingArgument(sp)), "", 1)
  }

  function LongStep(sp: Syntax, pending: string, next: Option<string>): (s: Step)
    requires sp.longopts.Some?
    ensures 1 <= s.used <= 2 && s.pending == "" && (s.used == 2 ==> next.Some?)
  {
    var os, end := sp.longopts.value, NameEnd(pending);
    match Resolve(os, pending[..end])
    case Ambiguous => Step(NoEvent('?' as int), "", 1)
    case Unknown => Step(NoEvent('?' as int), "", 1)
    case Found(k) => FoundStep(sp, k, os[k], pending, end, next)
  }

  // ----- short options -----

  function IndexOf(s: string, c: char): (k: nat)
    ensures k <= |s| && (k < |s| ==> s[k] == c) && c !in s[..k]
  {
    if s == "" || s[0] == c then 0 else 1 + IndexOf(s[1..], c)
  }

  /** The kind of the short option `c`, if the option string lists it. */
  function ShortKind(optstring: string, c: char): Option<HasArg> {
    var k := IndexOf(optstring, c);
    if k == |optstring| || c == ':' then None
    else if k + 1 < |optstring| && optstring[k + 1] == ':' then
      if k + 2 < |optstring| && optstring[k + 2] == ':' then Some(OptionalArgument) else Some(RequiredArgument)
    else Some(NoArgument)
  }

  function ShortStep(sp: Syntax, pending: string, next: Option<string>): (s: Step)
    requires pending != ""
    ensures s.used <= 2 && (s.used == 2 ==> next.Some?)
    ensures if s.used == 0 then s.pending != "" && |s.pending| < |pending| else s.pending == ""
  {
    var c, rest := pending[0], pending[1..];
    var kind := ShortKind(sp.optstring, c);
    var last := if rest == "" then 1 else 0;
    if kind.None? then Step(Event('?' as int, None, BadOption(c)), rest, last)
    else if kind.value.NoArgument? then Step(NoEvent(c as int), rest, last)
    else if rest != "" then Step(Event(c as int, Some(rest), Nothing), "", 1)
    else if kind.value.OptionalArgument? then Step(NoEvent(c as int), "", 1)
    else if next.Some? then Step(Event(c as int, next, Nothing), "", 2)
    else Step(Event(MissingArgument(sp), None, BadOption(c)), "", 1)
  }

  // ----- a whole vector -----

  /** Decode one option of the option element `e`, of which `pending` is still to be read. */
  function DecodeStep(sp: Syntax, e: string, pending: string, next: Option<string>): (s: Step)
    requires pending != ""
    ensures s.used <= 2 && (s.used == 2 ==> next.Some?)
    ensures if s.used == 0 then s.pending != "" && |s.pending| < |pending| else s.pending == ""
  {
    if IsLong(sp, e) then LongStep(sp, pending, next) else ShortStep(sp, pending, next)
  }

  /** What remains of an option element after its punctuation. */
  function Opened(sp: Syntax, e: string): (pending: string)
    requires !IsNonOption(e) && e != "--"
    ensures pending != "" && |pending| < |e|
  {
    e[if IsLong(sp, e) then 2 else 1..]
  }

  function At(args: seq<string>, i: nat): Option<string> { if i < |args| then Some(args[i]) else None }

  function CharsLeft(args: seq<string>, i: nat, pending: string): nat {
    if pending != "" then |pending| else if i < |args| then |args[i]| else 0
  }

  function Repeat(b: bool, n: nat): (bs: seq<bool>)
    ensures |bs| == n && forall k :: 0 <= k < n ==> bs[k] == b
  {
    seq(n, _ => b)
  }

  /**
   * Read `args` from element `i` on, `pending` being what is left of an element already begun. The
   * first event is decoded by `sp`, the following ones by `later`.
   */
  function Scan(args: seq<string>, i: nat, pending: string, sp: Syntax, later: Syntax): (o: Outcome)
    requires i <= |args| && (pending != "" ==> i < |args|)
    ensures |o.taken| == |args| - i
    decreases |args| - i, CharsLeft(args, i, pending)
  {
    if pending == "" && i == |args| then Outcome([], [])
    else if pending == "" && args[i] == "--" then Outcome([], [true] + Repeat(false, |args| - i - 1))
    else if pending == "" && IsNonOption(args[i]) then
      if sp.ordering.RequireOrder? then Outcome([], Repeat(false, |args| - i))
      else if sp.ordering.Permute? then
        var o := Scan(args, i + 1, "", sp, later);
        Outcome(o.events, [false] + o.taken)
      else
        var o := Scan(args, i + 1, "", later, later);
        Outcome([Event(1, Some(args[i]), Nothing)] + o.events, [true] + o.taken)
    else
      var s := DecodeStep(sp, args[i], if pending == "" then Opened(sp, args[i]) else pending, At(args, i + 1));
      var o := Scan(args, i + s.used, s.pending, later, later);
      Outcome([s.event] + o.events, Repeat(true, s.used) + o.taken)
  }
}
