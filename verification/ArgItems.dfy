/**
 * A command line written from a list of intended options and operands, and the proof that reading it
 * gives back what was intended: flags, clusters, attached, separate and optional arguments, long names
 * and their abbreviations, operands and "--", and each kind of mistake.
 */
module ArgItems {
  import opened Options
  import opened ArgScan
  import opened Partition

  // ----- what an option string lists -----

  /** The option string lists the character, followed by the colons that say what kind it is. */
  ghost predicate Lists(optstring: string, c: char, kind: HasArg) {
    c != ':' &&
    exists k :: 0 <= k < |optstring| && optstring[k] == c && c !in optstring[..k] && Colons(optstring[k + 1..], kind)
  }

  predicate Colons(after: string, kind: HasArg) {
    match kind
    case NoArgument => after == "" || after[0] != ':'
    case RequiredArgument => |after| >= 1 && after[0] == ':' && (|after| == 1 || after[1] != ':')
    case OptionalArgument => |after| >= 2 && after[0] == ':' && after[1] == ':'
  }

  ghost predicate Unlisted(optstring: string, c: char) { c == ':' || c !in optstring }

  lemma KindIsListed(optstring: string, c: char)
    ensures forall kind :: Lists(optstring, c, kind) ==> ShortKind(optstring, c) == Some(kind)
    ensures Unlisted(optstring, c) <==> ShortKind(optstring, c) == None
    ensures ShortKind(optstring, c).Some? ==> Lists(optstring, c, ShortKind(optstring, c).value)
  {
    ListedIsKind(optstring, c);
    NotFound(optstring, c);
    var k := IndexOf(optstring, c);
    if k < |optstring| {
      assert optstring[k] in optstring;
      if c != ':' {
        KindByColons(optstring, c, k);
      }
    }
    hide IndexOf, Colons;
  }

  /** The kind found at position k is the one the colons behind it say. */
  lemma KindByColons(optstring: string, c: char, k: nat)
    requires k == IndexOf(optstring, c) && k < |optstring| && c != ':'
    ensures ShortKind(optstring, c).Some?
    ensures forall kind :: Colons(optstring[k + 1..], kind) <==> ShortKind(optstring, c) == Some(kind)
  {
    hide IndexOf;
    var after := optstring[k + 1..];
    assert |after| >= 1 ==> after[0] == optstring[k + 1];
    assert |after| >= 2 ==> after[1] == optstring[k + 2];
  }

  lemma ListedIsKind(optstring: string, c: char)
    ensures forall kind :: Lists(optstring, c, kind) ==> ShortKind(optstring, c) == Some(kind)
  {
    hide IndexOf, ShortKind, Colons;
    forall kind | Lists(optstring, c, kind)
      ensures ShortKind(optstring, c) == Some(kind)
    {
      var j :| 0 <= j < |optstring| && optstring[j] == c && c !in optstring[..j] && Colons(optstring[j + 1..], kind);
      FirstIndex(optstring, c, j);
      KindByColons(optstring, c, j);
    }
  }

  lemma NotFound(s: string, c: char)
    ensures IndexOf(s, c) == |s| ==> c !in s
  {
    assert s[..|s|] == s;
  }

  lemma FirstIndex(s: string, c: char, j: nat)
    requires j < |s| && s[j] == c && c !in s[..j]
    ensures IndexOf(s, c) == j
  {
    assert s[..j + 1] == s[..j] + [c];
  }

  // ----- items -----

  /** A character of a cluster: an option without argument, or a mistake. */
  datatype Flag = Good(c: char) | Bad(c: char)

  /** How a cluster ends: an option with its argument, without an optional one, or without a required one. */
  datatype Tail = NoTail | Attached(c: char, arg: string) | Separate(c: char, arg: string) | Absent(c: char) | Lacking(c: char)

  datatype LongArg = Bare | Equals(value: string) | Following(value: string) | Wanting

  /** An intended element; `index` is the long option meant, None for a name that fits none or several. */
  datatype Item =
    | Cluster(flags: seq<Flag>, tail: Tail)
    | Long(name: string, index: Option<nat>, arg: LongArg)
    | Operand(text: string)

  /** After the items nothing, or "--" and anything. */
  datatype End = Plain | DoubleDash(rest: seq<string>)

  // ----- as elements of the vector -----

  function FlagChars(flags: seq<Flag>): (s: string)
    ensures |s| == |flags|
  {
    if flags == [] then "" else [flags[0].c] + FlagChars(flags[1..])
  }

  function TailChars(tail: Tail): string {
    match tail
    case NoTail => ""
    case Attached(c, arg) => [c] + arg
    case Separate(c, _) => [c]
    case Absent(c) => [c]
    case Lacking(c) => [c]
  }

  function Elements(item: Item): (es: seq<string>)
    ensures 1 <= |es| <= 2
  {
    match item
    case Cluster(flags, tail) =>
      ["-" + (FlagChars(flags) + TailChars(tail))] + if tail.Separate? then [tail.arg] else []
    case Long(name, _, arg) =>
      ["--" + (name + if arg.Equals? then "=" + arg.value else "")] + if arg.Following? then [arg.value] else []
    case Operand(text) => [text]
  }

  function Written(items: seq<Item>, end: End): seq<string> {
    if items != [] then Elements(items[0]) + Written(items[1..], end)
    else if end.Plain? then [] else ["--"] + end.rest
  }

  // ----- what is meant -----

  function FlagEvent(f: Flag): Event {
    if f.Good? then Event(f.c as int, None, Nothing) else Event('?' as int, None, BadOption(f.c))
  }

  function FlagEvents(flags: seq<Flag>): seq<Event> {
    if flags == [] then [] else [FlagEvent(flags[0])] + FlagEvents(flags[1..])
  }

  /** A missing argument is reported as ':' exactly if the option string begins with one. */
  function Missing(optstring: string): int {
    if optstring != "" && optstring[0] == ':' then ':' as int else '?' as int
  }

  function TailEvents(optstring: string, tail: Tail): seq<Event> {
    match tail
    case NoTail => []
    case Attached(c, arg) => [Event(c as int, Some(arg), Nothing)]
    case Separate(c, arg) => [Event(c as int, Some(arg), Nothing)]
    case Absent(c) => [Event(c as int, None, Nothing)]
    case Lacking(c) => [Event(Missing(optstring), None, BadOption(c))]
  }

  function LongArgument(arg: LongArg): Option<string> {
    match arg
    case Bare => None
    case Equals(v) => Some(v)
    case Following(v) => Some(v)
    case Wanting => None
  }

  function LongReport(sp: Syntax, item: Item): Event
    requires item.Long? && (item.index.Some? ==> sp.longopts.Some? && item.index.value < |sp.longopts.value|)
  {
    if item.index.None? then Event('?' as int, None, Nothing)
    else
      var o := sp.longopts.value[item.index.value];
      if item.arg.Wanting? then Event(Missing(sp.optstring), None, Nothing)
      else if o.hasArg.NoArgument? && item.arg.Equals? then Event('?' as int, None, Nothing)
      else
        Event(if o.flag.Some? then 0 else o.val, LongArgument(item.arg), LongFound(item.index.value, o.flag, o.val))
  }

  // ----- when an item says what it means -----

  ghost predicate FlagOk(optstring: string, f: Flag) {
    if f.Good? then Lists(optstring, f.c, NoArgument) else Unlisted(optstring, f.c)
  }

  ghost predicate TailOk(optstring: string, tail: Tail) {
    match tail
    case NoTail => true
    case Attached(c, arg) => arg != "" && (Lists(optstring, c, RequiredArgument) || Lists(optstring, c, OptionalArgument))
    case Separate(c, _) => Lists(optstring, c, RequiredArgument)
    case Absent(c) => Lists(optstring, c, OptionalArgument)
    case Lacking(c) => Lists(optstring, c, RequiredArgument)
  }

  ghost predicate LongOk(sp: Syntax, name: string, index: Option<nat>, arg: LongArg) {
    && sp.longopts.Some? && '=' !in name && (name != "" || arg.Equals?)
    && (forall k: nat :: Selects(sp.longopts.value, name, k) <==> index == Some(k))
    && (index.None? ==> arg.Bare? || arg.Equals?)
    && (index.Some? ==>
          index.value < |sp.longopts.value| &&
          var kind := sp.longopts.value[index.value].hasArg;
          match arg
          case Bare => !kind.RequiredArgument?
          case Equals(_) => true
          case Following(_) => kind.RequiredArgument?
          case Wanting => kind.RequiredArgument?)
  }

  ghost predicate ItemOk(sp: Syntax, item: Item) {
    match item
    case Cluster(flags, tail) =>
      && (forall k :: 0 <= k < |flags| ==> FlagOk(sp.optstring, flags[k])) && TailOk(sp.optstring, tail)
      && var chars := FlagChars(flags) + TailChars(tail);
         chars != "" && (chars[0] != '-' || (sp.longopts.None? && chars != "-"))
    case Long(name, index, arg) => LongOk(sp, name, index, arg)
    case Operand(text) => text == "" || text[0] != '-' || text == "-"
  }

  /** An item that lacks its argument can only come last. */
  predicate Lacks(item: Item) { (item.Cluster? && item.tail.Lacking?) || (item.Long? && item.arg.Wanting?) }

  ghost predicate ItemsOk(sp: Syntax, items: seq<Item>, end: End) {
    && (forall k :: 0 <= k < |items| ==> ItemOk(sp, items[k]))
    && (forall k :: 0 <= k < |items| && Lacks(items[k]) ==> k == |items| - 1 && end.Plain?)
  }

  // ----- what is reported -----

  /** The events of an item; `sp` is in force for its first event, `later` for the following ones. */
  function Reports(sp: Syntax, later: Syntax, item: Item): seq<Event>
    requires item.Long? && item.index.Some? ==> sp.longopts.Some? && item.index.value < |sp.longopts.value|
  {
    match item
    case Cluster(flags, tail) =>
      FlagEvents(flags) + TailEvents(if flags == [] then sp.optstring else later.optstring, tail)
    case Long(_, _, _) => [LongReport(sp, item)]
    case Operand(text) => if sp.ordering.ReturnInOrder? then [Event(1, Some(text), Nothing)] else []
  }

  ghost predicate Indexed(sp: Syntax, items: seq<Item>) {
    forall k :: 0 <= k < |items| && items[k].Long? && items[k].index.Some? ==>
      sp.longopts.Some? && items[k].index.value < |sp.longopts.value|
  }

  /** Everything that is reported, and which elements were taken as options. */
  ghost function Meant(sp: Syntax, later: Syntax, items: seq<Item>, end: End): (o: Outcome)
    requires Indexed(sp, items) && Indexed(later, items)
    ensures |o.taken| == |Written(items, end)|
    decreases |items|
  {
    if items == [] then
      if end.Plain? then Outcome([], []) else Outcome([], [true] + Repeat(false, |end.rest|))
    else
      var item, rest := items[0], items[1..];
      if item.Operand? && sp.ordering.RequireOrder? then Outcome([], Repeat(false, |Written(items, end)|))
      else
        var told := Reports(sp, later, item);
        var o := Meant(if told == [] then sp else later, later, rest, end);
        Outcome(told + o.events, Repeat(!(item.Operand? && sp.ordering.Permute?), |Elements(item)|) + o.taken)
  }

  // ----- reading gives back what was meant -----

  lemma FlagReads(sp: Syntax, f: Flag, rest: string, next: Option<string>)
    requires FlagOk(sp.optstring, f)
    ensures ShortStep(sp, [f.c] + rest, next) == Step(FlagEvent(f), rest, if rest == "" then 1 else 0)
  {
    KindIsListed(sp.optstring, f.c);
    hide ShortKind, Lists;
    assert ([f.c] + rest)[1..] == rest;
  }

  lemma TailReads(sp: Syntax, tail: Tail, next: Option<string>)
    requires !tail.NoTail? && TailOk(sp.optstring, tail)
    requires (tail.Separate? ==> next == Some(tail.arg)) && (tail.Lacking? ==> next == None)
    ensures TailChars(tail) != "" && |TailEvents(sp.optstring, tail)| == 1
    ensures ShortStep(sp, TailChars(tail), next)
         == Step(TailEvents(sp.optstring, tail)[0], "", if tail.Separate? then 2 else 1)
  {
    KindIsListed(sp.optstring, tail.c);
    hide ShortKind, Lists;
    assert TailChars(tail)[0] == tail.c;
    assert TailChars(tail)[1..] == if tail.Attached? then tail.arg else "";
  }

  function TailSize(tail: Tail): nat { if tail.Separate? then 2 else 1 }

  ghost predicate NextFits(args: seq<string>, i: nat, tail: Tail) {
    && (tail.Separate? ==> i + 1 < |args| && args[i + 1] == tail.arg)
    && (tail.Lacking? ==> i + 1 == |args|)
  }

  /** One step that leaves `pending'` of the element. */
  lemma ShortScan(args: seq<string>, i: nat, pending: string, sp: Syntax, later: Syntax, s: Step)
    requires i < |args| && pending != "" && !IsLong(sp, args[i]) && s == ShortStep(sp, pending, At(args, i + 1))
    ensures i + s.used <= |args| && (s.pending != "" ==> i + s.used < |args|)
    ensures var o := Scan(args, i + s.used, s.pending, later, later);
            Scan(args, i, pending, sp, later) == Outcome([s.event] + o.events, Repeat(true, s.used) + o.taken)
  {
    hide ShortStep, IsLong, IsNonOption;
  }

  /** What reading the rest of a cluster amounts to. */
  ghost predicate ClusterRead(args: seq<string>, i: nat, flags: seq<Flag>, tail: Tail, sp: Syntax, later: Syntax)
    requires i + TailSize(tail) <= |args| && i < |args|
    requires FlagChars(flags) + TailChars(tail) != ""
  {
    var events := FlagEvents(flags) + TailEvents(if flags == [] then sp.optstring else later.optstring, tail);
    var o := Scan(args, i + TailSize(tail), "", later, later);
    Scan(args, i, FlagChars(flags) + TailChars(tail), sp, later)
    == Outcome(events + o.events, Repeat(true, TailSize(tail)) + o.taken)
  }

  lemma TailIsRead(args: seq<string>, i: nat, tail: Tail, sp: Syntax, later: Syntax)
    requires i < |args| && !IsLong(sp, args[i]) && NextFits(args, i, tail) && TailOk(sp.optstring, tail) && !tail.NoTail?
    ensures i + TailSize(tail) <= |args| && FlagChars([]) + TailChars(tail) != ""
    ensures ClusterRead(args, i, [], tail, sp, later)
  {
    hide Scan, ShortStep, TailOk, IsLong;
    assert FlagChars([]) + TailChars(tail) == TailChars(tail);
    TailReads(sp, tail, At(args, i + 1));
    ShortScan(args, i, TailChars(tail), sp, later, ShortStep(sp, TailChars(tail), At(args, i + 1)));
    assert FlagEvents([]) + TailEvents(sp.optstring, tail) == [TailEvents(sp.optstring, tail)[0]];
  }

  lemma LastFlagIsRead(args: seq<string>, i: nat, f: Flag, sp: Syntax, later: Syntax)
    requires i < |args| && !IsLong(sp, args[i]) && FlagOk(sp.optstring, f)
    ensures FlagChars([f]) + TailChars(NoTail) == [f.c]
    ensures ClusterRead(args, i, [f], NoTail, sp, later)
  {
    hide Scan, ShortStep, FlagOk, IsLong;
    assert FlagChars([f]) == [f.c] && FlagEvents([f]) + [] == [FlagEvent(f)];
    FlagReads(sp, f, "", At(args, i + 1));
    assert [f.c] + "" == [f.c];
    ShortScan(args, i, [f.c], sp, later, ShortStep(sp, [f.c], At(args, i + 1)));
  }

  lemma OneFlagMore(args: seq<string>, i: nat, f: Flag, more: seq<Flag>, tail: Tail, sp: Syntax, later: Syntax)
    requires i < |args| && !IsLong(sp, args[i]) && FlagOk(sp.optstring, f) && i + TailSize(tail) <= |args|
    requires FlagChars(more) + TailChars(tail) != "" && ClusterRead(args, i, more, tail, later, later)
    ensures FlagChars([f] + more) + TailChars(tail) == [f.c] + (FlagChars(more) + TailChars(tail))
    ensures ClusterRead(args, i, [f] + more, tail, sp, later)
  {
    hide Scan, ShortStep, FlagOk, IsLong, FlagEvent;
    var rest := FlagChars(more) + TailChars(tail);
    assert ([f] + more)[1..] == more;
    assert FlagChars([f] + more) + TailChars(tail) == [f.c] + rest;
    FlagReads(sp, f, rest, At(args, i + 1));
    ShortScan(args, i, [f.c] + rest, sp, later, ShortStep(sp, [f.c] + rest, At(args, i + 1)));
    ClusterJoins(f, more, later.optstring, tail, Scan(args, i + TailSize(tail), "", later, later));
  }

  lemma {:induction false} ClusterReads(args: seq<string>, i: nat, flags: seq<Flag>, tail: Tail, sp: Syntax, later: Syntax)
    requires i < |args| && !IsLong(sp, args[i]) && !IsLong(later, args[i]) && NextFits(args, i, tail)
    requires forall k :: 0 <= k < |flags| ==> FlagOk(sp.optstring, flags[k]) && FlagOk(later.optstring, flags[k])
    requires TailOk(sp.optstring, tail) && TailOk(later.optstring, tail)
    requires FlagChars(flags) + TailChars(tail) != ""
    ensures i + TailSize(tail) <= |args| && ClusterRead(args, i, flags, tail, sp, later)
    decreases |flags|
  {
    hide ClusterRead, FlagOk, TailOk, IsLong, Scan;
    TailEmpty(tail);
    if flags == [] {
      assert FlagChars(flags) == "";
      TailIsRead(args, i, tail, sp, later);
    } else {
      var f, more := flags[0], flags[1..];
      assert flags == [f] + more;
      if more == [] && tail.NoTail? {
        assert flags == [f];
        LastFlagIsRead(args, i, f, sp, later);
      } else {
        assert |FlagChars(more)| == |more|;
        ClusterReads(args, i, more, tail, later, later);
        OneFlagMore(args, i, f, more, tail, sp, later);
      }
    }
  }

  lemma TailEmpty(tail: Tail)
    ensures TailChars(tail) == "" <==> tail.NoTail?
  {}

  lemma ClusterJoins(f: Flag, more: seq<Flag>, optstring: string, tail: Tail, o: Outcome)
    ensures [FlagEvent(f)] + (FlagEvents(more) + TailEvents(optstring, tail) + o.events)
         == FlagEvents([f] + more) + TailEvents(optstring, tail) + o.events
    ensures Repeat(true, 0) + (Repeat(true, TailSize(tail)) + o.taken) == Repeat(true, TailSize(tail)) + o.taken
  {
    assert ([f] + more)[1..] == more;
  }

  // ----- whole elements -----

  lemma OpenedReads(args: seq<string>, i: nat, sp: Syntax, later: Syntax)
    requires i < |args| && !IsNonOption(args[i]) && args[i] != "--"
    ensures Scan(args, i, "", sp, later) == Scan(args, i, Opened(sp, args[i]), sp, later)
  {}

  lemma ClusterElement(sp: Syntax, chars: string)
    requires chars != "" && (chars[0] != '-' || (sp.longopts.None? && chars != "-"))
    ensures var e := "-" + chars; !IsLong(sp, e) && !IsNonOption(e) && e != "--" && Opened(sp, e) == chars
  {
    var e := "-" + chars;
    assert e[0] == '-' && e[1] == chars[0] && e[1..] == chars;
  }

  lemma LongElement(sp: Syntax, body: string)
    requires sp.longopts.Some? && body != ""
    ensures var e := "--" + body; IsLong(sp, e) && !IsNonOption(e) && e != "--" && Opened(sp, e) == body
  {
    var e := "--" + body;
    assert e[0] == '-' && e[1] == '-' && e[2..] == body && |e| > 2;
  }

  lemma {:induction false} NameEnds(name: string, rest: string)
    requires '=' !in name && (rest == "" || rest[0] == '=')
    ensures NameEnd(name + rest) == |name|
  {
    if name == "" {
      assert name + rest == rest;
    } else {
      assert (name + rest)[0] == name[0] && (name + rest)[1..] == name[1..] + rest;
      assert name[0] in name;
      NameEnds(name[1..], rest);
    }
  }

  lemma LongStepReads(sp: Syntax, item: Item, next: Option<string>)
    requires item.Long? && LongOk(sp, item.name, item.index, item.arg)
    requires (item.arg.Following? ==> next == Some(item.arg.value)) && (item.arg.Wanting? ==> next == None)
    ensures var body := item.name + if item.arg.Equals? then "=" + item.arg.value else "";
            body != "" && LongStep(sp, body, next) == Step(LongReport(sp, item), "", if item.arg.Following? then 2 else 1)
  {
    var rest := if item.arg.Equals? then "=" + item.arg.value else "";
    var body := item.name + rest;
    NameEnds(item.name, rest);
    assert body[..|item.name|] == item.name;
    assert item.arg.Equals? ==> body[|item.name| + 1..] == item.arg.value;
    ResolvesTo(sp.longopts.value, item.name, item.index);
    hide Resolve, NameEnd, Selects;
  }

  lemma ResolvesTo(os: seq<LongOption>, name: string, index: Option<nat>)
    requires forall k: nat :: Selects(os, name, k) <==> index == Some(k)
    ensures index.Some? ==> Resolve(os, name) == Found(index.value)
    ensures index.None? ==> !Resolve(os, name).Found?
  {
    hide Resolve, Selects;
    if index.Some? {
      ResolveSelects(os, name, index.value);
    } else if Resolve(os, name).Found? {
      ResolveSelects(os, name, Resolve(os, name).index);
    }
  }

  lemma LongScan(args: seq<string>, i: nat, pending: string, sp: Syntax, later: Syntax, s: Step)
    requires i < |args| && pending != "" && IsLong(sp, args[i]) && s == LongStep(sp, pending, At(args, i + 1))
    ensures i + s.used <= |args| && s.pending == ""
    ensures var o := Scan(args, i + s.used, "", later, later);
            Scan(args, i, pending, sp, later) == Outcome([s.event] + o.events, Repeat(true, s.used) + o.taken)
  {
    hide LongStep, IsLong, IsNonOption;
  }

  /** The elements of an item stand at position i. */
  ghost predicate StandsAt(args: seq<string>, i: nat, item: Item) {
    var es := Elements(item);
    i + |es| <= |args| && args[i] == es[0] && (|es| > 1 ==> args[i + 1] == es[1]) && (Lacks(item) ==> i + 1 == |args|)
  }

  /** One option item read: what it means is reported, and its elements are taken. */
  lemma OptionReads(args: seq<string>, i: nat, item: Item, sp: Syntax, later: Syntax)
    requires StandsAt(args, i, item) && !item.Operand? && ItemOk(sp, item) && ItemOk(later, item)
    requires sp.longopts == later.longopts
    ensures i + |Elements(item)| <= |args|
    ensures var o := Scan(args, i + |Elements(item)|, "", later, later);
            Scan(args, i, "", sp, later)
            == Outcome(Reports(sp, later, item) + o.events, Repeat(true, |Elements(item)|) + o.taken)
  {
    hide Scan, ShortStep, LongStep, FlagOk, TailOk, IsLong, IsNonOption, Opened;
    match item {
      case Cluster(flags, tail) =>
        var chars := FlagChars(flags) + TailChars(tail);
        ClusterElement(sp, chars);
        ClusterElement(later, chars);
        OpenedReads(args, i, sp, later);
        ClusterReads(args, i, flags, tail, sp, later);
      case Long(name, index, arg) =>
        var body := name + if arg.Equals? then "=" + arg.value else "";
        LongStepReads(sp, item, At(args, i + 1));
        LongElement(sp, body);
        OpenedReads(args, i, sp, later);
        LongScan(args, i, body, sp, later, LongStep(sp, body, At(args, i + 1)));
    }
  }

  lemma OperandReads(args: seq<string>, i: nat, sp: Syntax, later: Syntax)
    requires i < |args| && IsNonOption(args[i])
    ensures sp.ordering.RequireOrder? ==> Scan(args, i, "", sp, later) == Outcome([], Repeat(false, |args| - i))
    ensures sp.ordering.Permute? ==>
              var o := Scan(args, i + 1, "", sp, later); Scan(args, i, "", sp, later) == Outcome(o.events, [false] + o.taken)
    ensures sp.ordering.ReturnInOrder? ==>
              var o := Scan(args, i + 1, "", later, later);
              Scan(args, i, "", sp, later) == Outcome([Event(1, Some(args[i]), Nothing)] + o.events, [true] + o.taken)
  {}

  lemma EndReads(args: seq<string>, i: nat, end: End, sp: Syntax, later: Syntax)
    requires i <= |args| && args[i..] == Written([], end)
    ensures Scan(args, i, "", sp, later) == Meant(sp, later, [], end)
  {
    if end.DoubleDash? {
      assert args[i] == args[i..][0] == "--";
      assert |args| - i == 1 + |end.rest|;
    }
  }

  lemma RestStands(args: seq<string>, i: nat, sp: Syntax, items: seq<Item>, end: End)
    requires i <= |args| && items != [] && args[i..] == Written(items, end) && ItemsOk(sp, items, end)
    ensures StandsAt(args, i, items[0])
    ensures args[i + |Elements(items[0])|..] == Written(items[1..], end) && ItemsOk(sp, items[1..], end)
    ensures |Written(items, end)| == |args| - i
  {
    var es, rest := Elements(items[0]), Written(items[1..], end);
    assert args[i..][0] == args[i] && (|es| > 1 ==> args[i..][1] == args[i + 1]);
    assert args[i + |es|..] == args[i..][|es|..] == rest;
    assert Lacks(items[0]) ==> items[1..] == [] && end.Plain?;
  }

  /** Reading what was written gives what was meant, from any position on. */
  lemma {:induction false} WrittenReads(args: seq<string>, i: nat, items: seq<Item>, end: End, sp: Syntax, later: Syntax)
    requires i <= |args| && args[i..] == Written(items, end)
    requires ItemsOk(sp, items, end) && ItemsOk(later, items, end) && Indexed(sp, items) && Indexed(later, items)
    requires sp.longopts == later.longopts && sp.ordering == later.ordering
    ensures Scan(args, i, "", sp, later) == Meant(sp, later, items, end)
    decreases |items|
  {
    hide Scan, ItemOk, Elements, Written, Reports, StandsAt, IsNonOption;
    if items == [] {
      EndReads(args, i, end, sp, later);
    } else {
      var item, rest := items[0], items[1..];
      RestStands(args, i, sp, items, end);
      RestStands(args, i, later, items, end);
      if item.Operand? {
        OperandStands(args, i, item, sp, later);
        OperandReads(args, i, sp, later);
        if sp.ordering.Permute? {
          WrittenReads(args, i + 1, rest, end, sp, later);
        } else if sp.ordering.ReturnInOrder? {
          WrittenReads(args, i + 1, rest, end, later, later);
        }
      } else {
        OptionReads(args, i, item, sp, later);
        SomethingReported(sp, later, item);
        WrittenReads(args, i + |Elements(item)|, rest, end, later, later);
      }
    }
  }

  lemma OperandStands(args: seq<string>, i: nat, item: Item, sp: Syntax, later: Syntax)
    requires StandsAt(args, i, item) && item.Operand? && ItemOk(sp, item)
    ensures i < |args| && args[i] == item.text && IsNonOption(args[i]) && |Elements(item)| == 1
    ensures Reports(sp, later, item) == if sp.ordering.ReturnInOrder? then [Event(1, Some(item.text), Nothing)] else []
    ensures Repeat(false, 1) == [false] && Repeat(true, 1) == [true]
  {}

  lemma SomethingReported(sp: Syntax, later: Syntax, item: Item)
    requires !item.Operand? && ItemOk(sp, item)
    ensures Reports(sp, later, item) != []
  {
    hide FlagOk, TailOk;
    if item.Cluster? && item.flags == [] {
      TailEmpty(item.tail);
      assert FlagChars([]) + TailChars(item.tail) == TailChars(item.tail);
    }
  }

  /**
   * A command line written from intended items is read as intended: the reports are the flags, options
   * with their arguments and mistakes that were written, in order, and the elements taken are theirs.
   */
  lemma IntendedIsRead(prog: string, items: seq<Item>, end: End, sp: Syntax, later: Syntax)
    requires ItemsOk(sp, items, end) && ItemsOk(later, items, end) && Indexed(sp, items) && Indexed(later, items)
    requires sp.longopts == later.longopts && sp.ordering == later.ordering
    ensures Scan([prog] + Written(items, end), 1, "", sp, later) == Meant(sp, later, items, end)
  {
    hide Scan, Meant, Written, ItemsOk;
    var args := [prog] + Written(items, end);
    assert args[1..] == Written(items, end);
    WrittenReads(args, 1, items, end, sp, later);
  }

  // ----- the vector afterwards -----

  /** The elements of the options, in order, with "--" if it was there. */
  function OptionElements(items: seq<Item>, end: End): seq<string> {
    if items == [] then (if end.Plain? then [] else ["--"])
    else (if items[0].Operand? then [] else Elements(items[0])) + OptionElements(items[1..], end)
  }

  /** The operands, in order, with whatever followed "--". */
  function OperandElements(items: seq<Item>, end: End): seq<string> {
    if items == [] then (if end.Plain? then [] else end.rest)
    else (if items[0].Operand? then Elements(items[0]) else []) + OperandElements(items[1..], end)
  }

  /** With permutation, what is taken are the option elements and what is left are the operands. */
  lemma {:induction false} TakenAreOptions(sp: Syntax, later: Syntax, items: seq<Item>, end: End)
    requires Indexed(sp, items) && Indexed(later, items) && sp.ordering.Permute? && later.ordering.Permute?
    ensures var taken := Meant(sp, later, items, end).taken;
            && Pick(Written(items, end), taken, true) == OptionElements(items, end)
            && Pick(Written(items, end), taken, false) == OperandElements(items, end)
    decreases |items|
  {
    hide Elements, Pick, Reports;
    if items == [] {
      if end.DoubleDash? {
        EndTaken(end);
      } else {
        EmptyPick(Written(items, end), [], true);
        EmptyPick(Written(items, end), [], false);
      }
    } else {
      var item, rest := items[0], items[1..];
      var es, ws := Elements(item), Written(rest, end);
      var told := Reports(sp, later, item);
      var first := if told == [] then sp else later;
      TakenAreOptions(first, later, rest, end);
      var o := Meant(first, later, rest, end);
      var flags := Repeat(!item.Operand?, |es|);
      PickUniform(es, flags, !item.Operand?);
      PickAppend(es, ws, flags, o.taken, true);
      PickAppend(es, ws, flags, o.taken, false);
    }
  }

  lemma EndTaken(end: End)
    requires end.DoubleDash?
    ensures var all, flags := ["--"] + end.rest, [true] + Repeat(false, |end.rest|);
            Pick(all, flags, true) == ["--"] && Pick(all, flags, false) == end.rest
  {
    var flags := Repeat(false, |end.rest|);
    PickUniform(end.rest, flags, false);
    PickAppend(["--"], end.rest, [true], flags, true);
    PickAppend(["--"], end.rest, [true], flags, false);
    PickOne("--", true);
    hide Pick;
    assert ["--"] + [] == ["--"] && [] + end.rest == end.rest;
  }

  // ----- every vector is some command line -----

  /** Any characters are flags, good or bad, and then perhaps an option with its argument or without. */
  lemma OneMoreFlag(f: Flag, more: seq<Flag>, tail: string)
    ensures FlagChars([f] + more) + tail == [f.c] + (FlagChars(more) + tail)
  {
    assert ([f] + more)[1..] == more;
  }

  lemma {:induction false} ClusterIsSome(optstring: string, chars: string, next: Option<string>) returns (flags: seq<Flag>, tail: Tail)
    ensures FlagChars(flags) + TailChars(tail) == chars && TailOk(optstring, tail)
    ensures forall k :: 0 <= k < |flags| ==> FlagOk(optstring, flags[k])
    ensures (tail.Separate? ==> next == Some(tail.arg)) && (tail.Lacking? ==> next == None)
    decreases |chars|
  {
    hide Lists, Unlisted, ShortKind, FlagChars, Colons, FlagOk, TailOk;
    flags, tail := [], NoTail;
    NoFlags(optstring);
    if chars != "" {
      var c, rest := chars[0], chars[1..];
      assert chars == [c] + rest;
      var kind := ShortKind(optstring, c);
      if kind.None? || kind.value.NoArgument? {
        var more;
        more, tail := ClusterIsSome(optstring, rest, next);
        var f := FlagIsSome(optstring, c);
        flags := [f] + more;
        OneMoreFlag(f, more, TailChars(tail));
      } else {
        tail := TailIsSome(optstring, c, rest, next);
        assert "" + TailChars(tail) == TailChars(tail);
      }
    }
  }

  lemma FlagIsSome(optstring: string, c: char) returns (f: Flag)
    requires ShortKind(optstring, c).None? || ShortKind(optstring, c).value.NoArgument?
    ensures f.c == c && FlagOk(optstring, f)
  {
    KindIsListed(optstring, c);
    f := if ShortKind(optstring, c).None? then Bad(c) else Good(c);
  }

  lemma TailIsSome(optstring: string, c: char, rest: string, next: Option<string>) returns (tail: Tail)
    requires ShortKind(optstring, c).Some? && !ShortKind(optstring, c).value.NoArgument?
    ensures TailChars(tail) == [c] + rest && TailOk(optstring, tail)
    ensures (tail.Separate? ==> next == Some(tail.arg)) && (tail.Lacking? ==> next == None)
  {
    KindIsListed(optstring, c);
    tail := if rest != "" then Attached(c, rest)
            else if ShortKind(optstring, c).value.OptionalArgument? then Absent(c)
            else if next.Some? then Separate(c, next.value)
            else Lacking(c);
    hide ShortKind, Lists;
  }

  lemma NoFlags(optstring: string)
    ensures FlagChars([]) == "" && TailOk(optstring, NoTail) && TailChars(NoTail) == ""
  {}

  lemma {:induction false} NameIsSplit(body: string)
    ensures var n := NameEnd(body);
            && '=' !in body[..n]
            && body == body[..n] + if n < |body| then "=" + body[n + 1..] else ""
  {
    var n := NameEnd(body);
    if n < |body| {
      assert body[n..] == "=" + body[n + 1..];
    }
    assert body == body[..n] + body[n..];
  }

  lemma LongIsSome(sp: Syntax, body: string, next: Option<string>) returns (item: Item)
    requires sp.longopts.Some? && body != ""
    ensures item.Long? && LongOk(sp, item.name, item.index, item.arg) && Elements(item)[0] == "--" + body
    ensures (item.arg.Following? ==> next == Some(item.arg.value)) && (item.arg.Wanting? ==> next == None)
    ensures |Elements(item)| == if item.arg.Following? then 2 else 1
  {
    hide Resolve, Selects, NameEnd;
    var os, n := sp.longopts.value, NameEnd(body);
    var name := body[..n];
    NameIsSplit(body);
    var m := Resolve(os, name);
    forall k: nat
      ensures Selects(os, name, k) <==> m == Found(k)
    {
      ResolveSelects(os, name, k);
    }
    var index := if m.Found? then Some(m.index) else None;
    if n < |body| {
      item := Long(name, index, Equals(body[n + 1..]));
    } else {
      assert name == body;
      assert body + "" == body;
      var wants := m.Found? && os[m.index].hasArg.RequiredArgument?;
      item := Long(name, index, if !wants then Bare else if next.Some? then Following(next.value) else Wanting);
    }
  }

  /** Whatever the vector, it is written from some items: the reading of every vector is described. */
  lemma {:induction false} EveryVectorIsWritten(ws: seq<string>, sp: Syntax) returns (items: seq<Item>, end: End)
    ensures Written(items, end) == ws && ItemsOk(sp, items, end) && Indexed(sp, items)
    decreases |ws|
  {
    items, end := [], Plain;
    if ws != [] {
      var e, next := ws[0], At(ws, 1);
      if e == "--" {
        end := DoubleDash(ws[1..]);
      } else {
        var item := ItemIsSome(sp, e, next);
        var size := |Elements(item)|;
        assert Elements(item) == ws[..size];
        var more;
        more, end := EveryVectorIsWritten(ws[size..], sp);
        items := [item] + more;
        ItemFirst(sp, item, more, end, ws);
      }
    }
  }

  lemma ItemFirst(sp: Syntax, item: Item, more: seq<Item>, end: End, ws: seq<string>)
    requires ItemOk(sp, item) && ItemsOk(sp, more, end) && Indexed(sp, more)
    requires |Elements(item)| <= |ws| && Elements(item) == ws[..|Elements(item)|] && Written(more, end) == ws[|Elements(item)|..]
    requires Lacks(item) ==> |ws| == 1
    ensures Written([item] + more, end) == ws && ItemsOk(sp, [item] + more, end) && Indexed(sp, [item] + more)
  {
    hide Elements, Selects;
    var items := [item] + more;
    assert items[1..] == more;
    if Lacks(item) {
      assert Written(more, end) == [] by { LackIsOne(item); }
      NothingWritten(more, end);
    }
  }

  lemma LackIsOne(item: Item)
    requires Lacks(item)
    ensures |Elements(item)| == 1
  {}

  lemma NothingWritten(items: seq<Item>, end: End)
    requires Written(items, end) == []
    ensures items == [] && end.Plain?
  {}

  lemma ItemIsSome(sp: Syntax, e: string, next: Option<string>) returns (item: Item)
    requires e != "--"
    ensures ItemOk(sp, item) && Elements(item)[0] == e && (Lacks(item) ==> next == None)
    ensures |Elements(item)| > 1 ==> next == Some(Elements(item)[1])
  {
    hide Lists, Selects, FlagOk, TailOk;
    if IsNonOption(e) {
      item := Operand(e);
    } else if IsLong(sp, e) {
      assert e == "--" + e[2..];
      item := LongIsSome(sp, e[2..], next);
    } else {
      assert e == "-" + e[1..];
      var flags, tail := ClusterIsSome(sp.optstring, e[1..], next);
      item := Cluster(flags, tail);
    }
  }
}
