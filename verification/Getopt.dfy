/**
 * The resumable option scanner (portability/getopt.c). Each call advances optind or nextchar and may
 * rotate argv in place; together the calls read the vector as ArgScan does and leave it partitioned.
 */
module Getopt {
  import opened Options
  import opened ArgScan
  import opened ArgItems
  import opened Exchange
  import opened Partition

  /** How the option string and POSIXLY_CORRECT choose the treatment of non-options. */
  function OrderingFor(optstring: string, posixlyCorrect: bool): Ordering {
    if |optstring| > 0 && optstring[0] == '-' then ReturnInOrder
    else if |optstring| > 0 && optstring[0] == '+' then RequireOrder
    else if posixlyCorrect then RequireOrder
    else Permute
  }

  /** The first call reads the option string without its leading mark; later calls read it whole. */
  function Unmarked(optstring: string): string {
    if |optstring| > 0 && (optstring[0] == '-' || optstring[0] == '+') then optstring[1..] else optstring
  }

  function FirstSyntax(optstring: string, longopts: Option<seq<LongOption>>, posixlyCorrect: bool): Syntax {
    Syntax(Unmarked(optstring), longopts, OrderingFor(optstring, posixlyCorrect))
  }

  function LaterSyntax(optstring: string, longopts: Option<seq<LongOption>>, posixlyCorrect: bool): Syntax {
    Syntax(optstring, longopts, OrderingFor(optstring, posixlyCorrect))
  }

  /** '+' stops at the first operand, '-' reports operands in order; else POSIXLY_CORRECT stops, and by default they are moved. */
  lemma MarksChoose(optstring: string, longopts: Option<seq<LongOption>>, posixlyCorrect: bool)
    ensures var ordering := FirstSyntax(optstring, longopts, posixlyCorrect).ordering;
            && ordering == LaterSyntax(optstring, longopts, posixlyCorrect).ordering
            && (ordering.ReturnInOrder? <==> optstring != "" && optstring[0] == '-')
            && (ordering.Permute? <==> !posixlyCorrect && (optstring == "" || optstring[0] !in "+-"))
            && (ordering.RequireOrder? <==> (optstring != "" && optstring[0] == '+')
                                            || (posixlyCorrect && (optstring == "" || optstring[0] != '-')))
    ensures optstring == "" || optstring[0] !in "+-" ==>
              FirstSyntax(optstring, longopts, posixlyCorrect) == LaterSyntax(optstring, longopts, posixlyCorrect)
  {}

  /** `my_index`. */
  method MyIndex(s: string, chr: char) returns (k: nat)
    ensures k == IndexOf(s, chr)
  {
    k := 0;
    while k < |s|
      invariant k <= |s|
      invariant IndexOf(s, chr) == k + IndexOf(s[k..], chr)
    {
      if s[k] == chr {
        return;
      }
      k := k + 1;
    }
  }

  /** The loop over the long options: an exact match ends it, a second partial one makes it ambiguous. */
  method TestLongOptions(longopts: seq<LongOption>, key: string) returns (pfound: Option<nat>, exact: bool, ambig: bool)
    ensures Resolve(longopts, key) == if ambig && !exact then Ambiguous
                                      else if pfound.Some? then Found(pfound.value)
                                      else Unknown
    ensures pfound.Some? ==> pfound.value < |longopts|
  {
    pfound, exact, ambig := None, false, false;
    var i := 0;
    while i < |longopts|
      invariant i <= |longopts| && !exact
      invariant FirstExact(longopts, key, 0) == FirstExact(longopts, key, i)
      invariant pfound.None? ==> !ambig && FirstMatch(longopts, key, 0) == FirstMatch(longopts, key, i)
      invariant pfound.Some? ==> pfound.value == FirstMatch(longopts, key, 0) < i
      invariant pfound.Some? && !ambig ==>
                  FirstMatch(longopts, key, pfound.value + 1) == FirstMatch(longopts, key, i)
      invariant pfound.Some? && ambig ==> FirstMatch(longopts, key, pfound.value + 1) < i
    {
      if Matches(longopts[i], key) {
        if |key| == |longopts[i].name| {
          pfound, exact := Some(i), true;
          return;
        } else if pfound.None? {
          pfound := Some(i);
        } else {
          ambig := true;
        }
      }
      i := i + 1;
    }
  }

  /** What is left of the argument vector; every call that reports something makes it smaller. */
  ghost predicate Progress(args: seq<string>, i: nat, pending: string, i': nat, pending': string) {
    i < i' || (i == i' && CharsLeft(args, i', pending') < CharsLeft(args, i, pending))
  }

  /** What has been told so far and what remains to be read make up the whole reading. */
  ghost predicate Continues(whole: Outcome, told: seq<Event>, taken: seq<bool>, rest: Outcome) {
    told + rest.events == whole.events && taken + rest.taken == whole.taken
  }

  lemma ContinuesWith(whole: Outcome, told: seq<Event>, taken: seq<bool>, e: seq<Event>, b: seq<bool>, rest: Outcome)
    requires Continues(whole, told, taken, Outcome(e + rest.events, b + rest.taken))
    ensures Continues(whole, told + e, taken + b, rest)
  {
    assert told + e + rest.events == told + (e + rest.events);
    assert taken + b + rest.taken == taken + (b + rest.taken);
  }

  lemma Untouched(cur: seq<string>, args: seq<string>, first: nat, last: nat, i: nat, taken: seq<bool>)
    requires Arranged(cur, args, first, last, i, taken)
    ensures 1 <= first <= last <= i <= |args| == |cur|
    ensures forall j :: i <= j < |args| ==> cur[j] == args[j]
  {
    forall j | i <= j < |args|
      ensures cur[j] == args[j]
    {
      assert cur[i..][j - i] == args[i..][j - i];
    }
  }

  lemma ScanSkip(args: seq<string>, i: nat, sp: Syntax, later: Syntax)
    requires i < |args| && IsNonOption(args[i]) && sp.ordering.Permute?
    ensures var o := Scan(args, i + 1, "", sp, later);
            Scan(args, i, "", sp, later) == Outcome([] + o.events, [false] + o.taken)
  {}

  lemma SkipOne(whole: Outcome, told: seq<Event>, cur: seq<string>, args: seq<string>, first: nat, i: nat, taken: seq<bool>, sp: Syntax, later: Syntax)
    requires Arranged(cur, args, first, i, i, taken) && i < |args| && IsNonOption(args[i]) && sp.ordering.Permute?
    requires Continues(whole, told, taken, Scan(args, i, "", sp, later))
    ensures Arranged(cur, args, first, i + 1, i + 1, taken + [false])
    ensures Continues(whole, told, taken + [false], Scan(args, i + 1, "", sp, later))
    ensures |cur| == |args| && (i + 1 < |args| ==> cur[i + 1] == args[i + 1])
  {
    hide Arranged, Scan, Continues, IsNonOption;
    ArrangedSkip(cur, args, first, i, taken);
    Untouched(cur, args, first, i + 1, i + 1, taken + [false]);
    ScanSkip(args, i, sp, later);
    ContinuesWith(whole, told, taken, [], [false], Scan(args, i + 1, "", sp, later));
    assert told + [] == told;
  }

  lemma DoubleDashRead(whole: Outcome, told: seq<Event>, cur: seq<string>, args: seq<string>, first: nat, last: nat, i: nat, taken: seq<bool>, sp: Syntax, later: Syntax)
    requires Arranged(cur, args, first, last, i, taken) && i < |args| && args[i] == "--"
    requires Continues(whole, told, taken, Scan(args, i, "", sp, later))
    ensures Arranged(cur, args, first, last, i + 1, taken + [true])
    ensures told == whole.events && whole.taken == taken + [true] + Repeat(false, |args| - i - 1)
  {
    ArrangedTake(cur, args, first, last, i, taken);
    assert told + [] == told;
    assert taken + ([true] + Repeat(false, |args| - i - 1)) == taken + [true] + Repeat(false, |args| - i - 1);
  }

  lemma ScanInOrder(args: seq<string>, i: nat, sp: Syntax, later: Syntax)
    requires i < |args| && IsNonOption(args[i]) && sp.ordering.ReturnInOrder?
    ensures var o := Scan(args, i + 1, "", later, later);
            Scan(args, i, "", sp, later) == Outcome([Event(1, Some(args[i]), Nothing)] + o.events, [true] + o.taken)
  {}

  lemma ScanOpened(args: seq<string>, i: nat, sp: Syntax, later: Syntax)
    requires i < |args| && !IsNonOption(args[i]) && args[i] != "--"
    ensures Scan(args, i, "", sp, later) == Scan(args, i, Opened(sp, args[i]), sp, later)
  {}

  lemma ScanOption(args: seq<string>, i: nat, pending: string, sp: Syntax, later: Syntax)
    requires i < |args| && pending != ""
    ensures var s := DecodeStep(sp, args[i], pending, At(args, i + 1));
            i + s.used <= |args| &&
            var o := Scan(args, i + s.used, s.pending, later, later);
            Scan(args, i, pending, sp, later) == Outcome([s.event] + o.events, Repeat(true, s.used) + o.taken)
  {}

  /** What a caller sees of one event. */
  datatype Report = Report(value: int, arg: Option<string>)

  function Seen(e: Event): Report { Report(e.value, e.arg) }

  class Scanner {
    const argv: array<string>
    const optstring: string
    const longopts: Option<seq<LongOption>>
    const posixlyCorrect: bool

    var optind: nat
    var nextchar: string
    var firstNonopt: nat
    var lastNonopt: nat
    var ordering: Ordering
    var optarg: Option<string>
    var longind: nat
    var optopt: char
    var flags: map<nat, int>      // the variables that the flag fields of the long options point to

    ghost const args: seq<string>
    ghost var told: seq<Event>
    ghost var taken: seq<bool>

    ghost function First(): Syntax { FirstSyntax(optstring, longopts, posixlyCorrect) }
    ghost function Later(): Syntax { LaterSyntax(optstring, longopts, posixlyCorrect) }

    /** The original vector read from left to right. */
    ghost function Whole(): Outcome
      requires |args| >= 1
    {
      Scan(args, 1, "", First(), Later())
    }

    ghost predicate Reading(sp: Syntax)
      reads this, argv
    {
      |args| >= 1 && ordering == sp.ordering == Later().ordering && sp.longopts == longopts &&
      Arranged(argv[..], args, firstNonopt, lastNonopt, optind, taken) &&
      (nextchar != "" ==> optind < |args|) && (ordering != Permute ==> firstNonopt == lastNonopt) &&
      Continues(Whole(), told, taken, Scan(args, optind, nextchar, sp, Later()))
    }

    ghost predicate Valid()
      reads this, argv
    {
      |args| == argv.Length >= 1 &&
      if optind == 0 then argv[..] == args && told == [] && taken == [] else Reading(Later())
    }

    /** The state of affairs at the first EOF. */
    ghost predicate Ended()
      reads this, argv
    {
      |args| == argv.Length >= 1 && told == Whole().events &&
      argv[..] == Partitioned(args, Whole().taken) &&
      optind == 1 + |Pick(args[1..], Whole().taken, true)|
    }

    constructor (argv: array<string>, optstring: string, longopts: Option<seq<LongOption>>, posixlyCorrect: bool)
      requires argv.Length >= 1
      ensures Valid() && optind == 0 && args == argv[..] && told == []
      ensures this.argv == argv && this.optstring == optstring && this.longopts == longopts
      ensures this.posixlyCorrect == posixlyCorrect
    {
      this.argv, this.optstring, this.longopts, this.posixlyCorrect := argv, optstring, longopts, posixlyCorrect;
      optind, nextchar, firstNonopt, lastNonopt, ordering := 0, "", 0, 0, Permute;
      optarg, longind, optopt, flags := None, 0, '?', map[];
      args, told, taken := argv[..], [], [];
    }

    method Initialize() returns (rest: string)
      requires Valid() && optind == 0
      modifies this`optind, this`nextchar, this`firstNonopt, this`lastNonopt, this`ordering
      ensures rest == First().optstring && ordering == First().ordering && nextchar == ""
      ensures Reading(First()) && optind == 1
    {
      firstNonopt, lastNonopt, optind := 1, 1, 1;
      nextchar := "";
      rest := optstring;
      if |optstring| > 0 && optstring[0] == '-' {
        ordering := ReturnInOrder;
        rest := optstring[1..];
      } else if |optstring| > 0 && optstring[0] == '+' {
        ordering := RequireOrder;
        rest := optstring[1..];
      } else if posixlyCorrect {
        ordering := RequireOrder;
      } else {
        ordering := Permute;
      }
      ArrangedAtStart(args);
    }

    /** `exchange`: rotate the skipped block behind the options consumed after it. */
    method ExchangeNonOptions()
      requires Arranged(argv[..], args, firstNonopt, lastNonopt, optind, taken)
      modifies this`firstNonopt, this`lastNonopt, argv
      ensures argv[..] == Rotated(old(argv[..]), old(firstNonopt), old(lastNonopt), optind)
      ensures lastNonopt == optind && lastNonopt - firstNonopt == old(lastNonopt - firstNonopt)
      ensures Arranged(argv[..], args, firstNonopt, optind, optind, taken)
    {
      ArrangedExchange(argv[..], args, firstNonopt, lastNonopt, optind, taken);
      ExchangeBlocks(argv, firstNonopt, lastNonopt, optind);
      firstNonopt := firstNonopt + (optind - lastNonopt);
      lastNonopt := optind;
    }

    /** Move the options just processed before the skipped non-options, then skip further non-options. */
    method SkipNonOptions(ghost sp: Syntax)
      requires Reading(sp) && argv.Length == |args| && ordering == Permute && nextchar == ""
      modifies this`firstNonopt, this`lastNonopt, this`optind, this`taken, argv
      ensures Reading(sp) && lastNonopt == optind >= old(optind)
      ensures optind < argv.Length ==> !IsNonOption(argv[optind])
    {
      hide Arranged, Scan, Continues, Rotated, Pick, IsNonOption;
      Untouched(argv[..], args, firstNonopt, lastNonopt, optind, taken);
      if firstNonopt != lastNonopt && lastNonopt != optind {
        ExchangeNonOptions();
      } else if lastNonopt != optind {
        ArrangedAnywhere(argv[..], args, firstNonopt, optind, taken, optind);
        firstNonopt := optind;
      }
      while optind < argv.Length && IsNonOption(argv[optind])
        invariant Arranged(argv[..], args, firstNonopt, optind, optind, taken)
        invariant old(optind) <= optind <= argv.Length
        invariant optind < argv.Length ==> argv[optind] == args[optind]
        invariant Continues(Whole(), told, taken, Scan(args, optind, "", sp, Later()))
      {
        SkipOne(Whole(), told, argv[..], args, firstNonopt, optind, taken, sp, Later());
        optind := optind + 1;
        taken := taken + [false];
      }
      lastNonopt := optind;
    }

    /** The element "--": consume it and leave everything after it alone. */
    method PassDoubleDash(ghost sp: Syntax)
      requires Reading(sp) && argv.Length == |args| && nextchar == ""
      requires ordering == Permute ==> lastNonopt == optind
      requires optind < argv.Length && argv[optind] == "--"
      modifies this`firstNonopt, this`lastNonopt, this`optind, this`taken, argv
      ensures told == Whole().events && argv[..] == Partitioned(args, Whole().taken)
      ensures optind == lastNonopt == argv.Length
      ensures firstNonopt == 1 + |Pick(args[1..], Whole().taken, true)| <= argv.Length
    {
      hide Arranged, Scan, Continues, Rotated, Pick, Partitioned;
      Untouched(argv[..], args, firstNonopt, lastNonopt, optind, taken);
      DoubleDashRead(Whole(), told, argv[..], args, firstNonopt, lastNonopt, optind, taken, sp, Later());
      ghost var rest := Repeat(false, |args| - optind - 1);
      optind := optind + 1;
      taken := taken + [true];
      if firstNonopt != lastNonopt && lastNonopt != optind {
        ExchangeNonOptions();
      } else if firstNonopt == lastNonopt {
        ArrangedAnywhere(argv[..], args, firstNonopt, optind, taken, optind);
        firstNonopt := optind;
      }
      ArrangedEnd(argv[..], args, firstNonopt, optind, taken, rest);
      lastNonopt := argv.Length;
      optind := argv.Length;
    }

    /** Every element read: the reading holds nothing more. */
    lemma AtTheEnd(sp: Syntax)
      requires Reading(sp) && nextchar == "" && optind == |args|
      requires ordering == Permute ==> lastNonopt == optind
      ensures told == Whole().events && argv[..] == Partitioned(args, Whole().taken)
      ensures 1 + |Pick(args[1..], Whole().taken, true)| == if firstNonopt != lastNonopt then firstNonopt else optind
    {
      assert told + [] == told && taken + [] == taken;
      if ordering != Permute || firstNonopt == lastNonopt {
        ArrangedAnywhere(argv[..], args, firstNonopt, optind, taken, optind);
        ArrangedEnd(argv[..], args, optind, optind, taken, []);
      } else {
        ArrangedEnd(argv[..], args, firstNonopt, optind, taken, []);
      }
    }

    /** A non-option that may not be passed by: it and everything after it is left alone. */
    lemma StopAtNonOption(sp: Syntax)
      requires Reading(sp) && nextchar == "" && ordering == RequireOrder
      requires optind < |args| && IsNonOption(args[optind])
      ensures told == Whole().events && argv[..] == Partitioned(args, Whole().taken)
      ensures 1 + |Pick(args[1..], Whole().taken, true)| == optind
    {
      assert told + [] == told;
      ArrangedAnywhere(argv[..], args, firstNonopt, optind, taken, optind);
      ArrangedEnd(argv[..], args, optind, optind, taken, Repeat(false, |args| - optind));
    }

    lemma PassInOrder(sp: Syntax)
      requires Reading(sp) && nextchar == "" && ordering == ReturnInOrder
      requires optind < |args| && IsNonOption(args[optind])
      ensures Arranged(argv[..], args, firstNonopt, lastNonopt, optind + 1, taken + [true])
      ensures Continues(Whole(), told + [Event(1, Some(args[optind]), Nothing)], taken + [true],
                        Scan(args, optind + 1, "", Later(), Later()))
    {
      ArrangedTake(argv[..], args, firstNonopt, lastNonopt, optind, taken);
      ScanInOrder(args, optind, sp, Later());
      ContinuesWith(Whole(), told, taken, [Event(1, Some(args[optind]), Nothing)], [true],
                    Scan(args, optind + 1, "", Later(), Later()));
    }

    /** A long option; `sp` is what this call was given. */
    method DecodeLong(sp: Syntax) returns (c: int)
      requires sp.longopts.Some? && optind < argv.Length
      modifies this`optind, this`nextchar, this`optarg, this`longind, this`flags
      ensures Performed(LongStep(sp, old(nextchar), At(argv[..], old(optind) + 1)), c, old(optind), old(Others()))
    {
      hide Resolve, FoundStep;
      optarg := None;
      var nameend := 0;
      while nameend < |nextchar| && nextchar[nameend] != '='
        invariant nameend <= |nextchar|
        invariant NameEnd(nextchar) == nameend + NameEnd(nextchar[nameend..])
      {
        nameend := nameend + 1;
      }
      var pfound, exact, ambig := TestLongOptions(sp.longopts.value, nextchar[..nameend]);
      if ambig && !exact {
        nextchar := "";
        optind := optind + 1;
        return '?' as int;
      }
      if pfound.Some? {
        c := TakeLong(sp, pfound.value, sp.longopts.value[pfound.value], nameend);
        return;
      }
      nextchar := "";
      optind := optind + 1;
      return '?' as int;
    }

    /** Long option k was found; deal with its argument. */
    method TakeLong(sp: Syntax, k: nat, o: LongOption, nameend: nat) returns (c: int)
      requires nameend <= |nextchar| && optind < argv.Length && optarg == None
      modifies this`optind, this`nextchar, this`optarg, this`longind, this`flags
      ensures Performed(FoundStep(sp, k, o, old(nextchar), nameend, At(argv[..], old(optind) + 1)), c, old(optind), old(Others()))
    {
      optind := optind + 1;
      if nameend < |nextchar| {
        if !o.hasArg.NoArgument? {
          optarg := Some(nextchar[nameend + 1..]);
        } else {
          nextchar := "";
          return '?' as int;
        }
      } else if o.hasArg.RequiredArgument? {
        if optind < argv.Length {
          optarg := Some(argv[optind]);
          optind := optind + 1;
        } else {
          nextchar := "";
          return if |sp.optstring| > 0 && sp.optstring[0] == ':' then ':' as int else '?' as int;
        }
      }
      nextchar := "";
      longind := k;
      if o.flag.Some? {
        flags := flags[o.flag.value := o.val];
        return 0;
      }
      return o.val;
    }

    /** The next short option of a cluster. */
    method DecodeShort(sp: Syntax) returns (c: int)
      requires nextchar != "" && optind < argv.Length
      modifies this`optind, this`nextchar, this`optarg, this`optopt
      ensures Performed(ShortStep(sp, old(nextchar), At(argv[..], old(optind) + 1)), c, old(optind), old(Others()))
    {
      optarg := None;
      var ch := nextchar[0];
      nextchar := nextchar[1..];
      var temp := MyIndex(sp.optstring, ch);
      if nextchar == "" {
        optind := optind + 1;
      }
      if temp == |sp.optstring| || ch == ':' {
        optopt := ch;
        return '?' as int;
      }
      c := ch as int;
      if temp + 1 < |sp.optstring| && sp.optstring[temp + 1] == ':' {
        if temp + 2 < |sp.optstring| && sp.optstring[temp + 2] == ':' {
          if nextchar != "" {
            optarg := Some(nextchar);
            optind := optind + 1;
          } else {
            optarg := None;
          }
        } else if nextchar != "" {
          optarg := Some(nextchar);
          optind := optind + 1;
        } else if optind == argv.Length {
          optopt := ch;
          c := if |sp.optstring| > 0 && sp.optstring[0] == ':' then ':' as int else '?' as int;
        } else {
          optarg := Some(argv[optind]);
          optind := optind + 1;
        }
        nextchar := "";
      }
    }

    /** The variables a call may change besides optind and optarg. */
    ghost function Others(): Globals
      reads this`longind, this`optopt, this`flags
    {
      Globals(longind, optopt, flags)
    }

    /** The result, optarg and the other variables are what the event says. */
    ghost predicate Reports(e: Event, c: int, was: Globals)
      reads this`optarg, this`longind, this`optopt, this`flags
    {
      c == e.value && optarg == e.arg && Others() == Changed(was, e.effect)
    }

    ghost predicate Performed(s: Step, c: int, optindWas: nat, was: Globals)
      reads this`optarg, this`longind, this`optopt, this`flags, this`optind, this`nextchar
    {
      Reports(s.event, c, was) && optind == optindWas + s.used && nextchar == s.pending
    }

    /**
     * Advance to the next element. Either this settles the call (EOF, or a non-option reported in
     * order) or an option element has been opened.
     */
    method NextElement(sp: Syntax) returns (settled: bool, c: Option<int>)
      requires Reading(sp) && argv.Length == |args| && nextchar == "" && optarg == None
      modifies this`firstNonopt, this`lastNonopt, this`optind, this`taken, this`told, this`nextchar, this`optarg, argv
      ensures settled && c.None? ==> Ended() && told == old(told)
      ensures settled && c.Some? ==> Reading(Later()) && nextchar == "" && old(optind) < optind
      ensures settled && c.Some? ==> exists e :: told == old(told) + [e] && Reports(e, c.value, Others())
      ensures !settled ==> Reading(sp) && nextchar != "" && told == old(told) && optarg == None
      ensures !settled ==> Progress(args, old(optind), "", optind, nextchar)
    {
      hide Arranged, Scan, Continues, Rotated, Pick, Partitioned;
      if ordering == Permute {
        SkipNonOptions(sp);
      }
      Untouched(argv[..], args, firstNonopt, lastNonopt, optind, taken);
      if optind != argv.Length && argv[optind] == "--" {
        PassDoubleDash(sp);
      } else if optind == argv.Length {
        AtTheEnd(sp);
      }
      if optind == argv.Length {
        if firstNonopt != lastNonopt {
          optind := firstNonopt;
        }
        return true, None;
      }
      if IsNonOption(argv[optind]) {
        if ordering == RequireOrder {
          StopAtNonOption(sp);
          return true, None;
        }
        optarg := Some(argv[optind]);
        PassInOrder(sp);
        told, taken := told + [Event(1, optarg, Nothing)], taken + [true];
        optind := optind + 1;
        return true, Some(1);
      }
      ScanOpened(args, optind, sp, Later());
      nextchar := argv[optind][if longopts.Some? && argv[optind][1] == '-' then 2 else 1..];
      settled, c := false, None;
    }

    /** The books after one more option has been decoded. */
    lemma OptionDecoded(sp: Syntax, s: Step, cur: seq<string>, i: nat, pending: string)
      requires |args| >= 1 && sp.ordering == Later().ordering && sp.longopts == longopts
      requires Arranged(cur, args, firstNonopt, lastNonopt, i, taken) && pending != "" && i < |args|
      requires Continues(Whole(), told, taken, Scan(args, i, pending, sp, Later()))
      requires s == DecodeStep(sp, args[i], pending, At(args, i + 1))
      ensures i + s.used <= |args| && (s.pending != "" ==> i + s.used < |args|)
      ensures Arranged(cur, args, firstNonopt, lastNonopt, i + s.used, taken + Repeat(true, s.used))
      ensures Continues(Whole(), told + [s.event], taken + Repeat(true, s.used),
                        Scan(args, i + s.used, s.pending, Later(), Later()))
    {
      hide Scan, Arranged, Continues, Pick, DecodeStep;
      ScanOption(args, i, pending, sp, Later());
      Untouched(cur, args, firstNonopt, lastNonopt, i, taken);
      ContinuesWith(Whole(), told, taken, [s.event], Repeat(true, s.used),
                    Scan(args, i + s.used, s.pending, Later(), Later()));
      if s.used == 0 {
        assert taken + Repeat(true, 0) == taken;
      } else if s.used == 1 {
        ArrangedTake(cur, args, firstNonopt, lastNonopt, i, taken);
        assert Repeat(true, 1) == [true];
      } else {
        ArrangedTake(cur, args, firstNonopt, lastNonopt, i, taken);
        ArrangedTake(cur, args, firstNonopt, lastNonopt, i + 1, taken + [true]);
        assert taken + Repeat(true, 2) == taken + [true] + [true];
      }
    }

    /** Decode the option at nextchar. */
    method DecodeOption(sp: Syntax) returns (c: int)
      requires Reading(sp) && argv.Length == |args| && nextchar != "" && optarg == None
      modifies this`optind, this`nextchar, this`optarg, this`longind, this`optopt, this`flags, this`told, this`taken
      ensures Reading(Later())
      ensures exists e :: told == old(told) + [e] && Reports(e, c, old(Others()))
      ensures Progress(args, old(optind), old(nextchar), optind, nextchar)
    {
      hide Arranged, Scan, Continues, Pick, LongStep, ShortStep;
      Untouched(argv[..], args, firstNonopt, lastNonopt, optind, taken);
      ghost var s := DecodeStep(sp, args[optind], nextchar, At(args, optind + 1));
      assert At(argv[..], optind + 1) == At(args, optind + 1);
      OptionDecoded(sp, s, argv[..], optind, nextchar);
      if longopts.Some? && |argv[optind]| > 1 && argv[optind][1] == '-' {
        c := DecodeLong(sp);
      } else {
        c := DecodeShort(sp);
      }
      told, taken := told + [s.event], taken + Repeat(true, s.used);
    }

    /**
     * `_getopt_internal`: the next option, or None for EOF. Every call that reports something gets
     * closer to the end, and what it reports is the next event of the whole reading; EOF comes when
     * there are no more events, and by then the vector is partitioned.
     */
    method Next() returns (c: Option<int>)
      requires Valid()
      modifies this, argv
      ensures c.Some? ==> Valid() && optind > 0
      ensures c.Some? ==> exists e :: told == old(told) + [e] && Reports(e, c.value, old(Others()))
      ensures c.Some? ==> Progress(args, old(optind), old(nextchar), optind, nextchar)
      ensures c.None? ==> Ended() && told == old(told)
    {
      hide Scan, Arranged, Continues;
      optarg := None;
      var sp := Syntax(optstring, longopts, ordering);
      if optind == 0 {
        var rest := Initialize();
        sp := Syntax(rest, longopts, ordering);
      }
      if nextchar == "" {
        var settled;
        settled, c := NextElement(sp);
        if settled {
          return;
        }
      }
      var r := DecodeOption(sp);
      return Some(r);
    }
  }

  /** The caller's loop: call until EOF. */
  method ParseAll(g: Scanner) returns (options: seq<Report>)
    requires g.Valid() && g.optind == 0
    modifies g, g.argv
    ensures g.Ended()
    ensures |options| == |g.Whole().events|
    ensures forall k :: 0 <= k < |options| ==> options[k] == Seen(g.Whole().events[k])
  {
    options := [];
    while true
      invariant g.Valid() && |options| == |g.told|
      invariant forall k :: 0 <= k < |options| ==> options[k] == Seen(g.told[k])
      decreases |g.args| - g.optind, CharsLeft(g.args, g.optind, g.nextchar)
    {
      hide Scan, Arranged, Continues;
      var c := g.Next();
      if c.None? {
        return;
      }
      options := options + [Report(c.value, g.optarg)];
    }
  }

  /**
   * What was written was read: at EOF everything intended has been told, and with permutation the
   * vector holds the program name, the elements of the options, then the operands, optind at the first.
   */
  lemma EndedAsMeant(g: Scanner, prog: string, items: seq<Item>, end: End)
    requires g.Ended() && g.args == [prog] + Written(items, end)
    requires ItemsOk(g.First(), items, end) && ItemsOk(g.Later(), items, end)
    requires Indexed(g.First(), items) && Indexed(g.Later(), items)
    ensures g.told == Meant(g.First(), g.Later(), items, end).events
    ensures !g.posixlyCorrect && (g.optstring == "" || g.optstring[0] !in "+-") ==>
              && g.argv[..] == [prog] + OptionElements(items, end) + OperandElements(items, end)
              && g.optind == 1 + |OptionElements(items, end)|
  {
    hide ItemsOk, Scan, Meant, Pick, Written;
    MarksChoose(g.optstring, g.longopts, g.posixlyCorrect);
    IntendedIsRead(prog, items, end, g.First(), g.Later());
    assert g.args[1..] == Written(items, end);
    if g.Later().ordering.Permute? {
      TakenAreOptions(g.First(), g.Later(), items, end);
    }
  }
}
