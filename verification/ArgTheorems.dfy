/**
 * Reading a partitioned vector again.  getopt moves the options before everything else; one would
 * expect that to leave their meaning alone.  It does unless the last option lacks its argument and
 * a skipped element, now behind it, is taken for one.
 */
module ArgTheorems {
  import opened Options
  import opened ArgScan
  import opened Partition

  /** The option at hand takes its argument from the next element. */
  predicate Wants(sp: Syntax, e: string, pending: string)
    requires pending != ""
  {
    DecodeStep(sp, e, pending, Some("")).used == 2
  }

  lemma OnlyWantedIsUsed(sp: Syntax, e: string, pending: string, a: Option<string>, b: Option<string>)
    requires pending != ""
    ensures !Wants(sp, e, pending) ==> DecodeStep(sp, e, pending, a) == DecodeStep(sp, e, pending, b)
    ensures !Wants(sp, e, pending) ==> DecodeStep(sp, e, pending, a).used < 2
    ensures Wants(sp, e, pending) && a.Some? ==> var s := DecodeStep(sp, e, pending, a); s.used == 2 && s.event.arg == a
    ensures Wants(sp, e, pending) && a.None? ==> var s := DecodeStep(sp, e, pending, a); s.used == 1 && s.event.arg == None
  {}

  /** What is still to be read of element `i`. */
  function Current(args: seq<string>, i: nat, pending: string, sp: Syntax): (p: string)
    requires i < |args| && (pending == "" ==> !IsNonOption(args[i]) && args[i] != "--")
    ensures p != ""
  {
    if pending == "" then Opened(sp, args[i]) else pending
  }

  /** The last option wants an argument and the vector ends. */
  predicate Starved(args: seq<string>, i: nat, pending: string, sp: Syntax, later: Syntax)
    requires i <= |args| && (pending != "" ==> i < |args|)
    decreases |args| - i, CharsLeft(args, i, pending)
  {
    if pending == "" && (i == |args| || args[i] == "--") then false
    else if pending == "" && IsNonOption(args[i]) then Starved(args, i + 1, "", sp, later)
    else
      var p := Current(args, i, pending, sp);
      var s := DecodeStep(sp, args[i], p, At(args, i + 1));
      (Wants(sp, args[i], p) && i + 1 == |args|) || Starved(args, i + s.used, s.pending, later, later)
  }

  lemma {:induction false} BegunIsTaken(args: seq<string>, i: nat, pending: string, sp: Syntax, later: Syntax)
    requires i < |args| && pending != ""
    ensures Scan(args, i, pending, sp, later).taken[0]
    decreases |pending|
  {
    var s := DecodeStep(sp, args[i], pending, At(args, i + 1));
    if s.used == 0 {
      BegunIsTaken(args, i, s.pending, later, later);
    }
  }

  /** Nothing but non-options: no events. */
  lemma {:induction false} OnlyNonOptions(args: seq<string>, i: nat, sp: Syntax, later: Syntax)
    requires i <= |args| && sp.ordering.Permute?
    requires forall k :: i <= k < |args| ==> IsNonOption(args[k])
    ensures Scan(args, i, "", sp, later) == Outcome([], Repeat(false, |args| - i))
    decreases |args| - i
  {
    if i < |args| {
      OnlyNonOptions(args, i + 1, sp, later);
    }
  }

  ghost predicate Rearranged(args: seq<string>, i: nat, taken: seq<bool>, again: seq<string>, j: nat, skipped: seq<string>) {
    i <= |args| && j <= |again| && |taken| == |args| - i &&
    again[j..] == Pick(args[i..], taken, true) + (skipped + Pick(args[i..], taken, false))
  }

  function Sorted(args: seq<string>, taken: seq<bool>, extra: nat): seq<bool>
    requires |args| == |taken|
  {
    Repeat(true, |Pick(args, taken, true)|) + Repeat(false, extra + |Pick(args, taken, false)|)
  }

  lemma Bounds(args: seq<string>, i: nat, taken: seq<bool>, again: seq<string>, j: nat, skipped: seq<string>)
    requires Rearranged(args, i, taken, again, j, skipped)
    ensures i <= |args| && j <= |again| && |taken| == |args| - i
  {}

  lemma TakenFirst(args: seq<string>, i: nat, taken: seq<bool>, again: seq<string>, j: nat, skipped: seq<string>)
    requires Rearranged(args, i, taken, again, j, skipped) && i < |args| && taken[0]
    ensures j < |again| && again[j] == args[i]
    ensures Rearranged(args, i + 1, taken[1..], again, j + 1, skipped)
    ensures Sorted(args[i..], taken, |skipped|) == [true] + Sorted(args[i + 1..], taken[1..], |skipped|)
  {
    PickHead(args[i..], taken, true);
    PickHead(args[i..], taken, false);
    assert args[i..][1..] == args[i + 1..];
    assert again[j..][0] == again[j];
    assert again[j + 1..] == again[j..][1..];
  }

  lemma SkippedFirst(args: seq<string>, i: nat, taken: seq<bool>, again: seq<string>, j: nat, skipped: seq<string>)
    requires Rearranged(args, i, taken, again, j, skipped) && i < |args| && !taken[0]
    ensures Rearranged(args, i + 1, taken[1..], again, j, skipped + [args[i]])
    ensures Sorted(args[i..], taken, |skipped|) == Sorted(args[i + 1..], taken[1..], |skipped| + 1)
  {
    PickHead(args[i..], taken, true);
    PickHead(args[i..], taken, false);
    assert args[i..][1..] == args[i + 1..];
    assert skipped + ([args[i]] + Pick(args[i + 1..], taken[1..], false)) ==
           skipped + [args[i]] + Pick(args[i + 1..], taken[1..], false);
  }

  ghost predicate ReadsTheSame(args: seq<string>, i: nat, again: seq<string>, j: nat, pending: string, sp: Syntax, later: Syntax, skipped: seq<string>)
    requires i <= |args| && j <= |again| && (pending != "" ==> i < |args| && j < |again|)
  {
    var o, o' := Scan(args, i, pending, sp, later), Scan(again, j, pending, sp, later);
    var clash := Starved(args, i, pending, sp, later) && skipped + Pick(args[i..], o.taken, false) != [];
    (o'.events == o.events <==> !clash) && (!clash ==> o'.taken == Sorted(args[i..], o.taken, |skipped|))
  }

  lemma RereadEnd(args: seq<string>, again: seq<string>, j: nat, sp: Syntax, later: Syntax, skipped: seq<string>)
    requires sp.ordering.Permute? && Rearranged(args, |args|, [], again, j, skipped)
    requires forall k :: 0 <= k < |skipped| ==> IsNonOption(skipped[k])
    ensures ReadsTheSame(args, |args|, again, j, "", sp, later, skipped)
  {
    assert again[j..] == skipped;
    forall k | j <= k < |again|
      ensures IsNonOption(again[k])
    {
      assert again[k] == again[j..][k - j];
    }
    OnlyNonOptions(again, j, sp, later);
  }

  lemma RereadDoubleDash(args: seq<string>, i: nat, again: seq<string>, j: nat, sp: Syntax, later: Syntax, skipped: seq<string>)
    requires i < |args| && args[i] == "--"
    requires Rearranged(args, i, [true] + Repeat(false, |args| - i - 1), again, j, skipped)
    ensures ReadsTheSame(args, i, again, j, "", sp, later, skipped)
  {
    var taken := [true] + Repeat(false, |args| - i - 1);
    TakenFirst(args, i, taken, again, j, skipped);
    assert taken[1..] == Repeat(false, |args| - i - 1);
    PickUniform(args[i + 1..], taken[1..], false);
    assert |again[j + 1..]| == |skipped| + |args| - i - 1;
  }

  /** A starved option takes the first skipped element, if there is one. */
  lemma RereadStarved(args: seq<string>, i: nat, again: seq<string>, j: nat, pending: string, sp: Syntax, later: Syntax, skipped: seq<string>)
    requires i + 1 == |args| && (pending == "" ==> !IsNonOption(args[i]) && args[i] != "--")
    requires Wants(sp, args[i], Current(args, i, pending, sp))
    requires Rearranged(args, i, [true], again, j, skipped)
    ensures j < |again| && ReadsTheSame(args, i, again, j, pending, sp, later, skipped)
  {
    var p := Current(args, i, pending, sp);
    TakenFirst(args, i, [true], again, j, skipped);
    OnlyWantedIsUsed(sp, args[i], p, At(args, i + 1), At(again, j + 1));
    PickHead(args[i..], [true], false);
    assert [true][1..] == [] && args[i..][1..] == [];
    assert again[j + 1..] == skipped;
    var s, s' := DecodeStep(sp, args[i], p, None), DecodeStep(sp, args[i], p, At(again, j + 1));
    assert Scan(args, i, pending, sp, later).events == [s.event] + Scan(args, i + 1, "", later, later).events == [s.event];
    assert Scan(again, j, pending, sp, later).events[0] == s'.event;
  }

  /** One option read: the scan before and after it. */
  lemma ScanStep(args: seq<string>, i: nat, pending: string, sp: Syntax, later: Syntax)
    requires i < |args| && (pending == "" ==> !IsNonOption(args[i]) && args[i] != "--")
    ensures var p := Current(args, i, pending, sp);
            var s := DecodeStep(sp, args[i], p, At(args, i + 1));
            i + s.used <= |args| && (s.pending != "" ==> i + s.used < |args|) &&
            (i < i + s.used || CharsLeft(args, i, s.pending) < CharsLeft(args, i, pending)) &&
            var o' := Scan(args, i + s.used, s.pending, later, later);
            var o := Scan(args, i, pending, sp, later);
            o == Outcome([s.event] + o'.events, Repeat(true, s.used) + o'.taken) && o == Scan(args, i, p, sp, later)
  {
    hide DecodeStep, IsLong, IsNonOption;
  }

  lemma StarvedStep(args: seq<string>, i: nat, pending: string, sp: Syntax, later: Syntax)
    requires i < |args| && (pending == "" ==> !IsNonOption(args[i]) && args[i] != "--")
    ensures var p := Current(args, i, pending, sp);
            var s := DecodeStep(sp, args[i], p, At(args, i + 1));
            i + s.used <= |args| && (s.pending != "" ==> i + s.used < |args|) &&
            Starved(args, i, pending, sp, later)
            == ((Wants(sp, args[i], p) && i + 1 == |args|) || Starved(args, i + s.used, s.pending, later, later))
  {
    hide DecodeStep, IsNonOption, Wants;
  }

  lemma SkipStep(args: seq<string>, i: nat, sp: Syntax, later: Syntax)
    requires i < |args| && IsNonOption(args[i]) && sp.ordering.Permute?
    ensures var o := Scan(args, i + 1, "", sp, later);
            Scan(args, i, "", sp, later) == Outcome(o.events, [false] + o.taken)
    ensures Starved(args, i, "", sp, later) == Starved(args, i + 1, "", sp, later)
  {}

  lemma RereadStep(args: seq<string>, i: nat, again: seq<string>, j: nat, pending: string, sp: Syntax, later: Syntax, skipped: seq<string>)
    requires i < |args| && (pending == "" ==> !IsNonOption(args[i]) && args[i] != "--")
    requires j < |again| && again[j] == args[i]
    requires var p := Current(args, i, pending, sp);
             var s := DecodeStep(sp, args[i], p, At(args, i + 1));
             !(Wants(sp, args[i], p) && i + 1 == |args|) &&
             s == DecodeStep(sp, args[i], p, At(again, j + 1)) &&
             i + s.used <= |args| && j + s.used <= |again| && (s.pending != "" ==> i + s.used < |args| && j + s.used < |again|) &&
             ReadsTheSame(args, i + s.used, again, j + s.used, s.pending, later, later, skipped) &&
             var o := Scan(args, i, pending, sp, later);
             var o' := Scan(args, i + s.used, s.pending, later, later);
             Pick(args[i..], o.taken, false) == Pick(args[i + s.used..], o'.taken, false) &&
             Sorted(args[i..], o.taken, |skipped|) == Repeat(true, s.used) + Sorted(args[i + s.used..], o'.taken, |skipped|)
    ensures ReadsTheSame(args, i, again, j, pending, sp, later, skipped)
  {
    hide DecodeStep, IsNonOption, Pick, Sorted, Wants, Scan, Starved;
    var p := Current(args, i, pending, sp);
    var s := DecodeStep(sp, args[i], p, At(args, i + 1));
    ScanStep(args, i, pending, sp, later);
    ScanStep(again, j, pending, sp, later);
    StarvedStep(args, i, pending, sp, later);
    var x, y := Scan(args, i + s.used, s.pending, later, later), Scan(again, j + s.used, s.pending, later, later);
    assert ([s.event] + x.events)[1..] == x.events && ([s.event] + y.events)[1..] == y.events;
  }

  /** The elements one option uses come first in both vectors. */
  lemma UsedFirst(args: seq<string>, i: nat, taken: seq<bool>, again: seq<string>, j: nat, skipped: seq<string>, used: nat)
    requires Rearranged(args, i, taken, again, j, skipped) && used <= 2 && i + used <= |args|
    requires forall k :: 0 <= k < used ==> taken[k]
    ensures j + used <= |again| && Rearranged(args, i + used, taken[used..], again, j + used, skipped)
    ensures (used > 0 ==> again[j] == args[i]) && (used > 1 ==> again[j + 1] == args[i + 1])
    ensures Pick(args[i..], taken, false) == Pick(args[i + used..], taken[used..], false)
    ensures Sorted(args[i..], taken, |skipped|) == Repeat(true, used) + Sorted(args[i + used..], taken[used..], |skipped|)
  {
    hide Rearranged, Sorted;
    Bounds(args, i, taken, again, j, skipped);
    if used == 0 {
      assert taken[0..] == taken;
    } else {
      TakenFirst(args, i, taken, again, j, skipped);
      PickHead(args[i..], taken, false);
      assert args[i..][1..] == args[i + 1..];
      if used == 2 {
        assert taken[1..][1..] == taken[2..];
        TakenFirst(args, i + 1, taken[1..], again, j + 1, skipped);
        PickHead(args[i + 1..], taken[1..], false);
        assert args[i + 1..][1..] == args[i + 2..];
        assert [true] + ([true] + Sorted(args[i + 2..], taken[2..], |skipped|)) == Repeat(true, 2) + Sorted(args[i + 2..], taken[2..], |skipped|);
      } else {
        assert Repeat(true, 1) == [true];
      }
    }
  }

  lemma RereadSkip(args: seq<string>, i: nat, again: seq<string>, j: nat, sp: Syntax, later: Syntax, skipped: seq<string>)
    requires i < |args| && IsNonOption(args[i]) && sp.ordering.Permute? && j <= |again|
    requires ReadsTheSame(args, i + 1, again, j, "", sp, later, skipped + [args[i]])
    ensures ReadsTheSame(args, i, again, j, "", sp, later, skipped)
  {
    hide Scan, Starved, IsNonOption;
    SkipStep(args, i, sp, later);
    var o, o' := Scan(args, i, "", sp, later), Scan(args, i + 1, "", sp, later);
    PickHead(args[i..], o.taken, true);
    PickHead(args[i..], o.taken, false);
    assert args[i..][1..] == args[i + 1..] && o.taken[1..] == o'.taken;
    hide Pick;
    var f := Pick(args[i + 1..], o'.taken, false);
    assert skipped + ([args[i]] + f) == skipped + [args[i]] + f;
  }

  lemma {:induction false} RereadOption(args: seq<string>, i: nat, again: seq<string>, j: nat, pending: string, sp: Syntax, later: Syntax, skipped: seq<string>)
    requires i < |args| && (pending == "" ==> !IsNonOption(args[i]) && args[i] != "--")
    requires sp.ordering.Permute? && later.ordering.Permute?
    requires Rearranged(args, i, Scan(args, i, pending, sp, later).taken, again, j, skipped)
    requires forall k :: 0 <= k < |skipped| ==> IsNonOption(skipped[k])
    ensures j < |again| && ReadsTheSame(args, i, again, j, pending, sp, later, skipped)
    decreases |args| - i, CharsLeft(args, i, pending), 0
  {
    hide Rearranged, ReadsTheSame, Wants, DecodeStep, Sorted, Pick, Scan, IsNonOption, Current, CharsLeft;
    var o := Scan(args, i, pending, sp, later);
    var p := Current(args, i, pending, sp);
    var s := DecodeStep(sp, args[i], p, At(args, i + 1));
    ScanStep(args, i, pending, sp, later);
    var o' := Scan(args, i + s.used, s.pending, later, later);
    BegunIsTaken(args, i, p, sp, later);
    TakenFirst(args, i, o.taken, again, j, skipped);
    OnlyWantedIsUsed(sp, args[i], p, At(args, i + 1), None);
    if Wants(sp, args[i], p) && i + 1 == |args| {
      assert |o.taken| == 1;
      assert o.taken == [true];
      RereadStarved(args, i, again, j, pending, sp, later, skipped);
    } else {
      assert o.taken[s.used..] == o'.taken;
      UsedFirst(args, i, o.taken, again, j, skipped, s.used);
      Bounds(args, i + s.used, o'.taken, again, j + s.used, skipped);
      SameNext(args, i, again, j, p, sp);
      Reread(args, i + s.used, again, j + s.used, s.pending, later, later, skipped);
      RereadStep(args, i, again, j, pending, sp, later, skipped);
    }
  }

  /** An option that is not starved decodes alike where the elements it uses are the same. */
  lemma SameNext(args: seq<string>, i: nat, again: seq<string>, j: nat, p: string, sp: Syntax)
    requires i < |args| && j < |again| && p != "" && !(Wants(sp, args[i], p) && i + 1 == |args|)
    requires var s := DecodeStep(sp, args[i], p, At(args, i + 1));
             s.used > 1 ==> i + 1 < |args| && j + 1 < |again| && again[j + 1] == args[i + 1]
    ensures DecodeStep(sp, args[i], p, At(args, i + 1)) == DecodeStep(sp, args[i], p, At(again, j + 1))
  {
    hide DecodeStep;
    OnlyWantedIsUsed(sp, args[i], p, At(args, i + 1), At(again, j + 1));
  }

  lemma {:induction false} Reread(args: seq<string>, i: nat, again: seq<string>, j: nat, pending: string, sp: Syntax, later: Syntax, skipped: seq<string>)
    requires i <= |args| && (pending != "" ==> i < |args|) && sp.ordering.Permute? && later.ordering.Permute?
    requires Rearranged(args, i, Scan(args, i, pending, sp, later).taken, again, j, skipped)
    requires forall k :: 0 <= k < |skipped| ==> IsNonOption(skipped[k])
    ensures j <= |again| && (pending != "" ==> j < |again|)
    ensures ReadsTheSame(args, i, again, j, pending, sp, later, skipped)
    decreases |args| - i, CharsLeft(args, i, pending), 1
  {
    hide Rearranged, ReadsTheSame, Wants, DecodeStep, Sorted, Pick;
    var o := Scan(args, i, pending, sp, later);
    Bounds(args, i, o.taken, again, j, skipped);
    if pending == "" && i == |args| {
      RereadEnd(args, again, j, sp, later, skipped);
    } else if pending == "" && args[i] == "--" {
      RereadDoubleDash(args, i, again, j, sp, later, skipped);
    } else if pending == "" && IsNonOption(args[i]) {
      SkippedFirst(args, i, o.taken, again, j, skipped);
      assert o.taken[1..] == Scan(args, i + 1, "", sp, later).taken;
      Reread(args, i + 1, again, j, "", sp, later, skipped + [args[i]]);
      RereadSkip(args, i, again, j, sp, later, skipped);
    } else {
      RereadOption(args, i, again, j, pending, sp, later, skipped);
    }
  }

  lemma SortedStays(head: string, t: seq<string>, f: seq<string>)
    ensures Partitioned([head] + t + f, Repeat(true, |t|) + Repeat(false, |f|)) == [head] + t + f
  {
    PickUniform(t, Repeat(true, |t|), true);
    PickUniform(f, Repeat(false, |f|), false);
    PickAppend(t, f, Repeat(true, |t|), Repeat(false, |f|), true);
    PickAppend(t, f, Repeat(true, |t|), Repeat(false, |f|), false);
    hide Pick;
    var whole, flags := [head] + t + f, Repeat(true, |t|) + Repeat(false, |f|);
    assert whole[1..] == t + f;
    assert Pick(t + f, flags, true) == t && Pick(t + f, flags, false) == f;
  }

  lemma RearrangedAll(args: seq<string>, taken: seq<bool>)
    requires |args| == |taken| + 1
    ensures Rearranged(args, 1, taken, Partitioned(args, taken), 1, [])
  {
    var f := Pick(args[1..], taken, false);
    assert [] + f == f;
    assert Partitioned(args, taken)[1..] == Pick(args[1..], taken, true) + f;
  }

  /**
   * Giving the partitioned vector to getopt again yields the same options, and moves nothing, if and
   * only if the last option did not lack its argument while an element was skipped.
   */
  lemma PartitionIsReadTheSame(args: seq<string>, sp: Syntax, later: Syntax)
    requires |args| >= 1 && sp.ordering.Permute? && later.ordering.Permute?
    ensures var o := Scan(args, 1, "", sp, later);
            var again := Partitioned(args, o.taken);
            |again| == |args| &&
            var o' := Scan(again, 1, "", sp, later);
            var clash := Starved(args, 1, "", sp, later) && Pick(args[1..], o.taken, false) != [];
            (o'.events == o.events <==> !clash) && (!clash ==> Partitioned(again, o'.taken) == again)
  {
    hide Scan, Starved, Pick, Rearranged;
    var o := Scan(args, 1, "", sp, later);
    var again := Partitioned(args, o.taken);
    var t, f := Pick(args[1..], o.taken, true), Pick(args[1..], o.taken, false);
    PickIsPermutation(args[1..], o.taken);
    assert again[1..] == t + ([] + f) == t + f;
    RearrangedAll(args, o.taken);
    Reread(args, 1, again, 1, "", sp, later, []);
    var o' := Scan(again, 1, "", sp, later);
    assert [] + f == f;
    if !(Starved(args, 1, "", sp, later) && f != []) {
      assert o'.taken == Repeat(true, |t|) + Repeat(false, |f|);
      SortedStays(args[0], t, f);
    }
  }

  lemma PickSecond(x: string, y: string)
    ensures Pick([x, y], [false, true], true) == [y] && Pick([x, y], [false, true], false) == [x]
  {
    assert [x, y][1..] == [y] && [false, true][1..] == [true];
    assert Pick([y], [true], true) == [y] && Pick([y], [true], false) == [];
  }

  lemma OptionO(next: Option<string>)
    ensures var sp := Syntax("o:", None, Permute);
            DecodeStep(sp, "-o", Opened(sp, "-o"), next)
            == if next.Some? then Step(Event('o' as int, next, Nothing), "", 2)
               else Step(Event('?' as int, None, BadOption('o')), "", 1)
  {
    assert IndexOf("o:", 'o') == 0;
    assert "-o"[1..] == "o" && "o"[1..] == "";
  }

  /** An input on which the promise fails: "-o" lacks its argument until "x" is moved behind it. */
  lemma StarvedExample()
    ensures var sp := Syntax("o:", None, Permute);
            var o := Scan(["prog", "x", "-o"], 1, "", sp, sp);
            var again := Partitioned(["prog", "x", "-o"], o.taken);
            again == ["prog", "-o", "x"] &&
            o.events == [Event('?' as int, None, BadOption('o'))] &&
            Scan(again, 1, "", sp, sp).events == [Event('o' as int, Some("x"), Nothing)]
  {
    var sp := Syntax("o:", None, Permute);
    var args, again := ["prog", "x", "-o"], ["prog", "-o", "x"];
    OptionO(None);
    OptionO(Some("x"));
    hide DecodeStep, Opened, Pick;
    assert Scan(args, 3, "", sp, sp) == Outcome([], []);
    assert Scan(args, 2, "", sp, sp) == Outcome([Event('?' as int, None, BadOption('o'))], [true]);
    assert Scan(args, 1, "", sp, sp).taken == [false, true];
    PickSecond("x", "-o");
    assert Scan(again, 3, "", sp, sp) == Outcome([], []);
  }

  lemma SameDecoding(sp: Syntax, sp': Syntax, e: string, pending: string, next: Option<string>)
    requires pending != "" && sp'.optstring == sp.optstring && sp'.longopts == sp.longopts
    ensures DecodeStep(sp', e, pending, next) == DecodeStep(sp, e, pending, next)
  {}

  lemma SameCurrent(args: seq<string>, i: nat, pending: string, sp: Syntax, sp': Syntax)
    requires i < |args| && (pending == "" ==> !IsNonOption(args[i]) && args[i] != "--") && sp'.longopts == sp.longopts
    ensures Current(args, i, pending, sp') == Current(args, i, pending, sp)
  {}

  lemma PosixStops(args: seq<string>, i: nat, sp: Syntax, later: Syntax)
    requires i <= |args| && (i == |args| || args[i] == "--" || IsNonOption(args[i])) && sp.ordering.RequireOrder?
    ensures Scan(args, i, "", sp, later).events == []
  {}

  /** Under POSIX ordering the scan reports a prefix of what the permuting scan reports. */
  lemma {:induction false} PosixReportsAPrefix(args: seq<string>, i: nat, pending: string, sp: Syntax, later: Syntax)
    requires i <= |args| && (pending != "" ==> i < |args|) && sp.ordering.Permute? && later.ordering.Permute?
    ensures Scan(args, i, pending, sp.(ordering := RequireOrder), later.(ordering := RequireOrder)).events
         <= Scan(args, i, pending, sp, later).events
    decreases |args| - i, CharsLeft(args, i, pending)
  {
    hide Scan, DecodeStep, Current, CharsLeft, IsNonOption;
    if pending == "" && (i == |args| || args[i] == "--" || IsNonOption(args[i])) {
      PosixStops(args, i, sp.(ordering := RequireOrder), later.(ordering := RequireOrder));
    } else {
      var posix := sp.(ordering := RequireOrder);
      var p := Current(args, i, pending, sp);
      var s := DecodeStep(sp, args[i], p, At(args, i + 1));
      SameDecoding(sp, posix, args[i], p, At(args, i + 1));
      SameCurrent(args, i, pending, sp, posix);
      ScanStep(args, i, pending, sp, later);
      ScanStep(args, i, pending, posix, later.(ordering := RequireOrder));
      PosixReportsAPrefix(args, i + s.used, s.pending, later, later);
    }
  }
}
