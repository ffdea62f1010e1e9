/**
 * Stable partition of an argument vector, and how far getopt has got with it: elements
 * [1, first) and [last, optind) have been consumed, [first, last) were skipped, the rest is untouched.
 */
module Partition {
  import opened Exchange

  /** The elements whose flag is `b`, in order. */
  function Pick<T>(xs: seq<T>, flags: seq<bool>, b: bool): (r: seq<T>)
    requires |xs| == |flags|
    ensures |r| <= |xs|
  {
    if |xs| == 0 then [] else (if flags[0] == b then [xs[0]] else []) + Pick(xs[1..], flags[1..], b)
  }

  lemma PickHead<T>(xs: seq<T>, flags: seq<bool>, b: bool)
    requires |xs| == |flags| > 0
    ensures Pick(xs, flags, b) == (if flags[0] == b then [xs[0]] else []) + Pick(xs[1..], flags[1..], b)
  {}

  lemma EmptyPick<T>(xs: seq<T>, flags: seq<bool>, b: bool)
    requires |xs| == |flags| == 0
    ensures Pick(xs, flags, b) == []
  {}

  lemma {:induction false} PickAppend<T>(xs: seq<T>, ys: seq<T>, f: seq<bool>, g: seq<bool>, b: bool)
    requires |xs| == |f| && |ys| == |g|
    ensures Pick(xs + ys, f + g, b) == Pick(xs, f, b) + Pick(ys, g, b)
  {
    hide Pick;
    if |xs| == 0 {
      EmptyPick(xs, f, b);
      assert xs + ys == ys && f + g == g;
    } else {
      PickAppend(xs[1..], ys, f[1..], g, b);
      PickHead(xs, f, b);
      PickHead(xs + ys, f + g, b);
      assert (xs + ys)[1..] == xs[1..] + ys && (f + g)[1..] == f[1..] + g;
      assert (xs + ys)[0] == xs[0] && (f + g)[0] == f[0];
    }
  }

  lemma {:induction false} PickUniform<T>(xs: seq<T>, flags: seq<bool>, b: bool)
    requires |xs| == |flags|
    requires forall k :: 0 <= k < |flags| ==> flags[k] == b
    ensures Pick(xs, flags, b) == xs && Pick(xs, flags, !b) == []
  {
    if |xs| > 0 {
      PickUniform(xs[1..], flags[1..], b);
    }
  }

  /** Nothing is lost or invented by a partition. */
  lemma {:induction false} PickIsPermutation<T>(xs: seq<T>, flags: seq<bool>)
    requires |xs| == |flags|
    ensures multiset(Pick(xs, flags, true) + Pick(xs, flags, false)) == multiset(xs)
    ensures |Pick(xs, flags, true)| + |Pick(xs, flags, false)| == |xs|
  {
    hide Pick;
    if |xs| == 0 {
      EmptyPick(xs, flags, true);
      EmptyPick(xs, flags, false);
    } else {
      PickHead(xs, flags, true);
      PickHead(xs, flags, false);
      PickIsPermutation(xs[1..], flags[1..]);
      assert xs == [xs[0]] + xs[1..];
      var t, f := Pick(xs[1..], flags[1..], true), Pick(xs[1..], flags[1..], false);
      assert multiset(t + f) == multiset(t) + multiset(f);
    }
  }

  /** The consumed elements first, then the others. */
  function Partitioned<T>(args: seq<T>, taken: seq<bool>): seq<T>
    requires |args| == |taken| + 1
  {
    [args[0]] + Pick(args[1..], taken, true) + Pick(args[1..], taken, false)
  }

  lemma PartitionedIsPermutation<T>(args: seq<T>, taken: seq<bool>)
    requires |args| == |taken| + 1
    ensures multiset(Partitioned(args, taken)) == multiset(args) && |Partitioned(args, taken)| == |args|
  {
    PickIsPermutation(args[1..], taken);
    assert args == [args[0]] + args[1..];
    assert Partitioned(args, taken) == [args[0]] + (Pick(args[1..], taken, true) + Pick(args[1..], taken, false));
  }

  ghost predicate Arranged<T>(cur: seq<T>, args: seq<T>, first: nat, last: nat, optind: nat, taken: seq<bool>) {
    1 <= first <= last <= optind <= |args| && |cur| == |args| && |taken| == optind - 1 &&
    cur[0] == args[0] && cur[optind..] == args[optind..] &&
    cur[1..first] + cur[last..optind] == Pick(args[1..optind], taken, true) &&
    cur[first..last] == Pick(args[1..optind], taken, false)
  }

  lemma ArrangedAtStart<T>(args: seq<T>)
    requires |args| >= 1
    ensures Arranged(args, args, 1, 1, 1, [])
  {
    EmptySlice(args, 1);
    EmptyPick(args[1..1], [], true);
    EmptyPick(args[1..1], [], false);
    hide Pick;
  }

  lemma EmptySlice<T>(s: seq<T>, i: nat)
    requires i <= |s|
    ensures s[i..i] == [] && forall t: seq<T> :: t + s[i..i] == t
  {}

  lemma SliceMore<T>(s: seq<T>, i: nat, j: nat)
    requires i <= j < |s|
    ensures s[i..j + 1] == s[i..j] + [s[j]]
  {}

  lemma SlicesMeet<T>(s: seq<T>, i: nat, j: nat, k: nat)
    requires i <= j <= k <= |s|
    ensures s[i..j] + s[j..k] == s[i..k]
  {}

  lemma AppendLast<T>(s: seq<T>, t: seq<T>, x: T)
    ensures s + (t + [x]) == (s + t) + [x]
  {}

  /** The four slices of a rotated sequence that matter. */
  lemma RotatedSlices<T>(s: seq<T>, first: nat, last: nat, optind: nat)
    requires 1 <= first <= last <= optind <= |s|
    ensures var r, m := Rotated(s, first, last, optind), first + (optind - last);
            && r[0] == s[0] && r[optind..] == s[optind..] && r[m..optind] == s[first..last]
            && r[1..m] == s[1..first] + s[last..optind]
  {}

  /** Rotating the skipped block behind the consumed one. */
  lemma ArrangedExchange<T>(cur: seq<T>, args: seq<T>, first: nat, last: nat, optind: nat, taken: seq<bool>)
    requires Arranged(cur, args, first, last, optind, taken)
    ensures Arranged(Rotated(cur, first, last, optind), args, first + (optind - last), optind, optind, taken)
  {
    hide Pick, Rotated;
    RotatedSlices(cur, first, last, optind);
    EmptySlice(Rotated(cur, first, last, optind), optind);
  }

  /** With nothing skipped the empty skipped block may stand anywhere. */
  lemma ArrangedAnywhere<T>(cur: seq<T>, args: seq<T>, first: nat, optind: nat, taken: seq<bool>, p: nat)
    requires Arranged(cur, args, first, first, optind, taken) && 1 <= p <= optind
    ensures Arranged(cur, args, p, p, optind, taken)
  {
    hide Pick;
    SlicesMeet(cur, 1, first, optind);
    SlicesMeet(cur, 1, p, optind);
    EmptySlice(cur, first);
    EmptySlice(cur, p);
  }

  lemma ArrangedSkip<T>(cur: seq<T>, args: seq<T>, first: nat, optind: nat, taken: seq<bool>)
    requires Arranged(cur, args, first, optind, optind, taken) && optind < |args|
    ensures Arranged(cur, args, first, optind + 1, optind + 1, taken + [false])
  {
    hide Pick;
    OneMore(cur, args, optind, taken, false);
    SliceMore(cur, first, optind);
    EmptySlice(cur, optind);
    EmptySlice(cur, optind + 1);
  }

  lemma ArrangedTake<T>(cur: seq<T>, args: seq<T>, first: nat, last: nat, optind: nat, taken: seq<bool>)
    requires Arranged(cur, args, first, last, optind, taken) && optind < |args|
    ensures Arranged(cur, args, first, last, optind + 1, taken + [true])
  {
    hide Pick;
    OneMore(cur, args, optind, taken, true);
    SliceMore(cur, last, optind);
    AppendLast(cur[1..first], cur[last..optind], cur[optind]);
  }

  lemma PickOne<T>(x: T, b: bool)
    ensures Pick([x], [b], b) == [x] && Pick([x], [b], !b) == []
  {
    PickHead([x], [b], b);
    PickHead([x], [b], !b);
    EmptyPick([x][1..], [b][1..], b);
    EmptyPick([x][1..], [b][1..], !b);
  }

  lemma OneMore<T>(cur: seq<T>, args: seq<T>, optind: nat, taken: seq<bool>, b: bool)
    requires 1 <= optind < |args| == |cur| && |taken| == optind - 1 && cur[optind..] == args[optind..]
    ensures cur[optind] == args[optind] && cur[optind + 1..] == args[optind + 1..]
    ensures Pick(args[1..optind + 1], taken + [b], b) == Pick(args[1..optind], taken, b) + [cur[optind]]
    ensures Pick(args[1..optind + 1], taken + [b], !b) == Pick(args[1..optind], taken, !b)
  {
    hide Pick;
    assert cur[optind] == cur[optind..][0] == args[optind..][0] == args[optind];
    assert cur[optind + 1..] == cur[optind..][1..] && args[optind + 1..] == args[optind..][1..];
    SliceMore(args, 1, optind);
    PickOne(args[optind], b);
    PickAppend(args[1..optind], [args[optind]], taken, [b], b);
    PickAppend(args[1..optind], [args[optind]], taken, [b], !b);
    assert Pick(args[1..optind], taken, !b) + [] == Pick(args[1..optind], taken, !b);
  }

  /** Everything after optind left alone, with the skipped block next to it: the partition is done. */
  lemma {:induction false} ArrangedEnd<T>(cur: seq<T>, args: seq<T>, first: nat, optind: nat, taken: seq<bool>, rest: seq<bool>)
    requires Arranged(cur, args, first, optind, optind, taken)
    requires |rest| == |args| - optind && forall k :: 0 <= k < |rest| ==> !rest[k]
    ensures cur == Partitioned(args, taken + rest)
    ensures first == 1 + |Pick(args[1..], taken + rest, true)|
    ensures |Pick(args[1..], taken + rest, false)| == |args| - first
  {
    PickUniform(args[optind..], rest, false);
    assert args[1..] == args[1..optind] + args[optind..];
    PickAppend(args[1..optind], args[optind..], taken, rest, true);
    PickAppend(args[1..optind], args[optind..], taken, rest, false);
    hide Pick;
    var t, f := cur[1..first], cur[first..optind];
    assert t + cur[optind..optind] == t;
    assert Pick(args[1..], taken + rest, true) == t + [] == t;
    assert Pick(args[1..], taken + rest, false) == f + cur[optind..] == cur[first..];
    assert cur == [cur[0]] + t + cur[first..];
  }
}
