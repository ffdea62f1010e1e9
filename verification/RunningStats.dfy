/** The integer statistics ui/net.c keeps for a hop, and what they are worth. */
module RunningStats {
  import opened CInt

  /** The numeric fields of `struct nethost` that a reply updates. */
  datatype Stats = Stats(returned: nat, last: int, best: int, worst: int, avg: int, ssd: int,
                         jitter: int, javg: int, jworst: int, jinta: int)

  const NO_STATS := Stats(0, 0, 0, 0, 0, 0, 0, 0, 0, 0)

  function Abs(x: int): nat { if x < 0 then -x else x }

  /**
   * `avg += (t - avg + .0) / n` with `avg` an int: the exact quotient is added, and the sum is
   * truncated toward zero.
   */
  function NextMean(avg: int, t: int, n: nat): int
    requires n > 0
  {
    TruncDiv(avg * n + (t - avg), n)
  }

  /** The effect of one reply with round trip time `t`, statement by statement. */
  method RecordReply(s: Stats, t: nat) returns (r: Stats)
    ensures r == Replied(s, t)
  {
    r := s;
    r := r.(jitter := t - r.last);
    if r.jitter < 0 {
      r := r.(jitter := -r.jitter);
    }
    r := r.(last := t);
    if r.returned < 1 {
      r := r.(best := t, worst := t);
      r := r.(avg := 0, ssd := 0);
      r := r.(jitter := 0, jworst := 0, jinta := 0);
    }
    if t < r.best {
      r := r.(best := t);
    }
    if t > r.worst {
      r := r.(worst := t);
    }
    if r.jitter > r.jworst {
      r := r.(jworst := r.jitter);
    }
    r := r.(returned := r.returned + 1);
    var oldAvg := r.avg;
    r := r.(avg := NextMean(oldAvg, t, r.returned));
    r := r.(ssd := r.ssd + (t - oldAvg) * (t - r.avg));
    var oldJavg := r.javg;
    r := r.(javg := r.javg + TruncDiv(r.jitter - oldJavg, r.returned));
    r := r.(jinta := r.jinta + r.jitter - (r.jinta + 8) / 16);
  }

  /** The same, as a function of the state before. */
  function Replied(s: Stats, t: nat): Stats {
    var n, first := s.returned + 1, s.returned == 0;
    var jitter := if first then 0 else Abs(t - s.last);
    var oldAvg, ssd, jinta := if first then 0 else s.avg, if first then 0 else s.ssd, if first then 0 else s.jinta;
    var avg := NextMean(oldAvg, t, n);
    Stats(n, t,
          if first || t < s.best then t else s.best,
          if first || t > s.worst then t else s.worst,
          avg,
          ssd + (t - oldAvg) * (t - avg),
          jitter,
          s.javg + TruncDiv(jitter - s.javg, n),
          if first || jitter > s.jworst then jitter else s.jworst,
          jinta + jitter - (jinta + 8) / 16)
  }

  // ----- what the round trip times themselves say -----

  function Min(ts: seq<nat>): nat
    requires ts != []
  {
    var last := ts[|ts| - 1];
    if |ts| == 1 then last else if last < Min(ts[..|ts| - 1]) then last else Min(ts[..|ts| - 1])
  }

  function Max(ts: seq<nat>): nat
    requires ts != []
  {
    var last := ts[|ts| - 1];
    if |ts| == 1 then last else if last > Max(ts[..|ts| - 1]) then last else Max(ts[..|ts| - 1])
  }

  function Sum(ts: seq<nat>): nat { if ts == [] then 0 else Sum(ts[..|ts| - 1]) + ts[|ts| - 1] }

  lemma {:induction false} MinMaxAreExtremes(ts: seq<nat>)
    requires ts != []
    ensures Min(ts) in ts && Max(ts) in ts
    ensures forall t :: t in ts ==> Min(ts) <= t <= Max(ts)
    decreases |ts|
  {
    var front := ts[..|ts| - 1];
    assert ts == front + [ts[|ts| - 1]];
    if |ts| > 1 {
      MinMaxAreExtremes(front);
    }
  }

  /** The statistics after the replies `ts`, in order. */
  function After(ts: seq<nat>): Stats {
    if ts == [] then NO_STATS else Replied(After(ts[..|ts| - 1]), ts[|ts| - 1])
  }

  // ----- the mean -----

  lemma Times(n: nat, x: int)
    requires n > 0
    ensures n * x == (n - 1) * x + x
  {}

  lemma Scale(n: nat, x: int, y: int)
    requires x <= y
    ensures n * x <= n * y
  {}

  lemma ScaleStrictly(n: nat, x: int, y: int)
    ensures x < y ==> n * x + n <= n * y
  {
    if x < y {
      Scale(n, x + 1, y);
    }
  }

  lemma Quotient(total: nat, n: nat)
    requires n > 0
    ensures n * (total / n) <= total < n * (total / n) + n
  {}

  lemma Squeezed(n: nat, lo: int, m: int, hi: int, total: int)
    requires n > 0 && n * lo <= total <= n * hi && n * m <= total < n * m + n
    ensures lo <= m <= hi
  {
    ScaleStrictly(n, m, lo);
    ScaleStrictly(n, hi, m);
  }

  lemma MeanTotal(avg: int, t: int, n: nat)
    requires n > 0 && avg >= 0 && t >= 0
    ensures NextMean(avg, t, n) == ((n - 1) * avg + t) / n && (n - 1) * avg + t >= 0
  {
    Times(n, avg);
    assert avg * n == n * avg;
    Scale(n - 1, 0, avg);
  }

  /** The truncated mean moves from the old mean toward the new value, and loses less than n. */
  lemma MeanStep(avg: int, t: int, n: nat)
    requires n > 0 && avg >= 0 && t >= 0
    ensures var m := NextMean(avg, t, n);
            && (avg <= t ==> avg <= m <= t) && (t <= avg ==> t <= m <= avg)
            && 0 <= (n - 1) * avg + t - n * m < n
  {
    hide NextMean;
    MeanTotal(avg, t, n);
    var total, m := (n - 1) * avg + t, NextMean(avg, t, n);
    Quotient(total, n);
    Times(n, avg);
    Times(n, t);
    if avg <= t {
      Scale(n - 1, avg, t);
      Squeezed(n, avg, m, t, total);
    }
    if t <= avg {
      Scale(n - 1, t, avg);
      Squeezed(n, t, m, avg, total);
    }
  }

  /**
   * After any replies: best and worst are the extremes, the mean lies between them, and n times
   * the mean misses the sum by at most n(n-1)/2.
   */
  lemma {:induction false} MeanIsBounded(ts: seq<nat>)
    requires ts != []
    ensures var s, n := After(ts), |ts|;
            && s.returned == n && s.last == ts[n - 1]
            && s.best == Min(ts) && s.worst == Max(ts)
            && s.best <= s.avg <= s.worst
            && 0 <= Sum(ts) - n * s.avg && 2 * (Sum(ts) - n * s.avg) <= n * (n - 1)
    decreases |ts|
  {
    hide NextMean;
    var n, t := |ts|, ts[|ts| - 1];
    var front := ts[..n - 1];
    if n == 1 {
      assert front == [];
      MeanStep(0, t, 1);
    } else {
      MeanIsBounded(front);
      var s := After(front);
      MeanStep(s.avg, t, n);
      Drift(n, Sum(front), t, s.avg, NextMean(s.avg, t, n));
    }
  }

  lemma {:induction false} Drift(n: nat, sum: int, t: int, avg: int, m: int)
    requires n > 1 && 0 <= sum - (n - 1) * avg && 2 * (sum - (n - 1) * avg) <= (n - 1) * (n - 2)
    requires 0 <= (n - 1) * avg + t - n * m < n
    ensures 0 <= sum + t - n * m && 2 * (sum + t - n * m) <= n * (n - 1)
  {
    assert (n - 1) * (n - 2) + 2 * (n - 1) == n * (n - 1);
  }

  /** The sum of squares never decreases and never goes negative: both factors have one sign. */
  lemma {:induction false} SpreadGrows(ts: seq<nat>)
    requires ts != []
    ensures After(ts).ssd >= 0
    ensures |ts| > 1 ==> After(ts).ssd >= After(ts[..|ts| - 1]).ssd
    decreases |ts|
  {
    hide NextMean;
    var n, t := |ts|, ts[|ts| - 1];
    var front := ts[..n - 1];
    if n == 1 {
      assert front == [];
      MeanStep(0, t, 1);
    } else {
      SpreadGrows(front);
      MeanIsBounded(front);
      var s := After(front);
      MeanStep(s.avg, t, n);
      SameSign(t - s.avg, t - NextMean(s.avg, t, n));
    }
  }

  lemma SameSign(a: int, b: int)
    requires (a >= 0 && b >= 0) || (a <= 0 && b <= 0)
    ensures a * b >= 0
  {}

  // ----- jitter -----

  /** The interarrival jitter filter of section A.8 of RFC 1889, scaled by 16, cannot run away. */
  lemma FilterStep(x: int, j: int, w: int)
    requires 0 <= x <= 16 * w + 7 && 0 <= j <= w
    ensures 0 <= x + j - (x + 8) / 16 <= 16 * w + 7
  {}

  lemma JitterMeanStep(javg: int, j: int, n: nat)
    requires n > 0 && javg >= 0 && j >= 0
    ensures var m := javg + TruncDiv(j - javg, n);
            (javg <= j ==> javg <= m <= j) && (j <= javg ==> j <= m <= javg)
  {
    if j >= javg {
      Shrinks(j - javg, n);
    } else {
      Shrinks(javg - j, n);
    }
  }

  lemma Shrinks(d: nat, n: nat)
    requires n > 0
    ensures 0 <= d / n <= d
  {
    Quotient(d, n);
    Squeezed(n, 0, d / n, d, d) by {
      Times(n, d);
      Scale(n - 1, 0, d);
    }
  }

  lemma LastWithinExtremes(ts: seq<nat>)
    requires ts != []
    ensures var s := After(ts); s.returned == |ts| && s.best <= s.last <= s.worst
  {
    MeanIsBounded(ts);
    MinMaxAreExtremes(ts);
    assert ts[|ts| - 1] in ts;
  }

  /** In every reachable state the jitter figures are within their natural bounds. */
  lemma {:induction false} JitterIsBounded(ts: seq<nat>)
    requires ts != []
    ensures var s := After(ts);
            && 0 <= s.jinta <= 16 * s.jworst + 7
            && 0 <= s.javg <= s.jworst <= s.worst - s.best
            && 0 <= s.jitter <= s.jworst
    decreases |ts|
  {
    hide NextMean, TruncDiv;
    var n, t := |ts|, ts[|ts| - 1];
    var front := ts[..n - 1];
    if n == 1 {
      assert front == [];
      JitterMeanStep(0, 0, 1);
    } else {
      JitterIsBounded(front);
      var s := After(front);
      LastWithinExtremes(front);
      var jitter := Abs(t - s.last);
      JitterMeanStep(s.javg, jitter, n);
      FilterStep(s.jinta, jitter, if jitter > s.jworst then jitter else s.jworst);
    }
  }

  /** With round trip times below 2^27 microseconds no figure but `ssd` can leave 32 bits. */
  lemma FiguresFitInt32(ts: seq<nat>)
    requires ts != [] && forall t :: t in ts ==> t < 0x800_0000 - 1
    ensures var s := After(ts);
            && IsInt32(s.last) && IsInt32(s.best) && IsInt32(s.worst) && IsInt32(s.avg)
            && IsInt32(s.jitter) && IsInt32(s.javg) && IsInt32(s.jworst) && IsInt32(s.jinta)
  {
    MeanIsBounded(ts);
    JitterIsBounded(ts);
    MinMaxAreExtremes(ts);
  }
}
