/**
 * What the integer statistics are worth: how far the mean jitter, the jitter filter and the sum of
 * squares can be from the exact values of the round trip times.
 */
module StatsValues {
  import opened CInt
  import opened RunningStats

  // ----- jitter -----

  function Change(t: int, before: int): nat { Abs(t - before) }

  /** The change from each round trip time to the next; the first has none. */
  function Jumps(ts: seq<nat>): (js: seq<nat>)
    ensures |js| == |ts|
  {
    if ts == [] then []
    else
      var n := |ts| - 1;
      Jumps(ts[..n]) + [if n == 0 then 0 else Change(ts[n], ts[n - 1])]
  }

  lemma {:induction false} JumpsAre(ts: seq<nat>, k: nat)
    requires k < |ts|
    ensures Jumps(ts)[k] == if k == 0 then 0 else Change(ts[k], ts[k - 1])
    decreases |ts|
  {
    if k < |ts| - 1 {
      JumpsAre(ts[..|ts| - 1], k);
    }
  }

  /** The filter of section A.8 of RFC 1889 without rounding, scaled by 16: J += |D| - J/16. */
  function Filter(js: seq<nat>): real {
    if js == [] then 0.0 else Filter(js[..|js| - 1]) * 15.0 / 16.0 + js[|js| - 1] as real
  }

  /** One step of the integer filter strays by half a unit at most. */
  lemma FilterStrays(x: int, j: int, f: real)
    requires x >= 0 && -8.0 <= x as real - f <= 8.0
    ensures -8.0 <= (x + j - (x + 8) / 16) as real - (f * 15.0 / 16.0 + j as real) <= 8.0
  {
    var q := (x + 8) / 16;
    assert 16 * q <= x + 8 < 16 * q + 16;
    assert 16.0 * q as real <= x as real + 8.0 && x as real < 16.0 * q as real + 8.0;
  }

  lemma TruncRest(d: int, n: int)
    requires n > 0
    ensures -n < d - n * TruncDiv(d, n) < n
  {
    if d >= 0 {
      Quotient(d, n);
    } else {
      Quotient(-d, n);
      assert n * TruncDiv(d, n) == -(n * (-d / n));
    }
  }

  /** n times a mean of n jumps misses their sum by at most n(n-1)/2. */
  predicate Near(n: int, sum: int, mean: int) { -(n * (n - 1)) <= 2 * (sum - n * mean) <= n * (n - 1) }

  lemma MeanJitterStrays(n: int, sum: int, javg: int, j: int, m: int)
    requires n > 1 && Near(n - 1, sum, javg) && -n < (j - javg) - n * (m - javg) < n
    ensures Near(n, sum + j, m)
  {
    assert sum + j - n * m == (sum - (n - 1) * javg) + ((j - javg) - n * (m - javg));
    assert (n - 1) * (n - 2) + 2 * (n - 1) == n * (n - 1);
  }

  /** One more reply: the jitter figures before and after, and the change that comes in. */
  lemma JitterStep(ts: seq<nat>)
    requires |ts| > 1
    ensures var n := |ts|;
            var front, j := ts[..n - 1], Change(ts[n - 1], ts[n - 2]);
            var s, r := After(front), After(ts);
            && r.jitter == j && r.jworst == (if j > s.jworst then j else s.jworst)
            && r.javg == s.javg + TruncDiv(j - s.javg, n)
            && r.jinta == s.jinta + j - (s.jinta + 8) / 16
            && Jumps(ts) == Jumps(front) + [j]
  {
    hide NextMean, TruncDiv;
    MeanIsBounded(ts[..|ts| - 1]);
  }

  lemma OneJitter(ts: seq<nat>)
    requires |ts| == 1
    ensures var s := After(ts); s.jitter == s.jworst == s.javg == s.jinta == 0 && Jumps(ts) == [0]
  {
    assert ts[..0] == [];
    hide NextMean;
  }

  lemma AppendedIsLast(js: seq<nat>, j: nat)
    ensures (js + [j])[..|js|] == js
    ensures Sum(js + [j]) == Sum(js) + j && Filter(js + [j]) == Filter(js) * 15.0 / 16.0 + j as real
    ensures js != [] ==> Max(js + [j]) == if j > Max(js) then j else Max(js)
  {
    assert (js + [j])[..|js|] == js;
  }

  lemma OneAppended()
    ensures Sum([0]) == 0 && Filter([0]) == 0.0 && Max([0]) == 0
  {
    AppendedIsLast([], 0);
    assert [] + [0] == [0];
  }

  lemma {:induction false} WorstJitter(ts: seq<nat>)
    requires ts != []
    ensures var s, js := After(ts), Jumps(ts); s.jitter == js[|ts| - 1] && s.jworst == Max(js)
    decreases |ts|
  {
    hide After, Jumps, Filter, Sum, Max, TruncDiv, Change;
    if |ts| == 1 {
      OneJitter(ts);
      OneAppended();
    } else {
      var front := ts[..|ts| - 1];
      WorstJitter(front);
      JitterStep(ts);
      AppendedIsLast(Jumps(front), Change(ts[|ts| - 1], ts[|ts| - 2]));
    }
  }

  lemma {:induction false} MeanJitter(ts: seq<nat>)
    requires ts != []
    ensures Near(|ts|, Sum(Jumps(ts)), After(ts).javg)
    decreases |ts|
  {
    NearOne();
    hide Near, After, Jumps, Filter, Sum, Max, TruncDiv, Change;
    if |ts| == 1 {
      OneJitter(ts);
      OneAppended();
    } else {
      var n := |ts|;
      var front, j := ts[..n - 1], Change(ts[n - 1], ts[n - 2]);
      MeanJitter(front);
      JitterStep(ts);
      var javg, js := After(front).javg, Jumps(front);
      AppendedIsLast(js, j);
      MeanJitterMoves(n, Sum(js), javg, j);
    }
  }

  lemma NearOne()
    ensures Near(1, 0, 0)
  {}

  lemma MeanJitterMoves(n: int, sum: int, javg: int, j: int)
    requires n > 1 && Near(n - 1, sum, javg)
    ensures Near(n, sum + j, javg + TruncDiv(j - javg, n))
  {
    hide Near, TruncDiv;
    TruncRest(j - javg, n);
    MeanJitterStrays(n, sum, javg, j, javg + TruncDiv(j - javg, n));
  }

  lemma {:induction false} FilterValue(ts: seq<nat>)
    requires ts != []
    ensures -8.0 <= After(ts).jinta as real - Filter(Jumps(ts)) <= 8.0
    decreases |ts|
  {
    hide After, Jumps, Filter, Sum, Max, TruncDiv, Change;
    if |ts| == 1 {
      OneJitter(ts);
      OneAppended();
    } else {
      var n := |ts|;
      var front, j := ts[..n - 1], Change(ts[n - 1], ts[n - 2]);
      FilterValue(front);
      JitterIsBounded(front);
      JitterStep(ts);
      AppendedIsLast(Jumps(front), j);
      FilterStrays(After(front).jinta, j, Filter(Jumps(front)));
    }
  }

  /**
   * The jitter figures are those of the changes between successive times: the current and the worst
   * exactly, the mean up to the truncations, the filter within half a unit of its exact value.
   */
  lemma JitterIsOfJumps(ts: seq<nat>)
    requires ts != []
    ensures var s, js, n := After(ts), Jumps(ts), |ts|;
            && s.jitter == js[n - 1] && s.jworst == Max(js)
            && Near(n, Sum(js), s.javg)
            && -8.0 <= s.jinta as real - Filter(js) <= 8.0
  {
    hide After, Jumps, Filter, Sum, Max;
    WorstJitter(ts);
    MeanJitter(ts);
    FilterValue(ts);
  }

  // ----- the sum of squares -----

  function Squares(ts: seq<nat>, c: int): int {
    if ts == [] then 0 else Squares(ts[..|ts| - 1], c) + (ts[|ts| - 1] - c) * (ts[|ts| - 1] - c)
  }

  /** By how much n times the truncated mean misses the sum. */
  function Missing(ts: seq<nat>): int { Sum(ts) - |ts| * After(ts).avg }

  function Slips(ts: seq<nat>, c: int): int {
    if ts == [] then 0
    else
      var front := ts[..|ts| - 1];
      Slips(front, c) + (Missing(ts) - Missing(front)) * (After(ts).avg + After(front).avg - 2 * c)
  }

  lemma OneSlip(k: int, u: int, a: int, b: int, d: int, d': int)
    requires k * b + d' == (k - 1) * a + d + u
    ensures (u - a) * (u - b) == u * u - k * (b * b) + (k - 1) * (a * a) - (d' - d) * (a + b)
  {
    assert u == k * b + d' - (k - 1) * a - d;
    assert (u - a) * (u - b) == u * u - u * (a + b) + a * b;
    assert u * (a + b) == (k * b) * (a + b) - ((k - 1) * a) * (a + b) + (d' - d) * (a + b);
    assert (k * b) * (a + b) == k * (a * b) + k * (b * b);
    assert ((k - 1) * a) * (a + b) == (k - 1) * (a * a) + (k - 1) * (a * b);
    assert k * (a * b) - (k - 1) * (a * b) == a * b;
  }

  lemma SpreadsAdd(n: int, t: int, c: int, m: int, m': int, d: int, d': int, before: int, after: int, squares: int, slips: int)
    requires n * m' + d' == (n - 1) * m + d + t
    requires before == squares - (n - 1) * ((m - c) * (m - c)) - slips
    requires after == before + (t - m) * (t - m')
    ensures after == squares + (t - c) * (t - c) - n * ((m' - c) * (m' - c)) - (slips + (d' - d) * (m' + m - 2 * c))
  {
    MissingShift(n, c, t, m, m', d, d');
    OneSlip(n, t - c, m - c, m' - c, d, d');
    assert (t - m) * (t - m') == ((t - c) - (m - c)) * ((t - c) - (m' - c));
    assert (m - c) + (m' - c) == m' + m - 2 * c;
  }

  lemma NoSpread()
    ensures After([]).ssd == 0
  {}

  /** The sum of squares exactly, about any point c. */
  lemma {:induction false} SpreadIs(ts: seq<nat>, c: int)
    ensures var a := After(ts).avg - c;
            After(ts).ssd == Squares(ts, c) - |ts| * (a * a) - Slips(ts, c)
    decreases |ts|
  {
    hide After, Slips;
    SlipsOneMore(ts, c);
    if ts == [] {
      NoSpread();
    } else {
      var n, t := |ts|, ts[|ts| - 1];
      var front := ts[..n - 1];
      SpreadIs(front, c);
      SpreadStep(ts);
      assert Squares(ts, c) == Squares(front, c) + (t - c) * (t - c);
      hide Missing, Squares;
      SpreadsAdd(n, t, c, After(front).avg, After(ts).avg, Missing(front), Missing(ts),
                 After(front).ssd, After(ts).ssd, Squares(front, c), Slips(front, c));
    }
  }

  lemma SpreadStep(ts: seq<nat>)
    requires ts != []
    ensures var n, t, front := |ts|, ts[|ts| - 1], ts[..|ts| - 1];
            && After(ts).ssd == After(front).ssd + (t - After(front).avg) * (t - After(ts).avg)
            && n * After(ts).avg + Missing(ts) == (n - 1) * After(front).avg + Missing(front) + t
  {
    hide NextMean, TruncDiv;
    if |ts| > 1 {
      MeanIsBounded(ts[..|ts| - 1]);
    }
  }

  lemma MissingShift(n: int, c: int, t: int, m: int, m': int, d: int, d': int)
    requires n * m' + d' == (n - 1) * m + d + t
    ensures n * (m' - c) + d' == (n - 1) * (m - c) + d + (t - c)
  {
    assert n * (m' - c) == n * m' - n * c && (n - 1) * (m - c) == (n - 1) * m - (n - 1) * c;
    assert n * c - (n - 1) * c == c;
  }

  ghost predicate Within(ts: seq<nat>, c: int, r: int) { forall t :: t in ts ==> c <= t <= c + r }

  lemma MeanWithin(ts: seq<nat>, c: int, r: int)
    requires ts != [] && Within(ts, c, r)
    ensures 0 <= After(ts).avg - c <= r
    ensures 0 <= Missing(ts) && 2 * Missing(ts) <= |ts| * (|ts| - 1)
  {
    MeanIsBounded(ts);
    MinMaxAreExtremes(ts);
  }

  /** Each reply adds less than n to what is missing. */
  lemma MissingGrows(ts: seq<nat>)
    requires |ts| > 1
    ensures 0 <= Missing(ts) - Missing(ts[..|ts| - 1]) <= |ts| - 1
  {
    hide NextMean, TruncDiv;
    var n, front := |ts|, ts[..|ts| - 1];
    MeanIsBounded(front);
    MeanStep(After(front).avg, ts[n - 1], n);
  }

  lemma OneSlipBounded(n: int, d: int, x: int, r: int)
    requires 0 <= d <= n - 1 && 0 <= x <= 2 * r
    ensures 0 <= d * x <= 2 * r * (n - 1)
  {
    assert d * x <= (n - 1) * x <= (n - 1) * (2 * r);
  }

  lemma SlipsOneMore(ts: seq<nat>, c: int)
    ensures ts == [] ==> Slips(ts, c) == 0
    ensures Slips([], c) == 0
    ensures ts != [] ==>
              var front := ts[..|ts| - 1];
              Slips(ts, c) == Slips(front, c) + (Missing(ts) - Missing(front)) * (After(ts).avg + After(front).avg - 2 * c)
  {
    hide After, Missing;
  }

  lemma SlipsAdd(n: int, r: int)
    ensures r * ((n - 1) * (n - 2)) + 2 * r * (n - 1) == r * (n * (n - 1))
  {
    assert (n - 1) * (n - 2) + 2 * (n - 1) == n * (n - 1);
    assert r * ((n - 1) * (n - 2)) + r * (2 * (n - 1)) == r * ((n - 1) * (n - 2) + 2 * (n - 1));
  }

  lemma {:induction false} SlipsBounded(ts: seq<nat>, c: int, r: int)
    requires Within(ts, c, r) && r >= 0
    ensures 0 <= Slips(ts, c) <= r * (|ts| * (|ts| - 1))
    decreases |ts|
  {
    SlipsOneMore(ts, c);
    hide After, Missing, Slips;
    var n := |ts|;
    if n == 1 {
      assert ts[..0] == [];
      OneReply(ts);
    } else if n > 1 {
      var front := ts[..n - 1];
      assert forall t :: t in front ==> t in ts;
      SlipsBounded(front, c, r);
      MeanWithin(ts, c, r);
      MeanWithin(front, c, r);
      MissingGrows(ts);
      OneSlipBounded(n, Missing(ts) - Missing(front), After(ts).avg + After(front).avg - 2 * c, r);
      SlipsAdd(n, r);
    }
  }

  lemma OneReply(ts: seq<nat>)
    requires |ts| == 1
    ensures Missing(ts) == 0 && Missing([]) == 0
  {
    MeanIsBounded(ts);
  }

  /** n times the sum of the squared distances from the mean: what the sum of squares stands for. */
  function Spread(ts: seq<nat>, c: int): int {
    var sum := Sum(ts) - |ts| * c;
    |ts| * Squares(ts, c) - sum * sum
  }

  /**
   * The sum of squares is worth the spread of the times: n * ssd misses it by less than
   * n * n * (n - 1) * range, and by the square of what the mean misses.
   */
  lemma SpreadIsWorth(ts: seq<nat>)
    requires ts != []
    ensures var n, s := |ts|, After(ts);
            var range, rest := s.worst - s.best, Missing(ts);
            && 0 <= 2 * rest <= n * (n - 1)
            && -(n * (range * (n * (n - 1)))) <= n * s.ssd - Spread(ts, s.best) <= n * (range * (n * (n - 1))) + rest * rest
  {
    hide After, Slips, Squares, Missing, Sum;
    MeanIsBounded(ts);
    MinMaxAreExtremes(ts);
    var n, s := |ts|, After(ts);
    var c, range := s.best, s.worst - s.best;
    MeanWithin(ts, c, range);
    SpreadIs(ts, c);
    SlipsBounded(ts, c, range);
    SpreadArithmetic(n, s.avg - c, Missing(ts), Squares(ts, c), Slips(ts, c), range);
    MissingIs(ts, c);
  }

  lemma MissingIs(ts: seq<nat>, c: int)
    ensures Sum(ts) - |ts| * c == |ts| * (After(ts).avg - c) + Missing(ts)
  {
    hide After, Sum;
    assert |ts| * (After(ts).avg - c) == |ts| * After(ts).avg - |ts| * c;
  }

  lemma SpreadIdentity(n: int, a: int, d: int, squares: int, slips: int)
    ensures var ssd, sum := squares - n * (a * a) - slips, n * a + d;
            n * ssd - (n * squares - sum * sum) == 2 * (n * (a * d)) + d * d - n * slips
  {
    var ssd, sum := squares - n * (a * a) - slips, n * a + d;
    assert sum * sum == (n * a) * (n * a) + 2 * ((n * a) * d) + d * d;
    assert (n * a) * (n * a) == n * (n * (a * a));
    assert (n * a) * d == n * (a * d);
    assert n * ssd == n * squares - n * (n * (a * a)) - n * slips;
  }

  lemma ProductBounded(a: int, d: int, r: int, p: int)
    requires 0 <= a <= r && 0 <= 2 * d <= p
    ensures 0 <= 2 * (a * d) <= r * p
  {
    assert a * (2 * d) <= a * p <= r * p;
  }

  lemma SpreadArithmetic(n: int, a: int, d: int, squares: int, slips: int, r: int)
    requires n > 0 && 0 <= a <= r && 0 <= 2 * d <= n * (n - 1) && 0 <= slips <= r * (n * (n - 1))
    ensures var ssd, sum := squares - n * (a * a) - slips, n * a + d;
            -(n * (r * (n * (n - 1)))) <= n * ssd - (n * squares - sum * sum) <= n * (r * (n * (n - 1))) + d * d
  {
    SpreadIdentity(n, a, d, squares, slips);
    ProductBounded(a, d, r, n * (n - 1));
    var x, y, bound := a * d, n * slips, r * (n * (n - 1));
    TimesBetween(n, 2 * x, bound);
    TimesBetween(n, slips, bound);
    assert 2 * (n * x) == n * (2 * x);
    Combined(n * (2 * x), y, d * d, n * bound,
             n * (squares - n * (a * a) - slips) - (n * squares - (n * a + d) * (n * a + d)));
  }

  lemma Combined(x: int, y: int, z: int, bound: int, total: int)
    requires total == x + z - y && 0 <= x <= bound && 0 <= y <= bound && z >= 0
    ensures -bound <= total <= bound + z
  {}

  lemma TimesBetween(n: int, x: int, y: int)
    requires n > 0 && 0 <= x <= y
    ensures 0 <= n * x <= n * y
  {}
}
