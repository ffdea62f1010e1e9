/** Exchanging two adjacent blocks of an array in place (exchange of portability/getopt.c). */
module Exchange {

  /** Blocks [b, m) and [m, t) change places; each keeps its order. */
  function Rotated<T>(s: seq<T>, b: nat, m: nat, t: nat): (r: seq<T>)
    requires b <= m <= t <= |s|
    ensures |r| == |s|
  {
    s[..b] + s[m..t] + s[b..m] + s[t..]
  }

  /** Two blocks of equal length change places. */
  function Swapped<T>(s: seq<T>, p: nat, q: nat, len: nat): (r: seq<T>)
    requires p + len <= q && q + len <= |s|
    ensures |r| == |s|
  {
    s[..p] + s[q..q + len] + s[p + len..q] + s[p..p + len] + s[q + len..]
  }

  lemma RotatedAt<T>(s: seq<T>, b: nat, m: nat, t: nat, i: nat)
    requires b <= m <= t <= |s| && i < |s|
    ensures Rotated(s, b, m, t)[i] == if i < b || i >= t then s[i]
                                      else if i < b + (t - m) then s[i + (m - b)]
                                      else s[i - (t - m)]
  {}

  lemma SwappedAt<T>(s: seq<T>, p: nat, q: nat, len: nat, i: nat)
    requires p + len <= q && q + len <= |s| && i < |s|
    ensures Swapped(s, p, q, len)[i] == if p <= i < p + len then s[i + (q - p)]
                                        else if q <= i < q + len then s[i - (q - p)]
                                        else s[i]
  {}

  /** Moving a short bottom block to the top leaves a smaller exchange to do. */
  lemma BottomIsShort<T>(s: seq<T>, b: nat, m: nat, t: nat)
    requires b <= m <= t <= |s| && m - b < t - m
    ensures Rotated(Swapped(s, b, t - (m - b), m - b), b, m, t - (m - b)) == Rotated(s, b, m, t)
  {
    hide Rotated, Swapped;
    var len := m - b;
    var s' := Swapped(s, b, t - len, len);
    var x, y := Rotated(s', b, m, t - len), Rotated(s, b, m, t);
    forall i | 0 <= i < |s|
      ensures x[i] == y[i]
    {
      RotatedAt(s', b, m, t - len, i);
      RotatedAt(s, b, m, t, i);
      var k := if i < b || i >= t - len then i else if i < b + (t - len - m) then i + len else i - (t - len - m);
      SwappedAt(s, b, t - len, len, k);
    }
  }

  /** Moving a short top block to the bottom leaves a smaller exchange to do. */
  lemma TopIsShort<T>(s: seq<T>, b: nat, m: nat, t: nat)
    requires b <= m <= t <= |s| && t - m <= m - b
    ensures Rotated(Swapped(s, b, m, t - m), b + (t - m), m, t) == Rotated(s, b, m, t)
  {
    hide Rotated, Swapped;
    var len := t - m;
    var s' := Swapped(s, b, m, len);
    var x, y := Rotated(s', b + len, m, t), Rotated(s, b, m, t);
    forall i | 0 <= i < |s|
      ensures x[i] == y[i]
    {
      RotatedAt(s', b + len, m, t, i);
      RotatedAt(s, b, m, t, i);
      var k := if i < b + len || i >= t then i else if i < b + len + (t - m) then i + (m - b - len) else i - (t - m);
      SwappedAt(s, b, m, len, k);
    }
  }

  /** One more element of each stretch exchanged. */
  lemma SwappedOneMore<T>(s: seq<T>, p: nat, q: nat, i: nat)
    requires p + i < q && q + i < |s|
    ensures Swapped(s, p, q, i)[p + i := s[q + i]][q + i := s[p + i]] == Swapped(s, p, q, i + 1)
    ensures Swapped(s, p, q, i)[p + i] == s[p + i] && Swapped(s, p, q, i)[q + i] == s[q + i]
  {
    hide Swapped;
    SwappedAt(s, p, q, i, p + i);
    SwappedAt(s, p, q, i, q + i);
    var x, y := Swapped(s, p, q, i)[p + i := s[q + i]][q + i := s[p + i]], Swapped(s, p, q, i + 1);
    forall k | 0 <= k < |s|
      ensures x[k] == y[k]
    {
      SwappedAt(s, p, q, i, k);
      SwappedAt(s, p, q, i + 1, k);
    }
  }

  /** The inner loops: swap two stretches element by element. */
  method SwapSegments<T>(argv: array<T>, p: nat, q: nat, len: nat)
    requires p + len <= q && q + len <= argv.Length
    modifies argv
    ensures argv[..] == Swapped(old(argv[..]), p, q, len)
  {
    ghost var s := argv[..];
    assert s == Swapped(s, p, q, 0);
    hide Swapped;
    var i := 0;
    while i < len
      invariant 0 <= i <= len
      invariant argv[..] == Swapped(s, p, q, i)
    {
      SwappedOneMore(s, p, q, i);
      ghost var was := argv[..];
      var tem := argv[p + i];
      assert tem == was[p + i] && argv[q + i] == was[q + i];
      argv[p + i] := argv[q + i];
      argv[q + i] := tem;
      assert argv[..] == was[p + i := was[q + i]][q + i := was[p + i]];
      i := i + 1;
    }
  }

  /**
   * Exchange [bottom, middle) with [middle, top) by swapping the shorter block with the far end of
   * the longer one until one of them is empty.
   */
  method ExchangeBlocks<T>(argv: array<T>, firstNonopt: nat, lastNonopt: nat, optind: nat)
    requires firstNonopt <= lastNonopt <= optind <= argv.Length
    modifies argv
    ensures argv[..] == Rotated(old(argv[..]), firstNonopt, lastNonopt, optind)
  {
    hide Swapped, Rotated;
    var bottom: nat, middle: nat, top: nat := firstNonopt, lastNonopt, optind;
    ghost var goal := Rotated(argv[..], bottom, middle, top);
    while top > middle && middle > bottom
      invariant bottom <= middle <= top <= argv.Length
      invariant Rotated(argv[..], bottom, middle, top) == goal
      decreases top - bottom
    {
      if top - middle > middle - bottom {
        var len: nat := middle - bottom;
        BottomIsShort(argv[..], bottom, middle, top);
        SwapSegments(argv, bottom, top - (middle - bottom), len);
        top := top - len;
      } else {
        var len: nat := top - middle;
        TopIsShort(argv[..], bottom, middle, top);
        SwapSegments(argv, bottom, middle, len);
        bottom := bottom + len;
      }
    }
    NothingToExchange(argv[..], bottom, middle, top);
  }

  lemma NothingToExchange<T>(s: seq<T>, b: nat, m: nat, t: nat)
    requires b <= m <= t <= |s| && (b == m || m == t)
    ensures Rotated(s, b, m, t) == s
  {
    assert s == s[..b] + s[b..t] + s[t..];
  }
}
