/** The wrapping allocator of probe sequence numbers (packet/probe_unix.c). */
module Sequences {

  const MIN_PORT := 33000
  const MAX_PORT := 65535

  /** How many different sequence numbers there are. */
  const SPAN := MAX_PORT - MIN_PORT + 1

  /** `next_sequence++`, wrapping past the last port. */
  function NextSequence(next: int): int {
    if next + 1 > MAX_PORT then MIN_PORT else next + 1
  }

  /** The sequence number issued after `n` others. */
  function Issued(n: nat): int { MIN_PORT + n % SPAN }

  lemma IssuedInRange(n: nat)
    ensures 33000 <= Issued(n) <= 65535
  {}

  lemma IssuedNext(n: nat)
    ensures Issued(n + 1) == NextSequence(Issued(n))
  {}

  /** Two issued numbers are equal only a whole number of turns apart. */
  lemma IssuedTwice(m: nat, n: nat)
    requires m < n && Issued(m) == Issued(n)
    ensures n - m >= SPAN
  {
    var a, b := m / SPAN, n / SPAN;
    assert m == a * SPAN + m % SPAN && n == b * SPAN + n % SPAN;
    assert n - m == (b - a) * SPAN;
  }

  /** Any 32536 numbers issued in a row are distinct. */
  lemma ConsecutiveAreDistinct(m: nat, n: nat)
    requires m < n < m + 32536
    ensures Issued(m) != Issued(n)
  {
    if Issued(m) == Issued(n) {
      IssuedTwice(m, n);
    }
  }

  /** ... and the one after them repeats the first. */
  lemma OneTurnRepeats(m: nat)
    ensures Issued(m) == Issued(m + 32536)
  {
    assert m == m / SPAN * SPAN + m % SPAN;
    assert m + SPAN == (m / SPAN + 1) * SPAN + m % SPAN;
  }
}
