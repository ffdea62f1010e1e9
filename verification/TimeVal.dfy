/** `struct timeval` arithmetic (packet/timeval.c). */
module TimeVal {
  import opened CInt

  datatype Time = Time(sec: int, usec: int)

  const MICROS := 1_000_000

  /** The instant or interval a (possibly unnormalized) time value denotes, in microseconds. */
  function Micros(t: Time): int { t.sec * MICROS + t.usec }

  predicate Normalized(t: Time) { 0 <= t.sec && 0 <= t.usec < MICROS }

  function Max(a: int, b: int): int { if a < b then b else a }

  /**
   * Bring the microsecond part into [0, 1000000) and clamp a negative value to zero.  The
   * division truncates toward zero, as C's does.
   */
  method NormalizeTimeval(t: Time) returns (r: Time)
    ensures Normalized(r)
    ensures Micros(r) == Max(0, Micros(t))
  {
    r := t;
    var fullSec := TruncDiv(r.usec, MICROS);
    r := r.(sec := r.sec + fullSec);
    r := r.(usec := r.usec - MICROS * fullSec);
    if r.usec < 0 {
      r := r.(sec := r.sec - 1);
      r := r.(usec := r.usec + MICROS);
    }
    if r.sec < 0 {
      r := Time(0, 0);
    }
  }

  function CompareTimeval(a: Time, b: Time): int {
    if a.sec > b.sec then 1
    else if a.sec < b.sec then -1
    else if a.usec > b.usec then 1
    else if a.usec < b.usec then -1
    else 0
  }

  /** On values whose microseconds are in range, comparison is the order of the instants. */
  lemma CompareIsOrder(a: Time, b: Time)
    requires 0 <= a.usec < MICROS && 0 <= b.usec < MICROS
    ensures CompareTimeval(a, b) < 0 <==> Micros(a) < Micros(b)
    ensures CompareTimeval(a, b) == 0 <==> a == b
    ensures CompareTimeval(a, b) > 0 <==> Micros(a) > Micros(b)
    ensures CompareTimeval(b, a) == -CompareTimeval(a, b)
  {
    if a.sec < b.sec {
      assert Micros(a) < (a.sec + 1) * MICROS <= Micros(b);
    } else if a.sec > b.sec {
      assert Micros(b) < (b.sec + 1) * MICROS <= Micros(a);
    }
  }

  /** A normalized value is determined by the microseconds it denotes. */
  lemma NormalFormIsUnique(a: Time, b: Time)
    requires Normalized(a) && Normalized(b) && Micros(a) == Micros(b)
    ensures a == b
  {
    CompareIsOrder(a, b);
  }
}
