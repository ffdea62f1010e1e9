/** The Internet checksum of RFC 1071, as packet/construct_unix.c computes it. */
module Checksum {
  import opened CInt

  const PACKET_BUFFER_SIZE := 9000

  /** Bytes at even offsets are the high halves of 16-bit words; a last odd byte counts as one. */
  function Weight(i: nat): nat { if i % 2 == 0 then 256 else 1 }

  function WordSum(bytes: seq<Byte>): (sum: nat)
    ensures sum <= 65280 * |bytes|
  {
    if bytes == [] then 0
    else
      var last := |bytes| - 1;
      WordSum(bytes[..last]) + Weight(last) * bytes[last]
  }

  /** The ones' complement sum: the representative of `sum` modulo 65535 that is 0 only for 0. */
  function Folded(sum: nat): (f: nat)
    ensures f <= 0xFFFF
  {
    if sum == 0 then 0 else 1 + (sum - 1) % 0xFFFF
  }

  function ChecksumOf(bytes: seq<Byte>): Word16 { 0xFFFF - Folded(WordSum(bytes)) }

  lemma FoldedIsTheRemainder(sum: nat)
    ensures Folded(sum) % 0xFFFF == sum % 0xFFFF
    ensures Folded(sum) == 0 <==> sum == 0
  {}

  /** Adding the carries back into the low half does not change the ones' complement sum. */
  lemma FoldStep(sum: nat)
    ensures Folded(sum / 0x1_0000 + sum % 0x1_0000) == Folded(sum)
  {
    var hi, lo := sum / 0x1_0000, sum % 0x1_0000;
    var folded := hi + lo;
    assert sum == hi * 0xFFFF + folded;
    if folded > 0 {
      assert sum - 1 == hi * 0xFFFF + (folded - 1);
      ModuloShift(folded - 1, hi);
    }
  }

  lemma {:induction false} ModuloShift(x: nat, k: nat)
    ensures (k * 0xFFFF + x) % 0xFFFF == x % 0xFFFF
  {
    if k > 0 {
      ModuloShift(x, k - 1);
      assert (k - 1) * 0xFFFF + x + 0xFFFF == k * 0xFFFF + x;
    }
  }

  /** Sum the bytes in a 32-bit accumulator that never overflows, fold the carries, complement. */
  method ComputeChecksum(packet: array<Byte>, at: nat, size: nat) returns (checksum: Word16)
    requires at + size <= packet.Length && size <= PACKET_BUFFER_SIZE
    ensures checksum == ChecksumOf(packet[at..at + size])
  {
    ghost var bytes := packet[at..at + size];
    var sum: nat := 0;
    var i := 0;
    while i < size
      invariant 0 <= i <= size
      invariant sum == WordSum(bytes[..i])
    {
      assert bytes[..i + 1][..i] == bytes[..i];
      var b: int := packet[at + i];
      if i % 2 == 0 {
        sum := sum + 256 * b;
      } else {
        sum := sum + b;
      }
      assert sum < 0x1_0000_0000;
      i := i + 1;
    }
    assert bytes[..i] == bytes;
    while sum / 0x1_0000 != 0
      invariant Folded(sum) == Folded(WordSum(bytes)) && sum < 0x1_0000_0000
      decreases sum
    {
      FoldStep(sum);
      sum := sum / 0x1_0000 + sum % 0x1_0000;
    }
    assert Folded(sum) == sum by {
      if sum > 0 { assert (sum - 1) % 0xFFFF == if sum - 1 < 0xFFFF then sum - 1 else 0; }
    }
    checksum := 0xFFFF - sum;
  }

  lemma {:induction false} WordSumUpdate(bytes: seq<Byte>, k: nat, b: Byte)
    requires k < |bytes|
    ensures WordSum(bytes[k := b]) == WordSum(bytes) + Weight(k) * b - Weight(k) * bytes[k]
    decreases |bytes|
  {
    var last := |bytes| - 1;
    var updated := bytes[k := b];
    if k == last {
      assert updated[..last] == bytes[..last];
    } else {
      assert updated[..last] == bytes[..last][k := b];
      WordSumUpdate(bytes[..last], k, b);
    }
  }

  /**
   * For every message whose checksum field is zero, storing the checksum there makes the checksum
   * of the whole message zero: the receiver's test succeeds.
   */
  lemma StoredChecksumVerifies(bytes: seq<Byte>)
    requires |bytes| >= 4 && bytes[2] == 0 && bytes[3] == 0
    ensures var c := ChecksumOf(bytes);
            ChecksumOf(bytes[2 := High(c)][3 := Low(c)]) == 0
  {
    hide WordSum;
    var sum, c := WordSum(bytes), ChecksumOf(bytes);
    WordSumUpdate(bytes, 2, High(c));
    WordSumUpdate(bytes[2 := High(c)], 3, Low(c));
    var total := WordSum(bytes[2 := High(c)][3 := Low(c)]);
    assert total == sum + c;
    assert sum == 0 || (total > 0 && total - 1 == ((sum - 1) / 0xFFFF) * 0xFFFF + 0xFFFE) by {
      if sum > 0 {
        assert sum - 1 == (sum - 1) / 0xFFFF * 0xFFFF + (sum - 1) % 0xFFFF;
      }
    }
    if sum > 0 {
      ModuloShift(0xFFFE, (sum - 1) / 0xFFFF);
    }
  }
}
