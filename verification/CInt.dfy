/** The fixed-width integers of C: wrap-around, truncating division, bytes and network order. */
module CInt {

  type Byte = b: int | 0 <= b < 256
  type Word16 = w: int | 0 <= w < 0x1_0000

  /** Conversion of a wider value to a 32-bit `int`. */
  function ToInt32(x: int): (r: int)
    ensures -0x8000_0000 <= r < 0x8000_0000
  {
    (x + 0x8000_0000) % 0x1_0000_0000 - 0x8000_0000
  }

  predicate IsInt32(x: int) { -0x8000_0000 <= x < 0x8000_0000 }

  lemma ToInt32Exact(x: int)
    requires IsInt32(x)
    ensures ToInt32(x) == x
  {}

  /** C's `/` truncates toward zero. */
  function TruncDiv(a: int, b: int): int
    requires b > 0
  {
    if a >= 0 then a / b else -((-a) / b)
  }

  /** The conversion of an `int` to `uint8_t` and to `uint16_t`. */
  function ToByte(x: int): Byte { x % 256 }
  function ToWord16(x: int): Word16 { x % 0x1_0000 }

  function High(w: Word16): Byte { w / 256 }
  function Low(w: Word16): Byte { w % 256 }

  /** Two bytes in network (big-endian) order. */
  function NetworkBytes(w: Word16): seq<Byte> { [High(w), Low(w)] }
  function FromNetwork(hi: Byte, lo: Byte): Word16 { hi * 256 + lo }

  /** A `uint16_t` as it lies in memory: two are equal exactly when their bytes are. */
  datatype RawWord = RawWord(first: Byte, second: Byte)

  /** `htons`: the two low bytes of the argument, the more significant first in memory. */
  function Htons(x: int): RawWord { RawWord((x / 256) % 256, x % 256) }

  lemma HtonsSplits(x: int)
    ensures Htons(x) == RawWord(High(ToWord16(x)), Low(ToWord16(x)))
  {
    var q, w := x / 0x1_0000, ToWord16(x);
    var h, l := High(w), Low(w);
    assert x == 256 * (256 * q + h) + l;
    assert x / 256 == 256 * q + h && x % 256 == l;
  }

  /** A raw field equals `htons(x)` exactly when its bytes spell x, modulo 2^16, in network order. */
  lemma HtonsMatches(x: int, first: Byte, second: Byte)
    ensures Htons(x) == RawWord(first, second) <==> ToWord16(x) == FromNetwork(first, second)
  {
    hide Htons;
    HtonsSplits(x);
    var w := ToWord16(x);
    assert w == 256 * High(w) + Low(w);
  }

  lemma NetworkRoundTrip(w: Word16)
    ensures FromNetwork(High(w), Low(w)) == w
  {}
}
