/**
 * Fixed-width machine values.
 *
 * Bytes and 32-bit words are kept as integers in their unsigned range; every
 * operation that the hardware truncates is written out with an explicit
 * modulus, so wrap-around is part of each definition rather than a property
 * of the representation.
 */
module Words {

  const TWO8: int := 0x100
  const TWO16: int := 0x1_0000
  const TWO31: int := 0x8000_0000
  const TWO32: int := 0x1_0000_0000

  type Byte = x: int | 0 <= x < TWO8
  type Word = x: int | 0 <= x < TWO32

  /** Truncation of an arbitrary integer to 32 bits (a C conversion to uint32_t). */
  function Wrap32(n: int): (w: Word)
  {
    n % TWO32
  }

  /** Conversion to uint8_t: the low byte. */
  function Low8(n: nat): (b: Byte)
    ensures n < TWO8 ==> b == n
  {
    n % TWO8
  }

  /** Conversion to uint16_t: the low sixteen bits. */
  function Low16(n: nat): (h: nat)
    ensures h < TWO16
    ensures n < TWO16 ==> h == n
  {
    n % TWO16
  }

  /** The two's-complement reading of a word (an int32_t). */
  function ToInt32(w: Word): (n: int)
    ensures -TWO31 <= n < TWO31
    ensures Wrap32(n) == w
  {
    if w < TWO31 then w else w - TWO32
  }

  /** The two's-complement reading of a byte (an int8_t, as an x86 disp8 is read). */
  function ToInt8(b: Byte): (n: int)
    ensures -0x80 <= n < 0x80
    ensures b < 0x80 ==> n == b
  {
    if b < 0x80 then b else b - TWO8
  }

  /** The two's-complement reading of a 16-bit value (an int16_t). */
  function ToInt16(h: int): (n: int)
    requires 0 <= h < TWO16
    ensures -0x8000 <= n < 0x8000
    ensures (n - h) % TWO16 == 0
  {
    if h < 0x8000 then h else h - TWO16
  }

  lemma {:induction false} Int32RoundTrip(n: int)
    requires -TWO31 <= n < TWO31
    ensures ToInt32(Wrap32(n)) == n
  {
    if n < 0 {
      assert Wrap32(n) == n + TWO32;
    }
  }

  /** `(int32_t)(int16_t)h`: the 16-bit value sign-extended to a word. */
  function SignExtend16(h: int): (w: Word)
    requires 0 <= h < TWO16
    ensures ToInt32(w) == ToInt16(h)
    ensures w % TWO16 == h
  {
    if h < 0x8000 then h else h + 0xFFFF_0000
  }

  /** The four bytes of a word, least significant first: `(w >> 8k) & 0xFF`. */
  function LE32(w: Word): (b: seq<Byte>)
    ensures |b| == 4
    ensures FromLE32(b) == w
  {
    var q1 := w / 0x100;
    var q2 := q1 / 0x100;
    var q3 := q2 / 0x100;
    assert q3 < 0x100;
    assert FromLE32([w % 0x100, q1 % 0x100, q2 % 0x100, q3]) == w by {
      assert q2 == q2 % 0x100 + 0x100 * q3;
      assert q1 == q1 % 0x100 + 0x100 * q2;
      assert w == w % 0x100 + 0x100 * q1;
    }
    [w % 0x100, q1 % 0x100, q2 % 0x100, q3]
  }

  /** The word whose little-endian bytes are `b`. */
  function FromLE32(b: seq<Byte>): Word
    requires |b| == 4
  {
    b[0] as int + 0x100 * (b[1] as int) + 0x1_0000 * (b[2] as int) + 0x100_0000 * (b[3] as int)
  }

  /** Reading four bytes as a word and writing it back gives the same bytes. */
  lemma {:induction false} FromLE32RoundTrip(b: seq<Byte>)
    requires |b| == 4
    ensures LE32(FromLE32(b)) == b
  {
    var w := FromLE32(b);
    var r2 := b[2] as int + 0x100 * (b[3] as int);
    var r1 := b[1] as int + 0x100 * r2;
    assert w == b[0] as int + 0x100 * r1;
    assert w % 0x100 == b[0] && w / 0x100 == r1;
    assert r1 % 0x100 == b[1] && r1 / 0x100 == r2;
    assert r2 % 0x100 == b[2] && r2 / 0x100 == b[3];
  }

  function Pow2(n: nat): (p: nat)
    ensures p >= 1
  {
    if n == 0 then 1 else 2 * Pow2(n - 1)
  }

  lemma {:induction false} QuotientInRange(x: int, d: int)
    requires -TWO31 <= x < TWO31 && d >= 1
    ensures -TWO31 <= x / d < TWO31
    ensures x >= 0 <==> x / d >= 0
  {
    var q, r := x / d, x % d;
    var p := d * q;
    assert x == p + r && 0 <= r < d;
    MulBounds(d, q);
  }

  /** What multiplying by a positive factor does to the sign and size of `q`. */
  lemma MulBounds(d: int, q: int)
    requires d >= 1
    ensures q >= 0 ==> d * q >= q
    ensures q < 0 ==> d * q <= -d
    ensures q < 0 ==> d * q + d <= q + 1
  {
    if q >= 0 {
      MulAtLeast(d, q);
    } else {
      var m := -(q + 1);
      MulAtLeast(d, m);
      assert d * q == -(d * m) - d;
    }
  }

  lemma {:induction false} MulAtLeast(d: int, m: int)
    requires d >= 1 && m >= 0
    ensures d * m >= m
    decreases m
  {
    if m > 0 {
      MulAtLeast(d, m - 1);
      assert d * m == d * (m - 1) + d;
    }
  }

  /* Bitwise operations: two's-complement bit patterns of the words. */

  function BitAnd(a: Word, b: Word): Word
  {
    ((a as bv32) & (b as bv32)) as int % TWO32
  }

  function BitOr(a: Word, b: Word): Word
  {
    ((a as bv32) | (b as bv32)) as int % TWO32
  }

  function BitXor(a: Word, b: Word): Word
  {
    ((a as bv32) ^ (b as bv32)) as int % TWO32
  }
}
