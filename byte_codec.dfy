/** Bytes, and 32-bit integers as 4-byte strings in the two orders `struct.pack("<I")`
    and `struct.unpack(">I")` use. */
module ByteCodec {

  /** One octet, as Python's `bytes` elements are: an int in 0..255. */
  type Byte = b: int | 0 <= b < 0x100

  /** The range of the struct format "I". */
  type U32 = n: int | 0 <= n < 0x1_0000_0000

  /** The four base-256 digits of `v`, least significant first. */
  function Digits(v: U32): (d: seq<Byte>)
    ensures |d| == 4
    ensures v == d[0] as int + 0x100 * d[1] as int + 0x1_0000 * d[2] as int + 0x100_0000 * d[3] as int
  {
    var q1 := v / 0x100;
    var q2 := q1 / 0x100;
    var q3 := q2 / 0x100;
    assert q1 == 0x100 * q2 + q1 % 0x100;
    assert q2 == 0x100 * q3 + q2 % 0x100;
    [v % 0x100, q1 % 0x100, q2 % 0x100, q3]
  }

  /** Only one choice of four base-256 digits gives `v`. */
  lemma DigitsUnique(v: U32, d: seq<Byte>)
    requires |d| == 4
    requires v == d[0] as int + 0x100 * d[1] as int + 0x1_0000 * d[2] as int + 0x100_0000 * d[3] as int
    ensures Digits(v) == d
  {
    var r2 := d[2] as int + 0x100 * d[3] as int;
    var r1 := d[1] as int + 0x100 * r2;
    assert v == d[0] as int + 0x100 * r1;
    DivModUnique(v, r1, d[0]);
    DivModUnique(r1, r2, d[1]);
    DivModUnique(r2, d[3], d[2]);
  }

  /** The quotient and remainder by 256 are unique. */
  lemma DivModUnique(x: int, q: int, r: int)
    requires 0 <= r < 0x100 && x == 0x100 * q + r
    ensures x / 0x100 == q && x % 0x100 == r
  {
  }

  /** `struct.pack("<I", v)`: least significant byte first. */
  function Le32(v: U32): (b: seq<Byte>)
    ensures |b| == 4
    ensures FromLe32(b) == v
  {
    Digits(v)
  }

  /** `struct.unpack("<I", b)[0]`. */
  function FromLe32(b: seq<Byte>): U32
    requires |b| == 4
  {
    b[0] as int + 0x100 * b[1] as int + 0x1_0000 * b[2] as int + 0x100_0000 * b[3] as int
  }

  /** Decoding then re-encoding four bytes gives them back. */
  lemma Le32OfFromLe32(b: seq<Byte>)
    requires |b| == 4
    ensures Le32(FromLe32(b)) == b
  {
    DigitsUnique(FromLe32(b), b);
  }

  /** `struct.unpack(">I", b)[0]`: most significant byte first. */
  function FromBe32(b: seq<Byte>): U32
    requires |b| == 4
  {
    0x100_0000 * b[0] as int + 0x1_0000 * b[1] as int + 0x100 * b[2] as int + b[3] as int
  }

  /** `struct.pack(">I", n)`, the device side of a big-endian field. */
  function Be32(n: U32): (b: seq<Byte>)
    ensures |b| == 4
    ensures FromBe32(b) == n
  {
    var d := Digits(n);
    [d[3], d[2], d[1], d[0]]
  }

  /** Re-encoding a decoded big-endian field gives its bytes back. */
  lemma Be32OfFromBe32(b: seq<Byte>)
    requires |b| == 4
    ensures Be32(FromBe32(b)) == b
  {
    DigitsUnique(FromBe32(b), [b[3], b[2], b[1], b[0]]);
  }
}
