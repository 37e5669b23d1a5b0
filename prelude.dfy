/** Small shared vocabulary: the optional value, bytes and unsigned widths. */
module Prelude {

  /** An optional value; `None` stands for a null pointer, an absent entry or a sentinel such as SIZE_MAX. */
  datatype Option<+T> = None | Some(value: T) {
    predicate IsFailure() { None? }

    function PropagateFailure<U>(): Option<U>
      requires None?
    {
      None
    }

    function Extract(): T
      requires Some?
    {
      value
    }
  }

  /** One unsigned 8-bit value. */
  type Byte = b: int | 0 <= b < 256

  const TWO_8: nat := 0x100
  const TWO_16: nat := 0x1_0000
  const TWO_32: nat := 0x1_0000_0000
  const TWO_64: nat := 0x1_0000_0000_0000_0000

  /** 256 to the power `n`: the number of values an `n`-byte unsigned integer can hold. */
  function Pow256(n: nat): (r: nat)
    ensures r >= 1
  {
    if n == 0 then 1 else 256 * Pow256(n - 1)
  }

  /** The unsigned little-endian value of `bytes` (the layout of an integer in x86-64 memory). */
  function LittleEndian(bytes: seq<Byte>): (r: nat)
    ensures r < Pow256(|bytes|)
  {
    if bytes == [] then 0 else bytes[0] + 256 * LittleEndian(bytes[1..])
  }

  /** The `n` little-endian bytes of `v` modulo 256^n (what `memcpy` of an `n`-byte integer stores). */
  function LittleEndianBytes(v: nat, n: nat): (r: seq<Byte>)
    ensures |r| == n
  {
    if n == 0 then [] else [v % 256] + LittleEndianBytes(v / 256, n - 1)
  }

  lemma {:induction false} LittleEndianRoundTrip(v: nat, n: nat)
    ensures LittleEndian(LittleEndianBytes(v, n)) == v % Pow256(n)
  {
    if n > 0 {
      LittleEndianRoundTrip(v / 256, n - 1);
      var rest := LittleEndianBytes(v / 256, n - 1);
      assert LittleEndianBytes(v, n)[1..] == rest;
      ModMulSplit(v, 256, Pow256(n - 1));
    }
  }

  /** v % (a * b) splits into the low digit and the higher part. */
  lemma {:induction false} ModMulSplit(v: nat, a: nat, b: nat)
    requires a > 0 && b > 0
    ensures v % (a * b) == v % a + a * ((v / a) % b)
  {
    var q := v / a;
    var s := v % a;
    assert v == a * q + s;
    var q2 := q / b;
    var s2 := q % b;
    assert q == b * q2 + s2;
    assert a * q == a * (b * q2) + a * s2 by { DistributeMul(a, b * q2, s2); }
    assert a * (b * q2) == (a * b) * q2;
    assert a * s2 + s < a * b by {
      assert a * s2 <= a * (b - 1) by { MulMonotoneRight(a, s2, b - 1); }
      assert a * (b - 1) == a * b - a by { DistributeMul(a, b - 1, 1); }
    }
    DivModUnique(v, a * b, q2, a * s2 + s);
  }

  lemma {:induction false} DivModUnique(v: int, m: int, q: int, r: int)
    requires m > 0 && 0 <= r < m && v == m * q + r
    ensures v % m == r && v / m == q
  {
    var q0, r0 := v / m, v % m;
    assert m * q0 + r0 == m * q + r;
    var d := q0 - q;
    assert m * d == r - r0 by { assert m * q0 - m * q == m * d; }
    if d >= 1 {
      MulAtLeast(m, d);
    } else if d <= -1 {
      MulAtLeast(m, -d);
    }
  }

  lemma {:induction false} DistributeMul(a: int, b: int, c: int)
    ensures a * (b + c) == a * b + a * c
  {
  }

  lemma {:induction false} MulMonotoneRight(a: nat, b: int, c: int)
    requires b <= c
    ensures a * b <= a * c
  {
    DistributeMul(a, b, c - b);
  }

  lemma {:induction false} MulAtLeast(m: int, k: int)
    requires m > 0 && k >= 1
    ensures m * k >= m
  {
  }

  /** A signed 16-bit value: the reading of the low 16 bits of `v` as two's complement (`static_cast<int16_t>`). */
  function ToInt16(v: int): (r: int)
    ensures -0x8000 <= r < 0x8000
    ensures (r - v) % TWO_16 == 0
  {
    var u := v % TWO_16;
    if u >= 0x8000 then u - TWO_16 else u
  }

  /** `static_cast<int32_t>` of a 32-bit unsigned value. */
  function ToInt32(v: int): (r: int)
    ensures -0x8000_0000 <= r < 0x8000_0000
    ensures (r - v) % TWO_32 == 0
  {
    var u := v % TWO_32;
    if u >= 0x8000_0000 then u - TWO_32 else u
  }
}
