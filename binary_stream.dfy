/**
 * The bytecode cursor of do_lib/binary_stream.h: a read-only byte buffer and a `position`
 * that every read advances. The buffer is the ABC block of the running VM; reading beyond it is
 * undefined in the source, so every read requires its bytes to be present.
 */
module BinaryStreams {
  import opened Prelude

  /** 128 to the power `n`: the range of `n` seven-bit groups. */
  function Pow128(n: nat): (r: nat)
    ensures r >= 1
  {
    if n == 0 then 1 else 128 * Pow128(n - 1)
  }

  /** The value of the low seven bits of the first `k` bytes, least significant group first. */
  function Low7(s: seq<Byte>, k: nat): (r: nat)
    requires k <= |s|
    ensures r < Pow128(k)
  {
    if k == 0 then 0 else s[0] as int % 128 + 128 * Low7(s[1..], k - 1)
  }

  /**
   * What read_u32 yields from the bytes `s` after scanning `j` continuation bytes: the value and
   * the number of bytes consumed, or `None` when it would read past the end of `s`.
   * Bytes 0..3 continue while their top bit is set; a fifth byte contributes its low
   * four bits at bit 28 (the rest fall off the 32-bit result).
   */
  function U32From(s: seq<Byte>, j: nat): Option<(nat, nat)>
    requires j <= 4
    decreases 4 - j
  {
    if |s| <= j then None
    else if j == 4 then Some((Low7(s, 4) + (s[4] as int % 16) * 0x1000_0000, 5))
    else if s[j] < 128 then Some((Low7(s, j + 1), j + 1))
    else U32From(s, j + 1)
  }

  /** The AVM2 variable-length u32 at the head of `s`, as read_u32 decodes it. */
  function U32Decode(s: seq<Byte>): (r: Option<(nat, nat)>)
    ensures r.Some? ==> 1 <= r.value.1 <= 5 && r.value.1 <= |s| && r.value.0 < TWO_32
    ensures r.Some? && r.value.1 <= 4 ==> r.value.0 < Pow128(r.value.1)
  {
    U32FromBounds(s, 0);
    U32From(s, 0)
  }

  /**
   * read_u32 stops at the first of the first four bytes whose top bit is clear, else after a fifth
   * byte; it fails only when the bytes run out first.
   */
  lemma {:induction false} U32DecodeShape(s: seq<Byte>)
    ensures var r := U32Decode(s);
            && (r.Some? && r.value.1 <= 4 ==>
                  s[r.value.1 - 1] < 128 && forall k :: 0 <= k < r.value.1 - 1 ==> s[k] >= 128)
            && (r.Some? && r.value.1 == 5 ==> forall k :: 0 <= k < 4 ==> s[k] >= 128)
            && (r.None? <==> (|s| < 5 && forall k :: 0 <= k < |s| ==> s[k] >= 128))
  {
    U32FromBounds(s, 0);
  }

  lemma {:induction false} U32FromBounds(s: seq<Byte>, j: nat)
    requires j <= 4 && forall k :: 0 <= k < j && k < |s| ==> s[k] >= 128
    ensures var r := U32From(s, j);
            && (r.Some? ==> j < r.value.1 <= 5 && r.value.1 <= |s| && r.value.0 < TWO_32)
            && (r.Some? && r.value.1 <= 4 ==> r.value.0 < Pow128(r.value.1))
            && (r.Some? && r.value.1 <= 4 ==>
                  s[r.value.1 - 1] < 128 && forall k :: 0 <= k < r.value.1 - 1 ==> s[k] >= 128)
            && (r.Some? && r.value.1 == 5 ==> forall k :: 0 <= k < 4 ==> s[k] >= 128)
            && (r.None? <==> (|s| < 5 && forall k :: 0 <= k < |s| ==> s[k] >= 128))
    decreases 4 - j
  {
    if |s| <= j {
    } else if j == 4 {
      assert Pow128(4) == 0x1000_0000;
    } else if s[j] < 128 {
      assert Pow128(j + 1) <= Pow128(4) by { Pow128Mono(j + 1, 4); }
      assert Pow128(4) == 0x1000_0000;
    } else {
      U32FromBounds(s, j + 1);
    }
  }

  lemma {:induction false} Pow128Mono(a: nat, b: nat)
    requires a <= b
    ensures Pow128(a) <= Pow128(b)
    decreases b - a
  {
    if a < b {
      Pow128Mono(a + 1, b);
    }
  }

  /**
   * read_u32 at offset `pos` of `data`, group by group as the reader assembles it: the value and
   * the offset just past it, or `None` when it would run off the end.
   */
  function U32At(data: seq<Byte>, pos: nat): (r: Option<(nat, nat)>)
    ensures r.Some? ==> pos < r.value.1 <= pos + 5 && r.value.1 <= |data| && r.value.0 < TWO_32
  {
    U32Group(data, pos, 0, 0)
  }

  /** The weight of group `i`: 2^(7i). */
  function Weight(i: nat): nat
    requires i <= 4
  {
    if i == 0 then 1 else if i == 1 then 0x80 else if i == 2 then 0x4000 else if i == 3 then 0x20_0000
    else 0x1000_0000
  }

  /**
   * The reader after `i` continuation bytes at `pos` whose low seven bits make `acc`: a clear top
   * bit ends the value, and byte 4 contributes its low four bits at bit 28.
   */
  function U32Group(data: seq<Byte>, pos: nat, i: nat, acc: nat): (r: Option<(nat, nat)>)
    requires i <= 4 && acc < Weight(i)
    ensures r.Some? ==> pos + i < r.value.1 <= pos + 5 && r.value.1 <= |data| && r.value.0 < TWO_32
    decreases 4 - i
  {
    if pos + i >= |data| then None
    else if i == 4 then Some((acc + data[pos + 4] as int % 0x10 * 0x1000_0000, pos + 5))
    else if data[pos + i] < 0x80 then Some((acc + data[pos + i] * Weight(i), pos + i + 1))
    else U32Group(data, pos, i + 1, acc + (data[pos + i] - 0x80) * Weight(i))
  }

  /** The reader agrees with the group-wise definition of the format. */
  lemma {:induction false} U32AtAgrees(data: seq<Byte>, pos: nat)
    ensures U32At(data, pos) == (if pos > |data| then None
                                 else match U32Decode(data[pos..])
                                   case None => None
                                   case Some(d) => Some((d.0, pos + d.1)))
  {
    if pos <= |data| {
      U32GroupAgrees(data, pos, 0, 0);
    } else {
      assert U32Group(data, pos, 0, 0) == None;
    }
  }

  /** Induction over the groups: the accumulated value is Low7 of the bytes read so far. */
  lemma {:induction false} U32GroupAgrees(data: seq<Byte>, pos: nat, i: nat, acc: nat)
    requires pos <= |data| && i <= 4 && acc < Weight(i)
    requires i <= |data| - pos && acc == Low7(data[pos..], i)
    requires forall k :: pos <= k < pos + i ==> data[k] >= 0x80
    ensures U32From(data[pos..], i).None? ==> U32Group(data, pos, i, acc) == None
    ensures U32From(data[pos..], i).Some? ==>
              U32Group(data, pos, i, acc) == Some((U32From(data[pos..], i).value.0, pos + U32From(data[pos..], i).value.1))
    decreases 4 - i, 1
  {
    if pos + i >= |data| {
      assert U32From(data[pos..], i) == None;
    } else if i == 4 {
      GroupLast(data, pos, acc);
    } else if data[pos + i] < 0x80 {
      GroupStop(data, pos, i, acc);
    } else {
      GroupNext(data, pos, i, acc);
    }
  }

  /** The fifth byte ends the value. */
  lemma {:induction false} GroupLast(data: seq<Byte>, pos: nat, acc: nat)
    requires pos + 4 < |data| && acc == Low7(data[pos..], 4) && acc < Weight(4)
    ensures U32From(data[pos..], 4).Some?
    ensures U32Group(data, pos, 4, acc) == Some((U32From(data[pos..], 4).value.0, pos + 5))
  {
    assert data[pos..][4] == data[pos + 4];
  }

  /** A byte with a clear top bit ends the value. */
  lemma {:induction false} GroupStop(data: seq<Byte>, pos: nat, i: nat, acc: nat)
    requires i < 4 && pos + i < |data| && data[pos + i] < 0x80
    requires acc == Low7(data[pos..], i) && acc < Weight(i)
    ensures U32Group(data, pos, i, acc) == Some((Low7(data[pos..], i + 1), pos + i + 1))
    ensures U32From(data[pos..], i) == Some((Low7(data[pos..], i + 1), i + 1))
  {
    var s := data[pos..];
    assert s[i] == data[pos + i];
    GroupStep(s, i, acc);
  }

  /** A byte with its top bit set adds its low bits and the value goes on with the next group. */
  lemma {:induction false} GroupNext(data: seq<Byte>, pos: nat, i: nat, acc: nat)
    requires i < 4 && pos + i < |data| && data[pos + i] >= 0x80
    requires acc == Low7(data[pos..], i) && acc < Weight(i)
    requires forall k :: pos <= k < pos + i ==> data[k] >= 0x80
    ensures U32From(data[pos..], i).None? ==> U32Group(data, pos, i, acc) == None
    ensures U32From(data[pos..], i).Some? ==>
              U32Group(data, pos, i, acc) == Some((U32From(data[pos..], i).value.0, pos + U32From(data[pos..], i).value.1))
    decreases 4 - i, 0
  {
    var acc' := GroupContinue(data, pos, i, acc);
    assert forall k :: pos <= k < pos + i + 1 ==> data[k] >= 0x80;
    U32GroupAgrees(data, pos, i + 1, acc');
    var r := U32From(data[pos..], i + 1);
    assert U32From(data[pos..], i) == r;
  }

  /** The accumulated value and both readers after a byte with its top bit set. */
  lemma {:induction false} GroupContinue(data: seq<Byte>, pos: nat, i: nat, acc: nat) returns (acc': nat)
    requires i < 4 && pos + i < |data| && data[pos + i] >= 0x80
    requires acc == Low7(data[pos..], i) && acc < Weight(i)
    ensures acc' == Low7(data[pos..], i + 1) && acc' < Weight(i + 1)
    ensures U32Group(data, pos, i, acc) == U32Group(data, pos, i + 1, acc')
    ensures U32From(data[pos..], i) == U32From(data[pos..], i + 1)
  {
    var s := data[pos..];
    assert s[i] == data[pos + i];
    GroupStep(s, i, acc);
    acc' := acc + (data[pos + i] - 0x80) * Weight(i);
  }

  /** One group: the byte's low seven bits join the accumulated value at weight 2^(7i). */
  lemma {:induction false} GroupStep(s: seq<Byte>, i: nat, acc: nat)
    requires i < 4 && i < |s| && acc == Low7(s, i) && acc < Weight(i)
    ensures s[i] < 0x80 ==> acc + s[i] * Weight(i) == Low7(s, i + 1)
    ensures s[i] >= 0x80 ==> acc + (s[i] - 0x80) * Weight(i) == Low7(s, i + 1) &&
                             acc + (s[i] - 0x80) * Weight(i) < Weight(i + 1)
  {
    Low7Last(s, i + 1);
    var b := s[i] as int;
    var g := b % 128;
    WeightBound(i, acc, g);
    var w := Weight(i);
    assert Low7(s, i + 1) == acc + w * g;
    if b >= 0x80 {
      assert g == b - 0x80;
    } else {
      assert g == b;
    }
  }

  lemma {:induction false} WeightBound(i: nat, acc: nat, g: nat)
    requires i < 4 && acc < Weight(i) && g < 0x80
    ensures acc + g * Weight(i) < Weight(i + 1)
    ensures Weight(i) == Pow128(i)
  {
    Pow128Values();
  }

  /** The byte at offset `pos` and the offset after it, when present. */
  function ByteAt(data: seq<Byte>, pos: nat): (r: Option<(Byte, nat)>)
    ensures r.Some? <==> pos < |data|
    ensures r.Some? ==> r.value == (data[pos], pos + 1)
  {
    if pos < |data| then Some((data[pos], pos + 1)) else None
  }

  /** The 24-bit little-endian value of three bytes read as two's complement (AVM2 s24). */
  function S24(b0: Byte, b1: Byte, b2: Byte): (r: int)
    ensures -0x80_0000 <= r < 0x80_0000
  {
    var u := LittleEndian([b0, b1, b2]);
    assert Pow256(3) == 0x100_0000;
    if u >= 0x80_0000 then u - 0x100_0000 else u
  }

  /** `(int8_t)b`: a byte reinterpreted as a signed 8-bit value. */
  function Int8(b: Byte): (r: int)
    ensures -128 <= r < 128 && (r - b) % 256 == 0
  {
    if b >= 128 then b - 256 else b
  }

  /** The bytes before the first zero byte of `s` (a C string); all of `s` when there is none. */
  function CString(s: seq<Byte>): (r: seq<Byte>)
    ensures 0 !in r && r <= s
    ensures |r| < |s| ==> s[|r|] == 0
  {
    if s == [] || s[0] == 0 then [] else [s[0]] + CString(s[1..])
  }

  class BinaryStream {
    const data: seq<Byte>
    var position: nat

    constructor (data: seq<Byte>)
      ensures this.data == data && position == 0
    {
      this.data := data;
      position := 0;
    }

    /** read<T>: the `width` bytes at `position` as a little-endian unsigned value; advances by `width`. */
    method Read(width: nat) returns (v: nat)
      requires position + width <= |data|
      modifies this
      ensures v == LittleEndian(data[old(position)..old(position) + width])
      ensures v < Pow256(width)
      ensures position == old(position) + width
    {
      v := LittleEndian(data[position..position + width]);
      position := position + width;
    }

    /** peek<T>: the same value as read<T>, without moving `position`. */
    method Peek(width: nat) returns (v: nat)
      requires position + width <= |data|
      ensures v == LittleEndian(data[position..position + width])
      ensures v < Pow256(width)
    {
      v := LittleEndian(data[position..position + width]);
    }

    /** read_bytes: copies `size` bytes into the front of `out`; advances by `size`. */
    method ReadBytes(out: array<Byte>, size: nat)
      requires position + size <= |data| && size <= out.Length
      modifies this, out
      ensures out[..size] == data[old(position)..old(position) + size]
      ensures out[size..] == old(out[size..])
      ensures position == old(position) + size
    {
      var p := position;
      var k := 0;
      while k < size
        invariant 0 <= k <= size && position == p
        invariant out[..k] == data[p..p + k]
        invariant out[size..] == old(out[size..])
      {
        out[k] := data[p + k];
        k := k + 1;
        assert out[..k] == out[..k - 1] + [out[k - 1]];
        assert data[p..p + k] == data[p..p + k - 1] + [data[p + k - 1]];
      }
      position := p + size;
    }

    /**
     * read_string: the bytes up to the first zero byte at or after `position`, leaving `position`
     * one past that zero. The source scans without a bound, so a zero byte must exist.
     */
    method ReadString() returns (s: seq<Byte>)
      requires position <= |data| && 0 in data[position..]
      modifies this
      ensures s == CString(data[old(position)..])
      ensures old(position) + |s| < |data| && data[old(position) + |s|] == 0
      ensures position == old(position) + |s| + 1
    {
      var start := position;
      var p := position;
      while data[p] != 0
        invariant start <= p < |data|
        invariant exists z :: p <= z < |data| && data[z] == 0
        invariant forall i :: start <= i < p ==> data[i] != 0
        decreases |data| - p
      {
        p := p + 1;
      }
      CStringPrefix(data[start..], p - start);
      assert data[start..][..p - start] == data[start..p];
      s := data[start..p];
      position := p + 1;
    }

    /** read_s24: three bytes, the top one sign-extended, as a signed 24-bit value; advances by 3. */
    method ReadS24() returns (v: int)
      requires position + 3 <= |data|
      modifies this
      ensures v == S24(data[old(position)], data[old(position) + 1], data[old(position) + 2])
      ensures position == old(position) + 3
    {
      var b0, b1, b2 := data[position], data[position + 1], data[position + 2];
      // the three terms occupy disjoint bits, so the source's `|` is a sum
      v := b0 + b1 * 0x100 + Int8(b2) * 0x1_0000;
      position := position + 3;
      assert LittleEndian([b0, b1, b2]) == b0 as int + 256 * (b1 as int + 256 * b2 as int) by {
        assert [b0, b1, b2][1..] == [b1, b2];
        assert [b1, b2][1..] == [b2];
        assert [b2][1..] == [];
        assert LittleEndian([b2]) == b2;
        assert LittleEndian([b1, b2]) == b1 as int + 256 * b2 as int;
      }
    }

    /** read<uint8_t>: one byte. */
    method ReadU8() returns (b: Byte)
      requires position < |data|
      modifies this
      ensures b == data[old(position)] && position == old(position) + 1
    {
      var v := Read(1);
      ByteValue(data[position - 1..position]);
      b := v;
    }

    /**
     * read_u32 (and read_u30, which is the same reader): up to four bytes whose top bit flags a
     * continuation, then a fifth byte shifted by 28 into the 32-bit result.
     */
    method ReadU32() returns (v: nat)
      requires U32At(data, position).Some?
      modifies this
      ensures U32At(data, old(position)) == Some((v, position))
    {
      U32AtAgrees(data, position);
      ghost var s := data[position..];
      ghost var p0 := position;
      Pow128Values();
      U32DecodeLength(s);
      var b := ReadU8();
      assert b == s[0];
      var result: nat := b;
      U32Step(s, 1, result);
      if (result / 0x80) % 2 == 0 {
        return result;
      }
      result := ReadGroup(s, p0, 1, 0x80, result);
      U32Step(s, 2, result);
      if (result / 0x4000) % 2 == 0 {
        return result;
      }
      result := ReadGroup(s, p0, 2, 0x4000, result);
      U32Step(s, 3, result);
      if (result / 0x20_0000) % 2 == 0 {
        return result;
      }
      result := ReadGroup(s, p0, 3, 0x20_0000, result);
      U32Step(s, 4, result);
      if (result / 0x1000_0000) % 2 == 0 {
        return result;
      }
      b := ReadU8();
      assert b == s[4];
      // the shift by 28 in 32 bits keeps the low four bits of the fifth byte
      var top := (b * 0x1000_0000) % TWO_32;
      U32Fifth(s, result % 0x1000_0000, top);
      result := result % 0x1000_0000 + top;
      return result;
    }

    /**
     * One continuation step of read_u32: `(result & mask) | byte << shift`, the low `7k` bits
     * kept and byte `k` above them; the two parts are disjoint bits, so `|` is a sum.
     */
    method ReadGroup(ghost s: seq<Byte>, ghost p0: nat, k: nat, mask: nat, result: nat) returns (next: nat)
      requires 1 <= k <= 3 && mask == Pow128(k)
      requires p0 <= |data| && s == data[p0..] && position == p0 + k && k < |s|
      requires result % mask == Low7(s, k)
      modifies this
      ensures position == p0 + k + 1
      ensures next == Low7(s, k) + Pow128(k) * s[k]
    {
      var b := ReadU8();
      assert b == s[k];
      next := result % mask + b * mask;
    }

    /** read_u30: the same reader as read_u32. */
    method ReadU30() returns (v: nat)
      requires U32At(data, position).Some?
      modifies this
      ensures U32At(data, old(position)) == Some((v, position))
    {
      v := ReadU32();
    }
  }

  /** A C string read from a zero-free prefix continues with the rest. */
  lemma {:induction false} CStringPrefix(s: seq<Byte>, k: nat)
    requires k < |s| && s[k] == 0 && forall i :: 0 <= i < k ==> s[i] != 0
    ensures CString(s) == s[..k]
  {
    if k > 0 {
      CStringPrefix(s[1..], k - 1);
      assert s[..k] == [s[0]] + s[1..][..k - 1];
    }
  }

  lemma {:induction false} Pow128Values()
    ensures Pow128(0) == 1 && Pow128(1) == 0x80 && Pow128(2) == 0x4000
    ensures Pow128(3) == 0x20_0000 && Pow128(4) == 0x1000_0000
  {
  }

  /** Where U32Decode stops: the continuation bytes before it have their top bit set. */
  lemma {:induction false} U32Skip(s: seq<Byte>, j: nat)
    requires j <= 4 && j <= |s| && forall i :: 0 <= i < j ==> s[i] >= 128
    ensures U32Decode(s) == U32From(s, j)
  {
    if j > 0 {
      U32Skip(s, j - 1);
    }
  }

  lemma {:induction false} U32DecodeLength(s: seq<Byte>)
    requires U32Decode(s).Some?
    ensures forall k :: 0 <= k < 4 && k < U32Decode(s).value.1 - 1 ==> s[k] >= 128
  {
    U32DecodeShape(s);
  }

  /**
   * Step `k` of read_u32: with `result` the masked value so far plus byte `k - 1` shifted by
   * `7(k - 1)`, bit `7k` is that byte's top bit and the low `7k` bits are `Low7(s, k)`.
   */
  lemma {:induction false} U32Step(s: seq<Byte>, k: nat, result: nat)
    requires 1 <= k <= 4 && k <= |s| && forall i :: 0 <= i < k - 1 ==> s[i] >= 128
    requires result == Low7(s, k - 1) + Pow128(k - 1) * s[k - 1]
    ensures ((result / Pow128(k)) % 2 == 0) == (s[k - 1] < 128)
    ensures result % Pow128(k) == Low7(s, k)
    ensures s[k - 1] < 128 ==> U32Decode(s) == Some((result, k))
  {
    Low7Last(s, k);
    var lo := Low7(s, k - 1);
    var p := Pow128(k - 1);
    var b := s[k - 1] as int;
    var t, u := b / 128, b % 128;
    assert b == 128 * t + u;
    Distribute(p, t, u);
    assert lo + p * u < 128 * p by {
      MulLe(p, u, 127);
    }
    assert Pow128(k) == 128 * p;
    assert t == 0 || t == 1;
    DivModUnique(result, 128 * p, t, lo + p * u);
    U32Skip(s, k - 1);
  }

  lemma {:induction false} Distribute7(a: int, q: int, x: int)
    ensures 128 * (a + q * x) == 128 * a + (128 * q) * x
  {
  }

  lemma {:induction false} Distribute(p: int, t: int, u: int)
    ensures p * (128 * t + u) == p * u + (128 * p) * t
  {
    assert p * (128 * t + u) == p * (128 * t) + p * u;
    assert p * (128 * t) == (128 * p) * t;
  }

  lemma {:induction false} MulLe(a: nat, b: nat, c: nat)
    requires b <= c
    ensures a * b <= a * c
  {
  }

  /** The fifth byte: after four continuation bytes, the value is the low 28 bits plus the top four. */
  lemma {:induction false} U32Fifth(s: seq<Byte>, low: nat, top: nat)
    requires 5 <= |s| && forall i :: 0 <= i < 4 ==> s[i] >= 128
    requires low == Low7(s, 4) && top == (s[4] * 0x1000_0000) % TWO_32
    ensures U32Decode(s) == Some((low + top, 5))
  {
    var b := s[4] as int;
    DivModUnique(b * 0x1000_0000, TWO_32, b / 16, (b % 16) * 0x1000_0000);
    U32Skip(s, 4);
  }

  lemma {:induction false} ByteValue(s: seq<Byte>)
    requires |s| == 1
    ensures LittleEndian(s) == s[0]
  {
    assert s[1..] == [];
  }

  /** The unsigned LEB128 encoding of `v`: seven bits per byte, top bit set on all but the last. */
  function Leb128(v: nat): (s: seq<Byte>)
    ensures |s| >= 1
    decreases v
  {
    if v < 128 then [v] else [v % 128 + 128] + Leb128(v / 128)
  }

  // ---------------------------------------------------------------------------------------------
  // The straight-line reader agrees with U32Decode

  /**
   * The intermediate values read_u32 forms: after `k` bytes, the low `7k` bits hold `Low7(s, k)`
   * and bit `7k` (the next test) is the top bit of byte `k - 1`.
   */
  lemma {:induction false} U32Decode7Split(s: seq<Byte>)
    ensures forall k :: 1 <= k <= 4 && k <= |s| ==>
              Low7(s, k) == Low7(s, k - 1) + Pow128(k - 1) * (s[k - 1] % 128)
  {
    forall k | 1 <= k <= 4 && k <= |s|
      ensures Low7(s, k) == Low7(s, k - 1) + Pow128(k - 1) * (s[k - 1] % 128)
    {
      Low7Last(s, k);
    }
  }

  lemma {:induction false} Low7Last(s: seq<Byte>, k: nat)
    requires 1 <= k <= |s|
    ensures Low7(s, k) == Low7(s, k - 1) + Pow128(k - 1) * (s[k - 1] % 128)
  {
    if k > 1 {
      var t := s[1..];
      Low7Last(t, k - 1);
      assert t[k - 2] == s[k - 1];
      var x := s[k - 1] as int % 128;
      var a := Low7(t, k - 2);
      var q := Pow128(k - 2);
      assert Low7(s, k) == s[0] as int % 128 + 128 * (a + q * x);
      assert Low7(s, k - 1) == s[0] as int % 128 + 128 * a;
      assert Pow128(k - 1) == 128 * q;
      Distribute7(a, q, x);
    }
  }

  // ---------------------------------------------------------------------------------------------
  // Properties of the decoders

  /** The two examples of the AVM2 u30 format: one byte 0x7F, and 0x96 0x01 for 150. */
  lemma {:induction false} U32Examples()
    ensures U32Decode([0x7F]) == Some((127, 1))
    ensures U32Decode([0x96, 0x01]) == Some((150, 2))
  {
    assert Low7([0x7F], 1) == 127 by { assert [0x7F][1..] == []; }
    var t: seq<Byte> := [0x96, 0x01];
    assert Low7(t, 2) == 150 by {
      assert t[1..] == [0x01];
      assert t[1..][1..] == [];
    }
  }

  /** Bytes of the encoding carry the continuation bit except the last. */
  lemma {:induction false} Leb128Shape(v: nat)
    ensures var s := Leb128(v);
            s[|s| - 1] < 128 && forall i :: 0 <= i < |s| - 1 ==> s[i] >= 128
    decreases v
  {
    if v >= 128 {
      Leb128Shape(v / 128);
    }
  }

  /** The encoding is no longer than needed: `v < 128^k` takes at most `k` bytes. */
  lemma {:induction false} Leb128Length(v: nat, k: nat)
    requires k >= 1 && v < Pow128(k)
    ensures |Leb128(v)| <= k
    decreases v
  {
    if v >= 128 {
      assert k >= 2;
      Leb128Length(v / 128, k - 1);
    }
  }

  /** The low seven bits of the first `n` bytes of the encoding, followed by anything, hold `v mod 128^n`. */
  lemma {:induction false} Leb128Low7(v: nat, rest: seq<Byte>, n: nat)
    requires n <= |Leb128(v)|
    ensures Low7(Leb128(v) + rest, n) == v % Pow128(n)
    decreases v
  {
    var s := Leb128(v) + rest;
    if n > 0 {
      if v < 128 {
        assert n == 1;
        assert Low7(s[1..], 0) == 0;
      } else {
        assert s[1..] == Leb128(v / 128) + rest;
        Leb128Low7(v / 128, rest, n - 1);
        ModMulSplit(v, 128, Pow128(n - 1));
      }
    }
  }

  /** read_u32 decodes the LEB128 encoding of every 32-bit value, whatever follows it. */
  lemma {:induction false} U32RoundTrip(v: nat, rest: seq<Byte>)
    requires v < TWO_32
    ensures |Leb128(v)| <= 5
    ensures U32Decode(Leb128(v) + rest) == Some((v, |Leb128(v)|))
  {
    Pow128Values();
    assert Pow128(5) == 0x8_0000_0000;
    Leb128Length(v, 5);
    Leb128Shape(v);
    var e := Leb128(v);
    var s := e + rest;
    assert forall i :: 0 <= i < |e| ==> s[i] == e[i];
    if |e| <= 4 {
      U32RoundTripShort(v, rest);
    } else {
      U32RoundTripFive(v, rest);
    }
  }

  lemma {:induction false} U32RoundTripShort(v: nat, rest: seq<Byte>)
    requires |Leb128(v)| <= 4
    ensures U32Decode(Leb128(v) + rest) == Some((v, |Leb128(v)|))
  {
    var e := Leb128(v);
    var s := e + rest;
    var n := |e|;
    Leb128Shape(v);
    assert forall i :: 0 <= i < n ==> s[i] == e[i];
    U32Skip(s, n - 1);
    assert s[n - 1] < 128;
    assert U32From(s, n - 1) == Some((Low7(s, n), n));
    Leb128Low7(v, rest, n);
    Leb128Bound(v);
    DivModUnique(v, Pow128(n), 0, v);
  }

  lemma {:induction false} U32RoundTripFive(v: nat, rest: seq<Byte>)
    requires v < TWO_32 && |Leb128(v)| == 5
    ensures U32Decode(Leb128(v) + rest) == Some((v, 5))
  {
    var e := Leb128(v);
    var s := e + rest;
    Leb128Shape(v);
    assert forall i :: 0 <= i < 5 ==> s[i] == e[i];
    U32Skip(s, 4);
    Pow128Values();
    assert Pow128(5) == 0x8_0000_0000;
    Leb128Low7(v, rest, 5);
    Low7Last(s, 5);
    DivModUnique(v, Pow128(5), 0, v);
    TopNibble(Low7(s, 4), s[4], v);
    assert U32From(s, 4) == Some((Low7(s, 4) + (s[4] as int % 16) * 0x1000_0000, 5));
  }

  lemma {:induction false} TopNibble(low: nat, top: nat, v: nat)
    requires low < 0x1000_0000 && top < 128 && v < TWO_32 && v == low + 0x1000_0000 * (top % 128)
    ensures low + (top % 16) * 0x1000_0000 == v
  {
  }

  /** The encoding of `v` is long enough to hold it. */
  lemma {:induction false} Leb128Bound(v: nat)
    ensures v < Pow128(|Leb128(v)|)
    decreases v
  {
    if v >= 128 {
      Leb128Bound(v / 128);
    }
  }

  /** read_s24 inverts the three-byte two's-complement layout of every 24-bit signed value. */
  lemma {:induction false} S24RoundTrip(v: int)
    requires -0x80_0000 <= v < 0x80_0000
    ensures var b := LittleEndianBytes(v % 0x100_0000, 3);
            S24(b[0], b[1], b[2]) == v
  {
    var u := v % 0x100_0000;
    if v < 0 {
      DivModUnique(v, 0x100_0000, -1, v + 0x100_0000);
    } else {
      DivModUnique(v, 0x100_0000, 0, v);
    }
    var b := LittleEndianBytes(u, 3);
    LittleEndianRoundTrip(u, 3);
    assert Pow256(3) == 0x100_0000;
    DivModUnique(u, 0x100_0000, 0, u);
    assert LittleEndian(b) == u;
    assert b == [b[0], b[1], b[2]];
  }

  /** The sign-extending sum read_s24 computes is the 24-bit two's-complement reading. */
  lemma {:induction false} S24IsSignExtension(b0: Byte, b1: Byte, b2: Byte)
    ensures S24(b0, b1, b2) == b0 as int + 0x100 * b1 as int + 0x1_0000 * Int8(b2)
    ensures S24(b0, b1, b2) < 0 <==> b2 >= 0x80
  {
    var t: seq<Byte> := [b0, b1, b2];
    assert t[1..] == [b1, b2];
    assert t[1..][1..] == [b2];
    assert t[1..][1..][1..] == [];
    assert LittleEndian([b2]) == b2 as int;
    assert LittleEndian([b1, b2]) == b1 as int + 256 * b2 as int;
  }
}
