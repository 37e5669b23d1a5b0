// Typed access to the process's own memory (do_lib/memory.h): the page record that
// /proc/self/maps yields, and the `read` / `write` templates that copy a `sizeof(T)`-byte
// value out of or into an address, optionally following a chain of pointers first.
//
// Memory is a partial map from 64-bit addresses to bytes; an address outside the map is
// one the process cannot touch, and the templates' callers must not make them touch it.
// A `T` is modelled by its size `n` and its value as an unsigned little-endian integer.

module Memory {
  import opened Prelude

  /** One line of a process's memory map. */
  datatype MemPage = MemPage(
    start: nat, end: nat,
    read: char, write: char, exec: char, cow: char,
    offset: nat, size: nat,
    name: string)

  /** `sizeof(uintptr_t)`. */
  const PTR_SIZE: nat := 8

  /** `next + ofs` on `uintptr_t`: the sum wraps modulo 2^64. */
  function AddPtr(a: nat, b: nat): (r: nat)
    ensures r < TWO_64
    ensures a + b < TWO_64 ==> r == a + b
    ensures (r - (a + b)) % TWO_64 == 0
  {
    (a + b) % TWO_64
  }

  /** Every address of [a, a + n) is accessible. */
  predicate Mapped(cells: map<nat, Byte>, a: nat, n: nat)
  {
    forall i :: a <= i < a + n ==> i in cells
  }

  /** The bytes stored at [a, a + n). */
  function Bytes(cells: map<nat, Byte>, a: nat, n: nat): (r: seq<Byte>)
    requires Mapped(cells, a, n)
    ensures |r| == n
  {
    seq(n, k requires 0 <= k < n => cells[a + k])
  }

  /** `read<T>(a)`: the `n`-byte value stored at `a`. */
  function Load(cells: map<nat, Byte>, a: nat, n: nat): (r: nat)
    requires Mapped(cells, a, n)
    ensures r < Pow256(n)
    ensures LittleEndianBytes(r, n) == Bytes(cells, a, n)
  {
    LittleEndianBytesOf(Bytes(cells, a, n));
    LittleEndian(Bytes(cells, a, n))
  }

  /** Encoding the value of some bytes gives those bytes back. */
  lemma {:induction false} LittleEndianBytesOf(bs: seq<Byte>)
    ensures LittleEndianBytes(LittleEndian(bs), |bs|) == bs
  {
    if bs != [] {
      var rest := LittleEndian(bs[1..]);
      LittleEndianBytesOf(bs[1..]);
      DivModUnique(LittleEndian(bs), 256, rest, bs[0]);
      assert bs == [bs[0]] + bs[1..];
    }
  }

  /**
   * The address a chain of offsets leads to: each offset loads the pointer stored at the
   * current address and adds the offset to it. None when a pointer on the way is not mapped.
   */
  function Deref(cells: map<nat, Byte>, a: nat, offsets: seq<nat>): (r: Option<nat>)
    ensures r.Some? && offsets != [] ==> r.value < TWO_64
    ensures r.None? ==> offsets != []
    decreases |offsets|
  {
    if offsets == [] then Some(a)
    else if !Mapped(cells, a, PTR_SIZE) then None
    else Deref(cells, AddPtr(Load(cells, a, PTR_SIZE), offsets[0]), offsets[1..])
  }

  /** Following `offsets` and then reading `n` bytes touches only accessible memory. */
  predicate ChainMapped(cells: map<nat, Byte>, a: nat, offsets: seq<nat>, n: nat)
  {
    Deref(cells, a, offsets).Some? && Mapped(cells, Deref(cells, a, offsets).value, n)
  }

  /** `read<T>(a, ofs, rest...)`: one dereference per offset, then the value at the end. */
  function Read(cells: map<nat, Byte>, a: nat, offsets: seq<nat>, n: nat): (r: nat)
    requires ChainMapped(cells, a, offsets, n)
    ensures r < Pow256(n)
    decreases |offsets|
  {
    if offsets == [] then Load(cells, a, n)
    else Read(cells, AddPtr(Load(cells, a, PTR_SIZE), offsets[0]), offsets[1..], n)
  }

  /** The chained read returns the bytes stored at the address its offsets lead to. */
  lemma {:induction false} ReadAtTarget(cells: map<nat, Byte>, a: nat, offsets: seq<nat>, n: nat)
    requires ChainMapped(cells, a, offsets, n)
    ensures Read(cells, a, offsets, n) == Load(cells, Deref(cells, a, offsets).value, n)
    ensures LittleEndianBytes(Read(cells, a, offsets, n), n) == Bytes(cells, Deref(cells, a, offsets).value, n)
    decreases |offsets|
  {
    if offsets != [] {
      ReadAtTarget(cells, AddPtr(Load(cells, a, PTR_SIZE), offsets[0]), offsets[1..], n);
    }
  }

  /** A chain of offsets can be followed in two legs: the first leg's end is the second's start. */
  lemma {:induction false} DerefAppend(cells: map<nat, Byte>, a: nat, first: seq<nat>, second: seq<nat>)
    ensures Deref(cells, a, first + second) ==
            match Deref(cells, a, first)
            case None => None
            case Some(mid) => Deref(cells, mid, second)
    decreases |first|
  {
    if first != [] {
      assert (first + second)[0] == first[0];
      assert (first + second)[1..] == first[1..] + second;
      if Mapped(cells, a, PTR_SIZE) {
        DerefAppend(cells, AddPtr(Load(cells, a, PTR_SIZE), first[0]), first[1..], second);
      }
    } else {
      assert first + second == second;
    }
  }

  /** Memory after `bytes` is copied to `a`: those addresses hold `bytes`, all others are as before. */
  function Stored(cells: map<nat, Byte>, a: nat, bytes: seq<Byte>): (r: map<nat, Byte>)
    requires Mapped(cells, a, |bytes|)
    ensures r.Keys == cells.Keys
    ensures Mapped(r, a, |bytes|) && Bytes(r, a, |bytes|) == bytes
    ensures forall i :: i in cells && !(a <= i < a + |bytes|) ==> r[i] == cells[i]
  {
    var r := map i | i in cells :: if a <= i < a + |bytes| then bytes[i - a] else cells[i];
    assert Bytes(r, a, |bytes|) == bytes by {
      forall k | 0 <= k < |bytes| ensures Bytes(r, a, |bytes|)[k] == bytes[k] {
        assert a + k in cells;
      }
    }
    r
  }

  /** Reading `n` bytes where an `n`-byte value `v` was just written gives `v`. */
  lemma {:induction false} LoadStored(cells: map<nat, Byte>, a: nat, v: nat, n: nat)
    requires Mapped(cells, a, n) && v < Pow256(n)
    ensures Load(Stored(cells, a, LittleEndianBytes(v, n)), a, n) == v
  {
    var bytes := LittleEndianBytes(v, n);
    var after := Stored(cells, a, bytes);
    assert Bytes(after, a, n) == bytes;
    LittleEndianRoundTrip(v, n);
    DivModUnique(v, Pow256(n), 0, v);
    assert Load(after, a, n) == LittleEndian(bytes);
  }

  /** The process's memory, which `write` changes in place. */
  class Memory {
    var cells: map<nat, Byte>

    constructor(cells: map<nat, Byte>)
      ensures this.cells == cells
    {
      this.cells := cells;
    }

    /**
     * `write<T>(a, v)` and `write<T>(a, v, ofs, rest...)`: follow the offsets as `read` does,
     * then store the `n` bytes of `value` at the address they lead to. Nothing else changes.
     */
    method Write(a: nat, value: nat, offsets: seq<nat>, n: nat)
      requires ChainMapped(cells, a, offsets, n) && value < Pow256(n)
      modifies this
      ensures cells == Stored(old(cells), Deref(old(cells), a, offsets).value, LittleEndianBytes(value, n))
      ensures cells.Keys == old(cells).Keys
      ensures Load(cells, Deref(old(cells), a, offsets).value, n) == value
      ensures forall i :: i in old(cells) && !(Deref(old(cells), a, offsets).value <= i < Deref(old(cells), a, offsets).value + n) ==>
                cells[i] == old(cells)[i]
      decreases |offsets|
    {
      if offsets == [] {
        LoadStored(cells, a, value, n);
        cells := Stored(cells, a, LittleEndianBytes(value, n));
      } else {
        var next := Load(cells, a, PTR_SIZE);
        Write(AddPtr(next, offsets[0]), value, offsets[1..], n);
      }
    }
  }
}
