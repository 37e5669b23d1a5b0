// The native entry points of the Java API (client/eu_darkbot_api_DarkTanos.cpp) that hold
// logic of their own: `postActions`, which unpacks 64-bit action words into mouse and key
// calls on the client, and `replaceInt` / `replaceLong`, which write a new value only where
// memory still holds the expected old one.

module DarkTanos {
  import opened Prelude
  import opened Memory

  /** A Java `long`. */
  type Int64 = a: int | -0x8000_0000_0000_0000 <= a < 0x8000_0000_0000_0000

  /** A Java `int`. */
  type Int32 = a: int | -0x8000_0000 <= a < 0x8000_0000

  const TWO_48: nat := 0x1_0000_0000_0000
  const TWO_15: nat := 0x8000

  // ---------------------------------------------------------------------------------------------
  // Action words
  // ---------------------------------------------------------------------------------------------

  /** The fields of an action word: the message code and three signed 16-bit parameters. */
  datatype Fields = Fields(message: nat, wparam: int, x: int, y: int)

  predicate IsInt16(v: int)
  {
    -0x8000 <= v < 0x8000
  }

  predicate ValidFields(f: Fields)
  {
    f.message < TWO_15 && IsInt16(f.wparam) && IsInt16(f.x) && IsInt16(f.y)
  }

  /**
   * The field decode of postActions: the unsigned reading of the word, bits 48..62 as the
   * message (bit 63 is masked off), bits 32..47 as `wparam`, bits 0..15 as `x` and bits 16..31
   * as `y`, each of the last three as a signed 16-bit value.
   */
  function Decode(action: Int64): (f: Fields)
    ensures ValidFields(f)
  {
    var value := action % TWO_64;
    Fields((value / TWO_48) % TWO_15, ToInt16(value / TWO_32), ToInt16(value), ToInt16(value / TWO_16))
  }

  /** The action word for some fields, as the Java side packs it. */
  function Encode(f: Fields): (a: Int64)
    requires ValidFields(f)
    ensures a >= 0
  {
    f.message * TWO_48 + (f.wparam % TWO_16) * TWO_32 + (f.y % TWO_16) * TWO_16 + f.x % TWO_16
  }

  /** Every field survives packing and unpacking. */
  lemma {:induction false} DecodeEncode(f: Fields)
    requires ValidFields(f)
    ensures Decode(Encode(f)) == f
  {
    var v := Encode(f);
    EncodeDigits(f);
    DivModUnique(v, TWO_64, 0, v);
    Int16Residue(f.wparam);
    Int16Residue(f.x);
    Int16Residue(f.y);
    SameInt16(v / TWO_32, f.wparam % TWO_16);
    SameInt16(v, f.x % TWO_16);
    SameInt16(v / TWO_16, f.y % TWO_16);
  }

  /** The four fields of an encoded word sit in its 16-bit digits. */
  lemma {:induction false} EncodeDigits(f: Fields)
    requires ValidFields(f)
    ensures (Encode(f) / TWO_48) % TWO_15 == f.message
    ensures (Encode(f) / TWO_32) % TWO_16 == f.wparam % TWO_16
    ensures (Encode(f) / TWO_16) % TWO_16 == f.y % TWO_16
    ensures Encode(f) % TWO_16 == f.x % TWO_16
  {
    var w, y, x := f.wparam % TWO_16, f.y % TWO_16, f.x % TWO_16;
    var low := y * TWO_16 + x;
    var v := Encode(f);
    assert v == ((f.message * TWO_16 + w) * TWO_16 + y) * TWO_16 + x;
    DivModUnique(v, TWO_16, (f.message * TWO_16 + w) * TWO_16 + y, x);
    DivModUnique((f.message * TWO_16 + w) * TWO_16 + y, TWO_16, f.message * TWO_16 + w, y);
    DivModUnique(f.message * TWO_16 + w, TWO_16, f.message, w);
    assert v == (f.message * TWO_16 + w) * TWO_32 + low;
    DivModUnique(v, TWO_32, f.message * TWO_16 + w, low);
    assert v == f.message * TWO_48 + (w * TWO_32 + low);
    DivModUnique(v, TWO_48, f.message, w * TWO_32 + low);
    DivModUnique(f.message, TWO_15, 0, f.message);
  }

  /** ToInt16 reads only the low 16 bits. */
  lemma {:induction false} SameInt16(a: int, b: nat)
    requires b < TWO_16 && a % TWO_16 == b
    ensures ToInt16(a) == ToInt16(b)
  {
    DivModUnique(b, TWO_16, 0, b);
  }

  /** A word with bit 63 set decodes as the same word without it. */
  lemma {:induction false} TopBitIgnored(action: Int64)
    requires action < 0
    ensures Decode(action) == Decode(action + 0x8000_0000_0000_0000)
  {
    var v := action + TWO_64;
    var u := action + 0x8000_0000_0000_0000;
    DivModUnique(action, TWO_64, -1, v);
    DivModUnique(u, TWO_64, 0, u);
    assert v == u + TWO_15 * TWO_48;
    DigitShift(u, TWO_48, TWO_15, 1);
    assert v == u + TWO_16 * TWO_32 * 0x8000;
    DigitShift(u, TWO_32, TWO_16, 0x8000);
    assert v == u + TWO_16 * TWO_16 * 0x8000_0000;
    DigitShift(u, TWO_16, TWO_16, 0x8000_0000);
    assert v == u + TWO_16 * 0x8000_0000_0000;
    DigitShift(u, 1, TWO_16, 0x8000_0000_0000);
  }

  /** Adding a multiple of `m * n` to `v` leaves the digit `(v / m) % n` alone. */
  lemma {:induction false} DigitShift(v: nat, m: nat, n: nat, k: nat)
    requires m > 0 && n > 0
    ensures ((v + m * n * k) / m) % n == (v / m) % n
    ensures ((v + n * m * k) / m) % n == (v / m) % n
    ensures (v + n * k) % n == v % n
  {
    var q, r := v / m, v % m;
    assert m * n * k == n * m * k;
    DivModUnique(v + m * n * k, m, q + n * k, r);
    var q2, r2 := q / n, q % n;
    DivModUnique(q + n * k, n, q2 + k, r2);
    DivModUnique(v + n * k, n, v / n + k, v % n);
  }

  lemma {:induction false} Int16Residue(v: int)
    requires IsInt16(v)
    ensures ToInt16(v % TWO_16) == v
  {
    DivModUnique(v % TWO_16, TWO_16, 0, v % TWO_16);
    if v < 0 {
      DivModUnique(v, TWO_16, -1, v + TWO_16);
    } else {
      DivModUnique(v, TWO_16, 0, v);
    }
  }

  // ---------------------------------------------------------------------------------------------
  // Dispatch
  // ---------------------------------------------------------------------------------------------

  /** The client call an action makes. */
  datatype ClientCall =
    | MouseClick(cx: int, cy: int, button: nat)
    | MouseMove(mx: int, my: int)
    | MouseDown(dx: int, dy: int, downButton: nat)
    | MouseUp(ux: int, uy: int, upButton: nat)
    | MouseScroll(sx: int, sy: int, delta: int)
    | ClickKey(key: nat)

  const MSG_MOUSE_CLICK: nat := 0x1FF
  const MSG_MOUSE_MOVE: nat := 0x200
  const MSG_MOUSE_DOWN: nat := 0x201
  const MSG_MOUSE_UP: nat := 0x202
  const MSG_MOUSE_WHEEL: nat := 0x20A
  const MSG_KEY_CLICK: nat := 0x1FE
  const MSG_KEY_DOWN: nat := 0x100
  const MSG_KEY_UP: nat := 0x101
  const MSG_KEY_CHAR: nat := 0x102

  predicate IsKeyMessage(m: nat)
  {
    m == MSG_KEY_CLICK || m == MSG_KEY_DOWN || m == MSG_KEY_UP || m == MSG_KEY_CHAR
  }

  predicate IsMouseMessage(m: nat)
  {
    m == MSG_MOUSE_CLICK || m == MSG_MOUSE_MOVE || m == MSG_MOUSE_DOWN || m == MSG_MOUSE_UP || m == MSG_MOUSE_WHEEL
  }

  /**
   * The switch of postActions: mouse messages act at (x, y) with button 1, the wheel scrolls
   * by `wparam`, the four key messages all click the key `wparam` read as unsigned 16-bit,
   * and every other code does nothing.
   */
  function Dispatch(f: Fields): (r: Option<ClientCall>)
    ensures r.Some? <==> IsMouseMessage(f.message) || IsKeyMessage(f.message)
    ensures IsKeyMessage(f.message) ==> r == Some(ClickKey(f.wparam % TWO_16))
    ensures f.message == MSG_MOUSE_CLICK ==> r == Some(MouseClick(f.x, f.y, 1))
    ensures f.message == MSG_MOUSE_MOVE ==> r == Some(MouseMove(f.x, f.y))
    ensures f.message == MSG_MOUSE_DOWN ==> r == Some(MouseDown(f.x, f.y, 1))
    ensures f.message == MSG_MOUSE_UP ==> r == Some(MouseUp(f.x, f.y, 1))
    ensures f.message == MSG_MOUSE_WHEEL ==> r == Some(MouseScroll(f.x, f.y, f.wparam))
  {
    if f.message == MSG_MOUSE_CLICK then Some(MouseClick(f.x, f.y, 1))
    else if f.message == MSG_MOUSE_MOVE then Some(MouseMove(f.x, f.y))
    else if f.message == MSG_MOUSE_DOWN then Some(MouseDown(f.x, f.y, 1))
    else if f.message == MSG_MOUSE_UP then Some(MouseUp(f.x, f.y, 1))
    else if f.message == MSG_MOUSE_WHEEL then Some(MouseScroll(f.x, f.y, f.wparam))
    else if IsKeyMessage(f.message) then Some(ClickKey(f.wparam % TWO_16))
    else None
  }

  /** The calls a run of actions makes, in order. */
  function Calls(actions: seq<Int64>): (r: seq<ClientCall>)
    ensures |r| <= |actions|
  {
    if actions == [] then []
    else
      var last := actions[|actions| - 1];
      Calls(actions[..|actions| - 1]) + (match Dispatch(Decode(last)) case Some(c) => [c] case None => [])
  }

  /** One more action adds its call, if it has one, after the calls before it. */
  lemma {:induction false} CallsStep(list: seq<Int64>, i: nat)
    requires i < |list|
    ensures Calls(list[..i + 1]) == Calls(list[..i]) + (match Dispatch(Decode(list[i])) case Some(c) => [c] case None => [])
  {
    assert list[..i + 1][..i] == list[..i];
  }

  /** The calls of a prefix of the actions come first among the calls of all of them. */
  lemma {:induction false} CallsPrefix(actions: seq<Int64>, k: nat)
    requires k <= |actions|
    ensures Calls(actions[..k]) <= Calls(actions)
    decreases |actions|
  {
    if k < |actions| {
      var init := actions[..|actions| - 1];
      assert init[..k] == actions[..k];
      CallsPrefix(init, k);
    } else {
      assert actions[..k] == actions;
    }
  }

  /** Words the Java side packed give back the calls for the fields they were packed from. */
  lemma {:induction false} CallsOfEncoded(fs: seq<Fields>, actions: seq<Int64>)
    requires |fs| == |actions|
    requires forall i :: 0 <= i < |fs| ==> ValidFields(fs[i]) && actions[i] == Encode(fs[i])
    ensures Calls(actions) == CallsOfFields(fs)
    decreases |fs|
  {
    if fs != [] {
      var n := |fs| - 1;
      DecodeEncode(fs[n]);
      CallsOfEncoded(fs[..n], actions[..n]);
    }
  }

  function CallsOfFields(fs: seq<Fields>): seq<ClientCall>
  {
    if fs == [] then []
    else CallsOfFields(fs[..|fs| - 1]) + (match Dispatch(fs[|fs| - 1]) case Some(c) => [c] case None => [])
  }

  /**
   * postActions: nothing for a null or empty array; otherwise the actions in order, up to
   * the first one the deadline has passed for (`expired`, the index at which the steady
   * clock first reads past the deadline).
   */
  method PostActions(actions: Option<seq<Int64>>, expired: nat) returns (calls: seq<ClientCall>)
    ensures actions.None? ==> calls == []
    ensures actions.Some? ==>
              calls == Calls(actions.value[..if expired < |actions.value| then expired else |actions.value|])
  {
    calls := [];
    if actions.None? {
      return;
    }
    var list := actions.value;
    var len := |list|;
    if len <= 0 {
      assert list[..0] == [];
      return;
    }
    var i := 0;
    while i < len
      invariant i <= len && i <= expired
      invariant calls == Calls(list[..i])
    {
      if i >= expired {
        break;
      }
      var f := Decode(list[i]);
      var call := Dispatch(f);
      CallsStep(list, i);
      if call.Some? {
        calls := calls + [call.value];
      }
      i := i + 1;
    }
    assert i == if expired < len then expired else len;
  }

  // ---------------------------------------------------------------------------------------------
  // Compare-and-write
  // ---------------------------------------------------------------------------------------------

  /** A `jlong` address as the `uintptr_t` it is converted to. */
  function Address(addr: Int64): nat
  {
    addr % TWO_64
  }

  /** readInt: the 4 bytes at the address as a signed `int`. */
  function ReadInt(cells: map<nat, Byte>, addr: Int64): (r: Int32)
    requires Mapped(cells, Address(addr), 4)
    ensures r % TWO_32 == Load(cells, Address(addr), 4)
  {
    var u := Load(cells, Address(addr), 4);
    assert Pow256(4) == TWO_32 by {
      assert Pow256(2) == TWO_16;
    }
    var r := ToInt32(u);
    if u >= 0x8000_0000 then
      DivModUnique(r, TWO_32, -1, u);
      r
    else
      DivModUnique(r, TWO_32, 0, u);
      r
  }

  /** readLong: the 8 bytes at the address, returned as a `jlong`. */
  function ReadLong(cells: map<nat, Byte>, addr: Int64): (r: Int64)
    requires Mapped(cells, Address(addr), 8)
    ensures r % TWO_64 == Load(cells, Address(addr), 8)
  {
    var u := Load(cells, Address(addr), 8);
    assert Pow256(8) == TWO_64 by { Pow256Eight(); }
    if u >= 0x8000_0000_0000_0000 then
      DivModUnique(u - TWO_64, TWO_64, -1, u);
      u - TWO_64
    else
      DivModUnique(u, TWO_64, 0, u);
      u
  }

  lemma {:induction false} Pow256Eight()
    ensures Pow256(8) == TWO_64
  {
    assert Pow256(2) == 0x1_0000;
    assert Pow256(4) == 0x1_0000_0000;
    assert Pow256(6) == 0x1_0000_0000_0000;
  }

  /** Comparing a signed `int` with the unsigned bytes compares their bits. */
  lemma {:induction false} Int32Compare(u: nat, j: Int32)
    requires u < TWO_32
    ensures ToInt32(u) == j <==> u == j % TWO_32
  {
    DivModUnique(u, TWO_32, 0, u);
    if j < 0 {
      DivModUnique(j, TWO_32, -1, j + TWO_32);
    } else {
      DivModUnique(j, TWO_32, 0, j);
    }
  }

  /** The memory after a compare-and-write of the `n`-byte value at `a`. */
  function Replaced(cells: map<nat, Byte>, a: nat, expected: nat, value: nat, n: nat): (r: map<nat, Byte>)
    requires Mapped(cells, a, n) && value < Pow256(n)
    ensures r.Keys == cells.Keys && Mapped(r, a, n)
    ensures Load(r, a, n) == if Load(cells, a, n) == expected then value else Load(cells, a, n)
    ensures forall i :: i in cells && !(a <= i < a + n) ==> r[i] == cells[i]
  {
    if Load(cells, a, n) == expected then
      LoadStored(cells, a, value, n);
      Stored(cells, a, LittleEndianBytes(value, n))
    else
      cells
  }

  /** replaceInt: the new `int` is written iff the `int` at the address equals the old one. */
  method ReplaceInt(mem: Memory, addr: Int64, expected: Int32, value: Int32)
    requires Mapped(mem.cells, Address(addr), 4)
    modifies mem
    ensures mem.cells == Replaced(old(mem.cells), Address(addr), expected % TWO_32, value % TWO_32, 4)
    ensures ReadInt(mem.cells, addr) == if ReadInt(old(mem.cells), addr) == expected then value else ReadInt(old(mem.cells), addr)
  {
    assert Pow256(4) == TWO_32 by { assert Pow256(2) == 0x1_0000; }
    Int32Compare(Load(mem.cells, Address(addr), 4), expected);
    Int32Compare(value % TWO_32, value);
    if ReadInt(mem.cells, addr) == expected {
      mem.Write(Address(addr), value % TWO_32, [], 4);
    }
  }

  /** replaceLong: the same on 8 bytes; the `jlong` old value is compared as `uintptr_t`. */
  method ReplaceLong(mem: Memory, addr: Int64, expected: Int64, value: Int64)
    requires Mapped(mem.cells, Address(addr), 8)
    modifies mem
    ensures mem.cells == Replaced(old(mem.cells), Address(addr), expected % TWO_64, value % TWO_64, 8)
    ensures ReadLong(mem.cells, addr) == if ReadLong(old(mem.cells), addr) == expected then value else ReadLong(old(mem.cells), addr)
  {
    Pow256Eight();
    if Load(mem.cells, Address(addr), 8) == expected % TWO_64 {
      mem.Write(Address(addr), value % TWO_64, [], 8);
    }
    Int64Residue(expected, ReadLong(old(mem.cells), addr));
    Int64Residue(value, ReadLong(mem.cells, addr));
  }

  /** Two `jlong`s are equal iff their bits are. */
  lemma {:induction false} Int64Residue(a: Int64, b: Int64)
    ensures a == b <==> a % TWO_64 == b % TWO_64
  {
    if a < 0 { DivModUnique(a, TWO_64, -1, a + TWO_64); } else { DivModUnique(a, TWO_64, 0, a); }
    if b < 0 { DivModUnique(b, TWO_64, -1, b + TWO_64); } else { DivModUnique(b, TWO_64, 0, b); }
  }
}
