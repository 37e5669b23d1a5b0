/**
 * The AVM2 traits decoder and method-name resolver of do_lib/avm.cpp. A traits block is the
 * `instance_info`, `class_info` or `script_info` record of an ABC file (AVM2 Overview sections
 * 4.7, 4.9 and 4.10) followed by its `traits_info` entries (section 4.8). The constant pool is
 * external: it is given as two lookup functions. The two process-wide caches are classes owning
 * a map keyed by object identity.
 */
module Avm {
  import opened Prelude
  import opened BinaryStreams

  // Trait kinds and the metadata attribute bit of AVM2 Overview section 4.8.1.
  const TRAIT_SLOT: nat := 0
  const TRAIT_METHOD: nat := 1
  const TRAIT_GETTER: nat := 2
  const TRAIT_SETTER: nat := 3
  const TRAIT_CLASS: nat := 4
  const TRAIT_FUNCTION: nat := 5
  const TRAIT_CONST: nat := 6
  const ATTR_METADATA: nat := 0x40

  /** The constant pool: multiname names by index (`None` for an unresolved multiname) and method names. */
  datatype Pool = Pool(multinameName: nat -> Option<string>, methodName: int -> string)

  /** MyTrait: one decoded trait. Fields a kind does not set keep their initial value 0. */
  datatype Trait = Trait(nameIndex: nat, name: string, kind: nat, id: nat, typeId: nat, temp: nat)

  /** A traits block: the bytes at `traits_pos` (`None` for a null pointer), the header kind and the pool. */
  class Traits {
    const traitsPos: Option<seq<Byte>>
    const posType: int
    const pool: Pool

    constructor (traitsPos: Option<seq<Byte>>, posType: int, pool: Pool)
      ensures this.traitsPos == traitsPos && this.posType == posType && this.pool == pool
    {
      this.traitsPos := traitsPos;
      this.posType := posType;
      this.pool := pool;
    }
  }

  /** Who declares a method: a traits block (possibly a null pointer) or something else. */
  datatype Declarer = NotTraits | TraitsDeclarer(traits: Traits?)

  class MethodInfo {
    const id: int
    const pool: Pool
    const declarer: Declarer

    constructor (id: int, pool: Pool, declarer: Declarer)
      ensures this.id == id && this.pool == pool && this.declarer == declarer
    {
      this.id := id;
      this.pool := pool;
      this.declarer := declarer;
    }
  }

  // ---------------------------------------------------------------------------------------------
  // The decoder as functions of the bytes

  /** The offset after `n` consecutive u32 values from `pos`. */
  function SkipU32s(data: seq<Byte>, pos: nat, n: nat): (r: Option<nat>)
    ensures r.Some? ==> pos <= r.value <= |data|
    decreases n
  {
    if n == 0 then (if pos <= |data| then Some(pos) else None)
    else
      var v :- U32At(data, pos);
      SkipU32s(data, v.1, n - 1)
  }

  /**
   * An `instance_info` header up to and including `iinit`: name, super name, flags, the protected
   * namespace when `flags & 0x8`, the interface list. The result is the offset of `trait_count`.
   */
  function InstanceHeader(data: seq<Byte>, pos: nat): (r: Option<nat>)
    ensures r.Some? ==> pos < r.value <= |data|
  {
    var name :- U32At(data, pos);
    var superName :- U32At(data, name.1);
    var flags :- U32At(data, superName.1);
    var afterNs :- if (flags.0 / 8) % 2 == 1 then SkipU32s(data, flags.1, 1) else Some(flags.1);
    var interfaceCount :- U32At(data, afterNs);
    var afterInterfaces :- SkipU32s(data, interfaceCount.1, interfaceCount.0);
    var iinit :- U32At(data, afterInterfaces);
    Some(iinit.1)
  }

  /** The fixed part of a `traits_info` entry: name index, tag byte, the kind's payload. */
  datatype Head = Head(nameIndex: nat, tag: Byte, id: nat, typeId: nat, next: nat)

  predicate IsMethodKind(kind: nat)
  {
    kind == TRAIT_METHOD || kind == TRAIT_GETTER || kind == TRAIT_SETTER
  }

  /** What a kind's payload contributes: the id, the type name and the offset after it. */
  datatype Payload = Payload(id: nat, typeId: nat, next: nat)

  /** Slot and Const: slot id, type name, value index, and a value-kind byte iff the value index is non-zero. */
  function SlotPayload(data: seq<Byte>, pos: nat): (r: Option<Payload>)
    ensures r.Some? ==> pos < r.value.next <= |data|
  {
    var slotId :- U32At(data, pos);
    var typeName :- U32At(data, slotId.1);
    var vindex :- U32At(data, typeName.1);
    if vindex.0 == 0 then Some(Payload(vindex.0, typeName.0, vindex.1))
    else if vindex.1 < |data| then Some(Payload(vindex.0, typeName.0, vindex.1 + 1))
    else None
  }

  /** Class, Function, Method, Getter and Setter: a slot or disp id, then the index kept as `id`. */
  function IndexPayload(data: seq<Byte>, pos: nat): (r: Option<Payload>)
    ensures r.Some? ==> pos < r.value.next <= |data|
  {
    var first :- U32At(data, pos);
    var index :- U32At(data, first.1);
    Some(Payload(index.0, 0, index.1))
  }

  /**
   * The payload by kind. Every known kind reads at least one byte; any other kind reads nothing
   * and leaves both ids 0.
   */
  function KindPayload(data: seq<Byte>, kind: nat, pos: nat): (r: Option<Payload>)
    requires pos <= |data|
    ensures r.Some? ==> pos <= r.value.next <= |data|
    ensures (r.Some? && r.value.next == pos) <==>
              !(kind == TRAIT_SLOT || kind == TRAIT_CONST || kind == TRAIT_CLASS || kind == TRAIT_FUNCTION || IsMethodKind(kind))
    ensures r.Some? && r.value.next == pos ==> r.value.id == 0 && r.value.typeId == 0
  {
    if kind == TRAIT_SLOT || kind == TRAIT_CONST then SlotPayload(data, pos)
    else if kind == TRAIT_CLASS || kind == TRAIT_FUNCTION || IsMethodKind(kind) then IndexPayload(data, pos)
    else Some(Payload(0, 0, pos))
  }

  /** Name index, tag byte and payload of one entry. */
  function RecordHead(data: seq<Byte>, pos: nat): (r: Option<Head>)
    ensures r.Some? ==> pos < r.value.next <= |data|
  {
    var name :- U32At(data, pos);
    var tag :- ByteAt(data, name.1);
    var payload :- KindPayload(data, tag.0 % 16, tag.1);
    Some(Head(name.0, tag.0, payload.id, payload.typeId, payload.next))
  }

  /** After the payload: a metadata count and that many indices, iff the tag has ATTR_METADATA. */
  function SkipMetadata(data: seq<Byte>, tag: Byte, pos: nat): (r: Option<nat>)
    ensures r.Some? ==> pos <= r.value <= |data|
  {
    if (tag / ATTR_METADATA) % 2 == 1 then
      var count :- U32At(data, pos);
      SkipU32s(data, count.1, count.0)
    else if pos <= |data| then Some(pos)
    else None
  }

  /** The display name of a multiname index: its name, or "" when the pool cannot resolve it. */
  function PoolName(pool: Pool, index: nat): string
  {
    match pool.multinameName(index)
    case Some(n) => n
    case None => ""
  }

  /** The MyTrait built from a decoded entry. */
  function MakeTrait(h: Head, pool: Pool): (t: Trait)
    ensures t.nameIndex == h.nameIndex && t.name == PoolName(pool, h.nameIndex) && t.kind == h.tag % 16
  {
    var kind := h.tag % 16;
    if kind == TRAIT_SLOT || kind == TRAIT_CONST then Trait(h.nameIndex, PoolName(pool, h.nameIndex), kind, h.id, h.typeId, 0)
    else if kind == TRAIT_CLASS || kind == TRAIT_FUNCTION then Trait(h.nameIndex, PoolName(pool, h.nameIndex), kind, h.id, 0, 0)
    else if IsMethodKind(kind) then Trait(h.nameIndex, PoolName(pool, h.nameIndex), kind, h.id, 0, h.nameIndex)
    else Trait(h.nameIndex, PoolName(pool, h.nameIndex), kind, 0, 0, 0)
  }

  /** One complete entry and the offset after it. */
  function TraitRecord(data: seq<Byte>, pos: nat, pool: Pool): (r: Option<(Trait, nat)>)
    ensures r.Some? ==> pos < r.value.1 <= |data|
  {
    var h :- RecordHead(data, pos);
    var next :- SkipMetadata(data, h.tag, h.next);
    Some((MakeTrait(h, pool), next))
  }

  /** `n` consecutive entries from `pos`, in stream order. */
  function TraitsFrom(data: seq<Byte>, pos: nat, n: nat, pool: Pool): (r: Option<seq<Trait>>)
    ensures r.Some? ==> |r.value| == n
    decreases n, 1
  {
    if n == 0 then Some([]) else TraitsAt(data, pos, n, pool)
  }

  /** The entry at `pos` followed by the `n - 1` after it. */
  function TraitsAt(data: seq<Byte>, pos: nat, n: nat, pool: Pool): (r: Option<seq<Trait>>)
    requires n > 0
    ensures r.Some? ==> |r.value| == n
    decreases n, 0
  {
    var first :- TraitRecord(data, pos, pool);
    var rest :- TraitsFrom(data, first.1, n - 1, pool);
    Some([first.0] + rest)
  }

  /** What parse_traits decodes from a block: always an instance header, then `trait_count` entries. */
  function DecodeTraits(data: seq<Byte>, pool: Pool): (r: Option<seq<Trait>>)
    ensures r.Some? ==> InstanceHeader(data, 0).Some? && U32At(data, InstanceHeader(data, 0).value).Some? &&
                        |r.value| == U32At(data, InstanceHeader(data, 0).value).value.0
  {
    var header :- InstanceHeader(data, 0);
    var count :- U32At(data, header);
    TraitsFrom(data, count.1, count.0, pool)
  }

  /** The pool parse_traits resolves names in: the custom pool when given, else the block's own. */
  function ChoosePool(customPool: Option<Pool>, own: Pool): Pool
  {
    if customPool.Some? then customPool.value else own
  }

  // ---------------------------------------------------------------------------------------------
  // The decoder driving a BinaryStream

  method SkipU32sFrom(s: BinaryStream, n: nat)
    requires SkipU32s(s.data, s.position, n).Some?
    modifies s
    ensures s.position == SkipU32s(s.data, old(s.position), n).value
  {
    var i := 0;
    while i < n
      invariant 0 <= i <= n
      invariant SkipU32s(s.data, s.position, n - i) == SkipU32s(s.data, old(s.position), n)
    {
      var _ := s.ReadU32();
      i := i + 1;
    }
  }

  method ReadInstanceHeader(s: BinaryStream)
    requires InstanceHeader(s.data, s.position).Some?
    modifies s
    ensures s.position == InstanceHeader(s.data, old(s.position)).value
  {
    var _ := s.ReadU32();
    var _ := s.ReadU32();
    var flags := s.ReadU32();
    if (flags / 8) % 2 == 1 {
      var _ := s.ReadU32();
    }
    var interfaceCount := s.ReadU32();
    SkipU32sFrom(s, interfaceCount);
    var _ := s.ReadU32();
  }

  method ReadSlotPayload(s: BinaryStream) returns (p: Payload)
    requires SlotPayload(s.data, s.position).Some?
    modifies s
    ensures Some(p) == SlotPayload(s.data, old(s.position)) && s.position == p.next
  {
    var _ := s.ReadU32();
    var typeName := s.ReadU32();
    var vindex := s.ReadU32();
    if vindex != 0 {
      // vkind, ignored by the VM
      var _ := s.ReadU8();
    }
    p := Payload(vindex, typeName, s.position);
  }

  method ReadIndexPayload(s: BinaryStream) returns (p: Payload)
    requires IndexPayload(s.data, s.position).Some?
    modifies s
    ensures Some(p) == IndexPayload(s.data, old(s.position)) && s.position == p.next
  {
    var _ := s.ReadU32();
    var index := s.ReadU32();
    p := Payload(index, 0, s.position);
  }

  method ReadRecordHead(s: BinaryStream) returns (h: Head)
    requires RecordHead(s.data, s.position).Some?
    modifies s
    ensures Some(h) == RecordHead(s.data, old(s.position)) && s.position == h.next
  {
    RecordHeadParts(s.data, s.position);
    var name := s.ReadU32();
    var tag := s.ReadU8();
    var p := ReadKindPayload(s, tag % 16);
    h := Head(name, tag, p.id, p.typeId, p.next);
  }

  /** The `switch (kind)` over the payload; an unknown kind is only logged. */
  method ReadKindPayload(s: BinaryStream, kind: nat) returns (p: Payload)
    requires s.position <= |s.data| && KindPayload(s.data, kind, s.position).Some?
    modifies s
    ensures Some(p) == KindPayload(s.data, kind, old(s.position)) && s.position == p.next
  {
    if kind == TRAIT_SLOT || kind == TRAIT_CONST {
      p := ReadSlotPayload(s);
    } else if kind == TRAIT_CLASS || kind == TRAIT_FUNCTION || IsMethodKind(kind) {
      p := ReadIndexPayload(s);
    } else {
      p := Payload(0, 0, s.position);
    }
  }

  lemma {:induction false} RecordHeadParts(data: seq<Byte>, pos: nat)
    requires RecordHead(data, pos).Some?
    ensures U32At(data, pos).Some?
    ensures var name := U32At(data, pos).value;
            name.1 < |data| &&
            KindPayload(data, data[name.1] % 16, name.1 + 1).Some? &&
            var p := KindPayload(data, data[name.1] % 16, name.1 + 1).value;
            RecordHead(data, pos).value == Head(name.0, data[name.1], p.id, p.typeId, p.next)
  {
  }

  method SkipMetadataFrom(s: BinaryStream, tag: Byte)
    requires SkipMetadata(s.data, tag, s.position).Some?
    modifies s
    ensures s.position == SkipMetadata(s.data, tag, old(s.position)).value
  {
    if (tag / ATTR_METADATA) % 2 == 1 {
      var count := s.ReadU32();
      SkipU32sFrom(s, count);
    }
  }

  /** The traits cache: decoded blocks by Traits identity. */
  class TraitsCache {
    var entries: map<Traits, seq<Trait>>

    constructor ()
      ensures entries == map[]
    {
      entries := map[];
    }

    /** clear_traits_cache. */
    method Clear()
      modifies this
      ensures entries == map[]
    {
      entries := map[];
    }
  }

  /**
   * Traits::parse_traits: a cached block is returned as stored (whatever `customPool` is now);
   * otherwise the block is decoded, and the result inserted only as the first entry for `t`.
   */
  method ParseTraits(t: Traits, customPool: Option<Pool>, cache: TraitsCache) returns (traits: seq<Trait>)
    requires t !in cache.entries ==>
               t.traitsPos.Some? && DecodeTraits(t.traitsPos.value, ChoosePool(customPool, t.pool)).Some?
    modifies cache
    ensures t in old(cache.entries) ==> traits == old(cache.entries[t]) && cache.entries == old(cache.entries)
    ensures t !in old(cache.entries) ==>
              Some(traits) == DecodeTraits(t.traitsPos.value, ChoosePool(customPool, t.pool)) &&
              cache.entries == old(cache.entries)[t := traits]
  {
    if t in cache.entries {
      return cache.entries[t];
    }
    var data := t.traitsPos.value;
    var pool := ChoosePool(customPool, t.pool);
    var s := new BinaryStream(data);
    ReadInstanceHeader(s);
    var count := s.ReadU32();
    traits := ReadTraits(s, count, pool);
    if t !in cache.entries {
      cache.entries := cache.entries[t := traits];
    }
  }

  /** The loop over `trait_count` entries, each appended in stream order. */
  method ReadTraits(s: BinaryStream, count: nat, pool: Pool) returns (traits: seq<Trait>)
    requires TraitsFrom(s.data, s.position, count, pool).Some?
    modifies s
    ensures Some(traits) == TraitsFrom(s.data, old(s.position), count, pool)
  {
    ghost var rest := TraitsFrom(s.data, s.position, count, pool).value;
    ghost var all := rest;
    traits := [];
    var j := 0;
    while j < count
      invariant 0 <= j <= count
      invariant TraitsFrom(s.data, s.position, count - j, pool) == Some(rest)
      invariant traits + rest == all
    {
      var t := ReadNextTrait(s, count - j, pool, rest);
      MoveHead(traits, rest);
      traits, rest := traits + [t], rest[1..];
      j := j + 1;
    }
    AppendEmpty(traits, rest);
  }

  lemma {:induction false} MoveHead<T>(done: seq<T>, rest: seq<T>)
    requires |rest| > 0
    ensures done + rest == (done + [rest[0]]) + rest[1..]
  {
    assert rest == [rest[0]] + rest[1..];
  }

  lemma {:induction false} AppendEmpty<T>(done: seq<T>, rest: seq<T>)
    requires |rest| == 0
    ensures done + rest == done
  {
  }

  /** One iteration of the loop: the next entry is the head of the remaining list. */
  method ReadNextTrait(s: BinaryStream, n: nat, pool: Pool, ghost rest: seq<Trait>) returns (t: Trait)
    requires n > 0 && TraitsFrom(s.data, s.position, n, pool) == Some(rest)
    modifies s
    ensures |rest| > 0 && t == rest[0]
    ensures TraitsFrom(s.data, s.position, n - 1, pool) == Some(rest[1..])
  {
    TraitsFromStep(s.data, s.position, n, pool);
    t := ReadTrait(s, pool);
  }

  lemma {:induction false} TraitsFromStep(data: seq<Byte>, pos: nat, n: nat, pool: Pool)
    requires n > 0 && TraitsFrom(data, pos, n, pool).Some?
    ensures TraitRecord(data, pos, pool).Some?
    ensures var r := TraitRecord(data, pos, pool).value;
            TraitsFrom(data, r.1, n - 1, pool).Some? &&
            TraitsFrom(data, pos, n, pool).value == [r.0] + TraitsFrom(data, r.1, n - 1, pool).value
  {
  }

  /** One entry: name, tag, payload, then the metadata skip. */
  method ReadTrait(s: BinaryStream, pool: Pool) returns (t: Trait)
    requires TraitRecord(s.data, s.position, pool).Some?
    modifies s
    ensures TraitRecord(s.data, old(s.position), pool) == Some((t, s.position))
  {
    var h := ReadRecordHead(s);
    SkipMetadataFrom(s, h.tag);
    t := MakeTrait(h, pool);
  }

  // ---------------------------------------------------------------------------------------------
  // Method names

  /**
   * The header MethodInfo::name skips before `trait_count`, by `pos_type`: 0 is an instance
   * header, 1 and 2 (class and script) have one init index; any other value scans no traits.
   * The result is the trait count and the offset of the first entry.
   */
  function NameHeader(data: seq<Byte>, posType: int): Option<(nat, nat)>
  {
    if posType == 0 then
      var header :- InstanceHeader(data, 0);
      U32At(data, header)
    else if posType == 1 || posType == 2 then
      var init :- U32At(data, 0);
      U32At(data, init.1)
    else Some((0, 0))
  }

  /**
   * The scan of MethodInfo::name over `n` entries: the kind of the first Method, Getter or
   * Setter whose method index, read as int32, is `id`; `Some(None)` when none matches.
   */
  function NameScan(data: seq<Byte>, pos: nat, n: nat, id: int): (r: Option<Option<nat>>)
    ensures r.Some? && r.value.Some? ==> IsMethodKind(r.value.value)
    decreases n, 1
  {
    if n == 0 then Some(None) else EntryScan(data, pos, n, id)
  }

  /** The scan from the entry at `pos`: it matches, or the scan goes on after it. */
  function EntryScan(data: seq<Byte>, pos: nat, n: nat, id: int): (r: Option<Option<nat>>)
    requires n > 0
    ensures r.Some? && r.value.Some? ==> IsMethodKind(r.value.value)
    decreases n, 0
  {
    var h :- RecordHead(data, pos);
    if IsMethodKind(h.tag % 16) && Signed32(h.id) == id then Some(Some(h.tag % 16))
    else
      var next :- SkipMetadata(data, h.tag, h.next);
      NameScan(data, next, n - 1, id)
  }

  /** `static_cast<int32_t>` of a decoded u32: values from 2^31 up wrap to negative. */
  function Signed32(v: nat): int
  {
    if v >= 0x8000_0000 then v - TWO_32 else v
  }

  lemma {:induction false} Signed32IsCast(v: nat)
    requires v < TWO_32
    ensures Signed32(v) == ToInt32(v)
  {
  }

  /** The prefix a matching trait gives a method name. */
  function Prefix(kind: Option<nat>): string
  {
    if kind == Some(TRAIT_SETTER) then "set "
    else if kind == Some(TRAIT_GETTER) then "get "
    else ""
  }

  /** What MethodInfo::name computes on a cache miss; `None` where it would read past the block. */
  function ResolveName(m: MethodInfo): (r: Option<string>)
    ensures m.pool.methodName(m.id) == [] ==> r == Some([])
    ensures !m.declarer.TraitsDeclarer? || m.declarer.traits == null || m.declarer.traits.traitsPos.None? ==>
              r == Some(m.pool.methodName(m.id))
    ensures r.Some? ==> exists p :: p in {"", "get ", "set "} && r.value == p + m.pool.methodName(m.id)
  {
    var bare := m.pool.methodName(m.id);
    if bare == [] || !m.declarer.TraitsDeclarer? || m.declarer.traits == null ||
       m.declarer.traits.traitsPos.None?
    then assert "" + bare == bare; Some(bare)
    else
      var data := m.declarer.traits.traitsPos.value;
      var header :- NameHeader(data, m.declarer.traits.posType);
      var kind :- NameScan(data, header.1, header.0, m.id);
      assert Prefix(kind) in {"", "get ", "set "};
      Some(Prefix(kind) + bare)
  }

  /** The name cache: resolved names by MethodInfo identity. */
  class NameCache {
    var entries: map<MethodInfo, string>

    constructor ()
      ensures entries == map[]
    {
      entries := map[];
    }
  }

  /** MethodInfo::name: a cached name is returned as stored; otherwise it is resolved and inserted. */
  method Name(m: MethodInfo, cache: NameCache) returns (name: string)
    requires m !in cache.entries ==> ResolveName(m).Some?
    modifies cache
    ensures m in old(cache.entries) ==> name == old(cache.entries[m]) && cache.entries == old(cache.entries)
    ensures m !in old(cache.entries) ==>
              Some(name) == ResolveName(m) && cache.entries == old(cache.entries)[m := name]
  {
    if m in cache.entries {
      return cache.entries[m];
    }
    name := m.pool.methodName(m.id);
    if name != [] && m.declarer.TraitsDeclarer? {
      var traits := m.declarer.traits;
      if traits != null && traits.traitsPos.Some? {
        var data := traits.traitsPos.value;
        var s := new BinaryStream(data);
        var count := ReadNameHeader(s, traits.posType);
        var kind := ScanTraitNames(s, count, m.id);
        name := Prefix(kind) + name;
      }
    }
    cache.entries := cache.entries[m := name];
  }

  /** The `pos_type` switch of MethodInfo::name: skips the header and reads `trait_count`. */
  method ReadNameHeader(s: BinaryStream, posType: int) returns (count: nat)
    requires s.position == 0 && NameHeader(s.data, posType).Some?
    modifies s
    ensures NameHeader(s.data, posType) == Some((count, s.position))
  {
    count := 0;
    if posType == 0 {
      ReadInstanceHeader(s);
      count := s.ReadU32();
    } else if posType == 1 || posType == 2 {
      var _ := s.ReadU32();
      count := s.ReadU32();
    }
  }

  /** The scan of MethodInfo::name: stops at the first Method, Getter or Setter for `id`. */
  method ScanTraitNames(s: BinaryStream, count: nat, id: int) returns (kind: Option<nat>)
    requires NameScan(s.data, s.position, count, id).Some?
    modifies s
    ensures NameScan(s.data, old(s.position), count, id) == Some(kind)
  {
    ghost var result := NameScan(s.data, s.position, count, id).value;
    ghost var left := count;
    var j := 0;
    while j < count
      invariant 0 <= j <= count && left == count - j
      invariant NameScan(s.data, s.position, left, id) == Some(result)
    {
      var found := ScanEntry(s, left, id, result);
      if found.Some? {
        return found;
      }
      j := j + 1;
      left := left - 1;
    }
    assert NameScan(s.data, s.position, 0, id) == Some(None);
    return None;
  }

  /** One entry of the scan: `found` is the kind when it matches; otherwise the scan goes on after it. */
  method ScanEntry(s: BinaryStream, ghost n: nat, id: int, ghost result: Option<nat>) returns (found: Option<nat>)
    requires n > 0 && NameScan(s.data, s.position, n, id) == Some(result)
    modifies s
    ensures found.Some? ==> found == result
    ensures found.None? ==> NameScan(s.data, s.position, n - 1, id) == Some(result)
  {
    NameScanStep(s.data, s.position, n, id);
    var h := ReadRecordHead(s);
    var k := h.tag % 16;
    if IsMethodKind(k) && Signed32(h.id) == id {
      return Some(k);
    }
    SkipMetadataFrom(s, h.tag);
    return None;
  }

  lemma {:induction false} NameScanStep(data: seq<Byte>, pos: nat, n: nat, id: int)
    requires n > 0 && NameScan(data, pos, n, id).Some?
    ensures RecordHead(data, pos).Some?
    ensures var h := RecordHead(data, pos).value;
            if IsMethodKind(h.tag % 16) && Signed32(h.id) == id then
              NameScan(data, pos, n, id) == Some(Some(h.tag % 16))
            else
              SkipMetadata(data, h.tag, h.next).Some? &&
              NameScan(data, pos, n, id) == NameScan(data, SkipMetadata(data, h.tag, h.next).value, n - 1, id)
  {
  }

  // ---------------------------------------------------------------------------------------------
  // Properties of the decoder

  /** Every decoded entry is named from the pool by its own name index, and its kind is a 4-bit value. */
  lemma {:induction false} TraitsNamedFromPool(data: seq<Byte>, pos: nat, n: nat, pool: Pool)
    requires TraitsFrom(data, pos, n, pool).Some?
    ensures forall t :: t in TraitsFrom(data, pos, n, pool).value ==>
              t.name == PoolName(pool, t.nameIndex) && t.kind < 16
    decreases n
  {
    if n > 0 {
      var first := TraitRecord(data, pos, pool).value;
      TraitsNamedFromPool(data, first.1, n - 1, pool);
    }
  }

  /** An entry with its name left out: what the bytes alone determine. */
  function Unnamed(t: Trait): Trait
  {
    t.(name := "")
  }

  /**
   * The pool only supplies names: decoding the same bytes under two pools succeeds or fails
   * alike and yields the same entries apart from their names.
   */
  lemma {:induction false} PoolOnlyNames(data: seq<Byte>, pos: nat, n: nat, p1: Pool, p2: Pool)
    ensures TraitsFrom(data, pos, n, p1).Some? <==> TraitsFrom(data, pos, n, p2).Some?
    ensures TraitsFrom(data, pos, n, p1).Some? ==>
              var a, b := TraitsFrom(data, pos, n, p1).value, TraitsFrom(data, pos, n, p2).value;
              |a| == |b| && forall i :: 0 <= i < |a| ==> Unnamed(a[i]) == Unnamed(b[i])
    decreases n
  {
    if n > 0 {
      var r1, r2 := TraitRecord(data, pos, p1), TraitRecord(data, pos, p2);
      RecordPoolOnlyNames(data, pos, p1, p2);
      if r1.Some? {
        PoolOnlyNames(data, r1.value.1, n - 1, p1, p2);
      }
    }
  }

  /** One entry under two pools: the same outcome, offset and fields apart from the name. */
  lemma {:induction false} RecordPoolOnlyNames(data: seq<Byte>, pos: nat, p1: Pool, p2: Pool)
    ensures TraitRecord(data, pos, p1).Some? <==> TraitRecord(data, pos, p2).Some?
    ensures TraitRecord(data, pos, p1).Some? ==>
              var a, b := TraitRecord(data, pos, p1).value, TraitRecord(data, pos, p2).value;
              a.1 == b.1 && Unnamed(a.0) == Unnamed(b.0)
  {
  }

  /** The first Method, Getter or Setter entry whose method index, as int32, is `id`. */
  function FirstMethodKind(ts: seq<Trait>, id: int): (r: Option<nat>)
    ensures r.Some? ==> exists t :: t in ts && IsMethodKind(t.kind) && Signed32(t.id) == id && t.kind == r.value
    ensures r.Some? ==> exists k :: 0 <= k < |ts| && ts[k].kind == r.value && IsMethodKind(ts[k].kind) &&
                                   Signed32(ts[k].id) == id &&
                                   forall j :: 0 <= j < k ==> !(IsMethodKind(ts[j].kind) && Signed32(ts[j].id) == id)
    ensures r.None? ==> forall t :: t in ts ==> !(IsMethodKind(t.kind) && Signed32(t.id) == id)
  {
    if ts == [] then None
    else if IsMethodKind(ts[0].kind) && Signed32(ts[0].id) == id then Some(ts[0].kind)
    else FirstMethodKind(ts[1..], id)
  }

  /**
   * MethodInfo::name rescans the bytes instead of using the decoded list; wherever the list
   * decodes, the scan finds the kind of the first method entry for `id` in it.
   */
  lemma {:induction false} NameScanAgrees(data: seq<Byte>, pos: nat, n: nat, id: int, pool: Pool)
    requires TraitsFrom(data, pos, n, pool).Some?
    ensures NameScan(data, pos, n, id) == Some(FirstMethodKind(TraitsFrom(data, pos, n, pool).value, id))
    decreases n
  {
    if n > 0 {
      var first := TraitRecord(data, pos, pool).value;
      var ts := TraitsFrom(data, pos, n, pool).value;
      var rest := TraitsFrom(data, first.1, n - 1, pool).value;
      assert ts[0] == first.0 && ts[1..] == rest;
      HeadOfRecord(data, pos, pool);
      var h := RecordHead(data, pos).value;
      NameScanAgrees(data, first.1, n - 1, id, pool);
      if IsMethodKind(first.0.kind) && Signed32(first.0.id) == id {
        assert FirstMethodKind(ts, id) == Some(first.0.kind);
        assert NameScan(data, pos, n, id) == Some(Some(h.tag % 16));
      } else {
        assert FirstMethodKind(ts, id) == FirstMethodKind(rest, id);
        assert NameScan(data, pos, n, id) == NameScan(data, first.1, n - 1, id);
      }
    }
  }

  /**
   * For an instance block that parse_traits decodes, MethodInfo::name gives the pool name with the
   * prefix of the first Method, Getter or Setter entry for the method in the decoded list, and no
   * prefix when none matches; an empty pool name stays empty.
   */
  lemma {:induction false} NameFromDecodedTraits(m: MethodInfo, t: Traits, pool: Pool)
    requires m.declarer == TraitsDeclarer(t) && t.traitsPos.Some? && t.posType == 0
    requires DecodeTraits(t.traitsPos.value, pool).Some?
    ensures var bare := m.pool.methodName(m.id);
            ResolveName(m) ==
              Some(if bare == [] then bare
                   else Prefix(FirstMethodKind(DecodeTraits(t.traitsPos.value, pool).value, m.id)) + bare)
  {
    var data := t.traitsPos.value;
    var header := InstanceHeader(data, 0).value;
    var count := U32At(data, header).value;
    NameScanAgrees(data, count.1, count.0, m.id, pool);
  }

  /** The head the scan reads is the one the decoded entry was made from. */
  lemma {:induction false} HeadOfRecord(data: seq<Byte>, pos: nat, pool: Pool)
    requires TraitRecord(data, pos, pool).Some?
    ensures RecordHead(data, pos).Some?
    ensures var t, next, h := TraitRecord(data, pos, pool).value.0, TraitRecord(data, pos, pool).value.1, RecordHead(data, pos).value;
            && h.tag % 16 == t.kind
            && (IsMethodKind(t.kind) ==> t.id == h.id)
            && SkipMetadata(data, h.tag, h.next) == Some(next)
  {
  }

  /** A one-byte u32: a byte below 0x80 is its own value. */
  lemma {:induction false} U32AtSmall(data: seq<Byte>, pos: nat)
    requires pos < |data| && data[pos] < 0x80
    ensures U32At(data, pos) == Some((data[pos] as nat, pos + 1))
  {
  }

  /**
   * A Class, Function, Method, Getter or Setter entry without metadata, read field by field:
   * `id` is the second payload value, and the method kinds keep their name index in `temp`.
   */
  lemma {:induction false} IndexRecordFields(d: seq<Byte>, pos: nat, p1: nat, p2: nat, p3: nat, pool: Pool)
    requires U32At(d, pos).Some? && U32At(d, pos).value.1 == p1 && p1 < |d|
    requires var kind := d[p1];
             kind == TRAIT_CLASS || kind == TRAIT_FUNCTION || IsMethodKind(kind)
    requires U32At(d, p1 + 1).Some? && U32At(d, p1 + 1).value.1 == p2
    requires U32At(d, p2).Some? && U32At(d, p2).value.1 == p3
    ensures var name, kind, index := U32At(d, pos).value.0, d[p1], U32At(d, p2).value.0;
            TraitRecord(d, pos, pool) ==
              Some((Trait(name, PoolName(pool, name), kind, index, 0, if IsMethodKind(kind) then name else 0), p3))
  {
    var name, index := U32At(d, pos).value.0, U32At(d, p2).value.0;
    var tag := d[p1];
    assert tag % 16 == tag;
    assert IndexPayload(d, p1 + 1) == Some(Payload(index, 0, p3));
    assert KindPayload(d, tag, p1 + 1) == Some(Payload(index, 0, p3));
    var h := Head(name, tag, index, 0, p3);
    assert RecordHead(d, pos) == Some(h) by {
      assert ByteAt(d, p1) == Some((tag, p1 + 1));
    }
    PlainRecord(d, pos, h, pool);
    assert MakeTrait(h, pool) == Trait(name, PoolName(pool, name), tag, index, 0, if IsMethodKind(tag) then name else 0);
  }

  /**
   * A Slot or Const entry without metadata, read field by field: `id` is the value index,
   * `typeId` the type name, and one value-kind byte follows iff the value index is non-zero.
   */
  lemma {:induction false} SlotRecordFields(d: seq<Byte>, pos: nat, p1: nat, p2: nat, p3: nat, p4: nat, pool: Pool)
    requires U32At(d, pos).Some? && U32At(d, pos).value.1 == p1 && p1 < |d|
    requires d[p1] == TRAIT_SLOT || d[p1] == TRAIT_CONST
    requires U32At(d, p1 + 1).Some? && U32At(d, p1 + 1).value.1 == p2
    requires U32At(d, p2).Some? && U32At(d, p2).value.1 == p3
    requires U32At(d, p3).Some? && U32At(d, p3).value.1 == p4
    requires U32At(d, p3).value.0 != 0 ==> p4 < |d|
    ensures var name, typeName, vindex := U32At(d, pos).value.0, U32At(d, p2).value.0, U32At(d, p3).value.0;
            TraitRecord(d, pos, pool) ==
              Some((Trait(name, PoolName(pool, name), d[p1], vindex, typeName, 0),
                    if vindex == 0 then p4 else p4 + 1))
  {
    var name, typeName, vindex := U32At(d, pos).value.0, U32At(d, p2).value.0, U32At(d, p3).value.0;
    var next := if vindex == 0 then p4 else p4 + 1;
    var tag := d[p1];
    assert tag % 16 == tag;
    SlotFields(d, p1 + 1, p2, p3, p4);
    assert KindPayload(d, tag, p1 + 1) == Some(Payload(vindex, typeName, next));
    var h := Head(name, tag, vindex, typeName, next);
    assert RecordHead(d, pos) == Some(h) by {
      assert ByteAt(d, p1) == Some((tag, p1 + 1));
    }
    PlainRecord(d, pos, h, pool);
    assert MakeTrait(h, pool) == Trait(name, PoolName(pool, name), tag, vindex, typeName, 0);
  }

  /** The Slot payload from its three u32 fields and the value-kind byte. */
  lemma {:induction false} SlotFields(d: seq<Byte>, p: nat, p2: nat, p3: nat, p4: nat)
    requires U32At(d, p).Some? && U32At(d, p).value.1 == p2
    requires U32At(d, p2).Some? && U32At(d, p2).value.1 == p3
    requires U32At(d, p3).Some? && U32At(d, p3).value.1 == p4
    requires U32At(d, p3).value.0 != 0 ==> p4 < |d|
    ensures SlotPayload(d, p) ==
            Some(Payload(U32At(d, p3).value.0, U32At(d, p2).value.0, if U32At(d, p3).value.0 == 0 then p4 else p4 + 1))
  {
  }

  /** An entry whose tag has no flag bits ends right after its payload. */
  lemma {:induction false} PlainRecord(d: seq<Byte>, pos: nat, h: Head, pool: Pool)
    requires RecordHead(d, pos) == Some(h) && h.tag < 16
    ensures TraitRecord(d, pos, pool) == Some((MakeTrait(h, pool), h.next))
  {
    assert (h.tag / ATTR_METADATA) % 2 == 0;
  }

  /** An instance block with no interfaces and one Slot entry decodes to that one entry. */
  lemma {:induction false} InstanceSlotExample(pool: Pool)
    ensures DecodeTraits([1, 0, 0, 0, 2, 1, 3, 0, 1, 4, 0], pool) == Some([Trait(3, PoolName(pool, 3), TRAIT_SLOT, 0, 4, 0)])
  {
    var d: seq<Byte> := [1, 0, 0, 0, 2, 1, 3, 0, 1, 4, 0];
    ExampleHeader(d);
    U32AtSmall(d, 6);
    U32AtSmall(d, 8);
    U32AtSmall(d, 9);
    U32AtSmall(d, 10);
    SlotRecordFields(d, 6, 7, 9, 10, 11, pool);
    var t := Trait(3, PoolName(pool, 3), TRAIT_SLOT, 0, 4, 0);
    assert TraitRecord(d, 6, pool) == Some((t, 11));
    assert TraitsFrom(d, 11, 0, pool) == Some([]);
    assert [t] + [] == [t];
    assert TraitsAt(d, 6, 1, pool) == Some([t]);
  }

  /** The instance header shared by the examples: name 1, no super name, no flags, no interfaces, iinit 2, one entry. */
  lemma {:induction false} ExampleHeader(d: seq<Byte>)
    requires |d| >= 6 && d[..6] == [1, 0, 0, 0, 2, 1]
    ensures InstanceHeader(d, 0) == Some(5) && U32At(d, 5) == Some((1, 6))
  {
    assert d[0] == 1 && d[1] == 0 && d[2] == 0 && d[3] == 0 && d[4] == 2 && d[5] == 1 by {
      assert forall i :: 0 <= i < 6 ==> d[i] == d[..6][i];
    }
    U32AtSmall(d, 0);
    U32AtSmall(d, 1);
    U32AtSmall(d, 2);
    U32AtSmall(d, 3);
    U32AtSmall(d, 4);
    U32AtSmall(d, 5);
    assert SkipU32s(d, 4, 0) == Some(4);
  }

  /** A Getter entry for method 7 gives method 7 the name "get " followed by its pool name. */
  lemma {:induction false} GetterNameExample(m: MethodInfo, t: Traits)
    requires m.id == 7 && m.declarer == TraitsDeclarer(t) && m.pool.methodName(7) != []
    requires t.traitsPos == Some([1, 0, 0, 0, 2, 1, 3, 2, 1, 7]) && t.posType == 0
    ensures ResolveName(m) == Some("get " + m.pool.methodName(7))
  {
    var d: seq<Byte> := [1, 0, 0, 0, 2, 1, 3, 2, 1, 7];
    ExampleHeader(d);
    assert NameHeader(d, 0) == Some((1, 6));
    U32AtSmall(d, 6);
    U32AtSmall(d, 8);
    U32AtSmall(d, 9);
    IndexRecordFields(d, 6, 7, 9, 10, m.pool);
    assert RecordHead(d, 6) == Some(Head(3, 2, 7, 0, 10));
    assert NameScan(d, 6, 1, 7) == Some(Some(TRAIT_GETTER));
  }
}
