# do_lib: a verified model of the introspection core

do_lib is injected into a browser process that hosts the Flash player's ActionScript Virtual
Machine 2 (AVM2). The bot client drives that browser. This project models, in Dafny, the parts
of the library, the client and the browser front-end whose behaviour the code states directly.
It proves what that code promises.

- **Masked byte search** (`masked_bmh.dfy`, module `MaskedBmh`). `masked_bmh_search` is a
  Boyer-Moore-Horspool search. A `?` in the mask matches any byte, the search starts at an
  offset, and it only reports offsets that satisfy an alignment. `SIZE_MAX` ("not found") is
  `None`. The shift table and the search loops are methods over a 256-entry `array`, proved
  against the functions `ShiftTable`, `Scan` and `Bmh`. The search as written is sound and
  respects the alignment. It returns the first match for masks without `?`, and with `?` it
  can skip matches (see "Findings"). A corrected table is proved complete for every mask.
- **Bytecode cursor** (`binary_stream.dfy`, module `BinaryStreams`). `BinaryStream` is a class
  whose `position` its read methods advance over immutable bytes. It reads:
  - fixed-width little-endian values;
  - C strings;
  - the AVM2 `s24` type;
  - the AVM2 variable-length `u32`/`u30`, whose decoding is tied to the unsigned LEB128 encoding.
- **Traits decoder and method names** (`avm.dfy`, module `Avm`):
  - `parse_traits` reads an instance header and then `trait_count` `traits_info` entries from a
    `BinaryStream`;
  - `MethodInfo::name` rescans the same bytes for `get `/`set ` prefixes;
  - `clear_traits_cache` empties the traits cache;
  - both caches are classes owning a map keyed by object identity, with insert-if-absent.
- **Pattern strings** (`patterns.dfy`, module `Patterns`). This is the parser that
  `ProcUtil::FindPattern` and `memory::find_pattern` share. It splits a string such as `8B ? 05`
  on spaces and turns it into bytes and an `x`/`?` mask, through `std::stoi(token, nullptr, 16)`.
- **Region scanners**:
  - `proc_util.dfy`, module `ProcUtil`: `QueryMemory` writes up to `amount` hits into `out`;
    also `FindPattern` and the bounded parent walk `IsChildOf`.
  - `memory_linux.dfy`, module `MemoryLinux`: `get_pages`, which keeps the pages whose path
    matches; `query_memory`, the first hit after the region filter; `find_pattern`; the page
    rounding of `unprotect`.
- **Pointer chains** (`memory.dfy`, module `Memory`). Recursive `read<T>`/`write<T>` over a
  byte memory, where memory is a partial map from addresses to bytes.
- **`utils::format`** (`format.dfy`, module `Format`). The pointer loops over the template are
  a method (`FormatStream`) proved against the recursive function `Format`. Arguments are
  integers of 2, 4 or 8 bytes, or strings. A 1-byte integer prints as its character, so it is a
  one-character string.
- **Native actions** (`dark_tanos.dfy`, module `DarkTanos`):
  - `postActions` decodes the 64-bit action words and dispatches them to client calls, in array
    order, up to the deadline;
  - `readInt`/`readLong`;
  - the compare-and-write `replaceInt`/`replaceLong`.
- **Client rules** (`bot_client.dfy`, module `BotClient`):
  - mouse coordinate clamping and root coordinates;
  - the order of press and release;
  - the scroll steps;
  - URL and session-id normalisation and the `execle` argument vector of `LaunchBrowser`;
  - the fields of the messages sent to the Flash side.

  The X server is a class that records the events it delivers and how many more sends it
  accepts.
- **Browser front-end**:
  - `key_handler.dfy`, module `KeyHandler`: key-code resolution, and the input events sent to
    the page. The page's `webContents` is a class.
  - `browser_main.dfy`, module `BrowserMain`: `parseArgv`, the routing of `|`-separated socket
    messages, and the first URL `createWindow` loads.
- `prelude.dfy` (module `Prelude`) holds `Option`, bytes, little-endian encoding and a few
  arithmetic facts.

Where the code and its documented design differ, the model follows the code:
- **`read_u32` length.** It consumes up to five bytes, not four. The fifth contributes its bits
  shifted by 28, modulo 2^32.
- **`parse_traits` header.** It always skips an `instance_info` header, whatever `pos_type` is.
  `MethodInfo::name` does switch on `pos_type`. It compares each method index, cast to a signed
  32-bit value, with the method id while it rescans the raw bytes. `Avm.NameFromDecodedTraits`
  proves that rescan agrees with the decoded list.
- **`utils::format` on an unclosed placeholder.** It reads past the end of the template when an
  unescaped `{` is never closed. `Format` is `None` there, and `Format.ClosedDefined` proves it
  is defined whenever every `{` has a later `}`.
- **Wildcard search.** `masked_bmh_search` can miss matches when the mask has `?` (see
  "Findings"). The scanners call the search as written, so they can miss matches too:
  `ProcUtil.WildcardMatchMissed` and `MemoryLinux.WildcardMatchMissed` show a region whose match
  is not reported. Their completeness lemmas hold for masks without `?`.
  `MaskedBmh.CorrectedAgreesWhenWildcardFree` shows the two search functions return the same
  result for such masks.
- **`ProcUtil::FindPattern`** ignores its `segment` argument and searches every region.
- **`DarkTanos.setSize`** sends `setSize|w|h`. The browser never routes it, because only
  two-field messages are dispatched.
- **The `text` command** calls `typeText`, which key_handler.js does not export
  (browser/src/main.js:10, browser/src/key_handler.js:151). The call fails, and the route is
  `TypeTextFails`.
- **`replaceLong`** compares the `uintptr_t` it reads with the `jlong` argument. That compares
  their 64-bit patterns.

## Model

| member | source | states |
|---|---|---|
| MaskedBmh.Search | tools/masked_bmh.h:9-68 | The search equals `Bmh`. An empty needle or one longer than the haystack gives `None`. A result is at or after `start`, aligned and a masked match. |
| MaskedBmh.BmhSound | tools/masked_bmh.h:22-29 | Any result `i` has `start <= i`, `i + nlen <= hay_len`, `i` aligned, and every non-`?` byte equal to the haystack byte. |
| MaskedBmh.ScanSound | tools/masked_bmh.h:40-66 | The main loop only returns an aligned masked match at or after where it started. |
| MaskedBmh.FirstAlignedIsFirst | tools/masked_bmh.h:22-28 | The all-wildcard loop returns the least aligned offset from `start` at which the needle fits, and `None` when no such offset exists. |
| MaskedBmh.BmhAllWildcard | tools/masked_bmh.h:16-29 | An all-`?` mask matches exactly where it fits. The result is the least aligned fitting offset from `start`. |
| MaskedBmh.Step | tools/masked_bmh.h:47-48 | A table entry becomes a step of at least 1, so every miss moves `i` forward. |
| MaskedBmh.NextMultiple | tools/masked_bmh.h:42 | The misalignment jump reaches the next multiple of the alignment and passes over misaligned offsets only. |
| MaskedBmh.FindAnchor | tools/masked_bmh.h:16-19 | The anchor is the right-most non-`?` position, and is negative iff the mask is all `?`. |
| MaskedBmh.Anchor | tools/masked_bmh.h:16-19 | The anchor holds a non-`?` character and every later position is `?`. With no anchor, every position is `?`. |
| MaskedBmh.BuildShiftTable | tools/masked_bmh.h:31-38 | The filled array is `ShiftTable`: the default `nlen - anchor`, overwritten left to right below the anchor. |
| MaskedBmh.ShiftTable | tools/masked_bmh.h:31-38 | The table has one entry per byte value. |
| MaskedBmh.FillTable | tools/masked_bmh.h:33 | Every entry gets the default shift. |
| MaskedBmh.FirstFit | tools/masked_bmh.h:23-28 | The all-wildcard loop computes `FirstAligned`. |
| MaskedBmh.MainLoop | tools/masked_bmh.h:40-67 | The main loop computes `Scan` over the table it is given. |
| MaskedBmh.VerifyAt | tools/masked_bmh.h:54-58 | The verify loop's `ok` is true iff every non-`?` byte of the needle agrees with the haystack at `i`. |
| MaskedBmh.SafeStep | tools/masked_bmh.h:45-65 | For a safe table, a miss at `i` skips no matching offset. |
| MaskedBmh.ScanComplete | tools/masked_bmh.h:40-66 | For a safe table, when no match lies in `[start, i)`, the loop from `i` returns the first aligned match from `start`. |
| MaskedBmh.ShiftTableSafe | tools/masked_bmh.h:31-38 | The table as written is safe when no `?` precedes the anchor and `nlen - anchor <= anchor + 1`. |
| MaskedBmh.BmhCompleteWhenWildcardFree | tools/masked_bmh.h:31-65 | For a mask without `?`, the search is defined and returns the least aligned match at or after `start`, or `None` when there is none. |
| MaskedBmh.FirstMatchUnique | tools/masked_bmh.h:40-66 | "The first aligned match from `start`" determines the result uniquely. |
| MaskedBmh.WildcardBeforeAnchorSkipsMatch | tools/masked_bmh.h:31-38 | Needle `B ? A` (mask `x?x`) matches `B B B A` at offset 1, yet the search returns `None`. |
| MaskedBmh.TrailingWildcardsSkipMatch | tools/masked_bmh.h:33 | Needle `A ? ?` (mask `x??`) matches `B A x x` at offset 1, yet the default shift 3 skips it and the search returns `None`. |
| MaskedBmh.BeforeAnchorMatch | tools/masked_bmh.h:54-58 | Needle `42 00 41` with mask `x?x` matches haystack `42 42 42 41` at offset 1. |
| MaskedBmh.BeforeAnchorShift | tools/masked_bmh.h:34-37 | That needle's table as written shifts byte 0x42 by 2. |
| MaskedBmh.BeforeAnchorScan | tools/masked_bmh.h:40-66 | With that shift, the main loop steps from 0 to 2 and ends with no result. |
| MaskedBmh.CorrectedSearch | tools/masked_bmh.h:9-68 | With the corrected table, the search returns the least aligned match from `start` for every non-empty mask. |
| MaskedBmh.BuildCorrectedTable | tools/masked_bmh.h:31-38 | The corrected array is `CorrectedTable`: the distance from the anchor to the last position below it that is `?` or holds the byte, else `anchor + 1`. |
| MaskedBmh.CorrectedTable | tools/masked_bmh.h:31-38 | The corrected table has one entry per byte value. |
| MaskedBmh.LastBlocker | tools/masked_bmh.h:34-37 | The position found lies below `j`. Every position between it and `j` is a non-`?` byte different from `c`. |
| MaskedBmh.LastOccurrence | tools/masked_bmh.h:34-37 | The entry the table as written keeps: the right-most non-`?` position below `j` holding byte `c`, with no such position after it. |
| MaskedBmh.CorrectedBmhComplete | tools/masked_bmh.h:31-65 | The corrected search returns the least aligned match from `start` for every non-empty mask. |
| MaskedBmh.CorrectedAgreesWhenWildcardFree | tools/masked_bmh.h:31-38 | For a mask without `?`, the search as written and the corrected one return the same result. |
| MaskedBmh.Bmh | tools/masked_bmh.h:9-68 | The search as written. `BmhSound` proves every result an aligned masked match at or after `start`, and `BmhCompleteWhenWildcardFree` proves it the first one for masks without `?`. |
| MaskedBmh.CorrectedBmh | tools/masked_bmh.h:31-65 | The search with the corrected table. `CorrectedBmhComplete` proves it returns the first aligned match for every non-empty mask. |
| BinaryStreams.BinaryStream.constructor | do_lib/binary_stream.h:11 | The stream starts at position 0 over the given bytes. |
| BinaryStreams.BinaryStream.Read | do_lib/binary_stream.h:32-39 | `read<T>` returns the little-endian value of the next `sizeof(T)` bytes and advances by `sizeof(T)`. |
| BinaryStreams.BinaryStream.Peek | do_lib/binary_stream.h:41-47 | `peek<T>` returns the same value as `read<T>` and leaves `position` unchanged. |
| BinaryStreams.BinaryStream.ReadBytes | do_lib/binary_stream.h:26-30 | `read_bytes` copies `size` bytes into the front of `out`, leaves the rest of `out` alone, and advances by `size`. |
| BinaryStreams.BinaryStream.ReadString | do_lib/binary_stream.h:13-24 | `read_string` returns the bytes before the first zero byte and leaves `position` one past that zero. |
| BinaryStreams.BinaryStream.ReadS24 | do_lib/binary_stream.h:49-54 | `read_s24` returns `S24` of the next three bytes and advances by 3. |
| BinaryStreams.BinaryStream.ReadU8 | do_lib/binary_stream.h:58 | `read<uint8_t>` returns the next byte and advances by one. |
| BinaryStreams.BinaryStream.ReadU32 | do_lib/binary_stream.h:56-79 | `read_u32` returns the value `U32At` decodes and leaves `position` after the bytes it consumed. |
| BinaryStreams.BinaryStream.ReadU30 | do_lib/binary_stream.h:81 | `read_u30` is `read_u32`. |
| BinaryStreams.U32Decode | do_lib/binary_stream.h:56-79 | It consumes 1 to 5 bytes and the value is below 2^32. When `k <= 4` bytes are consumed, the value is below 2^(7k). |
| BinaryStreams.U32DecodeShape | do_lib/binary_stream.h:59-78 | The decode stops at the first of the first four bytes with a clear top bit, else it takes five bytes. It is undefined iff fewer than five bytes are left and all of them continue. |
| BinaryStreams.U32AtAgrees | do_lib/binary_stream.h:56-79 | The reader's closed-form decode at `pos` is the group-wise `U32Decode` of the bytes from `pos`. |
| BinaryStreams.U32Examples | do_lib/binary_stream.h:58-66 | `[0x7F]` decodes to 127 in one byte, and `[0x96, 0x01]` to 150 in two bytes. |
| BinaryStreams.U32RoundTrip | do_lib/binary_stream.h:56-79 | For every `v < 2^32`, its LEB128 encoding is at most five bytes, and followed by anything it decodes to `v` with exactly its length consumed. |
| BinaryStreams.Leb128Shape | do_lib/binary_stream.h:59-74 | Every byte of the encoding except the last has its top bit set. |
| BinaryStreams.S24 | do_lib/binary_stream.h:51 | The value is in `[-2^23, 2^23)`. |
| BinaryStreams.S24IsSignExtension | do_lib/binary_stream.h:51 | The value is `b0 + 256 * b1 + 65536 * (int8_t)b2`. It is negative iff bit 7 of the third byte is set. |
| BinaryStreams.S24RoundTrip | do_lib/binary_stream.h:49-54 | The three-byte two's-complement layout of every signed 24-bit value reads back as that value. |
| BinaryStreams.CString | do_lib/binary_stream.h:16-20 | The result is a zero-free prefix of the bytes and is followed by a zero when shorter than them. |
| BinaryStreams.CStringPrefix | do_lib/binary_stream.h:16-20 | The string read is the bytes before the first zero byte. |
| BinaryStreams.U32At | do_lib/binary_stream.h:56-79 | A u32 decoded at `pos` consumes 1 to 5 bytes inside the data, and its value is below 2^32. |
| BinaryStreams.U32DecodeLength | do_lib/binary_stream.h:59-74 | Every byte before the last one consumed, among the first four, has its continuation bit set. |
| BinaryStreams.BinaryStream.ReadGroup | do_lib/binary_stream.h:61-72 | One continuation step reads a byte and adds its low 7 bits at weight 2^(7k). |
| BinaryStreams.ByteAt | do_lib/binary_stream.h:32-39 | A byte is read iff one is left, and it is the next byte. |
| BinaryStreams.Int8 | do_lib/binary_stream.h:51 | `(int8_t)` gives the value in `[-128, 128)` congruent to the byte modulo 256. |
| BinaryStreams.Leb128 | do_lib/binary_stream.h:56-79 | A value's encoding is at least one byte long. |
| BinaryStreams.Leb128Length | do_lib/binary_stream.h:56-79 | A value below 2^(7k) encodes to at most `k` bytes. |
| BinaryStreams.Leb128Bound | do_lib/binary_stream.h:56-79 | A value is below 2^(7 * length of its encoding). |
| BinaryStreams.Leb128Low7 | do_lib/binary_stream.h:59-74 | The low 7-bit groups of the first `n` encoded bytes spell the value modulo 2^(7n). |
| BinaryStreams.U32RoundTripShort | do_lib/binary_stream.h:59-74 | An encoding of at most four bytes decodes back to its value. |
| BinaryStreams.U32RoundTripFive | do_lib/binary_stream.h:74-78 | A five-byte encoding of a value below 2^32 decodes back to it. |
| Avm.InstanceHeader | do_lib/avm.cpp:207-223 | The header is two names, flags, a protected namespace iff `flags & 0x8`, the interfaces and `iinit`. It ends inside the block. |
| Avm.TraitsFrom | do_lib/avm.cpp:228-303 | `n` entries decode to exactly `n` traits, in stream order. |
| Avm.MakeTrait | do_lib/avm.cpp:232-239 | `name_index` is the name u32, `name` is the pool's name for it, and `kind` is `tag & 0xf`. |
| Avm.SlotRecordFields | do_lib/avm.cpp:243-257 | A Slot or Const entry sets `id = vindex` and `type_id = type_name`, and consumes one more byte iff `vindex != 0`. |
| Avm.SlotFields | do_lib/avm.cpp:246-255 | The Slot payload is the slot id, the type name, the value index and a value-kind byte iff the index is non-zero. |
| Avm.IndexRecordFields | do_lib/avm.cpp:259-285 | Class, Function, Method, Getter and Setter entries set `id` to the second payload u32. Method kinds also set `temp` to the name index. |
| Avm.KindPayload | do_lib/avm.cpp:241-291 | Each payload ends inside the block. A slot, const, class, function or method kind reads at least one byte, and any other kind reads nothing and leaves both ids 0. |
| Avm.SkipMetadata | do_lib/avm.cpp:293-300 | A metadata count and that many indices are read iff the tag has the metadata bit. |
| Avm.RecordHeadParts | do_lib/avm.cpp:232-291 | An entry's head is its name u32, its tag byte and the payload selected by `tag & 0xf`. |
| Avm.ReadTraits | do_lib/avm.cpp:228-303 | The loop over `trait_count` entries returns exactly the decoded list, in stream order. |
| Avm.ReadTrait | do_lib/avm.cpp:230-302 | One turn of the loop reads one complete entry and leaves the stream after it. |
| Avm.ParseTraits | do_lib/avm.cpp:191-312 | A cache hit returns the stored list, whatever the custom pool, and changes nothing. A miss returns the decode of the block under the custom pool or else the block's own, and inserts it. |
| Avm.TraitsCache.Clear | do_lib/avm.cpp:314-318 | `clear_traits_cache` leaves the cache empty. |
| Avm.TraitsNamedFromPool | do_lib/avm.cpp:236-239 | Every decoded trait is named from the pool by its own name index, and its kind is below 16. |
| Avm.PoolOnlyNames | do_lib/avm.cpp:204-238 | The pool only affects names. Two pools decode the same bytes equally often, to lists equal apart from the names. |
| Avm.Name | do_lib/avm.cpp:42-183 | A cache hit returns the stored name and changes nothing. A miss returns the resolved name and inserts it. |
| Avm.ReadNameHeader | do_lib/avm.cpp:66-100 | The `pos_type` switch: 0 skips an instance header, 1 and 2 one init index, and any other value gives no entries. It then reads `trait_count`. |
| Avm.ScanTraitNames | do_lib/avm.cpp:102-171 | The rescan returns the kind of the first Method, Getter or Setter entry whose index, cast to `int32_t`, is the id. |
| Avm.NameScanAgrees | do_lib/avm.cpp:102-171 | Wherever the traits decode, the rescan of the raw bytes finds the first method entry for the id in the decoded list. |
| Avm.NameFromDecodedTraits | do_lib/avm.cpp:56-175 | For an instance block that decodes, the name is the pool name with `get ` for a Getter, `set ` for a Setter, and no prefix for a Method or no match. An empty pool name stays empty. |
| Avm.FirstMethodKind | do_lib/avm.cpp:129-154 | The kind found is that of the first Method, Getter or Setter trait in the list with that id: no earlier trait matches. With no result, no such trait exists. |
| Avm.GetterNameExample | do_lib/avm.cpp:129-154 | A block whose one Getter entry has method index 7 names method 7 `"get "` plus its pool name. |
| Avm.InstanceSlotExample | do_lib/avm.cpp:203-257 | A minimal instance block with no interfaces and one Slot entry decodes to exactly that entry, with its name, kind Slot and type id. |
| Avm.Traits.constructor | do_lib/avm.cpp:191-204 | A traits object holds its block (possibly absent), its `pos_type` and its pool. |
| Avm.MethodInfo.constructor | do_lib/avm.cpp:42-62 | A method info holds its id, its pool and its declarer. |
| Avm.TraitsCache.constructor | do_lib/avm.cpp:188-189 | The traits cache starts empty. |
| Avm.NameCache.constructor | do_lib/avm.cpp:44-53 | The name cache starts empty. |
| Avm.SkipU32s | do_lib/avm.cpp:214-223 | Skipping `n` u32 values stays inside the block. |
| Avm.SkipU32sFrom | do_lib/avm.cpp:214-223 | The stream is left after the `n` u32 values it skips. |
| Avm.ReadInstanceHeader | do_lib/avm.cpp:207-223 | The stream is left after the instance header. |
| Avm.ReadSlotPayload | do_lib/avm.cpp:243-257 | The Slot and Const payload read is `SlotPayload`, and the stream is left after it. |
| Avm.ReadIndexPayload | do_lib/avm.cpp:259-285 | The two-u32 payload read is `IndexPayload`, and the stream is left after it. |
| Avm.ReadRecordHead | do_lib/avm.cpp:232-291 | The entry head read is `RecordHead`, and the stream is left after it. |
| Avm.ReadKindPayload | do_lib/avm.cpp:241-291 | The payload read for the kind is `KindPayload`, and the stream is left after it. |
| Avm.SkipMetadataFrom | do_lib/avm.cpp:293-300 | The stream is left after the metadata, when the tag has any. |
| Avm.SlotPayload | do_lib/avm.cpp:243-257 | The Slot payload consumes at least one byte and ends inside the block. |
| Avm.IndexPayload | do_lib/avm.cpp:259-285 | The two-u32 payload consumes at least one byte and ends inside the block. |
| Avm.RecordHead | do_lib/avm.cpp:232-291 | An entry head consumes at least one byte and ends inside the block. |
| Avm.TraitRecord | do_lib/avm.cpp:230-302 | A whole entry consumes at least one byte and ends inside the block. |
| Avm.TraitsAt | do_lib/avm.cpp:228-303 | A positive number of entries decodes to exactly that many traits. |
| Avm.ReadNextTrait | do_lib/avm.cpp:228-303 | Each turn of the loop yields the next decoded trait, and the rest of the stream decodes to the rest of the list. |
| Avm.ScanEntry | do_lib/avm.cpp:102-171 | One turn of the rescan either finds the result, or leaves the stream where the rest of the scan gives it. |
| Avm.RecordPoolOnlyNames | do_lib/avm.cpp:230-302 | One entry decodes under two pools alike, apart from its name. |
| Avm.ExampleHeader | do_lib/avm.cpp:207-225 | Six header bytes with no interfaces give a header of five bytes and a trait count of 1. |
| Avm.Signed32IsCast | do_lib/avm.cpp:136 | The comparison's `static_cast<int32_t>` is the two's-complement reading of the u32. |
| Avm.NameScan | do_lib/avm.cpp:102-171 | A found kind is a method, getter or setter kind. `NameScanAgrees` proves the scan agrees with the decoded traits. |
| Avm.DecodeTraits | do_lib/avm.cpp:191-291 | A decoded block holds exactly `trait_count` traits. |
| Avm.ResolveName | do_lib/avm.cpp:42-171 | An empty pool name is returned as it is, and so is the pool name when the declarer is not a traits record or its traits or `traits_pos` is null. Any resolved name is the pool name with no prefix, `get ` or `set `. |
| Patterns.Tokens | client/proc_util.cpp:205 | The token list is empty iff the string is empty. |
| Patterns.FirstSpace | client/proc_util.cpp:205 | The split point is the first space, or the end of the string. |
| Patterns.TokensFrom | client/proc_util.cpp:205 | Splitting a non-empty rest gives at least one token. |
| Patterns.JoinTokens | client/proc_util.cpp:205 | Joining the tokens with spaces gives the string back, apart from a trailing space. |
| Patterns.TokensJoin | client/proc_util.cpp:205 | Space-free tokens whose last one is not empty split back into themselves. |
| Patterns.TokenEntry | client/proc_util.cpp:207-216 | A token with `?` gives mask `?` and byte 0. Any other token gives mask `x` and its `stoi` value modulo 256, and fails iff `stoi` throws. |
| Patterns.StoiHex | client/proc_util.cpp:214 | A parsed value fits in a 32-bit `int`. |
| Patterns.HexDigit | client/proc_util.cpp:214 | A hex digit has a value below 16. |
| Patterns.DigitRun | client/proc_util.cpp:214 | `stoi` reads the longest run of hex digits. |
| Patterns.StoiHexPlain | client/proc_util.cpp:214 | `ff` is 255. |
| Patterns.StoiHexByte | client/proc_util.cpp:214 | Two lower-case hex digits read back as the byte they spell. |
| Patterns.StoiHexPrefixed | client/proc_util.cpp:214 | `stoi` skips a `0x` prefix: `0x1F` is 31. |
| Patterns.StoiHexSignAndFailures | client/proc_util.cpp:214 | `-1` parses as -1, while `zz` and the empty token throw. |
| Patterns.PatternOf | client/proc_util.cpp:205-217 | The pattern holds one byte and one mask character per token, in order. |
| Patterns.PatternForUnique | client/proc_util.cpp:205-217 | The tokens determine the pattern uniquely. |
| Patterns.ParsePattern | client/proc_util.cpp:205-217 | The loop returns a pattern iff every token parses, and it is the tokens' pattern. |
| Patterns.TokensPrefix | client/proc_util.cpp:207-216 | One token that fails to parse makes the whole query fail, whatever tokens came before. |
| Patterns.PatternExample | client/proc_util.cpp:205-217 | `8B ? 05` splits into a byte, a wildcard and a byte. |
| ProcUtil.QueryMemory | client/proc_util.cpp:146-195 | Null arguments, `amount == 0` or an empty mask give 0 and leave `out` alone. Otherwise the count and `out[..count]` are the hits `Collect` finds, and the rest of `out` is untouched. |
| ProcUtil.ScanRegions | client/proc_util.cpp:161-192 | The outer loop writes the hits of the regions in list order, stopping at `amount`. |
| ProcUtil.VisitRegion | client/proc_util.cpp:165-170 | A region smaller than the query, or whose read returns fewer bytes than the query, contributes nothing. Otherwise its hits are appended. |
| ProcUtil.ScanRegion | client/proc_util.cpp:172-191 | The inner loop appends the hits `RegionHits` finds, each search restarting one past the previous hit. |
| ProcUtil.CollectRegion | client/proc_util.cpp:163-192 | One region's hits are written after the earlier ones and before those of later regions, within the budget. Entries past the count are untouched. |
| ProcUtil.NextHit | client/proc_util.cpp:177-190 | One search gives the next hit, with the rest of the region searched from one past it, or shows no hit remains. |
| ProcUtil.RegionHits | client/proc_util.cpp:172-191 | A region gives at most `budget` hits. |
| ProcUtil.Collect | client/proc_util.cpp:161-175 | At most `budget` hits are collected. |
| ProcUtil.RegionHitsSound | client/proc_util.cpp:177-188 | Each hit is the region start plus a masked match, at or after the offset searched from. |
| ProcUtil.RegionHitsIncreasing | client/proc_util.cpp:187-190 | Within one region the hits strictly increase. |
| ProcUtil.RegionHitsComplete | client/proc_util.cpp:172-191 | For a mask without `?`, when the budget is not exhausted, every match in the bytes read is reported. |
| ProcUtil.WildcardMatchMissed | client/proc_util.cpp:172-191 | One region holding `42 42 42 41`, searched for `42 ? 41`, has a match at offset 1, yet no hit is collected. |
| ProcUtil.CollectSound | client/proc_util.cpp:161-192 | Every collected address is a hit inside the bytes read from some region. |
| ProcUtil.HitInRange | client/proc_util.cpp:165-170 | A hit lies with the whole query inside its region. |
| ProcUtil.CollectDone | client/proc_util.cpp:161-163 | Once the regions or the budget run out, nothing more is collected, so no regions at all give no hits. |
| ProcUtil.FindPattern | client/proc_util.cpp:197-222 | The function throws when a token's `stoi` throws or the query has no token. Otherwise it returns the first hit of the parsed pattern, or 0. |
| ProcUtil.FindPatternResult | client/proc_util.cpp:205-221 | A result exists only when the query has tokens and all of them parse. |
| ProcUtil.IsChildOf | client/proc_util.cpp:12-37 | The result is true iff the candidate parent is among the parents the bounded walk visits. |
| ProcUtil.Ancestors | client/proc_util.cpp:16-17 | The walk visits at most `depth` (128) parents. |
| ProcUtil.ParentsFrom | client/proc_util.cpp:16-34 | The walk visits at most `depth` parents. |
| ProcUtil.WalkStep | client/proc_util.cpp:19-34 | An unreadable entry stops the walk. Otherwise the parent is compared first, and the walk goes on unless the parent is `<= 1` or the process itself. |
| ProcUtil.AncestorsContinue | client/proc_util.cpp:29-34 | Every parent the walk moves on from is above 1 and differs from the process it was read for. |
| ProcUtil.ChildOfInit | client/proc_util.cpp:29-32 | A process whose parent is 1 is found to be a child of 1. The equality test comes before the stop. |
| ProcUtil.Rejected | client/proc_util.cpp:148-153 | The guards: a null query, mask or output, `amount == 0` or an empty mask. `QueryMemory` proves they give 0 and leave `out` alone. |
| ProcUtil.SearchHits | client/proc_util.cpp:172-191 | A region gives at most `budget` hits. `RegionHitsSound` and `RegionHitsIncreasing` prove each is a match and that they increase. |
| MemoryLinux.PageOf | do_lib/memory_linux.cpp:46 | A page holds its line's fields unchanged, with size 0. |
| MemoryLinux.Contains | do_lib/memory_linux.cpp:41 | `find` succeeds iff the name occurs somewhere in the path. |
| MemoryLinux.GetPages | do_lib/memory_linux.cpp:21-50 | The loop returns `KeptPages`. |
| MemoryLinux.KeptPagesMembers | do_lib/memory_linux.cpp:41-46 | A page is returned iff it is the page of a line whose path contains the name, or of any line when the name is empty. |
| MemoryLinux.KeptPagesAppend | do_lib/memory_linux.cpp:27-47 | The filter keeps the order of the lines. |
| MemoryLinux.KeptPages | do_lib/memory_linux.cpp:21-50 | The filter keeps at most one page per line. |
| MemoryLinux.KeptPagesAll | do_lib/memory_linux.cpp:41 | With an empty name every line is kept, in order. |
| MemoryLinux.QueryMemory | do_lib/memory_linux.cpp:53-92 | The result is the address of the first hit over the kept pages after the region filter, or 0. |
| MemoryLinux.VisitPage | do_lib/memory_linux.cpp:60-88 | A skipped page or a failed allocation goes on to the next page. A searched page returns its first match. |
| MemoryLinux.Snapshot | do_lib/memory_linux.cpp:73-78 | The buffer copied holds the whole page. |
| MemoryLinux.FirstHitCharacterized | do_lib/memory_linux.cpp:58-91 | A result lies in the first page, in list order, that is searched and where the search finds something. `None` means the search finds nothing in any searched page. |
| MemoryLinux.HitAligned | do_lib/memory_linux.cpp:62-81 | The hit's page passed the region filter. The hit is a masked match, aligned relative to the page start, and the query fits inside the page. |
| MemoryLinux.PageSearchComplete | do_lib/memory_linux.cpp:79-83 | For a non-empty mask without `?`, a page's result is its first aligned match, and a searched page that gives nothing has no aligned match. |
| MemoryLinux.WildcardMatchMissed | do_lib/memory_linux.cpp:58-91 | One readable page holding `42 42 42 41`, searched for `42 ? 41`, has a match at offset 1, yet the result is `None`. |
| MemoryLinux.EmptyMaskNoHit | do_lib/memory_linux.cpp:55-82 | An empty mask finds nothing, so the result is 0. |
| MemoryLinux.Address | do_lib/memory_linux.cpp:83-91 | No match is 0, and a match is its address. |
| MemoryLinux.FindPattern | do_lib/memory_linux.cpp:94-115 | The function throws when a token's `stoi` throws or there is no token. Otherwise it gives the result of the search for the parsed pattern with alignment 1. |
| MemoryLinux.FindPatternResult | do_lib/memory_linux.cpp:101-114 | A result exists only when the query has tokens and all of them parse. |
| MemoryLinux.PageBase | do_lib/memory_linux.cpp:16-17 | The rounded address is a multiple of the page size, at most the address, and within one page below it. |
| MemoryLinux.PageBaseRounds | do_lib/memory_linux.cpp:17 | `a & ~(ps - 1)` clears exactly the offset within the page. |
| MemoryLinux.ClearLowBits | do_lib/memory_linux.cpp:17 | An AND with a mask whose low `k` bits are clear removes exactly the value modulo 2^k. |
| MemoryLinux.RoundedDown | do_lib/memory_linux.cpp:17 | Rounding down gives a multiple of `m` at most the address and within `m` of it. |
| MemoryLinux.QueryExact | do_lib/memory.h:36-40 | The overload searches with an all-`x` mask of length `len` over every page. |
| MemoryLinux.ExactMaskMatches | do_lib/memory.h:38 | With an all-`x` mask, a match is an exact copy of the query bytes. |
| MemoryLinux.ExactMask | do_lib/memory.h:38 | The overload's mask has length `len` and no `?`. |
| MemoryLinux.ExactAgreesAsWritten | do_lib/memory.h:36-40 | For the all-`x` mask, the search as written and the corrected one agree. |
| MemoryLinux.Skipped | do_lib/memory_linux.cpp:62-66 | The region tests: the query is longer than the page, the query address lies strictly inside it, it is unreadable, or it is `[vvar]`. `HitAligned` proves a hit's page passed them. |
| MemoryLinux.FirstHit | do_lib/memory_linux.cpp:58-91 | A result lies, with the whole query, inside a searched page from `k` on. |
| MemoryLinux.SearchPage | do_lib/memory_linux.cpp:73-88 | A result lies, with the whole query, inside a searched page from `k` on: this page when the search finds something in it. |
| Memory.AddPtr | do_lib/memory.h:59 | `next + ofs` wraps modulo 2^64. |
| Memory.Load | do_lib/memory.h:46-52 | `read<T>(a)` is the value whose `sizeof(T)` little-endian bytes are stored at `a`. |
| Memory.Read | do_lib/memory.h:54-60 | The chained read returns a value of `sizeof(T)` bytes. |
| Memory.ReadAtTarget | do_lib/memory.h:46-60 | The chained read returns the bytes stored at the address its offsets lead to, with one dereference per offset. |
| Memory.Deref | do_lib/memory.h:54-60 | A chain that is followed ends at a 64-bit address, and only a non-empty chain can fail. |
| Memory.Bytes | do_lib/memory.h:46-52 | A `T` read copies `sizeof(T)` bytes. |
| Memory.DerefAppend | do_lib/memory.h:54-60 | A chain of offsets can be followed in two legs. |
| Memory.Stored | do_lib/memory.h:62-66 | The copy changes exactly `[a, a + sizeof(T))` to the value's bytes. |
| Memory.LoadStored | do_lib/memory.h:62-66 | Reading a `T` where one was just written gives the value written. |
| Memory.Memory.Write | do_lib/memory.h:62-74 | The chained write targets the address the chained read with the same offsets leads to. It changes only those bytes, and reading there gives the value. |
| Memory.Memory.constructor | do_lib/memory.h:8-76 | The memory starts with the given contents. |
| Format.FormatStream | tools/utils.h:21-66 | The streaming loops produce `Format`, whenever it is defined. |
| Format.BraceScan | tools/utils.h:42-63 | The brace loop either prints the argument at `}` and goes on with the rest, or gives up on a second key character and copies it. |
| Format.NoPlaceholderUnchanged | tools/utils.h:36-66 | A template without an unescaped `{` is written unchanged, and extra arguments are ignored. |
| Format.FirstPlaceholder | tools/utils.h:39-54 | The first placeholder prints the first argument, `{x}` in hex and any other key in decimal, with spaces inside ignored. The rest is formatted with the remaining arguments. |
| Format.BraceSpaces | tools/utils.h:44-45 | Spaces inside braces are skipped. |
| Format.OpenBrace | tools/utils.h:41-45 | An unescaped `{` starts the brace loop, with leading spaces skipped. |
| Format.PlaceholderBody | tools/utils.h:44-54 | A brace body of at most one key and spaces, then `}`, prints the argument, in hex iff the key is `x`, and continues with the rest. |
| Format.Then | tools/utils.h:48-53 | Output after a prefix is defined iff the rest is, and then the prefix comes first. |
| Format.ThenThen | tools/utils.h:36-66 | Two printed prefixes in a row are one prefix. |
| Format.ScanPlain | tools/utils.h:37-65 | Text without a placeholder, including a `{` right after `\`, is copied with its backslash. |
| Format.TwoKeysNoPlaceholder | tools/utils.h:56-65 | Two key characters stop the substitution. The brace and first key vanish, the rest is copied, and no argument is used. |
| Format.TwoKeysExample | tools/utils.h:56-60 | `{ab}` prints `b}`. |
| Format.ClosedDefined | tools/utils.h:36-66 | When every `{` has a later `}`, the format is defined. |
| Format.ScanDefined | tools/utils.h:36-66 | The outer loop is defined when every `{` has a later `}`. |
| Format.BraceDefined | tools/utils.h:41-63 | The brace loop is defined when a `}` follows and every later `{` is closed. |
| Format.HexExample | tools/utils.h:48-52 | `{x}` prints 255 as `ff`. |
| Format.FF | tools/utils.h:48-52 | 255 is `ff` in lower-case hex. |
| Format.NegativeHexExample | tools/utils.h:48-52 | A 4-byte `-1` in hex prints `ffffffff`, the unsigned value of its bytes. |
| Format.Show | tools/utils.h:48-52 | In hex, the digits spell the value modulo 256^size, for a size of 2, 4 or 8 bytes (a 1-byte integer prints as its character, so it is a one-character text). In decimal, they spell the value, with `-` for a negative one. Text is printed as it is. |
| Format.NumeralRoundTrip | tools/utils.h:48-52 | Printed digits read back as the number printed, without leading zeros. |
| Format.Format | tools/utils.h:33-67 | The text format writes. `NoPlaceholderUnchanged` proves a template without an unescaped `{` is written unchanged, and `ClosedDefined` that it is defined whenever every `{` has a later `}`. |
| Format.Scan | tools/utils.h:37-66 | The outer loop. `ScanPlain` proves text without a placeholder is copied and the scan goes on after it, and `ScanDefined` that it is defined on a closed template. |
| Format.Brace | tools/utils.h:41-63 | The inner loop after `{`. `BraceDefined` proves it is defined when a `}` follows, and `FormatStream` and `BraceScan` are proved against it. |
| DarkTanos.Decode | client/eu_darkbot_api_DarkTanos.cpp:152-160 | The message is a 15-bit code, and `wparam`, `x` and `y` are signed 16-bit values. |
| DarkTanos.DecodeEncode | client/eu_darkbot_api_DarkTanos.cpp:153-160 | The code is bits 48-62, `wparam` bits 32-47, `y` bits 16-31 and `x` bits 0-15. Every field survives packing and decoding. |
| DarkTanos.Encode | client/eu_darkbot_api_DarkTanos.cpp:152-160 | A packed action word is a non-negative `jlong`. |
| DarkTanos.SameInt16 | client/eu_darkbot_api_DarkTanos.cpp:155-160 | Values equal modulo 2^16 give the same `short`. |
| DarkTanos.Int16Residue | client/eu_darkbot_api_DarkTanos.cpp:155-160 | Packing a `short` into 16 bits and reading it back gives the `short`. |
| DarkTanos.TopBitIgnored | client/eu_darkbot_api_DarkTanos.cpp:153-154 | Bit 63 is masked off: a negative word decodes like the word without it. |
| DarkTanos.Dispatch | client/eu_darkbot_api_DarkTanos.cpp:165-191 | 0x1FF, 0x200, 0x201 and 0x202 click, move, press and release at `(x, y)`, with button 1 where one is used. 0x20A scrolls by `wparam`. The key codes call ClickKey with `wparam` as unsigned 16-bit. Other codes do nothing. |
| DarkTanos.PostActions | client/eu_darkbot_api_DarkTanos.cpp:124-193 | A null array does nothing. Otherwise the calls are those of the actions that ran before the deadline, in array order. |
| DarkTanos.Calls | client/eu_darkbot_api_DarkTanos.cpp:145-192 | Each action gives at most one client call. |
| DarkTanos.CallsPrefix | client/eu_darkbot_api_DarkTanos.cpp:145-150 | The calls of the prefix that runs before the deadline come first among the calls of the whole array. |
| DarkTanos.CallsOfEncoded | client/eu_darkbot_api_DarkTanos.cpp:145-192 | Words packed from fields make the calls of those fields. |
| DarkTanos.ReadInt | client/eu_darkbot_api_DarkTanos.cpp:195-199 | `readInt` returns the `int` whose 32-bit pattern is the 4 little-endian bytes at the address. |
| DarkTanos.ReadLong | client/eu_darkbot_api_DarkTanos.cpp:201-205 | `readLong` returns the 8 bytes at the address, reinterpreted as `jlong`. |
| DarkTanos.ReplaceInt | client/eu_darkbot_api_DarkTanos.cpp:237-242 | The new `int` is written iff the current `int` equals the old one. Otherwise memory is unchanged. |
| DarkTanos.ReplaceLong | client/eu_darkbot_api_DarkTanos.cpp:244-249 | The new `long` is written iff the current value's bits equal the old one's. Otherwise memory is unchanged. |
| DarkTanos.Replaced | client/eu_darkbot_api_DarkTanos.cpp:240-248 | The compare-and-write changes only the value's bytes, and only when the value equals the expected one. |
| DarkTanos.Int32Compare | client/eu_darkbot_api_DarkTanos.cpp:240 | Comparing the `int` read with `jold` compares their 32-bit patterns. |
| DarkTanos.Int64Residue | client/eu_darkbot_api_DarkTanos.cpp:247 | Two `jlong` values are equal iff their 64-bit patterns are. |
| BotClient.Clamp | client/bot_client.cpp:319-326 | A negative coordinate becomes 0, and one at or beyond a positive size becomes `size - 1`. One inside stays. |
| BotClient.MouseEventContext.Prepare | client/bot_client.cpp:301-333 | This fails iff there is no window. Otherwise it stores both clamped coordinates and the window's root origin. |
| BotClient.MouseEventContext.Common | client/bot_client.cpp:335-348 | `x_root = root_x + local_x` and `y_root = root_y + local_y`. |
| BotClient.ButtonEvents | client/bot_client.cpp:362-378 | The press comes before the release, only the requested ones are sent, and they share one event. |
| BotClient.XServer.Send | client/bot_client.cpp:365-374 | `XSendEvent` succeeds and delivers while the server still accepts events. |
| BotClient.SendMouseButton | client/bot_client.cpp:350-382 | The requested events are delivered until the first failed send. The result is true iff all of them were sent. |
| BotClient.MouseEventContext.constructor | client/bot_client.cpp:301-333 | A fresh context has zero local and root coordinates. |
| BotClient.XServer.constructor | client/bot_client.cpp:365-374 | The server starts with nothing delivered and a number of sends it will accept. |
| BotClient.Accepted | client/bot_client.cpp:365-374 | The events delivered are the first `n` of those sent, or all of them. |
| BotClient.SendMouseMove | client/bot_client.cpp:389-408 | One motion event is sent at the clamped position. |
| BotClient.SendMouseWheel | client/bot_client.cpp:384-387 | A wheel click is a press and a release. |
| BotClient.MouseClick | client/bot_client.cpp:825-830 | A click is a press and release, and succeeds iff both are sent. |
| BotClient.MouseDown | client/bot_client.cpp:839-844 | One press is sent. |
| BotClient.MouseUp | client/bot_client.cpp:846-851 | One release is sent. |
| BotClient.ScrollSteps | client/bot_client.cpp:856 | The step count is 0 iff the delta is 0, and otherwise the absolute delta divided by 120, rounded up. |
| BotClient.ScrollButton | client/bot_client.cpp:857 | The button is 4 iff the delta is at least 0, and 5 otherwise. |
| BotClient.MouseScroll | client/bot_client.cpp:853-867 | One wheel click is sent per step until a send fails. The result is true iff there is a step and every send worked. |
| BotClient.ScrollEvents | client/bot_client.cpp:856-865 | A scroll sends two events, a press and a release, per step. |
| BotClient.AcceptedRepeat | client/bot_client.cpp:858-865 | Up to the first refused send, the scroll loop has delivered whole clicks followed by part of one. |
| BotClient.Trimmed | client/bot_client.cpp:569-572 | The URL loses every trailing `/` and nothing else. |
| BotClient.TrimUrl | client/bot_client.cpp:569-572 | The trimming loop computes `Trimmed`. |
| BotClient.TrimmedUnique | client/bot_client.cpp:569-572 | The trimmed URL is the unique split into a part that does not end in `/` and a run of slashes. |
| BotClient.StripSid | client/bot_client.cpp:574-577 | The session id loses one leading `dosid=`, only when it starts with it. |
| BotClient.LaunchArgv | client/bot_client.cpp:579-589 | The browser gets `--sid`, the stripped id, `--url`, the trimmed URL, `--launch` and three switches. |
| BotClient.CopiedArgs | client/bot_client.cpp:761-765 | `argc` is the smaller of the argument count and 64, and the first `argc` arguments are copied in order. |
| BotClient.CopyKeepsPrefix | client/bot_client.cpp:766-767 | After `strncpy` and the final NUL, the buffer holds the string cut to `size - 1` characters or at its first NUL. |
| BotClient.CLength | client/bot_client.cpp:766-767 | `strlen` is the index of the first NUL, or the whole length when there is none. |
| BotClient.CLengthAt | client/bot_client.cpp:766-767 | The first NUL's index is the C length. |
| BotClient.CopyToBuffer | client/bot_client.cpp:766-767 | The buffer has the fixed size and ends in NUL. |
| BotClient.NotificationMessage | client/bot_client.cpp:757-770 | The count is the smaller of the argument count and 64, the first arguments are copied, and the name is cut to 63 characters and NUL-terminated. |
| BotClient.CallMessage | client/bot_client.cpp:796-807 | The object, the index, the count the smaller of the argument count and 64 and the leading arguments. |
| BotClient.UseItemMessage | client/bot_client.cpp:784-794 | The action type and the bar, and the item name cut to 63 characters and NUL-terminated. |
| BotClient.RefineMessage | client/bot_client.cpp:772-782 | The unsigned ore and amount are stored with their 32-bit patterns. |
| BotClient.SignatureMessage | client/bot_client.cpp:869-884 | The signature is cut to 0xFF characters and NUL-terminated. |
| BotClient.Repeat | client/bot_client.cpp:858-864 | The repetition holds `n` copies, each event at its position modulo the click length. |
| BotClient.EventAt | client/bot_client.cpp:335-346 | The event keeps its kind and button, its position is clamped into the window, and its root position is the window origin plus the local one. |
| KeyHandler.TablesDisjoint | browser/src/key_handler.js:5-96 | The two tables share no code, so the lookup order does not matter. |
| KeyHandler.NamedKeysAreWords | browser/src/key_handler.js:5-96 | A named key resolves to at least two characters, and every other code to one. |
| KeyHandler.OemRange | browser/src/key_handler.js:74-86 | A code gives a punctuation character iff it is in 186-192 or 219-222. |
| KeyHandler.NamedKeyExamples | browser/src/key_handler.js:5-92 | 91 and 92 are both `Meta`, and 13 is `Enter`. |
| KeyHandler.OemKeyExamples | browser/src/key_handler.js:74-93 | 186 is `;`, 222 is `'` and 220 is `\`. |
| KeyHandler.CharCodeExamples | browser/src/key_handler.js:95 | 65 is `A`, and so is 65 + 2^16. |
| KeyHandler.FromCharCode | browser/src/key_handler.js:95 | The character is one UTF-16 unit, equal to the code modulo 2^16. |
| KeyHandler.KeyEvents | browser/src/key_handler.js:106-113 | `keyDown` is sent iff `press` and `keyUp` iff `release`, down first, with the same resolved key. |
| KeyHandler.WebContents.constructor | browser/src/key_handler.js:101-114 | The page starts with the given focus and nothing sent. |
| KeyHandler.WebContents.FocusIfNeeded | browser/src/key_handler.js:102-104 | Afterwards the page is focused, and nothing is sent. |
| KeyHandler.WebContents.SendInputEvent | browser/src/key_handler.js:106-113 | The event is appended to what the page was sent, and focus is unchanged. |
| KeyHandler.TextEvents | browser/src/key_handler.js:145-148 | There is one `char` event per character, in order. |
| KeyHandler.TextEventsAppend | browser/src/key_handler.js:145-148 | Typing two texts in turn sends the events of their concatenation. |
| KeyHandler.WebContents.DispatchKeyEvent | browser/src/key_handler.js:101-114 | The page is focused, and the key events are appended to what it was sent. |
| KeyHandler.WebContents.HandleKeyClick | browser/src/key_handler.js:119-121 | A key down and then a key up. |
| KeyHandler.WebContents.HandleKeyDown | browser/src/key_handler.js:126-128 | A key down only. |
| KeyHandler.WebContents.HandleKeyUp | browser/src/key_handler.js:133-135 | A key up only. |
| KeyHandler.WebContents.HandleText | browser/src/key_handler.js:140-149 | The page is focused, and one `char` event is sent per character in order. |
| KeyHandler.SpecialKey | browser/src/key_handler.js:5-72 | Every named key is at least two characters long. |
| KeyHandler.OemKey | browser/src/key_handler.js:74-86 | Every OEM key is one ASCII character. `OemRange` proves exactly the codes 186-192 and 219-222 have one. |
| KeyHandler.ResolveKey | browser/src/key_handler.js:91-96 | The key is never empty. `TablesDisjoint` proves the two tables share no code, and `NamedKeysAreWords` that only a named key is longer than one code unit. |
| BrowserMain.Split | browser/src/main.js:16 | `split("\|")` gives at least one field, and no field contains `\|`. |
| BrowserMain.JoinSplit | browser/src/main.js:16 | Joining the fields with `\|` gives the message back. |
| BrowserMain.SplitJoin | browser/src/main.js:16 | Fields without `\|`, once joined, split back into themselves. |
| BrowserMain.Route | browser/src/main.js:15-41 | Without a window nothing happens. A first field `refresh` reloads. Any other command needs exactly two fields. |
| BrowserMain.SplitField | browser/src/main.js:16 | Splitting a field without `\|` followed by more text puts that field at the front of the first piece. |
| BrowserMain.RefreshReloads | browser/src/main.js:23-24 | `refresh` reloads, alone or followed by any number of fields. |
| BrowserMain.RouteTwoFields | browser/src/main.js:25-39 | Two fields route on the first one: keyClick, keyDown, keyUp or the failing `text` command. Anything else is ignored. |
| BrowserMain.ThreeFieldsIgnored | browser/src/main.js:25 | A three-field message is ignored unless it starts with `refresh`. |
| BrowserMain.SetSizeText | client/eu_darkbot_api_DarkTanos.cpp:39 | `setSize` sends `setSize\|` and the two sizes in decimal separated by `\|`. |
| BrowserMain.SetSizeIgnored | browser/src/main.js:25-40 | The `setSize` message the client sends is never routed. |
| BrowserMain.DecimalHasNoSeparator | client/eu_darkbot_api_DarkTanos.cpp:39 | A decimal size never contains `\|`, so it stays one field. |
| BrowserMain.PlainPlaceholder | client/eu_darkbot_api_DarkTanos.cpp:39 | A `{}` after plain text prints the argument there and formats the rest with the remaining arguments. |
| BrowserMain.ParseArgv | browser/src/main.js:131-147 | The loop computes `Parsed`. |
| BrowserMain.NoFlagsNoOptions | browser/src/main.js:133-145 | Arguments that are not flags change nothing. |
| BrowserMain.LaunchNeedsFlag | browser/src/main.js:132-143 | `launchGame` stays false unless `--launch` is an argument. |
| BrowserMain.UrlFollowsFlag | browser/src/main.js:135-137 | A URL that is found is the argument right after some `--url`. |
| BrowserMain.ParseConcat | browser/src/main.js:133-145 | Parsing a concatenation parses the first part, then the second with the options found. |
| BrowserMain.ParseShift | browser/src/main.js:133-145 | Parsing after a prefix of arguments is parsing the rest on its own. |
| BrowserMain.UrlFrom | browser/src/main.js:135-137 | Parsing from any point keeps a URL that follows some `--url`. |
| BrowserMain.LaterUrlWins | browser/src/main.js:135-137 | A later `--url` overrides every earlier one. |
| BrowserMain.LaterSidWins | browser/src/main.js:138-140 | A later `--sid` overrides every earlier one. |
| BrowserMain.LaunchArgvParses | client/bot_client.cpp:579-589 | The arguments `LaunchBrowser` passes parse to the trimmed URL, the stripped session id and `launchGame` true. |
| BrowserMain.LoginUrl | browser/src/main.js:105-111 | With a URL and a session id, the page loaded is under that URL. Otherwise it is `https://darkorbit.com`. |
| BrowserMain.GameLoginUrl | browser/src/main.js:105-107 | With `--launch`, the page is the URL plus `/indexInternal.es?action=internalMapRevolution ` (with the trailing space). An empty session id gives the default page. |
| BrowserMain.LaunchedLoginUrl | browser/src/main.js:105-111 | A browser the client starts with a non-empty session id opens the game map under the trimmed URL. |
| BrowserMain.ParseFrom | browser/src/main.js:131-146 | `--launch` once seen stays set, and arguments with no flag among them change nothing. `ParseArgv` is proved against it. |
| BrowserMain.Truthy | browser/src/main.js:105 | JavaScript truthiness of a string that may be `undefined`: defined and non-empty. `LoginUrl` is stated through it. |
| Prelude.ToInt16 | client/eu_darkbot_api_DarkTanos.cpp:155-157 | The result is a signed 16-bit value congruent to the input modulo 2^16. |
| Prelude.ToInt32 | do_lib/avm.cpp:136 | The result is a signed 32-bit value congruent to the input modulo 2^32. |

## Left out

- Concurrency: the mutexes around both caches in do_lib/avm.cpp and around `postActions` are not modelled. The caches are sequential maps.
- Object identity: the caches are keyed by `Traits` and `MethodInfo` references, so distinct but equal objects are distinct entries.
- `AbcEnv::finddef` (do_lib/avm.cpp:15-40) is not modelled. It walks raw VM objects at offsets defined in `avm.h`, which is not part of this model.
- Trait-kind constants. `avm.h` is not part of this model, so the trait-kind values and the metadata bit 0x40 are taken from section 4.8.1 of the AVM2 Overview.
- `MaskedBmh.Defined`: `Bmh` and `Search` require it. With alignment 0 and an all-`?` mask the code computes `i % 0` (tools/masked_bmh.h:25), which is undefined behaviour, so the model says nothing about that call.
- `MaskedBmh.Bmh`: offsets are unbounded. The `size_t` sums `i + nlen` and `i += s` (tools/masked_bmh.h:24,41,49) wrap in the code for a start offset near `SIZE_MAX`, and the model does not follow that wrap.
- `Avm.MakeTrait`: fields that a kind does not set are 0 in the model. In the code they keep the default values of `MyTrait trait;` (do_lib/avm.cpp:230), and `MyTrait` is declared in `avm.h`, which is not part of this model.
- `Avm.ParseTraits`, `Avm.Name`: the stream reads are proved in bounds. The code reads past the block on malformed input, so both methods require the decode to be defined.
- Avm pool: the constant pool is given as two lookup functions, multiname names and method names.
- `/proc` access is left out: `FindProcsByName`, `ProcessExists`, `GetMemoryUsage`, `GetParent`, and the parsing of `/proc/<pid>/stat` and `/proc/self/maps` lines. The region list and the parent map arrive already parsed.
- Raw memory access is left out: `process_vm_readv`, `memcpy` of live regions and `mprotect`. In `ProcUtil.QueryMemory` the reads of another process are given as one optional byte sequence per region. In `Memory` and `MemoryLinux` the process's own memory is a partial map from addresses to bytes. In `DarkTanos` the flash process's memory, which `client.Read` and `client.Write` reach, is such a map too.
- `DarkTanos.ReadInt`, `DarkTanos.ReadLong`, `DarkTanos.ReplaceInt`, `DarkTanos.ReplaceLong`: require the bytes at the address to be readable. What a failed `client.Read<T>` or `client.Write` of the flash process returns or does is defined in `bot_client.h`, which is not part of this model, so an unreadable address is not modelled.
- `ProcUtil.QueryMemory`: the count is unbounded. The code returns the `uint32_t` count as `static_cast<int>` (client/proc_util.cpp:194), which turns negative above 2^31 - 1 hits; the model does not follow that cast.
- `MemoryLinux.QueryMemory`: the failed `buf.resize` is given as a set of page indices. A `std::bad_alloc` is an event outside the model.
- The X11 plumbing is left out: display and window discovery, `execute_mouse_action`, `XGetWindowAttributes`, `XTranslateCoordinates` and `XFlush`. The window is an `Option` carrying its size and root origin.
- fork/exec, `SIGCHLD`, the environment for `LD_PRELOAD`, and `IsValid`/`reset` supervision are left out. Only the argument vector of `execle` is modelled.
- SysV shared memory and semaphores in `SendFlashCommand`, and the Unix-socket client, are left out. The messages are modelled as values, and the replies of `CallMethod` and `CheckMethodSignature` come from the Flash side.
- JNI marshalling and the 5-second clock of `postActions` are left out. The clock is the `expired` parameter: how many actions run before the deadline.
- Floating point and booleans: `readDouble`, `readBoolean`, `replaceDouble` and `writeDouble`, plus `utils::vec2`. `utils::log` writes a file.
- `BotClient.ScrollSteps`: `std::abs(INT_MIN)` and `|delta| + 119` overflow a C `int` near the limits. The model uses unbounded integers.
- `BotClient.MouseEventContext.Common`: the sums `root_x + local_x` are not wrapped to 32 bits.
- `BotClient.Trimmed`: requires a character other than `/`. For an empty or all-slash URL the code reads before the start of the string.
- `BotClient.NotificationMessage`: the `screen_manager` argument is not part of the message the code builds.
- `KeyHandler.ResolveKey`: key codes arrive from the socket as strings. JavaScript's conversion of those strings to numbers is not modelled, and codes are integers.
- `KeyHandler.WebContents.HandleText`: the 10 ms delay between characters and the `await` are not modelled.
- The Electron plumbing is left out: window and splash-screen creation, cookies, `reload`, and the socket server. `Route` returns the action to take.
- `Format.Format`: only integer and string arguments are modelled. Other `operator<<` overloads are not.
- `BrowserMain.LoginUrl`: its own contract states only the URL prefix. `BrowserMain.GameLoginUrl` states the exact page for a launched browser. The `internalStart` page applies when `--launch` is absent.

## Findings

| source | as written | input that shows it | evidently intended | confidence | as-written member | corrected member |
|---|---|---|---|---|---|---|
| tools/masked_bmh.h:34-37 | Only non-`?` positions below the anchor set table entries, so a `?` that could line up with the anchor byte is ignored. | needle `42 00 41` (mask `x?x`) on haystack `42 42 42 41`, start 0, alignment 1: the result is `SIZE_MAX`, yet offset 1 matches. | A `?` position below the anchor limits the shift like a byte equal to the anchor byte would. | not executed | MaskedBmh.WildcardBeforeAnchorSkipsMatch | MaskedBmh.CorrectedBmhComplete |
| tools/masked_bmh.h:33 | The default shift is `nlen - anchor`. It exceeds `anchor + 1` when `?` positions follow the anchor. | needle `41 00 00` (mask `x??`) on haystack `42 41 78 78`, start 0, alignment 1: the result is `SIZE_MAX`, yet offset 1 matches. | The default shift moves the anchor past itself: `anchor + 1`. | not executed | MaskedBmh.TrailingWildcardsSkipMatch | MaskedBmh.CorrectedSearch |
