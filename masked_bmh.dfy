/**
 * The masked Boyer-Moore-Horspool search of tools/masked_bmh.h: a byte pattern whose positions
 * marked `?` in the mask match any byte, searched from a start offset with an alignment
 * constraint. SIZE_MAX ("not found") is `None`.
 */
module MaskedBmh {
  import opened Prelude

  const WILDCARD: char := '?'

  /** The pattern matches the haystack at offset `i`: it fits and every non-wildcard byte agrees. */
  predicate MatchesAt(hay: seq<Byte>, needle: seq<Byte>, mask: string, i: nat)
    requires |needle| == |mask|
  {
    i + |mask| <= |hay| &&
    forall k :: 0 <= k < |mask| ==> mask[k] == WILDCARD || hay[i + k] == needle[k]
  }

  /** An offset allowed by the alignment; 0 and 1 both mean unconstrained. */
  predicate Aligned(i: nat, alignment: nat)
  {
    alignment <= 1 || i % alignment == 0
  }

  /** No aligned offset in [lo, hi) is a match. */
  predicate NoMatchIn(hay: seq<Byte>, needle: seq<Byte>, mask: string, alignment: nat, lo: nat, hi: nat)
    requires |needle| == |mask|
  {
    forall j: nat :: lo <= j < hi && Aligned(j, alignment) ==> !MatchesAt(hay, needle, mask, j)
  }

  /** `r` is the least aligned match at or after `start`, or `None` when there is none. */
  predicate IsFirstMatch(hay: seq<Byte>, needle: seq<Byte>, mask: string, start: nat, alignment: nat, r: Option<nat>)
    requires |needle| == |mask|
  {
    match r
    case Some(i) =>
      start <= i && Aligned(i, alignment) && MatchesAt(hay, needle, mask, i) &&
      NoMatchIn(hay, needle, mask, alignment, start, i)
    case None => NoMatchIn(hay, needle, mask, alignment, start, |hay| + 1)
  }

  predicate WildcardFree(mask: string)
  {
    forall k :: 0 <= k < |mask| ==> mask[k] != WILDCARD
  }

  /**
   * The inputs for which the search is defined: with an all-wildcard mask the code computes
   * `i % alignment`, which divides by zero when `alignment` is 0.
   */
  predicate Defined(hay: seq<Byte>, mask: string, alignment: nat)
  {
    alignment > 0 || |mask| == 0 || |hay| < |mask| || !forall k :: 0 <= k < |mask| ==> mask[k] == WILDCARD
  }

  /** The right-most non-wildcard position below `n` (the anchor), if any. */
  function Anchor(mask: string, n: nat): (r: Option<nat>)
    requires n <= |mask|
    ensures r.Some? ==> r.value < n && mask[r.value] != WILDCARD &&
                        forall k :: r.value < k < n ==> mask[k] == WILDCARD
    ensures r.None? ==> forall k :: 0 <= k < n ==> mask[k] == WILDCARD
  {
    if n == 0 then None
    else if mask[n - 1] != WILDCARD then Some(n - 1)
    else Anchor(mask, n - 1)
  }

  /** The right-most non-wildcard position below `j` whose needle byte is `c`. */
  function LastOccurrence(needle: seq<Byte>, mask: string, c: int, j: nat): (r: Option<nat>)
    requires |needle| == |mask| && j <= |mask|
    ensures r.Some? ==> r.value < j && mask[r.value] != WILDCARD && needle[r.value] == c
    ensures forall k :: (if r.Some? then r.value else -1) < k < j ==>
              mask[k] == WILDCARD || needle[k] != c
  {
    if j == 0 then None
    else if mask[j - 1] != WILDCARD && needle[j - 1] == c then Some(j - 1)
    else LastOccurrence(needle, mask, c, j - 1)
  }

  /**
   * shift[c] once the table loop has run over the positions below `j`: the fill value
   * `nlen - anchor`, overwritten by `anchor - p` for each non-wildcard p < j holding byte c.
   */
  function ShiftAfter(needle: seq<Byte>, mask: string, anchor: nat, j: nat, c: int): (s: nat)
    requires |needle| == |mask| && anchor < |mask| && j <= anchor
    ensures s >= 1
  {
    match LastOccurrence(needle, mask, c, j)
    case Some(p) => anchor - p
    case None => |mask| - anchor
  }

  /** The completed shift table of tools/masked_bmh.h:31-38. */
  function ShiftTable(needle: seq<Byte>, mask: string, anchor: nat): (t: seq<nat>)
    requires |needle| == |mask| && anchor < |mask|
    ensures |t| == 256
  {
    seq(256, c requires 0 <= c < 256 => ShiftAfter(needle, mask, anchor, anchor, c))
  }

  /** The step taken from a table entry: a zero shift is forced to 1. */
  function Step(s: nat): (r: nat)
    ensures r >= 1 && (s > 0 ==> r == s)
  {
    if s == 0 then 1 else s
  }

  /** The main loop from offset `i`, for any 256-entry shift table. */
  function Scan(hay: seq<Byte>, needle: seq<Byte>, mask: string, anchor: nat, shift: seq<nat>,
                alignment: nat, i: nat): Option<nat>
    requires |needle| == |mask| && anchor < |mask| && |shift| == 256
    decreases |hay| - i
  {
    if i + |mask| > |hay| then None
    else if alignment > 1 && i % alignment != 0 then
      Scan(hay, needle, mask, anchor, shift, alignment, i + (alignment - i % alignment))
    else if hay[i + anchor] != needle[anchor] then
      Scan(hay, needle, mask, anchor, shift, alignment, i + Step(shift[hay[i + anchor]]))
    else if MatchesAt(hay, needle, mask, i) then Some(i)
    else Scan(hay, needle, mask, anchor, shift, alignment, i + Step(shift[hay[i + anchor]]))
  }

  /** The all-wildcard loop: the first aligned `i` from which a pattern of length `n` fits. */
  function FirstAligned(i: nat, alignment: nat, n: nat, len: nat): Option<nat>
    requires alignment > 0
    decreases len - i
  {
    if i + n > len then None
    else if alignment == 1 || i % alignment == 0 then Some(i)
    else FirstAligned(i + 1, alignment, n, len)
  }

  /** What masked_bmh_search returns, as a function of its inputs. */
  function Bmh(hay: seq<Byte>, needle: seq<Byte>, mask: string, start: nat, alignment: nat): Option<nat>
    requires |needle| == |mask| && Defined(hay, mask, alignment)
  {
    if |mask| == 0 || |hay| < |mask| then None
    else match Anchor(mask, |mask|)
      case None => FirstAligned(start, alignment, |mask|, |hay|)
      case Some(a) => Scan(hay, needle, mask, a, ShiftTable(needle, mask, a), alignment, start)
  }

  /** masked_bmh_search: anchor selection, the all-wildcard path, the shift table and the main loop. */
  method Search(hay: seq<Byte>, needle: seq<Byte>, mask: string, start: nat, alignment: nat)
    returns (r: Option<nat>)
    requires |needle| == |mask| && Defined(hay, mask, alignment)
    ensures r == Bmh(hay, needle, mask, start, alignment)
    ensures |mask| == 0 || |hay| < |mask| ==> r == None
    ensures r.Some? ==> start <= r.value && Aligned(r.value, alignment) && MatchesAt(hay, needle, mask, r.value)
  {
    BmhSound(hay, needle, mask, start, alignment);
    var nlen := |mask|;
    if nlen == 0 || |hay| < nlen {
      return None;
    }

    var anchor := FindAnchor(mask);
    if anchor < 0 {
      r := FirstFit(start, alignment, nlen, |hay|);
      return;
    }

    var shift := BuildShiftTable(needle, mask, anchor);
    r := MainLoop(hay, needle, mask, anchor, shift, alignment, start);
  }

  /** The main loop: alignment skip, anchor test, full verification, and the table shift. */
  method MainLoop(hay: seq<Byte>, needle: seq<Byte>, mask: string, anchor: nat, shift: array<nat>,
                  alignment: nat, start: nat) returns (r: Option<nat>)
    requires |needle| == |mask| && anchor < |mask| && shift.Length == 256
    ensures r == Scan(hay, needle, mask, anchor, shift[..], alignment, start)
  {
    var nlen := |mask|;
    var i := start;
    while i + nlen <= |hay|
      invariant Scan(hay, needle, mask, anchor, shift[..], alignment, i) ==
                Scan(hay, needle, mask, anchor, shift[..], alignment, start)
      decreases |hay| - i
    {
      if alignment > 1 && i % alignment != 0 {
        i := i + (alignment - i % alignment);
        continue;
      }
      if hay[i + anchor] != needle[anchor] {
        var next := hay[i + anchor];
        var s := shift[next];
        if s == 0 {
          s := 1;
        }
        i := i + s;
        continue;
      }
      var ok := VerifyAt(hay, needle, mask, i);
      if ok {
        return Some(i);
      }
      var next := hay[i + anchor];
      var s := shift[next];
      if s == 0 {
        s := 1;
      }
      i := i + s;
    }
    return None;
  }

  /** The anchor loop: the right-most non-wildcard position, or -1 for an all-wildcard mask. */
  method FindAnchor(mask: string) returns (anchor: int)
    requires |mask| > 0
    ensures anchor < 0 ==> Anchor(mask, |mask|) == None
    ensures anchor >= 0 ==> Anchor(mask, |mask|) == Some(anchor)
  {
    anchor := -1;
    var k := |mask| - 1;
    while k >= 0
      invariant -1 <= k < |mask|
      invariant Anchor(mask, k + 1) == Anchor(mask, |mask|)
      decreases k + 1
    {
      if mask[k] != WILDCARD {
        anchor := k;
        break;
      }
      k := k - 1;
    }
  }

  /** The all-wildcard loop: the first offset from `start` that is aligned and leaves room for `n` bytes. */
  method FirstFit(start: nat, alignment: nat, n: nat, len: nat) returns (r: Option<nat>)
    requires alignment > 0
    ensures r == FirstAligned(start, alignment, n, len)
  {
    var i := start;
    while i + n <= len
      invariant FirstAligned(i, alignment, n, len) == FirstAligned(start, alignment, n, len)
      decreases len - i
    {
      if alignment == 1 || i % alignment == 0 {
        return Some(i);
      }
      i := i + 1;
    }
    return None;
  }

  /** The shift table: filled with `nlen - anchor`, then overwritten left to right below the anchor. */
  method BuildShiftTable(needle: seq<Byte>, mask: string, anchor: nat) returns (shift: array<nat>)
    requires |needle| == |mask| && anchor < |mask|
    ensures fresh(shift) && shift[..] == ShiftTable(needle, mask, anchor)
  {
    shift := new nat[256](_ => |mask| - anchor);
    var j := 0;
    while j < anchor
      invariant 0 <= j <= anchor
      invariant forall c :: 0 <= c < 256 ==> shift[c] == ShiftAfter(needle, mask, anchor, j, c)
    {
      if mask[j] != WILDCARD {
        shift[needle[j]] := anchor - j;
      }
      j := j + 1;
    }
    assert shift[..] == ShiftTable(needle, mask, anchor);
  }

  /** The verify loop: every non-wildcard byte of the pattern agrees with the haystack at `i`. */
  method VerifyAt(hay: seq<Byte>, needle: seq<Byte>, mask: string, i: nat) returns (ok: bool)
    requires |needle| == |mask| && i + |mask| <= |hay|
    ensures ok == MatchesAt(hay, needle, mask, i)
  {
    ok := true;
    var k := 0;
    while k < |mask|
      invariant 0 <= k <= |mask|
      invariant forall q :: 0 <= q < k ==> mask[q] == WILDCARD || hay[i + q] == needle[q]
    {
      if mask[k] == WILDCARD {
        k := k + 1;
        continue;
      }
      if hay[i + k] != needle[k] {
        ok := false;
        break;
      }
      k := k + 1;
    }
  }

  // ---------------------------------------------------------------------------------------------
  // Soundness and alignment

  lemma {:induction false} ScanSound(hay: seq<Byte>, needle: seq<Byte>, mask: string, anchor: nat,
                                     shift: seq<nat>, alignment: nat, i: nat)
    requires |needle| == |mask| && anchor < |mask| && |shift| == 256
    ensures var r := Scan(hay, needle, mask, anchor, shift, alignment, i);
            r.Some? ==> i <= r.value && Aligned(r.value, alignment) && MatchesAt(hay, needle, mask, r.value)
    decreases |hay| - i
  {
    if i + |mask| > |hay| {
    } else if alignment > 1 && i % alignment != 0 {
      ScanSound(hay, needle, mask, anchor, shift, alignment, i + (alignment - i % alignment));
    } else if hay[i + anchor] != needle[anchor] || !MatchesAt(hay, needle, mask, i) {
      ScanSound(hay, needle, mask, anchor, shift, alignment, i + Step(shift[hay[i + anchor]]));
    }
  }

  lemma {:induction false} FirstAlignedIsFirst(i: nat, alignment: nat, n: nat, len: nat)
    requires alignment > 0
    ensures var r := FirstAligned(i, alignment, n, len);
            match r
            case Some(p) => i <= p && p + n <= len && Aligned(p, alignment) &&
                            forall q: nat :: i <= q < p ==> !Aligned(q, alignment)
            case None => forall q: nat :: i <= q && q + n <= len ==> !Aligned(q, alignment)
    decreases len - i
  {
    if i + n > len {
    } else if alignment == 1 || i % alignment == 0 {
    } else {
      FirstAlignedIsFirst(i + 1, alignment, n, len);
    }
  }

  /** Soundness: a returned offset is at or after `start`, aligned, and a masked match that fits. */
  lemma {:induction false} BmhSound(hay: seq<Byte>, needle: seq<Byte>, mask: string, start: nat, alignment: nat)
    requires |needle| == |mask| && Defined(hay, mask, alignment)
    ensures var r := Bmh(hay, needle, mask, start, alignment);
            r.Some? ==> start <= r.value && r.value + |mask| <= |hay| && Aligned(r.value, alignment) &&
                        MatchesAt(hay, needle, mask, r.value)
  {
    if |mask| == 0 || |hay| < |mask| {
    } else {
      match Anchor(mask, |mask|)
      case None =>
        FirstAlignedIsFirst(start, alignment, |mask|, |hay|);
      case Some(a) =>
        ScanSound(hay, needle, mask, a, ShiftTable(needle, mask, a), alignment, start);
    }
  }

  // ---------------------------------------------------------------------------------------------
  // Completeness for shift tables that never skip a possible match

  /**
   * A table is safe when, after a miss whose anchor byte is `c`, every offset it skips would put
   * a non-wildcard needle byte different from `c` over that haystack byte.
   */
  ghost predicate SafeTable(needle: seq<Byte>, mask: string, anchor: nat, shift: seq<nat>)
    requires |needle| == |mask| && anchor < |mask| && |shift| == 256
  {
    forall c :: 0 <= c < 256 ==>
      shift[c] <= anchor + 1 &&
      forall p :: anchor - shift[c] < p < anchor ==> mask[p] != WILDCARD && needle[p] != c
  }

  /** Jumping to the next multiple of `alignment` passes over misaligned offsets only. */
  lemma {:induction false} NextMultiple(i: nat, alignment: nat)
    requires alignment > 1 && i % alignment != 0
    ensures var next := i + (alignment - i % alignment);
            next > i && next % alignment == 0 &&
            forall q: nat :: i <= q < next ==> q % alignment != 0
  {
    var next := i + (alignment - i % alignment);
    var d := i / alignment;
    assert i == alignment * d + i % alignment;
    assert next == alignment * (d + 1);
    DivModUnique(next, alignment, d + 1, 0);
    forall q: nat | i <= q < next
      ensures q % alignment != 0
    {
      DivModUnique(q, alignment, d, q - alignment * d);
    }
  }

  /** One shift step from an aligned offset `i` that is not a match skips no match. */
  lemma {:induction false} SafeStep(hay: seq<Byte>, needle: seq<Byte>, mask: string, anchor: nat, shift: seq<nat>, i: nat)
    requires |needle| == |mask| && anchor < |mask| && |shift| == 256
    requires SafeTable(needle, mask, anchor, shift)
    requires i + |mask| <= |hay|
    ensures forall q: nat :: i < q < i + Step(shift[hay[i + anchor]]) ==> !MatchesAt(hay, needle, mask, q)
  {
    var c := hay[i + anchor];
    forall q: nat | i < q < i + Step(shift[c])
      ensures !MatchesAt(hay, needle, mask, q)
    {
      var d := q - i;
      assert d < shift[c];
      var p := anchor - d;
      assert anchor - shift[c] < p < anchor;
      assert mask[p] != WILDCARD && needle[p] != c;
      assert q + p == i + anchor;
    }
  }

  lemma {:induction false} ScanComplete(hay: seq<Byte>, needle: seq<Byte>, mask: string, anchor: nat,
                                        shift: seq<nat>, alignment: nat, start: nat, i: nat)
    requires |needle| == |mask| && anchor < |mask| && |shift| == 256
    requires mask[anchor] != WILDCARD
    requires SafeTable(needle, mask, anchor, shift)
    requires start <= i && NoMatchIn(hay, needle, mask, alignment, start, i)
    ensures IsFirstMatch(hay, needle, mask, start, alignment, Scan(hay, needle, mask, anchor, shift, alignment, i))
    decreases |hay| - i
  {
    if i + |mask| > |hay| {
      assert forall q: nat :: q >= i ==> !MatchesAt(hay, needle, mask, q);
    } else if alignment > 1 && i % alignment != 0 {
      var next := i + (alignment - i % alignment);
      NextMultiple(i, alignment);
      ScanComplete(hay, needle, mask, anchor, shift, alignment, start, next);
    } else {
      var next := i + Step(shift[hay[i + anchor]]);
      SafeStep(hay, needle, mask, anchor, shift, i);
      if hay[i + anchor] != needle[anchor] {
        assert !MatchesAt(hay, needle, mask, i);
        ScanComplete(hay, needle, mask, anchor, shift, alignment, start, next);
      } else if !MatchesAt(hay, needle, mask, i) {
        ScanComplete(hay, needle, mask, anchor, shift, alignment, start, next);
      }
    }
  }

  /**
   * The table as written is safe when no wildcard lies before the anchor and the default shift
   * `nlen - anchor` does not exceed `anchor + 1`; in particular for every wildcard-free mask.
   */
  lemma {:induction false} ShiftTableSafe(needle: seq<Byte>, mask: string, anchor: nat)
    requires |needle| == |mask| && anchor < |mask|
    requires forall k :: 0 <= k < anchor ==> mask[k] != WILDCARD
    requires |mask| - anchor <= anchor + 1
    ensures SafeTable(needle, mask, anchor, ShiftTable(needle, mask, anchor))
  {
  }

  /** Completeness for a mask with no `?`: the search returns the least aligned match from `start`. */
  lemma {:induction false} BmhCompleteWhenWildcardFree(hay: seq<Byte>, needle: seq<Byte>, mask: string, start: nat, alignment: nat)
    requires |needle| == |mask| && |mask| > 0 && WildcardFree(mask)
    ensures Defined(hay, mask, alignment)
    ensures IsFirstMatch(hay, needle, mask, start, alignment, Bmh(hay, needle, mask, start, alignment))
  {
    if |hay| < |mask| {
      assert forall q: nat :: !MatchesAt(hay, needle, mask, q);
    } else {
      var a := |mask| - 1;
      assert Anchor(mask, |mask|) == Some(a);
      ShiftTableSafe(needle, mask, a);
      ScanComplete(hay, needle, mask, a, ShiftTable(needle, mask, a), alignment, start, start);
    }
  }

  /** An all-wildcard mask matches wherever it fits, so the result is the first aligned fitting offset. */
  lemma {:induction false} BmhAllWildcard(hay: seq<Byte>, needle: seq<Byte>, mask: string, start: nat, alignment: nat)
    requires |needle| == |mask| && alignment > 0
    requires forall k :: 0 <= k < |mask| ==> mask[k] == WILDCARD
    ensures forall q: nat :: MatchesAt(hay, needle, mask, q) <==> q + |mask| <= |hay|
    ensures |mask| > 0 ==>
      IsFirstMatch(hay, needle, mask, start, alignment, Bmh(hay, needle, mask, start, alignment))
  {
    if |mask| > 0 && |hay| >= |mask| {
      FirstAlignedIsFirst(start, alignment, |mask|, |hay|);
    }
  }

  // ---------------------------------------------------------------------------------------------
  // With wildcards the table as written can skip matches

  /**
   * A wildcard before the anchor: needle `B ? A` on `B B B A`. The anchor byte at offset 0 is `B`,
   * whose shift 2 jumps over offset 1, which matches.
   */
  lemma {:induction false} WildcardBeforeAnchorSkipsMatch()
    ensures var hay: seq<Byte> := [0x42, 0x42, 0x42, 0x41];
            var needle: seq<Byte> := [0x42, 0x00, 0x41];
            MatchesAt(hay, needle, "x?x", 1) && Bmh(hay, needle, "x?x", 0, 1) == None
  {
    var hay: seq<Byte> := [0x42, 0x42, 0x42, 0x41];
    var needle: seq<Byte> := [0x42, 0x00, 0x41];
    var mask := "x?x";
    assert Anchor(mask, 3) == Some(2);
    var t := ShiftTable(needle, mask, 2);
    BeforeAnchorShift(needle, mask);
    BeforeAnchorScan(hay, needle, mask, t);
    assert Bmh(hay, needle, mask, 0, 1) == Scan(hay, needle, mask, 2, t, 1, 0);
    BeforeAnchorMatch(hay, needle, mask);
  }

  lemma {:induction false} BeforeAnchorMatch(hay: seq<Byte>, needle: seq<Byte>, mask: string)
    requires hay == [0x42, 0x42, 0x42, 0x41] && needle == [0x42, 0x00, 0x41] && mask == "x?x"
    ensures MatchesAt(hay, needle, mask, 1)
  {
    assert hay[1] == needle[0] && mask[1] == WILDCARD && hay[3] == needle[2];
  }

  lemma {:induction false} BeforeAnchorShift(needle: seq<Byte>, mask: string)
    requires needle == [0x42, 0x00, 0x41] && mask == "x?x"
    ensures ShiftTable(needle, mask, 2)[0x42] == 2
  {
    assert LastOccurrence(needle, mask, 0x42, 1) == Some(0);
    assert LastOccurrence(needle, mask, 0x42, 2) == Some(0);
  }

  lemma {:induction false} BeforeAnchorScan(hay: seq<Byte>, needle: seq<Byte>, mask: string, t: seq<nat>)
    requires hay == [0x42, 0x42, 0x42, 0x41] && needle == [0x42, 0x00, 0x41] && mask == "x?x"
    requires |t| == 256 && t[0x42] == 2
    ensures Scan(hay, needle, mask, 2, t, 1, 0) == None
  {
    assert Scan(hay, needle, mask, 2, t, 1, 2) == None;
  }

  /**
   * Wildcards after the anchor: needle `A ? ?` on `B A x x`. The default shift `nlen - anchor` is 3,
   * larger than `anchor + 1`, and jumps over offset 1, which matches.
   */
  lemma {:induction false} TrailingWildcardsSkipMatch()
    ensures var hay: seq<Byte> := [0x42, 0x41, 0x78, 0x78];
            var needle: seq<Byte> := [0x41, 0x00, 0x00];
            MatchesAt(hay, needle, "x??", 1) && Bmh(hay, needle, "x??", 0, 1) == None
  {
    var hay: seq<Byte> := [0x42, 0x41, 0x78, 0x78];
    var needle: seq<Byte> := [0x41, 0x00, 0x00];
    var t := ShiftTable(needle, "x??", 0);
    assert Anchor("x??", 3) == Some(0);
    assert t[0x42] == 3;
    assert Scan(hay, needle, "x??", 0, t, 1, 3) == None;
  }

  // ---------------------------------------------------------------------------------------------
  // The corrected table

  /** The right-most position below `j` that is a wildcard or holds byte `c`. */
  function LastBlocker(needle: seq<Byte>, mask: string, c: int, j: nat): (r: Option<nat>)
    requires |needle| == |mask| && j <= |mask|
    ensures r.Some? ==> r.value < j
    ensures forall k :: (if r.Some? then r.value else -1) < k < j ==>
              mask[k] != WILDCARD && needle[k] != c
  {
    if j == 0 then None
    else if mask[j - 1] == WILDCARD || needle[j - 1] == c then Some(j - 1)
    else LastBlocker(needle, mask, c, j - 1)
  }

  /**
   * The evidently intended table: shift the anchor past the last position that could line up
   * with the anchor byte, counting wildcards as able to; the default is `anchor + 1`.
   */
  function CorrectedTable(needle: seq<Byte>, mask: string, anchor: nat): (t: seq<nat>)
    requires |needle| == |mask| && anchor < |mask|
    ensures |t| == 256
  {
    seq(256, c requires 0 <= c < 256 => BlockerShift(needle, mask, anchor, anchor, c))
  }

  /** Entry `c` of the corrected table once positions below `j` have been considered. */
  function BlockerShift(needle: seq<Byte>, mask: string, anchor: nat, j: nat, c: int): (s: nat)
    requires |needle| == |mask| && j <= anchor < |mask|
  {
    match LastBlocker(needle, mask, c, j)
    case Some(p) => anchor - p
    case None => anchor + 1
  }

  /** The search with the corrected table (same anchor, same all-wildcard path and main loop). */
  function CorrectedBmh(hay: seq<Byte>, needle: seq<Byte>, mask: string, start: nat, alignment: nat): Option<nat>
    requires |needle| == |mask| && Defined(hay, mask, alignment)
  {
    if |mask| == 0 || |hay| < |mask| then None
    else match Anchor(mask, |mask|)
      case None => FirstAligned(start, alignment, |mask|, |hay|)
      case Some(a) => Scan(hay, needle, mask, a, CorrectedTable(needle, mask, a), alignment, start)
  }

  /**
   * The search with the corrected table, in the same shape as `Search`: it returns the least
   * aligned match at or after `start`, whatever the mask.
   */
  method CorrectedSearch(hay: seq<Byte>, needle: seq<Byte>, mask: string, start: nat, alignment: nat)
    returns (r: Option<nat>)
    requires |needle| == |mask| && Defined(hay, mask, alignment)
    ensures r == CorrectedBmh(hay, needle, mask, start, alignment)
    ensures |mask| == 0 ==> r == None
    ensures |mask| > 0 ==> IsFirstMatch(hay, needle, mask, start, alignment, r)
  {
    if |mask| > 0 {
      CorrectedBmhComplete(hay, needle, mask, start, alignment);
    }
    var nlen := |mask|;
    if nlen == 0 || |hay| < nlen {
      return None;
    }
    var anchor := FindAnchor(mask);
    if anchor < 0 {
      r := FirstFit(start, alignment, nlen, |hay|);
      return;
    }
    var shift := BuildCorrectedTable(needle, mask, anchor);
    r := MainLoop(hay, needle, mask, anchor, shift, alignment, start);
  }

  /**
   * The corrected table loop: filled with `anchor + 1`, then left to right below the anchor a
   * wildcard at `j` sets every entry to `anchor - j` and a byte sets its own entry.
   */
  method BuildCorrectedTable(needle: seq<Byte>, mask: string, anchor: nat) returns (shift: array<nat>)
    requires |needle| == |mask| && anchor < |mask|
    ensures fresh(shift) && shift[..] == CorrectedTable(needle, mask, anchor)
  {
    shift := new nat[256](_ => anchor + 1);
    var j := 0;
    while j < anchor
      invariant 0 <= j <= anchor
      invariant forall c :: 0 <= c < 256 ==> shift[c] == BlockerShift(needle, mask, anchor, j, c)
    {
      if mask[j] == WILDCARD {
        FillTable(shift, anchor - j);
      } else {
        shift[needle[j]] := anchor - j;
      }
      j := j + 1;
    }
    assert shift[..] == CorrectedTable(needle, mask, anchor);
  }

  /** Every entry of the table set to `v`. */
  method FillTable(shift: array<nat>, v: nat)
    modifies shift
    ensures forall c :: 0 <= c < shift.Length ==> shift[c] == v
  {
    var c := 0;
    while c < shift.Length
      invariant 0 <= c <= shift.Length
      invariant forall d :: 0 <= d < c ==> shift[d] == v
    {
      shift[c] := v;
      c := c + 1;
    }
  }

  /** With the corrected table the search returns the least aligned match for every mask. */
  lemma {:induction false} CorrectedBmhComplete(hay: seq<Byte>, needle: seq<Byte>, mask: string, start: nat, alignment: nat)
    requires |needle| == |mask| && |mask| > 0 && Defined(hay, mask, alignment)
    ensures IsFirstMatch(hay, needle, mask, start, alignment, CorrectedBmh(hay, needle, mask, start, alignment))
  {
    if |hay| < |mask| {
      assert forall q: nat :: !MatchesAt(hay, needle, mask, q);
    } else {
      match Anchor(mask, |mask|)
      case None =>
        BmhAllWildcard(hay, needle, mask, start, alignment);
      case Some(a) =>
        ScanComplete(hay, needle, mask, a, CorrectedTable(needle, mask, a), alignment, start, start);
    }
  }

  /** For a wildcard-free mask the search as written and the corrected one agree. */
  lemma {:induction false} CorrectedAgreesWhenWildcardFree(hay: seq<Byte>, needle: seq<Byte>, mask: string, start: nat, alignment: nat)
    requires |needle| == |mask| && |mask| > 0 && WildcardFree(mask)
    ensures Defined(hay, mask, alignment)
    ensures Bmh(hay, needle, mask, start, alignment) == CorrectedBmh(hay, needle, mask, start, alignment)
  {
    BmhCompleteWhenWildcardFree(hay, needle, mask, start, alignment);
    CorrectedBmhComplete(hay, needle, mask, start, alignment);
    FirstMatchUnique(hay, needle, mask, start, alignment,
      Bmh(hay, needle, mask, start, alignment), CorrectedBmh(hay, needle, mask, start, alignment));
  }

  lemma {:induction false} FirstMatchUnique(hay: seq<Byte>, needle: seq<Byte>, mask: string, start: nat, alignment: nat,
                         r1: Option<nat>, r2: Option<nat>)
    requires |needle| == |mask|
    requires IsFirstMatch(hay, needle, mask, start, alignment, r1)
    requires IsFirstMatch(hay, needle, mask, start, alignment, r2)
    ensures r1 == r2
  {
    if r1.Some? && r2.Some? {
      assert !(r1.value < r2.value) && !(r2.value < r1.value);
    }
  }
}
