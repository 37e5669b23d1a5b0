/**
 * The scanners of client/proc_util.cpp: QueryMemory collects up to `amount` masked hits over the
 * memory regions of another process, FindPattern turns a pattern string into the first hit, and
 * IsChildOf walks the parent chain at most 128 steps. The region list, the cross-process reads
 * and the `/proc/<pid>/stat` parent lookups are parameters.
 */
module ProcUtil {
  import opened Prelude
  import opened MaskedBmh
  import opened Patterns

  /** The part of a ProcUtil::MemPage that QueryMemory reads: the region [start, end). */
  datatype Region = Region(start: nat, end: nat)

  /**
   * The regions as /proc/<pid>/maps lists them (end never before start), and for each what
   * ReadMemoryBytes would give: `None` for an error return, else the bytes actually read, at
   * most the region's size of them.
   */
  predicate ReadsFit(regions: seq<Region>, readings: seq<Option<seq<Byte>>>)
  {
    |readings| == |regions| &&
    forall k :: 0 <= k < |regions| ==>
      regions[k].start <= regions[k].end &&
      (readings[k].Some? ==> |readings[k].value| <= regions[k].end - regions[k].start)
  }

  // ---------------------------------------------------------------------------------------------
  // The reference: what the two loops of QueryMemory collect
  // ---------------------------------------------------------------------------------------------

  /**
   * The inner loop over one buffer read from address `base`, from `offset` on, with `budget` hits
   * still wanted: the hits are `base` plus masked_bmh_search results. This is the exit test
   * `offset + query_size > readable`, which at offset 0 is also the `bytes_read < query_size` skip.
   */
  function RegionHits(buf: seq<Byte>, needle: seq<Byte>, mask: string, base: nat, offset: nat, budget: nat): (r: seq<nat>)
    requires |needle| == |mask| && |mask| > 0
    ensures |r| <= budget
    decreases |buf| - offset, 2
  {
    if offset + |mask| > |buf| then [] else HitsWithin(buf, needle, mask, base, offset, budget)
  }

  /** The `while (finds != amount)` test: nothing more once the budget is spent. */
  function HitsWithin(buf: seq<Byte>, needle: seq<Byte>, mask: string, base: nat, offset: nat, budget: nat): (r: seq<nat>)
    requires |needle| == |mask| && |mask| > 0 && offset + |mask| <= |buf|
    ensures |r| <= budget
    decreases |buf| - offset, 1
  {
    if budget == 0 then [] else SearchHits(buf, needle, mask, base, offset, budget)
  }

  /** One search: no hit ends the loop, a hit is recorded and the loop restarts one past it. */
  function SearchHits(buf: seq<Byte>, needle: seq<Byte>, mask: string, base: nat, offset: nat, budget: nat): (r: seq<nat>)
    requires |needle| == |mask| && |mask| > 0 && offset + |mask| <= |buf| && budget > 0
    ensures |r| <= budget
    decreases |buf| - offset, 0
  {
    BmhSound(buf, needle, mask, offset, 1);
    match Bmh(buf, needle, mask, offset, 1)
    case None => []
    case Some(f) => [base + f] + RegionHits(buf, needle, mask, base, f + 1, budget - 1)
  }

  /** What one region contributes: nothing when it is smaller than the query or its read fails. */
  function RegionPart(r: Region, read: Option<seq<Byte>>, needle: seq<Byte>, mask: string, budget: nat): (hits: seq<nat>)
    requires |needle| == |mask| && |mask| > 0 && r.start <= r.end
    ensures |hits| <= budget
  {
    if |mask| > r.end - r.start then []
    else match read
      case None => []
      case Some(buf) => RegionHits(buf, needle, mask, r.start, 0, budget)
  }

  /** The outer loop over the regions from index `k`, in list order, until `budget` hits are collected. */
  function Collect(regions: seq<Region>, readings: seq<Option<seq<Byte>>>, k: nat, needle: seq<Byte>, mask: string,
                   budget: nat): (hits: seq<nat>)
    requires ReadsFit(regions, readings) && k <= |regions| && |needle| == |mask| && |mask| > 0
    ensures |hits| <= budget
    decreases |regions| - k
  {
    if k == |regions| || budget == 0 then []
    else
      var here := RegionPart(regions[k], readings[k], needle, mask, budget);
      here + Collect(regions, readings, k + 1, needle, mask, budget - |here|)
  }

  // ---------------------------------------------------------------------------------------------
  // QueryMemory
  // ---------------------------------------------------------------------------------------------

  /** The guards that make QueryMemory return 0 before scanning. */
  predicate Rejected(query: Option<seq<Byte>>, mask: Option<string>, out: array?<nat>, amount: nat)
  {
    query.None? || mask.None? || out == null || amount == 0 || mask.value == []
  }

  /**
   * QueryMemory: `query`, `mask` and `out` may be null; the query length is the mask's length.
   * The hits go to out[0..count] in the order `Collect` lists them; nothing else in `out` changes.
   */
  method QueryMemory(query: Option<seq<Byte>>, mask: Option<string>, out: array?<nat>, amount: nat,
                     regions: seq<Region>, readings: seq<Option<seq<Byte>>>) returns (count: nat)
    requires ReadsFit(regions, readings)
    requires query.Some? && mask.Some? ==> |mask.value| <= |query.value|
    requires out != null ==> amount <= out.Length
    modifies out
    ensures Rejected(query, mask, out, amount) ==> count == 0 && (out != null ==> out[..] == old(out[..]))
    ensures !Rejected(query, mask, out, amount) ==>
              var hits := Collect(regions, readings, 0, query.value[..|mask.value|], mask.value, amount);
              count == |hits| && out[..count] == hits && out[count..] == old(out[count..])
  {
    if query.None? || mask.None? || out == null || amount == 0 {
      return 0;
    }
    var m := mask.value;
    var querySize := |m|;
    if querySize == 0 {
      return 0;
    }
    var needle := query.value[..querySize];
    count := ScanRegions(regions, readings, needle, m, out, amount);
  }

  /** The outer loop of QueryMemory over the regions, in list order, until `amount` hits are found. */
  method ScanRegions(regions: seq<Region>, readings: seq<Option<seq<Byte>>>, needle: seq<Byte>, m: string,
                     out: array<nat>, amount: nat) returns (count: nat)
    requires ReadsFit(regions, readings) && |needle| == |m| && |m| > 0 && amount <= out.Length
    modifies out
    ensures var hits := Collect(regions, readings, 0, needle, m, amount);
            count == |hits| && out[..count] == hits && out[count..] == old(out[count..])
  {
    ghost var all := Collect(regions, readings, 0, needle, m, amount);
    count := 0;
    var k := 0;
    while k < |regions|
      invariant 0 <= k <= |regions| && count <= amount
      invariant out[..count] + Collect(regions, readings, k, needle, m, amount - count) == all
      invariant forall i :: count <= i < out.Length ==> out[i] == old(out[i])
      decreases |regions| - k
    {
      if count == amount {
        break;
      }
      count := CollectRegion(regions, readings, k, needle, m, out, count, amount, all);
      k := k + 1;
    }
    CollectDone(regions, readings, k, needle, m, amount - count);
    assert out[count..] == old(out[count..]);
  }

  /** One turn of the outer loop: region `k`'s hits extend the prefix already in `out`. */
  method CollectRegion(regions: seq<Region>, readings: seq<Option<seq<Byte>>>, k: nat, needle: seq<Byte>, m: string,
                       out: array<nat>, count0: nat, amount: nat, ghost all: seq<nat>) returns (count: nat)
    requires ReadsFit(regions, readings) && |needle| == |m| && |m| > 0 && amount <= out.Length
    requires k < |regions| && count0 < amount
    requires out[..count0] + Collect(regions, readings, k, needle, m, amount - count0) == all
    modifies out
    ensures count0 <= count <= amount
    ensures out[..count] + Collect(regions, readings, k + 1, needle, m, amount - count) == all
    ensures forall i :: count <= i < out.Length ==> out[i] == old(out[i])
  {
    ghost var before := out[..count0];
    ghost var here := RegionPart(regions[k], readings[k], needle, m, amount - count0);
    CollectUnfold(regions, readings, k, needle, m, amount - count0);
    count := VisitRegion(regions[k], readings[k], needle, m, out, count0, amount);
    CollectStep(before, here, out[..count], Collect(regions, readings, k + 1, needle, m, amount - count), all);
  }

  /**
   * One pass of the outer loop's body: skip a region smaller than the query or whose read comes
   * back short (an error return is negative, so short too), else scan the bytes read.
   */
  method VisitRegion(region: Region, read: Option<seq<Byte>>, needle: seq<Byte>, mask: string, out: array<nat>,
                     count0: nat, amount: nat) returns (count: nat)
    requires |needle| == |mask| && |mask| > 0 && region.start <= region.end && count0 <= amount <= out.Length
    modifies out
    ensures var hits := RegionPart(region, read, needle, mask, amount - count0);
            count == count0 + |hits| && out[..count] == old(out[..count0]) + hits
    ensures forall i :: count <= i < out.Length ==> out[i] == old(out[i])
  {
    var querySize := |mask|;
    var regionSize := region.end - region.start;
    if querySize > regionSize || read.None? || |read.value| < querySize {
      HitsDone(if read.Some? then read.value else [], needle, mask, region.start, 0, amount - count0);
      return count0;
    }
    count := ScanRegion(read.value, needle, mask, region.start, out, count0, amount);
  }

  /** One step of the outer loop: region `k` contributes `RegionPart`, the rest the remaining budget. */
  lemma {:induction false} CollectUnfold(regions: seq<Region>, readings: seq<Option<seq<Byte>>>, k: nat, needle: seq<Byte>,
                                         mask: string, budget: nat)
    requires ReadsFit(regions, readings) && k < |regions| && |needle| == |mask| && |mask| > 0 && budget > 0
    ensures var here := RegionPart(regions[k], readings[k], needle, mask, budget);
            Collect(regions, readings, k, needle, mask, budget) ==
              here + Collect(regions, readings, k + 1, needle, mask, budget - |here|)
  {
  }

  /** Splicing one region's hits into the running prefix keeps the whole list in place. */
  lemma {:induction false} CollectStep(before: seq<nat>, here: seq<nat>, after: seq<nat>, rest: seq<nat>, all: seq<nat>)
    requires before + (here + rest) == all && after == before + here
    ensures after + rest == all
  {
  }

  /** After the outer loop nothing is left to collect. */
  lemma {:induction false} CollectDone(regions: seq<Region>, readings: seq<Option<seq<Byte>>>, k: nat, needle: seq<Byte>,
                                       mask: string, budget: nat)
    requires ReadsFit(regions, readings) && |needle| == |mask| && |mask| > 0 && k <= |regions|
    requires k == |regions| || budget == 0
    ensures Collect(regions, readings, k, needle, mask, budget) == []
  {
  }

  /**
   * The inner loop over one region's buffer: the hits from offset 0, as addresses from `base`,
   * are appended to out at `count0`; nothing else in `out` changes.
   */
  method ScanRegion(buf: seq<Byte>, needle: seq<Byte>, mask: string, base: nat, out: array<nat>,
                    count0: nat, amount: nat) returns (count: nat)
    requires |needle| == |mask| && 0 < |mask| <= |buf| && count0 <= amount <= out.Length
    modifies out
    ensures var hits := RegionHits(buf, needle, mask, base, 0, amount - count0);
            count == count0 + |hits| && out[..count] == old(out[..count0]) + hits
    ensures forall i :: count <= i < out.Length ==> out[i] == old(out[i])
  {
    ghost var all := RegionHits(buf, needle, mask, base, 0, amount - count0);
    ghost var prefix := out[..count0];
    ghost var rest := all;
    count := count0;
    var offset := 0;
    while count != amount
      invariant count0 <= count <= amount && offset + |mask| <= |buf|
      invariant out[..count] + rest == prefix + all
      invariant forall i :: count <= i < out.Length ==> out[i] == old(out[i])
      invariant rest == RegionHits(buf, needle, mask, base, offset, amount - count)
      decreases |buf| - offset
    {
      var found := NextHit(buf, needle, mask, base, offset, amount - count);
      if found.None? {
        break;
      }
      var f := found.value;
      ghost var written := out[..count];
      out[count] := base + f;
      ghost var next := RegionHits(buf, needle, mask, base, f + 1, amount - count - 1);
      AppendHit(written, out[..count + 1], base + f, next, rest, prefix + all);
      rest := next;
      count := count + 1;
      offset := f + 1;
      if offset + |mask| > |buf| {
        break;
      }
    }
    HitsDone(buf, needle, mask, base, offset, amount - count);
    assert out[..count] == prefix + all;
  }

  /** One masked_bmh_search call of the inner loop, and what it means for the hits still to come. */
  method NextHit(buf: seq<Byte>, needle: seq<Byte>, mask: string, base: nat, offset: nat, budget: nat)
    returns (found: Option<nat>)
    requires |needle| == |mask| && |mask| > 0 && offset + |mask| <= |buf| && budget > 0
    ensures found.None? ==> RegionHits(buf, needle, mask, base, offset, budget) == []
    ensures found.Some? ==>
              offset <= found.value && found.value + |mask| <= |buf| &&
              RegionHits(buf, needle, mask, base, offset, budget) ==
                [base + found.value] + RegionHits(buf, needle, mask, base, found.value + 1, budget - 1)
  {
    found := Search(buf, needle, mask, offset, 1);
    HitsStep(buf, needle, mask, base, offset, budget);
  }

  /** Writing one hit moves it from the pending hits to the written ones. */
  lemma {:induction false} AppendHit(written: seq<nat>, written2: seq<nat>, a: nat, next: seq<nat>, rest: seq<nat>, all: seq<nat>)
    requires rest == [a] + next && written + rest == all
    requires |written2| == |written| + 1 && written2[..|written|] == written && written2[|written|] == a
    ensures written2 + next == all
  {
    assert written2 == written + [a];
  }

  /** RegionHits is empty once the budget is spent or the query no longer fits. */
  lemma {:induction false} HitsDone(buf: seq<Byte>, needle: seq<Byte>, mask: string, base: nat, offset: nat, budget: nat)
    requires |needle| == |mask| && |mask| > 0
    ensures budget == 0 || offset + |mask| > |buf| ==> RegionHits(buf, needle, mask, base, offset, budget) == []
  {
  }

  /** Unfolding RegionHits at a search: a miss ends it, a hit heads it. */
  lemma {:induction false} HitsStep(buf: seq<Byte>, needle: seq<Byte>, mask: string, base: nat, offset: nat, budget: nat)
    requires |needle| == |mask| && |mask| > 0 && offset + |mask| <= |buf| && budget > 0
    ensures var r := Bmh(buf, needle, mask, offset, 1);
            (r.None? ==> RegionHits(buf, needle, mask, base, offset, budget) == []) &&
            (r.Some? ==> offset <= r.value && r.value + |mask| <= |buf| &&
                         RegionHits(buf, needle, mask, base, offset, budget) ==
                           [base + r.value] + RegionHits(buf, needle, mask, base, r.value + 1, budget - 1))
  {
    BmhSound(buf, needle, mask, offset, 1);
    assert RegionHits(buf, needle, mask, base, offset, budget) == HitsWithin(buf, needle, mask, base, offset, budget)
        == SearchHits(buf, needle, mask, base, offset, budget);
  }

  // ---------------------------------------------------------------------------------------------
  // What QueryMemory promises
  // ---------------------------------------------------------------------------------------------

  /**
   * Every hit in one buffer is `base` plus a masked match, at or after `offset`, that fits in the
   * bytes read.
   */
  lemma {:induction false} RegionHitsSound(buf: seq<Byte>, needle: seq<Byte>, mask: string, base: nat, offset: nat, budget: nat)
    requires |needle| == |mask| && |mask| > 0
    ensures forall h :: h in RegionHits(buf, needle, mask, base, offset, budget) ==>
              base + offset <= h && MatchesAt(buf, needle, mask, h - base)
    decreases |buf| - offset
  {
    if offset + |mask| <= |buf| && budget > 0 {
      HitsStep(buf, needle, mask, base, offset, budget);
      BmhSound(buf, needle, mask, offset, 1);
      var r := Bmh(buf, needle, mask, offset, 1);
      if r.Some? {
        RegionHitsSound(buf, needle, mask, base, r.value + 1, budget - 1);
      }
    } else {
      HitsDone(buf, needle, mask, base, offset, budget);
    }
  }

  /** Within one buffer the hits strictly increase, since each search restarts one past the last hit. */
  lemma {:induction false} RegionHitsIncreasing(buf: seq<Byte>, needle: seq<Byte>, mask: string, base: nat, offset: nat, budget: nat)
    requires |needle| == |mask| && |mask| > 0
    ensures var hs := RegionHits(buf, needle, mask, base, offset, budget);
            forall i, j :: 0 <= i < j < |hs| ==> hs[i] < hs[j]
    decreases |buf| - offset
  {
    if offset + |mask| <= |buf| && budget > 0 {
      HitsStep(buf, needle, mask, base, offset, budget);
      var r := Bmh(buf, needle, mask, offset, 1);
      if r.Some? {
        var f := r.value;
        var tail := RegionHits(buf, needle, mask, base, f + 1, budget - 1);
        RegionHitsIncreasing(buf, needle, mask, base, f + 1, budget - 1);
        RegionHitsSound(buf, needle, mask, base, f + 1, budget - 1);
        var hs := [base + f] + tail;
        forall i, j | 0 <= i < j < |hs|
          ensures hs[i] < hs[j]
        {
          assert hs[j] == tail[j - 1] && tail[j - 1] in tail;
          if i > 0 {
            assert hs[i] == tail[i - 1];
          }
        }
      }
    } else {
      HitsDone(buf, needle, mask, base, offset, budget);
    }
  }

  /**
   * For a mask without `?`, unless the budget runs out, the hits are every masked match at or
   * after `offset`: the search finds the least match each time. With `?` the search can skip a
   * match (`WildcardMatchMissed`).
   */
  lemma {:induction false} RegionHitsComplete(buf: seq<Byte>, needle: seq<Byte>, mask: string, base: nat, offset: nat, budget: nat)
    requires |needle| == |mask| && |mask| > 0 && WildcardFree(mask)
    ensures var hs := RegionHits(buf, needle, mask, base, offset, budget);
            |hs| < budget ==> forall h: nat :: offset <= h && MatchesAt(buf, needle, mask, h) ==> base + h in hs
    decreases |buf| - offset
  {
    var hs := RegionHits(buf, needle, mask, base, offset, budget);
    if offset + |mask| <= |buf| && budget > 0 {
      HitsStep(buf, needle, mask, base, offset, budget);
      BmhCompleteWhenWildcardFree(buf, needle, mask, offset, 1);
      var r := Bmh(buf, needle, mask, offset, 1);
      if r.Some? {
        var f := r.value;
        RegionHitsComplete(buf, needle, mask, base, f + 1, budget - 1);
        forall h: nat | offset <= h && MatchesAt(buf, needle, mask, h) && |hs| < budget
          ensures base + h in hs
        {
          if h < f {
            assert Aligned(h, 1);
          } else if h > f {
            assert base + h in RegionHits(buf, needle, mask, base, f + 1, budget - 1);
          }
        }
      } else {
        forall h: nat | offset <= h && MatchesAt(buf, needle, mask, h)
          ensures false
        {
          assert Aligned(h, 1);
        }
      }
    } else {
      HitsDone(buf, needle, mask, base, offset, budget);
    }
  }

  /**
   * Every address collected from index `k` on lies in some region at or after `k` whose read
   * succeeded with at least the query's length, and is that region's start plus a masked match
   * inside the bytes read.
   */
  lemma {:induction false} CollectSound(regions: seq<Region>, readings: seq<Option<seq<Byte>>>, k: nat, needle: seq<Byte>,
                                        mask: string, budget: nat)
    requires ReadsFit(regions, readings) && k <= |regions| && |needle| == |mask| && |mask| > 0
    ensures forall a :: a in Collect(regions, readings, k, needle, mask, budget) ==>
              exists j :: k <= j < |regions| && HitIn(regions[j], readings[j], needle, mask, a)
    decreases |regions| - k
  {
    if k < |regions| && budget > 0 {
      var here := RegionPart(regions[k], readings[k], needle, mask, budget);
      CollectSound(regions, readings, k + 1, needle, mask, budget - |here|);
      forall a | a in here
        ensures HitIn(regions[k], readings[k], needle, mask, a)
      {
        RegionHitsSound(readings[k].value, needle, mask, regions[k].start, 0, budget);
      }
    }
  }

  /**
   * QueryMemory can miss a match: one region read as `42 42 42 41` with the pattern `42 ? 41`
   * holds a hit at offset 1, yet nothing is collected, since masked_bmh_search skips it.
   */
  lemma {:induction false} WildcardMatchMissed()
    ensures var regions := [Region(0, 4)];
            var readings: seq<Option<seq<Byte>>> := [Some([0x42, 0x42, 0x42, 0x41])];
            var needle: seq<Byte> := [0x42, 0x00, 0x41];
            ReadsFit(regions, readings) &&
            HitIn(regions[0], readings[0], needle, "x?x", 1) &&
            Collect(regions, readings, 0, needle, "x?x", 1) == []
  {
    var regions := [Region(0, 4)];
    var readings: seq<Option<seq<Byte>>> := [Some([0x42, 0x42, 0x42, 0x41])];
    var buf: seq<Byte> := [0x42, 0x42, 0x42, 0x41];
    var needle: seq<Byte> := [0x42, 0x00, 0x41];
    WildcardBeforeAnchorSkipsMatch();
    assert SearchHits(buf, needle, "x?x", 0, 0, 1) == [];
    assert RegionPart(regions[0], readings[0], needle, "x?x", 1) == [];
    assert Collect(regions, readings, 0, needle, "x?x", 1) == [] + Collect(regions, readings, 1, needle, "x?x", 1);
  }

  /** `a` is region `r`'s start plus a masked match inside the bytes read from it. */
  predicate HitIn(r: Region, read: Option<seq<Byte>>, needle: seq<Byte>, mask: string, a: nat)
    requires |needle| == |mask|
  {
    read.Some? && |read.value| >= |mask| && r.start <= a && MatchesAt(read.value, needle, mask, a - r.start)
  }

  /** A hit lies with the whole query inside its region. */
  lemma {:induction false} HitInRange(r: Region, read: Option<seq<Byte>>, needle: seq<Byte>, mask: string, a: nat)
    requires |needle| == |mask| && r.start <= r.end && (read.Some? ==> |read.value| <= r.end - r.start)
    requires HitIn(r, read, needle, mask, a)
    ensures r.start <= a && a + |mask| <= r.end
  {
  }

  // ---------------------------------------------------------------------------------------------
  // FindPattern
  // ---------------------------------------------------------------------------------------------

  /**
   * FindPattern: parse the pattern, throw when stoi throws or when there are no tokens
   * (`bytes.at(0)`), else the first hit QueryMemory stores, or 0 when there is none. The
   * `segment` argument is never read.
   */
  method FindPattern(query: string, segment: string, regions: seq<Region>, readings: seq<Option<seq<Byte>>>)
    returns (r: Outcome<nat>)
    requires ReadsFit(regions, readings)
    ensures match FindPatternResult(query, regions, readings)
            case None => r == Thrown
            case Some(v) => r == Returned(v)
  {
    var p := ParsePattern(query);
    if p.None? {
      return Thrown;
    }
    ghost var ts := Tokens(query);
    PatternForUnique(ts, p.value);
    var bytes, mask := p.value.bytes, p.value.mask;
    if |bytes| == 0 {
      return Thrown;
    }
    var result := new nat[1];
    result[0] := 0;
    var count := QueryMemory(Some(bytes), Some(mask), result, 1, regions, readings);
    assert bytes[..|mask|] == bytes;
    ghost var hits := Collect(regions, readings, 0, bytes, mask, 1);
    if count == 0 {
      assert result[0] == result[count..][0] == 0;
    } else {
      assert result[0] == result[..count][0] == hits[0];
    }
    return Returned(result[0]);
  }

  /** The first hit of the parsed pattern over the regions, 0 when there is none; `None` for a throw. */
  function FindPatternResult(query: string, regions: seq<Region>, readings: seq<Option<seq<Byte>>>): (r: Option<nat>)
    requires ReadsFit(regions, readings)
    ensures r.Some? ==> Tokens(query) != [] && forall k :: 0 <= k < |Tokens(query)| ==> TokenEntry(Tokens(query)[k]).Some?
  {
    var ts := Tokens(query);
    if ts == [] || !forall k :: 0 <= k < |ts| ==> TokenEntry(ts[k]).Some? then None
    else
      var p := PatternOf(ts);
      var hits := Collect(regions, readings, 0, p.bytes, p.mask, 1);
      Some(if hits == [] then 0 else hits[0])
  }

  // ---------------------------------------------------------------------------------------------
  // IsChildOf
  // ---------------------------------------------------------------------------------------------

  const MAX_DEPTH: nat := 128

  /**
   * The parents the walk visits from `pid`, at most `depth` of them: it stops after an unreadable
   * stat entry, and after a parent that is at most 1 or the process itself.
   */
  function Ancestors(parents: map<int, int>, pid: int, depth: nat): (r: seq<int>)
    ensures |r| <= depth
    decreases depth, 1
  {
    if depth == 0 then [] else ParentsFrom(parents, pid, depth)
  }

  /** One step of the walk with depth left: read the parent, then stop or go on from it. */
  function ParentsFrom(parents: map<int, int>, pid: int, depth: nat): (r: seq<int>)
    requires depth > 0
    ensures |r| <= depth
    decreases depth, 0
  {
    if pid !in parents then []
    else
      var p := parents[pid];
      [p] + (if p <= 1 || p == pid then [] else Ancestors(parents, p, depth - 1))
  }

  /** IsChildOf: true iff `testParent` is among the parents the bounded walk visits. */
  method IsChildOf(parents: map<int, int>, childPid: int, testParent: int) returns (r: bool)
    ensures r <==> testParent in Ancestors(parents, childPid, MAX_DEPTH)
  {
    var pid := childPid;
    var left := MAX_DEPTH;
    ghost var found := testParent in Ancestors(parents, childPid, MAX_DEPTH);
    while left > 0
      invariant found == (testParent in Ancestors(parents, pid, left))
    {
      WalkStep(parents, pid, left, testParent);
      if pid !in parents {
        return false;
      }
      var parent := parents[pid];
      if parent == testParent {
        return true;
      }
      if parent <= 1 || parent == pid {
        return false;
      }
      pid := parent;
      left := left - 1;
    }
    WalkStep(parents, pid, 0, testParent);
    return false;
  }

  /** Whether `testParent` is met, decided one step of the walk at a time. */
  lemma {:induction false} WalkStep(parents: map<int, int>, pid: int, depth: nat, testParent: int)
    ensures depth == 0 || pid !in parents ==> testParent !in Ancestors(parents, pid, depth)
    ensures depth > 0 && pid in parents ==>
              var p := parents[pid];
              (testParent in Ancestors(parents, pid, depth) <==>
                 p == testParent || (!(p <= 1 || p == pid) && testParent in Ancestors(parents, p, depth - 1)))
  {
    if depth > 0 {
      AncestorsStep(parents, pid, depth);
    }
  }

  /** One step of the walk. */
  lemma {:induction false} AncestorsStep(parents: map<int, int>, pid: int, depth: nat)
    requires depth > 0
    ensures pid !in parents ==> Ancestors(parents, pid, depth) == []
    ensures pid in parents ==>
              var p := parents[pid];
              Ancestors(parents, pid, depth) == [p] + (if p <= 1 || p == pid then [] else Ancestors(parents, p, depth - 1))
  {
  }

  /** Every parent the walk visits before the last is above 1 and not the process it was read for. */
  lemma {:induction false} AncestorsContinue(parents: map<int, int>, pid: int, depth: nat)
    ensures var a := Ancestors(parents, pid, depth);
            (|a| > 1 ==> a[0] > 1 && a[0] != pid) &&
            forall i :: 0 < i < |a| - 1 ==> a[i] > 1 && a[i] != a[i - 1]
    decreases depth
  {
    if depth > 0 && pid in parents {
      var p := parents[pid];
      if !(p <= 1 || p == pid) {
        AncestorsContinue(parents, p, depth - 1);
        var a := Ancestors(parents, pid, depth);
        var b := Ancestors(parents, p, depth - 1);
        assert a == [p] + b;
        forall i | 0 < i < |a| - 1
          ensures a[i] > 1 && a[i] != a[i - 1]
        {
          assert a[i] == b[i - 1] && a[i - 1] == if i == 1 then p else b[i - 2];
        }
      }
    }
  }

  /** Parent 1 is checked before the walk stops at it: a child of init is found as such. */
  lemma {:induction false} ChildOfInit(parents: map<int, int>, pid: int)
    requires pid in parents && parents[pid] == 1
    ensures Ancestors(parents, pid, MAX_DEPTH) == [1]
  {
  }
}
