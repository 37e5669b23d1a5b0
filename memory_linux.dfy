// The Linux side of do_lib (do_lib/memory_linux.cpp): the process's own memory map, the
// in-process pattern scan over it, and the page rounding done before `mprotect`.
//
// The lines of /proc/self/maps arrive already split into fields (`MapsEntry`); reading and
// parsing the file are not modelled. The copy of a region into the reused buffer reads the
// process memory `Memory.cells`. Whether growing that buffer throws `std::bad_alloc` is not
// a function of the inputs: `failing` names the positions in the page list where it throws.

module MemoryLinux {
  import opened Prelude
  import opened MaskedBmh
  import opened Patterns
  import opened Memory

  /** The fields of one /proc/self/maps line, in the order the line gives them. */
  datatype MapsEntry = MapsEntry(
    start: nat, end: nat,
    read: char, write: char, exec: char, cow: char,
    offset: nat, devMajor: nat, devMinor: nat, inode: nat,
    path: string)

  // ---------------------------------------------------------------------------------------------
  // get_pages
  // ---------------------------------------------------------------------------------------------

  /** The page `get_pages` records for a line: its fields, with size 0. */
  function PageOf(e: MapsEntry): (p: MemPage)
    ensures p.start == e.start && p.end == e.end && p.offset == e.offset && p.name == e.path
    ensures p.read == e.read && p.write == e.write && p.exec == e.exec && p.cow == e.cow
    ensures p.size == 0
  {
    MemPage(e.start, e.end, e.read, e.write, e.exec, e.cow, e.offset, 0, e.path)
  }

  /** `t` occurs in `s` at offset `i`. */
  predicate OccursAt(s: string, t: string, i: nat)
  {
    i + |t| <= |s| && s[i..i + |t|] == t
  }

  /** `s.find(t) != npos`. */
  function Contains(s: string, t: string): (r: bool)
    ensures r <==> exists i: nat :: OccursAt(s, t, i)
  {
    ContainsFrom(s, t, 0)
  }

  /** `t` occurs in `s` at some offset from `i` on. */
  function ContainsFrom(s: string, t: string, i: nat): (r: bool)
    ensures r <==> exists j: nat :: i <= j && OccursAt(s, t, j)
    decreases |s| - i
  {
    if i + |t| > |s| then
      assert forall j: nat :: i <= j ==> !OccursAt(s, t, j);
      false
    else
      OccursAt(s, t, i) || ContainsFrom(s, t, i + 1)
  }

  /** A line survives the filter: the name is empty or occurs in its path. */
  predicate Kept(e: MapsEntry, name: string)
  {
    name == [] || Contains(e.path, name)
  }

  /** The pages `get_pages(name)` returns for the lines of the map, in order. */
  function KeptPages(maps: seq<MapsEntry>, name: string): (r: seq<MemPage>)
    ensures |r| <= |maps|
  {
    if maps == [] then []
    else
      var e := maps[|maps| - 1];
      KeptPages(maps[..|maps| - 1], name) + (if Kept(e, name) then [PageOf(e)] else [])
  }

  /** get_pages: one pass over the lines, keeping the matching ones. */
  method GetPages(maps: seq<MapsEntry>, name: string) returns (pages: seq<MemPage>)
    ensures pages == KeptPages(maps, name)
  {
    pages := [];
    var i := 0;
    while i < |maps|
      invariant i <= |maps|
      invariant pages == KeptPages(maps[..i], name)
    {
      var e := maps[i];
      assert maps[..i + 1][..i] == maps[..i];
      if !(name == [] || Contains(e.path, name)) {
        i := i + 1;
        continue;
      }
      pages := pages + [PageOf(e)];
      i := i + 1;
    }
    assert maps[..i] == maps;
  }

  /** Filtering a concatenation filters each part: the order of the lines is kept. */
  lemma {:induction false} KeptPagesAppend(a: seq<MapsEntry>, b: seq<MapsEntry>, name: string)
    ensures KeptPages(a + b, name) == KeptPages(a, name) + KeptPages(b, name)
    decreases |b|
  {
    if b == [] {
      assert a + b == a;
    } else {
      var b' := b[..|b| - 1];
      KeptPagesAppend(a, b', name);
      assert (a + b)[..|a + b| - 1] == a + b';
      assert (a + b)[|a + b| - 1] == b[|b| - 1];
    }
  }

  /** A page is returned iff it is the page of a line the filter keeps. */
  lemma {:induction false} KeptPagesMembers(maps: seq<MapsEntry>, name: string, p: MemPage)
    ensures p in KeptPages(maps, name) <==> exists i :: 0 <= i < |maps| && Kept(maps[i], name) && p == PageOf(maps[i])
    decreases |maps|
  {
    if maps != [] {
      var init := maps[..|maps| - 1];
      var last := maps[|maps| - 1];
      KeptPagesMembers(init, name, p);
      var tail: seq<MemPage> := if Kept(last, name) then [PageOf(last)] else [];
      assert KeptPages(maps, name) == KeptPages(init, name) + tail;
      assert p in KeptPages(maps, name) <==> p in KeptPages(init, name) || p in tail;
      if exists i :: 0 <= i < |init| && Kept(init[i], name) && p == PageOf(init[i]) {
        var i :| 0 <= i < |init| && Kept(init[i], name) && p == PageOf(init[i]);
        assert maps[i] == init[i];
      }
      if exists i :: 0 <= i < |maps| && Kept(maps[i], name) && p == PageOf(maps[i]) {
        var i :| 0 <= i < |maps| && Kept(maps[i], name) && p == PageOf(maps[i]);
        if i < |init| {
          assert init[i] == maps[i];
        }
      }
    }
  }

  /** With an empty name every line is kept. */
  lemma {:induction false} KeptPagesAll(maps: seq<MapsEntry>)
    ensures |KeptPages(maps, [])| == |maps|
    ensures forall i :: 0 <= i < |maps| ==> KeptPages(maps, [])[i] == PageOf(maps[i])
    decreases |maps|
  {
    if maps != [] {
      var init := maps[..|maps| - 1];
      KeptPagesAll(init);
      forall i | 0 <= i < |init| ensures KeptPages(maps, [])[i] == PageOf(maps[i]) {
        assert init[i] == maps[i];
      }
    }
  }

  // ---------------------------------------------------------------------------------------------
  // query_memory
  // ---------------------------------------------------------------------------------------------

  /** The region tests that skip a page: query too long, query inside it, unreadable, `[vvar]`. */
  predicate Skipped(p: MemPage, querySize: nat, queryAddr: nat)
  {
    querySize > p.end - p.start ||
    (queryAddr > p.start && queryAddr < p.end) ||
    p.read == '-' ||
    p.name == "[vvar]"
  }

  /** A page is searched: no region test skips it and allocating its buffer does not throw. */
  predicate Searched(pages: seq<MemPage>, k: nat, querySize: nat, queryAddr: nat, failing: set<nat>)
    requires k < |pages|
  {
    !Skipped(pages[k], querySize, queryAddr) && k !in failing
  }

  /** A well-formed map line whose memory can be copied when its page is readable. */
  predicate PageReadable(cells: map<nat, Byte>, p: MemPage)
  {
    p.start <= p.end && (p.read != '-' && p.name != "[vvar]" ==> Mapped(cells, p.start, p.end - p.start))
  }

  predicate AllReadable(cells: map<nat, Byte>, pages: seq<MemPage>)
  {
    forall k :: 0 <= k < |pages| ==> PageReadable(cells, pages[k])
  }

  /** The bytes of a searched page, as `memcpy` copies them into the buffer. */
  function Snapshot(cells: map<nat, Byte>, p: MemPage): (buf: seq<Byte>)
    requires PageReadable(cells, p) && p.read != '-' && p.name != "[vvar]"
    ensures |buf| == p.end - p.start
  {
    Bytes(cells, p.start, p.end - p.start)
  }

  /** The search is defined on every buffer (an all-wildcard mask needs a non-zero alignment). */
  predicate SearchDefined(mask: string, alignment: nat)
  {
    alignment > 0 || |mask| == 0 || !forall k :: 0 <= k < |mask| ==> mask[k] == WILDCARD
  }

  /**
   * The address query_memory returns from page `k` on, `None` for no match in any of them. A
   * result lies, with the whole query, inside a searched page.
   */
  function FirstHit(cells: map<nat, Byte>, pages: seq<MemPage>, k: nat, needle: seq<Byte>, mask: string,
                    queryAddr: nat, alignment: nat, failing: set<nat>): (r: Option<nat>)
    requires k <= |pages| && |needle| == |mask| && SearchDefined(mask, alignment) && AllReadable(cells, pages)
    ensures r.Some? ==> exists j :: k <= j < |pages| && Searched(pages, j, |mask|, queryAddr, failing) &&
                                   pages[j].start <= r.value && r.value + |mask| <= pages[j].end
    decreases |pages| - k, 2
  {
    if k == |pages| then None else PageStep(cells, pages, k, needle, mask, queryAddr, alignment, failing)
  }

  /** Page `k`: skipped pages and failed allocations go on to the next page. */
  function PageStep(cells: map<nat, Byte>, pages: seq<MemPage>, k: nat, needle: seq<Byte>, mask: string,
                    queryAddr: nat, alignment: nat, failing: set<nat>): (r: Option<nat>)
    requires k < |pages| && |needle| == |mask| && SearchDefined(mask, alignment) && AllReadable(cells, pages)
    ensures r.Some? ==> exists j :: k <= j < |pages| && Searched(pages, j, |mask|, queryAddr, failing) &&
                                   pages[j].start <= r.value && r.value + |mask| <= pages[j].end
    decreases |pages| - k, 1
  {
    if !Searched(pages, k, |mask|, queryAddr, failing) then FirstHit(cells, pages, k + 1, needle, mask, queryAddr, alignment, failing)
    else SearchPage(cells, pages, k, needle, mask, queryAddr, alignment, failing)
  }

  /** Page `k` is searched from offset 0: a match returns, a miss goes on to the next page. */
  function SearchPage(cells: map<nat, Byte>, pages: seq<MemPage>, k: nat, needle: seq<Byte>, mask: string,
                      queryAddr: nat, alignment: nat, failing: set<nat>): (r: Option<nat>)
    requires k < |pages| && |needle| == |mask| && SearchDefined(mask, alignment) && AllReadable(cells, pages)
    requires Searched(pages, k, |mask|, queryAddr, failing)
    ensures r.Some? ==> exists j :: k <= j < |pages| && Searched(pages, j, |mask|, queryAddr, failing) &&
                                   pages[j].start <= r.value && r.value + |mask| <= pages[j].end
    decreases |pages| - k, 0
  {
    BmhSound(Snapshot(cells, pages[k]), needle, mask, 0, alignment);
    match Bmh(Snapshot(cells, pages[k]), needle, mask, 0, alignment)
    case Some(f) => Some(pages[k].start + f)
    case None => FirstHit(cells, pages, k + 1, needle, mask, queryAddr, alignment, failing)
  }

  /** The search of page `k`, and what FirstHit does with its result. */
  method VisitPage(mem: Memory, pages: seq<MemPage>, k: nat, needle: seq<Byte>, mask: string,
                   queryAddr: nat, alignment: nat, failing: set<nat>) returns (hit: Option<nat>)
    requires k < |pages| && |needle| == |mask| && SearchDefined(mask, alignment) && AllReadable(mem.cells, pages)
    ensures hit.Some? ==> FirstHit(mem.cells, pages, k, needle, mask, queryAddr, alignment, failing) == hit
    ensures hit.None? ==>
              FirstHit(mem.cells, pages, k, needle, mask, queryAddr, alignment, failing) ==
              FirstHit(mem.cells, pages, k + 1, needle, mask, queryAddr, alignment, failing)
  {
    FirstHitStep(mem.cells, pages, k, needle, mask, queryAddr, alignment, failing);
    var region := pages[k];
    var size := region.end - region.start;
    assert PageReadable(mem.cells, pages[k]);
    if |mask| > size || (queryAddr > region.start && queryAddr < region.end) || region.read == '-' || region.name == "[vvar]" {
      return None;
    }
    if k in failing {
      return None;
    }
    var buf := Bytes(mem.cells, region.start, size);
    var found := Search(buf, needle, mask, 0, alignment);
    if found.None? {
      return None;
    }
    return Some(region.start + found.value);
  }

  /** The address query_memory returns for a search result: 0 stands for no match. */
  function Address(r: Option<nat>): (a: nat)
    ensures r.None? ==> a == 0
    ensures r.Some? ==> a == r.value
  {
    if r.None? then 0 else r.value
  }

  /**
   * query_memory(query, mask, alignment, area): the first match, in page order, of the first
   * `strlen(mask)` bytes of `query` over the pages `get_pages(area)` returns. `queryAddr` is
   * the address of `query`, whose own page is skipped.
   */
  method QueryMemory(mem: Memory, query: seq<Byte>, queryAddr: nat, mask: string, alignment: nat, area: string,
                     maps: seq<MapsEntry>, failing: set<nat>) returns (r: nat)
    requires |mask| <= |query| && SearchDefined(mask, alignment) && AllReadable(mem.cells, KeptPages(maps, area))
    ensures r == Address(FirstHit(mem.cells, KeptPages(maps, area), 0, query[..|mask|], mask, queryAddr, alignment, failing))
  {
    var pages := GetPages(maps, area);
    var needle := query[..|mask|];
    ghost var all := FirstHit(mem.cells, pages, 0, needle, mask, queryAddr, alignment, failing);
    var k := 0;
    while k < |pages|
      invariant k <= |pages|
      invariant all == FirstHit(mem.cells, pages, k, needle, mask, queryAddr, alignment, failing)
    {
      var hit := VisitPage(mem, pages, k, needle, mask, queryAddr, alignment, failing);
      if hit.Some? {
        return hit.value;
      }
      k := k + 1;
    }
    return 0;
  }

  /** FirstHit unfolded at page `k`: the characterisation below follows one page at a time. */
  lemma {:induction false} FirstHitStep(cells: map<nat, Byte>, pages: seq<MemPage>, k: nat, needle: seq<Byte>, mask: string,
                                        queryAddr: nat, alignment: nat, failing: set<nat>)
    requires k < |pages| && |needle| == |mask| && SearchDefined(mask, alignment) && AllReadable(cells, pages)
    ensures !Searched(pages, k, |mask|, queryAddr, failing) ==>
              FirstHit(cells, pages, k, needle, mask, queryAddr, alignment, failing) ==
              FirstHit(cells, pages, k + 1, needle, mask, queryAddr, alignment, failing)
    ensures Searched(pages, k, |mask|, queryAddr, failing) ==>
              FirstHit(cells, pages, k, needle, mask, queryAddr, alignment, failing) ==
              match Bmh(Snapshot(cells, pages[k]), needle, mask, 0, alignment)
              case Some(f) => Some(pages[k].start + f)
              case None => FirstHit(cells, pages, k + 1, needle, mask, queryAddr, alignment, failing)
  {
    assert FirstHit(cells, pages, k, needle, mask, queryAddr, alignment, failing) ==
           PageStep(cells, pages, k, needle, mask, queryAddr, alignment, failing);
  }

  /** Page `k` holds the returned address: it is searched and masked_bmh_search returns it there. */
  ghost predicate HitIn(cells: map<nat, Byte>, pages: seq<MemPage>, k: nat, needle: seq<Byte>, mask: string,
                        queryAddr: nat, alignment: nat, failing: set<nat>, a: nat)
    requires k < |pages| && |needle| == |mask| && SearchDefined(mask, alignment) && AllReadable(cells, pages)
  {
    Searched(pages, k, |mask|, queryAddr, failing) &&
    pages[k].start <= a &&
    Bmh(Snapshot(cells, pages[k]), needle, mask, 0, alignment) == Some(a - pages[k].start)
  }

  /** Page `k` gives nothing: it is not searched, or masked_bmh_search finds nothing in it. */
  ghost predicate MissIn(cells: map<nat, Byte>, pages: seq<MemPage>, k: nat, needle: seq<Byte>, mask: string,
                         queryAddr: nat, alignment: nat, failing: set<nat>)
    requires k < |pages| && |needle| == |mask| && SearchDefined(mask, alignment) && AllReadable(cells, pages)
  {
    Searched(pages, k, |mask|, queryAddr, failing) ==>
      Bmh(Snapshot(cells, pages[k]), needle, mask, 0, alignment) == None
  }

  /**
   * A non-zero result is `region.start + off` for the search result of the first page, in list
   * order, where the search finds something; no result means the search finds nothing in any
   * searched page. `HitAligned` and `PageSearchComplete` say what such a result is.
   */
  lemma {:induction false} FirstHitCharacterized(cells: map<nat, Byte>, pages: seq<MemPage>, k: nat, needle: seq<Byte>, mask: string,
                                                 queryAddr: nat, alignment: nat, failing: set<nat>)
    requires k <= |pages| && |needle| == |mask| && |mask| > 0 && SearchDefined(mask, alignment) && AllReadable(cells, pages)
    ensures match FirstHit(cells, pages, k, needle, mask, queryAddr, alignment, failing)
            case Some(a) =>
              exists j :: k <= j < |pages| && HitIn(cells, pages, j, needle, mask, queryAddr, alignment, failing, a) &&
                          forall i :: k <= i < j ==> MissIn(cells, pages, i, needle, mask, queryAddr, alignment, failing)
            case None =>
              forall i :: k <= i < |pages| ==> MissIn(cells, pages, i, needle, mask, queryAddr, alignment, failing)
    decreases |pages| - k
  {
    if k < |pages| {
      FirstHitStep(cells, pages, k, needle, mask, queryAddr, alignment, failing);
      FirstHitCharacterized(cells, pages, k + 1, needle, mask, queryAddr, alignment, failing);
      if Searched(pages, k, |mask|, queryAddr, failing) {
        var buf := Snapshot(cells, pages[k]);
        match Bmh(buf, needle, mask, 0, alignment)
        case Some(f) =>
          assert HitIn(cells, pages, k, needle, mask, queryAddr, alignment, failing, pages[k].start + f);
        case None =>
          assert MissIn(cells, pages, k, needle, mask, queryAddr, alignment, failing);
      } else {
        assert MissIn(cells, pages, k, needle, mask, queryAddr, alignment, failing);
      }
    }
  }

  /** An empty mask never matches: query_memory returns 0. */
  lemma {:induction false} EmptyMaskNoHit(cells: map<nat, Byte>, pages: seq<MemPage>, k: nat, needle: seq<Byte>,
                                          queryAddr: nat, alignment: nat, failing: set<nat>)
    requires k <= |pages| && |needle| == 0 && AllReadable(cells, pages)
    ensures FirstHit(cells, pages, k, needle, [], queryAddr, alignment, failing) == None
    decreases |pages| - k
  {
    if k < |pages| {
      FirstHitStep(cells, pages, k, needle, [], queryAddr, alignment, failing);
      EmptyMaskNoHit(cells, pages, k + 1, needle, queryAddr, alignment, failing);
    }
  }

  /**
   * The result is a masked match of the query in the page it lies in, aligned from the page's
   * start, and that page passed the region tests.
   */
  lemma {:induction false} HitAligned(cells: map<nat, Byte>, pages: seq<MemPage>, k: nat, needle: seq<Byte>, mask: string,
                                      queryAddr: nat, alignment: nat, failing: set<nat>, j: nat, a: nat)
    requires j < |pages| && |needle| == |mask| && SearchDefined(mask, alignment) && AllReadable(cells, pages)
    requires HitIn(cells, pages, j, needle, mask, queryAddr, alignment, failing, a)
    requires alignment > 0
    ensures (a - pages[j].start) % alignment == 0
    ensures pages[j].start <= a && a + |mask| <= pages[j].end
    ensures MatchesAt(Snapshot(cells, pages[j]), needle, mask, a - pages[j].start)
    ensures !(queryAddr > pages[j].start && queryAddr < pages[j].end) && pages[j].read != '-' && pages[j].name != "[vvar]"
  {
    BmhSound(Snapshot(cells, pages[j]), needle, mask, 0, alignment);
  }

  /**
   * For a mask without `?` the search on a page is complete: a page's result is its first aligned
   * match, and a page that gives nothing holds no aligned match.
   */
  lemma {:induction false} PageSearchComplete(cells: map<nat, Byte>, pages: seq<MemPage>, k: nat, needle: seq<Byte>, mask: string,
                                              queryAddr: nat, alignment: nat, failing: set<nat>, a: nat)
    requires k < |pages| && |needle| == |mask| && |mask| > 0 && WildcardFree(mask) && AllReadable(cells, pages)
    ensures SearchDefined(mask, alignment)
    ensures HitIn(cells, pages, k, needle, mask, queryAddr, alignment, failing, a) ==>
              IsFirstMatch(Snapshot(cells, pages[k]), needle, mask, 0, alignment, Some(a - pages[k].start))
    ensures MissIn(cells, pages, k, needle, mask, queryAddr, alignment, failing) && Searched(pages, k, |mask|, queryAddr, failing) ==>
              IsFirstMatch(Snapshot(cells, pages[k]), needle, mask, 0, alignment, None)
  {
    assert mask[0] != WILDCARD;
    if Searched(pages, k, |mask|, queryAddr, failing) {
      BmhCompleteWhenWildcardFree(Snapshot(cells, pages[k]), needle, mask, 0, alignment);
    }
  }

  /**
   * query_memory can miss a match: one page holding `42 42 42 41` searched for `42 ? 41` has a
   * match at offset 1, yet the result is 0, since masked_bmh_search skips it.
   */
  lemma {:induction false} WildcardMatchMissed()
    ensures var cells: map<nat, Byte> := map[0 := 0x42, 1 := 0x42, 2 := 0x42, 3 := 0x41];
            var pages := [MemPage(0, 4, 'r', '-', '-', 'p', 0, 0, "heap")];
            var needle: seq<Byte> := [0x42, 0x00, 0x41];
            AllReadable(cells, pages) && Searched(pages, 0, 3, 100, {}) &&
            MatchesAt(Snapshot(cells, pages[0]), needle, "x?x", 1) &&
            FirstHit(cells, pages, 0, needle, "x?x", 100, 1, {}) == None
  {
    var cells: map<nat, Byte> := map[0 := 0x42, 1 := 0x42, 2 := 0x42, 3 := 0x41];
    var pages := [MemPage(0, 4, 'r', '-', '-', 'p', 0, 0, "heap")];
    var needle: seq<Byte> := [0x42, 0x00, 0x41];
    assert Mapped(cells, 0, 4);
    assert AllReadable(cells, pages);
    var buf: seq<Byte> := [0x42, 0x42, 0x42, 0x41];
    assert Snapshot(cells, pages[0]) == buf;
    WildcardBeforeAnchorSkipsMatch();
    FirstHitStep(cells, pages, 0, needle, "x?x", 100, 1, {});
  }

  // ---------------------------------------------------------------------------------------------
  // The exact-match overload and find_pattern
  // ---------------------------------------------------------------------------------------------

  /** `std::string mask(len, 'x')`. */
  function ExactMask(len: nat): (m: string)
    ensures |m| == len && WildcardFree(m)
    ensures len > 0 ==> m[0] != WILDCARD
  {
    seq(len, _ => 'x')
  }

  /** With an all-`x` mask a match is an exact copy of the query's bytes. */
  lemma {:induction false} ExactMaskMatches(hay: seq<Byte>, needle: seq<Byte>, i: nat)
    ensures MatchesAt(hay, needle, ExactMask(|needle|), i) <==> i + |needle| <= |hay| && hay[i..i + |needle|] == needle
  {
    var m := ExactMask(|needle|);
    if i + |needle| <= |hay| {
      if MatchesAt(hay, needle, m, i) {
        assert forall k :: 0 <= k < |needle| ==> hay[i..i + |needle|][k] == needle[k];
      } else {
        var k :| 0 <= k < |m| && m[k] != WILDCARD && hay[i + k] != needle[k];
        assert hay[i..i + |needle|][k] != needle[k];
      }
    }
  }

  /**
   * query_memory(query, len, alignment): an exact search for the first `len` bytes of `query` over
   * every page, with the same result as the search as written in masked_bmh.h.
   */
  method QueryExact(mem: Memory, query: seq<Byte>, queryAddr: nat, len: nat, alignment: nat,
                    maps: seq<MapsEntry>, failing: set<nat>) returns (r: nat)
    requires len <= |query| && AllReadable(mem.cells, KeptPages(maps, []))
    ensures r == Address(FirstHit(mem.cells, KeptPages(maps, []), 0, query[..len], ExactMask(len), queryAddr, alignment, failing))
  {
    var mask := ExactMask(len);
    r := QueryMemory(mem, query, queryAddr, mask, alignment, [], maps, failing);
  }

  /** On a searched page the exact search finds what the search as written finds. */
  lemma {:induction false} ExactAgreesAsWritten(cells: map<nat, Byte>, p: MemPage, needle: seq<Byte>, alignment: nat)
    requires PageReadable(cells, p) && p.read != '-' && p.name != "[vvar]" && |needle| > 0
    ensures CorrectedBmh(Snapshot(cells, p), needle, ExactMask(|needle|), 0, alignment) ==
            Bmh(Snapshot(cells, p), needle, ExactMask(|needle|), 0, alignment)
  {
    CorrectedAgreesWhenWildcardFree(Snapshot(cells, p), needle, ExactMask(|needle|), 0, alignment);
  }

  /** The result of find_pattern: `None` when a token's stoi throws or there are no tokens. */
  function FindPatternResult(cells: map<nat, Byte>, query: string, segment: string, bytesAddr: nat,
                             maps: seq<MapsEntry>, failing: set<nat>): (r: Option<nat>)
    requires AllReadable(cells, KeptPages(maps, segment))
    ensures r.Some? ==> Tokens(query) != [] && forall k :: 0 <= k < |Tokens(query)| ==> TokenEntry(Tokens(query)[k]).Some?
  {
    var ts := Tokens(query);
    if ts == [] || !forall k :: 0 <= k < |ts| ==> TokenEntry(ts[k]).Some? then None
    else
      var p := PatternOf(ts);
      assert SearchDefined(p.mask, 1);
      Some(Address(FirstHit(cells, KeptPages(maps, segment), 0, p.bytes, p.mask, bytesAddr, 1, failing)))
  }

  /**
   * find_pattern(query, segment): the pattern parsed as ProcUtil::FindPattern parses it, searched
   * with alignment 1 over the pages whose path contains `segment`. `&bytes.at(0)` throws on an
   * empty pattern; `bytesAddr` is the address of the parsed bytes.
   */
  method FindPattern(mem: Memory, query: string, segment: string, bytesAddr: nat,
                     maps: seq<MapsEntry>, failing: set<nat>) returns (r: Outcome<nat>)
    requires AllReadable(mem.cells, KeptPages(maps, segment))
    ensures match FindPatternResult(mem.cells, query, segment, bytesAddr, maps, failing)
            case None => r == Thrown
            case Some(v) => r == Returned(v)
  {
    var p := ParsePattern(query);
    if p.None? {
      return Thrown;
    }
    ghost var ts := Tokens(query);
    PatternForUnique(ts, p.value);
    var bytes, mask := p.value.bytes, p.value.mask;
    if |bytes| == 0 {
      return Thrown;
    }
    var found := QueryMemory(mem, bytes, bytesAddr, mask, 1, segment, maps, failing);
    assert bytes[..|mask|] == bytes;
    return Returned(found);
  }

  // ---------------------------------------------------------------------------------------------
  // unprotect
  // ---------------------------------------------------------------------------------------------

  /** The width of an address. */
  const WORD_BITS: nat := 64

  function Pow2(k: nat): (r: nat)
    ensures r >= 1
  {
    if k == 0 then 1 else 2 * Pow2(k - 1)
  }

  /** Bitwise and of two non-negative integers. */
  function BitAnd(a: nat, b: nat): (r: nat)
    ensures r <= a
  {
    if a == 0 || b == 0 then 0
    else (if a % 2 == 1 && b % 2 == 1 then 1 else 0) + 2 * BitAnd(a / 2, b / 2)
  }

  lemma {:induction false} Pow2Monotone(k: nat, w: nat)
    requires k <= w
    ensures Pow2(k) <= Pow2(w)
    decreases w
  {
    if k < w {
      Pow2Monotone(k, w - 1);
    }
  }

  /** Masking with w - k ones above k zeros clears the low k bits of a w-bit number. */
  lemma {:induction false} ClearLowBits(a: nat, w: nat, k: nat, b: nat)
    requires k <= w && a < Pow2(w) && b + Pow2(k) == Pow2(w)
    ensures BitAnd(a, b) == a - a % Pow2(k)
    decreases w
  {
    if a == 0 {
    } else if b == 0 {
      DivModUnique(a, Pow2(k), 0, a);
    } else if k == 0 {
      ClearLowBits(a / 2, w - 1, 0, b / 2);
    } else {
      ClearLowBits(a / 2, w - 1, k - 1, b / 2);
      ModMulSplit(a, 2, Pow2(k - 1));
    }
  }

  /**
   * unprotect's `(long)address & ~(pagesize - 1)` for a page size of 2^shift: on 64 bits the
   * complement is 2^64 - pagesize. The result is the start of the page holding `address`.
   */
  function PageBase(address: nat, shift: nat): (r: nat)
    requires address < TWO_64 && shift < WORD_BITS
    ensures r % Pow2(shift) == 0
    ensures r <= address && address < r + Pow2(shift)
  {
    PageBaseRounds(address, shift, WORD_BITS);
    BitAnd(address, TWO_64 - Pow2(shift))
  }

  /** The mask clears the offset within the page and keeps the bits above it. */
  lemma {:induction false} PageBaseRounds(address: nat, shift: nat, w: nat)
    requires address < TWO_64 && shift < w && w == WORD_BITS
    ensures Pow2(shift) <= TWO_64
    ensures BitAnd(address, TWO_64 - Pow2(shift)) == address - address % Pow2(shift)
    ensures (address - address % Pow2(shift)) % Pow2(shift) == 0
    ensures address - address % Pow2(shift) <= address < address - address % Pow2(shift) + Pow2(shift)
  {
    Pow2Word(w);
    Pow2Monotone(shift, w);
    ClearLowBits(address, w, shift, TWO_64 - Pow2(shift));
    RoundedDown(address, Pow2(shift));
  }

  /** Eight doublings multiply by 256. */
  lemma {:induction false} Pow2Byte(k: nat)
    ensures Pow2(k + 8) == 256 * Pow2(k)
  {
    var p := Pow2(k);
    assert Pow2(k + 1) == 2 * p;
    assert Pow2(k + 2) == 4 * p;
    assert Pow2(k + 3) == 8 * p;
    assert Pow2(k + 4) == 16 * p;
    assert Pow2(k + 5) == 32 * p;
    assert Pow2(k + 6) == 64 * p;
    assert Pow2(k + 7) == 128 * p;
  }

  /** 2^64, by bytes. */
  lemma {:induction false} Pow2Word(w: nat)
    requires w == WORD_BITS
    ensures Pow2(w) == TWO_64
  {
    var z := w - WORD_BITS;
    Pow2Byte(z);
    Pow2Byte(z + 8);
    Pow2Byte(z + 16);
    Pow2Byte(z + 24);
    Pow2Byte(z + 32);
    Pow2Byte(z + 40);
    Pow2Byte(z + 48);
    Pow2Byte(z + 56);
  }

  /** a - a % m is the multiple of m just at or below a. */
  lemma {:induction false} RoundedDown(a: nat, m: nat)
    requires m > 0
    ensures (a - a % m) % m == 0 && a - a % m <= a < a - a % m + m
  {
    DivModUnique(a - a % m, m, a / m, 0);
  }
}
