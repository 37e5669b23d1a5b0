/**
 * The pattern-string parser shared by ProcUtil::FindPattern (client/proc_util.cpp) and
 * memory::find_pattern (do_lib/memory_linux.cpp): the string is split on single spaces the way
 * `std::getline(ss, data, ' ')` splits it; a token containing `?` becomes a wildcard, any other
 * token is read by `std::stoi(data, nullptr, 16)` and truncated to a byte.
 */
module Patterns {
  import opened Prelude

  /** A C++ call that may throw: `Thrown` stands for an exception leaving the call. */
  datatype Outcome<T> = Thrown | Returned(value: T)

  /** The bytes and the `x`/`?` mask handed to the masked search. */
  datatype Pattern = Pattern(bytes: seq<Byte>, mask: string)

  const TWO_31: int := 0x8000_0000

  // ---------------------------------------------------------------------------------------------
  // std::getline with ' ' as delimiter
  // ---------------------------------------------------------------------------------------------

  /** The index of the first space in `s`, or `|s|` when there is none. */
  function FirstSpace(s: string): (k: nat)
    ensures k <= |s| && (k < |s| ==> s[k] == ' ')
  {
    if s == [] || s[0] == ' ' then 0 else 1 + FirstSpace(s[1..])
  }

  /**
   * The tokens successive `getline(ss, data, ' ')` calls extract: every field between spaces,
   * including empty ones, except that a final space does not start another token and an empty
   * string has none.
   */
  function Tokens(s: string): (r: seq<string>)
    ensures s == [] <==> r == []
    decreases |s|, 1
  {
    if s == [] then [] else TokensFrom(s, FirstSpace(s))
  }

  /** The token ending at the space (or end) at `k`, then the tokens after it. */
  function TokensFrom(s: string, k: nat): (r: seq<string>)
    requires k <= |s|
    ensures r != []
    decreases |s|, 0
  {
    if k == |s| then [s] else [s[..k]] + Tokens(s[k + 1..])
  }

  /** The tokens put back together with one space between neighbours. */
  function Join(ts: seq<string>): string
  {
    if ts == [] then [] else if |ts| == 1 then ts[0] else ts[0] + " " + Join(ts[1..])
  }

  /** Splitting loses nothing but a trailing space: joining the tokens gives the string back. */
  lemma {:induction false} JoinTokens(s: string)
    ensures Join(Tokens(s)) + Trailing(s) == s
    decreases |s|
  {
    if s != [] {
      var k := FirstSpace(s);
      if k == |s| {
        NoSpaceBefore(s);
        assert Tokens(s) == [s];
      } else {
        var head, rest := s[..k], s[k + 1..];
        TokensCons(s, k);
        SplitAt(s, k);
        if rest == [] {
          assert Join([head]) == head;
        } else {
          JoinTokens(rest);
          JoinCons(head, Tokens(rest));
          TrailingOf(head, rest);
          Regroup(head, Join(Tokens(rest)), Trailing(rest));
        }
      }
    }
  }

  /** The space a final token separator leaves behind, which splitting drops. */
  function Trailing(s: string): string
  {
    if s != [] && s[|s| - 1] == ' ' then " " else ""
  }

  lemma {:induction false} TokensCons(s: string, k: nat)
    requires s != [] && k == FirstSpace(s) && k < |s|
    ensures Tokens(s) == [s[..k]] + Tokens(s[k + 1..])
  {
  }

  lemma {:induction false} SplitAt(s: string, k: nat)
    requires k < |s| && s[k] == ' '
    ensures s == s[..k] + " " + s[k + 1..]
  {
  }

  lemma {:induction false} TrailingOf(head: string, rest: string)
    requires rest != []
    ensures Trailing(head + " " + rest) == Trailing(rest)
  {
    var s := head + " " + rest;
    assert s[|s| - 1] == rest[|rest| - 1];
  }

  lemma {:induction false} Regroup(a: string, b: string, c: string)
    ensures a + " " + b + c == a + " " + (b + c)
  {
  }

  lemma {:induction false} JoinCons(t: string, ts: seq<string>)
    requires ts != []
    ensures Join([t] + ts) == t + " " + Join(ts)
  {
    assert ([t] + ts)[1..] == ts;
  }

  /** Conversely, space-free tokens whose last one is not empty split back into themselves. */
  lemma {:induction false} TokensJoin(ts: seq<string>)
    requires forall k :: 0 <= k < |ts| ==> forall i :: 0 <= i < |ts[k]| ==> ts[k][i] != ' '
    requires ts != [] ==> ts[|ts| - 1] != []
    ensures Tokens(Join(ts)) == ts
  {
    if |ts| == 1 {
      var t := ts[0];
      FirstSpaceOf(t, "");
      assert t + "" == t;
    } else if |ts| > 1 {
      var t, tail := ts[0], Join(ts[1..]);
      TokensJoin(ts[1..]);
      TokensOfSpaced(t, tail);
      assert [t] + ts[1..] == ts;
    }
  }

  /** A space-free token, a space and more: the token comes off first. */
  lemma {:induction false} TokensOfSpaced(t: string, tail: string)
    requires forall i :: 0 <= i < |t| ==> t[i] != ' '
    ensures Tokens(t + " " + tail) == [t] + Tokens(tail)
  {
    var s := t + " " + tail;
    FirstSpaceOf(t, " " + tail);
    assert t + " " + tail == t + (" " + tail);
    assert s[..|t|] == t && s[|t| + 1..] == tail;
    TokensCons(s, |t|);
  }

  /** No character before the first space is a space. */
  lemma {:induction false} NoSpaceBefore(s: string)
    ensures forall i :: 0 <= i < FirstSpace(s) ==> s[i] != ' '
  {
    if s != [] && s[0] != ' ' {
      NoSpaceBefore(s[1..]);
      assert forall i :: 1 <= i < FirstSpace(s) ==> s[i] == s[1..][i - 1];
    }
  }

  /** The first space of `t + rest` for a space-free `t` is the first space of `rest`, shifted. */
  lemma {:induction false} FirstSpaceOf(t: string, rest: string)
    requires forall i :: 0 <= i < |t| ==> t[i] != ' '
    requires rest == [] || rest[0] == ' '
    ensures FirstSpace(t + rest) == |t|
  {
    if t != [] {
      FirstSpaceOf(t[1..], rest);
      assert (t + rest)[1..] == t[1..] + rest;
    }
  }

  // ---------------------------------------------------------------------------------------------
  // std::stoi(data, nullptr, 16)
  // ---------------------------------------------------------------------------------------------

  /** The characters `isspace` accepts in the C locale. */
  predicate IsSpace(c: char)
  {
    c == ' ' || c == '\t' || c == '\n' || c == '\r' || c == 11 as char || c == 12 as char
  }

  function HexDigit(c: char): (r: Option<nat>)
    ensures r.Some? ==> r.value < 16
  {
    if '0' <= c <= '9' then Some(c as int - '0' as int)
    else if 'a' <= c <= 'f' then Some(c as int - 'a' as int + 10)
    else if 'A' <= c <= 'F' then Some(c as int - 'A' as int + 10)
    else None
  }

  /** The length of the run of hex digits at the head of `s`. */
  function DigitRun(s: string): (n: nat)
    ensures n <= |s| && (n < |s| ==> HexDigit(s[n]).None?)
    ensures forall i :: 0 <= i < n ==> HexDigit(s[i]).Some?
  {
    if s == [] || HexDigit(s[0]).None? then 0 else 1 + DigitRun(s[1..])
  }

  /** The value of a string of hex digits, most significant first. */
  function HexNumber(ds: string): nat
    requires forall i :: 0 <= i < |ds| ==> HexDigit(ds[i]).Some?
  {
    if ds == [] then 0 else 16 * HexNumber(ds[..|ds| - 1]) + HexDigit(ds[|ds| - 1]).value
  }

  function DropSpaces(s: string): string
  {
    if s != [] && IsSpace(s[0]) then DropSpaces(s[1..]) else s
  }

  /**
   * `std::stoi(t, nullptr, 16)`: leading white space, an optional sign, an optional `0x`/`0X`
   * (taken only when a hex digit follows), then the longest run of hex digits. No digit throws
   * `invalid_argument`; a value outside `int` throws `out_of_range`; both are `None`.
   */
  function StoiHex(t: string): (r: Option<int>)
    ensures r.Some? ==> -TWO_31 <= r.value < TWO_31
  {
    var u := DropSpaces(t);
    var negative := u != [] && u[0] == '-';
    var v := if u != [] && (u[0] == '+' || u[0] == '-') then u[1..] else u;
    var w := if |v| >= 3 && v[0] == '0' && (v[1] == 'x' || v[1] == 'X') && HexDigit(v[2]).Some? then v[2..] else v;
    var n := DigitRun(w);
    if n == 0 then None
    else
      var m: int := HexNumber(w[..n]);
      var value: int := if negative then -m else m;
      if -TWO_31 <= value < TWO_31 then Some(value) else None
  }

  /** The lower-case hex digit for `d`. */
  function HexChar(d: nat): (c: char)
    requires d < 16
    ensures HexDigit(c) == Some(d) && !IsSpace(c) && c != '+' && c != '-' && c != 'x' && c != 'X'
  {
    if d < 10 then ('0' as int + d) as char else ('a' as int + d - 10) as char
  }

  /** A byte written as two lower-case hex digits. */
  function HexByte(b: Byte): (s: string)
    ensures |s| == 2
  {
    [HexChar(b / 16), HexChar(b % 16)]
  }

  /** Two hex digits read back by stoi give the byte they spell. */
  lemma {:induction false} StoiHexByte(b: Byte)
    ensures StoiHex(HexByte(b)) == Some(b as int)
  {
    var s := HexByte(b);
    assert DropSpaces(s) == s;
    TwoDigits(s);
  }

  /** Two hex digits make a run of two whose value is first * 16 + second. */
  lemma {:induction false} TwoDigits(s: string)
    requires |s| == 2 && HexDigit(s[0]).Some? && HexDigit(s[1]).Some?
    ensures DigitRun(s) == 2 && s[..2] == s
    ensures HexNumber(s) == 16 * HexDigit(s[0]).value + HexDigit(s[1]).value
  {
    var t := s[1..];
    assert t[0] == s[1] && t[1..] == [];
    assert DigitRun(t) == 1 + DigitRun(t[1..]);
    assert DigitRun(s) == 1 + DigitRun(t);
    var h := s[..1];
    assert h[0] == s[0] && h[..0] == [];
    assert HexNumber(h) == HexDigit(s[0]).value;
    assert s[..|s| - 1] == h;
  }

  /** stoi on plain hex digits. */
  lemma {:induction false} StoiHexPlain()
    ensures StoiHex("ff") == Some(255)
  {
    assert DropSpaces("ff") == "ff";
    TwoDigits("ff");
  }

  /** stoi skips a `0x` prefix that a hex digit follows. */
  lemma {:induction false} StoiHexPrefixed()
    ensures StoiHex("0x1F") == Some(31)
  {
    var t := "0x1F";
    assert DropSpaces(t) == t;
    assert t[2..] == "1F";
    TwoDigits("1F");
  }

  /** A minus sign negates (so "-1" later truncates to 0xFF); no digit at all throws. */
  lemma {:induction false} StoiHexSignAndFailures()
    ensures StoiHex("-1") == Some(-1)
    ensures StoiHex("zz") == None && StoiHex("") == None
  {
    var u := "-1";
    assert DropSpaces(u) == u && u[1..] == "1";
    assert DigitRun("1"[1..]) == 0 && "1"[..1] == "1" && "1"[..0] == [];
    assert DropSpaces("zz") == "zz";
  }

  // ---------------------------------------------------------------------------------------------
  // The token loop
  // ---------------------------------------------------------------------------------------------

  /**
   * What one token contributes: a token containing `?` gives mask `?` and byte 0; any other
   * gives mask `x` and its stoi value truncated to 8 bits, or `None` when stoi throws.
   */
  function TokenEntry(t: string): (r: Option<(Byte, char)>)
    ensures r.Some? ==> (r.value.1 == '?' <==> '?' in t)
    ensures r.Some? && '?' in t ==> r.value.0 == 0
    ensures r.Some? && '?' !in t ==> StoiHex(t).Some? && r.value.0 == StoiHex(t).value % 256
    ensures '?' !in t ==> (r.None? <==> StoiHex(t).None?)
  {
    if '?' in t then Some((0, '?'))
    else match StoiHex(t)
      case None => None
      case Some(v) => Some((v % 256, 'x'))
  }

  /** `p` holds one byte and one mask character per token, as the tokens give them. */
  predicate PatternFor(ts: seq<string>, p: Pattern)
  {
    |p.bytes| == |ts| && |p.mask| == |ts| &&
    forall k :: 0 <= k < |ts| ==> TokenEntry(ts[k]) == Some((p.bytes[k], p.mask[k]))
  }

  /** The pattern the tokens determine, when every token parses. */
  function PatternOf(ts: seq<string>): (p: Pattern)
    requires forall k :: 0 <= k < |ts| ==> TokenEntry(ts[k]).Some?
    ensures PatternFor(ts, p)
  {
    Pattern(seq(|ts|, k requires 0 <= k < |ts| => TokenEntry(ts[k]).value.0),
            seq(|ts|, k requires 0 <= k < |ts| => TokenEntry(ts[k]).value.1))
  }

  /** The tokens fix the pattern: any pattern built for them is `PatternOf` them. */
  lemma {:induction false} PatternForUnique(ts: seq<string>, p: Pattern)
    requires PatternFor(ts, p)
    ensures forall k :: 0 <= k < |ts| ==> TokenEntry(ts[k]).Some?
    ensures p == PatternOf(ts)
  {
    var q := PatternOf(ts);
    assert p.bytes == q.bytes;
    assert p.mask == q.mask;
  }

  /**
   * The `while (std::getline(ss, data, ' '))` loop building `bytes` and `mask`; `None` when a
   * stoi call throws, which ends the loop and the caller.
   */
  method ParsePattern(query: string) returns (r: Option<Pattern>)
    ensures r.Some? <==> forall k :: 0 <= k < |Tokens(query)| ==> TokenEntry(Tokens(query)[k]).Some?
    ensures r.Some? ==> PatternFor(Tokens(query), r.value)
  {
    var rest := query;
    ghost var seen: seq<string> := [];
    var bytes: seq<Byte> := [];
    var mask: string := "";
    while rest != []
      invariant Tokens(query) == seen + Tokens(rest)
      invariant PatternFor(seen, Pattern(bytes, mask))
      invariant forall k :: 0 <= k < |seen| ==> TokenEntry(seen[k]).Some?
      decreases |rest|
    {
      var k := FirstSpace(rest);
      var data := rest[..k];
      var next := if k == |rest| then [] else rest[k + 1..];
      TokensStep(query, seen, rest);
      var b: Byte, c: char;
      if '?' in data {
        c := '?';
        b := 0;
      } else {
        var v := StoiHex(data);
        if v.None? {
          TokensPrefix(seen, Tokens(rest));
          return None;
        }
        b := v.value % 256;
        c := 'x';
      }
      PatternPush(seen, data, bytes, mask, b, c);
      mask := mask + [c];
      bytes := bytes + [b];
      seen := seen + [data];
      rest := next;
    }
    assert Tokens(query) == seen;
    return Some(Pattern(bytes, mask));
  }

  /** One more token: its entry goes at the end of the bytes and the mask. */
  lemma {:induction false} PatternPush(seen: seq<string>, t: string, bytes: seq<Byte>, mask: string, b: Byte, c: char)
    requires PatternFor(seen, Pattern(bytes, mask))
    requires forall k :: 0 <= k < |seen| ==> TokenEntry(seen[k]).Some?
    requires TokenEntry(t) == Some((b, c))
    ensures PatternFor(seen + [t], Pattern(bytes + [b], mask + [c]))
    ensures forall k :: 0 <= k < |seen + [t]| ==> TokenEntry((seen + [t])[k]).Some?
  {
  }

  /** getline takes the next token off the unread rest of the stream. */
  lemma {:induction false} TokensStep(query: string, seen: seq<string>, rest: string)
    requires rest != [] && Tokens(query) == seen + Tokens(rest)
    ensures var k := FirstSpace(rest);
            var next := if k == |rest| then [] else rest[k + 1..];
            Tokens(rest) == [rest[..k]] + Tokens(next) &&
            Tokens(query) == (seen + [rest[..k]]) + Tokens(next)
  {
    var k := FirstSpace(rest);
    if k == |rest| {
      assert rest[..k] == rest;
    }
  }

  /** A failing token found after `seen` is a failing token of the whole list. */
  lemma {:induction false} TokensPrefix(seen: seq<string>, ts: seq<string>)
    requires ts != [] && TokenEntry(ts[0]).None?
    ensures !forall k :: 0 <= k < |seen + ts| ==> TokenEntry((seen + ts)[k]).Some?
  {
    assert (seen + ts)[|seen|] == ts[0];
  }

  /** "8B ? 05" splits into three tokens: a byte, a wildcard and a byte. */
  lemma {:induction false} PatternExample()
    ensures Tokens("8B ? 05") == ["8B", "?", "05"]
    ensures TokenEntry("?") == Some((0, '?'))
  {
    var ts := ["8B", "?", "05"];
    assert Join(ts[2..]) == "05";
    assert Join(ts[1..]) == "? 05";
    assert Join(ts) == "8B ? 05";
    TokensJoin(ts);
  }
}
