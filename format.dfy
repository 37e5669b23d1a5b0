// `utils::format` (tools/utils.h): a template whose `{...}` placeholders take the arguments in
// order. `{x}` prints an integer in hex, any other single key character (or none) in
// decimal; spaces inside the braces are ignored; a `{` right after a backslash is not a
// placeholder; once the arguments run out the rest of the template is copied verbatim.
//
// A C string is modelled by its characters before the terminator. An argument is an
// integer of a given byte size, or text.

module Format {
  import opened Prelude
  import opened Patterns

  /**
   * The byte sizes of the integer types `of << value` prints as numbers: `short`, `int` and
   * `long`/`long long`. A 1-byte `char`, `int8_t` or `uint8_t` is printed as its character, so such
   * an argument is one-character `Text`.
   */
  type IntSize = s: nat | s == 2 || s == 4 || s == 8 witness 4

  /** A `format` argument: an integer of `size` bytes, or a string. */
  datatype Arg = Int(value: int, size: IntSize) | Text(text: string)

  // ---------------------------------------------------------------------------------------------
  // How `of << value` prints an argument
  // ---------------------------------------------------------------------------------------------

  /** The digits of `v` in `base`, most significant first, lower-case, no leading zero. */
  function Numeral(v: nat, base: nat): (r: string)
    requires 2 <= base <= 16
    ensures |r| >= 1
    ensures IsNumeral(r, base)
    decreases v
  {
    if v < base then [HexChar(v)]
    else
      DivLess(v, base);
      Numeral(v / base, base) + [HexChar(v % base)]
  }

  /** Every character is a digit of `base`. */
  predicate IsNumeral(ds: string, base: nat)
  {
    forall i :: 0 <= i < |ds| ==> HexDigit(ds[i]).Some? && HexDigit(ds[i]).value < base
  }

  /** The value of a string of digits in `base`. */
  function NumeralValue(ds: string, base: nat): nat
    requires forall i :: 0 <= i < |ds| ==> HexDigit(ds[i]).Some?
  {
    if ds == [] then 0 else base * NumeralValue(ds[..|ds| - 1], base) + HexDigit(ds[|ds| - 1]).value
  }

  /** The printed digits read back as the number printed, and there is no leading zero. */
  lemma {:induction false} NumeralRoundTrip(v: nat, base: nat)
    requires 2 <= base <= 16
    ensures NumeralValue(Numeral(v, base), base) == v
    ensures Numeral(v, base)[0] == '0' ==> v == 0
    decreases v
  {
    var r := Numeral(v, base);
    if v < base {
      assert r == [HexChar(v)];
      assert r[..0] == [];
      assert HexDigit(r[0]).value == v;
    } else {
      var q, d := v / base, v % base;
      DivLess(v, base);
      var init := Numeral(q, base);
      NumeralRoundTrip(q, base);
      assert r == init + [HexChar(d)];
      assert r[..|r| - 1] == init;
      assert HexDigit(r[|r| - 1]).value == d;
      assert NumeralValue(r, base) == base * q + d;
      DivMod(v, base);
      assert r[0] == init[0];
    }
  }

  lemma {:induction false} DivLess(v: nat, m: nat)
    requires m >= 2 && v > 0
    ensures v / m < v
  {
    DivMod(v, m);
    var q := v / m;
    assert m * q >= 2 * q;
  }

  lemma {:induction false} DivMod(v: nat, m: nat)
    requires m > 0
    ensures v == m * (v / m) + v % m
  {
  }

  /**
   * What `of << value` appends after `std::hex` (`hex`) or `std::dec`: a hex integer is printed
   * as the unsigned value of its bytes (two's complement for a negative one); a decimal one
   * with a `-` sign when negative; text as it is.
   */
  function Show(a: Arg, hex: bool): (r: string)
    ensures a.Int? && hex ==> IsNumeral(r, 16) && NumeralValue(r, 16) == a.value % Pow256(a.size)
    ensures a.Int? && !hex && a.value >= 0 ==> IsNumeral(r, 10) && NumeralValue(r, 10) == a.value
    ensures a.Int? && !hex && a.value < 0 ==>
              |r| > 1 && r[0] == '-' && IsNumeral(r[1..], 10) && NumeralValue(r[1..], 10) == -a.value
    ensures a.Text? ==> r == a.text
  {
    match a
    case Text(t) => t
    case Int(v, size) =>
      if hex then
        NumeralRoundTrip(v % Pow256(size), 16);
        Numeral(v % Pow256(size), 16)
      else if v < 0 then
        NumeralRoundTrip(-v, 10);
        var ds := Numeral(-v, 10);
        assert ("-" + ds)[1..] == ds;
        "-" + ds
      else
        NumeralRoundTrip(v, 10);
        Numeral(v, 10)
  }

  // ---------------------------------------------------------------------------------------------
  // The template scan
  // ---------------------------------------------------------------------------------------------

  /** `prefix` ahead of a result; undefined stays undefined. */
  function Then(prefix: string, r: Option<string>): (q: Option<string>)
    ensures q.Some? <==> r.Some?
    ensures q.Some? ==> q.value == prefix + r.value
  {
    match r
    case None => None
    case Some(t) => Some(prefix + t)
  }

  lemma {:induction false} ThenEmpty(r: Option<string>)
    ensures Then([], r) == r
  {
    if r.Some? {
      assert [] + r.value == r.value;
    }
  }

  lemma {:induction false} ThenThen(a: string, b: string, r: Option<string>)
    ensures Then(a, Then(b, r)) == Then(a + b, r)
  {
    if r.Some? {
      assert a + (b + r.value) == (a + b) + r.value;
    }
  }

  /**
   * The text `format(of, s, args...)` writes, or `None` where the code reads past the end of
   * the template (a `{` whose scan runs off the end). With no arguments left the template is
   * written as it is. The template is a C string whose loop stops at its terminating NUL, so `s`
   * stands for the characters before that NUL and holds no `'\0'` itself.
   */
  function Format(s: string, args: seq<Arg>): (r: Option<string>)
    decreases |args|, |s|, 2
  {
    if args == [] then Some(s) else Scan(s, false, args)
  }

  /** The outer loop over `t`; `escaped` says the character before `t` was a backslash. */
  function Scan(t: string, escaped: bool, args: seq<Arg>): (r: Option<string>)
    requires args != []
    decreases |args|, |t|, 1
  {
    if t == [] then Some([])
    else if t[0] == '{' && !escaped then Brace(t[1..], false, None, args)
    else Then([t[0]], Scan(t[1..], t[0] == '\\', args))
  }

  /**
   * The inner loop after an opening brace: spaces are skipped, an unescaped `}` closes the
   * placeholder, a second key character breaks out and is written, the first is remembered.
   */
  function Brace(t: string, escaped: bool, key: Option<char>, args: seq<Arg>): (r: Option<string>)
    requires args != []
    decreases |args|, |t|, 0
  {
    if t == [] then None
    else if t[0] == ' ' then Brace(t[1..], false, key, args)
    else if t[0] == '}' && !escaped then Then(Show(args[0], key == Some('x')), Format(t[1..], args[1..]))
    else if key.Some? then Then([t[0]], Scan(t[1..], t[0] == '\\', args))
    else Brace(t[1..], t[0] == '\\', Some(t[0]), args)
  }

  /**
   * format(of, s, value, args...) and format(of, s): the outer pointer loop over the template,
   * and the recursion on the remaining arguments at each placeholder.
   */
  method FormatStream(s: string, args: seq<Arg>) returns (out: string)
    requires Format(s, args).Some?
    ensures out == Format(s, args).value
    decreases |args|
  {
    if args == [] {
      return s;
    }
    out := "";
    var p := 0;
    assert s[p..] == s;
    ThenEmpty(Scan(s, false, args));
    while p < |s|
      invariant p <= |s|
      invariant Then(out, Scan(s[p..], p > 0 && s[p - 1] == '\\', args)) == Format(s, args)
    {
      assert s[p..][0] == s[p] && s[p..][1..] == s[p + 1..];
      if s[p] == '{' && (p == 0 || s[p - 1] != '\\') {
        var closed, q, key := BraceScan(s, p, args);
        if q == |s| {
          assert false;
        }
        if closed {
          var rest := FormatStream(s[q + 1..], args[1..]);
          ThenThen(out, Show(args[0], key == Some('x')), Format(s[q + 1..], args[1..]));
          return out + Show(args[0], key == Some('x')) + rest;
        }
        ThenThen(out, [s[q]], Scan(s[q + 1..], s[q] == '\\', args));
        out := out + [s[q]];
        p := q + 1;
      } else {
        ThenThen(out, [s[p]], Scan(s[p + 1..], s[p] == '\\', args));
        out := out + [s[p]];
        p := p + 1;
      }
    }
    assert s[p..] == [];
  }

  /**
   * The inner pointer loop after the `{` at `p`: it ends at `q` on the `}` that closes the
   * placeholder (`closed`, with the key seen), on a second key character, or at the end.
   */
  method BraceScan(s: string, p: nat, args: seq<Arg>) returns (closed: bool, q: nat, key: Option<char>)
    requires args != [] && p < |s| && s[p] == '{'
    ensures p < q <= |s|
    ensures q == |s| ==> Brace(s[p + 1..], false, None, args) == None
    ensures q < |s| && closed ==>
              Brace(s[p + 1..], false, None, args) == Then(Show(args[0], key == Some('x')), Format(s[q + 1..], args[1..]))
    ensures q < |s| && !closed ==>
              Brace(s[p + 1..], false, None, args) == Then([s[q]], Scan(s[q + 1..], s[q] == '\\', args))
  {
    key := None;
    q := p + 1;
    closed := false;
    while q < |s|
      invariant p < q <= |s|
      invariant Brace(s[p + 1..], false, None, args) == Brace(s[q..], s[q - 1] == '\\', key, args)
      invariant key.None? ==> s[q - 1] != '\\'
    {
      assert s[q..][0] == s[q] && s[q..][1..] == s[q + 1..];
      if s[q] == ' ' {
        q := q + 1;
      } else if s[q] == '}' && s[q - 1] != '\\' {
        closed := true;
        return;
      } else if key.Some? {
        return;
      } else {
        key := Some(s[q]);
        q := q + 1;
      }
    }
    assert s[q..] == [];
  }

  // ---------------------------------------------------------------------------------------------
  // Properties
  // ---------------------------------------------------------------------------------------------

  /** Every `{` of `t` follows a backslash (`escaped` stands for the character before `t`). */
  predicate NoPlaceholder(t: string, escaped: bool)
  {
    (|t| > 0 && t[0] == '{' ==> escaped) &&
    forall i :: 0 < i < |t| && t[i] == '{' ==> t[i - 1] == '\\'
  }

  /** Whether the character after `p` (read after `escaped`) counts as escaped. */
  function After(p: string, escaped: bool): bool
  {
    if p == [] then escaped else p[|p| - 1] == '\\'
  }

  /** Text with no placeholder is written as it is, and the scan goes on after it. */
  lemma {:induction false} ScanPlain(p: string, rest: string, escaped: bool, args: seq<Arg>)
    requires args != [] && NoPlaceholder(p, escaped)
    ensures Scan(p + rest, escaped, args) == Then(p, Scan(rest, After(p, escaped), args))
    decreases |p|
  {
    if p == [] {
      assert p + rest == rest;
      ThenEmpty(Scan(rest, After(p, escaped), args));
    } else {
      var t := p + rest;
      assert t[0] == p[0] && t[1..] == p[1..] + rest;
      assert NoPlaceholder(p[1..], p[0] == '\\') by {
        forall i | 0 < i < |p[1..]| && p[1..][i] == '{' ensures p[1..][i - 1] == '\\' {
          assert p[i + 1] == '{';
        }
        if |p| > 1 && p[1] == '{' {
          assert p[1..][0] == '{';
        }
      }
      ScanPlain(p[1..], rest, p[0] == '\\', args);
      assert After(p[1..], p[0] == '\\') == After(p, escaped);
      ThenThen([p[0]], p[1..], Scan(rest, After(p, escaped), args));
      assert [p[0]] + p[1..] == p;
      assert !(t[0] == '{' && !escaped);
      assert Scan(t, escaped, args) == Then([t[0]], Scan(t[1..], t[0] == '\\', args));
    }
  }

  /** A template without an unescaped `{` is written unchanged, whatever the arguments. */
  lemma {:induction false} NoPlaceholderUnchanged(s: string, args: seq<Arg>)
    requires NoPlaceholder(s, false)
    ensures Format(s, args) == Some(s)
  {
    if args != [] {
      ScanPlain(s, [], false, args);
      assert s + [] == s;
    }
  }

  function Spaces(n: nat): (r: string)
    ensures |r| == n && forall i :: 0 <= i < n ==> r[i] == ' '
  {
    seq(n, _ => ' ')
  }

  /** Spaces inside the braces are skipped and clear the escape. */
  lemma {:induction false} BraceSpaces(n: nat, rest: string, escaped: bool, key: Option<char>, args: seq<Arg>)
    requires args != []
    ensures Brace(Spaces(n) + rest, escaped, key, args) == Brace(rest, escaped && n == 0, key, args)
    decreases n
  {
    if n == 0 {
      assert Spaces(n) + rest == rest;
    } else {
      var t := Spaces(n) + rest;
      assert t[0] == ' ' && t[1..] == Spaces(n - 1) + rest;
      BraceSpaces(n - 1, rest, false, key, args);
    }
  }

  /** The key text of a placeholder: at most one character. */
  function KeyText(key: Option<char>): string
  {
    if key.Some? then [key.value] else []
  }

  /**
   * The first placeholder takes the first argument, printed in hex iff its key is `x`, and the
   * rest of the template is formatted with the remaining arguments.
   */
  lemma {:induction false} FirstPlaceholder(p: string, lead: nat, key: Option<char>, trail: nat, rest: string,
                                            a: Arg, args: seq<Arg>)
    requires NoPlaceholder(p, false) && !After(p, false)
    requires key.Some? ==> key.value != ' ' && key.value != '}' && (key.value == '\\' ==> trail > 0)
    ensures Format(p + "{" + Spaces(lead) + KeyText(key) + Spaces(trail) + "}" + rest, [a] + args) ==
            Then(p + Show(a, key == Some('x')), Format(rest, args))
  {
    var all := [a] + args;
    var body := KeyText(key) + Spaces(trail) + "}" + rest;
    var open := "{" + (Spaces(lead) + body);
    assert p + "{" + Spaces(lead) + KeyText(key) + Spaces(trail) + "}" + rest == p + open;
    ScanPlain(p, open, false, all);
    OpenBrace(lead, body, all);
    PlaceholderBody(key, trail, rest, a, args);
    ThenThen(p, Show(a, key == Some('x')), Format(rest, args));
  }

  /** An opening brace and the spaces after it start a placeholder with no key yet. */
  lemma {:induction false} OpenBrace(lead: nat, body: string, args: seq<Arg>)
    requires args != []
    ensures Scan("{" + (Spaces(lead) + body), false, args) == Brace(body, false, None, args)
  {
    var open := "{" + (Spaces(lead) + body);
    assert open[0] == '{' && open[1..] == Spaces(lead) + body;
    assert Scan(open, false, args) == Brace(Spaces(lead) + body, false, None, args);
    BraceSpaces(lead, body, false, None, args);
  }

  /** The part of a placeholder after its opening brace and leading spaces. */
  lemma {:induction false} PlaceholderBody(key: Option<char>, trail: nat, rest: string, a: Arg, args: seq<Arg>)
    requires key.Some? ==> key.value != ' ' && key.value != '}' && (key.value == '\\' ==> trail > 0)
    ensures Brace(KeyText(key) + Spaces(trail) + "}" + rest, false, None, [a] + args) ==
            Then(Show(a, key == Some('x')), Format(rest, args))
  {
    var all := [a] + args;
    var tail := Spaces(trail) + "}" + rest;
    var body := KeyText(key) + Spaces(trail) + "}" + rest;
    var close := "}" + rest;
    assert tail == Spaces(trail) + close;
    var esc := false;
    if key.Some? {
      assert body[0] == key.value && body[1..] == tail;
      esc := key.value == '\\';
      assert Brace(body, false, None, all) == Brace(tail, esc, key, all);
    } else {
      assert body == tail;
    }
    BraceSpaces(trail, close, esc, key, all);
    assert close[0] == '}' && close[1..] == rest;
    assert all[0] == a && all[1..] == args;
    assert Brace(close, false, key, all) == Then(Show(a, key == Some('x')), Format(rest, args));
  }

  /**
   * Two key characters stop the substitution: the brace and the first key are dropped, the
   * second is written, and the scan goes on with the same arguments.
   */
  lemma {:induction false} TwoKeysNoPlaceholder(p: string, c1: char, c2: char, rest: string, args: seq<Arg>)
    requires args != [] && NoPlaceholder(p, false) && !After(p, false)
    requires c1 != ' ' && c1 != '}' && c2 != ' ' && (c2 == '}' ==> c1 == '\\') && c2 != '\\'
    ensures Format(p + "{" + [c1, c2] + rest, args) == Then(p + [c2], Format(rest, args))
  {
    var s := p + "{" + [c1, c2] + rest;
    var open := "{" + [c1, c2] + rest;
    assert s == p + open;
    ScanPlain(p, open, false, args);
    var t := [c1, c2] + rest;
    var u := [c2] + rest;
    assert open[0] == '{' && open[1..] == t;
    assert t[0] == c1 && t[1..] == u;
    assert u[0] == c2 && u[1..] == rest;
    assert Scan(open, false, args) == Brace(t, false, None, args);
    assert Brace(t, false, None, args) == Brace(u, c1 == '\\', Some(c1), args);
    assert Brace(u, c1 == '\\', Some(c1), args) == Then([c2], Scan(rest, false, args));
    ThenThen(p, [c2], Format(rest, args));
  }

  /** Every `{` has a `}` somewhere after it. */
  predicate Closed(t: string)
  {
    forall i :: 0 <= i < |t| && t[i] == '{' ==> exists j :: i < j < |t| && t[j] == '}'
  }

  /** When every `{` is followed by a `}`, format never reads past the end of the template. */
  lemma {:induction false} ClosedDefined(s: string, args: seq<Arg>)
    requires Closed(s)
    ensures Format(s, args).Some?
    decreases |args|, |s|, 2
  {
    if args != [] {
      ScanDefined(s, false, args);
    }
  }

  lemma {:induction false} ScanDefined(t: string, escaped: bool, args: seq<Arg>)
    requires args != [] && Closed(t)
    ensures Scan(t, escaped, args).Some?
    decreases |args|, |t|, 1
  {
    if t != [] {
      ClosedTail(t);
      if t[0] == '{' && !escaped {
        var j :| 0 < j < |t| && t[j] == '}';
        assert t[1..][j - 1] == '}';
        BraceDefined(t[1..], false, None, args);
      } else {
        ScanDefined(t[1..], t[0] == '\\', args);
      }
    }
  }

  lemma {:induction false} BraceDefined(t: string, escaped: bool, key: Option<char>, args: seq<Arg>)
    requires args != [] && Closed(t) && (exists j :: 0 <= j < |t| && t[j] == '}')
    requires key.None? ==> !escaped
    ensures Brace(t, escaped, key, args).Some?
    decreases |args|, |t|, 0
  {
    var j :| 0 <= j < |t| && t[j] == '}';
    ClosedTail(t);
    if t[0] == ' ' {
      assert t[1..][j - 1] == '}';
      BraceDefined(t[1..], false, key, args);
    } else if t[0] == '}' && !escaped {
      ClosedDefined(t[1..], args[1..]);
    } else if key.Some? {
      ScanDefined(t[1..], t[0] == '\\', args);
    } else {
      assert j > 0 && t[1..][j - 1] == '}';
      BraceDefined(t[1..], t[0] == '\\', Some(t[0]), args);
    }
  }

  lemma {:induction false} ClosedTail(t: string)
    requires t != [] && Closed(t)
    ensures Closed(t[1..])
  {
    forall i | 0 <= i < |t[1..]| && t[1..][i] == '{' ensures exists j :: i < j < |t[1..]| && t[1..][j] == '}' {
      assert t[i + 1] == '{';
      var j :| i + 1 < j < |t| && t[j] == '}';
      assert t[1..][j - 1] == '}';
    }
  }

  /** `{x}` prints its argument in hex. */
  lemma {:induction false} HexExample()
    ensures Format("{x}", [Int(255, 4)]) == Some("ff")
  {
    FirstPlaceholder([], 0, Some('x'), 0, [], Int(255, 4), []);
    assert "{x}" == [] + "{" + Spaces(0) + KeyText(Some('x')) + Spaces(0) + "}" + [];
    Pow256Four();
    DivModUnique(255, 0x1_0000_0000, 0, 255);
    FF();
    assert Show(Int(255, 4), true) == "ff";
    assert [Int(255, 4)] + [] == [Int(255, 4)];
    assert Format([], []) == Some([]);
    assert [] + "ff" + [] == "ff";
  }

  /** A negative `int` prints in hex as the unsigned value of its four bytes. */
  lemma {:induction false} NegativeHexExample()
    ensures Format("{x}", [Int(-1, 4)]) == Some("ffffffff")
  {
    FirstPlaceholder([], 0, Some('x'), 0, [], Int(-1, 4), []);
    assert "{x}" == [] + "{" + Spaces(0) + KeyText(Some('x')) + Spaces(0) + "}" + [];
    Pow256Four();
    DivModUnique(-1, 0x1_0000_0000, -1, 0xFFFF_FFFF);
    AllF();
    assert Show(Int(-1, 4), true) == "ffffffff";
    assert [Int(-1, 4)] + [] == [Int(-1, 4)];
    assert Format([], []) == Some([]);
    assert [] + "ffffffff" + [] == "ffffffff";
  }

  /** 2^32 - 1 is eight `f` digits. */
  lemma {:induction false} AllF()
    ensures Numeral(0xFFFF_FFFF, 16) == "ffffffff"
  {
    FF();
    DivModUnique(0xFFF, 16, 0xFF, 15);
    assert Numeral(0xFFF, 16) == "fff";
    DivModUnique(0xFFFF, 16, 0xFFF, 15);
    assert Numeral(0xFFFF, 16) == "ffff";
    DivModUnique(0xF_FFFF, 16, 0xFFFF, 15);
    assert Numeral(0xF_FFFF, 16) == "fffff";
    DivModUnique(0xFF_FFFF, 16, 0xF_FFFF, 15);
    assert Numeral(0xFF_FFFF, 16) == "ffffff";
    DivModUnique(0xFFF_FFFF, 16, 0xFF_FFFF, 15);
    assert Numeral(0xFFF_FFFF, 16) == "fffffff";
    DivModUnique(0xFFFF_FFFF, 16, 0xFFF_FFFF, 15);
  }

  lemma {:induction false} Pow256Four()
    ensures Pow256(4) == 0x1_0000_0000
  {
    assert Pow256(1) == 256;
    assert Pow256(2) == 0x1_0000;
    assert Pow256(3) == 0x100_0000;
  }

  lemma {:induction false} FF()
    ensures Numeral(255, 16) == "ff"
  {
    assert Numeral(15, 16) == "f";
    DivModUnique(255, 16, 15, 15);
  }

  /** Two key characters: the brace and the first key vanish, and the rest is copied. */
  lemma {:induction false} TwoKeysExample()
    ensures Format("{ab}", [Int(5, 4)]) == Some("b}")
  {
    TwoKeysNoPlaceholder([], 'a', 'b', "}", [Int(5, 4)]);
    assert "{ab}" == [] + "{" + ['a', 'b'] + "}";
    NoPlaceholderUnchanged("}", [Int(5, 4)]);
    assert [] + ['b'] + "}" == "b}";
  }
}
