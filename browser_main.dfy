// The browser's main process (browser/src/main.js): the command line it is started with,
// the commands it accepts on its socket, and the page it loads first.
//
// A socket message is split on `|`; `refresh` reloads the page, and the key commands take
// exactly one argument. The `text` command calls `typeText`, which key_handler.js does not
// export, so that branch throws before anything is typed.

module BrowserMain {
  import opened Prelude
  import opened Patterns
  import opened Format
  import BotClient

  // ---------------------------------------------------------------------------------------------
  // Splitting a message
  // ---------------------------------------------------------------------------------------------

  const SEPARATOR: char := '|'

  /** `data.split("|")`: the fields between separators; there is always at least one. */
  function Split(s: string): (r: seq<string>)
    ensures |r| >= 1
    ensures forall i :: 0 <= i < |r| ==> SEPARATOR !in r[i]
    decreases |s|
  {
    if s == [] then [[]]
    else
      var rest := Split(s[1..]);
      if s[0] == SEPARATOR then [[]] + rest
      else [[s[0]] + rest[0]] + rest[1..]
  }

  /** The fields joined back with separators. */
  function Join(fields: seq<string>): string
    requires |fields| >= 1
    decreases |fields|
  {
    if |fields| == 1 then fields[0] else fields[0] + [SEPARATOR] + Join(fields[1..])
  }

  /** Splitting and joining give the message back. */
  lemma {:induction false} JoinSplit(s: string)
    ensures Join(Split(s)) == s
    decreases |s|
  {
    if s != [] {
      var rest := Split(s[1..]);
      JoinSplit(s[1..]);
      if s[0] == SEPARATOR {
        assert Split(s)[1..] == rest;
        assert [] + [SEPARATOR] + Join(rest) == s;
      } else if |rest| == 1 {
        assert Join(Split(s)) == [s[0]] + rest[0];
      } else {
        assert Split(s)[1..] == rest[1..];
        assert Join(rest) == rest[0] + [SEPARATOR] + Join(rest[1..]);
      }
    }
  }

  /** Fields without separators, once joined, split back into themselves. */
  lemma {:induction false} SplitJoin(fields: seq<string>)
    requires |fields| >= 1 && forall i :: 0 <= i < |fields| ==> SEPARATOR !in fields[i]
    ensures Split(Join(fields)) == fields
    decreases |fields|
  {
    if |fields| == 1 {
      SplitField(fields[0], []);
      assert fields[0] + [] == fields[0];
    } else {
      SplitJoin(fields[1..]);
      SplitField(fields[0], [SEPARATOR] + Join(fields[1..]));
      assert Split([SEPARATOR] + Join(fields[1..])) == [[]] + fields[1..] by {
        assert ([SEPARATOR] + Join(fields[1..]))[1..] == Join(fields[1..]);
      }
      assert fields[0] + [SEPARATOR] + Join(fields[1..]) == fields[0] + ([SEPARATOR] + Join(fields[1..]));
      assert fields[0] + [] == fields[0];
      assert [fields[0]] + fields[1..] == fields;
    }
  }

  /** A field without separators extends the first field of whatever follows it. */
  lemma {:induction false} SplitField(a: string, rest: string)
    requires SEPARATOR !in a
    ensures Split(a + rest) == [a + Split(rest)[0]] + Split(rest)[1..]
    decreases |a|
  {
    if a != [] {
      SplitField(a[1..], rest);
      assert (a + rest)[0] == a[0] && (a + rest)[1..] == a[1..] + rest;
      assert [a[0]] + (a[1..] + Split(rest)[0]) == a + Split(rest)[0];
    } else {
      assert a + rest == rest && a + Split(rest)[0] == Split(rest)[0];
      assert Split(rest) == [Split(rest)[0]] + Split(rest)[1..];
    }
  }

  // ---------------------------------------------------------------------------------------------
  // Routing
  // ---------------------------------------------------------------------------------------------

  /** What a socket message makes the browser do. */
  datatype Command =
    | Reload
    | KeyClick(code: string)
    | KeyDown(code: string)
    | KeyUp(code: string)
    | TypeTextFails(text: string)
    | Nothing

  /**
   * The `data` handler: nothing without a window; `refresh` as the first field reloads
   * whatever follows; otherwise only a two-field message with a known command acts.
   */
  function Route(data: string, hasWindow: bool): (c: Command)
    ensures !hasWindow ==> c == Nothing
    ensures hasWindow && Split(data)[0] == "refresh" ==> c == Reload
    ensures c != Nothing && c != Reload ==> |Split(data)| == 2
  {
    var args := Split(data);
    if !hasWindow then Nothing
    else if args[0] == "refresh" then Reload
    else if |args| == 2 then
      if args[0] == "keyClick" then KeyClick(args[1])
      else if args[0] == "keyDown" then KeyDown(args[1])
      else if args[0] == "keyUp" then KeyUp(args[1])
      else if args[0] == "text" then TypeTextFails(args[1])
      else Nothing
    else Nothing
  }

  /** `refresh`, alone or followed by any fields, reloads. */
  lemma {:induction false} RefreshReloads(rest: string)
    ensures Route("refresh", true) == Reload
    ensures Route("refresh" + [SEPARATOR] + rest, true) == Reload
  {
    SplitField("refresh", []);
    assert "refresh" + [] == "refresh";
    assert Split([]) == [[]];
    SplitField("refresh", [SEPARATOR] + rest);
    assert "refresh" + [SEPARATOR] + rest == "refresh" + ([SEPARATOR] + rest);
    assert Split([SEPARATOR] + rest)[0] == [] by {
      assert ([SEPARATOR] + rest)[1..] == rest;
    }
    assert "refresh" + [] == "refresh";
  }

  /** A command word and one argument without separators are routed by the word. */
  lemma {:induction false} RouteTwoFields(word: string, arg: string)
    requires SEPARATOR !in word && SEPARATOR !in arg && word != "refresh"
    ensures Route(word + [SEPARATOR] + arg, true) ==
            if word == "keyClick" then KeyClick(arg)
            else if word == "keyDown" then KeyDown(arg)
            else if word == "keyUp" then KeyUp(arg)
            else if word == "text" then TypeTextFails(arg)
            else Nothing
  {
    SplitJoin([word, arg]);
    assert Join([word, arg]) == word + [SEPARATOR] + arg by {
      assert [word, arg][1..] == [arg];
    }
  }

  /** A message of three fields is ignored unless its first field is `refresh`. */
  lemma {:induction false} ThreeFieldsIgnored(a: string, b: string, c: string)
    requires SEPARATOR !in a && SEPARATOR !in b && SEPARATOR !in c && a != "refresh"
    ensures Route(a + [SEPARATOR] + b + [SEPARATOR] + c, true) == Nothing
  {
    SplitJoin([a, b, c]);
    assert Join([a, b, c]) == a + [SEPARATOR] + b + [SEPARATOR] + c by {
      assert [a, b, c][1..] == [b, c];
      assert [b, c][1..] == [c];
      assert Join([c]) == c;
      assert Join([b, c]) == b + [SEPARATOR] + c;
      assert Join([a, b, c]) == a + [SEPARATOR] + (b + [SEPARATOR] + c);
    }
  }

  /** A decimal number has no separator in it. */
  lemma {:induction false} DecimalHasNoSeparator(v: int, size: IntSize)
    ensures SEPARATOR !in Show(Int(v, size), false)
  {
    var r := Show(Int(v, size), false);
    if v >= 0 {
      assert forall i :: 0 <= i < |r| ==> HexDigit(r[i]).Some?;
    } else {
      assert forall i :: 1 <= i < |r| ==> HexDigit(r[1..][i - 1]).Some? && r[i] == r[1..][i - 1];
    }
    assert HexDigit(SEPARATOR).None?;
  }

  /** A `{}` placeholder after a plain prefix prints the first argument in decimal. */
  lemma {:induction false} PlainPlaceholder(p: string, rest: string, a: Arg, args: seq<Arg>)
    requires NoPlaceholder(p, false) && !After(p, false)
    ensures Format.Format(p + "{}" + rest, [a] + args) == Then(p + Show(a, false), Format.Format(rest, args))
  {
    assert Spaces(0) == [] && KeyText(None) == [];
    assert p + "{}" + rest == p + "{" + Spaces(0) + KeyText(None) + Spaces(0) + "}" + rest;
    FirstPlaceholder(p, 0, None, 0, rest, a, args);
  }

  /** The text DarkTanos.setSize formats: the two sizes in decimal after `setSize`. */
  lemma {:induction false} SetSizeText(w: int, h: int)
    ensures Format.Format("setSize|{}|{}", [Int(w, 4), Int(h, 4)]) ==
            Some("setSize|" + Show(Int(w, 4), false) + "|" + Show(Int(h, 4), false))
  {
    var sw, sh := Show(Int(w, 4), false), Show(Int(h, 4), false);
    assert Format.Format("|{}", [Int(h, 4)]) == Some("|" + sh) by {
      assert NoPlaceholder("|", false) && !After("|", false);
      assert "|{}" == "|" + "{}" + "";
      assert [Int(h, 4)] == [Int(h, 4)] + [];
      PlainPlaceholder("|", "", Int(h, 4), []);
      assert Format.Format("", []) == Some("");
      assert "|" + sh + "" == "|" + sh;
    }
    assert NoPlaceholder("setSize|", false) && !After("setSize|", false);
    assert "setSize|{}|{}" == "setSize|" + "{}" + "|{}";
    assert [Int(w, 4), Int(h, 4)] == [Int(w, 4)] + [Int(h, 4)];
    PlainPlaceholder("setSize|", "|{}", Int(w, 4), [Int(h, 4)]);
    assert "setSize|" + sw + ("|" + sh) == "setSize|" + sw + "|" + sh;
  }

  /**
   * The `setSize|{}|{}` command that DarkTanos.setSize sends has three fields, so the
   * browser never acts on it.
   */
  lemma {:induction false} SetSizeIgnored(w: int, h: int)
    ensures Format.Format("setSize|{}|{}", [Int(w, 4), Int(h, 4)]).Some?
    ensures Route(Format.Format("setSize|{}|{}", [Int(w, 4), Int(h, 4)]).value, true) == Nothing
  {
    var sw, sh := Show(Int(w, 4), false), Show(Int(h, 4), false);
    SetSizeText(w, h);
    DecimalHasNoSeparator(w, 4);
    DecimalHasNoSeparator(h, 4);
    assert "setSize|" + sw + "|" + sh == "setSize" + [SEPARATOR] + sw + [SEPARATOR] + sh;
    ThreeFieldsIgnored("setSize", sw, sh);
  }

  // ---------------------------------------------------------------------------------------------
  // The command line
  // ---------------------------------------------------------------------------------------------

  /** What parseArgv returns; an absent value is JavaScript's `undefined`. */
  datatype Options = Options(url: Option<string>, sid: Option<string>, launchGame: bool)

  const NO_OPTIONS: Options := Options(None, None, false)

  /** `process.argv[j]`. */
  function ValueAt(argv: seq<string>, j: nat): Option<string>
  {
    if j < |argv| then Some(argv[j]) else None
  }

  predicate IsFlag(arg: string)
  {
    arg == "--url" || arg == "--sid" || arg == "--launch"
  }

  /** The parse from index `i` on, with the options found so far. */
  function ParseFrom(argv: seq<string>, i: nat, o: Options): (r: Options)
    ensures o.launchGame ==> r.launchGame
    ensures (forall j :: i <= j < |argv| ==> !IsFlag(argv[j])) ==> r == o
    decreases |argv| - i
  {
    if i >= |argv| then o
    else if argv[i] == "--url" then ParseFrom(argv, i + 2, o.(url := ValueAt(argv, i + 1)))
    else if argv[i] == "--sid" then ParseFrom(argv, i + 2, o.(sid := ValueAt(argv, i + 1)))
    else if argv[i] == "--launch" then ParseFrom(argv, i + 1, o.(launchGame := true))
    else ParseFrom(argv, i + 1, o)
  }

  function Parsed(argv: seq<string>): Options
  {
    ParseFrom(argv, 0, NO_OPTIONS)
  }

  /** parseArgv: the loop over `process.argv`, stepping over the value after `--url` and `--sid`. */
  method ParseArgv(argv: seq<string>) returns (o: Options)
    ensures o == Parsed(argv)
  {
    var url, sid, launchGame := None, None, false;
    var i := 0;
    while i < |argv|
      invariant ParseFrom(argv, i, Options(url, sid, launchGame)) == Parsed(argv)
      decreases |argv| - i
    {
      if argv[i] == "--url" {
        i := i + 1;
        url := ValueAt(argv, i);
      } else if argv[i] == "--sid" {
        i := i + 1;
        sid := ValueAt(argv, i);
      } else if argv[i] == "--launch" {
        launchGame := true;
      }
      i := i + 1;
    }
    o := Options(url, sid, launchGame);
  }

  /** `launchGame` stays false unless `--launch` is an argument. */
  lemma {:induction false} LaunchNeedsFlag(argv: seq<string>, i: nat, o: Options)
    requires forall k :: 0 <= k < |argv| ==> argv[k] != "--launch"
    ensures ParseFrom(argv, i, o).launchGame == o.launchGame
    decreases |argv| - i
  {
    if i < |argv| {
      if argv[i] == "--url" {
        LaunchNeedsFlag(argv, i + 2, o.(url := ValueAt(argv, i + 1)));
      } else if argv[i] == "--sid" {
        LaunchNeedsFlag(argv, i + 2, o.(sid := ValueAt(argv, i + 1)));
      } else {
        LaunchNeedsFlag(argv, i + 1, o);
      }
    }
  }

  /** A url that was found is the argument right after some `--url`. */
  lemma {:induction false} UrlFollowsFlag(argv: seq<string>, i: nat, o: Options)
    requires o.url.None?
    ensures ParseFrom(argv, i, o).url.Some? ==>
              exists k :: 0 < k < |argv| && argv[k - 1] == "--url" && ParseFrom(argv, i, o).url.value == argv[k]
    decreases |argv| - i
  {
    if i < |argv| {
      if argv[i] == "--url" {
        var o' := o.(url := ValueAt(argv, i + 1));
        if o'.url.Some? {
          UrlFrom(argv, i + 2, o', i + 1);
        } else {
          UrlFollowsFlag(argv, i + 2, o');
        }
      } else if argv[i] == "--sid" {
        UrlFollowsFlag(argv, i + 2, o.(sid := ValueAt(argv, i + 1)));
      } else if argv[i] == "--launch" {
        UrlFollowsFlag(argv, i + 1, o.(launchGame := true));
      } else {
        UrlFollowsFlag(argv, i + 1, o);
      }
    }
  }

  lemma {:induction false} UrlFrom(argv: seq<string>, i: nat, o: Options, k: nat)
    requires 0 < k < |argv| && argv[k - 1] == "--url" && o.url == Some(argv[k])
    ensures ParseFrom(argv, i, o).url.Some? ==>
              exists k :: 0 < k < |argv| && argv[k - 1] == "--url" && ParseFrom(argv, i, o).url.value == argv[k]
    decreases |argv| - i
  {
    if i < |argv| {
      if argv[i] == "--url" {
        var o' := o.(url := ValueAt(argv, i + 1));
        if o'.url.Some? {
          UrlFrom(argv, i + 2, o', i + 1);
        } else {
          UrlFollowsFlag(argv, i + 2, o');
        }
      } else if argv[i] == "--sid" {
        UrlFrom(argv, i + 2, o.(sid := ValueAt(argv, i + 1)), k);
      } else if argv[i] == "--launch" {
        UrlFrom(argv, i + 1, o.(launchGame := true), k);
      } else {
        UrlFrom(argv, i + 1, o, k);
      }
    }
  }

  /** The walk from `i` ends exactly at the end of `p`: no flag in `p` is missing its value. */
  predicate Aligned(p: seq<string>, i: nat)
    decreases |p| - i
  {
    if i >= |p| then i == |p|
    else if p[i] == "--url" || p[i] == "--sid" then Aligned(p, i + 2)
    else Aligned(p, i + 1)
  }

  /** Parsing `p + q` parses `p`, then `q` with the options `p` gave. */
  lemma {:induction false} ParseConcat(p: seq<string>, q: seq<string>, i: nat, o: Options)
    requires Aligned(p, i)
    ensures ParseFrom(p + q, i, o) == ParseFrom(q, 0, ParseFrom(p, i, o))
    decreases |p| - i
  {
    var s := p + q;
    if i == |p| {
      ParseShift(p, q, 0, o);
    } else {
      assert s[i] == p[i];
      if p[i] == "--url" {
        assert s[i + 1] == p[i + 1] && ValueAt(s, i + 1) == ValueAt(p, i + 1);
        ParseConcat(p, q, i + 2, o.(url := ValueAt(p, i + 1)));
      } else if p[i] == "--sid" {
        assert s[i + 1] == p[i + 1] && ValueAt(s, i + 1) == ValueAt(p, i + 1);
        ParseConcat(p, q, i + 2, o.(sid := ValueAt(p, i + 1)));
      } else if p[i] == "--launch" {
        ParseConcat(p, q, i + 1, o.(launchGame := true));
      } else {
        ParseConcat(p, q, i + 1, o);
      }
    }
  }

  lemma {:induction false} ParseShift(p: seq<string>, q: seq<string>, j: nat, o: Options)
    ensures ParseFrom(p + q, |p| + j, o) == ParseFrom(q, j, o)
    decreases |q| - j
  {
    var s := p + q;
    if j < |q| {
      assert s[|p| + j] == q[j];
      assert ValueAt(s, |p| + j + 1) == ValueAt(q, j + 1);
      if q[j] == "--url" {
        ParseShift(p, q, j + 2, o.(url := ValueAt(q, j + 1)));
      } else if q[j] == "--sid" {
        ParseShift(p, q, j + 2, o.(sid := ValueAt(q, j + 1)));
      } else if q[j] == "--launch" {
        ParseShift(p, q, j + 1, o.(launchGame := true));
      } else {
        ParseShift(p, q, j + 1, o);
      }
    }
  }

  /** A later `--url` overrides every earlier one. */
  lemma {:induction false} LaterUrlWins(p: seq<string>, v: string)
    requires Aligned(p, 0)
    ensures Parsed(p + ["--url", v]) == Parsed(p).(url := Some(v))
  {
    ParseConcat(p, ["--url", v], 0, NO_OPTIONS);
  }

  /** A later `--sid` overrides every earlier one. */
  lemma {:induction false} LaterSidWins(p: seq<string>, v: string)
    requires Aligned(p, 0)
    ensures Parsed(p + ["--sid", v]) == Parsed(p).(sid := Some(v))
  {
    ParseConcat(p, ["--sid", v], 0, NO_OPTIONS);
  }

  /** Arguments that are not flags change nothing. */
  lemma {:induction false} NoFlagsNoOptions(p: seq<string>, i: nat, o: Options)
    requires forall k :: 0 <= k < |p| ==> !IsFlag(p[k])
    ensures Aligned(p, i) <==> i <= |p|
    ensures ParseFrom(p, i, o) == o
    decreases |p| - i
  {
    if i < |p| {
      NoFlagsNoOptions(p, i + 1, o);
    }
  }

  /**
   * The arguments BotClient.LaunchBrowser starts the browser with parse to the trimmed url,
   * the stripped session id and `launchGame`, whatever runtime entries without flags precede them.
   */
  lemma {:induction false} LaunchArgvParses(pre: seq<string>, url: string, sid: string)
    requires BotClient.HasNonSlash(url) && forall k :: 0 <= k < |pre| ==> !IsFlag(pre[k])
    ensures Parsed(pre + BotClient.LaunchArgv(url, sid)[1..]) == Options(Some(BotClient.Trimmed(url)), Some(BotClient.StripSid(sid)), true)
  {
    var args := BotClient.LaunchArgv(url, sid)[1..];
    NoFlagsNoOptions(pre, 0, NO_OPTIONS);
    ParseConcat(pre, args, 0, NO_OPTIONS);
    var o1 := NO_OPTIONS.(sid := Some(BotClient.StripSid(sid)));
    var o2 := o1.(url := Some(BotClient.Trimmed(url)));
    var o3 := o2.(launchGame := true);
    assert ParseFrom(args, 0, NO_OPTIONS) == ParseFrom(args, 2, o1);
    assert ParseFrom(args, 2, o1) == ParseFrom(args, 4, o2);
    assert ParseFrom(args, 4, o2) == ParseFrom(args, 5, o3);
    assert |args| == 8;
    assert !IsFlag(args[5]) && !IsFlag(args[6]) && !IsFlag(args[7]);
    assert ParseFrom(args, 5, o3) == ParseFrom(args, 6, o3);
    assert ParseFrom(args, 6, o3) == ParseFrom(args, 7, o3);
    assert ParseFrom(args, 7, o3) == ParseFrom(args, 8, o3) == o3;
  }

  // ---------------------------------------------------------------------------------------------
  // The first page
  // ---------------------------------------------------------------------------------------------

  const DEFAULT_PAGE: string := "https://darkorbit.com"

  /** JavaScript truthiness of a string that may be `undefined`. */
  predicate Truthy(s: Option<string>)
  {
    s.Some? && s.value != []
  }

  /** createWindow: the game page when both url and sid are set, otherwise the default page. */
  function LoginUrl(o: Options): (r: string)
    ensures Truthy(o.url) && Truthy(o.sid) ==> o.url.value <= r
    ensures !(Truthy(o.url) && Truthy(o.sid)) ==> r == DEFAULT_PAGE
  {
    if Truthy(o.url) && Truthy(o.sid) then
      o.url.value + "/indexInternal.es?action=" + (if o.launchGame then "internalMapRevolution " else "internalStart")
    else DEFAULT_PAGE
  }

  /** A browser started by the client with a real session id opens the game map. */
  lemma {:induction false} LaunchedLoginUrl(pre: seq<string>, url: string, sid: string)
    requires BotClient.HasNonSlash(url) && forall k :: 0 <= k < |pre| ==> !IsFlag(pre[k])
    ensures BotClient.StripSid(sid) != [] ==>
              LoginUrl(Parsed(pre + BotClient.LaunchArgv(url, sid)[1..])) ==
              BotClient.Trimmed(url) + "/indexInternal.es?action=internalMapRevolution "
    ensures BotClient.StripSid(sid) == [] ==> LoginUrl(Parsed(pre + BotClient.LaunchArgv(url, sid)[1..])) == DEFAULT_PAGE
  {
    LaunchArgvParses(pre, url, sid);
    GameLoginUrl(Parsed(pre + BotClient.LaunchArgv(url, sid)[1..]));
  }

  /** With a url and a session id, a launched browser opens the game map under that url. */
  lemma {:induction false} GameLoginUrl(o: Options)
    requires o.url.Some? && o.url.value != [] && o.sid.Some? && o.launchGame
    ensures o.sid.value != [] ==> LoginUrl(o) == o.url.value + "/indexInternal.es?action=internalMapRevolution "
    ensures o.sid.value == [] ==> LoginUrl(o) == DEFAULT_PAGE
  {
    assert "/indexInternal.es?action=" + "internalMapRevolution " == "/indexInternal.es?action=internalMapRevolution ";
  }
}
