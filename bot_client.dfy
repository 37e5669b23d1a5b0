// The pure rules inside the bot's client (client/bot_client.cpp): how a mouse position is
// clamped into the browser window and turned into X events, in which order a button's press
// and release are sent, how a wheel delta becomes clicks of buttons 4 and 5, how the login
// URL and session id are normalised before the browser is started, and how the messages for
// the Flash side copy their names and argument lists into fixed-size buffers.
//
// The X server is modelled by the events it delivers and by how many more sends it accepts;
// finding the window (`execute_mouse_action`) is folded into an optional window description.

module BotClient {
  import opened Prelude

  function Min(a: nat, b: nat): nat
  {
    if a <= b then a else b
  }

  // ---------------------------------------------------------------------------------------------
  // Mouse events
  // ---------------------------------------------------------------------------------------------

  /**
   * The browser window as the X server describes it: the size from `XGetWindowAttributes` and
   * the origin of the window in root coordinates from `XTranslateCoordinates`.
   */
  datatype WindowInfo = WindowInfo(width: int, height: int, rootX: int, rootY: int)

  datatype EventKind = ButtonPress | ButtonRelease | MotionNotify

  /** The fields of an `XEvent` the client fills in. */
  datatype XEvent = XEvent(kind: EventKind, button: int, x: int, y: int, xRoot: int, yRoot: int)

  /** A coordinate clamped into [0, size), or only below at 0 when the size is not positive. */
  function Clamp(v: int, size: int): (r: int)
    ensures r >= 0
    ensures size > 0 ==> r < size
    ensures v < 0 ==> r == 0
    ensures 0 <= v && (size <= 0 || v < size) ==> r == v
    ensures size > 0 && v >= size ==> r == size - 1
  {
    var low := if v < 0 then 0 else v;
    if size > 0 && low >= size then size - 1 else low
  }

  /** What `prepare_mouse_event` leaves in the event context. */
  class MouseEventContext {
    var localX: int
    var localY: int
    var rootX: int
    var rootY: int

    constructor()
      ensures localX == 0 && localY == 0 && rootX == 0 && rootY == 0
    {
      localX, localY, rootX, rootY := 0, 0, 0, 0;
    }

    /**
     * prepare_mouse_event: fails when there is no window (or its attributes cannot be read);
     * otherwise stores the position clamped into the window and the window's root origin.
     */
    method Prepare(window: Option<WindowInfo>, x: int, y: int) returns (ok: bool)
      modifies this
      ensures ok <==> window.Some?
      ensures !ok ==> localX == old(localX) && localY == old(localY) && rootX == old(rootX) && rootY == old(rootY)
      ensures ok ==> localX == Clamp(x, window.value.width) && localY == Clamp(y, window.value.height)
      ensures ok ==> rootX == window.value.rootX && rootY == window.value.rootY
    {
      if window.None? {
        return false;
      }
      var attrs := window.value;
      localX := x;
      localY := y;
      if localX < 0 {
        localX := 0;
      }
      if localY < 0 {
        localY := 0;
      }
      if attrs.width > 0 && localX >= attrs.width {
        localX := attrs.width - 1;
      }
      if attrs.height > 0 && localY >= attrs.height {
        localY := attrs.height - 1;
      }
      rootX, rootY := attrs.rootX, attrs.rootY;
      return true;
    }

    /** fill_mouse_event_common: the local position, and the root position as origin plus local. */
    function Common(kind: EventKind, button: int): (e: XEvent)
      reads this
      ensures e.kind == kind && e.button == button && e.x == localX && e.y == localY
      ensures e.xRoot - e.x == rootX && e.yRoot - e.y == rootY
    {
      XEvent(kind, button, localX, localY, rootX + localX, rootY + localY)
    }
  }

  /** The event for a position inside `w`, as prepare_mouse_event and fill_mouse_event_common build it. */
  function EventAt(w: WindowInfo, x: int, y: int, kind: EventKind, button: int): (r: XEvent)
    ensures r.kind == kind && r.button == button
    ensures r.x >= 0 && r.y >= 0 && (w.width > 0 ==> r.x < w.width) && (w.height > 0 ==> r.y < w.height)
    ensures r.xRoot - r.x == w.rootX && r.yRoot - r.y == w.rootY
  {
    var lx := Clamp(x, w.width);
    var ly := Clamp(y, w.height);
    XEvent(kind, button, lx, ly, w.rootX + lx, w.rootY + ly)
  }

  /** The events send_mouse_button tries to send: the press if asked for, then the release if asked for. */
  function ButtonEvents(w: WindowInfo, x: int, y: int, button: int, press: bool, release: bool): (r: seq<XEvent>)
    ensures |r| == (if press then 1 else 0) + (if release then 1 else 0)
    ensures forall i :: 0 <= i < |r| ==> r[i] == EventAt(w, x, y, r[i].kind, button)
    ensures press ==> r[0].kind == ButtonPress
    ensures release ==> r[|r| - 1].kind == ButtonRelease
  {
    (if press then [EventAt(w, x, y, ButtonPress, button)] else []) +
    (if release then [EventAt(w, x, y, ButtonRelease, button)] else [])
  }

  /** The first `n` of `events`, or all of them: what a server that accepts `n` more sends delivers. */
  function Accepted(events: seq<XEvent>, n: nat): (r: seq<XEvent>)
    ensures |r| == Min(n, |events|) && r == events[..|r|]
  {
    events[..Min(n, |events|)]
  }

  /** The X server: the events it has delivered, and how many more `XSendEvent` calls it accepts. */
  class XServer {
    var delivered: seq<XEvent>
    var accepts: nat

    constructor(accepts: nat)
      ensures delivered == [] && this.accepts == accepts
    {
      delivered := [];
      this.accepts := accepts;
    }

    /** XSendEvent: succeeds and delivers while the server still accepts events. */
    method Send(e: XEvent) returns (ok: bool)
      modifies this
      ensures ok <==> old(accepts) > 0
      ensures delivered == old(delivered) + (if ok then [e] else [])
      ensures accepts == if ok then old(accepts) - 1 else old(accepts)
    {
      ok := accepts > 0;
      if ok {
        delivered := delivered + [e];
        accepts := accepts - 1;
      }
    }
  }

  /**
   * send_mouse_button: the press before the release, only those requested, and false at the
   * first refused send (and when there is no window).
   */
  method SendMouseButton(server: XServer, window: Option<WindowInfo>, x: int, y: int, button: int,
                         press: bool, release: bool) returns (ok: bool)
    modifies server
    ensures window.None? ==> !ok && server.delivered == old(server.delivered) && server.accepts == old(server.accepts)
    ensures window.Some? ==>
              var events := ButtonEvents(window.value, x, y, button, press, release);
              (ok <==> old(server.accepts) >= |events|) &&
              server.delivered == old(server.delivered) + Accepted(events, old(server.accepts)) &&
              server.accepts == old(server.accepts) - Min(old(server.accepts), |events|)
  {
    var ctx := new MouseEventContext();
    ok := ctx.Prepare(window, x, y);
    if !ok {
      return;
    }
    ghost var events := ButtonEvents(window.value, x, y, button, press, release);
    if press {
      var sent := server.Send(ctx.Common(ButtonPress, button));
      if !sent {
        return false;
      }
    }
    if release {
      var sent := server.Send(ctx.Common(ButtonRelease, button));
      if !sent {
        return false;
      }
    }
    return true;
  }

  /** send_mouse_move: one motion event at the clamped position. */
  method SendMouseMove(server: XServer, window: Option<WindowInfo>, x: int, y: int) returns (ok: bool)
    modifies server
    ensures ok <==> window.Some? && old(server.accepts) > 0
    ensures ok ==> server.delivered == old(server.delivered) + [EventAt(window.value, x, y, MotionNotify, 0)]
    ensures !ok ==> server.delivered == old(server.delivered)
  {
    var ctx := new MouseEventContext();
    ok := ctx.Prepare(window, x, y);
    if !ok {
      return;
    }
    ok := server.Send(ctx.Common(MotionNotify, 0));
  }

  /** BotClient::MouseClick, MouseDown and MouseUp: a press and release, a press, a release. */
  method MouseClick(server: XServer, window: Option<WindowInfo>, x: int, y: int, button: int) returns (ok: bool)
    modifies server
    ensures window.Some? ==>
              (ok <==> old(server.accepts) >= 2) &&
              server.delivered == old(server.delivered) + Accepted(ButtonEvents(window.value, x, y, button, true, true), old(server.accepts))
    ensures window.None? ==> !ok && server.delivered == old(server.delivered)
  {
    ok := SendMouseButton(server, window, x, y, button, true, true);
  }

  method MouseDown(server: XServer, window: Option<WindowInfo>, x: int, y: int, button: int) returns (ok: bool)
    modifies server
    ensures window.Some? ==>
              (ok <==> old(server.accepts) >= 1) &&
              server.delivered == old(server.delivered) + Accepted([EventAt(window.value, x, y, ButtonPress, button)], old(server.accepts))
    ensures window.None? ==> !ok && server.delivered == old(server.delivered)
  {
    ok := SendMouseButton(server, window, x, y, button, true, false);
  }

  method MouseUp(server: XServer, window: Option<WindowInfo>, x: int, y: int, button: int) returns (ok: bool)
    modifies server
    ensures window.Some? ==>
              (ok <==> old(server.accepts) >= 1) &&
              server.delivered == old(server.delivered) + Accepted([EventAt(window.value, x, y, ButtonRelease, button)], old(server.accepts))
    ensures window.None? ==> !ok && server.delivered == old(server.delivered)
  {
    ok := SendMouseButton(server, window, x, y, button, false, true);
  }

  // ---------------------------------------------------------------------------------------------
  // The wheel
  // ---------------------------------------------------------------------------------------------

  const BUTTON4: int := 4
  const BUTTON5: int := 5
  const WHEEL_DELTA: nat := 120

  function Abs(v: int): nat
  {
    if v < 0 then -v else v
  }

  /** How many wheel clicks a delta is: none for 0, otherwise |delta| / 120 rounded up. */
  function ScrollSteps(delta: int): (r: nat)
    ensures r == 0 <==> delta == 0
    ensures WHEEL_DELTA * r >= Abs(delta)
    ensures r > 0 ==> WHEEL_DELTA * (r - 1) < Abs(delta)
  {
    if delta == 0 then 0
    else
      DivModUnique(Abs(delta) + 119, WHEEL_DELTA, (Abs(delta) + 119) / WHEEL_DELTA, (Abs(delta) + 119) % WHEEL_DELTA);
      (Abs(delta) + 119) / WHEEL_DELTA
  }

  /** Button 4 scrolls up (delta >= 0), button 5 down. */
  function ScrollButton(delta: int): (r: int)
    ensures r == BUTTON4 <==> delta >= 0
    ensures r == BUTTON5 <==> delta < 0
  {
    if delta >= 0 then BUTTON4 else BUTTON5
  }

  /** `n` copies of `events`, one after the other. */
  function Repeat(events: seq<XEvent>, n: nat): (r: seq<XEvent>)
    ensures |r| == n * |events|
    ensures forall i :: 0 <= i < |r| ==> r[i] == events[i % |events|]
  {
    if n == 0 then []
    else
      var front := Repeat(events, n - 1);
      RepeatLast(front, events, n);
      front + events
  }

  /** Appending one more copy keeps every event at its position modulo the click length. */
  lemma {:induction false} RepeatLast(front: seq<XEvent>, events: seq<XEvent>, n: nat)
    requires n > 0 && |front| == (n - 1) * |events|
    requires forall i :: 0 <= i < |front| ==> front[i] == events[i % |events|]
    ensures forall i :: 0 <= i < |front| + |events| ==> (front + events)[i] == events[i % |events|]
  {
    forall i | 0 <= i < |front| + |events|
      ensures (front + events)[i] == events[i % |events|]
    {
      if i >= |front| {
        DivModUnique(i, |events|, n - 1, i - |front|);
      }
    }
  }

  /** The events a scroll tries to send: one click (press and release) of the wheel button per step. */
  function ScrollEvents(w: WindowInfo, x: int, y: int, delta: int): (r: seq<XEvent>)
    ensures |r| == 2 * ScrollSteps(delta)
  {
    Repeat(ButtonEvents(w, x, y, ScrollButton(delta), true, true), ScrollSteps(delta))
  }

  /**
   * BotClient::MouseScroll: a click of button 4 or 5 per step, stopping at the first failure;
   * true iff there was at least one step and every send was accepted.
   */
  method MouseScroll(server: XServer, window: Option<WindowInfo>, x: int, y: int, delta: int) returns (ok: bool)
    modifies server
    ensures window.Some? ==>
              (ok <==> ScrollSteps(delta) > 0 && old(server.accepts) >= 2 * ScrollSteps(delta)) &&
              server.delivered == old(server.delivered) + Accepted(ScrollEvents(window.value, x, y, delta), old(server.accepts))
    ensures window.None? ==> !ok && server.delivered == old(server.delivered)
  {
    var steps := if delta == 0 then 0 else (Abs(delta) + 119) / WHEEL_DELTA;
    var button := if delta >= 0 then BUTTON4 else BUTTON5;
    assert steps == ScrollSteps(delta) && button == ScrollButton(delta);
    ghost var click := ButtonEvents(if window.Some? then window.value else WindowInfo(0, 0, 0, 0), x, y, button, true, true);
    ghost var start := server.accepts;
    var i := 0;
    while i < steps
      invariant i <= steps && start >= 2 * i
      invariant window.None? ==> i == 0
      invariant server.delivered == old(server.delivered) + Repeat(click, i)
      invariant server.accepts == start - 2 * i
    {
      var sent := SendMouseWheel(server, window, x, y, button);
      if !sent {
        if window.Some? {
          AcceptedRepeat(click, i, steps, start);
        }
        return false;
      }
      i := i + 1;
    }
    if window.Some? {
      AcceptedRepeat(click, steps, steps, start);
    }
    return steps > 0;
  }

  /** send_mouse_wheel: a press and a release of the wheel button. */
  method SendMouseWheel(server: XServer, window: Option<WindowInfo>, x: int, y: int, button: int) returns (ok: bool)
    modifies server
    ensures window.None? ==> !ok && server.delivered == old(server.delivered) && server.accepts == old(server.accepts)
    ensures window.Some? ==>
              var events := ButtonEvents(window.value, x, y, button, true, true);
              (ok <==> old(server.accepts) >= 2) &&
              server.delivered == old(server.delivered) + Accepted(events, old(server.accepts)) &&
              server.accepts == old(server.accepts) - Min(old(server.accepts), 2)
  {
    ok := SendMouseButton(server, window, x, y, button, true, true);
  }

  /** A server that accepts `start` events delivers whole clicks and then part of the next one. */
  lemma {:induction false} AcceptedRepeat(click: seq<XEvent>, i: nat, steps: nat, start: nat)
    requires |click| == 2 && i <= steps && start >= 2 * i && (i < steps ==> start < 2 * i + 2)
    ensures i == steps ==> Repeat(click, i) == Accepted(Repeat(click, steps), start)
    ensures i < steps ==> Repeat(click, i) + Accepted(click, start - 2 * i) == Accepted(Repeat(click, steps), start)
  {
    if i < steps {
      RepeatPrefix(click, i + 1, steps);
      var whole := Repeat(click, steps);
      var k := start - 2 * i;
      assert Repeat(click, i + 1) == Repeat(click, i) + click;
      assert whole[..2 * i + 2] == Repeat(click, i) + click;
      assert Accepted(whole, start) == whole[..start];
      assert whole[..start] == (Repeat(click, i) + click)[..start];
      assert (Repeat(click, i) + click)[..start] == Repeat(click, i) + click[..k];
    } else {
      assert Repeat(click, steps)[..2 * steps] == Repeat(click, steps);
    }
  }

  lemma {:induction false} RepeatPrefix(events: seq<XEvent>, i: nat, n: nat)
    requires i <= n
    ensures Repeat(events, i) == Repeat(events, n)[..i * |events|]
    decreases n
  {
    if i < n {
      RepeatPrefix(events, i, n - 1);
      assert Repeat(events, n) == Repeat(events, n - 1) + events;
      assert i * |events| <= (n - 1) * |events| by { MulMonotone(i, n - 1, |events|); }
    } else {
      assert Repeat(events, n)[..n * |events|] == Repeat(events, n);
    }
  }

  lemma {:induction false} MulMonotone(a: nat, b: nat, c: nat)
    requires a <= b
    ensures a * c <= b * c
  {
    assert b * c == a * c + (b - a) * c;
  }

  // ---------------------------------------------------------------------------------------------
  // Starting the browser
  // ---------------------------------------------------------------------------------------------

  predicate HasNonSlash(url: string)
  {
    exists i :: 0 <= i < |url| && url[i] != '/'
  }

  /** The URL without its trailing slashes. */
  function Trimmed(url: string): (r: string)
    requires HasNonSlash(url)
    ensures |r| > 0 && r[|r| - 1] != '/'
    ensures |r| <= |url| && r == url[..|r|] && forall i :: |r| <= i < |url| ==> url[i] == '/'
    decreases |url|
  {
    if url[|url| - 1] == '/' then
      assert HasNonSlash(url[..|url| - 1]) by {
        var i :| 0 <= i < |url| && url[i] != '/';
        assert url[..|url| - 1][i] != '/';
      }
      var r := Trimmed(url[..|url| - 1]);
      assert url[..|url| - 1][..|r|] == url[..|r|];
      r
    else
      assert url[..|url|] == url;
      url
  }

  /** The trailing-slash loop of LaunchBrowser. */
  method TrimUrl(url: string) returns (r: string)
    requires HasNonSlash(url)
    ensures r == Trimmed(url)
  {
    r := url;
    while r[|r| - 1] == '/'
      invariant |r| > 0 && HasNonSlash(r) && Trimmed(r) == Trimmed(url)
      decreases |r|
    {
      assert HasNonSlash(r[..|r| - 1]) by {
        var i :| 0 <= i < |r| && r[i] != '/';
        assert r[..|r| - 1][i] != '/';
      }
      r := r[..|r| - 1];
    }
  }

  /** Trimming is the unique split into a part that does not end in `/` and a run of slashes. */
  lemma {:induction false} TrimmedUnique(url: string, head: string, slashes: nat)
    requires |head| > 0 && head[|head| - 1] != '/'
    requires url == head + seq(slashes, _ => '/')
    ensures HasNonSlash(url) && Trimmed(url) == head
  {
    assert url[|head| - 1] != '/';
    var r := Trimmed(url);
    assert url[|r| - 1] == r[|r| - 1];
    assert |r| == |head|;
    assert r == url[..|head|];
  }

  const SID_PREFIX: string := "dosid="

  /** The session id without one leading `dosid=`, when it starts with it. */
  function StripSid(sid: string): (r: string)
    ensures SID_PREFIX <= sid ==> sid == SID_PREFIX + r
    ensures !(SID_PREFIX <= sid) ==> r == sid
  {
    if SID_PREFIX <= sid then sid[|SID_PREFIX|..] else sid
  }

  const APP_IMAGE: string := "lib/backpage-linux-x86_64.AppImage"

  /** The argument vector LaunchBrowser hands to `execle` (its first element is the program path). */
  function LaunchArgv(url: string, sid: string): (r: seq<string>)
    requires HasNonSlash(url)
    ensures |r| == 9 && r[0] == APP_IMAGE
    ensures r[1] == "--sid" && r[2] == StripSid(sid) && r[3] == "--url" && r[4] == Trimmed(url) && r[5] == "--launch"
  {
    [APP_IMAGE, "--sid", StripSid(sid), "--url", Trimmed(url), "--launch",
     "--ozone-platform=x11", "--disable-background-timer-throttling", "--disable-renderer-backgrounding"]
  }

  // ---------------------------------------------------------------------------------------------
  // Messages to the Flash side
  // ---------------------------------------------------------------------------------------------

  const NAME_SIZE: nat := 64
  const SIGNATURE_SIZE: nat := 0x100
  const ARGV_CAPACITY: nat := 64

  /** The length of the C string `s` points to: up to its first NUL. */
  function CLength(s: string): (n: nat)
    ensures n <= |s| && (n < |s| ==> s[n] == '\0')
    ensures forall i :: 0 <= i < n ==> s[i] != '\0'
  {
    if s == [] then 0
    else if s[0] == '\0' then 0
    else 1 + CLength(s[1..])
  }

  /** A fixed `size`-byte buffer after `strncpy(buf, s, size)` and `buf[size - 1] = '\0'`. */
  function CopyToBuffer(s: string, size: nat): (buf: string)
    requires size > 0
    ensures |buf| == size && buf[size - 1] == '\0'
  {
    seq(size, i requires 0 <= i < size => if i < size - 1 && i < CLength(s) then s[i] else '\0')
  }

  /** The C string a buffer holds. */
  function CString(buf: string): string
  {
    buf[..CLength(buf)]
  }

  /** The buffer holds the name cut to `size - 1` characters, or at its first NUL. */
  lemma {:induction false} CopyKeepsPrefix(s: string, size: nat)
    requires size > 0
    ensures CString(CopyToBuffer(s, size)) == s[..Min(CLength(s), size - 1)]
    ensures |CString(CopyToBuffer(s, size))| <= size - 1
  {
    var buf := CopyToBuffer(s, size);
    var n := Min(CLength(s), size - 1);
    assert buf[n] == '\0';
    forall i | 0 <= i < n ensures buf[i] == s[i] && buf[i] != '\0' {
    }
    CLengthAt(buf, n);
  }

  lemma {:induction false} CLengthAt(s: string, n: nat)
    requires n < |s| && s[n] == '\0' && forall i :: 0 <= i < n ==> s[i] != '\0'
    ensures CLength(s) == n
    decreases n
  {
    if n > 0 {
      CLengthAt(s[1..], n - 1);
    }
  }

  /** The leading `min(|args|, 64)` arguments, the ones a message carries. */
  function CopiedArgs(args: seq<nat>): (r: seq<nat>)
    ensures |r| == Min(|args|, ARGV_CAPACITY) && r == args[..|r|]
  {
    args[..Min(|args|, ARGV_CAPACITY)]
  }

  datatype Message =
    | Call(target: nat, index: nat, argc: nat, argv: seq<nat>)
    | SendNotification(name: string, argc: nat, argv: seq<nat>)
    | Refine(refineUtil: nat, ore: int, amount: int)
    | UseItem(itemName: string, actionType: nat, actionBar: bool)
    | KeyClick(key: nat)
    | CheckSignature(sigObject: nat, sigIndex: nat, methodName: bool, signature: string)

  /** BotClient::SendNotification: the message sent (the screen manager is not part of it). */
  function NotificationMessage(screenManager: nat, name: string, args: seq<nat>): (m: Message)
    ensures m.SendNotification? && m.argc == Min(|args|, ARGV_CAPACITY)
    ensures m.argc == |m.argv| && m.argv == args[..m.argc]
    ensures |m.name| == NAME_SIZE && CString(m.name) == name[..Min(CLength(name), NAME_SIZE - 1)]
  {
    CopyKeepsPrefix(name, NAME_SIZE);
    var argv := CopiedArgs(args);
    SendNotification(CopyToBuffer(name, NAME_SIZE), |argv|, argv)
  }

  /** BotClient::CallMethod: the call message (the result comes back from the Flash side). */
  function CallMessage(target: nat, index: nat, args: seq<nat>): (m: Message)
    ensures m.Call? && m.target == target && m.index == index && m.argc == Min(|args|, ARGV_CAPACITY)
    ensures m.argc == |m.argv| && m.argv == args[..m.argc]
  {
    var argv := CopiedArgs(args);
    Call(target, index, |argv|, argv)
  }

  /** BotClient::UseItem. */
  function UseItemMessage(name: string, actionType: nat, bar: nat): (m: Message)
    ensures m.UseItem? && m.actionType == actionType && (m.actionBar <==> bar != 0)
    ensures |m.itemName| == NAME_SIZE && CString(m.itemName) == name[..Min(CLength(name), NAME_SIZE - 1)]
  {
    CopyKeepsPrefix(name, NAME_SIZE);
    UseItem(CopyToBuffer(name, NAME_SIZE), actionType, bar != 0)
  }

  /** BotClient::RefineOre: the unsigned ore and amount are stored in `int` fields. */
  function RefineMessage(refineUtil: nat, ore: nat, amount: nat): (m: Message)
    requires ore < TWO_32 && amount < TWO_32
    ensures m.Refine? && m.refineUtil == refineUtil
    ensures m.ore % TWO_32 == ore && m.amount % TWO_32 == amount
  {
    DivModUnique(ToInt32(ore), TWO_32, if ore < 0x8000_0000 then 0 else -1, ore);
    DivModUnique(ToInt32(amount), TWO_32, if amount < 0x8000_0000 then 0 else -1, amount);
    Refine(refineUtil, ToInt32(ore), ToInt32(amount))
  }

  /** BotClient::CheckMethodSignature: the signature is cut to 0xFF characters. */
  function SignatureMessage(target: nat, index: nat, checkName: bool, sig: string): (m: Message)
    ensures m.CheckSignature? && m.sigObject == target && m.sigIndex == index && m.methodName == checkName
    ensures |m.signature| == SIGNATURE_SIZE && CString(m.signature) == sig[..Min(CLength(sig), SIGNATURE_SIZE - 1)]
  {
    CopyKeepsPrefix(sig, SIGNATURE_SIZE);
    CheckSignature(target, index, checkName, CopyToBuffer(sig, SIGNATURE_SIZE))
  }
}
