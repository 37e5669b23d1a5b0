// Key input for the browser window (browser/src/key_handler.js): a numeric key code is
// resolved to the key name Electron expects, through a table of named keys, a table of OEM
// punctuation keys, and otherwise the character with that code; key events and typed text
// become input events sent to the page.
//
// JavaScript strings are sequences of UTF-16 code units: `String.fromCharCode` can produce a
// lone surrogate, so key names are modelled as such sequences, not as Dafny strings.

module KeyHandler {
  import opened Prelude

  /** One UTF-16 code unit. */
  type CodeUnit = u: int | 0 <= u < 0x1_0000

  /** A JavaScript string. */
  type JsString = seq<CodeUnit>

  /** The UTF-16 encoding of a character: one unit, or a surrogate pair above U+FFFF. */
  function CharUnits(c: char): (r: JsString)
    ensures 1 <= |r| <= 2
    ensures (c as int) < 0x1_0000 ==> r == [c as int]
    ensures |r| == 2 ==> 0xD800 <= r[0] < 0xDC00 <= r[1] < 0xE000 &&
                         (r[0] as int - 0xD800) * 0x400 + (r[1] as int - 0xDC00) + 0x1_0000 == c as int
  {
    var v := c as int;
    if v < 0x1_0000 then [v]
    else
      var hi, lo := (v - 0x1_0000) / 0x400, (v - 0x1_0000) % 0x400;
      assert hi < 0x400;
      [0xD800 + hi, 0xDC00 + lo]
  }

  /** The JavaScript string for a Dafny string literal. */
  function Js(s: string): (r: JsString)
    ensures |r| >= |s|
  {
    if s == [] then [] else CharUnits(s[0]) + Js(s[1..])
  }

  /** `specialKeys`: named keys by their Windows virtual key code. */
  function SpecialKey(code: int): (r: Option<string>)
    ensures r.Some? ==> |r.value| >= 2
  {
    match code
    case 8 => Some("Backspace") case 9 => Some("Tab") case 13 => Some("Enter") case 16 => Some("Shift")
    case 17 => Some("Control") case 18 => Some("Alt") case 19 => Some("Pause") case 20 => Some("CapsLock")
    case 27 => Some("Escape") case 32 => Some("Space")
    case 33 => Some("PageUp") case 34 => Some("PageDown") case 35 => Some("End") case 36 => Some("Home")
    case 37 => Some("ArrowLeft") case 38 => Some("ArrowUp") case 39 => Some("ArrowRight") case 40 => Some("ArrowDown")
    case 45 => Some("Insert") case 46 => Some("Delete")
    case 91 => Some("Meta") case 92 => Some("Meta") case 93 => Some("ContextMenu")
    case 96 => Some("Numpad0") case 97 => Some("Numpad1") case 98 => Some("Numpad2") case 99 => Some("Numpad3")
    case 100 => Some("Numpad4") case 101 => Some("Numpad5") case 102 => Some("Numpad6") case 103 => Some("Numpad7")
    case 104 => Some("Numpad8") case 105 => Some("Numpad9")
    case 106 => Some("NumpadMultiply") case 107 => Some("NumpadAdd") case 109 => Some("NumpadSubtract")
    case 110 => Some("NumpadDecimal") case 111 => Some("NumpadDivide") case 108 => Some("NumpadEnter")
    case 112 => Some("F1") case 113 => Some("F2") case 114 => Some("F3") case 115 => Some("F4")
    case 116 => Some("F5") case 117 => Some("F6") case 118 => Some("F7") case 119 => Some("F8")
    case 120 => Some("F9") case 121 => Some("F10") case 122 => Some("F11") case 123 => Some("F12")
    case 144 => Some("NumLock") case 145 => Some("ScrollLock")
    case _ => None
  }

  /** `oemKeys`: the punctuation keys of a US layout. */
  function OemKey(code: int): (r: Option<string>)
    ensures r.Some? ==> |r.value| == 1 && (r.value[0] as int) < 0x80
  {
    match code
    case 186 => Some(";") case 187 => Some("=") case 188 => Some(",") case 189 => Some("-")
    case 190 => Some(".") case 191 => Some("/") case 192 => Some("`")
    case 219 => Some("[") case 220 => Some("\\") case 221 => Some("]") case 222 => Some("'")
    case _ => None
  }

  /** `String.fromCharCode(code)`: the code unit `code` modulo 2^16. */
  function FromCharCode(code: int): (r: JsString)
    ensures |r| == 1 && (r[0] - code) % 0x1_0000 == 0
  {
    [code % 0x1_0000]
  }

  /** resolveKey: the named key, else the OEM character, else the character with that code. */
  function ResolveKey(code: int): (r: JsString)
    ensures |r| >= 1
  {
    match SpecialKey(code)
    case Some(name) => Js(name)
    case None =>
      match OemKey(code)
      case Some(ch) => Js(ch)
      case None => FromCharCode(code)
  }

  /** The two tables share no code, so consulting the OEM table first would change nothing. */
  lemma {:induction false} TablesDisjoint(code: int)
    ensures !(SpecialKey(code).Some? && OemKey(code).Some?)
    ensures ResolveKey(code) ==
            if OemKey(code).Some? then Js(OemKey(code).value)
            else if SpecialKey(code).Some? then Js(SpecialKey(code).value)
            else FromCharCode(code)
  {
  }

  /** A named key is at least two characters long, so it is never mistaken for a single character. */
  lemma {:induction false} NamedKeysAreWords(code: int)
    ensures SpecialKey(code).Some? ==> |ResolveKey(code)| >= 2
    ensures SpecialKey(code).None? ==> |ResolveKey(code)| == 1
  {
    if SpecialKey(code).Some? {
      assert |SpecialKey(code).value| >= 2;
    } else if OemKey(code).Some? {
      var s := OemKey(code).value;
      assert |s| == 1 && (s[0] as int) < 0x80;
      assert Js(s) == CharUnits(s[0]) + Js(s[1..]);
    }
  }

  /** The OEM codes 186-192 and 219-222, and only those, give a punctuation character. */
  lemma {:induction false} OemRange(code: int)
    ensures OemKey(code).Some? <==> 186 <= code <= 192 || 219 <= code <= 222
  {
  }

  /** Both Windows keys are Meta, and 13 is Enter. */
  lemma {:induction false} NamedKeyExamples()
    ensures ResolveKey(91) == ResolveKey(92) == Js("Meta")
    ensures ResolveKey(13) == Js("Enter")
  {
    assert SpecialKey(91) == Some("Meta");
    assert SpecialKey(92) == Some("Meta");
    assert SpecialKey(13) == Some("Enter");
  }

  /** The OEM keys give their punctuation. */
  lemma {:induction false} OemKeyExamples()
    ensures ResolveKey(186) == Js(";") && ResolveKey(222) == Js("'") && ResolveKey(220) == Js("\\")
  {
    assert SpecialKey(186).None? && OemKey(186) == Some(";");
    assert SpecialKey(222).None? && OemKey(222) == Some("'");
    assert SpecialKey(220).None? && OemKey(220) == Some("\\");
  }

  /** Any other code is the character with that code, 65 being `A`, modulo 2^16. */
  lemma {:induction false} CharCodeExamples()
    ensures ResolveKey(65) == Js("A") && ResolveKey(65 + 0x1_0000) == Js("A")
  {
    assert SpecialKey(65).None? && OemKey(65).None?;
    assert SpecialKey(65 + 0x1_0000).None? && OemKey(65 + 0x1_0000).None?;
    assert Js("A") == CharUnits('A') + Js([]);
    assert (65 + 0x1_0000) % 0x1_0000 == 65;
  }

  // ---------------------------------------------------------------------------------------------
  // Sending events
  // ---------------------------------------------------------------------------------------------

  datatype EventType = KeyDown | KeyUp | Char

  /** An input event: `{ type, keyCode }`. */
  datatype InputEvent = InputEvent(kind: EventType, keyCode: JsString)

  /** The events dispatchKeyEvent sends: keyDown iff `press`, then keyUp iff `release`, with one key. */
  function KeyEvents(code: int, press: bool, release: bool): (r: seq<InputEvent>)
    ensures |r| == (if press then 1 else 0) + (if release then 1 else 0)
    ensures forall i :: 0 <= i < |r| ==> r[i].keyCode == ResolveKey(code) && r[i].kind != Char
    ensures press ==> r[0].kind == KeyDown
    ensures release ==> r[|r| - 1].kind == KeyUp
  {
    var key := ResolveKey(code);
    (if press then [InputEvent(KeyDown, key)] else []) + (if release then [InputEvent(KeyUp, key)] else [])
  }

  /** The events handleText sends: one `char` event per character (code point), in order. */
  function TextEvents(text: string): (r: seq<InputEvent>)
    ensures |r| == |text|
    ensures forall i :: 0 <= i < |text| ==> r[i] == InputEvent(Char, CharUnits(text[i]))
  {
    seq(|text|, i requires 0 <= i < |text| => InputEvent(Char, CharUnits(text[i])))
  }

  /** Typing two texts one after the other sends the events of their concatenation. */
  lemma {:induction false} TextEventsAppend(a: string, b: string)
    ensures TextEvents(a + b) == TextEvents(a) + TextEvents(b)
  {
    assert forall i :: 0 <= i < |a| ==> (a + b)[i] == a[i];
    assert forall i :: |a| <= i < |a| + |b| ==> (a + b)[i] == b[i - |a|];
  }

  /** The page's webContents: whether it has focus, and the input events sent to it. */
  class WebContents {
    var focused: bool
    var sent: seq<InputEvent>

    constructor(focused: bool)
      ensures this.focused == focused && sent == []
    {
      this.focused := focused;
      sent := [];
    }

    /** `if (!isFocused()) focus()`. */
    method FocusIfNeeded()
      modifies this
      ensures focused && sent == old(sent)
    {
      if !focused {
        focused := true;
      }
    }

    method SendInputEvent(e: InputEvent)
      modifies this
      ensures focused == old(focused) && sent == old(sent) + [e]
    {
      sent := sent + [e];
    }

    /** dispatchKeyEvent: focuses the page, then sends the resolved key down and/or up. */
    method DispatchKeyEvent(code: int, press: bool, release: bool)
      modifies this
      ensures focused && sent == old(sent) + KeyEvents(code, press, release)
    {
      FocusIfNeeded();
      var keyCode := ResolveKey(code);
      if press {
        SendInputEvent(InputEvent(KeyDown, keyCode));
      }
      if release {
        SendInputEvent(InputEvent(KeyUp, keyCode));
      }
    }

    method HandleKeyClick(code: int)
      modifies this
      ensures focused && sent == old(sent) + [InputEvent(KeyDown, ResolveKey(code)), InputEvent(KeyUp, ResolveKey(code))]
    {
      DispatchKeyEvent(code, true, true);
    }

    method HandleKeyDown(code: int)
      modifies this
      ensures focused && sent == old(sent) + [InputEvent(KeyDown, ResolveKey(code))]
    {
      DispatchKeyEvent(code, true, false);
    }

    method HandleKeyUp(code: int)
      modifies this
      ensures focused && sent == old(sent) + [InputEvent(KeyUp, ResolveKey(code))]
    {
      DispatchKeyEvent(code, false, true);
    }

    /** handleText: focuses the page and sends a `char` event for each character in turn. */
    method HandleText(text: string)
      modifies this
      ensures focused && sent == old(sent) + TextEvents(text)
    {
      FocusIfNeeded();
      for k := 0 to |text|
        invariant focused && sent == old(sent) + TextEvents(text[..k])
      {
        TextEventsAppend(text[..k], [text[k]]);
        assert text[..k + 1] == text[..k] + [text[k]];
        SendInputEvent(InputEvent(Char, CharUnits(text[k])));
      }
      assert text[..|text|] == text;
    }
  }
}
