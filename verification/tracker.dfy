/**
 * The live keyboard state: the four modifier flags (`_mods`) and the list of
 * pressed key codes (`_downKeys`), with the updates made by a key-down
 * (the first half of `dispatch`), a key-up (`clearModifier`) and a window
 * focus (`resetModifiers`), and the two queries `isPressed` and
 * `getPressedKeyCodes`.
 */
module ModifierTracker {
  import opened Arrays
  import opened KeyCodec

  /** `_mods`: one flag per modifier code. */
  datatype Flags = Flags(shift: bool, ctrl: bool, alt: bool, command: bool)

  const Released := Flags(false, false, false, false)

  /** The flag kept for modifier code `c`. */
  function Get(f: Flags, c: int): bool
    requires IsModifierKey(c)
  {
    if c == Shift then f.shift
    else if c == Ctrl then f.ctrl
    else if c == Alt then f.alt
    else f.command
  }

  /** `_mods[c] = v`: sets one flag and leaves the other three. */
  function Set(f: Flags, c: int, v: bool): (r: Flags)
    requires IsModifierKey(c)
    ensures Get(r, c) == v
    ensures forall d :: IsModifierKey(d) && d != c ==> Get(r, d) == Get(f, d)
  {
    if c == Shift then f.(shift := v)
    else if c == Ctrl then f.(ctrl := v)
    else if c == Alt then f.(alt := v)
    else f.(command := v)
  }

  predicate AnyHeld(f: Flags)
  {
    f.shift || f.ctrl || f.alt || f.command
  }

  /** A decoded host key event: its key code (never `NaN`, so never `NoCode`) and its own four modifier fields. */
  datatype Event = Event(keyCode: nat, shiftKey: bool, altKey: bool, ctrlKey: bool, metaKey: bool)

  /** `_mods` together with `_downKeys`. */
  datatype Tracker = Tracker(flags: Flags, down: seq<int>)

  const Idle := Tracker(Released, [])

  /** `_NUMPAD_TO_NORMAL`: keypad digits 96..105 read as the main-row digits 48..57. */
  function NumpadToNormal(c: int): (r: int)
    ensures 96 <= c <= 105 ==> 48 <= r <= 57 && r + 48 == c
    ensures !(96 <= c <= 105) ==> r == c
  {
    if 96 <= c <= 105 then c - 48 else c
  }

  /** Right command on WebKit (93) and command on Gecko (224) are read as 91. */
  function FoldCommand(c: int): (r: int)
    ensures r == Command <==> c == 93 || c == 224 || c == Command
    ensures r != Command ==> r == c
  {
    if c == 93 || c == 224 then Command else c
  }

  /** `updateModifierKey`: every flag is read from the event's own modifier fields. */
  function FromEvent(ev: Event): (r: Flags)
    ensures Get(r, Shift) == ev.shiftKey && Get(r, Alt) == ev.altKey
    ensures Get(r, Ctrl) == ev.ctrlKey && Get(r, Command) == ev.metaKey
  {
    Flags(ev.shiftKey, ev.ctrlKey, ev.altKey, ev.metaKey)
  }

  /** What a key-down leaves behind: the new state, the decoded key, and whether it was a modifier. */
  datatype Pressed = Pressed(tracker: Tracker, key: int, modifierOnly: bool)

  /**
   * The state half of `dispatch`: the keypad-decoded code joins the pressed
   * list when absent; a modifier key then sets its own flag only and ends
   * the event; any other key overwrites all four flags from the event.
   */
  function Press(t: Tracker, ev: Event): (r: Pressed)
    ensures var key := NumpadToNormal(ev.keyCode);
      && r.key == FoldCommand(key)
      && key in r.tracker.down
      && (forall c :: c != key ==> (c in r.tracker.down <==> c in t.down))
      && t.down <= r.tracker.down
      && |r.tracker.down| <= |t.down| + 1
      && (NoDuplicates(t.down) ==> NoDuplicates(r.tracker.down))
    ensures r.modifierOnly <==> IsModifierKey(r.key)
    ensures r.modifierOnly ==> r.tracker.flags == Set(t.flags, r.key, true)
    ensures !r.modifierOnly ==> r.tracker.flags == FromEvent(ev)
  {
    var key := NumpadToNormal(ev.keyCode);
    var down := if Index(t.down, key) == -1 then t.down + [key] else t.down;
    var folded := FoldCommand(key);
    if IsModifierKey(folded) then Pressed(Tracker(Set(t.flags, folded, true), down), folded, true)
    else Pressed(Tracker(FromEvent(ev), down), folded, false)
  }

  /** The list half of `clearModifier`: the last occurrence of `keyCode` is spliced out. */
  function Unpress(down: seq<int>, keyCode: int): (r: seq<int>)
    ensures Index(down, keyCode) == -1 ==> r == down
    ensures Index(down, keyCode) >= 0 ==> r == RemoveAt(down, Index(down, keyCode))
    ensures multiset(r) == multiset(down) - multiset{keyCode}
    ensures forall c :: c != keyCode ==> (c in r <==> c in down)
    ensures NoDuplicates(down) ==> NoDuplicates(r) && keyCode !in r
  {
    var i := Index(down, keyCode);
    if i < 0 then
      assert multiset(down)[keyCode] == 0;
      down
    else
      RemoveAtOthers(down, i);
      RemoveAtDistinct(down, i);
      RemoveAt(down, i)
  }

  /**
   * `clearModifier`: the RAW code leaves the pressed list (no keypad
   * decoding, so a keypad digit's decoded code stays), and a modifier key
   * clears its own flag.
   */
  function Release(t: Tracker, keyCode: int): (r: Tracker)
    ensures Index(t.down, keyCode) == -1 ==> r.down == t.down
    ensures Index(t.down, keyCode) >= 0 ==> r.down == RemoveAt(t.down, Index(t.down, keyCode))
    ensures multiset(r.down) == multiset(t.down) - multiset{keyCode}
    ensures forall c :: c != keyCode ==> (c in r.down <==> c in t.down)
    ensures NoDuplicates(t.down) ==> NoDuplicates(r.down) && keyCode !in r.down
    ensures IsModifierKey(FoldCommand(keyCode)) ==> r.flags == Set(t.flags, FoldCommand(keyCode), false)
    ensures !IsModifierKey(FoldCommand(keyCode)) ==> r.flags == t.flags
  {
    var key := FoldCommand(keyCode);
    var flags := if IsModifierKey(key) then Set(t.flags, key, false) else t.flags;
    Tracker(flags, Unpress(t.down, keyCode))
  }

  /** `resetModifiers`: all four flags cleared; the pressed list is kept. */
  function Reset(t: Tracker): (r: Tracker)
    ensures !AnyHeld(r.flags)
    ensures r.down == t.down
  {
    Tracker(Released, t.down)
  }

  /** The argument of `isPressed`: a key name or a key code. */
  datatype KeyRef = Named(name: string) | Numbered(code: int)

  /**
   * `isPressed`: names are read through `code`, then the code is looked up in
   * the pressed list. The empty name reads as `NaN`, which `index` never finds.
   */
  function IsPressed(t: Tracker, k: KeyRef): (r: bool)
    ensures k.Numbered? ==> (r <==> k.code in t.down)
    ensures k.Named? ==> (r <==> k.name != "" && Code(k.name) in t.down)
  {
    match k
    case Named(name) => Code(name) != NoCode && Index(t.down, Code(name)) != -1
    case Numbered(code) => Index(t.down, code) != -1
  }

  /** `getPressedKeyCodes`: a copy of the pressed list, in press order. */
  function GetPressedKeyCodes(t: Tracker): (r: seq<int>)
    ensures forall c :: c in r <==> IsPressed(t, Numbered(c))
    ensures NoDuplicates(t.down) ==> NoDuplicates(r)
    ensures |r| == |t.down| && forall i :: 0 <= i < |r| ==> r[i] == t.down[i]
  {
    t.down[..]
  }

  /** A keypad digit is recorded under its main-row code but released under its raw one, so it stays pressed. */
  lemma KeypadDigitStaysPressed(t: Tracker, ev: Event)
    requires 96 <= ev.keyCode <= 105
    ensures var up := Release(Press(t, ev).tracker, ev.keyCode);
      IsPressed(up, Numbered(ev.keyCode - 48))
  {
  }

  /** A main-row key pressed and released is no longer pressed, and the other keys are as before. */
  lemma PressRelease(t: Tracker, ev: Event)
    requires !(96 <= ev.keyCode <= 105)
    requires NoDuplicates(t.down)
    ensures var up := Release(Press(t, ev).tracker, ev.keyCode);
      && !IsPressed(up, Numbered(ev.keyCode))
      && (forall c :: c != ev.keyCode ==> (IsPressed(up, Numbered(c)) <==> IsPressed(t, Numbered(c))))
      && NoDuplicates(up.down)
  {
  }
}
