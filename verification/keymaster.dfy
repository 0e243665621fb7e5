/**
 * The whole engine: registry, scope stack and keyboard state in one record,
 * and `dispatch`, which decides on each key-down which entries fire and
 * whether the event is suppressed.
 *
 * The host's filter verdict is an input (`allowed`), and so is what each
 * handler returns: `returnsFalse(i)` says whether the handler of entry `i` of
 * the key's list returns the literal `false`.
 */
module Keymaster {
  import opened Wrappers
  import opened Arrays
  import opened KeyCodec
  import opened ModifierTracker
  import opened ScopeStack
  import opened BindingRegistry

  datatype State = State(handlers: Registry, scopes: Stack, tracker: Tracker)

  const Initial := State(map[], Empty, Idle)

  /** The codes `for (k in _mods)` visits, in the order it visits them. */
  const ModifierOrder: seq<int> := [Shift, Ctrl, Alt, Command]

  /** Exact modifier match: each of the four flags is set iff its code is among `mods`. */
  predicate ExactModifiers(mods: seq<int>, flags: Flags)
  {
    && (flags.shift <==> Shift in mods)
    && (flags.ctrl <==> Ctrl in mods)
    && (flags.alt <==> Alt in mods)
    && (flags.command <==> Command in mods)
  }

  /**
   * The loop over `_mods`: the match is lost on any flag that is clear while
   * its code is in `mods`, or set while it is not.
   */
  function AgreeAll(mods: seq<int>, flags: Flags, codes: seq<int>): (r: bool)
    requires forall i :: 0 <= i < |codes| ==> IsModifierKey(codes[i])
    ensures r <==> forall i :: 0 <= i < |codes| ==> (Get(flags, codes[i]) <==> codes[i] in mods)
  {
    if |codes| == 0 then true
    else
      var k := codes[0];
      var disagrees := (!Get(flags, k) && Index(mods, k) > -1) || (Get(flags, k) && Index(mods, k) == -1);
      var rest := AgreeAll(mods, flags, codes[1..]);
      assert rest <==> forall i :: 1 <= i < |codes| ==> (Get(flags, codes[i]) <==> codes[i] in mods) by {
        if !rest {
          var i :| 0 <= i < |codes[1..]| && !(Get(flags, codes[1..][i]) <==> codes[1..][i] in mods);
          assert codes[1..][i] == codes[i + 1];
        }
      }
      !disagrees && rest
  }

  /** `modifiersMatch`: the entry names modifiers and every flag agrees with them. */
  predicate ModifiersMatch(mods: seq<int>, flags: Flags)
  {
    |mods| > 0 && AgreeAll(mods, flags, ModifierOrder)
  }

  /** The test each entry of the key's list goes through: scope, then modifiers. A tombstone has no scope. */
  predicate Fires(e: Entry, cur: Scope, flags: Flags)
  {
    && e.Binding?
    && Visible(cur, e.scope)
    && ((|e.mods| == 0 && !flags.shift && !flags.alt && !flags.ctrl && !flags.command) || ModifiersMatch(e.mods, flags))
  }

  /**
   * The firing rule: an entry fires iff it is a binding whose scope is
   * visible and whose modifiers match the flags exactly. With no modifiers
   * that means no flag is set; with modifiers, a binding for ctrl does not
   * fire while ctrl and shift are held.
   */
  lemma FiringRule(e: Entry, cur: Scope, flags: Flags)
    ensures Fires(e, cur, flags) <==> e.Binding? && Visible(cur, e.scope) && ExactModifiers(e.mods, flags)
  {
    if e.Binding? {
      AgreeInOrder(e.mods, flags);
    }
  }

  /** Walking the four codes in enumeration order is the exact match. */
  lemma AgreeInOrder(mods: seq<int>, flags: Flags)
    ensures AgreeAll(mods, flags, ModifierOrder) <==> ExactModifiers(mods, flags)
  {
    var o := ModifierOrder;
    var agree := AgreeAll(mods, flags, o);
    if ExactModifiers(mods, flags) {
      forall i | 0 <= i < |o| ensures Get(flags, o[i]) <==> o[i] in mods {
      }
    } else if flags.shift != (Shift in mods) {
      assert !(Get(flags, o[0]) <==> o[0] in mods);
    } else if flags.ctrl != (Ctrl in mods) {
      assert !(Get(flags, o[1]) <==> o[1] in mods);
    } else if flags.alt != (Alt in mods) {
      assert !(Get(flags, o[2]) <==> o[2] in mods);
    } else {
      assert !(Get(flags, o[3]) <==> o[3] in mods);
    }
  }

  /** The positions of `list` from `from` on whose entries fire, in list order. */
  function FiredFrom(list: seq<Entry>, cur: Scope, flags: Flags, from: nat): (r: seq<nat>)
    requires from <= |list|
    ensures forall k :: 0 <= k < |r| ==> from <= r[k] < |list| && Fires(list[r[k]], cur, flags)
    ensures forall i :: from <= i < |list| && Fires(list[i], cur, flags) ==> i in r
    ensures forall k, l :: 0 <= k < l < |r| ==> r[k] < r[l]
    decreases |list| - from
  {
    if from == |list| then []
    else (if Fires(list[from], cur, flags) then [from] else []) + FiredFrom(list, cur, flags, from + 1)
  }

  /** Whether any of the fired handlers returned the literal `false`. */
  function AnyReturnsFalse(fired: seq<nat>, returnsFalse: nat -> bool): (r: bool)
    ensures r <==> exists k :: 0 <= k < |fired| && returnsFalse(fired[k])
  {
    if |fired| == 0 then false
    else
      assert forall k :: 1 <= k < |fired| ==> fired[k] == fired[1..][k - 1];
      returnsFalse(fired[0]) || AnyReturnsFalse(fired[1..], returnsFalse)
  }

  /** The result of one key-down: the new state, the positions fired (in order), and whether the event was suppressed. */
  datatype Outcome = Outcome(state: State, fired: seq<nat>, suppressed: bool)

  /**
   * `dispatch`: the keyboard state is updated first. A modifier key stops
   * there; otherwise nothing fires when the filter rejects the event or the
   * key has no list. Else every entry of the list fires, in list order, iff
   * it is a binding whose scope is visible and whose modifiers match the
   * flags exactly, and the event is suppressed iff one of them returned
   * `false`. Registry and scope stack are not touched.
   */
  function Dispatch(km: State, ev: Event, allowed: bool, returnsFalse: nat -> bool): (r: Outcome)
    requires km.scopes.Valid()
    ensures var p := Press(km.tracker, ev);
      && r.state == km.(tracker := p.tracker)
      && (p.modifierOnly || !allowed || p.key !in km.handlers ==> r.fired == [])
      && (!p.modifierOnly && allowed && p.key in km.handlers ==>
            var list := km.handlers[p.key];
            forall i :: i in r.fired <==>
              0 <= i < |list| && list[i].Binding? && Visible(GetScope(km.scopes), list[i].scope)
              && ExactModifiers(list[i].mods, p.tracker.flags))
    ensures forall k, l :: 0 <= k < l < |r.fired| ==> r.fired[k] < r.fired[l]
    ensures r.suppressed <==> exists k :: 0 <= k < |r.fired| && returnsFalse(r.fired[k])
  {
    var p := Press(km.tracker, ev);
    var km' := km.(tracker := p.tracker);
    if p.modifierOnly || !allowed || p.key !in km.handlers then Outcome(km', [], false)
    else
      var list := km.handlers[p.key];
      var fired := FiredFrom(list, GetScope(km.scopes), p.tracker.flags, 0);
      assert forall i :: 0 <= i < |list| ==>
        (Fires(list[i], GetScope(km.scopes), p.tracker.flags) <==>
          list[i].Binding? && Visible(GetScope(km.scopes), list[i].scope) && ExactModifiers(list[i].mods, p.tracker.flags)) by {
        forall i | 0 <= i < |list| {
          FiringRule(list[i], GetScope(km.scopes), p.tracker.flags);
        }
      }
      Outcome(km', fired, AnyReturnsFalse(fired, returnsFalse))
  }

  /** `unbindKey(key, scope)`: with the scope omitted, the current scope is used. */
  function Unbind(km: State, text: string, scope: Option<string>): (r: State)
    requires km.scopes.Valid()
    ensures r.scopes == km.scopes && r.tracker == km.tracker
    ensures scope.None? && GetScope(km.scopes).Group? ==> r == km
    ensures scope.Some? ==> r.handlers == BindingRegistry.Unbind(km.handlers, text, Scope.Named(scope.value))
    ensures scope.None? ==> r.handlers == BindingRegistry.Unbind(km.handlers, text, GetScope(km.scopes))
  {
    var target := match scope
      case Some(s) => Scope.Named(s)
      case None => GetScope(km.scopes);
    UnbindGroupIsNoop(km.handlers, text, Members(target));
    km.(handlers := BindingRegistry.Unbind(km.handlers, text, target))
  }

  /** A keypad digit dispatches exactly as the main-row digit does. */
  lemma KeypadDigitLikeMainRow(km: State, ev: Event, allowed: bool, returnsFalse: nat -> bool)
    requires km.scopes.Valid()
    requires 96 <= ev.keyCode <= 105
    ensures Dispatch(km, ev, allowed, returnsFalse) == Dispatch(km, ev.(keyCode := ev.keyCode - 48), allowed, returnsFalse)
  {
  }

  /** After `deleteScope(s)` no entry of scope `s` fires. */
  lemma DeletedScopeNeverFires(km: State, s: string, ev: Event, allowed: bool, returnsFalse: nat -> bool)
    requires km.scopes.Valid()
    ensures var km' := km.(handlers := DeleteScope(km.handlers, s));
      var r := Dispatch(km', ev, allowed, returnsFalse);
      var list := Lookup(km'.handlers, Press(km.tracker, ev).key);
      forall k :: 0 <= k < |r.fired| ==> r.fired[k] < |list| && !InScope(list[r.fired[k]], s)
  {
    var km' := km.(handlers := DeleteScope(km.handlers, s));
    var r := Dispatch(km', ev, allowed, returnsFalse);
    var key := Press(km.tracker, ev).key;
    if key in km'.handlers {
      var list := km'.handlers[key];
      forall k | 0 <= k < |r.fired| ensures r.fired[k] < |list| && !InScope(list[r.fired[k]], s) {
        assert r.fired[k] in r.fired;
        assert list[r.fired[k]] in list;
      }
    }
  }

  /**
   * A shortcut just bound fires on its key when its scope is visible, the
   * filter allows the event and the flags match its modifiers exactly; its
   * position is the old length of the key's list.
   */
  lemma BoundShortcutFires(km: State, k: string, scope: string, handler: HandlerId, ev: Event, returnsFalse: nat -> bool)
    requires km.scopes.Valid()
    requires k != "" && ',' !in k && NoWhitespace(k)
    requires var code := ParseKey(k).code;
      && ev.keyCode == code && !(96 <= code <= 105) && !IsModifierKey(FoldCommand(code))
    requires Visible(GetScope(km.scopes), scope)
    requires ExactModifiers(ParseKey(k).mods, FromEvent(ev))
    ensures var km' := km.(handlers := Bind(km.handlers, k, Some(scope), handler));
      |Lookup(km.handlers, ParseKey(k).code)| in Dispatch(km', ev, true, returnsFalse).fired
  {
    var p := ParseKey(k);
    BindOne(km.handlers, k, Some(scope), handler);
    var km' := km.(handlers := Bind(km.handlers, k, Some(scope), handler));
    var n := |Lookup(km.handlers, p.code)|;
    assert Lookup(km'.handlers, p.code)[n] == Binding(k, scope, handler, p.mods);
    FiresAt(km', ev, returnsFalse, p.code, n);
  }

  /** An entry of the pressed key's list that is a visible binding with exactly the held modifiers fires. */
  lemma FiresAt(km: State, ev: Event, returnsFalse: nat -> bool, code: int, i: nat)
    requires km.scopes.Valid()
    requires ev.keyCode == code && !(96 <= code <= 105) && !IsModifierKey(FoldCommand(code))
    requires i < |Lookup(km.handlers, code)|
    requires var e := Lookup(km.handlers, code)[i];
      e.Binding? && Visible(GetScope(km.scopes), e.scope) && ExactModifiers(e.mods, FromEvent(ev))
    ensures i in Dispatch(km, ev, true, returnsFalse).fired
  {
    assert Press(km.tracker, ev).key == code;
  }

  /**
   * Text whose key token is empty, such as `"ctrl+"`, is filed under `NaN`,
   * which no event's key decodes to: binding it changes no dispatch.
   */
  lemma EmptyKeyNeverFires(km: State, k: string, scope: string, handler: HandlerId, ev: Event, allowed: bool, returnsFalse: nat -> bool)
    requires km.scopes.Valid()
    requires k != "" && ',' !in k && NoWhitespace(k)
    requires ParseKey(k).code == NoCode
    ensures var km' := km.(handlers := Bind(km.handlers, k, Some(scope), handler));
      var r, r' := Dispatch(km, ev, allowed, returnsFalse), Dispatch(km', ev, allowed, returnsFalse);
      r'.fired == r.fired && r'.suppressed == r.suppressed
  {
    BindOne(km.handlers, k, Some(scope), handler);
    SameListSameOutcome(km, Bind(km.handlers, k, Some(scope), handler), ev, allowed, returnsFalse);
  }

  /** Dispatch reads the registry only through the list of the pressed key; a missing list acts as an empty one. */
  lemma SameListSameOutcome(km: State, reg': Registry, ev: Event, allowed: bool, returnsFalse: nat -> bool)
    requires km.scopes.Valid()
    requires var key := Press(km.tracker, ev).key; Lookup(reg', key) == Lookup(km.handlers, key)
    ensures var r, r' := Dispatch(km, ev, allowed, returnsFalse), Dispatch(km.(handlers := reg'), ev, allowed, returnsFalse);
      r'.fired == r.fired && r'.suppressed == r.suppressed
  {
    var p := Press(km.tracker, ev);
    assert FiredFrom([], GetScope(km.scopes), p.tracker.flags, 0) == [];
  }

  /** `"shift+up"` reads as the up arrow (38) with shift. */
  lemma ShiftUp()
    ensures ParseKey("shift+up") == Shortcut(38, [Shift])
  {
    ShiftUpFormat();
    ParseFormat([Shift], "up");
    assert "up" in NamedKeys && NamedKeys["up"] == 38;
  }

  lemma ShiftUpFormat()
    ensures Format([Shift], "up") == "shift+up"
  {
    assert ModifierNames([Shift]) == ["shift"];
    assert Join(["shift", "up"], '+') == "shift" + "+" + "up";
  }

  /** Binding `"shift+up"` in scope `editor` on an empty registry files one entry under 38. */
  lemma EditorRegistry()
    ensures var reg := Bind(map[], "shift+up", Some("editor"), 7);
      38 in reg && reg[38] == [Binding("shift+up", "editor", 7, [Shift])]
  {
    ShiftUp();
    ShiftUpText();
    BindOne(map[], "shift+up", Some("editor"), 7);
  }

  lemma ShiftUpText()
    ensures ',' !in "shift+up" && NoWhitespace("shift+up")
  {
    var s := "shift+up";
    forall i | 0 <= i < |s| ensures s[i] != ',' && !IsWhitespace(s[i]) {
      assert 'a' <= s[i] <= 'z' || s[i] == '+';
    }
  }

  /** Shift+up with nothing else held, on a registry whose list for 38 is that one entry, fires it iff the current scope is `editor`. */
  lemma EditorEntryFires(reg: Registry, scopes: Stack, scope: string, ev: Event, returnsFalse: nat -> bool)
    requires 38 in reg && reg[38] == [Binding("shift+up", "editor", 7, [Shift])]
    requires scopes.Valid() && GetScope(scopes) == Scope.Named(scope)
    requires ev == Event(38, true, false, false, false)
    ensures Dispatch(State(reg, scopes, Idle), ev, true, returnsFalse).fired == if scope == "editor" then [0] else []
  {
    var list := reg[38];
    var p := Press(Idle, ev);
    assert p.key == 38 && !p.modifierOnly;
    var flags := p.tracker.flags;
    assert ExactModifiers([Shift], flags) by {
      assert Get(flags, Shift) && !Get(flags, Ctrl);
      assert !Get(flags, Alt) && !Get(flags, Command);
    }
    FiringRule(list[0], Scope.Named(scope), flags);
    assert Fires(list[0], Scope.Named(scope), flags) <==> scope == "editor";
    assert FiredFrom(list, Scope.Named(scope), flags, 1) == [];
  }

  /** With `"shift+up"` bound in scope `editor`, shift+up fires it while `editor` is on top, and not while `viewer` is. */
  lemma EditorExample(ev: Event, returnsFalse: nat -> bool)
    requires ev == Event(38, true, false, false, false)
    ensures var km := Initial.(handlers := Bind(map[], "shift+up", Some("editor"), 7));
      && Dispatch(km.(scopes := PushScope(Empty, "editor")), ev, true, returnsFalse).fired == [0]
      && Dispatch(km.(scopes := PushScope(Empty, "viewer")), ev, true, returnsFalse).fired == []
  {
    EditorRegistry();
    var reg := Bind(map[], "shift+up", Some("editor"), 7);
    EditorEntryFires(reg, PushScope(Empty, "editor"), "editor", ev, returnsFalse);
    EditorEntryFires(reg, PushScope(Empty, "viewer"), "viewer", ev, returnsFalse);
  }
}
