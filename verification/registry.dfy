/**
 * The binding registry `_handlers`: for each key code, the ordered list of
 * entries made by `assignKey`, tombstoned in place by `unbindKey` and spliced
 * out by `deleteScope`.
 */
module BindingRegistry {
  import opened Wrappers
  import opened Arrays
  import opened KeyCodec
  import opened ScopeStack

  /** A handler function, known only by its identity. */
  type HandlerId = nat

  /** One registered shortcut, or the empty object `{}` that `unbindKey` leaves behind. */
  datatype Entry =
    | Binding(shortcut: string, scope: string, handler: HandlerId, mods: seq<int>)
    | Tombstone

  type Registry = map<int, seq<Entry>>

  /** The list kept for `code`; a code never bound has none (read as empty). */
  function Lookup(reg: Registry, code: int): seq<Entry>
  {
    if code in reg then reg[code] else []
  }

  // ---------------------------------------------------------------------
  // assignKey

  /** An entry together with the key code it is filed under. */
  datatype Keyed = Keyed(code: int, entry: Entry)

  /** The entry `assignKey` makes for one comma entry `k`. */
  function MakeEntry(k: string, scope: string, handler: HandlerId): (r: Keyed)
    ensures r.code == ParseKey(k).code
    ensures r.entry == Binding(k, scope, handler, ParseKey(k).mods)
  {
    var p := ParseKey(k);
    Keyed(p.code, Binding(k, scope, handler, p.mods))
  }

  /** The entries, in order, among `items` that are filed under `code`. */
  function EntriesFor(items: seq<Keyed>, code: int): seq<Entry>
  {
    if |items| == 0 then []
    else (if items[0].code == code then [items[0].entry] else []) + EntriesFor(items[1..], code)
  }

  /** The key codes `items` are filed under. */
  function Codes(items: seq<Keyed>): (r: set<int>)
    ensures forall c :: c in r <==> exists i :: 0 <= i < |items| && items[i].code == c
  {
    if |items| == 0 then {}
    else
      var rest := Codes(items[1..]);
      assert forall c :: c in rest <==> exists i :: 1 <= i < |items| && items[i].code == c by {
        forall c ensures c in rest <==> exists i :: 1 <= i < |items| && items[i].code == c {
          if c in rest {
            var i :| 0 <= i < |items[1..]| && items[1..][i].code == c;
            assert items[i + 1].code == c;
          }
          if exists i :: 1 <= i < |items| && items[i].code == c {
            var i :| 1 <= i < |items| && items[i].code == c;
            assert items[1..][i - 1].code == c;
          }
        }
      }
      {items[0].code} + rest
  }

  /** `_handlers[key].push(...)`, creating the list first if needed, for each item in turn. */
  function AppendAll(reg: Registry, items: seq<Keyed>): (r: Registry)
    ensures forall c :: Lookup(r, c) == Lookup(reg, c) + EntriesFor(items, c)
    ensures r.Keys == reg.Keys + Codes(items)
    decreases |items|
  {
    if |items| == 0 then reg
    else
      var it := items[0];
      var reg' := reg[it.code := Lookup(reg, it.code) + [it.entry]];
      var r := AppendAll(reg', items[1..]);
      AppendStep(reg, items, r);
      assert Codes(items) == {it.code} + Codes(items[1..]);
      r
  }

  /** One push, then the rest: the lists grow by the entries filed under their code, in order. */
  lemma AppendStep(reg: Registry, items: seq<Keyed>, r: Registry)
    requires |items| > 0
    requires var it := items[0];
      forall c :: Lookup(r, c) == Lookup(reg[it.code := Lookup(reg, it.code) + [it.entry]], c) + EntriesFor(items[1..], c)
    ensures forall c :: Lookup(r, c) == Lookup(reg, c) + EntriesFor(items, c)
  {
    forall c ensures Lookup(r, c) == Lookup(reg, c) + EntriesFor(items, c) {
      AppendStepAt(reg, items, Lookup(r, c), c);
    }
  }

  lemma AppendStepAt(reg: Registry, items: seq<Keyed>, list: seq<Entry>, c: int)
    requires |items| > 0
    requires var it := items[0];
      list == Lookup(reg[it.code := Lookup(reg, it.code) + [it.entry]], c) + EntriesFor(items[1..], c)
    ensures list == Lookup(reg, c) + EntriesFor(items, c)
  {
    var it := items[0];
    var head := if it.code == c then [it.entry] else [];
    var old_, rest := Lookup(reg, c), EntriesFor(items[1..], c);
    assert Lookup(reg[it.code := Lookup(reg, it.code) + [it.entry]], c) == old_ + head;
    assert EntriesFor(items, c) == head + rest;
    Associative(old_, head, rest);
  }

  /**
   * `assignKey(key, scope, handler)`: with the scope omitted it is `"all"`.
   * Each comma entry of the text gives one entry, appended to the end of the
   * list of its key code; the lists of all other codes are unchanged.
   */
  function Bind(reg: Registry, text: string, scope: Option<string>, handler: HandlerId): (r: Registry)
    ensures var keys := GetKeys(text);
      var items := seq(|keys|, i requires 0 <= i < |keys| => MakeEntry(keys[i], scope.GetOr(All), handler));
      && (forall c :: Lookup(r, c) == Lookup(reg, c) + EntriesFor(items, c))
      && r.Keys == reg.Keys + Codes(items)
  {
    var keys := GetKeys(text);
    var items := seq(|keys|, i requires 0 <= i < |keys| => MakeEntry(keys[i], scope.GetOr(All), handler));
    AppendAll(reg, items)
  }

  /** Binding a single shortcut appends exactly one entry, to the list of its key code only. */
  lemma BindOne(reg: Registry, k: string, scope: Option<string>, handler: HandlerId)
    requires k != "" && ',' !in k && NoWhitespace(k)
    ensures var p := ParseKey(k);
      && Lookup(Bind(reg, k, scope, handler), p.code) == Lookup(reg, p.code) + [Binding(k, scope.GetOr(All), handler, p.mods)]
      && (forall c :: c != p.code ==> Lookup(Bind(reg, k, scope, handler), c) == Lookup(reg, c))
  {
    GetKeysJoin([k]);
    assert GetKeys(k) == [k];
  }

  // ---------------------------------------------------------------------
  // unbindKey

  /** `obj.scope === scope && compareArray(obj.mods, mods)`; a tombstone has no scope and never matches, nor does an array scope. */
  predicate Matches(e: Entry, scope: Scope, mods: seq<int>)
  {
    e.Binding? && scope.Named? && e.scope == scope.id && CompareArray(e.mods, mods)
  }

  /** One pass over a list: matching entries become tombstones in place. */
  function Clear(list: seq<Entry>, scope: Scope, mods: seq<int>): (r: seq<Entry>)
    ensures |r| == |list|
    ensures forall i :: 0 <= i < |list| ==> r[i] == if Matches(list[i], scope, mods) then Tombstone else list[i]
  {
    seq(|list|, i requires 0 <= i < |list| => if Matches(list[i], scope, mods) then Tombstone else list[i])
  }

  /** What the loop of `unbindKey` reads from one comma entry: its key code, whether it names modifiers, and which. */
  datatype Step = Step(code: int, qualified: bool, mods: seq<int>)

  function Steps(keys: seq<string>): (r: seq<Step>)
    ensures |r| == |keys|
  {
    seq(|keys|, k requires 0 <= k < |keys| => Step(ParseKey(keys[k]).code, Qualified(keys[k]), ParseKey(keys[k]).mods))
  }

  /**
   * The loop of `unbindKey` from comma entry `j` on, with `mods` the value
   * the variable holds: it is only reassigned by an entry naming modifiers,
   * and the call returns at the first entry whose code has no list.
   */
  function UnbindFrom(reg: Registry, steps: seq<Step>, j: nat, mods: seq<int>, scope: Scope): (r: Registry)
    requires j <= |steps|
    ensures r.Keys == reg.Keys
    ensures forall c :: c in reg ==> |r[c]| == |reg[c]|
    ensures forall c, i :: c in reg && 0 <= i < |reg[c]| ==> r[c][i] == reg[c][i] || r[c][i] == Tombstone
    decreases |steps| - j
  {
    if j == |steps| then reg
    else
      var st := steps[j];
      var mods' := if st.qualified then st.mods else mods;
      if st.code !in reg then reg
      else UnbindFrom(reg[st.code := Clear(reg[st.code], scope, mods')], steps, j + 1, mods', scope)
  }

  /** `unbindKey(key, scope)` once the scope is resolved: `mods` starts empty. */
  function Unbind(reg: Registry, text: string, scope: Scope): (r: Registry)
    ensures r.Keys == reg.Keys
    ensures forall c :: c in reg ==> |r[c]| == |reg[c]|
    ensures forall c, i :: c in reg && 0 <= i < |reg[c]| ==> r[c][i] == reg[c][i] || r[c][i] == Tombstone
  {
    UnbindFrom(reg, Steps(GetKeys(text)), 0, [], scope)
  }

  /** The modifiers `unbindKey` compares with at comma entry `j`: those of the latest entry up to `j` that names any, else none. */
  function ModsAt(steps: seq<Step>, j: int): seq<int>
    requires j < |steps|
    decreases j
  {
    if j < 0 then []
    else if steps[j].qualified then steps[j].mods
    else ModsAt(steps, j - 1)
  }

  /** The first comma entry from `j` on whose key code has no list, or `|steps|`: where `unbindKey` returns. */
  function Stop(reg: Registry, steps: seq<Step>, j: nat): (r: nat)
    requires j <= |steps|
    ensures j <= r <= |steps|
    ensures forall k :: j <= k < r ==> steps[k].code in reg
    ensures r < |steps| ==> steps[r].code !in reg
    decreases |steps| - j
  {
    if j == |steps| || steps[j].code !in reg then j else Stop(reg, steps, j + 1)
  }

  /** Some comma entry before `n` clears an entry `e` filed under `code`. */
  ghost predicate ClearedBy(steps: seq<Step>, n: nat, scope: Scope, code: int, e: Entry)
    requires n <= |steps|
  {
    exists k :: 0 <= k < n && steps[k].code == code && Matches(e, scope, ModsAt(steps, k))
  }

  /** Comma entry `j` is the one added when the bound moves from `j` to `j + 1`. */
  lemma ClearedByStep(steps: seq<Step>, j: nat, scope: Scope, code: int, e: Entry)
    requires j < |steps|
    ensures ClearedBy(steps, j + 1, scope, code, e) <==>
      ClearedBy(steps, j, scope, code, e) || (steps[j].code == code && Matches(e, scope, ModsAt(steps, j)))
  {
    if ClearedBy(steps, j + 1, scope, code, e) && !ClearedBy(steps, j, scope, code, e) {
      var k :| 0 <= k < j + 1 && steps[k].code == code && Matches(e, scope, ModsAt(steps, k));
      assert k == j;
    }
    if ClearedBy(steps, j, scope, code, e) {
      var k :| 0 <= k < j && steps[k].code == code && Matches(e, scope, ModsAt(steps, k));
      assert 0 <= k < j + 1;
    }
  }

  /** `reg` is `reg0` with exactly the entries cleared by the comma entries before `n` tombstoned. */
  ghost predicate ClearedUpTo(reg0: Registry, reg: Registry, steps: seq<Step>, scope: Scope, n: nat)
    requires n <= |steps|
  {
    && reg.Keys == reg0.Keys
    && (forall c :: c in reg0 ==> |reg[c]| == |reg0[c]|)
    && forall c, i :: c in reg0 && 0 <= i < |reg0[c]| ==>
      reg[c][i] == if ClearedBy(steps, n, scope, c, reg0[c][i]) then Tombstone else reg0[c][i]
  }

  /** One entry of the registry after one more comma entry is processed. */
  lemma ClearStepAt(reg0: Registry, reg: Registry, steps: seq<Step>, scope: Scope, j: nat, mods: seq<int>, c: int, i: nat)
    requires j < |steps|
    requires ClearedUpTo(reg0, reg, steps, scope, j)
    requires steps[j].code in reg
    requires mods == ModsAt(steps, j)
    requires c in reg0 && i < |reg0[c]|
    ensures var code := steps[j].code;
      var reg' := reg[code := Clear(reg[code], scope, mods)];
      reg'[c][i] == if ClearedBy(steps, j + 1, scope, c, reg0[c][i]) then Tombstone else reg0[c][i]
  {
    ClearedByStep(steps, j, scope, c, reg0[c][i]);
  }

  /** One more comma entry processed, with the modifiers in effect there. */
  lemma ClearStep(reg0: Registry, reg: Registry, steps: seq<Step>, scope: Scope, j: nat, mods: seq<int>)
    requires j < |steps|
    requires ClearedUpTo(reg0, reg, steps, scope, j)
    requires steps[j].code in reg
    requires mods == ModsAt(steps, j)
    ensures var code := steps[j].code;
      ClearedUpTo(reg0, reg[code := Clear(reg[code], scope, mods)], steps, scope, j + 1)
  {
    var code := steps[j].code;
    var reg' := reg[code := Clear(reg[code], scope, mods)];
    forall c, i | c in reg0 && 0 <= i < |reg0[c]|
      ensures reg'[c][i] == if ClearedBy(steps, j + 1, scope, c, reg0[c][i]) then Tombstone else reg0[c][i]
    {
      ClearStepAt(reg0, reg, steps, scope, j, mods, c, i);
    }
  }

  lemma {:induction false} UnbindFromSpec(reg0: Registry, steps: seq<Step>, scope: Scope, j: nat, reg: Registry, mods: seq<int>)
    requires j <= Stop(reg0, steps, 0)
    requires mods == ModsAt(steps, j - 1)
    requires ClearedUpTo(reg0, reg, steps, scope, j)
    ensures ClearedUpTo(reg0, UnbindFrom(reg, steps, j, mods, scope), steps, scope, Stop(reg0, steps, 0))
    decreases |steps| - j
  {
    if j == |steps| || steps[j].code !in reg {
      assert j == Stop(reg0, steps, 0);
    } else {
      var st := steps[j];
      var mods' := if st.qualified then st.mods else mods;
      assert mods' == ModsAt(steps, j);
      ClearStep(reg0, reg, steps, scope, j, mods');
      UnbindFromSpec(reg0, steps, scope, j + 1, reg[st.code := Clear(reg[st.code], scope, mods')], mods');
    }
  }

  /**
   * What `unbindKey` clears, exactly: the entry at position `i` of the list
   * for `code` becomes a tombstone iff some comma entry before the stopping
   * point has that key code and matches it (scope `===`, modifiers equal
   * position by position to the modifiers in effect there); every other
   * entry is left as it was.
   */
  lemma UnbindExactly(reg: Registry, text: string, scope: Scope)
    ensures var steps := Steps(GetKeys(text));
      var r := Unbind(reg, text, scope);
      forall c, i :: c in reg && 0 <= i < |reg[c]| ==>
        r[c][i] == if ClearedBy(steps, Stop(reg, steps, 0), scope, c, reg[c][i]) then Tombstone else reg[c][i]
  {
    UnbindStepsExactly(reg, Steps(GetKeys(text)), scope);
  }

  lemma UnbindStepsExactly(reg: Registry, steps: seq<Step>, scope: Scope)
    ensures var r := UnbindFrom(reg, steps, 0, [], scope);
      forall c, i :: c in reg && 0 <= i < |reg[c]| ==>
        r[c][i] == if ClearedBy(steps, Stop(reg, steps, 0), scope, c, reg[c][i]) then Tombstone else reg[c][i]
  {
    assert ClearedUpTo(reg, reg, steps, scope, 0);
    UnbindFromSpec(reg, steps, scope, 0, reg, []);
  }

  /**
   * The carried modifiers: a comma entry that names none clears, under its
   * key code, every entry that matches the modifiers of the latest earlier
   * entry naming some (none at all when no earlier entry does), as long as
   * the call has not returned before reaching it.
   */
  lemma ModifiersCarryOver(reg: Registry, text: string, scope: Scope, j: nat, i: nat)
    requires var steps := Steps(GetKeys(text));
      && j < Stop(reg, steps, 0) && !steps[j].qualified
      && i < |reg[steps[j].code]| && Matches(reg[steps[j].code][i], scope, ModsAt(steps, j - 1))
    ensures var steps := Steps(GetKeys(text));
      Unbind(reg, text, scope)[steps[j].code][i] == Tombstone
  {
    CarriedModifiersClear(reg, Steps(GetKeys(text)), scope, j, i);
  }

  /** The carried modifiers, on the comma entries as `unbindKey` reads them. */
  lemma CarriedModifiersClear(reg: Registry, steps: seq<Step>, scope: Scope, j: nat, i: nat)
    requires j < Stop(reg, steps, 0) && !steps[j].qualified
    requires i < |reg[steps[j].code]| && Matches(reg[steps[j].code][i], scope, ModsAt(steps, j - 1))
    ensures UnbindFrom(reg, steps, 0, [], scope)[steps[j].code][i] == Tombstone
  {
    var c := steps[j].code;
    UnbindStepsExactly(reg, steps, scope);
    assert ModsAt(steps, j) == ModsAt(steps, j - 1);
    assert ClearedBy(steps, Stop(reg, steps, 0), scope, c, reg[c][i]);
  }

  /** With an array as the current scope, `===` never holds, so unbinding without a scope removes nothing. */
  lemma UnbindGroupIsNoop(reg: Registry, text: string, ids: seq<string>)
    ensures Unbind(reg, text, Group(ids)) == reg
  {
    UnbindFromGroup(reg, Steps(GetKeys(text)), 0, [], ids);
  }

  lemma {:induction false} UnbindFromGroup(reg: Registry, steps: seq<Step>, j: nat, mods: seq<int>, ids: seq<string>)
    requires j <= |steps|
    ensures UnbindFrom(reg, steps, j, mods, Group(ids)) == reg
    decreases |steps| - j
  {
    if j < |steps| && steps[j].code in reg {
      var st := steps[j];
      var mods' := if st.qualified then st.mods else mods;
      assert Clear(reg[st.code], Group(ids), mods') == reg[st.code];
      assert reg[st.code := reg[st.code]] == reg;
      UnbindFromGroup(reg, steps, j + 1, mods', ids);
    }
  }

  /** The call returns at once when the first comma entry's code has no list. */
  lemma UnbindStopsAtMissingCode(reg: Registry, text: string, scope: Scope)
    requires ParseKey(GetKeys(text)[0]).code !in reg
    ensures Unbind(reg, text, scope) == reg
  {
    var keys := GetKeys(text);
    assert Steps(keys)[0].code == ParseKey(keys[0]).code;
  }

  // ---------------------------------------------------------------------
  // deleteScope

  predicate InScope(e: Entry, scope: string)
  {
    e.Binding? && e.scope == scope
  }

  /** The splice loop of `deleteScope` on one list: entries of `scope` go, the others close up in order. */
  function Without(list: seq<Entry>, scope: string): (r: seq<Entry>)
    ensures forall e :: e in r <==> e in list && !InScope(e, scope)
    ensures |r| <= |list|
  {
    if |list| == 0 then []
    else
      assert list == [list[0]] + list[1..];
      (if InScope(list[0], scope) then [] else [list[0]]) + Without(list[1..], scope)
  }

  /** Relative order is kept: filtering distributes over concatenation. */
  lemma {:induction false} WithoutConcat(a: seq<Entry>, b: seq<Entry>, scope: string)
    ensures Without(a + b, scope) == Without(a, scope) + Without(b, scope)
  {
    if |a| > 0 {
      assert (a + b)[1..] == a[1..] + b;
      WithoutConcat(a[1..], b, scope);
    } else {
      assert a + b == b;
    }
  }

  /** A list without entries of `scope` is left as it is. */
  lemma {:induction false} WithoutNothing(list: seq<Entry>, scope: string)
    requires forall i :: 0 <= i < |list| ==> !InScope(list[i], scope)
    ensures Without(list, scope) == list
  {
    if |list| > 0 {
      WithoutNothing(list[1..], scope);
      assert list == [list[0]] + list[1..];
    }
  }

  /** `deleteScope(scope)`: every list loses its entries of `scope` and keeps the others; no list disappears. */
  function DeleteScope(reg: Registry, scope: string): (r: Registry)
    ensures r.Keys == reg.Keys
    ensures forall c :: c in reg ==> r[c] == Without(reg[c], scope)
    ensures forall c :: c in reg ==> forall e :: e in r[c] <==> e in reg[c] && !InScope(e, scope)
  {
    map c | c in reg :: Without(reg[c], scope)
  }
}
