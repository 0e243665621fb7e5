# keymaster.js, modelled in Dafny

keymaster.js binds keyboard shortcuts such as `"ctrl+s, command+s"` to
handlers, files them by key code, and on every key-down decides which of them
fire, given the current scope, the modifier keys held and the host's filter.
This project models the non-DOM core of that library as pure functions over
immutable data, and proves what each operation does.

- `wrappers.dfy`, module `Wrappers`: `Option`.
- `arrays.dfy`, module `Arrays`: the list helpers the library relies on:
  - `index`, which gives the last occurrence;
  - `Array.prototype.indexOf`, which gives the first;
  - `splice(i, 1)`;
  - `compareArray`.
- `keycodec.dfy`, module `KeyCodec`: shortcut text to key codes:
  - the modifier table `_MODIFIERS` and the special-key table `_MAP`, including f1 to f19;
  - `code`;
  - `getKeys`: whitespace removal, comma split, trailing-comma rule;
  - `getMods`;
  - the parse of one comma entry into a key code and a modifier list.
- `tracker.dfy`, module `ModifierTracker`: the four modifier flags `_mods` and the pressed list `_downKeys`:
  - the key-down prefix of `dispatch`;
  - `updateModifierKey`, `clearModifier` and `resetModifiers`;
  - `isPressed` and `getPressedKeyCodes`.
- `scopes.dfy`, module `ScopeStack`: the scope stack `_scope` and `setScope`, `getScope`, `pushScope`, `popScope`, `addOverlappingScope` and `removeOverlappingScope`.
  - A frame is a single scope id or an array of ids.
  - Arrays are shared objects: `addOverlappingScope` on an array top appends to THAT array and pushes it again, so two stack slots alias one array. The model therefore keeps arrays in an arena (`Stack.arrays`), and an array frame holds an index into it (`Shared(ref)`).
- `registry.dfy`, module `BindingRegistry`: `_handlers` as a map from key code to an ordered list of entries:
  - `assignKey` appends;
  - `unbindKey` overwrites matches in place with an empty tombstone;
  - `deleteScope` splices matches out.
- `keymaster.dfy`, module `Keymaster`: the whole state (registry, scope stack, keyboard state) and `dispatch`.
  - Handlers are opaque identities. What each handler returns is an input: `returnsFalse(i)` says whether the handler of entry `i` of the key's list returns the literal `false`.
  - The verdict of the host's `filter` is a boolean input.

JavaScript values outside the model's types are represented as follows:
- The `undefined` that an unknown modifier name yields is `NoModifier` (-1).
- The `NaN` that `code("")` yields (text such as `"ctrl+"`, whose key token is empty) is `NoCode` (-1). As a property name it is always the same key, `"NaN"`, so binding and unbinding such text meet the same list. No event carries it: an event's key code is a `nat`, so dispatch never looks that list up. `isPressed` of the empty name is false, since `index` never finds `NaN`.
- Neither sentinel equals a modifier code.
- A falsy `setScope` argument is the empty string.

## Model

| member | source | states |
|---|---|---|
| `Arrays.Index` | keymaster.js:79-83 | -1 exactly when the item is absent; otherwise the position of the item with no occurrence after it (the last one) |
| `Arrays.IndexOf` | keymaster.js:362 | -1 exactly when the item is absent; otherwise the position of the item with no occurrence before it (the first one) |
| `Arrays.RemoveAt` | keymaster.js:365 | one element shorter; the elements before `i` stay and those after shift down by one; as a multiset, the input minus one copy of `a[i]` |
| `Arrays.RemoveAtDistinct` | keymaster.js:177-179 | splicing one slot out of a duplicate-free list keeps it duplicate-free and removes that value entirely |
| `Arrays.CompareArray` | keymaster.js:86-92 | true iff the two lists are equal position by position (same length, same elements) |
| `KeyCodec.ModifierCode` | keymaster.js:12-23 | each of shift, alt, ctrl and command is reached by exactly its symbol and names (⇧/shift, ⌥/alt/option, ⌃/ctrl/control, ⌘/command); every other name gives no modifier |
| `KeyCodec.Code` | keymaster.js:71-73 | a named key gives its table value; the result is the no-code sentinel exactly for the empty text |
| `KeyCodec.FunctionKeys` | keymaster.js:76 | the table entries created at start-up are exactly `"f1"`..`"f19"`: a name denotes function key `n` iff `1 <= n <= 19` and the name is `"f"` followed by `n` in decimal |
| `KeyCodec.FunctionKeyCodes` | keymaster.js:71-76 | `code("f" + n)` is `111 + n` for n from 1 to 19 |
| `KeyCodec.LettersIgnoreCase` | keymaster.js:72 | a one-letter key maps to the code of its capital, whether written lower- or upper-case |
| `KeyCodec.StripWhitespace` | keymaster.js:395 | the result holds no whitespace and holds exactly the non-whitespace characters of the input |
| `KeyCodec.StripConcat` | keymaster.js:395 | whitespace removal works character by character: it distributes over concatenation, so the order of what remains is kept |
| `KeyCodec.StripIdentity` | keymaster.js:395 | text without whitespace is returned unchanged |
| `KeyCodec.Split` | keymaster.js:396 | at least one part; no part contains the separator; joining the parts with the separator gives the text back; more than one part iff the separator occurs; the last part is empty iff the text is empty or ends in the separator |
| `KeyCodec.SplitJoin` | keymaster.js:396 | splitting undoes joining whenever no part contains the separator |
| `KeyCodec.GetKeys` | keymaster.js:393-401 | the comma rule applied to the parts of the whitespace-free text; as many entries as comma-separated segments, none containing whitespace, the last one as split; joined back with commas they give the stripped text, plus one comma exactly when the trailing-comma rule fired |
| `KeyCodec.TrailingComma` | keymaster.js:397-399 | an empty last part with a part before it gets `,` appended to that part; otherwise the parts are unchanged; every part other than the next-to-last is always kept as it was |
| `KeyCodec.GetKeysJoin` | keymaster.js:393-401 | comma-joined non-empty shortcuts without commas or whitespace are read back as exactly those shortcuts |
| `KeyCodec.CommaKey` | keymaster.js:393-401 | `","` reads as the comma key `","` followed by an empty entry |
| `KeyCodec.TrailingCommaKey` | keymaster.js:393-401 | `"a,,"` reads as `["a", ",", ""]`: the comma key is bound after `a` |
| `KeyCodec.GetMods` | keymaster.js:404-408 | one code per token except the last, in token order; the code at position `i` is the modifier table's entry for token `i`: a modifier code, or the unknown marker exactly where the table has no entry |
| `KeyCodec.ParseKey` | keymaster.js:206-213 | the key code is `code` of the last `+`-token; an entry with `+` has as modifiers the table entries of the earlier tokens, in order; an entry without `+` is the key's code with no modifiers |
| `KeyCodec.ParseFormat` | keymaster.js:206-213 | reading `mod+...+mod+key`, written with canonical modifier names, gives back the key's code and exactly those modifiers in that order |
| `ModifierTracker.Set` | keymaster.js:116 | the flag for the given code takes the new value and the other three are unchanged |
| `ModifierTracker.NumpadToNormal` | keymaster.js:56-70 | keypad digits 96..105 become 48..57 (minus 48); every other code is unchanged |
| `ModifierTracker.FoldCommand` | keymaster.js:114 | 93 and 224 become 91; every other code is unchanged |
| `ModifierTracker.FromEvent` | keymaster.js:94-102 | each flag is the event's own field for it (shiftKey, altKey, ctrlKey, metaKey) |
| `ModifierTracker.Press` | keymaster.js:107-121 | the key is the numpad-decoded, command-folded code; the decoded code is pressed afterwards and no other code changes membership; the list only grows by appending and stays duplicate-free; a modifier key sets only its own flag, any other key copies all four flags from the event |
| `ModifierTracker.Unpress` | keymaster.js:172-179 | an absent code leaves the list as it is; otherwise its last occurrence is spliced out and the remaining keys keep their press order; as a multiset, one copy of the code removed; a duplicate-free list stays so and no longer holds the code |
| `ModifierTracker.Release` | keymaster.js:171-186 | the RAW code leaves the pressed list (no keypad decoding): the list is unchanged when the code is absent, and otherwise loses the last occurrence with the other keys in press order; a modifier code (after folding 93/224) clears its own flag only; any other key leaves the flags alone |
| `ModifierTracker.Reset` | keymaster.js:188-191 | no flag is set afterwards; the pressed list is unchanged |
| `ModifierTracker.IsPressed` | keymaster.js:265-270 | a code is pressed iff it is in the list; a name is pressed iff it is not empty (the empty name reads as `NaN`) and its `code` is in the list |
| `ModifierTracker.GetPressedKeyCodes` | keymaster.js:272-274 | the pressed list itself, in press order: membership agrees with `isPressed`, duplicate-free when the list is |
| `ModifierTracker.KeypadDigitStaysPressed` | keymaster.js:172-179 | pressing and releasing a keypad digit leaves its main-row code pressed |
| `ModifierTracker.PressRelease` | keymaster.js:107-111 | pressing and releasing any other key leaves it not pressed, every other key as it was, and the list duplicate-free |
| `ScopeStack.GetScope` | keymaster.js:310-312 | `"all"` on an empty stack; otherwise the top id or the current contents of the top array |
| `ScopeStack.SetScope` | keymaster.js:302-308 | a non-empty id leaves exactly one frame, which is then the scope; an empty one empties the stack, so the scope is `"all"` |
| `ScopeStack.PushScope` | keymaster.js:313-315 | one frame added on top, the frames below kept, and the scope is the pushed id |
| `ScopeStack.RemoveOverlappingScope` | keymaster.js:355-377 | nothing changes unless the top is an array holding `s`; otherwise the first `s` is taken out of that shared array, no other array changes, and the top frame is popped iff the array became empty |
| `ScopeStack.Truncate` | keymaster.js:318-326 | a prefix of the frames, holding no single frame `s`, and cut exactly at the first single frame `s` when there is one (all frames otherwise) |
| `ScopeStack.PopScope` | keymaster.js:317-331 | the result is a prefix of the old frames and no single frame `s` remains |
| `ScopeStack.AddOverlappingScope` | keymaster.js:334-353 | on `"all"` it is `setScope(s)`; otherwise one frame is pushed, the frames below are kept, and the scope becomes the old members plus `s`; a single top gets a fresh array `[x, s]`, allocated after all existing ones and referred to by the pushed frame, while an array top has `s` appended to that same array, which is pushed again |
| `ScopeStack.PushPop` | keymaster.js:313-331 | `pushScope(s)` followed by `popScope(s)` restores the stack when `s` is not already a single frame and the old top is not an array holding `s` |
| `ScopeStack.OverlapAddsVisibility` | keymaster.js:334-353 | below a scope other than `"all"`, adding `s` overlapping keeps every visible scope visible and makes `s` visible, and nothing else |
| `ScopeStack.OverlapRemoveRestores` | keymaster.js:334-377 | removing the scope just added overlapping restores exactly which scopes are visible |
| `ScopeStack.SharedArrayAliasing` | keymaster.js:342-352 | after overlapping `b` then `c` on `a`, the two top slots share the array `[a, b, c]`; removing `b` leaves both slots showing `[a, c]` |
| `BindingRegistry.AppendAll` | keymaster.js:215-216 | every list grows by exactly the new entries filed under its code, appended in order; a code gets a list iff it had one or receives an entry |
| `BindingRegistry.Bind` | keymaster.js:194-223 | with the scope omitted it is `"all"`; for every code, the new list is the old one followed by the entries of the comma entries with that code, in text order; no other list changes |
| `BindingRegistry.BindOne` | keymaster.js:194-223 | binding one shortcut appends exactly one entry, to the end of its code's list, and leaves every other list unchanged |
| `BindingRegistry.Clear` | keymaster.js:253-259 | the list keeps its length; a matching entry (scope `===`, modifiers equal position by position) becomes a tombstone, every other entry stays |
| `BindingRegistry.UnbindFrom` | keymaster.js:236-260 | the codes with lists are the same and every list keeps its length; each entry stays or becomes a tombstone |
| `BindingRegistry.Unbind` | keymaster.js:227-261 | the codes with lists are the same and every list keeps its length; each entry stays or becomes a tombstone |
| `BindingRegistry.Stop` | keymaster.js:250-252 | the first comma entry whose code has no list, or the end: every entry before it has a list |
| `BindingRegistry.UnbindExactly` | keymaster.js:227-261 | an entry becomes a tombstone iff some comma entry before the stopping point has its code and matches it under the modifiers in effect there; every other entry is left as it was |
| `BindingRegistry.ModifiersCarryOver` | keymaster.js:230-252 | `unbindKey` tombstones, under the code of a comma entry without `+` that it reaches, every entry matching the modifiers of the latest earlier entry that named some (none if there is no such entry): the modifiers are not reset |
| `BindingRegistry.CarriedModifiersClear` | keymaster.js:236-260 | the same carry-over on the loop over the parsed comma entries: an entry without `+` before the stopping point clears the entries under its code that match the modifiers last named before it |
| `BindingRegistry.UnbindGroupIsNoop` | keymaster.js:247-256 | with an array as the current scope nothing is ever removed, because `===` never holds between an array and a string |
| `BindingRegistry.UnbindStopsAtMissingCode` | keymaster.js:250-252 | when the first comma entry's code has no list, nothing changes |
| `BindingRegistry.Without` | keymaster.js:385-388 | the remaining entries are exactly those not of the scope; the list does not grow |
| `BindingRegistry.WithoutConcat` | keymaster.js:385-388 | the splice loop distributes over concatenation, so the kept entries keep their relative order |
| `BindingRegistry.WithoutNothing` | keymaster.js:385-388 | a list with no entry of the scope is left as it is |
| `BindingRegistry.DeleteScope` | keymaster.js:380-390 | the same codes have lists; each list is its old list filtered by `Without`, so the kept entries stay in order with their multiplicity; each list holds exactly its old entries that are not of the scope |
| `Keymaster.AgreeAll` | keymaster.js:143-149 | the modifier loop keeps the match iff every visited flag is set exactly when its code is among the entry's modifiers |
| `Keymaster.FiringRule` | keymaster.js:137-158 | an entry fires iff it is a binding (never a tombstone), its scope is visible (member of an array top, equal to a single top, or `"all"`), and each of the four flags is set iff its code is among its modifiers |
| `Keymaster.FiredFrom` | keymaster.js:133-158 | exactly the positions of firing entries, strictly increasing (list order) |
| `Keymaster.AnyReturnsFalse` | keymaster.js:159-164 | true iff some fired handler returned exactly `false` |
| `Keymaster.Dispatch` | keymaster.js:105-168 | the keyboard state is updated as by the key-down prefix, and registry and scopes are untouched; a modifier key, a rejected event or a code with no list fires nothing; otherwise exactly the entries satisfying the firing rule fire, in list order; the event is suppressed iff one of them returned `false` |
| `Keymaster.Unbind` | keymaster.js:246-249 | the scope omitted means the current scope; with an array current scope the state is unchanged; scope stack and keyboard state are untouched |
| `Keymaster.KeypadDigitLikeMainRow` | keymaster.js:107 | a keypad digit's key-down has the same outcome as the main-row digit's |
| `Keymaster.DeletedScopeNeverFires` | keymaster.js:380-390 | after `deleteScope(s)` no entry of scope `s` fires |
| `Keymaster.BoundShortcutFires` | keymaster.js:130-167 | a shortcut just bound fires on its key, at the position after the old list, when its scope is visible, the filter allows the event and the flags match its modifiers exactly |
| `Keymaster.FiresAt` | keymaster.js:128-158 | an entry of the pressed key's list that is a visible binding with exactly the held modifiers fires when the filter allows the event |
| `Keymaster.SameListSameOutcome` | keymaster.js:128-164 | dispatch reads the registry only through the pressed key's list: registries that agree on it give the same fired positions and the same suppression |
| `Keymaster.EmptyKeyNeverFires` | keymaster.js:127-128 | text whose key token is empty is filed under `NaN`, which no event's key equals, so binding it changes no dispatch |
| `Keymaster.ShiftUp` | keymaster.js:206-213 | `"shift+up"` reads as code 38 with modifier 16 |
| `Keymaster.EditorExample` | keymaster.js:130-167 | with `"shift+up"` bound in scope `editor`, shift+up fires it while `editor` is pushed and fires nothing while `viewer` is |

## Left out

- DOM wiring: `addEvent` and the `keydown`, `keyup` and `focus` listeners (keymaster.js:411-426). They are host I/O; the transition functions stand in for them.
- The default `filter`'s DOM introspection (keymaster.js:278-296). Its verdict is the `allowed` input of `Dispatch`.
- `noConflict` and the global and module exports (keymaster.js:428-453): environment plumbing.
- Handler bodies. A handler is an opaque identity, and what it returns is an input. Handlers that change the registry or the scopes during dispatch are not modelled. The loop re-reads the list length (keymaster.js:133), so such re-entrancy would matter.
- Loose `==` between an array frame and a string (keymaster.js:139, 338), e.g. `["a"] == "a"`. It is treated as strict.
- The IE fallbacks `returnValue` and `cancelBubble` (keymaster.js:160-163). Suppression is one boolean.
- Upper-casing beyond ASCII in `code` (keymaster.js:72). Only `a`..`z` are upper-cased, and a character's code is its code point.
- Properties inherited by plain objects (e.g. a key named `constructor` looked up in `_MAP`). The tables hold only their own entries.
- The `assignKey.<modifier>` convenience booleans (keymaster.js:118, 184, 190, 299). They mirror modifier key-down, key-up and reset, and nothing reads them.
- Non-string arguments to `setScope` and `pushScope`. Every falsy `setScope` argument is the empty string.
- `addOverlappingScope` on an array top could be read as pushing a new array. keymaster.js:345 pushes the same array object, and the model follows the code.
- `ScopeStack.PopScope`: the contract states only that the result is a prefix without a single frame `s`. The exact composition, `Truncate` followed by `RemoveOverlappingScope`, is the body, and each half has its own exact contract.
- `KeyCodec.Code`: the contract states the named keys and the empty text. Function keys and letters are stated by `KeyCodec.FunctionKeyCodes` and `KeyCodec.LettersIgnoreCase`; other characters are only computed.
- `BindingRegistry.UnbindFrom` and `BindingRegistry.Unbind`: their contracts state only the shape (same lists, same lengths, entries kept or tombstoned). Exactly which entries become tombstones is `BindingRegistry.UnbindExactly`.
