/**
 * Shortcut text to key codes: the modifier and special-key tables, `code`,
 * `getKeys` (whitespace removal, comma split, trailing-comma rule) and
 * `getMods`, together with the string splitting they rest on.
 */
module KeyCodec {
  import opened Wrappers
  import opened Arrays

  const Shift := 16
  const Ctrl := 17
  const Alt := 18
  const Command := 91

  /** The four codes the modifier state is kept for. */
  predicate IsModifierKey(c: int)
  {
    c == Shift || c == Ctrl || c == Alt || c == Command
  }

  /** Stands for `undefined`, what the modifier table yields for an unknown name. */
  const NoModifier := -1

  /** Stands for `NaN`, what `code("")` yields; no event carries it. */
  const NoCode := -1

  /** The modifier table: symbols and names of shift, alt/option, ctrl/control and command. */
  function ModifierCode(name: string): (r: int)
    ensures IsModifierKey(r) || r == NoModifier
    ensures r == Shift <==> name == "\U{21E7}" || name == "shift"
    ensures r == Alt <==> name == "\U{2325}" || name == "alt" || name == "option"
    ensures r == Ctrl <==> name == "\U{2303}" || name == "ctrl" || name == "control"
    ensures r == Command <==> name == "\U{2318}" || name == "command"
  {
    if name == "\U{21E7}" || name == "shift" then Shift
    else if name == "\U{2325}" || name == "alt" || name == "option" then Alt
    else if name == "\U{2303}" || name == "ctrl" || name == "control" then Ctrl
    else if name == "\U{2318}" || name == "command" then Command
    else NoModifier
  }

  /** The named keys of the special-key table (the function keys are added separately). */
  const NamedKeys: map<string, int> := map[
    "backspace" := 8, "tab" := 9, "clear" := 12, "enter" := 13, "return" := 13,
    "esc" := 27, "escape" := 27, "space" := 32, "left" := 37, "up" := 38,
    "right" := 39, "down" := 40, "del" := 46, "delete" := 46, "home" := 36,
    "end" := 35, "pageup" := 33, "pagedown" := 34, "," := 188, "." := 190,
    "/" := 191, "`" := 192, "-" := 189, "=" := 187, ";" := 186, "'" := 222,
    "[" := 219, "]" := 221, "\\" := 220]

  /** Decimal digits of `n`, as `String(n)` writes them. */
  function Decimal(n: nat): string
  {
    if n < 10 then [('0' as int + n) as char]
    else Decimal(n / 10) + [('0' as int + n % 10) as char]
  }

  /** The table entry the start-up loop creates for function key `n`: `"f" + n`. */
  function FunctionKeyName(n: nat): string
  {
    "f" + Decimal(n)
  }

  /** Which function key, among f1 to f19, the name `x` denotes. */
  function FunctionKeyNumber(x: string): (r: Option<nat>)
    ensures r.Some? ==> 1 <= r.value <= 19
  {
    if |x| == 2 && x[0] == 'f' && '1' <= x[1] <= '9' then Some(x[1] as int - '0' as int)
    else if |x| == 3 && x[0] == 'f' && x[1] == '1' && '0' <= x[2] <= '9' then Some(10 + x[2] as int - '0' as int)
    else None
  }

  /** ASCII upper-casing of one character. */
  function UpperCase(c: char): (r: char)
  {
    if 'a' <= c <= 'z' then (c as int - 32) as char else c
  }

  /**
   * `code(x)`: the special-key table entry (named keys, and f1..f19 as
   * 112..130) or else the code of the upper-cased first character.
   */
  function Code(x: string): (r: int)
    ensures r == NoCode <==> x == ""
    ensures x in NamedKeys ==> r == NamedKeys[x]
  {
    match FunctionKeyNumber(x)
    case Some(n) => 111 + n
    case None =>
      if x in NamedKeys then NamedKeys[x]
      else if |x| == 0 then NoCode
      else UpperCase(x[0]) as int
  }

  /** The table entries built at start-up for f1..f19 are exactly the names `FunctionKeyNumber` accepts. */
  lemma FunctionKeys(x: string, n: nat)
    ensures FunctionKeyNumber(x) == Some(n) <==> 1 <= n <= 19 && x == FunctionKeyName(n)
  {
    if 1 <= n <= 19 && x == FunctionKeyName(n) {
      if n < 10 {
        assert x == ['f', ('0' as int + n) as char];
      } else {
        assert Decimal(n) == Decimal(1) + [('0' as int + n % 10) as char];
        assert x == ['f', '1', ('0' as int + n % 10) as char];
      }
    }
    if FunctionKeyNumber(x) == Some(n) {
      if |x| == 2 {
        assert x == "f" + Decimal(n);
      } else {
        assert n / 10 == 1;
        assert x == "f" + Decimal(n);
      }
    }
  }

  /** Function keys map to 111 + their number. */
  lemma FunctionKeyCodes(n: nat)
    requires 1 <= n <= 19
    ensures Code(FunctionKeyName(n)) == 111 + n
  {
    FunctionKeys(FunctionKeyName(n), n);
  }

  /** A single letter maps to the code of its capital, whichever case it is written in. */
  lemma LettersIgnoreCase(c: char)
    requires 'a' <= c <= 'z'
    ensures Code([c]) == c as int - 32
    ensures Code([UpperCase(c)]) == Code([c])
  {
  }

  // ---------------------------------------------------------------------
  // Splitting shortcut text

  /** The characters JavaScript's `\s` class matches. */
  predicate IsWhitespace(c: char)
  {
    || c == '\t' || c == '\n' || c == '\U{000B}' || c == '\U{000C}' || c == '\r' || c == ' '
    || c == '\U{00A0}' || c == '\U{1680}' || ('\U{2000}' <= c <= '\U{200A}')
    || c == '\U{2028}' || c == '\U{2029}' || c == '\U{202F}' || c == '\U{205F}'
    || c == '\U{3000}' || c == '\U{FEFF}'
  }

  predicate NoWhitespace(s: string)
  {
    forall i :: 0 <= i < |s| ==> !IsWhitespace(s[i])
  }

  /** `key.replace(/\s/g, "")`. */
  function StripWhitespace(s: string): (r: string)
    ensures NoWhitespace(r)
    ensures forall c :: c in r <==> c in s && !IsWhitespace(c)
    ensures |r| <= |s|
  {
    if |s| == 0 then ""
    else if IsWhitespace(s[0]) then StripWhitespace(s[1..])
    else
      assert s == [s[0]] + s[1..];
      [s[0]] + StripWhitespace(s[1..])
  }

  /** Whitespace removal works character by character: it distributes over concatenation. */
  lemma {:induction false} StripConcat(a: string, b: string)
    ensures StripWhitespace(a + b) == StripWhitespace(a) + StripWhitespace(b)
  {
    if |a| > 0 {
      var ab := a + b;
      assert ab[0] == a[0] && ab[1..] == a[1..] + b;
      StripConcat(a[1..], b);
      var x, y := StripWhitespace(a[1..]), StripWhitespace(b);
      if !IsWhitespace(a[0]) {
        assert StripWhitespace(ab) == [a[0]] + (x + y);
        assert StripWhitespace(a) == [a[0]] + x;
        Associative([a[0]], x, y);
      }
    } else {
      assert a + b == b;
    }
  }

  /** Text without whitespace is left as it is. */
  lemma {:induction false} StripIdentity(s: string)
    requires NoWhitespace(s)
    ensures StripWhitespace(s) == s
  {
    if |s| > 0 {
      StripIdentity(s[1..]);
      assert s == [s[0]] + s[1..];
    }
  }

  /** `parts.join(sep)`. */
  function Join(parts: seq<string>, sep: char): string
  {
    if |parts| == 0 then ""
    else if |parts| == 1 then parts[0]
    else parts[0] + [sep] + Join(parts[1..], sep)
  }

  /** `s.split(sep)` for a one-character separator. */
  function Split(s: string, sep: char): (r: seq<string>)
    ensures |r| >= 1
    ensures forall i :: 0 <= i < |r| ==> sep !in r[i]
    ensures Join(r, sep) == s
    ensures |r| > 1 <==> sep in s
    ensures sep !in s ==> r == [s]
    ensures r[|r| - 1] == "" <==> s == "" || s[|s| - 1] == sep
    decreases |s|
  {
    var i := IndexOf(s, sep);
    if i == -1 then [s]
    else
      var rest := Split(s[i + 1..], sep);
      SplitCons(s, sep, i, rest);
      [s[..i]] + rest
  }

  /** The first part up to the first separator, followed by the parts of what comes after it, splits `s`. */
  lemma SplitCons(s: string, sep: char, i: nat, rest: seq<string>)
    requires i < |s| && s[i] == sep && sep !in s[..i]
    requires |rest| >= 1 && forall k :: 0 <= k < |rest| ==> sep !in rest[k]
    requires Join(rest, sep) == s[i + 1..]
    requires rest[|rest| - 1] == "" <==> s[i + 1..] == "" || s[|s| - 1] == sep
    ensures var r := [s[..i]] + rest;
      && |r| > 1
      && (forall k :: 0 <= k < |r| ==> sep !in r[k])
      && Join(r, sep) == s
      && (r[|r| - 1] == "" <==> s == "" || s[|s| - 1] == sep)
  {
    var r := [s[..i]] + rest;
    assert r[1..] == rest;
    assert s == s[..i] + [sep] + s[i + 1..];
    forall k | 0 <= k < |r| ensures sep !in r[k] {
      if k > 0 {
        assert r[k] == rest[k - 1];
      }
    }
  }

  /** In `p + [sep] + rest` with no separator in `p`, the first separator is at `|p|`. */
  lemma FirstSeparator(p: string, sep: char, rest: string)
    requires sep !in p
    ensures var s := p + [sep] + rest;
      IndexOf(s, sep) == |p| && s[..|p|] == p && s[|p| + 1..] == rest
  {
    var s := p + [sep] + rest;
    assert s[|p|] == sep;
    assert s[..|p|] == p;
    assert s[|p| + 1..] == rest;
  }

  /** Splitting undoes joining, as long as no part contains the separator. */
  lemma {:induction false} SplitJoin(parts: seq<string>, sep: char)
    requires |parts| >= 1
    requires forall i :: 0 <= i < |parts| ==> sep !in parts[i]
    ensures Split(Join(parts, sep), sep) == parts
  {
    if |parts| > 1 {
      var p := parts[0];
      var rest := Join(parts[1..], sep);
      FirstSeparator(p, sep, rest);
      SplitJoin(parts[1..], sep);
      assert Split(Join(parts, sep), sep) == [p] + Split(rest, sep);
      assert parts == [p] + parts[1..];
    }
  }

  predicate EndsWith(s: string, c: char)
  {
    |s| > 0 && s[|s| - 1] == c
  }

  /** Appending `sep` to the next-to-last part of a list whose last part is empty appends `sep` to the joined text. */
  lemma {:induction false} JoinTrailing(ks: seq<string>, sep: char)
    requires |ks| >= 2 && ks[|ks| - 1] == ""
    ensures Join(ks[|ks| - 2 := ks[|ks| - 2] + [sep]], sep) == Join(ks, sep) + [sep]
  {
    var ks' := ks[|ks| - 2 := ks[|ks| - 2] + [sep]];
    if |ks| > 2 {
      assert ks'[1..] == ks[1..][|ks| - 3 := ks[|ks| - 2] + [sep]];
      JoinTrailing(ks[1..], sep);
    }
  }

  /**
   * `getKeys`: whitespace removed, split on commas; when the last segment is
   * empty (the text ends in a comma) a comma is appended to the segment
   * before it, and the empty segment stays. On text of a single segment the
   * rule touches nothing.
   */
  function GetKeys(text: string): (r: seq<string>)
    ensures var s := StripWhitespace(text);
      && |r| == |Split(s, ',')|
      && r[|r| - 1] == Split(s, ',')[|r| - 1]
      && (forall i :: 0 <= i < |r| ==> NoWhitespace(r[i]))
      && Join(r, ',') == if |r| >= 2 && EndsWith(s, ',') then s + "," else s
    ensures r == TrailingComma(Split(StripWhitespace(text), ','))
  {
    var s := StripWhitespace(text);
    CommaParts(s);
    TrailingComma(Split(s, ','))
  }

  /** The parts `getKeys` gives for text without whitespace: as many as the split, free of whitespace, joining back to the text (plus the appended comma). */
  lemma CommaParts(s: string)
    requires NoWhitespace(s)
    ensures var r := TrailingComma(Split(s, ','));
      && |r| == |Split(s, ',')|
      && r[|r| - 1] == Split(s, ',')[|r| - 1]
      && (forall i :: 0 <= i < |r| ==> NoWhitespace(r[i]))
      && Join(r, ',') == if |r| >= 2 && EndsWith(s, ',') then s + "," else s
  {
    var keys := Split(s, ',');
    SplitNoWhitespace(s, ',');
    TrailingCommaText(s, keys);
  }

  /** The comma rule keeps the parts free of whitespace and appends a comma to the text exactly when it fires. */
  lemma TrailingCommaText(s: string, keys: seq<string>)
    requires |keys| >= 1 && Join(keys, ',') == s
    requires keys[|keys| - 1] == "" <==> s == "" || s[|s| - 1] == ','
    requires forall i :: 0 <= i < |keys| ==> NoWhitespace(keys[i])
    ensures var r := TrailingComma(keys);
      && (forall i :: 0 <= i < |r| ==> NoWhitespace(r[i]))
      && Join(r, ',') == if |r| >= 2 && EndsWith(s, ',') then s + "," else s
  {
    if keys[|keys| - 1] == "" && |keys| >= 2 {
      JoinTrailing(keys, ',');
      var n := |keys| - 2;
      assert NoWhitespace(keys[n] + ",") by {
        assert NoWhitespace(keys[n]);
      }
    }
  }

  /** The comma rule of `getKeys` on the split parts: an empty last part gets a comma appended to the part before it. */
  function TrailingComma(keys: seq<string>): (r: seq<string>)
    requires |keys| >= 1
    ensures |keys| >= 2 && keys[|keys| - 1] == "" ==> r == keys[|keys| - 2 := keys[|keys| - 2] + ","]
    ensures !(|keys| >= 2 && keys[|keys| - 1] == "") ==> r == keys
    ensures |r| == |keys| && r[|r| - 1] == keys[|r| - 1]
    ensures forall i :: 0 <= i < |r| && i != |r| - 2 ==> r[i] == keys[i]
    ensures |r| >= 2 ==> r[|r| - 2] == if keys[|r| - 1] == "" then keys[|r| - 2] + "," else keys[|r| - 2]
  {
    if keys[|keys| - 1] == "" && |keys| >= 2 then keys[|keys| - 2 := keys[|keys| - 2] + ","] else keys
  }

  /** The parts of text without whitespace have none either. */
  lemma {:induction false} SplitNoWhitespace(s: string, sep: char)
    requires NoWhitespace(s)
    ensures forall i :: 0 <= i < |Split(s, sep)| ==> NoWhitespace(Split(s, sep)[i])
    decreases |s|
  {
    var i := IndexOf(s, sep);
    if i != -1 {
      SplitNoWhitespace(s[i + 1..], sep);
      assert Split(s, sep) == [s[..i]] + Split(s[i + 1..], sep);
    }
  }

  /** Comma-separated shortcuts without whitespace are read back as written. */
  lemma GetKeysJoin(parts: seq<string>)
    requires |parts| >= 1
    requires forall i :: 0 <= i < |parts| ==> parts[i] != "" && ',' !in parts[i] && NoWhitespace(parts[i])
    ensures GetKeys(Join(parts, ',')) == parts
  {
    var s := Join(parts, ',');
    JoinNoWhitespace(parts, ',');
    StripIdentity(s);
    SplitJoin(parts, ',');
  }

  lemma {:induction false} JoinNoWhitespace(parts: seq<string>, sep: char)
    requires !IsWhitespace(sep)
    requires forall i :: 0 <= i < |parts| ==> NoWhitespace(parts[i])
    ensures NoWhitespace(Join(parts, sep))
  {
    if |parts| > 1 {
      JoinNoWhitespace(parts[1..], sep);
    }
  }

  /** A lone comma binds the comma key, and the empty last segment is kept. */
  lemma CommaKey()
    ensures var keys := GetKeys(",");
      |keys| == 2 && keys[0] == "," && keys[1] == ""
  {
    SplitComma();
    StripIdentity(",");
  }

  /** A trailing double comma binds the comma key after the others. */
  lemma TrailingCommaKey()
    ensures GetKeys("a,,") == ["a", ",", ""]
  {
    NoSpaceInCommas();
    GetKeysVerbatim("a,,");
    SplitTwoCommas();
    CommaAfterEmpty();
  }

  lemma NoSpaceInCommas()
    ensures NoWhitespace("a,,")
  {
    var s := "a,,";
    forall i | 0 <= i < |s| ensures !IsWhitespace(s[i]) {
      assert s[i] == 'a' || s[i] == ',';
    }
  }

  /** On text without whitespace, `getKeys` is the split followed by the comma rule. */
  lemma GetKeysVerbatim(text: string)
    requires NoWhitespace(text)
    ensures GetKeys(text) == TrailingComma(Split(text, ','))
  {
    StripIdentity(text);
  }

  lemma CommaAfterEmpty()
    ensures TrailingComma(["a", "", ""]) == ["a", ",", ""]
  {
    var r := TrailingComma(["a", "", ""]);
    assert r == ["a", "", ""][1 := "" + ","];
    assert "" + "," == ",";
  }

  lemma SplitComma()
    ensures Split(",", ',') == ["", ""]
  {
    assert IndexOf(",", ',') == 0;
    assert ","[1..] == "";
  }

  lemma SplitTwoCommas()
    ensures Split("a,,", ',') == ["a", "", ""]
  {
    assert IndexOf("a,,", ',') == 1;
    assert "a,,"[..1] == "a";
    assert "a,,"[2..] == ",";
    SplitComma();
  }

  // ---------------------------------------------------------------------
  // One shortcut: modifiers and key

  /** The key code and modifier codes one comma entry denotes. */
  datatype Shortcut = Shortcut(code: int, mods: seq<int>)

  /** `getMods`: every `+`-token but the last, looked up in the modifier table. */
  function GetMods(tokens: seq<string>): (r: seq<int>)
    requires |tokens| >= 1
    ensures |r| == |tokens| - 1
    ensures forall i :: 0 <= i < |r| ==> IsModifierKey(r[i]) || r[i] == NoModifier
    ensures forall i :: 0 <= i < |r| ==> (r[i] == NoModifier <==> ModifierCode(tokens[i]) == NoModifier)
    ensures forall i :: 0 <= i < |r| ==> r[i] == ModifierCode(tokens[i])
  {
    seq(|tokens| - 1, i requires 0 <= i < |tokens| - 1 => ModifierCode(tokens[i]))
  }

  /** Whether the entry has more than one `+`-token, i.e. names modifiers. */
  predicate Qualified(k: string)
  {
    |Split(k, '+')| > 1
  }

  /** One comma entry: the last `+`-token is the key, the others the modifiers. */
  function ParseKey(k: string): (r: Shortcut)
    ensures var tokens := Split(k, '+');
      && r.code == Code(tokens[|tokens| - 1])
      && (Qualified(k) ==> r.mods == GetMods(tokens))
    ensures !Qualified(k) ==> r == Shortcut(Code(k), [])
  {
    ParseTokens(Split(k, '+'))
  }

  /** The `+`-tokens of one comma entry read as a shortcut: the last is the key, any others the modifiers. */
  function ParseTokens(tokens: seq<string>): (r: Shortcut)
    requires |tokens| >= 1
    ensures r.code == Code(tokens[|tokens| - 1])
    ensures |tokens| > 1 ==> r.mods == GetMods(tokens)
    ensures |tokens| == 1 ==> r.mods == []
  {
    Shortcut(Code(tokens[|tokens| - 1]), if |tokens| > 1 then GetMods(tokens) else [])
  }

  /** A canonical name for each modifier code. */
  function ModifierName(m: int): string
    requires IsModifierKey(m)
  {
    if m == Shift then "shift" else if m == Ctrl then "ctrl" else if m == Alt then "alt" else "command"
  }

  /** The canonical names of a list of modifier codes. */
  function ModifierNames(mods: seq<int>): (r: seq<string>)
    requires forall i :: 0 <= i < |mods| ==> IsModifierKey(mods[i])
    ensures |r| == |mods|
    ensures forall i :: 0 <= i < |mods| ==> r[i] == ModifierName(mods[i])
  {
    seq(|mods|, i requires 0 <= i < |mods| => ModifierName(mods[i]))
  }

  /** Writes a shortcut as `mod+mod+key`. */
  function Format(mods: seq<int>, key: string): string
    requires forall i :: 0 <= i < |mods| ==> IsModifierKey(mods[i])
  {
    Join(ModifierNames(mods) + [key], '+')
  }

  /** The modifier table maps each canonical name back to its code. */
  lemma ModifierNameCode(m: int)
    requires IsModifierKey(m)
    ensures ModifierCode(ModifierName(m)) == m
    ensures '+' !in ModifierName(m)
  {
  }

  /** The `+`-tokens of a formatted shortcut are the modifier names and the key. */
  lemma FormatTokens(mods: seq<int>, key: string)
    requires forall i :: 0 <= i < |mods| ==> IsModifierKey(mods[i])
    requires '+' !in key
    ensures Split(Format(mods, key), '+') == ModifierNames(mods) + [key]
  {
    var tokens := ModifierNames(mods) + [key];
    forall i | 0 <= i < |tokens|
      ensures '+' !in tokens[i]
    {
      if i < |mods| {
        ModifierNameCode(mods[i]);
      }
    }
    SplitJoin(tokens, '+');
  }

  /** The modifier table reads the canonical names back as the codes they came from. */
  lemma NamesModifiers(mods: seq<int>, key: string)
    requires forall i :: 0 <= i < |mods| ==> IsModifierKey(mods[i])
    ensures GetMods(ModifierNames(mods) + [key]) == mods
  {
    var tokens := ModifierNames(mods) + [key];
    forall i | 0 <= i < |mods|
      ensures GetMods(tokens)[i] == mods[i]
    {
      ModifierNameCode(mods[i]);
    }
  }

  /** Reading a formatted shortcut gives back its key code and its modifiers, in order. */
  lemma ParseFormat(mods: seq<int>, key: string)
    requires forall i :: 0 <= i < |mods| ==> IsModifierKey(mods[i])
    requires '+' !in key
    ensures ParseKey(Format(mods, key)) == Shortcut(Code(key), mods)
  {
    FormatTokens(mods, key);
    NamesModifiers(mods, key);
  }
}
