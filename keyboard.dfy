/**
 * The keyboard mapping of the on-screen and physical keyboards
 * (js/components/util/keyboard.ts): DOM key names and keycap labels
 * translated into the 7-bit codes an Apple II reads, and the layout tables
 * reshaped for the keycap grid. Keys are modelled as ASCII strings.
 */
module Keyboard {

  /** `SPECIAL_KEY_MAP`: DOM key names renamed to keycap names. */
  const SpecialKeyMap: map<string, string> := map[
    "Shift" := "Shift", "Enter" := "Return", "CapsLock" := "Lock", "Control" := "Control",
    "Escape" := "Esc", "Delete" := "Reset", "Tab" := "Tab", "Backspace" := "Delete",
    "ArrowUp" := "&uarr;", "ArrowDown" := "&darr;", "ArrowRight" := "&rarr;", "ArrowLeft" := "&larr;",
    "UIKeyInputLeftArrow" := "&larr;", "UIKeyInputRightArrow" := "&rarr;",
    "UIKeyInputUpArrow" := "&uarr;", "UIKeyInputDownArrow" := "&darr;",
    "UIKeyInputEscape" := "Esc"]

  /** `SPECIAL_KEY_CODE`: the codes of the named keys. */
  const SpecialKeyCode: map<string, int> := map[
    "Tab" := 9, "Return" := 13, "Esc" := 27, "&uarr;" := 11, "&darr;" := 10,
    "&rarr;" := 21, "&larr;" := 8, "Delete" := 127]

  /** `ShiftED`: each shifted symbol and the unshifted symbol on its keycap. */
  const ShiftED: map<string, string> := map[
    "!" := "1", "@" := "2", "#" := "3", "$" := "4", "%" := "5", "^" := "6", "&" := "7",
    "*" := "8", "(" := "9", ")" := "0", "_" := "-", "+" := "=", "{" := "[", "}" := "]",
    "|" := "\\", ":" := ";", "'" := "\"", "<" := ",", ">" := ".", "?" := "/", "~" := "`"]

  /** `keys2`: the II/II+ layout, unshifted then shifted. */
  const Keys2: seq<seq<seq<string>>> := [
    [
      ["1", "2", "3", "4", "5", "6", "7", "8", "9", "0", ":", "-", "Reset"],
      ["Esc", "Q", "W", "E", "R", "T", "Y", "U", "I", "O", "P", "REPT", "Return"],
      ["Control", "A", "S", "D", "F", "G", "H", "J", "K", "L", ";", "&larr;", "&rarr;"],
      ["Shift", "Z", "X", "C", "V", "B", "N", "M", ",", ".", "/", "Shift"],
      ["PW", "&nbsp;"]
    ],
    [
      ["!", "\"", "#", "$", "%", "&", "'", "(", ")", "0", "*", "=", "Reset"],
      ["Esc", "Q", "W", "E", "R", "T", "Y", "U", "I", "O", "@", "REPT", "Return"],
      ["Control", "A", "S", "D", "F", "BELL", "H", "J", "K", "L", "+", "&larr;", "&rarr;"],
      ["Shift", "Z", "X", "C", "V", "B", "^", "]", "<", ">", "?", "Shift"],
      ["PW", "&nbsp;"]
    ]
  ]

  /** `keys2e`: the IIe layout, unshifted then shifted. */
  const Keys2e: seq<seq<seq<string>>> := [
    [
      ["Esc", "1", "2", "3", "4", "5", "6", "7", "8", "9", "0", "-", "=", "Delete"],
      ["Tab", "Q", "W", "E", "R", "T", "Y", "U", "I", "O", "P", "[", "]", "\\"],
      ["Control", "A", "S", "D", "F", "G", "H", "J", "K", "L", ";", "\"", "Return"],
      ["Shift", "Z", "X", "C", "V", "B", "N", "M", ",", ".", "/", "Shift"],
      ["Lock", "`", "PW", "OPEN_APPLE", "&nbsp;", "CLOSED_APPLE", "&larr;", "&rarr;", "&darr;", "&uarr;"]
    ],
    [
      ["Esc", "!", "@", "#", "$", "%", "^", "&", "*", "(", ")", "_", "+", "Delete"],
      ["Tab", "Q", "W", "E", "R", "T", "Y", "U", "I", "O", "P", "{", "}", "|"],
      ["Control", "A", "S", "D", "F", "G", "H", "J", "K", "L", ":", "'", "Return"],
      ["Shift", "Z", "X", "C", "V", "B", "N", "M", "<", ">", "?", "Shift"],
      ["Caps", "~", "PW", "OPEN_APPLE", "&nbsp;", "CLOSED_APPLE", "&larr;", "&rarr;", "&darr;", "&uarr;"]
    ]
  ]

  datatype KeyEvent = KeyEvent(key: string, keyLabel: string, keyCode: int)

  /** `key.toUpperCase()` of a one-character ASCII key. */
  function UpperChar(c: char): (u: char)
    ensures 'a' <= c <= 'z' ==> u as int == c as int - 0x20
    ensures !('a' <= c <= 'z') ==> u == c
  {
    if 'a' <= c <= 'z' then (c as int - 0x20) as char else c
  }

  /** The keycap name of a DOM key: renamed through `SPECIAL_KEY_MAP`, Alt
      split into the two Apple keys by its location. */
  function KeyName(eventKey: string, location: int): (key: string)
    ensures eventKey in SpecialKeyMap ==> key == SpecialKeyMap[eventKey]
    ensures eventKey !in SpecialKeyMap && eventKey != "Alt" ==> key == eventKey
    ensures |key| == 1 ==> key == eventKey
  {
    if eventKey in SpecialKeyMap then SpecialKeyMap[eventKey]
    else if eventKey == "Alt" then (if location == 1 then "OPEN_APPLE" else "CLOSED_APPLE")
    else eventKey
  }

  /** `mapKeyboardEvent`: the key's name, its keycap label, and its code;
      caps lock or control upper-case a letter, and control then folds the
      range 0x40..0x5f down to 0x00..0x1f. */
  function MapKeyboardEvent(eventKey: string, location: int, caps: bool, control: bool): (r: KeyEvent)
    ensures r.key == KeyName(eventKey, location)
    ensures r.key in SpecialKeyCode ==> r.keyCode == SpecialKeyCode[r.key]
    ensures r.key !in SpecialKeyCode && |r.key| != 1 ==> r.keyCode == 0xff
    ensures control && |r.key| == 1 && '@' <= UpperChar(r.key[0]) <= '_' ==>
      r.keyCode == UpperChar(r.key[0]) as int - 0x40
    ensures |r.key| == 1 && !(control && '@' <= UpperChar(r.key[0]) <= '_') ==>
      r.keyCode == if (caps || control) && 'a' <= r.key[0] <= 'z' then r.key[0] as int - 0x20 else r.key[0] as int
  {
    var key := KeyName(eventKey, location);
    var keyLabel :=
      if |key| == 1 then (if key in ShiftED then ShiftED[key] else [UpperChar(key[0])]) else key;
    var code0 := if key in SpecialKeyCode then SpecialKeyCode[key] else if |key| == 1 then key[0] as int else 0xff;
    var code1 := if (caps || control) && 0x61 <= code0 <= 0x7a then code0 - 0x20 else code0;
    var code2 := if control && 0x40 <= code1 < 0x60 then code1 - 0x40 else code1;
    KeyEvent(key, keyLabel, code2)
  }

  /** The shape of a keyboard's reported code: an ASCII key yields a 7-bit
      code, a key with a longer name and no code of its own 0xff. */
  lemma KeyCodeRange(eventKey: string, location: int, caps: bool, control: bool)
    requires forall i :: 0 <= i < |eventKey| ==> eventKey[i] < 128 as char
    ensures var r := MapKeyboardEvent(eventKey, location, caps, control);
      (0 <= r.keyCode < 0x80 || r.keyCode == 0xff) &&
      (r.keyCode == 0xff <==> r.key !in SpecialKeyCode && |r.key| != 1)
  {
  }

  /** With caps lock or control, a lower-case letter reads as upper case;
      with control a letter reads as its control code 1..26. */
  lemma LetterCodes(c: char, caps: bool, control: bool)
    requires 'a' <= c <= 'z' || 'A' <= c <= 'Z'
    ensures var code := MapKeyboardEvent([c], 0, caps, control).keyCode;
      var upper := UpperChar(c) as int;
      (control ==> code == upper - 0x40 && 1 <= code <= 26) &&
      (!control && caps ==> code == upper) &&
      (!control && !caps ==> code == c as int)
  {
    assert [c] !in SpecialKeyMap && [c] != "Alt" && [c] !in SpecialKeyCode;
  }

  /** A single-character key's label is the unshifted symbol on its keycap,
      or the key itself upper-cased. */
  lemma LabelOfSymbol(c: char, location: int, caps: bool, control: bool)
    requires [c] !in SpecialKeyMap
    ensures var keyLabel := MapKeyboardEvent([c], location, caps, control).keyLabel;
      keyLabel == if [c] in ShiftED then ShiftED[[c]] else [UpperChar(c)]
  {
    assert KeyName([c], location) == [c];
  }

  /** The renamed special keys: Enter is Return (13), Backspace is Delete
      (127), Alt on the left is the open Apple key. */
  lemma SpecialKeys(caps: bool, control: bool)
    ensures MapKeyboardEvent("Enter", 0, caps, control) == KeyEvent("Return", "Return", 13)
    ensures MapKeyboardEvent("Backspace", 0, caps, control) == KeyEvent("Delete", "Delete", 127)
  {
  }

  /** Alt is split by its location: on the left the open Apple key, on the
      right the closed Apple key, neither with a code of its own. */
  lemma AltKeys(caps: bool, control: bool)
    ensures MapKeyboardEvent("Alt", 1, caps, control).key == "OPEN_APPLE"
    ensures MapKeyboardEvent("Alt", 2, caps, control).key == "CLOSED_APPLE"
    ensures MapKeyboardEvent("Alt", 1, caps, control).keyCode == 0xff
  {
  }

  /** The keycap names `mapMouseEvent` turns into control characters. */
  function MouseKey(key: string): (k: string)
    ensures |key| < 3 ==> k == key
  {
    match key
    case "BELL" => "G"
    case "Return" => "\r"
    case "Tab" => "\t"
    case "Delete" => "\U{7F}"
    case "&larr;" => "\U{08}"
    case "&rarr;" => "\U{15}"
    case "&darr;" => "\U{0A}"
    case "&uarr;" => "\U{0B}"
    case "&nbsp;" => " "
    case "Esc" => "\U{1B}"
    case _ => key
  }

  /** `mapMouseEvent`, with the keycap's `data-key1`/`data-key2` attributes
      given ("" when absent): control folds '@'..'_' to 0..31, a IIe keycap
      letter without shift or caps lock reads as lower case. */
  function MapMouseEvent(key1: string, key2: string, shifted: bool, controlled: bool, caps: bool, e: bool): (r: KeyEvent)
    ensures r.keyLabel == key2
    ensures r.key == MouseKey(if shifted then key2 else key1)
    ensures |r.key| != 1 ==> r.keyCode == 0xff
    ensures controlled && |r.key| == 1 && '@' <= r.key[0] <= '_' ==> r.keyCode == r.key[0] as int - 0x40
    ensures !controlled && !e && |r.key| == 1 ==> r.keyCode == r.key[0] as int
    ensures |r.key| == 1 && !(controlled && '@' <= r.key[0] <= '_') ==>
      r.keyCode == if e && !shifted && !caps && 'A' <= r.key[0] <= 'Z' then r.key[0] as int + 0x20 else r.key[0] as int
  {
    var keyLabel := key2;
    var key := MouseKey(if shifted then key2 else key1);
    var keyCode :=
      if |key| == 1 then
        (if controlled && '@' <= key[0] <= '_' then key[0] as int - 0x40
         else if e && !shifted && !caps && 'A' <= key[0] <= 'Z' then key[0] as int + 0x20
         else key[0] as int)
      else 0xff;
    KeyEvent(key, keyLabel, keyCode)
  }

  /** Clicking a named keycap gives the same code as pressing the key that
      carries that name (Backspace for Delete): `mapMouseEvent`'s renaming
      agrees with `SPECIAL_KEY_CODE`. */
  lemma NamedKeysAgree(k: string, key2: string, controlled: bool, caps: bool, e: bool)
    requires k in SpecialKeyCode
    ensures MapMouseEvent(k, key2, false, controlled, caps, e).keyCode == SpecialKeyCode[k]
    ensures MapMouseEvent(k, key2, false, controlled, caps, e).keyCode ==
            MapKeyboardEvent(if k == "Delete" then "Backspace" else k, 0, caps, controlled).keyCode
  {
    NamedKeyClicked(k, key2, controlled, caps, e);
    NamedKeyPressed(k, caps, controlled);
  }

  /** A named keycap clicked reports its `SPECIAL_KEY_CODE`. */
  lemma NamedKeyClicked(k: string, key2: string, controlled: bool, caps: bool, e: bool)
    requires k in SpecialKeyCode
    ensures MapMouseEvent(k, key2, false, controlled, caps, e).keyCode == SpecialKeyCode[k]
  {
    assert k in {"Tab", "Return", "Esc", "&uarr;", "&darr;", "&rarr;", "&larr;", "Delete"};
  }

  /** The key carrying a keycap's name (Backspace for Delete) reports the
      keycap's `SPECIAL_KEY_CODE`. */
  lemma NamedKeyPressed(k: string, caps: bool, controlled: bool)
    requires k in SpecialKeyCode
    ensures MapKeyboardEvent(if k == "Delete" then "Backspace" else k, 0, caps, controlled).keyCode == SpecialKeyCode[k]
  {
    var eventKey := if k == "Delete" then "Backspace" else k;
    if k in {"Tab", "Delete"} {
      assert KeyName(eventKey, 0) == k;
    } else {
      UnmappedNames(k);
    }
  }

  /** The keycap names other than Tab and Delete are not DOM key names that
      `SPECIAL_KEY_MAP` renames, so a key carrying one keeps it. */
  lemma UnmappedNames(k: string)
    requires k in {"Return", "Esc", "&uarr;", "&darr;", "&rarr;", "&larr;"}
    ensures KeyName(k, 0) == k
  {
    assert k !in SpecialKeyMap;
  }

  /** Clicking a IIe letter keycap without shift types what pressing the
      letter key types, with or without caps lock and control. */
  lemma LetterKeysAgree(c: char, controlled: bool, caps: bool)
    requires 'a' <= c <= 'z'
    ensures MapMouseEvent([UpperChar(c)], [UpperChar(c)], false, controlled, caps, true).keyCode ==
            MapKeyboardEvent([c], 0, caps, controlled).keyCode
  {
    LetterCodes(c, caps, controlled);
  }

  /** With control, every key from '@' to '_' (letters and the five symbols
      after 'Z') is folded down by 0x40, whether pressed or clicked: '@' is
      0 and '[' is 0x1b, the Esc code. */
  lemma ControlFold(c: char, caps: bool, e: bool, key2: string)
    requires '@' <= c <= '_'
    ensures MapKeyboardEvent([c], 0, caps, true).keyCode == c as int - 0x40
    ensures MapMouseEvent([c], key2, false, true, caps, e).keyCode == c as int - 0x40
  {
    assert [c] !in SpecialKeyMap && [c] != "Alt" && [c] !in SpecialKeyCode;
  }

  /** A multi-character keycap with no control character is reported as 0xff. */
  lemma MouseUnknownKey(key1: string, controlled: bool, caps: bool, e: bool)
    requires |key1| != 1 && MouseKey(key1) == key1
    ensures MapMouseEvent(key1, "", false, controlled, caps, e).keyCode == 0xff
  {
  }

  /** Both layers of a layout have the same rows, of the same lengths. */
  predicate Layout(inKeys: seq<seq<seq<string>>>) {
    |inKeys| == 2 && |inKeys[0]| == |inKeys[1]| &&
    forall i :: 0 <= i < |inKeys[0]| ==> |inKeys[0][i]| == |inKeys[1][i]|
  }

  /** Row i of the result pairs each unshifted keycap with its shifted one. */
  predicate Tupled(inKeys: seq<seq<seq<string>>>, rows: seq<seq<seq<string>>>)
    requires Layout(inKeys)
  {
    |rows| == |inKeys[0]| &&
    forall i :: 0 <= i < |rows| ==>
      |rows[i]| == |inKeys[0][i]| &&
      forall j :: 0 <= j < |rows[i]| ==> rows[i][j] == [inKeys[0][i][j], inKeys[1][i][j]]
  }

  lemma TablesAreLayouts()
    ensures Layout(Keys2) && Layout(Keys2e)
  {
  }

  /** `keysAsTuples`: the two layers zipped row by row. */
  method KeysAsTuples(inKeys: seq<seq<seq<string>>>) returns (rows: seq<seq<seq<string>>>)
    requires Layout(inKeys)
    ensures Tupled(inKeys, rows)
  {
    rows := [];
    var idx := 0;
    while idx < |inKeys[0]|
      invariant 0 <= idx <= |inKeys[0]| && |rows| == idx
      invariant forall i :: 0 <= i < idx ==>
        |rows[i]| == |inKeys[0][i]| &&
        forall j :: 0 <= j < |rows[i]| ==> rows[i][j] == [inKeys[0][i][j], inKeys[1][i][j]]
    {
      var upper := inKeys[0][idx];
      var lower := inKeys[1][idx];
      var keys := [];
      var jdx := 0;
      while jdx < |upper|
        invariant 0 <= jdx <= |upper| && |keys| == jdx
        invariant forall j :: 0 <= j < jdx ==> keys[j] == [upper[j], lower[j]]
      {
        keys := keys + [[upper[jdx], lower[jdx]]];
        jdx := jdx + 1;
      }
      rows := rows + [keys];
      idx := idx + 1;
    }
  }

  /** Layer k of a tupled layout. */
  function Layer(rows: seq<seq<seq<string>>>, k: int): (l: seq<seq<string>>)
    requires 0 <= k < 2 && forall i, j :: 0 <= i < |rows| && 0 <= j < |rows[i]| ==> |rows[i][j]| == 2
    ensures |l| == |rows| && forall i :: 0 <= i < |l| ==> |l[i]| == |rows[i]|
  {
    seq(|rows|, i requires 0 <= i < |rows| => seq(|rows[i]|, j requires 0 <= j < |rows[i]| => rows[i][j][k]))
  }

  /** Nothing is lost: splitting the pairs again gives back both layers. */
  lemma TuplesRoundTrip(inKeys: seq<seq<seq<string>>>, rows: seq<seq<seq<string>>>)
    requires Layout(inKeys) && Tupled(inKeys, rows)
    ensures forall i, j :: 0 <= i < |rows| && 0 <= j < |rows[i]| ==> |rows[i][j]| == 2
    ensures Layer(rows, 0) == inKeys[0] && Layer(rows, 1) == inKeys[1]
  {
    forall k | 0 <= k < 2
      ensures Layer(rows, k) == inKeys[k]
    {
      forall i | 0 <= i < |rows|
        ensures Layer(rows, k)[i] == inKeys[k][i]
      {
      }
    }
  }
}
