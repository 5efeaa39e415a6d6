/**
  The keyboard shortcuts that toggle a settings panel: Shift together with a key whose
  lower-cased name equals the configured key. The gradient uses "g"; the two shipped
  battery viewers use "b" and "p". The configuration's `requireShift` flag is never read:
  Shift is always required.

  `String.prototype.toLowerCase` is modelled on ASCII letters only.
*/
module Keyboard {

  predicate IsUpperAscii(c: char) {
    'A' <= c <= 'Z'
  }

  /** ASCII lower-casing of one character. */
  function LowerAscii(c: char): (l: char)
    ensures !IsUpperAscii(l)
    ensures IsUpperAscii(c) ==> 'a' <= l <= 'z' && l as int - 'a' as int == c as int - 'A' as int
    ensures !IsUpperAscii(c) ==> l == c
  {
    if IsUpperAscii(c) then (c as int - 'A' as int + 'a' as int) as char else c
  }

  /** `key.toLowerCase()`. */
  function ToLowerCase(s: string): (r: string)
    ensures |r| == |s|
    ensures forall i :: 0 <= i < |s| ==> r[i] == LowerAscii(s[i])
  {
    if |s| == 0 then [] else [LowerAscii(s[0])] + ToLowerCase(s[1..])
  }

  predicate HasUpperAscii(s: string) {
    exists i :: 0 <= i < |s| && IsUpperAscii(s[i])
  }

  /** Lower-casing leaves exactly the strings without upper-case letters unchanged, and
      lower-casing twice is lower-casing once. */
  lemma ToLowerCaseFixedPoints(s: string)
    ensures ToLowerCase(s) == s <==> !HasUpperAscii(s)
    ensures ToLowerCase(ToLowerCase(s)) == ToLowerCase(s)
  {
    if HasUpperAscii(s) {
      var i :| 0 <= i < |s| && IsUpperAscii(s[i]);
      assert ToLowerCase(s)[i] != s[i];
    }
  }

  /** The handler's test `e.shiftKey && e.key.toLowerCase() === configuredKey`: it fires
      exactly when Shift is held and the key matches the configured key letter by letter,
      ignoring the case of the pressed key. */
  function ShortcutFires(shiftKey: bool, key: string, configured: string): (fires: bool)
    ensures fires <==>
      shiftKey && |key| == |configured| && forall i :: 0 <= i < |key| ==> LowerAscii(key[i]) == configured[i]
  {
    var lowered := ToLowerCase(key);
    assert |key| == |configured| && (forall i :: 0 <= i < |key| ==> LowerAscii(key[i]) == configured[i])
      ==> lowered == configured;
    shiftKey && lowered == configured
  }

  const GradientKey: string := "g"

  /** A configured key holding an upper-case letter can never fire. */
  lemma UpperCaseKeyNeverFires(shiftKey: bool, key: string, configured: string)
    requires HasUpperAscii(configured)
    ensures !ShortcutFires(shiftKey, key, configured)
  {
    var i :| 0 <= i < |configured| && IsUpperAscii(configured[i]);
    assert |key| == |configured| ==> !IsUpperAscii(ToLowerCase(key)[i]);
  }

  /** With Shift held, a browser reports the letter in upper case; both cases fire the
      gradient's shortcut, and the letter alone does not. */
  lemma ShiftedLetterFires()
    ensures ShortcutFires(true, "G", GradientKey) && ShortcutFires(true, "g", GradientKey)
    ensures !ShortcutFires(false, "g", GradientKey)
  {
    assert ToLowerCase("G") == "g";
    assert ToLowerCase("g") == "g";
  }

  /** One key event fires at most one of two different configured keys. */
  lemma DistinctKeysExclusive(shiftKey: bool, key: string, a: string, b: string)
    requires a != b
    ensures !(ShortcutFires(shiftKey, key, a) && ShortcutFires(shiftKey, key, b))
  {
  }
}
