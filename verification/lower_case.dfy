/** Lower-casing of strings, as far as the classifier's area comparison needs it.

    Covers the ASCII letters and the basic Cyrillic block (U+0400 to U+042F),
    which holds every Ukrainian capital except Ґ (U+0490), covered too.
    Every other character is left as it is. */
module LowerCase {

  /** A capital letter that `LowerChar` maps to its small form. */
  predicate IsUpper(c: char) {
    || 'A' <= c <= 'Z'
    || 'Ѐ' <= c <= 'Я'
    || c == 'Ґ'
  }

  /** The small form of one character. */
  function LowerChar(c: char): (r: char)
    ensures !IsUpper(r)
    ensures !IsUpper(c) ==> r == c
  {
    if 'A' <= c <= 'Z' then (c as int + 0x20) as char
    else if 'А' <= c <= 'Я' then (c as int + 0x20) as char
    else if 'Ѐ' <= c <= 'Џ' then (c as int + 0x50) as char
    else if c == 'Ґ' then 'ґ'
    else c
  }

  /** The string with every capital replaced by its small form, character by character. */
  function ToLower(s: string): (r: string)
    ensures |r| == |s|
    ensures forall i :: 0 <= i < |s| ==> r[i] == LowerChar(s[i])
  {
    if s == [] then [] else [LowerChar(s[0])] + ToLower(s[1..])
  }

  /** Lower-casing twice is lower-casing once. */
  lemma ToLowerIdempotent(s: string)
    ensures ToLower(ToLower(s)) == ToLower(s)
  {
    var t := ToLower(s);
    assert forall i :: 0 <= i < |t| ==> ToLower(t)[i] == t[i];
  }

  /** A string that holds no capital is its own lower-cased form. */
  lemma ToLowerOfLower(s: string)
    requires forall i :: 0 <= i < |s| ==> !IsUpper(s[i])
    ensures ToLower(s) == s
  {
    assert forall i :: 0 <= i < |s| ==> ToLower(s)[i] == s[i];
  }
}
