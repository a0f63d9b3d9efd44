/** Character and string helpers shared by the pattern matcher: ASCII
    lower-casing (the only part of Rust's `to_lowercase` that an address or a
    hexadecimal pattern exercises), hexadecimal digits, and the three literal
    matching relations the compiled rules reduce to. */
module Text {

  /** Lower-cases an ASCII capital letter; every other character is unchanged. */
  function Lower(c: char): char {
    if 'A' <= c <= 'Z' then (c as int - 'A' as int + 'a' as int) as char else c
  }

  /** `s.to_lowercase()`, restricted to ASCII letters. */
  function LowerStr(s: string): (r: string)
    ensures |r| == |s|
    ensures forall i :: 0 <= i < |s| ==> r[i] == Lower(s[i])
  {
    if s == [] then [] else [Lower(s[0])] + LowerStr(s[1..])
  }

  /** No ASCII capital letter occurs in `s`. */
  predicate IsLowerStr(s: string) {
    forall i :: 0 <= i < |s| ==> !('A' <= s[i] <= 'Z')
  }

  /** Lower-casing yields a lower-case string, leaves a lower-case string as it
      is, and so is idempotent. */
  lemma LowerStrIsLower(s: string)
    ensures IsLowerStr(LowerStr(s))
    ensures IsLowerStr(s) ==> LowerStr(s) == s
    ensures LowerStr(LowerStr(s)) == LowerStr(s)
  {
  }

  /** One character of the class `[0-9a-fA-F]`. */
  predicate IsHexDigit(c: char) {
    '0' <= c <= '9' || 'a' <= c <= 'f' || 'A' <= c <= 'F'
  }

  /** Only lower-case hexadecimal digits, `[0-9a-f]*`. */
  predicate IsLowerHex(t: string) {
    forall i :: 0 <= i < |t| ==> '0' <= t[i] <= '9' || 'a' <= t[i] <= 'f'
  }

  /** `s` begins with `t`. */
  predicate HasPrefix(s: string, t: string) {
    |t| <= |s| && s[..|t|] == t
  }

  /** `s` ends with `t`. */
  predicate HasSuffix(s: string, t: string) {
    |t| <= |s| && s[|s| - |t|..] == t
  }

  /** `t` occurs in `s` starting at position `i`. */
  predicate OccursAt(s: string, t: string, i: int) {
    0 <= i <= |s| - |t| && s[i..i + |t|] == t
  }

  /** `t` occurs somewhere in `s`. */
  predicate HasSubstring(s: string, t: string) {
    exists i :: 0 <= i <= |s| - |t| && OccursAt(s, t, i)
  }
}
