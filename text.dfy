/** Character classes, ASCII case folding and substring search shared by the
    detectors of the resume checker. Python's notions of digit, word character
    and lower case are Unicode-wide; this model keeps their ASCII part. */
module Text {

  /** Whitespace as Python's `str.split()` and the regex class `\s` see it
      (the code points for which Python's `Py_UNICODE_ISSPACE` holds). */
  predicate IsSpace(c: char) {
    var n := c as int;
    || 0x09 <= n <= 0x0D
    || 0x1C <= n <= 0x20
    || n == 0x85 || n == 0xA0 || n == 0x1680
    || 0x2000 <= n <= 0x200A
    || n == 0x2028 || n == 0x2029 || n == 0x202F || n == 0x205F || n == 0x3000
  }

  /** The regex class `\d`, ASCII part. */
  predicate IsDigit(c: char) {
    '0' <= c <= '9'
  }

  /** The regex class `\w`, ASCII part: letters, digits and underscore. */
  predicate IsWordChar(c: char) {
    'a' <= c <= 'z' || 'A' <= c <= 'Z' || IsDigit(c) || c == '_'
  }

  function DigitValue(c: char): (d: nat)
    requires IsDigit(c)
    ensures d < 10
  {
    c as int - '0' as int
  }

  /** Value of a run of decimal digits, as Python's `int()` reads it. */
  function DigitsValue(ds: string): (v: nat)
    requires forall i :: 0 <= i < |ds| ==> IsDigit(ds[i])
    decreases |ds|
  {
    if ds == [] then 0
    else DigitsValue(ds[..|ds| - 1]) * 10 + DigitValue(ds[|ds| - 1])
  }

  function LowerChar(c: char): (l: char)
    ensures !('A' <= l <= 'Z')
    ensures IsWordChar(l) == IsWordChar(c)
    ensures IsSpace(l) == IsSpace(c)
    ensures !('A' <= c <= 'Z') ==> l == c
    ensures 'A' <= c <= 'Z' ==> l as int == c as int + 32
  {
    if 'A' <= c <= 'Z' then (c as int - 'A' as int + 'a' as int) as char else c
  }

  /** `str.lower()` on the ASCII letters; every other character is kept. */
  function Lower(s: string): (r: string)
    ensures |r| == |s|
    ensures forall i :: 0 <= i < |s| ==> r[i] == LowerChar(s[i])
  {
    seq(|s|, i requires 0 <= i < |s| => LowerChar(s[i]))
  }

  /** Lower-casing twice is lower-casing once: the detectors see the same
      text whether or not their input was already lower-cased. */
  lemma LowerIdempotent(s: string)
    ensures Lower(Lower(s)) == Lower(s)
  {
  }

  /** `p` occurs in `s` starting at index `i`. */
  predicate OccursAt(s: string, p: string, i: int) {
    0 <= i && i + |p| <= |s| && s[i..i + |p|] == p
  }

  /** Left-to-right search for `p` in `s` from index `i` on. */
  function SearchFrom(s: string, p: string, i: nat): (found: bool)
    ensures found <==> exists j :: i <= j && OccursAt(s, p, j)
    decreases |s| - i
  {
    if i + |p| > |s| then false
    else if s[i..i + |p|] == p then assert OccursAt(s, p, i); true
    else SearchFrom(s, p, i + 1)
  }

  /** Python's `p in s` on strings. */
  function Contains(s: string, p: string): (found: bool)
    ensures found <==> exists j :: OccursAt(s, p, j)
  {
    SearchFrom(s, p, 0)
  }
}
