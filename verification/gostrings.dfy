/** The part of Go's `strings` package the download handler relies on:
    `strings.ToLower`, which maps every rune through `unicode.ToLower`. */
module GoStrings {

  /** Upper-case ASCII letters. */
  predicate IsAsciiUpper(c: char)
  {
    'A' <= c <= 'Z'
  }

  /** `unicode.ToLower` for every rune whose lower case is ASCII: the ASCII
      capitals, LATIN CAPITAL LETTER I WITH DOT ABOVE (lower case `i`) and
      KELVIN SIGN (lower case `k`). Every other rune is kept; Go maps it to a
      rune that is again outside ASCII (or to itself). */
  function LowerChar(c: char): (l: char)
    ensures !IsAsciiUpper(l)
    ensures l == '.' <==> c == '.'
    ensures l == '/' <==> c == '/'
    ensures c < '\U{80}' && !IsAsciiUpper(c) ==> l == c
    ensures IsAsciiUpper(c) ==> 'a' <= l <= 'z' && l as int - 'a' as int == c as int - 'A' as int
    ensures c == '\U{130}' ==> l == 'i'
    ensures c == '\U{212A}' ==> l == 'k'
    ensures c >= '\U{80}' && c != '\U{130}' && c != '\U{212A}' ==> l >= '\U{80}'
  {
    if IsAsciiUpper(c) then (c as int + 32) as char
    else if c == '\U{130}' then 'i'
    else if c == '\U{212A}' then 'k'
    else c
  }

  /** Lower-casing a lower-cased rune changes nothing. */
  lemma LowerCharIdempotent(c: char)
    ensures LowerChar(LowerChar(c)) == LowerChar(c)
  {
  }

  /** `strings.ToLower`: rune by rune, same length. */
  function ToLower(s: string): (r: string)
    ensures |r| == |s|
    ensures forall i :: 0 <= i < |s| ==> r[i] == LowerChar(s[i])
    ensures forall i :: 0 <= i < |r| ==> !IsAsciiUpper(r[i])
  {
    if s == [] then [] else [LowerChar(s[0])] + ToLower(s[1..])
  }

  /** `strings.ToLower` is idempotent. */
  lemma {:induction false} ToLowerIdempotent(s: string)
    ensures ToLower(ToLower(s)) == ToLower(s)
  {
    if s != [] {
      ToLowerIdempotent(s[1..]);
      LowerCharIdempotent(s[0]);
      assert ToLower(s)[1..] == ToLower(s[1..]);
    }
  }
}
