/** The `<cctype>` classification the parsers rely on, fixed to the C locale. */
module Ascii {

  /** `isspace`: the blank and the five control characters from tab to carriage return. */
  predicate IsSpace(c: char) {
    c == ' ' || '\t' <= c <= '\r'
  }

  predicate IsUpper(c: char) {
    'A' <= c <= 'Z'
  }

  predicate IsDigit(c: char) {
    '0' <= c <= '9'
  }

  /** `std::tolower` */
  function ToLower(c: char): (r: char)
    ensures !IsUpper(r)
    ensures !IsUpper(c) ==> r == c
    ensures !('a' <= r <= 'z') ==> r == c
  {
    if IsUpper(c) then (c as int + 32) as char else c
  }

  /** The loop that lower-cases a header name character by character. */
  function Lower(s: string): (r: string)
    ensures |r| == |s|
    ensures forall i :: 0 <= i < |s| ==> r[i] == ToLower(s[i])
  {
    if s == "" then "" else [ToLower(s[0])] + Lower(s[1..])
  }

  /** Lower-casing is idempotent, so a normalised name is its own normal form. */
  lemma LowerOfLower(s: string)
    requires forall c <- s :: !IsUpper(c)
    ensures Lower(s) == s
  {
    forall i | 0 <= i < |s| ensures Lower(s)[i] == s[i] {
      assert s[i] in s;
    }
  }

  lemma LowerAppend(a: string, b: string)
    ensures Lower(a + b) == Lower(a) + Lower(b)
  {
  }

  /** The six characters that are white space and the ten that are digits, and no others. */
  lemma WhiteSpaceAndDigits(c: char)
    ensures IsSpace(c) <==> c in {' ', '\t', '\n', '\U{000B}', '\U{000C}', '\r'}
    ensures IsDigit(c) <==> c in {'0', '1', '2', '3', '4', '5', '6', '7', '8', '9'}
  {
  }

  /** Every capital letter and the letter it becomes; nothing else changes. */
  lemma Letters(c: char)
    ensures ToLower('A') == 'a' && ToLower('B') == 'b' && ToLower('C') == 'c' && ToLower('D') == 'd'
    ensures ToLower('E') == 'e' && ToLower('F') == 'f' && ToLower('G') == 'g' && ToLower('H') == 'h'
    ensures ToLower('I') == 'i' && ToLower('J') == 'j' && ToLower('K') == 'k' && ToLower('L') == 'l'
    ensures ToLower('M') == 'm' && ToLower('N') == 'n' && ToLower('O') == 'o' && ToLower('P') == 'p'
    ensures ToLower('Q') == 'q' && ToLower('R') == 'r' && ToLower('S') == 's' && ToLower('T') == 't'
    ensures ToLower('U') == 'u' && ToLower('V') == 'v' && ToLower('W') == 'w' && ToLower('X') == 'x'
    ensures ToLower('Y') == 'y' && ToLower('Z') == 'z'
    ensures !('A' <= c <= 'Z') ==> ToLower(c) == c
  {
  }
}
