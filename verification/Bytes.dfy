/** Characters as the C programs see them: bytes with the ASCII case mapping. */
module Bytes {
  type byte = x: int | 0 <= x < 256

  function ToLower(c: byte): byte {
    if 65 <= c <= 90 then c + 32 else c
  }

  function ToUpper(c: byte): byte {
    if 97 <= c <= 122 then c - 32 else c
  }

  // A text character as the searchers compare it with the pattern.
  function Fold(sensitive: bool, c: byte): byte {
    if sensitive then c else ToLower(c)
  }

  // The letters are paired in alphabetical order, and nothing else has another case.
  lemma LettersPaired(c: byte)
    ensures ToLower(c) != c <==> 'A' as int <= c <= 'Z' as int
    ensures ToUpper(c) != c <==> 'a' as int <= c <= 'z' as int
    ensures ToLower(c) != c ==> ToLower(c) - 'a' as int == c - 'A' as int && ToUpper(ToLower(c)) == c
    ensures ToUpper(c) != c ==> ToUpper(c) - 'A' as int == c - 'a' as int && ToLower(ToUpper(c)) == c
  {
  }

  // Every lowercase letter is reached from itself and from its capital, 32 below.
  lemma FoldPreimage(c: byte, p: byte)
    ensures ToLower(c) == p ==> c == p || (c == p - 32 && 97 <= p <= 122)
    ensures ToLower(p) == p ==> (ToLower(c) == p <==> c == p || c == ToUpper(p))
  {
  }
}
