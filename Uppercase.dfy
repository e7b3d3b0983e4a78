/**
 * Upper-casing as the game needs it: the letters of Spanish words
 * (a-z, the acute vowels, ñ and ü) map to their capitals and every other
 * character is kept. Only this length-preserving part of the platform's
 * `uppercase()` is modelled.
 */
module Uppercase {

  function UpperChar(c: char): (r: char)
    ensures 'a' <= c <= 'z' ==> r as int == c as int - 32
    ensures !('a' <= c <= 'z') && c !in "áéíóúñü" ==> r == c
  {
    if 'a' <= c <= 'z' then (c as int - 32) as char
    else match c
      case 'á' => 'Á'
      case 'é' => 'É'
      case 'í' => 'Í'
      case 'ó' => 'Ó'
      case 'ú' => 'Ú'
      case 'ñ' => 'Ñ'
      case 'ü' => 'Ü'
      case _ => c
  }

  function Upper(s: string): (r: string)
    ensures |r| == |s|
    ensures forall i {:trigger r[i]} :: 0 <= i < |s| ==> r[i] == UpperChar(s[i])
  {
    if s == [] then [] else [UpperChar(s[0])] + Upper(s[1..])
  }

  /** A string is upper case when upper-casing leaves it unchanged. */
  predicate IsUpper(s: string)
  {
    forall i :: 0 <= i < |s| ==> UpperChar(s[i]) == s[i]
  }

  lemma UpperCharIdempotent(c: char)
    ensures UpperChar(UpperChar(c)) == UpperChar(c)
  {
  }

  /** Upper-casing twice is upper-casing once, so an upper-cased string is upper case. */
  lemma UpperIsUpper(s: string)
    ensures IsUpper(Upper(s))
    ensures Upper(Upper(s)) == Upper(s)
  {
    forall i | 0 <= i < |s|
      ensures UpperChar(Upper(s)[i]) == Upper(s)[i]
    {
      UpperCharIdempotent(s[i]);
    }
  }

  /** Upper-casing leaves an upper-case string unchanged. */
  lemma UpperOfUpper(s: string)
    requires IsUpper(s)
    ensures Upper(s) == s
  {
  }
}
