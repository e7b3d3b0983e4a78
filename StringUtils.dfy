/**
 * Accent normalisation: the five upper-case acute vowels lose their accent,
 * every other character is kept. Both the dictionary check and the scorer
 * compare words only after this normalisation.
 */
module StringUtils {

  /** True for the five characters the normalisation rewrites. */
  predicate IsAccentedVowel(c: char)
  {
    c == 'Á' || c == 'É' || c == 'Í' || c == 'Ó' || c == 'Ú'
  }

  /** `Char.normalize`: strip the accent from an upper-case acute vowel. */
  function NormalizeChar(c: char): (r: char)
    ensures c == 'Á' ==> r == 'A'
    ensures c == 'É' ==> r == 'E'
    ensures c == 'Í' ==> r == 'I'
    ensures c == 'Ó' ==> r == 'O'
    ensures c == 'Ú' ==> r == 'U'
    ensures !IsAccentedVowel(c) ==> r == c
    ensures !IsAccentedVowel(r)
  {
    match c
    case 'Á' => 'A'
    case 'É' => 'E'
    case 'Í' => 'I'
    case 'Ó' => 'O'
    case 'Ú' => 'U'
    case _ => c
  }

  /** `String.normalize`: normalise every character, keeping the order. */
  function Normalize(s: string): (r: string)
    ensures |r| == |s|
    ensures forall i {:trigger r[i]} :: 0 <= i < |s| ==> r[i] == NormalizeChar(s[i])
  {
    if s == [] then [] else [NormalizeChar(s[0])] + Normalize(s[1..])
  }

  /** The characters the normalisation leaves alone include the lower-case accented vowels and Ñ. */
  lemma NormalizeKeepsOthers()
    ensures NormalizeChar('á') == 'á' && NormalizeChar('é') == 'é' && NormalizeChar('í') == 'í'
    ensures NormalizeChar('ó') == 'ó' && NormalizeChar('ú') == 'ú'
    ensures NormalizeChar('Ñ') == 'Ñ' && NormalizeChar('Ü') == 'Ü'
  {
  }

  lemma NormalizeCharIdempotent(c: char)
    ensures NormalizeChar(NormalizeChar(c)) == NormalizeChar(c)
  {
  }

  /** Normalising twice is the same as normalising once. */
  lemma NormalizeIdempotent(s: string)
    ensures Normalize(Normalize(s)) == Normalize(s)
  {
    var n := Normalize(s);
    var nn := Normalize(n);
    assert |nn| == |n|;
    forall i | 0 <= i < |n|
      ensures nn[i] == n[i]
    {
      NormalizeCharIdempotent(s[i]);
    }
  }

  /** A normalised string holds none of the five upper-case accented vowels. */
  lemma NormalizeHasNoAccentedVowel(s: string)
    ensures forall i :: 0 <= i < |Normalize(s)| ==> !IsAccentedVowel(Normalize(s)[i])
  {
  }

  /** Normalisation distributes over concatenation. */
  lemma {:induction false} NormalizeAppend(a: string, b: string)
    ensures Normalize(a + b) == Normalize(a) + Normalize(b)
  {
    if a == [] {
      assert a + b == b;
    } else {
      assert (a + b)[1..] == a[1..] + b;
      NormalizeAppend(a[1..], b);
    }
  }

  /** A string is left unchanged exactly when it has no upper-case accented vowel. */
  lemma NormalizeFixedPoint(s: string)
    ensures Normalize(s) == s <==> forall i :: 0 <= i < |s| ==> !IsAccentedVowel(s[i])
  {
    if Normalize(s) == s {
      forall i | 0 <= i < |s|
        ensures !IsAccentedVowel(s[i])
      {
        assert Normalize(s)[i] == s[i];
      }
    }
  }
}
