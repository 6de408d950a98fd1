/** The fixed alphabet of generate_password: 26 lower-case letters, 26
    upper-case letters and 10 digits, in that order, and nothing else. */
module Charset {

  const Lower: seq<char> := "abcdefghijklmnopqrstuvwxyz"
  const Upper: seq<char> := "ABCDEFGHIJKLMNOPQRSTUVWXYZ"
  const Digits: seq<char> := "0123456789"

  /** The characters of the `charset` literal, without its terminator, written
      as its three classes laid end to end (AlphabetIsLiteral below checks it
      against the literal as one string). */
  const Alphabet: seq<char> := Lower + Upper + Digits

  /** The `charset` array as C lays it out: the literal followed by its NUL,
      so `sizeof(charset)` is 63. */
  const Buffer: seq<char> := Alphabet + ['\0']

  /** `sizeof(charset) - 1`, the modulus applied to every draw. */
  const Modulus: int := |Buffer| - 1

  predicate IsLower(c: char) { 'a' <= c <= 'z' }
  predicate IsUpper(c: char) { 'A' <= c <= 'Z' }
  predicate IsDigit(c: char) { '0' <= c <= '9' }

  /** ASCII letters and digits: no symbol, no whitespace, no NUL. */
  predicate IsAlphanumeric(c: char) { IsLower(c) || IsUpper(c) || IsDigit(c) }

  /** Each class is a run of consecutive code points. */
  lemma ClassRuns()
    ensures forall i :: 0 <= i < |Lower| ==> Lower[i] as int == 'a' as int + i
    ensures forall i :: 0 <= i < |Upper| ==> Upper[i] as int == 'A' as int + i
    ensures forall i :: 0 <= i < |Digits| ==> Digits[i] as int == '0' as int + i
  {
  }

  /** The literal is the three classes laid end to end, each in code-point
      order: a-z at 0..25, A-Z at 26..51, 0-9 at 52..61. */
  lemma AlphabetLayout()
    ensures |Alphabet| == 62
    ensures forall i :: 0 <= i < 26 ==> Alphabet[i] as int == 'a' as int + i
    ensures forall i :: 26 <= i < 52 ==> Alphabet[i] as int == 'A' as int + (i - 26)
    ensures forall i :: 52 <= i < 62 ==> Alphabet[i] as int == '0' as int + (i - 52)
  {
    ClassRuns();
  }

  lemma AlphabetIsLiteral()
    ensures Alphabet == "abcdefghijklmnopqrstuvwxyzABCDEFGHIJKLMNOPQRSTUVWXYZ0123456789"
  {
  }

  /** Position of an alphanumeric character in the alphabet; the inverse of
      indexing. */
  function IndexOf(c: char): (k: int)
    requires IsAlphanumeric(c)
    ensures 0 <= k < |Alphabet| && Alphabet[k] == c
  {
    AlphabetLayout();
    if IsLower(c) then c as int - 'a' as int
    else if IsUpper(c) then 26 + (c as int - 'A' as int)
    else 52 + (c as int - '0' as int)
  }

  /** The modulus is 62: the terminator is not counted. */
  lemma ModulusIsAlphabetSize()
    ensures Modulus == |Alphabet| == 62
    ensures Buffer[Modulus] == '\0'
  {
  }

  /** Every character of the alphabet is alphanumeric, and every alphanumeric
      character occurs in it. */
  lemma AlphabetIsExactlyAlphanumeric(c: char)
    ensures c in Alphabet <==> IsAlphanumeric(c)
  {
    AlphabetLayout();
    if IsAlphanumeric(c) {
      var k := IndexOf(c);
      assert Alphabet[k] == c;
    }
  }

  /** No character occurs twice, so indexing the alphabet is injective. */
  lemma AlphabetDistinct(i: int, j: int)
    requires 0 <= i < |Alphabet| && 0 <= j < |Alphabet|
    requires Alphabet[i] == Alphabet[j]
    ensures i == j
  {
    AlphabetLayout();
  }

  /** Indexing then IndexOf gives back the index. */
  lemma IndexOfAlphabet(k: int)
    requires 0 <= k < |Alphabet|
    ensures IsAlphanumeric(Alphabet[k]) && IndexOf(Alphabet[k]) == k
  {
    AlphabetLayout();
    var c := Alphabet[k];
    AlphabetDistinct(IndexOf(c), k);
  }
}
