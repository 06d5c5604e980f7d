/** The part of string handling the models share: lower-casing of identifiers. */
module Text {

  function LowerChar(c: char): char {
    if 'A' <= c <= 'Z' then c - 'A' + 'a' else c
  }

  function Lower(s: string): string {
    seq(|s|, i requires 0 <= i < |s| => LowerChar(s[i]))
  }

  lemma LowerIdempotent(s: string)
    ensures Lower(Lower(s)) == Lower(s)
  {
  }

  /** The capital letters become the small letters in the order of the alphabet, and nothing else changes. */
  lemma LowerExactly(s: string)
    ensures |Lower(s)| == |s|
    ensures forall i | 0 <= i < |s| && s[i] == 'A' :: Lower(s)[i] == 'a'
    ensures forall i, j | 0 <= i < |s| && 0 <= j < |s| && 'A' <= s[i] <= 'Z' && 'A' <= s[j] <= 'Z' ::
              Lower(s)[i] as int - Lower(s)[j] as int == s[i] as int - s[j] as int
    ensures forall i | 0 <= i < |s| && 'A' <= s[i] <= 'Z' :: 'a' <= Lower(s)[i] <= 'z'
    ensures forall i | 0 <= i < |s| && !('A' <= s[i] <= 'Z') :: Lower(s)[i] == s[i]
  {
  }

  /** In particular for the last letter of the alphabet. */
  lemma LowerAlphabet()
    ensures Lower("AMZaz09@.") == "amzaz09@."
  {
    var s, t := "AMZaz09@.", "amzaz09@.";
    assert forall i | 0 <= i < 9 :: Lower(s)[i] == t[i];
  }
}
