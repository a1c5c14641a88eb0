/** The two java.lang.String operations the media viewer relies on:
    toLowerCase (on ASCII letters) and lastIndexOf of one character. */
module Text {

  /** Lower-cases one ASCII upper-case letter; every other character is kept. */
  function LowerChar(c: char): char
  {
    if 'A' <= c <= 'Z' then (c as int + 32) as char else c
  }

  /** No ASCII upper-case letter occurs in `s`. */
  predicate IsLower(s: string)
  {
    forall i :: 0 <= i < |s| ==> !('A' <= s[i] <= 'Z')
  }

  /** String.toLowerCase: same length, every character lower-cased, no upper case left. */
  function Lower(s: string): (r: string)
    ensures |r| == |s|
    ensures forall i :: 0 <= i < |s| ==> r[i] == LowerChar(s[i])
    ensures IsLower(r)
  {
    if s == [] then [] else [LowerChar(s[0])] + Lower(s[1..])
  }

  /** String.lastIndexOf: -1 when `c` does not occur, otherwise the
      position of an occurrence that no later occurrence follows. */
  function LastIndexOf(s: string, c: char): (r: int)
    ensures -1 <= r < |s|
    ensures 0 <= r ==> s[r] == c
    ensures forall j :: r < j < |s| ==> s[j] != c
  {
    LastIndexBefore(s, c, |s|)
  }

  /** The search of LastIndexOf, walking back from position `n`. */
  function LastIndexBefore(s: string, c: char, n: nat): (r: int)
    requires n <= |s|
    ensures -1 <= r < n
    ensures 0 <= r ==> s[r] == c
    ensures forall j :: r < j < n ==> s[j] != c
  {
    if n == 0 then -1
    else if s[n - 1] == c then n - 1
    else LastIndexBefore(s, c, n - 1)
  }

  /** The characterisation of LastIndexOf determines it. */
  lemma LastIndexOfUnique(s: string, c: char, k: int)
    requires 0 <= k < |s| && s[k] == c
    requires forall j :: k < j < |s| ==> s[j] != c
    ensures LastIndexOf(s, c) == k
  {
  }

  /** Lower-casing twice is lower-casing once. */
  lemma LowerTwice(s: string)
    ensures Lower(Lower(s)) == Lower(s)
  {
    assert forall i :: 0 <= i < |s| ==> Lower(Lower(s))[i] == Lower(s)[i];
  }

  /** A string without upper-case letters is its own lower-cased form. */
  lemma LowerOfLower(s: string)
    requires IsLower(s)
    ensures Lower(s) == s
  {
    assert forall i :: 0 <= i < |s| ==> Lower(s)[i] == s[i];
  }

  /** Lower-casing commutes with taking a suffix. */
  lemma LowerSuffix(s: string, k: nat)
    requires k <= |s|
    ensures Lower(s)[k..] == Lower(s[k..])
  {
    assert forall i :: 0 <= i < |s| - k ==> Lower(s)[k..][i] == Lower(s[k..])[i];
  }

  /** A non-letter: lower-casing neither produces nor changes it. */
  predicate NonLetter(c: char)
  {
    !('A' <= c <= 'Z') && !('a' <= c <= 'z')
  }

  /** Lower-casing neither adds nor removes occurrences of a non-letter. */
  lemma LowerKeepsNonLetter(s: string, c: char)
    requires NonLetter(c)
    ensures forall i :: 0 <= i < |s| ==> (Lower(s)[i] == c <==> s[i] == c)
  {
    forall i | 0 <= i < |s| ensures Lower(s)[i] == c <==> s[i] == c {
      assert Lower(s)[i] == LowerChar(s[i]);
    }
  }

  /** So lower-casing keeps the last position of a non-letter. */
  lemma LowerKeepsLastIndex(s: string, c: char)
    requires NonLetter(c)
    ensures LastIndexOf(Lower(s), c) == LastIndexOf(s, c)
  {
    LowerKeepsNonLetter(s, c);
    var k := LastIndexOf(s, c);
    var r := LastIndexOf(Lower(s), c);
    if k == -1 {
      assert forall j :: 0 <= j < |s| ==> Lower(s)[j] != c;
    } else {
      LastIndexOfUnique(Lower(s), c, k);
    }
  }
}
