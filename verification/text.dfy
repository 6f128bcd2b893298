/** C-string comparisons that ignore ASCII case. Characters stand for the
    bytes of a C string. */
module Text {

  /** ASCII lower-casing; every other character is left alone. */
  function Lower(c: char): (r: char)
    ensures 'A' <= c <= 'Z' ==> 'a' <= r <= 'z'
    ensures !('A' <= c <= 'Z') ==> r == c
  {
    if 'A' <= c <= 'Z' then (c as int - 'A' as int + 'a' as int) as char else c
  }

  /** `str_comp_nocase(a, b) == 0`: the strings have one length and equal
      characters up to ASCII case (a shorter string differs at its
      terminator). */
  predicate SameNoCase(a: string, b: string) {
    |a| == |b| && forall i :: 0 <= i < |a| ==> Lower(a[i]) == Lower(b[i])
  }

  /** Ignoring case is an equivalence. */
  lemma SameNoCaseEquivalence(a: string, b: string, c: string)
    ensures SameNoCase(a, a)
    ensures SameNoCase(a, b) ==> SameNoCase(b, a)
    ensures SameNoCase(a, b) && SameNoCase(b, c) ==> SameNoCase(a, c)
  {
  }
}
