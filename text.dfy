/** Case mapping as the dashboard uses it: Python's `str.upper` and `str.lower`,
    restricted to the ASCII letters. Every other character, including the
    accented capitals of the city table, is left as it is. */
module Text {

  /** Upper-case one character: only 'a'..'z' change. */
  function UpperChar(c: char): (u: char)
    ensures 'a' <= c <= 'z' ==> 'A' <= u <= 'Z' && u as int == c as int - 32
    ensures !('a' <= c <= 'z') ==> u == c
  {
    if 'a' <= c <= 'z' then (c as int - 32) as char else c
  }

  /** Lower-case one character: only 'A'..'Z' change. */
  function LowerChar(c: char): (l: char)
    ensures 'A' <= c <= 'Z' ==> 'a' <= l <= 'z' && l as int == c as int + 32
    ensures !('A' <= c <= 'Z') ==> l == c
  {
    if 'A' <= c <= 'Z' then (c as int + 32) as char else c
  }

  /** `s.upper()` */
  function Upper(s: string): (u: string)
    ensures |u| == |s|
    ensures forall i :: 0 <= i < |s| ==> u[i] == UpperChar(s[i])
  {
    if s == [] then [] else [UpperChar(s[0])] + Upper(s[1..])
  }

  /** `s.lower()` */
  function Lower(s: string): (l: string)
    ensures |l| == |s|
    ensures forall i :: 0 <= i < |s| ==> l[i] == LowerChar(s[i])
  {
    if s == [] then [] else [LowerChar(s[0])] + Lower(s[1..])
  }

  /** A string holding no lower-case ASCII letter. */
  predicate HasNoLowerCase(s: string)
  {
    forall i :: 0 <= i < |s| ==> !('a' <= s[i] <= 'z')
  }

  /** Upper-casing leaves exactly the strings without lower-case letters
      unchanged. */
  lemma UpperFixedPoints(s: string)
    ensures Upper(s) == s <==> HasNoLowerCase(s)
  {
    if HasNoLowerCase(s) {
      assert forall i :: 0 <= i < |s| ==> Upper(s)[i] == s[i];
    } else {
      var i :| 0 <= i < |s| && 'a' <= s[i] <= 'z';
      assert Upper(s)[i] != s[i];
    }
  }

  /** Upper-casing twice is upper-casing once. */
  lemma {:induction false} UpperIdempotent(s: string)
    ensures Upper(Upper(s)) == Upper(s)
  {
    assert HasNoLowerCase(Upper(s));
    UpperFixedPoints(Upper(s));
  }

  /** Lower-casing twice is lower-casing once. */
  lemma {:induction false} LowerIdempotent(s: string)
    ensures Lower(Lower(s)) == Lower(s)
  {
    if s != [] {
      LowerIdempotent(s[1..]);
      assert Lower(s)[1..] == Lower(s[1..]);
    }
  }
}
