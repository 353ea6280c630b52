/** Sequences without their repetitions. */
module Sequences {

  /** Each element once, at its first occurrence. */
  function FirstOccurrences<T(==, !new)>(s: seq<T>): (once: seq<T>)
    ensures forall x :: x in once <==> x in s
    ensures forall i, j :: 0 <= i < j < |once| ==> once[i] != once[j]
  {
    if s == [] then []
    else
      var n := |s| - 1;
      assert s == s[..n] + [s[n]];
      var before := FirstOccurrences(s[..n]);
      if s[n] in s[..n] then before else before + [s[n]]
  }
}
