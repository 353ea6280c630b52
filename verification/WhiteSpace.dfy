/** White space and trimming as JavaScript defines them. */
module WhiteSpace {
  import opened Unicode

  /** The white space that `trim` removes. */
  predicate IsWhite(u: CodeUnit) {
    0x09 <= u <= 0x0D || u == 0x20 || u == 0xA0 || u == 0x1680 || 0x2000 <= u <= 0x200A
    || u == 0x2028 || u == 0x2029 || u == 0x202F || u == 0x205F || u == 0x3000 || u == 0xFEFF
  }

  function Lead(s: Text): (n: nat)
    ensures n <= |s| && (forall i :: 0 <= i < n ==> IsWhite(s[i])) && (n < |s| ==> !IsWhite(s[n]))
  {
    if s == [] || !IsWhite(s[0]) then 0 else 1 + Lead(s[1..])
  }

  function TrimEnd(s: Text): (t: Text)
    ensures t <= s && (t != [] ==> !IsWhite(t[|t| - 1])) && forall i :: |t| <= i < |s| ==> IsWhite(s[i])
  {
    if s == [] || !IsWhite(s[|s| - 1]) then s else TrimEnd(s[..|s| - 1])
  }

  function Trim(s: Text): (t: Text)
    ensures t != [] ==> !IsWhite(t[0]) && !IsWhite(t[|t| - 1])
  {
    TrimEnd(s[Lead(s)..])
  }

  /** Trimming keeps everything from the first visible unit to the last one. */
  lemma TrimKeepsVisible(b: Text, p: nat)
    requires p < |b| && !IsWhite(b[p])
    ensures Trim(b) <= b[Lead(b)..] && Lead(b) <= p < Lead(b) + |Trim(b)|
  {
    if p >= Lead(b) {
      assert b[Lead(b)..][p - Lead(b)] == b[p];
    }
  }

  lemma TrimIsSlice(s: Text)
    ensures Trim(s) <= s[Lead(s)..]
  {}

  lemma TrimsToItself(s: Text)
    requires s != [] ==> !IsWhite(s[0]) && !IsWhite(s[|s| - 1])
    ensures Trim(s) == s
  {
    assert Lead(s) == 0 && s[0..] == s;
  }

  lemma TrimTwice(s: Text)
    ensures Trim(Trim(s)) == Trim(s)
  {
    var t := Trim(s);
    assert Lead(t) == 0;
    assert t[0..] == t;
  }

  /** The white space and line terminators of ECMAScript, one by one. */
  const WHITE_UNITS: seq<CodeUnit> := [
    0x09, 0x0A, 0x0B, 0x0C, 0x0D, 0x20, 0xA0, 0x1680, 0x2000, 0x2001, 0x2002, 0x2003, 0x2004, 0x2005, 0x2006, 0x2007,
    0x2008, 0x2009, 0x200A, 0x2028, 0x2029, 0x202F, 0x205F, 0x3000, 0xFEFF]

  lemma WhiteUnitsAre(u: CodeUnit)
    ensures IsWhite(u) <==> u in WHITE_UNITS
  {}

  /** Trimming takes white space off both ends and nothing else. */
  lemma TrimTakesWhite(before: Text, s: Text, after: Text)
    requires (forall u :: u in before ==> u in WHITE_UNITS) && (forall u :: u in after ==> u in WHITE_UNITS)
    requires s != [] ==> s[0] !in WHITE_UNITS && s[|s| - 1] !in WHITE_UNITS
    ensures Trim(before + s + after) == s
  {
    hide IsWhite, WHITE_UNITS;
    forall u ensures IsWhite(u) <==> u in WHITE_UNITS { WhiteUnitsAre(u); }
    var whole := before + s + after;
    if s == [] {
      assert forall i :: 0 <= i < |whole| ==> whole[i] in before || whole[i] in after;
      assert Lead(whole) == |whole|;
    } else {
      assert forall i :: 0 <= i < |before| ==> whole[i] in before;
      assert whole[|before|] == s[0] && Lead(whole) == |before|;
      assert whole[|before|..] == s + after;
      EndTakesWhite(s, after);
    }
  }

  lemma EndTakesWhite(s: Text, after: Text)
    requires (forall i :: 0 <= i < |after| ==> IsWhite(after[i])) && s != [] && !IsWhite(s[|s| - 1])
    ensures TrimEnd(s + after) == s
  {
    hide IsWhite;
    var t, whole := TrimEnd(s + after), s + after;
    assert whole[|s| - 1] == s[|s| - 1] && forall i :: |s| <= i < |whole| ==> whole[i] == after[i - |s|];
  }
}
