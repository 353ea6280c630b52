/** `split` on a single separator, and its inverse. */
module Splitting {
  function SplitOn<T(==)>(s: seq<T>, separator: T): (pieces: seq<seq<T>>)
    ensures pieces != []
    ensures forall i :: 0 <= i < |pieces| ==> separator !in pieces[i]
  {
    if s == [] then [[]]
    else
      var rest := SplitOn(s[1..], separator);
      if s[0] == separator then [[]] + rest else [[s[0]] + rest[0]] + rest[1..]
  }

  function Join<T>(pieces: seq<seq<T>>, separator: T): seq<T>
    requires pieces != []
  {
    if |pieces| == 1 then pieces[0] else pieces[0] + [separator] + Join(pieces[1..], separator)
  }

  /** A text is its pieces joined again. */
  lemma {:induction false} JoinUndoesSplit<T>(s: seq<T>, separator: T)
    ensures Join(SplitOn(s, separator), separator) == s
  {
    if s == [] {
    } else {
      JoinUndoesSplit(s[1..], separator);
      var rest, pieces := SplitOn(s[1..], separator), SplitOn(s, separator);
      assert s == [s[0]] + s[1..];
      if s[0] == separator {
        assert pieces[1..] == rest;
      } else if |rest| > 1 {
        assert pieces[1..] == rest[1..];
      }
    }
  }

  lemma {:induction false} SplitPrefix<T>(piece: seq<T>, rest: seq<T>, separator: T)
    requires separator !in piece
    ensures SplitOn(piece + rest, separator) == [piece + SplitOn(rest, separator)[0]] + SplitOn(rest, separator)[1..]
  {
    var pieces := SplitOn(rest, separator);
    if piece == [] {
      assert piece + rest == rest && piece + pieces[0] == pieces[0];
      assert [pieces[0]] + pieces[1..] == pieces;
    } else {
      assert (piece + rest)[1..] == piece[1..] + rest;
      SplitPrefix(piece[1..], rest, separator);
      assert [piece[0]] + (piece[1..] + SplitOn(rest, separator)[0]) == piece + SplitOn(rest, separator)[0];
    }
  }

  /** Pieces without the separator are what splitting their join gives back. */
  lemma {:induction false} SplitUndoesJoin<T>(pieces: seq<seq<T>>, separator: T)
    requires pieces != [] && forall i :: 0 <= i < |pieces| ==> separator !in pieces[i]
    ensures SplitOn(Join(pieces, separator), separator) == pieces
  {
    if |pieces| == 1 {
      SplitPrefix(pieces[0], [], separator);
      assert pieces[0] + [] == pieces[0];
    } else {
      var rest := Join(pieces[1..], separator);
      SplitUndoesJoin(pieces[1..], separator);
      SplitPrefix(pieces[0], [separator] + rest, separator);
      assert pieces[0] + [separator] + rest == pieces[0] + ([separator] + rest);
      assert ([separator] + rest)[1..] == rest;
      assert pieces[0] + [] == pieces[0];
    }
  }

  /** A sequence splits in only one way at its first separator. */
  lemma FirstSeparatorSplits<T>(a: seq<T>, x: seq<T>, b: seq<T>, y: seq<T>, separator: T)
    requires separator !in a && separator !in b && a + [separator] + x == b + [separator] + y
    ensures a == b && x == y
  {
    var s, t := a + [separator] + x, b + [separator] + y;
    SeparatorComesNoLater(a, x, b, y, separator);
    SeparatorComesNoLater(b, y, a, x, separator);
    assert a == s[..|a|] && b == t[..|b|] && x == s[|a| + 1..] && y == t[|b| + 1..];
  }

  lemma SeparatorComesNoLater<T>(a: seq<T>, x: seq<T>, b: seq<T>, y: seq<T>, separator: T)
    requires separator !in b && a + [separator] + x == b + [separator] + y
    ensures |b| <= |a|
  {
    assert (a + [separator] + x)[|a|] == separator;
  }

  lemma {:induction false} JoinEnds<T>(pieces: seq<seq<T>>, separator: T)
    requires |pieces| > 1
    ensures Join(pieces, separator) == Join(pieces[..|pieces| - 1], separator) + [separator] + pieces[|pieces| - 1]
  {
    var n := |pieces| - 1;
    if n > 1 {
      JoinEnds(pieces[1..], separator);
      assert pieces[1..][..n - 1] == pieces[..n][1..];
    }
  }

  /** And in only one way at its last one. */
  lemma LastSeparatorSplits<T>(a: seq<T>, x: seq<T>, b: seq<T>, y: seq<T>, separator: T)
    requires separator !in x && separator !in y && a + [separator] + x == b + [separator] + y
    ensures a == b && x == y
  {
    var s, t := a + [separator] + x, b + [separator] + y;
    SeparatorComesNoEarlier(a, x, b, y, separator);
    SeparatorComesNoEarlier(b, y, a, x, separator);
    assert a == s[..|a|] && b == t[..|b|] && x == s[|a| + 1..] && y == t[|b| + 1..];
  }

  lemma SeparatorComesNoEarlier<T>(a: seq<T>, x: seq<T>, b: seq<T>, y: seq<T>, separator: T)
    requires separator !in x && a + [separator] + x == b + [separator] + y
    ensures |b| <= |a|
  {
    var s := b + [separator] + y;
    assert s[|b|] == separator && forall i :: |a| < i < |s| ==> s[i] == x[i - |a| - 1];
  }
}
