/** The wallpaper search: a greedy in-order match of the query's code points. */
module WallpaperSearch {
  import opened Wrappers
  import opened Unicode
  import opened WhiteSpace

  /** `String(value ?? "").toLowerCase()`, for some case mapping `lower`. */
  function Normalise(lower: Text -> Text, value: Option<Text>): Text {
    lower(if value.Some? then value.value else [])
  }

  predicate OccursAt(pattern: Text, h: Text, p: nat) { p + |pattern| <= |h| && h[p..p + |pattern|] == pattern }

  /** `h.indexOf(pattern, from)`: the first occurrence at or after `from`. */
  function IndexOf(h: Text, pattern: Text, from: nat): (p: Option<nat>)
    ensures p.Some? ==> from <= p.value && OccursAt(pattern, h, p.value)
    ensures forall k :: from <= k && OccursAt(pattern, h, k) ==> p.Some? && p.value <= k
    decreases |h| - from
  {
    if from + |pattern| > |h| then None
    else if OccursAt(pattern, h, from) then Some(from)
    else IndexOf(h, pattern, from + 1)
  }

  /** The greedy search for the code points of `q` in `h` from an offset on. */
  predicate Greedy(h: Text, q: Text, from: nat)
    decreases |q|
  {
    q == [] ||
    (var p := IndexOf(h, q[..Width(q)], from);
     p.Some? && Greedy(h, q[Width(q)..], p.value + Width(q)))
  }

  /** Places for the units of `q` in `h`: strictly increasing, equal units, and surrogate pairs kept together. */
  ghost predicate Places(places: seq<nat>, q: Text, h: Text) {
    && |places| == |q|
    && (forall j :: 0 <= j < |q| ==> places[j] < |h| && h[places[j]] == q[j])
    && (forall i, j :: 0 <= i < j < |q| ==> places[i] < places[j])
    && (forall j {:trigger q[j]} :: 0 <= j < |q| - 1 && IsHigh(q[j]) && IsLow(q[j + 1]) ==>
         places[j + 1] == places[j] + 1)
  }

  ghost predicate Embeds(q: Text, h: Text) { exists places :: Places(places, q, h) }

  lemma GreedyStep(h: Text, q: Text, from: nat)
    requires q != []
    ensures var p := IndexOf(h, q[..Width(q)], from);
            Greedy(h, q, from) == (p.Some? && Greedy(h, q[Width(q)..], p.value + Width(q)))
  {
    hide OccursAt;
  }

  lemma GreedyEnds(h: Text, from: nat)
    ensures Greedy(h, [], from)
  {}

  method FuzzyMatch(lower: Text -> Text, value: Option<Text>, needle: Option<Text>) returns (found: bool)
    ensures found == Embeds(Trim(Normalise(lower, needle)), Normalise(lower, value))
  {
    var haystack := Normalise(lower, value);
    var query := Trim(Normalise(lower, needle));
    GreedyIsComplete(haystack, query);
    hide Embeds, OccursAt, Trim, Normalise, Greedy, Width;
    GreedyEnds(haystack, 0);
    if query == [] {
      return true;
    }
    var offset, i := 0, 0;
    while i < |query|
      invariant 0 <= i <= |query| && 0 <= offset
      invariant Greedy(haystack, query[i..], offset) == Greedy(haystack, query, 0)
    {
      var character := query[i..][..Width(query[i..])];
      var found := IndexOf(haystack, character, offset);
      GreedyStep(haystack, query[i..], offset);
      if found.None? {
        return false;
      }
      assert query[i..][|character|..] == query[i + |character|..];
      offset := found.value + |character|;
      i := i + |character|;
    }
    assert query[i..] == [];
    GreedyEnds(haystack, offset);
    return true;
  }

  lemma {:induction false} GreedyFindsPlaces(h: Text, q: Text, from: nat) returns (places: seq<nat>)
    requires Greedy(h, q, from)
    ensures Places(places, q, h) && (q != [] ==> places[0] >= from)
    decreases |q|
  {
    if q == [] {
      places := [];
    } else {
      var n := Width(q);
      var p := IndexOf(h, q[..n], from).value;
      var rest := GreedyFindsPlaces(h, q[n..], p + n);
      places := (if n == 2 then [p, p + 1] else [p]) + rest;
      hide Greedy;
      PlacesExtend(places, q, h, n, p, rest);
    }
  }

  lemma PlacesIncrease(places: seq<nat>, q: Text, h: Text, n: nat, p: nat, rest: seq<nat>)
    requires q != [] && n == Width(q) && Places(rest, q[n..], h) && (q[n..] != [] ==> rest[0] >= p + n)
    requires places == (if n == 2 then [p, p + 1] else [p]) + rest
    ensures forall i, j :: 0 <= i < j < |q| ==> places[i] < places[j]
  {
    forall i, j | 0 <= i < j < |q| ensures places[i] < places[j] {
      if j >= n && i < n {
        assert rest[0] <= rest[j - n];
      }
    }
  }

  lemma PlacesHold(places: seq<nat>, q: Text, h: Text, n: nat, p: nat, rest: seq<nat>)
    requires q != [] && n == Width(q) && Places(rest, q[n..], h) && OccursAt(q[..n], h, p)
    requires places == (if n == 2 then [p, p + 1] else [p]) + rest
    ensures forall j :: 0 <= j < |q| ==> places[j] < |h| && h[places[j]] == q[j]
  {
    forall j | 0 <= j < |q| ensures places[j] < |h| && h[places[j]] == q[j] {
      if j < n {
        assert h[p..p + n][j] == q[j];
      } else {
        assert q[j] == q[n..][j - n];
      }
    }
  }

  lemma PlacesExtend(places: seq<nat>, q: Text, h: Text, n: nat, p: nat, rest: seq<nat>)
    requires q != [] && n == Width(q) && Places(rest, q[n..], h) && (q[n..] != [] ==> rest[0] >= p + n)
    requires places == (if n == 2 then [p, p + 1] else [p]) + rest && OccursAt(q[..n], h, p)
    ensures Places(places, q, h)
  {
    PlacesHold(places, q, h, n, p, rest);
    PlacesIncrease(places, q, h, n, p, rest);
    forall j | 0 <= j < |q| - 1 && IsHigh(q[j]) && IsLow(q[j + 1]) ensures places[j + 1] == places[j] + 1 {
      if j >= n {
        assert q[n..][j - n] == q[j] && q[n..][j - n + 1] == q[j + 1];
      }
    }
  }

  lemma FirstPlace(h: Text, q: Text, places: seq<nat>)
    requires Places(places, q, h) && q != []
    ensures OccursAt(q[..Width(q)], h, places[0])
  {
    var n := Width(q);
    if n == 2 {
      assert places[1] == places[0] + 1;
    }
    assert h[places[0]..places[0] + n] == q[..n];
  }

  lemma {:induction false} PlacesAreFound(h: Text, q: Text, from: nat, places: seq<nat>)
    requires Places(places, q, h) && (q != [] ==> places[0] >= from)
    ensures Greedy(h, q, from)
    decreases |q|
  {
    hide Places, OccursAt, Greedy, Width;
    if q == [] {
      GreedyEnds(h, from);
    } else {
      var n := Width(q);
      FirstPlace(h, q, places);
      AsMany(places, q, h);
      GreedyStep(h, q, from);
      var p := IndexOf(h, q[..n], from).value;
      PlacesDrop(places, q, h, n);
      PlacesAreFound(h, q[n..], p + n, places[n..]);
    }
  }

  lemma AsMany(places: seq<nat>, q: Text, h: Text)
    requires Places(places, q, h)
    ensures |places| == |q|
  {}

  lemma PlacesDrop(places: seq<nat>, q: Text, h: Text, n: nat)
    requires Places(places, q, h) && q != [] && n == Width(q)
    ensures Places(places[n..], q[n..], h)
    ensures q[n..] != [] ==> places[n] >= places[0] + n
  {
    forall j | 0 <= j < |q| - n - 1 && IsHigh(q[n..][j]) && IsLow(q[n..][j + 1])
      ensures places[n..][j + 1] == places[n..][j] + 1
    {
      assert q[n + j] == q[n..][j];
    }
  }

  /** The greedy search succeeds exactly when some order-preserving embedding exists. */
  lemma GreedyIsComplete(h: Text, q: Text)
    ensures Greedy(h, q, 0) <==> Embeds(q, h)
  {
    hide Greedy, Places;
    if Greedy(h, q, 0) {
      var places := GreedyFindsPlaces(h, q, 0);
    }
    if Embeds(q, h) {
      var places :| Places(places, q, h);
      PlacesAreFoundFromStart(h, q, places);
    }
  }

  lemma PlacesAreFoundFromStart(h: Text, q: Text, places: seq<nat>)
    requires Places(places, q, h)
    ensures Greedy(h, q, 0)
  {
    hide Greedy;
    PlacesAreFound(h, q, 0, places);
  }

  // ---- Laws of the search ----

  lemma ComposePlaces(outer: seq<nat>, b: Text, a: Text, inner: seq<nat>, c: Text) returns (places: seq<nat>)
    requires Places(outer, b, a) && Places(inner, c, b)
    ensures Places(places, c, a)
  {
    places := seq(|c|, j requires 0 <= j < |c| => outer[inner[j]]);
    forall j | 0 <= j < |c| - 1 && IsHigh(c[j]) && IsLow(c[j + 1]) ensures places[j + 1] == places[j] + 1 {
      assert inner[j + 1] == inner[j] + 1;
      assert b[inner[j]] == c[j] && b[inner[j] + 1] == c[j + 1];
    }
  }

  lemma EmbedsIsTransitive(a: Text, b: Text, c: Text)
    requires Embeds(c, b) && Embeds(b, a)
    ensures Embeds(c, a)
  {
    hide Places;
    var inner :| Places(inner, c, b);
    var outer :| Places(outer, b, a);
    var places := ComposePlaces(outer, b, a, inner, c);
  }

  /** A text that starts and ends with something visible embeds in another exactly if it embeds in the trimmed other. */
  lemma EmbedsInTrimmed(c: Text, b: Text)
    requires c != [] ==> !IsWhite(c[0]) && !IsWhite(c[|c| - 1])
    ensures Embeds(c, b) <==> Embeds(c, Trim(b))
  {
    hide Places, Trim, IsWhite;
    if Embeds(c, b) {
      var places :| Places(places, c, b);
      PlacesInTrimmed(places, c, b);
    }
    if Embeds(c, Trim(b)) {
      var places :| Places(places, c, Trim(b));
      TrimIsSlice(b);
      PlacesInWhole(places, c, b, Lead(b), Trim(b));
    }
  }

  /** Places in a slice are places in the whole text. */
  lemma PlacesInWhole(places: seq<nat>, c: Text, b: Text, n: nat, t: Text)
    requires Places(places, c, t) && n <= |b| && t <= b[n..]
    ensures Embeds(c, b)
  {
    var shifted := seq(|c|, j requires 0 <= j < |c| => places[j] + n);
    forall j | 0 <= j < |c| ensures shifted[j] < |b| && b[shifted[j]] == c[j] {
      assert b[n..][places[j]] == b[places[j] + n];
    }
    assert Places(shifted, c, b);
  }

  lemma PlacesInTrimmed(places: seq<nat>, c: Text, b: Text)
    requires Places(places, c, b) && (c != [] ==> !IsWhite(c[0]) && !IsWhite(c[|c| - 1]))
    ensures Embeds(c, Trim(b))
  {
    hide Trim, Lead, IsWhite;
    if c == [] {
      assert Places([], c, Trim(b));
    } else {
      TrimKeepsVisible(b, places[0]);
      TrimKeepsVisible(b, places[|c| - 1]);
      ShiftPlaces(places, c, b, Lead(b), Trim(b));
    }
  }

  lemma ShiftPlaces(places: seq<nat>, c: Text, b: Text, n: nat, t: Text)
    requires Places(places, c, b) && n <= |b| && t <= b[n..] && c != []
    requires places[0] >= n && places[|c| - 1] < n + |t|
    ensures Embeds(c, t)
  {
    forall j | 0 <= j < |c| ensures n <= places[j] < n + |t| {
      assert j == 0 || places[0] < places[j];
      assert j == |c| - 1 || places[j] < places[|c| - 1];
    }
    var shifted := seq(|c|, j requires 0 <= j < |c| => (places[j] - n) as nat);
    forall j | 0 <= j < |c| ensures shifted[j] < |t| && t[shifted[j]] == c[j] {
      assert b[n..][places[j] - n] == b[places[j]];
    }
    assert Places(shifted, c, t);
  }

  /** What the search answers. */
  ghost predicate Found(lower: Text -> Text, value: Option<Text>, needle: Option<Text>) {
    Embeds(Trim(Normalise(lower, needle)), Normalise(lower, value))
  }

  /** The search is transitive although it trims its query and not its subject. */
  lemma SearchIsTransitive(lower: Text -> Text, a: Option<Text>, b: Option<Text>, c: Option<Text>)
    requires Found(lower, a, b) && Found(lower, b, c)
    ensures Found(lower, a, c)
  {
    hide Embeds, TrimEnd, Lead;
    EmbedsInTrimmed(Trim(Normalise(lower, c)), Normalise(lower, b));
    EmbedsIsTransitive(Normalise(lower, a), Trim(Normalise(lower, b)), Trim(Normalise(lower, c)));
  }

  ghost predicate Includes(h: Text, q: Text) { exists p: nat :: OccursAt(q, h, p) }

  /** What is assumed of lower-casing: nothing in lower-cased text, trimmed or not, has a lower case of its own. */
  ghost predicate IsLowerCasing(lower: Text -> Text) {
    forall s :: lower(lower(s)) == lower(s) && lower(Trim(lower(s))) == Trim(lower(s))
  }

  lemma SubstringEmbeds(h: Text, q: Text)
    requires Includes(h, q)
    ensures Embeds(q, h)
  {
    var p: nat :| OccursAt(q, h, p);
    var places := seq(|q|, j requires 0 <= j < |q| => p + j);
    forall j | 0 <= j < |q| ensures h[places[j]] == q[j] {
      assert h[p..p + |q|][j] == q[j];
    }
    assert Places(places, q, h);
  }

  /** `matches`: the query is empty, or found by the search, or a substring. */
  method Matches(lower: Text -> Text, value: Option<Text>, needle: Option<Text>, fuzzy: bool) returns (found: bool)
    ensures found == MatchesSpec(lower, value, needle, fuzzy)
  {
    var haystack, query := Normalise(lower, value), Trim(Normalise(lower, needle));
    if query == [] {
      return true;
    }
    if fuzzy {
      found := FuzzyMatch(lower, Some(haystack), Some(query));
    } else {
      found := IndexOf(haystack, query, 0).Some?;
    }
  }

  ghost predicate MatchesSpec(lower: Text -> Text, value: Option<Text>, needle: Option<Text>, fuzzy: bool) {
    var haystack, query := Normalise(lower, value), Trim(Normalise(lower, needle));
    query == [] || if fuzzy then Found(lower, Some(haystack), Some(query)) else Includes(haystack, query)
  }

  lemma EmptyEmbeds(h: Text)
    ensures Embeds([], h)
  {
    assert Places([], [], h);
  }

  /** Normalising a second time changes nothing, so a fuzzy match is exactly an embedding of the query. */
  lemma FuzzyIsEmbedding(lower: Text -> Text, value: Option<Text>, needle: Option<Text>)
    requires IsLowerCasing(lower)
    ensures MatchesSpec(lower, value, needle, true) <==> Embeds(Trim(Normalise(lower, needle)), Normalise(lower, value))
  {
    hide Trim, Places;
    var v, n := if value.Some? then value.value else [], if needle.Some? then needle.value else [];
    assert lower(lower(v)) == lower(v) && lower(Trim(lower(n))) == Trim(lower(n));
    TrimTwice(lower(n));
    EmptyEmbeds(lower(v));
  }

  /** Whatever the strict search matches, the fuzzy search matches. */
  lemma StrictImpliesFuzzy(lower: Text -> Text, value: Option<Text>, needle: Option<Text>)
    requires IsLowerCasing(lower) && MatchesSpec(lower, value, needle, false)
    ensures MatchesSpec(lower, value, needle, true)
  {
    hide Trim, Embeds;
    FuzzyIsEmbedding(lower, value, needle);
    if Trim(Normalise(lower, needle)) != [] {
      SubstringEmbeds(Normalise(lower, value), Trim(Normalise(lower, needle)));
    }
  }

  /**
   * What the two searches say of a text and a query, each in lower case and the query trimmed: an empty query
   * matches; otherwise the text holds it in one piece, or its code points in order.
   */
  lemma SearchSays(lower: Text -> Text, value: Text, needle: Text)
    requires IsLowerCasing(lower)
    ensures MatchesSpec(lower, Some(value), Some(needle), true) <==> Embeds(Trim(lower(needle)), lower(value))
    ensures MatchesSpec(lower, Some(value), Some(needle), false) <==>
            exists before: Text, after: Text :: lower(value) == before + Trim(lower(needle)) + after
    ensures forall fuzzy :: MatchesSpec(lower, None, None, fuzzy) == MatchesSpec(lower, Some([]), Some([]), fuzzy)
  {
    hide Trim, Embeds;
    var h, q := lower(value), Trim(lower(needle));
    FuzzyIsEmbedding(lower, Some(value), Some(needle));
    if MatchesSpec(lower, Some(value), Some(needle), false) {
      if q == [] {
        assert h == [] + q + h;
      } else {
        var p: nat :| OccursAt(q, h, p);
        assert h == h[..p] + q + h[p + |q|..];
      }
    }
    if before: Text, after: Text :| h == before + q + after {
      assert h[|before|..|before| + |q|] == q;
      assert OccursAt(q, h, |before|);
    }
  }

  /** So a search does not tell apart what has the same lower case. */
  lemma SearchIgnoresCase(lower: Text -> Text, value: Text, other: Text, needle: Text, query: Text, fuzzy: bool)
    requires IsLowerCasing(lower) && lower(value) == lower(other) && lower(needle) == lower(query)
    ensures MatchesSpec(lower, Some(value), Some(needle), fuzzy) == MatchesSpec(lower, Some(other), Some(query), fuzzy)
  {
    hide MatchesSpec, Embeds, Trim;
    SearchSays(lower, value, needle);
    SearchSays(lower, other, query);
  }
}
