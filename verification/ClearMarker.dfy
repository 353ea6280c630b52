/** The clear marker of the notification history: a revision that only ever grows. */
module ClearMarker {
  import opened Wrappers
  import opened Decimals

  /** What the marker file's `pending` holds. */
  datatype Flagged = Absent | Is(value: bool) | NotABoolean

  /** A parsed marker; `revision` is nothing when it is not an integer. */
  datatype Reading = NotAnObject | Reading(revision: Option<int>, pending: Flagged)

  datatype ClearState = ClearState(revision: int, pending: bool)

  datatype Observation = Observation(clear: bool, state: ClearState)

  predicate Valid(r: Reading) {
    r.Reading? && r.revision.Some? && 0 <= r.revision.value <= MAX_SAFE_INTEGER && !r.pending.NotABoolean?
  }

  function ObserveClear(previous: Option<ClearState>, next: Reading): Option<Observation> {
    if !Valid(next) || (previous.Some? && next.revision.value < previous.value.revision) then None
    else Some(Observation(previous.Some? && next.revision.value > previous.value.revision,
                          ClearState(next.revision.value, next.pending == Is(true))))
  }

  /** The caller keeps its state when an observation is rejected. */
  function Observed(previous: Option<ClearState>, next: Reading): Option<ClearState> {
    var o := ObserveClear(previous, next);
    if o.Some? then Some(o.value.state) else previous
  }

  function Fold(readings: seq<Reading>): Option<ClearState> {
    if readings == [] then None else Observed(Fold(readings[..|readings| - 1]), readings[|readings| - 1])
  }

  /** Whether observing the last reading fires the clear. */
  predicate FiresAtEnd(readings: seq<Reading>)
    requires readings != []
  {
    var o := ObserveClear(Fold(readings[..|readings| - 1]), readings[|readings| - 1]);
    o.Some? && o.value.clear
  }

  ghost predicate IsHighest(readings: seq<Reading>, revision: int) {
    && (exists r :: r in readings && Valid(r) && r.revision.value == revision)
    && (forall r :: r in readings && Valid(r) ==> r.revision.value <= revision)
  }

  ghost predicate NoneValid(readings: seq<Reading>) { forall r :: r in readings ==> !Valid(r) }

  /** The folded revision is the highest valid one seen, whatever the order and the repetitions. */
  lemma {:induction false} FoldIsHighest(readings: seq<Reading>)
    ensures Fold(readings).None? <==> NoneValid(readings)
    ensures Fold(readings).Some? ==> IsHighest(readings, Fold(readings).value.revision)
  {
    if readings == [] {
    } else {
      var n := |readings| - 1;
      FoldIsHighest(readings[..n]);
      assert readings == readings[..n] + [readings[n]];
      assert forall r :: r in readings <==> r in readings[..n] || r == readings[n];
    }
  }

  /** The clear fires exactly at each valid reading above every valid reading before it, the first one excepted. */
  lemma FiresAtNewMaxima(readings: seq<Reading>)
    requires readings != []
    ensures var before, last := readings[..|readings| - 1], readings[|readings| - 1];
            FiresAtEnd(readings) <==>
              Valid(last) && !NoneValid(before) && forall r :: r in before && Valid(r) ==>
                r.revision.value < last.revision.value
  {
    FoldIsHighest(readings[..|readings| - 1]);
  }

  /** The pending mark is the one of the last reading that carries the highest revision. */
  lemma {:induction false} PendingIsOfLastHighest(readings: seq<Reading>, k: nat)
    requires k < |readings| && Valid(readings[k]) && IsHighest(readings, readings[k].revision.value)
    requires forall i :: k < i < |readings| && Valid(readings[i]) ==>
             readings[i].revision.value < readings[k].revision.value
    ensures Fold(readings) == Some(ClearState(readings[k].revision.value, readings[k].pending == Is(true)))
  {
    var n := |readings| - 1;
    assert readings == readings[..n] + [readings[n]];
    FoldIsHighest(readings[..n]);
    if k < n {
      assert readings[..n][k] in readings[..n];
      assert forall r :: r in readings[..n] ==> r in readings;
      PendingIsOfLastHighest(readings[..n], k);
    } else {
      assert forall r :: r in readings[..n] ==> r in readings;
    }
  }

  /** Reordering or repeating readings does not change the folded revision. */
  lemma OrderDoesNotMatter(a: seq<Reading>, b: seq<Reading>)
    requires forall r :: r in a <==> r in b
    ensures Fold(a).Some? == Fold(b).Some?
    ensures Fold(a).Some? ==> Fold(a).value.revision == Fold(b).value.revision
  {
    FoldIsHighest(a);
    FoldIsHighest(b);
  }

  /** A reading is taken exactly if its revision is a safe integer not below the known one and its mark is boolean. */
  lemma ObservesExactly(previous: Option<ClearState>, revision: int, pending: Flagged)
    ensures var o := ObserveClear(previous, Reading(Some(revision), pending));
            && (o.Some? <==>
                  0 <= revision <= 0x1F_FFFF_FFFF_FFFF && pending != NotABoolean
                  && (previous.Some? ==> previous.value.revision <= revision))
            && (o.Some? ==> o.value.state.revision == revision && (o.value.state.pending <==> pending == Is(true)))
            && (o.Some? ==> (o.value.clear <==> previous.Some? && previous.value.revision < revision))
    ensures ObserveClear(previous, Reading(None, pending)).None? && ObserveClear(previous, NotAnObject).None?
  {}
}
