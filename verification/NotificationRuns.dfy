/** The notification service that uses the reducer, over whole runs with an arbitrary history owner. */
module NotificationRuns {
  import opened Wrappers
  import opened Unicode
  import opened NotificationModel
  import opened ClearMarker

  /** `live` holds the keys of the notifications that are not closed. */
  datatype Service<T> = Service(live: set<Text>, saved: seq<Text>, batch: Option<Batch<T>>, clear: Option<ClearState>,
    loaded: bool)

  /** `items` is the parsed history file, or nothing when it cannot be read. */
  datatype Step<T> =
    | Arrive(id: Text)
    | Dismiss(id: Text)
    | Restore(items: Option<seq<RawItem<T>>>)
    | Send(items: Option<seq<RawItem<T>>>)
    | Answer(verified: Option<seq<RawItem<T>>>)
    | Abandon
    | Edit(items: Option<seq<RawItem<T>>>)
    | Observe(reading: Reading)

  function SetOf(ids: seq<Text>): set<Text> { set id | id in ids }

  function Applied<T>(s: Service<T>, r: Option<Reconciliation>): Service<T> {
    if r.None? then s else s.(live := s.live - SetOf(r.value.removed), saved := r.value.savedIds)
  }

  function Next<T>(s: Service<T>, step: Step<T>): Service<T> {
    match step
    case Arrive(id) => s.(live := s.live + {id})
    case Dismiss(id) => s.(live := s.live - {id})
    case Restore(items) =>
      if s.loaded || s.clear.None? then s
      else
        var restored := if s.clear.value.pending || Normalised(items).None? then [] else Ids(Normalised(items).value);
        s.(live := s.live + SetOf(restored), saved := restored, loaded := true)
    case Send(items) =>
      if s.batch.Some? || s.clear.None? then s
      else s.(batch := PrepareBatch(s.saved, items, Some(s.clear.value.revision)))
    case Answer(verified) =>
      if s.batch.None? then s else Applied(s, Reconcile(s.batch, verified)).(batch := None)
    case Abandon => s.(batch := None)
    case Edit(items) =>
      if s.batch.Some? || s.clear.None? || s.clear.value.pending then s else Applied(s, ExternalEdit(s.saved, items))
    case Observe(reading) =>
      var o := ObserveClear(s.clear, reading);
      if o.None? then s
      else if o.value.clear then s.(clear := Some(o.value.state), live := {}, saved := [])
      else s.(clear := Some(o.value.state))
  }

  function Run<T>(s: Service<T>, steps: seq<Step<T>>): Service<T> {
    if steps == [] then s else Next(Run(s, steps[..|steps| - 1]), steps[|steps| - 1])
  }

  predicate Clears<T>(s: Service<T>, step: Step<T>) {
    step.Observe? && ObserveClear(s.clear, step.reading).Some? && ObserveClear(s.clear, step.reading).value.clear
  }

  /** Whether a list is acceptable and leaves `id` out. */
  predicate Omits<T>(items: Option<seq<RawItem<T>>>, id: Text) {
    items.Some? && Acceptable(items.value) && forall i :: 0 <= i < |items.value| ==> ItemId(items.value[i]) != Some(id)
  }

  /**
   * What takes `id` off the list: its dismissal, a clear, the answer to a batch that was about it, or an edit
   * outside a batch and a pending clear once it was saved, if the list that comes back leaves it out.
   */
  predicate Removes<T>(s: Service<T>, step: Step<T>, id: Text) {
    match step
    case Dismiss(dismissed) => dismissed == id
    case Observe(_) => Clears(s, step)
    case Answer(verified) =>
      s.batch.Some? && (id in s.batch.value.baseIds || id in Ids(s.batch.value.entries)) && Omits(verified, id)
    case Edit(items) =>
      s.batch.None? && s.clear.Some? && !s.clear.value.pending && id in s.saved && Omits(items, id)
    case _ => false
  }

  /** A live notification is taken off the list by exactly these steps. */
  lemma StepRemovesExactly<T>(s: Service<T>, step: Step<T>, id: Text)
    requires id in s.live
    ensures id !in Next(s, step).live <==> Removes(s, step, id)
    ensures Clears(s, step) ==> Next(s, step).live == {} && Next(s, step).saved == []
  {
    if step.Answer? && Reconcile(s.batch, step.verified).Some? {
      AnswerSplitsSubmitted(s.batch.value, step.verified, id);
      ListedOrOmitted(step.verified, id);
    }
    if step.Edit? && ExternalEdit(s.saved, step.items).Some? {
      var none: seq<Entry<T>> := [];
      AnswerSplitsSubmitted(Batch(s.saved, none, None), step.items, id);
      assert Ids(none) == [];
      ListedOrOmitted(step.items, id);
    }
  }

  /** What puts `id` on the list: its arrival, or the first reading of a history with it and no clear pending. */
  predicate Adds<T>(s: Service<T>, step: Step<T>, id: Text) {
    match step
    case Arrive(arrived) => arrived == id
    case Restore(items) =>
      && !s.loaded && s.clear.Some? && !s.clear.value.pending
      && items.Some? && Acceptable(items.value) && Mentions(items, id)
    case _ => false
  }

  predicate Mentions<T>(items: Option<seq<RawItem<T>>>, id: Text) {
    items.Some? && exists i :: 0 <= i < |items.value| && ItemId(items.value[i]) == Some(id)
  }

  /** Nothing else puts a notification on the list; a history is read once, and then is the saved list. */
  lemma StepAddsExactly<T>(s: Service<T>, step: Step<T>, id: Text)
    requires id !in s.live
    ensures id in Next(s, step).live <==> Adds(s, step, id)
    ensures step.Restore? && !s.loaded && s.clear.Some? ==>
              var after := Next(s, step); after.loaded && (id in after.saved <==> id in after.live)
  {
    if step.Restore? && Normalised(step.items).Some? {
      ListedOrOmitted(step.items, id);
    }
  }

  lemma ListedOrOmitted<T>(items: Option<seq<RawItem<T>>>, id: Text)
    requires Normalised(items).Some?
    ensures id in Ids(Normalised(items).value) <==> !Omits(items, id)
  {
    var entries := Normalised(items).value;
    forall i | 0 <= i < |entries| ensures Ids(entries)[i] == ItemId(items.value[i]).value {}
    if !Omits(items, id) {
      var i :| 0 <= i < |items.value| && ItemId(items.value[i]) == Some(id);
      assert Ids(entries)[i] == id;
    }
  }

  /**
   * No late arrival is lost: a notification that is live after `from` steps stays live throughout the rest of a
   * run exactly if none of its steps dismisses it, clears, or applies a list that leaves it out after the owner
   * was told about it.
   */
  lemma {:induction false} LateArrivalsSurvive<T>(s: Service<T>, steps: seq<Step<T>>, id: Text, from: nat)
    requires from <= |steps| && id in Run(s, steps[..from]).live
    ensures (forall k :: from <= k <= |steps| ==> id in Run(s, steps[..k]).live) <==>
            (forall k :: from <= k < |steps| ==> !Removes(Run(s, steps[..k]), steps[k], id))
  {
    hide Run, Removes;
    assert steps[..|steps|] == steps;
    if from < |steps| {
      var n := |steps| - 1;
      assert steps[..n][..from] == steps[..from];
      forall k | from <= k <= n ensures steps[..n][..k] == steps[..k] {}
      LateArrivalsSurvive(s, steps[..n], id, from);
      LastStep(s, steps, id);
    }
  }

  lemma LastStep<T>(s: Service<T>, steps: seq<Step<T>>, id: Text)
    requires steps != []
    ensures var n := |steps| - 1;
            id in Run(s, steps[..n]).live ==>
              (id in Run(s, steps).live <==> !Removes(Run(s, steps[..n]), steps[n], id))
  {
    hide Next, Removes, Clears;
    var n := |steps| - 1;
    if id in Run(s, steps[..n]).live {
      StepRemovesExactly(Run(s, steps[..n]), steps[n], id);
    }
  }

  /** An arrival while a batch is in flight survives the answer to that batch, if it was not submitted with it. */
  lemma ArrivalInFlightSurvivesAnswer<T>(s: Service<T>, id: Text, verified: Option<seq<RawItem<T>>>)
    requires s.batch.Some? && id !in Submitted(s.batch.value)
    ensures id in Run(s, [Arrive(id), Answer(verified)]).live
    ensures forall other :: other in s.live && other !in Submitted(s.batch.value) ==>
            other in Run(s, [Arrive(id), Answer(verified)]).live
  {
    var steps := [Arrive(id), Answer(verified)];
    assert steps[..1] == [Arrive(id)] && steps[..1][..0] == [];
    assert Run(s, steps[..0]) == s;
    assert Run(s, steps[..1]) == Next(s, Arrive(id));
  }

  /** After an answer was applied, reading one's own saved list again changes nothing. */
  lemma RereadIsStable<T>(s: Service<T>, verified: Option<seq<RawItem<T>>>)
    requires s.batch.Some? && s.clear.Some? && !s.clear.value.pending && Normalised(verified).Some?
    ensures var answered := Next(s, Answer(verified)); Next(answered, Edit(verified)) == answered
  {
    var answered := Next(s, Answer(verified));
    RereadRemovesNothing<T>(answered.saved, verified);
  }

  /** The clear markers among the steps of a run. */
  function ReadingsOf<T>(steps: seq<Step<T>>): seq<Reading> {
    if steps == [] then []
    else
      var n := |steps| - 1;
      ReadingsOf(steps[..n]) + if steps[n].Observe? then [steps[n].reading] else []
  }

  /** Whatever else happens, the service's clear state is that of its readings: the highest valid revision so far. */
  lemma {:induction false} ClearIsOfReadings<T>(s: Service<T>, steps: seq<Step<T>>)
    requires s.clear.None?
    ensures Run(s, steps).clear == Fold(ReadingsOf(steps))
  {
    if steps == [] {
    } else {
      var n := |steps| - 1;
      var earlier := ReadingsOf(steps[..n]);
      ClearIsOfReadings(s, steps[..n]);
      if steps[n].Observe? {
        assert (earlier + [steps[n].reading])[..|earlier|] == earlier;
      } else {
        assert earlier + [] == earlier;
      }
    }
  }

  // ---- A batch and its answer ----

  /** What every step keeps: the saved list is one that a batch can be prepared from. */
  ghost predicate Regular<T>(s: Service<T>) {
    && |s.saved| <= MAX_ENTRIES && Distinct(s.saved)
    && (s.clear.Some? ==> ExactRevision(s.clear.value.revision))
  }

  lemma StepStaysRegular<T>(s: Service<T>, step: Step<T>)
    requires Regular(s)
    ensures Regular(Next(s, step))
  {}

  lemma {:induction false} RunsStayRegular<T>(s: Service<T>, steps: seq<Step<T>>)
    requires Regular(s)
    ensures Regular(Run(s, steps))
  {
    if steps == [] {
    } else {
      RunsStayRegular(s, steps[..|steps| - 1]);
      StepStaysRegular(Run(s, steps[..|steps| - 1]), steps[|steps| - 1]);
    }
  }

  /** Whether a service sends a list. */
  predicate Sends<T>(s: Service<T>, items: Option<seq<RawItem<T>>>) {
    s.batch.None? && s.clear.Some? && items.Some? && Acceptable(items.value)
  }

  /** A list is sent exactly while no batch is in flight and the clear revision is known, if it is acceptable. */
  lemma SendsExactly<T>(s: Service<T>, items: Option<seq<RawItem<T>>>)
    requires Regular(s)
    ensures !Sends(s, items) ==> Next(s, Send(items)) == s
    ensures Sends(s, items) ==>
              var sent := Next(s, Send(items));
              && sent == s.(batch := sent.batch) && sent.batch.Some? && sent.batch.value.baseIds == s.saved
              && sent.batch.value.clearRevision == Some(s.clear.value.revision)
              && forall id :: id in Ids(sent.batch.value.entries) <==> Mentions(items, id)
  {
    if s.batch.None? && s.clear.Some? {
      BatchHoldsSubmission(s.saved, items, Some(s.clear.value.revision));
    }
    if Sends(s, items) {
      var entries := Next(s, Send(items)).batch.value.entries;
      forall id ensures id in Ids(entries) <==> Mentions(items, id) {
        forall i | 0 <= i < |entries| ensures ItemId(items.value[i]) == Some(Ids(entries)[i]) {}
        if Mentions(items, id) {
          var i :| 0 <= i < |items.value| && ItemId(items.value[i]) == Some(id);
          assert Ids(entries)[i] == id;
        }
      }
    }
  }

  /** A batch is in flight exactly from when a list is sent until it is answered or abandoned. */
  lemma InFlightExactly<T>(s: Service<T>, step: Step<T>)
    requires Regular(s)
    ensures Next(s, step).batch.Some? <==>
            if s.batch.Some? then !step.Answer? && !step.Abandon? else step.Send? && Sends(s, step.items)
  {
    if step.Send? {
      SendsExactly(s, step.items);
    }
  }

  /** The saved list changes only with a list that is applied or first read, which it then is, or with a clear. */
  lemma SavedFollowsLists<T>(s: Service<T>, step: Step<T>)
    ensures Next(s, step).saved != s.saved ==>
              Clears(s, step) || (step.Restore? && !s.loaded) || step.Answer? || step.Edit?
    ensures step.Edit? && s.batch.None? && s.clear.Some? && !s.clear.value.pending && Normalised(step.items).Some? ==>
              Next(s, step).saved == Ids(Normalised(step.items).value)
    ensures step.Edit? && (s.batch.Some? || s.clear.None? || s.clear.value.pending || Normalised(step.items).None?) ==>
              Next(s, step) == s
  {}

  /** A batch stays in flight until it is answered or abandoned, whatever else happens. */
  lemma {:induction false} BatchStaysInFlight<T>(s: Service<T>, steps: seq<Step<T>>)
    requires s.batch.Some? && forall k :: 0 <= k < |steps| ==> !steps[k].Answer? && !steps[k].Abandon?
    ensures Run(s, steps).batch == s.batch
  {
    if steps == [] {
    } else {
      BatchStaysInFlight(s, steps[..|steps| - 1]);
    }
  }

  /**
   * The answer to a list that was sent takes off the live list exactly those ids that were saved when it was
   * sent, or were sent with it, and are not in the answer, however many steps lie between. What it lists becomes
   * the saved list. An unacceptable answer changes neither.
   */
  lemma AnswerRemovesExactly<T>(s: Service<T>, items: Option<seq<RawItem<T>>>, between: seq<Step<T>>,
                                verified: Option<seq<RawItem<T>>>)
    requires Regular(s) && Sends(s, items)
    requires forall k :: 0 <= k < |between| ==> !between[k].Answer? && !between[k].Abandon?
    ensures var before := Run(Run(s, [Send(items)]), between); var after := Run(before, [Answer(verified)]);
            && after.batch.None?
            && (forall id :: id in after.live <==>
                  id in before.live && !((id in s.saved || Mentions(items, id)) && Omits(verified, id)))
            && after.saved == if Normalised(verified).Some? then Ids(Normalised(verified).value) else before.saved
  {
    hide Next, Sends, Mentions, Omits;
    OneStep(s, Send(items));
    SendsExactly(s, items);
    var sent := Run(s, [Send(items)]);
    BatchStaysInFlight(sent, between);
    var before := Run(sent, between);
    OneStep(before, Answer(verified));
    AnswerApplies(before, verified);
    forall id | id in before.live
      ensures id !in Next(before, Answer(verified)).live <==>
              (id in s.saved || Mentions(items, id)) && Omits(verified, id)
    {
      StepRemovesExactly(before, Answer(verified), id);
    }
  }

  lemma OneStep<T>(s: Service<T>, step: Step<T>)
    ensures Run(s, [step]) == Next(s, step)
  {
    assert [step][..0] == [] && Run(s, [step][..0]) == s;
  }

  lemma AnswerApplies<T>(s: Service<T>, verified: Option<seq<RawItem<T>>>)
    requires s.batch.Some?
    ensures var after := Next(s, Answer(verified));
            && after.batch.None? && after.live <= s.live
            && after.saved == if Normalised(verified).Some? then Ids(Normalised(verified).value) else s.saved
  {}
}
