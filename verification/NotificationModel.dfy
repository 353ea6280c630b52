/** The reducer that reconciles the shell's notification list with the answers of the history's owner. */
module NotificationModel {
  import opened Wrappers
  import opened Unicode
  import opened Sequences
  import opened Decimals

  /** The `id` of a history item as parsed; `OtherId` is anything that is neither text nor a number. */
  datatype RawId = TextId(text: Text) | NumberId(n: int) | OtherId

  /** An element of the parsed history array. */
  datatype RawItem<T> = NotAnObject | Item(id: RawId, payload: T)

  datatype Entry<T> = Entry(id: Text, payload: T)

  const MAX_ENTRIES := 2048
  const MAX_ID_LENGTH := 512

  predicate ExactRevision(n: int) { 0 <= n <= MAX_SAFE_INTEGER }

  /** `String(item.id)` where the id is acceptable: non-empty text or a safe integer. */
  function IdText(id: RawId): Option<Text> {
    match id
    case TextId(text) => if text != [] && |text| <= MAX_ID_LENGTH then Some(text) else None
    case NumberId(n) =>
      if n < -MAX_SAFE_INTEGER || n > MAX_SAFE_INTEGER then None
      else Some(if n < 0 then [0x2D] + Digits(-n) else Digits(n))
    case OtherId => None
  }

  function ItemId<T>(item: RawItem<T>): Option<Text> { if item.NotAnObject? then None else IdText(item.id) }

  predicate Acceptable<T>(items: seq<RawItem<T>>) {
    && |items| <= MAX_ENTRIES
    && (forall i :: 0 <= i < |items| ==> ItemId(items[i]).Some?)
    && (forall i, j :: 0 <= i < j < |items| ==> ItemId(items[i]) != ItemId(items[j]))
  }

  function EntriesOf<T>(items: seq<RawItem<T>>): (entries: seq<Entry<T>>)
    requires forall i :: 0 <= i < |items| ==> ItemId(items[i]).Some?
    ensures |entries| == |items|
    ensures forall i :: 0 <= i < |items| ==> entries[i] == Entry(ItemId(items[i]).value, items[i].payload)
  {
    seq(|items|, i requires 0 <= i < |items| => Entry(ItemId(items[i]).value, items[i].payload))
  }

  /** `None` when the value is not an array. */
  function Normalised<T>(value: Option<seq<RawItem<T>>>): Option<seq<Entry<T>>> {
    if value.Some? && Acceptable(value.value) then Some(EntriesOf(value.value)) else None
  }

  /** The loop accepts a list exactly when it is short and its ids are valid and distinct, and keeps its order. */
  method NormaliseEntries<T>(value: Option<seq<RawItem<T>>>) returns (entries: Option<seq<Entry<T>>>)
    ensures entries == Normalised(value)
  {
    if value.None? || |value.value| > MAX_ENTRIES {
      return None;
    }
    var items := value.value;
    var seen: set<Text>, result: seq<Entry<T>> := {}, [];
    for n := 0 to |items|
      invariant Acceptable(items[..n]) && result == EntriesOf(items[..n])
      invariant forall t :: t in seen <==> exists i :: 0 <= i < n && ItemId(items[i]) == Some(t)
    {
      var item := items[n];
      if ItemId(item).None? {
        return None;
      }
      var id := ItemId(item).value;
      if id in seen {
        return None;
      }
      assert items[..n + 1] == items[..n] + [item];
      seen := seen + {id};
      result := result + [Entry(id, item.payload)];
    }
    assert items[..|items|] == items;
    return Some(result);
  }

  function Ids<T>(entries: seq<Entry<T>>): (ids: seq<Text>)
    ensures |ids| == |entries| && forall i :: 0 <= i < |ids| ==> ids[i] == entries[i].id
  {
    seq(|entries|, i requires 0 <= i < |entries| => entries[i].id)
  }

  function Without(ids: seq<Text>, kept: seq<Text>): (left: seq<Text>)
    ensures forall id :: id in left <==> id in ids && id !in kept
    ensures (forall i, j :: 0 <= i < j < |ids| ==> ids[i] != ids[j]) ==> forall i, j :: 0 <= i < j < |left| ==>
            left[i] != left[j]
  {
    if ids == [] then []
    else
      var n := |ids| - 1;
      assert ids == ids[..n] + [ids[n]];
      if ids[n] in kept then Without(ids[..n], kept) else Without(ids[..n], kept) + [ids[n]]
  }

  datatype Batch<T> = Batch(baseIds: seq<Text>, entries: seq<Entry<T>>, clearRevision: Option<int>)

  function PrepareBatch<T>(baseIds: seq<Text>, items: Option<seq<RawItem<T>>>,
                           clearRevision: Option<int>): Option<Batch<T>> {
    var next := Normalised(items);
    if next.None? || |baseIds| > MAX_ENTRIES then None
    else if clearRevision.Some? && !ExactRevision(clearRevision.value) then None
    else Some(Batch(FirstOccurrences(baseIds), next.value, clearRevision))
  }

  /** Whether a text spells a number: a sign only if it is negative, and no zeros in front. */
  predicate SpellsNumber(text: Text, n: int) {
    if n >= 0 then IsNumeral(text) && Decimal(text, |text|) == n
    else text != [] && text[0] == 0x2D && IsNumeral(text[1..]) && Decimal(text[1..], |text| - 1) == -n
  }

  /** What the two kinds of acceptable ids read as; nothing else is acceptable. */
  lemma IdReadsAs(id: RawId)
    ensures IdText(id).Some? <==>
            || (id.TextId? && 1 <= |id.text| <= 512)
            || (id.NumberId? && -0x1F_FFFF_FFFF_FFFF <= id.n <= 0x1F_FFFF_FFFF_FFFF)
    ensures IdText(id).Some? && id.TextId? ==> IdText(id).value == id.text
    ensures IdText(id).Some? && id.NumberId? ==> SpellsNumber(IdText(id).value, id.n)
  {
    if id.NumberId? {
      hide Digits;
      var n: nat := if id.n < 0 then -id.n else id.n;
      DigitsAreTheNumeral(n);
      assert ([0x2D] + Digits(n))[1..] == Digits(n);
    }
  }

  /** Two acceptable ids are the same exactly if they are equal or one is a text that spells the other. */
  lemma IdsCollideExactly(a: RawId, b: RawId)
    requires IdText(a).Some? && IdText(b).Some?
    ensures IdText(a) == IdText(b) <==>
            a == b || (a.TextId? && b.NumberId? && SpellsNumber(a.text, b.n))
            || (b.TextId? && a.NumberId? && SpellsNumber(b.text, a.n))
  {
    hide IdText, SpellsNumber;
    IdReadsAs(a);
    IdReadsAs(b);
    if a.NumberId? {
      SpelledOnce(IdText(a).value, IdText(b).value, a.n);
      if b.NumberId? {
        SpellsOne(IdText(a).value, a.n, b.n);
      }
    }
    if b.NumberId? {
      SpelledOnce(IdText(b).value, IdText(a).value, b.n);
    }
  }

  lemma SpelledOnce(a: Text, b: Text, n: int)
    requires SpellsNumber(a, n)
    ensures SpellsNumber(b, n) ==> a == b
  {
    hide Digits;
    if SpellsNumber(b, n) {
      if n >= 0 {
        NumeralIsDigits(a);
        NumeralIsDigits(b);
      } else {
        NumeralIsDigits(a[1..]);
        NumeralIsDigits(b[1..]);
        assert a == [0x2D] + a[1..] && b == [0x2D] + b[1..];
      }
    }
  }

  lemma SpellsOne(a: Text, m: int, n: int)
    ensures SpellsNumber(a, m) && SpellsNumber(a, n) ==> m == n
  {}

  ghost predicate Distinct(ids: seq<Text>) { forall i, j :: 0 <= i < j < |ids| ==> ids[i] != ids[j] }

  /**
   * A batch is prepared exactly from an acceptable list, no more than 2048 saved ids and a revision that is a
   * safe integer. It holds every item under its own id, in order, every saved id once, and that revision.
   */
  lemma BatchHoldsSubmission<T>(baseIds: seq<Text>, items: Option<seq<RawItem<T>>>, clearRevision: Option<int>)
    ensures PrepareBatch(baseIds, items, clearRevision).Some? <==>
              && items.Some? && Acceptable(items.value) && |baseIds| <= 2048
              && (clearRevision.Some? ==> 0 <= clearRevision.value <= 0x1F_FFFF_FFFF_FFFF)
    ensures PrepareBatch(baseIds, items, clearRevision).Some? ==>
              var batch := PrepareBatch(baseIds, items, clearRevision).value;
              && batch.clearRevision == clearRevision && |batch.entries| == |items.value|
              && (forall i :: 0 <= i < |items.value| ==>
                    && ItemId(items.value[i]) == Some(batch.entries[i].id)
                    && items.value[i].Item? && batch.entries[i].payload == items.value[i].payload)
              && (forall id :: id in batch.baseIds <==> id in baseIds)
              && Distinct(batch.baseIds) && (Distinct(baseIds) ==> batch.baseIds == baseIds)
  {
    if Distinct(baseIds) {
      DistinctStays(baseIds);
    }
  }

  lemma {:induction false} DistinctStays(ids: seq<Text>)
    requires Distinct(ids)
    ensures FirstOccurrences(ids) == ids
  {
    if ids == [] {
    } else {
      var n := |ids| - 1;
      DistinctStays(ids[..n]);
      assert ids == ids[..n] + [ids[n]];
    }
  }

  datatype Reconciliation = Reconciliation(removed: seq<Text>, savedIds: seq<Text>)

  /** `new Set` of the ids the batch is about. */
  function Submitted<T>(batch: Batch<T>): seq<Text> { FirstOccurrences(batch.baseIds + Ids(batch.entries)) }

  function Reconcile<T>(batch: Option<Batch<T>>, verified: Option<seq<RawItem<T>>>): Option<Reconciliation> {
    var next := Normalised(verified);
    if next.None? || batch.None? then None
    else
      var savedIds := Ids(next.value);
      Some(Reconciliation(Without(Submitted(batch.value), savedIds), savedIds))
  }

  function ExternalEdit<T>(previousIds: seq<Text>, items: Option<seq<RawItem<T>>>): Option<Reconciliation> {
    Reconcile(Some(Batch(previousIds, [], None)), items)
  }

  /** Every submitted id is either removed or still saved, never both, and nothing else is removed. */
  lemma AnswerSplitsSubmitted<T>(batch: Batch<T>, verified: Option<seq<RawItem<T>>>, id: Text)
    requires Reconcile(Some(batch), verified).Some?
    ensures var r := Reconcile(Some(batch), verified).value;
            && (id in batch.baseIds || id in Ids(batch.entries) <==>
                 id in r.removed || (id in r.savedIds && id in Submitted(batch)))
            && !(id in r.removed && id in r.savedIds)
            && (forall i, j :: 0 <= i < j < |r.removed| ==> r.removed[i] != r.removed[j])
            && r.savedIds == Ids(Normalised(verified).value)
  {
    assert id in batch.baseIds + Ids(batch.entries) <==> id in batch.baseIds || id in Ids(batch.entries);
  }

  /** Reading back a list that still has every saved id removes nothing, whatever else it has gained. */
  lemma RereadRemovesNothing<T>(previousIds: seq<Text>, items: Option<seq<RawItem<T>>>)
    requires Normalised(items).Some?
    ensures var saved := Ids(Normalised(items).value);
            && ExternalEdit(previousIds, items).Some?
            && ExternalEdit(previousIds, items).value.savedIds == saved
            && (ExternalEdit(previousIds, items).value.removed == [] <==>
                 forall id :: id in previousIds ==> id in saved)
            && (saved == previousIds ==> ExternalEdit(previousIds, items) == Some(Reconciliation([], previousIds)))
  {
    var r := ExternalEdit(previousIds, items).value;
    var none: seq<Entry<T>> := [];
    assert Ids(none) == [];
    assert previousIds + Ids(none) == previousIds;
    if r.removed != [] {
      assert r.removed[0] in r.removed;
    }
  }
}
