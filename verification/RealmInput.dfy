/** The virtual pointer of an agent realm: the events its commands send. */
module RealmInput {
  const LONG_MAX := 0x7FFF_FFFF_FFFF_FFFF
  const LONG_MIN := -0x8000_0000_0000_0000
  const INT32_MAX := 0x7FFF_FFFF
  const INT32_MIN := -0x8000_0000
  const DRAG_STEPS: nat := 24

  /** A parsed number argument: `number` rejects negative ones. */
  type Coordinate = n: int | 0 <= n <= LONG_MAX

  datatype Event =
    | Motion(x: int, y: int, width: int, height: int)
    | Button(code: int, pressed: bool)
    | AxisSource
    | Axis(axis: int, fixed: int)
    | AxisDiscrete(axis: int, fixed: int, steps: int)
    | Frame

  /** How a command ends: normally, by `fail`, or with a signed overflow, which C leaves undefined. */
  datatype Outcome = Done | Failed | Overflow

  /** Division as C does it, towards zero. */
  function TruncDiv(a: int, b: int): int
    requires b > 0
  {
    if a >= 0 then a / b else -(-a / b)
  }

  function ToUint32(n: int): int { n % 0x1_0000_0000 }

  predicate InBounds(x: int, y: int, width: int, height: int) { width >= 1 && height >= 1 && x < width && y < height }

  function MotionEvents(x: int, y: int, width: int, height: int): seq<Event> {
    [Motion(ToUint32(x), ToUint32(y), ToUint32(width), ToUint32(height)), Frame]
  }

  function ButtonEvents(code: int, pressed: bool): seq<Event> { [Button(code, pressed), Frame] }

  /**
   * A motion in bounds is sent as it was asked for exactly if its extent fits the 32 bits it is sent in;
   * then the sent point lies in the sent extent.
   */
  lemma MotionIsSentExactly(x: Coordinate, y: Coordinate, width: Coordinate, height: Coordinate)
    requires InBounds(x, y, width, height)
    ensures MotionEvents(x, y, width, height)[0] == Motion(x, y, width, height) <==>
            width < 0x1_0000_0000 && height < 0x1_0000_0000
  {}

  /** A desktop one unit wider than that is sent as one unit wide, with the point outside. */
  lemma WideMotionIsSentOutside()
    ensures InBounds(5, 0, 0x1_0000_0001, 1)
    ensures MotionEvents(5, 0, 0x1_0000_0001, 1) == [Motion(5, 0, 1, 1), Frame]
  {}

  /** The i-th point of a drag along one axis. */
  function DragPoint(a: int, b: int, i: nat): int { a + TruncDiv((b - a) * i, DRAG_STEPS) }

  predicate Fits(a: int, b: int, i: nat) { LONG_MIN <= (b - a) * i <= LONG_MAX }

  /** What a drag does at its i-th point. */
  function DragStep(x1: int, y1: int, x2: int, y2: int, width: int, height: int, i: nat): Outcome {
    if !Fits(x1, x2, i) || !Fits(y1, y2, i) then Overflow
    else if InBounds(DragPoint(x1, x2, i), DragPoint(y1, y2, i), width, height) then Done
    else Failed
  }

  /** The motions of the first `k` points. */
  function DragMotions(x1: int, y1: int, x2: int, y2: int, width: int, height: int, k: nat): seq<Event> {
    if k == 0 then []
    else
      DragMotions(x1, y1, x2, y2, width, height, k - 1)
      + MotionEvents(DragPoint(x1, x2, k), DragPoint(y1, y2, k), width, height)
  }

  class VirtualPointer {
    var events: seq<Event>

    constructor ()
      ensures events == []
    {
      events := [];
    }

    method SendMotion(x: int, y: int, width: int, height: int) returns (ok: bool)
      modifies this
      ensures ok == InBounds(x, y, width, height)
      ensures events == old(events) + if ok then MotionEvents(x, y, width, height) else []
    {
      if width < 1 || height < 1 || x >= width || y >= height {
        return false;
      }
      events := events + MotionEvents(x, y, width, height);
      return true;
    }

    method SendButton(code: int, pressed: bool)
      modifies this
      ensures events == old(events) + ButtonEvents(code, pressed)
    {
      events := events + ButtonEvents(code, pressed);
    }

    /** `reached` is how many points were sent before the drag ended. */
    method Drag(x1: Coordinate, y1: Coordinate, x2: Coordinate, y2: Coordinate, width: Coordinate, height: Coordinate,
                code: int)
      returns (outcome: Outcome, reached: nat)
      modifies this
      ensures !InBounds(x1, y1, width, height) ==> outcome == Failed && events == old(events)
      ensures InBounds(x1, y1, width, height) ==>
        && reached <= DRAG_STEPS
        && (forall i :: 1 <= i <= reached ==> DragStep(x1, y1, x2, y2, width, height, i) == Done)
        && outcome == (if reached == DRAG_STEPS then Done else DragStep(x1, y1, x2, y2, width, height, reached + 1))
        && (outcome == Done <==> reached == DRAG_STEPS)
        && events == old(events) + DragEvents(x1, y1, x2, y2, width, height, code, reached, outcome == Done)
    {
      hide DragPoint, Fits, InBounds, DragMotions, MotionEvents, ButtonEvents, DragEvents;
      reached := 0;
      var ok := SendMotion(x1, y1, width, height);
      if !ok {
        return Failed, 0;
      }
      SendButton(code, true);
      DragStarts(old(events), x1, y1, x2, y2, width, height, code);
      while reached < DRAG_STEPS
        invariant reached <= DRAG_STEPS
        invariant forall i :: 1 <= i <= reached ==> DragStep(x1, y1, x2, y2, width, height, i) == Done
        invariant events == old(events) + DragEvents(x1, y1, x2, y2, width, height, code, reached, false)
      {
        var i := reached + 1;
        DragGoesOn(old(events), x1, y1, x2, y2, width, height, code, i);
        if !Fits(x1, x2, i) || !Fits(y1, y2, i) {
          return Overflow, reached;
        }
        ok := SendMotion(DragPoint(x1, x2, i), DragPoint(y1, y2, i), width, height);
        if !ok {
          return Failed, reached;
        }
        reached := i;
      }
      SendButton(code, false);
      DragEnds(old(events), x1, y1, x2, y2, width, height, code);
      outcome := Done;
    }

    method Click(x: Coordinate, y: Coordinate, width: Coordinate, height: Coordinate, code: int, count: Coordinate)
      returns (ok: bool)
      modifies this
      ensures ok == (1 <= count <= 20 && InBounds(x, y, width, height))
      ensures events == old(events) + if ok then Clicks(x, y, width, height, code, count) else []
    {
      hide InBounds, MotionEvents, ButtonEvents, Clicks;
      if count < 1 || count > 20 {
        return false;
      }
      var i := 0;
      ghost var before := events;
      NoClicks(x, y, width, height, code);
      while i < count
        invariant 0 <= i <= count
        invariant i > 0 ==> InBounds(x, y, width, height)
        invariant events == before + Clicks(x, y, width, height, code, i)
      {
        OneMoreClick(before, x, y, width, height, code, i);
        ok := SendMotion(x, y, width, height);
        if !ok {
          return;
        }
        SendButton(code, true);
        SendButton(code, false);
        i := i + 1;
      }
      ok := true;
    }

    /** A zero scrolls nothing; a value that no 24.8 fixed-point number can hold is refused. */
    method ScrollAxis(axis: int, value: int) returns (ok: bool)
      requires LONG_MIN <= value <= LONG_MAX
      modifies this
      ensures ok == (-0x80_0000 <= value <= 0x7F_FFFF)
      ensures events == old(events) + if ok && value != 0 then ScrollEvents(axis, value) else []
    {
      if value == 0 {
        return true;
      }
      if value > TruncDiv(INT32_MAX, 256) || value < TruncDiv(INT32_MIN, 256) {
        return false;
      }
      events := events + [AxisSource, Axis(axis, value * 256)];
      var steps := TruncDiv(value, 120);
      if steps == 0 {
        steps := if value > 0 then 1 else -1;
      }
      if steps > INT32_MAX {
        steps := INT32_MAX;
      }
      if steps < INT32_MIN {
        steps := INT32_MIN;
      }
      events := events + [AxisDiscrete(axis, value * 256, steps)];
      return true;
    }
  }

  lemma DragStarts(before: seq<Event>, x1: int, y1: int, x2: int, y2: int, width: int, height: int, code: int)
    ensures before + MotionEvents(x1, y1, width, height) + ButtonEvents(code, true) ==
            before + DragEvents(x1, y1, x2, y2, width, height, code, 0, false)
  {
    hide MotionEvents, ButtonEvents;
  }

  lemma DragGoesOn(before: seq<Event>, x1: int, y1: int, x2: int, y2: int, width: int, height: int, code: int, i: nat)
    requires i > 0
    ensures before + DragEvents(x1, y1, x2, y2, width, height, code, i - 1, false)
            + MotionEvents(DragPoint(x1, x2, i), DragPoint(y1, y2, i), width, height) ==
            before + DragEvents(x1, y1, x2, y2, width, height, code, i, false)
  {
    hide MotionEvents, ButtonEvents, DragPoint;
  }

  lemma DragEnds(before: seq<Event>, x1: int, y1: int, x2: int, y2: int, width: int, height: int, code: int)
    ensures before + DragEvents(x1, y1, x2, y2, width, height, code, DRAG_STEPS, false) + ButtonEvents(code, false) ==
            before + DragEvents(x1, y1, x2, y2, width, height, code, DRAG_STEPS, true)
  {
    hide MotionEvents, ButtonEvents, DragMotions;
  }

  function Clicks(x: int, y: int, width: int, height: int, code: int, count: nat): seq<Event> {
    if count == 0 then []
    else Clicks(x, y, width, height, code, count - 1)
         + MotionEvents(x, y, width, height) + ButtonEvents(code, true) + ButtonEvents(code, false)
  }

  lemma NoClicks(x: int, y: int, width: int, height: int, code: int)
    ensures Clicks(x, y, width, height, code, 0) == []
  {}

  lemma OneMoreClick(before: seq<Event>, x: int, y: int, width: int, height: int, code: int, i: nat)
    ensures before + Clicks(x, y, width, height, code, i)
            + MotionEvents(x, y, width, height) + ButtonEvents(code, true) + ButtonEvents(code, false) ==
            before + Clicks(x, y, width, height, code, i + 1)
  {
    hide MotionEvents, ButtonEvents;
  }

  function WheelSteps(value: int): int {
    var steps := TruncDiv(value, 120);
    if steps != 0 then steps else if value > 0 then 1 else -1
  }

  function ScrollEvents(axis: int, value: int): seq<Event> {
    [AxisSource, Axis(axis, value * 256), AxisDiscrete(axis, value * 256, WheelSteps(value))]
  }

  /** A scroll turns the wheel at least one step in its own direction, and no further than a step per 120 units. */
  lemma WheelTurnsWithTheValue(value: int)
    requires value != 0
    ensures WheelSteps(value) != 0 && (WheelSteps(value) > 0 <==> value > 0)
    ensures value >= 120 ==> WheelSteps(value) * 120 <= value < (WheelSteps(value) + 1) * 120
    ensures WheelSteps(-value) == -WheelSteps(value)
  {}

  // ---- Drags ----

  /** The i-th offset lies between none and the whole distance, and the last one is the whole distance. */
  lemma OffsetsGrow(d: int, i: nat)
    requires d >= 0 && i < DRAG_STEPS
    ensures 0 <= d * i / DRAG_STEPS <= d * (i + 1) / DRAG_STEPS <= d
    ensures d * DRAG_STEPS / DRAG_STEPS == d
  {
    assert d * i <= d * (i + 1) <= d * DRAG_STEPS;
  }

  lemma NegativeOffset(a: int, b: int, i: nat)
    requires b <= a
    ensures DragPoint(a, b, i) == a - (a - b) * i / DRAG_STEPS
  {
    assert (b - a) * i == -((a - b) * i);
    if (b - a) * i == 0 {
      assert (a - b) * i == 0;
    }
  }

  /** Drag points move steadily from the start to the end, never leave the span between them, and end at the end. */
  lemma DragMovesSteadily(a: int, b: int, i: nat)
    requires i < DRAG_STEPS
    ensures a <= b ==> a <= DragPoint(a, b, i) <= DragPoint(a, b, i + 1) <= b
    ensures b <= a ==> b <= DragPoint(a, b, i + 1) <= DragPoint(a, b, i) <= a
    ensures DragPoint(a, b, DRAG_STEPS) == b && DragPoint(a, b, 0) == a
  {
    if a <= b {
      OffsetsGrow(b - a, i);
    }
    if b <= a {
      OffsetsGrow(a - b, i);
      NegativeOffset(a, b, i);
      NegativeOffset(a, b, i + 1);
      NegativeOffset(a, b, DRAG_STEPS);
    }
  }

  lemma StepsFit(a: int, b: int, i: nat)
    requires Fits(a, b, DRAG_STEPS) && i <= DRAG_STEPS
    ensures Fits(a, b, i)
  {
    if a <= b {
      assert 0 <= (b - a) * i <= (b - a) * DRAG_STEPS;
    } else {
      assert (b - a) * DRAG_STEPS <= (b - a) * i <= 0;
    }
  }

  lemma DragFits(a: int, b: int)
    ensures Fits(a, b, DRAG_STEPS) <==> -0x8000_0000_0000_0000 <= (b - a) * 24 <= 0x7FFF_FFFF_FFFF_FFFF
  {}

  /** Every step of a drag is sent exactly when its end is in bounds and its distances do not overflow. */
  lemma DragCompletesExactly(x1: Coordinate, y1: Coordinate, x2: Coordinate, y2: Coordinate, width: Coordinate,
                             height: Coordinate)
    requires InBounds(x1, y1, width, height)
    ensures (forall i :: 1 <= i <= DRAG_STEPS ==> DragStep(x1, y1, x2, y2, width, height, i) == Done) <==>
            && x2 < width && y2 < height
            && -0x8000_0000_0000_0000 <= (x2 - x1) * 24 <= 0x7FFF_FFFF_FFFF_FFFF
            && -0x8000_0000_0000_0000 <= (y2 - y1) * 24 <= 0x7FFF_FFFF_FFFF_FFFF
  {
    DragFits(x1, x2);
    DragFits(y1, y2);
    hide DragPoint, Fits;
    DragMovesSteadily(x1, x2, 0);
    DragMovesSteadily(y1, y2, 0);
    if InBounds(x2, y2, width, height) && Fits(x1, x2, DRAG_STEPS) && Fits(y1, y2, DRAG_STEPS) {
      forall i | 1 <= i <= DRAG_STEPS ensures DragStep(x1, y1, x2, y2, width, height, i) == Done {
        StepsFit(x1, x2, i);
        StepsFit(y1, y2, i);
        DragMovesSteadily(x1, x2, i - 1);
        DragMovesSteadily(y1, y2, i - 1);
      }
    }
    if forall i :: 1 <= i <= DRAG_STEPS ==> DragStep(x1, y1, x2, y2, width, height, i) == Done {
      assert DragStep(x1, y1, x2, y2, width, height, DRAG_STEPS) == Done;
    }
  }

  /** A drag from the origin past the right edge stops halfway. */
  lemma LeavingDragStops()
    ensures InBounds(0, 0, 5, 5) && DragStep(0, 0, 10, 0, 5, 5, 11) == Done && DragStep(0, 0, 10, 0, 5, 5, 12) == Failed
  {}

  /** The button events among some events. */
  function ButtonsOf(events: seq<Event>): seq<Event> {
    if events == [] then []
    else ButtonsOf(events[..|events| - 1])
         + if events[|events| - 1].Button? then [events[|events| - 1]] else []
  }

  lemma {:induction false} ButtonsConcat(a: seq<Event>, b: seq<Event>)
    ensures ButtonsOf(a + b) == ButtonsOf(a) + ButtonsOf(b)
  {
    if b == [] {
      assert a + b == a;
    } else {
      var n := |b| - 1;
      ButtonsConcat(a, b[..n]);
      assert (a + b)[..|a| + n] == a + b[..n];
    }
  }

  lemma NoButtons()
    ensures ButtonsOf([]) == []
  {}

  lemma {:induction false} MotionsPressNothing(x1: int, y1: int, x2: int, y2: int, width: int, height: int, k: nat)
    ensures ButtonsOf(DragMotions(x1, y1, x2, y2, width, height, k)) == []
  {
    hide DragPoint, ButtonsOf;
    if k == 0 {
      NoButtons();
    } else {
      MotionsPressNothing(x1, y1, x2, y2, width, height, k - 1);
      var e := MotionEvents(DragPoint(x1, x2, k), DragPoint(y1, y2, k), width, height);
      TwoEvents(e);
      ButtonsConcat(DragMotions(x1, y1, x2, y2, width, height, k - 1), e);
    }
  }

  /** What a drag whose start is in bounds sends. */
  function DragEvents(x1: int, y1: int, x2: int, y2: int, width: int, height: int, code: int, reached: nat,
                      done: bool): seq<Event> {
    MotionEvents(x1, y1, width, height) + ButtonEvents(code, true) + DragMotions(x1, y1, x2, y2, width, height, reached)
    + if done then ButtonEvents(code, false) else []
  }

  /** A drag presses its button once, and releases it exactly if it completes: otherwise it stays down. */
  lemma DragButtons(x1: int, y1: int, x2: int, y2: int, width: int, height: int, code: int, reached: nat, done: bool)
    ensures ButtonsOf(DragEvents(x1, y1, x2, y2, width, height, code, reached, done)) ==
            [Button(code, true)] + if done then [Button(code, false)] else []
  {
    hide ButtonsOf, DragMotions, ToUint32;
    NoButtons();
    var m, p, d := MotionEvents(x1, y1, width, height), ButtonEvents(code, true),
      DragMotions(x1, y1, x2, y2, width, height, reached);
    var r := if done then ButtonEvents(code, false) else [];
    ButtonsConcat(m + p + d, r);
    ButtonsConcat(m + p, d);
    ButtonsConcat(m, p);
    MotionsPressNothing(x1, y1, x2, y2, width, height, reached);
    TwoEvents(m);
    TwoEvents(p);
    if done {
      TwoEvents(r);
    }
  }

  lemma TwoEvents(e: seq<Event>)
    requires |e| == 2 && e[1] == Frame
    ensures ButtonsOf(e) == if e[0].Button? then [e[0]] else []
  {
    var first := [e[0]];
    assert e[..1] == first && first[..0] == [];
    assert ButtonsOf(first) == ButtonsOf([]) + if e[0].Button? then [e[0]] else [];
  }

  /** `n` times the same events. */
  function Times(events: seq<Event>, n: nat): seq<Event> { if n == 0 then [] else Times(events, n - 1) + events }

  /** A click presses and releases its button as often as it is asked to, in turn. */
  lemma {:induction false} ClickButtons(x: int, y: int, width: int, height: int, code: int, count: nat)
    ensures ButtonsOf(Clicks(x, y, width, height, code, count)) ==
            Times([Button(code, true), Button(code, false)], count)
  {
    hide ButtonsOf, ToUint32;
    if count == 0 {
      NoButtons();
    } else {
      var before := Clicks(x, y, width, height, code, count - 1);
      var m, p, r := MotionEvents(x, y, width, height), ButtonEvents(code, true), ButtonEvents(code, false);
      ClickButtons(x, y, width, height, code, count - 1);
      ButtonsConcat(before + m + p, r);
      ButtonsConcat(before + m, p);
      ButtonsConcat(before, m);
      TwoEvents(m);
      TwoEvents(p);
      TwoEvents(r);
    }
  }
}
