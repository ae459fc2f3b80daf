/** The TUI's fan-curve editor (tux-tui/src/model.rs, tux-tui/src/update.rs). */
module FanCurveEditor {
  import opened Prelude
  import opened FanCurve
  import opened FanCurveLaws

  const MAX_POINTS := 20

  /** The editor's state as a value. */
  datatype Editor = Editor(points: seq<Point>, selected: nat, dirty: bool, original: seq<Point>)

  /** What a new editor holds until the daemon's curve arrives. */
  const FRESH_EDITOR := Editor(DEFAULT_CURVE, 0, false, DEFAULT_CURVE)

  datatype Event =
    | Left | Right | Up | Down | Insert | Delete | Reset | Save | Escape
    | DaemonCurve(curve: seq<Point>)   // `DbusUpdate::FanCurve`
    | DaemonSaved                      // `DbusUpdate::FanCurveSaved`

  /** The midpoint without leaving `u8`: halves, plus one when both are odd. */
  function Halfway(a: u8, b: u8): u8 {
    (a / 2) + (b / 2) + (a % 2 + b % 2) / 2
  }

  function Midpoint(a: Point, b: Point): Point {
    Point(Halfway(a.temp, b.temp), Halfway(a.speed, b.speed))
  }

  function InsertAfter(points: seq<Point>, i: nat): seq<Point>
    requires i + 1 < |points|
  {
    points[..i + 1] + [Midpoint(points[i], points[i + 1])] + points[i + 1..]
  }

  /** Sets the selected speed; an addition past 255 wraps before it is capped. */
  function WithSpeed(e: Editor, speed: u8): Editor
    requires e.selected < |e.points|
  {
    e.(points := e.points[e.selected := e.points[e.selected].(speed := speed)], dirty := true)
  }

  function Raised(e: Editor): Editor {
    if e.selected >= |e.points| then e else WithSpeed(e, Min((e.points[e.selected].speed + 5) % 256, 100))
  }

  function Lowered(e: Editor): Editor {
    if e.selected >= |e.points| then e else WithSpeed(e, Max(e.points[e.selected].speed - 5, 0))
  }

  function Inserted(e: Editor): Editor {
    if |e.points| >= MAX_POINTS || e.selected + 1 >= |e.points| then e
    else e.(points := InsertAfter(e.points, e.selected), selected := e.selected + 1, dirty := true)
  }

  function Deleted(e: Editor): Editor {
    if |e.points| <= 2 || e.selected >= |e.points| then e
    else e.(points := e.points[..e.selected] + e.points[e.selected + 1..],
            selected := Min(e.selected, |e.points| - 2), dirty := true)
  }

  function Next(e: Editor, event: Event): Editor {
    match event
    case Left => if e.points == [] then e else e.(selected := (e.selected + |e.points| - 1) % |e.points|)
    case Right => if e.points == [] then e else e.(selected := (e.selected + 1) % |e.points|)
    case Up => Raised(e)
    case Down => Lowered(e)
    case Insert => Inserted(e)
    case Delete => Deleted(e)
    case Reset => e.(points := DEFAULT_CURVE, selected := 0, dirty := true)
    case Save => e
    case Escape => e.(points := e.original, selected := 0, dirty := false)
    case DaemonCurve(curve) => if e.dirty then e else Editor(curve, 0, false, curve)
    case DaemonSaved => e.(original := e.points, dirty := false)
  }

  /** The curve sent to the daemon by a save. */
  function Sent(e: Editor, event: Event): Option<seq<Point>> {
    if event == Save && e.dirty then Some(e.points) else None
  }

  class FanCurveState {
    var points: seq<Point>
    var selected: nat
    var dirty: bool
    var original: seq<Point>

    ghost function Now(): Editor
      reads this
    {
      Editor(points, selected, dirty, original)
    }

    constructor ()
      ensures Now() == FRESH_EDITOR
    {
      points, selected, dirty, original := DEFAULT_CURVE, 0, false, DEFAULT_CURVE;
    }

    method LoadCurve(curve: seq<Point>)
      modifies this
      ensures Now() == Editor(curve, 0, false, curve)
    {
      original := curve;
      points := curve;
      selected := 0;
      dirty := false;
    }

    method InsertPoint()
      modifies this
      ensures Now() == Inserted(old(Now()))
    {
      if |points| >= MAX_POINTS { return; }
      if selected + 1 < |points| {
        var mid := Midpoint(points[selected], points[selected + 1]);
        points := points[..selected + 1] + [mid] + points[selected + 1..];
        selected := selected + 1;
        dirty := true;
      }
    }

    /** `BoundedIndex::clamp_to` after the points changed. */
    method ClampSelection()
      modifies this`selected
      ensures selected == if points == [] then 0 else Min(old(selected), |points| - 1)
    {
      if |points| == 0 {
        selected := 0;
      } else if selected >= |points| {
        selected := |points| - 1;
      }
    }

    /** `Vec::remove` needs the selection to be in range. */
    method DeletePoint() returns (deleted: bool)
      requires selected < |points| || |points| <= 2
      modifies this
      ensures Now() == Deleted(old(Now()))
      ensures deleted == (|old(points)| > 2)
    {
      if |points| <= 2 { return false; }
      points := points[..selected] + points[selected + 1..];
      ClampSelection();
      dirty := true;
      return true;
    }

    /** Keys and daemon updates, as the update loop dispatches them. */
    method Handle(event: Event) returns (save: Option<seq<Point>>)
      requires event == Delete ==> selected < |points| || |points| <= 2
      modifies this
      ensures Now() == Next(old(Now()), event)
      ensures save == Sent(old(Now()), event)
    {
      save := None;
      match event {
        case Left => if |points| > 0 { selected := (selected + |points| - 1) % |points|; }
        case Right => if |points| > 0 { selected := (selected + 1) % |points|; }
        case Up =>
          if selected < |points| {
            points := points[selected := points[selected].(speed := Min((points[selected].speed + 5) % 256, 100))];
            dirty := true;
          }
        case Down =>
          if selected < |points| {
            points := points[selected := points[selected].(speed := Max(points[selected].speed - 5, 0))];
            dirty := true;
          }
        case Insert => InsertPoint();
        case Delete => var _ := DeletePoint();
        case Reset => points, selected, dirty := DEFAULT_CURVE, 0, true;
        case Save => if dirty { save := Some(points); }
        case Escape => points, selected, dirty := original, 0, false;
        case DaemonCurve(curve) => if !dirty { LoadCurve(curve); }
        case DaemonSaved => original, dirty := points, false;
      }
    }
  }

  // ---- Sessions --------------------------------------------------------------

  /** Valid curves, a selection in range, and no difference from the baseline unless marked. */
  ghost predicate Sane(e: Editor) {
    && CurveOk(e.points) && CurveOk(e.original)
    && (e.points == [] || e.selected < |e.points|)
    && (!e.dirty ==> e.points == e.original)
  }

  lemma MidpointBetween(a: u8, b: u8)
    ensures Halfway(a, b) == (a + b) / 2
    ensures a <= b ==> a <= Halfway(a, b) <= b
    ensures a < b ==> Halfway(a, b) < b
    ensures Halfway(a, b) == Halfway(b, a)
  {
  }

  lemma InsertKeepsCurveOk(points: seq<Point>, i: nat)
    requires i + 1 < |points| && Sorted(points)
    ensures Sorted(InsertAfter(points, i))
    ensures CurveOk(points) ==> CurveOk(InsertAfter(points, i))
  {
    MidpointBetween(points[i].temp, points[i + 1].temp);
    MidpointBetween(points[i].speed, points[i + 1].speed);
    MidpointBetween(points[i + 1].speed, points[i].speed);
  }

  lemma SpeedKeepsSane(e: Editor, speed: u8)
    requires Sane(e) && e.selected < |e.points| && speed <= 100
    ensures Sane(WithSpeed(e, speed))
  {
  }

  lemma InsertKeepsSane(e: Editor)
    requires Sane(e)
    ensures Sane(Inserted(e))
  {
    if e.selected + 1 < |e.points| {
      InsertKeepsCurveOk(e.points, e.selected);
    }
  }

  lemma DeleteKeepsSane(e: Editor)
    requires Sane(e)
    ensures Sane(Deleted(e))
  {
  }

  lemma EventKeepsSane(e: Editor, event: Event)
    requires Sane(e) && (event.DaemonCurve? ==> CurveOk(event.curve))
    ensures Sane(Next(e, event))
    ensures Sent(e, event).Some? ==> CurveOk(Sent(e, event).value)
    ensures e.dirty && event.DaemonCurve? ==> Next(e, event) == e
  {
    match event
    case Insert => InsertKeepsSane(e);
    case Delete => DeleteKeepsSane(e);
    case Up => if e.selected < |e.points| { SpeedKeepsSane(e, Min((e.points[e.selected].speed + 5) % 256, 100)); }
    case Down => if e.selected < |e.points| { SpeedKeepsSane(e, Max(e.points[e.selected].speed - 5, 0)); }
    case _ =>
  }

  function AfterEvents(e: Editor, events: seq<Event>): Editor {
    if events == [] then e else Next(AfterEvents(e, events[..|events| - 1]), events[|events| - 1])
  }

  /** In every session fed with valid curves by the daemon, the editor's curve stays valid and its
      selection in range, and an unmarked curve is the baseline ... */
  lemma {:induction false} SessionsStaySane(e: Editor, events: seq<Event>)
    requires Sane(e)
    requires forall i :: 0 <= i < |events| && events[i].DaemonCurve? ==> CurveOk(events[i].curve)
    ensures Sane(AfterEvents(e, events))
  {
    if events != [] {
      var n := |events| - 1;
      SessionsStaySane(e, events[..n]);
      EventKeepsSane(AfterEvents(e, events[..n]), events[n]);
    }
  }

  /** ... so every curve a session ever sends passes the daemon's checks. */
  lemma SessionsSendValidCurves(e: Editor, events: seq<Event>, i: nat)
    requires Sane(e) && i < |events|
    requires forall k :: 0 <= k < |events| && events[k].DaemonCurve? ==> CurveOk(events[k].curve)
    ensures var sent := Sent(AfterEvents(e, events[..i]), events[i]);
            sent.Some? ==> CurveOk(sent.value)
  {
    SessionsStaySane(e, events[..i]);
  }

  // ---- What the keys do ------------------------------------------------------------

  /** Up and Down move the selected speed by five, stopping at 100 and 0 (but wrapping past 255), Right and Left select the next and the
      previous point around the ends; no other point changes. */
  lemma StepKeysMean(e: Editor)
    requires e.selected < |e.points|
    ensures var i, p, up := e.selected, e.points[e.selected], Next(e, Up);
            && up == e.(points := up.points, dirty := true) && |up.points| == |e.points| && up.points[i].temp == p.temp
            && up.points[i].speed == (if p.speed <= 95 then p.speed + 5 else if p.speed <= 250 then 100 else p.speed - 251)
            && forall k :: 0 <= k < |e.points| && k != i ==> up.points[k] == e.points[k]
    ensures var i, p, down := e.selected, e.points[e.selected], Next(e, Down);
            && down == e.(points := down.points, dirty := true) && |down.points| == |e.points| && down.points[i].temp == p.temp
            && down.points[i].speed == (if p.speed < 5 then 0 else p.speed - 5)
            && forall k :: 0 <= k < |e.points| && k != i ==> down.points[k] == e.points[k]
    ensures Next(e, Right) == e.(selected := if e.selected + 1 == |e.points| then 0 else e.selected + 1)
    ensures Next(e, Left) == e.(selected := if e.selected == 0 then |e.points| - 1 else e.selected - 1)
  {
    ModBelowTwice(e.selected + 1, |e.points|);
    ModBelowTwice(e.selected + |e.points| - 1, |e.points|);
  }

  /** Insert puts the middle of the selected point and the next one between them and selects it; Delete takes
      the selected point out and selects what follows it, or the new last point. */
  lemma PointKeysMean(e: Editor, k: nat)
    requires e.selected < |e.points| && k < |e.points|
    ensures |e.points| < 20 && e.selected + 1 < |e.points| ==>
              var i, after := e.selected, Next(e, Insert);
              && |after.points| == |e.points| + 1 && after.selected == i + 1 && after.dirty && after.original == e.original
              && after.points[if k <= i then k else k + 1] == e.points[k]
              && after.points[i + 1].temp == (e.points[i].temp + e.points[i + 1].temp) / 2
              && after.points[i + 1].speed == (e.points[i].speed + e.points[i + 1].speed) / 2
    ensures |e.points| > 2 ==>
              var i, after := e.selected, Next(e, Delete);
              && |after.points| == |e.points| - 1 && after.dirty && after.original == e.original
              && after.selected == (if i == |e.points| - 1 then i - 1 else i)
              && (k != i ==> after.points[if k < i then k else k - 1] == e.points[k])
    ensures |e.points| >= 20 || e.selected + 1 == |e.points| ==> Next(e, Insert) == e
    ensures |e.points| <= 2 ==> Next(e, Delete) == e
  {
    if e.selected + 1 < |e.points| {
      var mid := Midpoint(e.points[e.selected], e.points[e.selected + 1]);
      InsertedAt(e.points, e.selected + 1, mid, k);
      MidpointBetween(e.points[e.selected].temp, e.points[e.selected + 1].temp);
      MidpointBetween(e.points[e.selected].speed, e.points[e.selected + 1].speed);
    }
  }

  /** Reset brings the default curve as an unsaved change, Escape the baseline; data replaces an unmarked curve
      and its baseline, and a confirmation makes the curve the baseline. */
  lemma WholeCurveEventsMean(e: Editor, curve: seq<Point>)
    ensures Next(e, Reset) == Editor([Point(0, 0), Point(25, 10), Point(50, 30), Point(75, 70), Point(100, 100)], 0, true, e.original)
    ensures Next(e, Escape) == Editor(e.original, 0, false, e.original)
    ensures Next(e, DaemonCurve(curve)) == if e.dirty then e else Editor(curve, 0, false, curve)
    ensures Next(e, DaemonSaved) == Editor(e.points, e.selected, false, e.points)
    ensures Next(e, Save) == e && Sent(e, Save) == if e.dirty then Some(e.points) else None
    ensures FRESH_EDITOR == Next(e, Reset).(dirty := false, original := FRESH_EDITOR.points)
  {
  }

  /** Deleting right after an insertion gives the old curve back, with the selection one further on. */
  lemma DeleteUndoesInsert(e: Editor)
    requires |e.points| < MAX_POINTS && e.selected + 1 < |e.points|
    ensures Next(Next(e, Insert), Delete) == e.(selected := e.selected + 1, dirty := true)
  {
    RemoveInserted(e.points, e.selected + 1, Midpoint(e.points[e.selected], e.points[e.selected + 1]));
  }

  lemma LeftUndoesRight(e: Editor)
    requires e.selected < |e.points|
    ensures Next(Next(e, Right), Left) == e && Next(Next(e, Left), Right) == e
  {
    var n, i := |e.points|, e.selected;
    ModBelowTwice(i + 1, n);
    ModBelowTwice(i + n - 1, n);
    ModBelowTwice((i + 1) % n + n - 1, n);
    ModBelowTwice((i + n - 1) % n + 1, n);
  }

  // ---- Saves and their confirmations ---------------------------------------------

  /** What keeps an event from changing the points: the moves, saves and confirmations never do, a key
      finds nothing to do, and a daemon curve is refused or is the same. */
  predicate KeepsPoints(e: Editor, event: Event) {
    match event
    case Left => true
    case Right => true
    case Up => e.selected >= |e.points| || e.points[e.selected].speed == 100
    case Down => e.selected >= |e.points| || e.points[e.selected].speed == 0
    case Insert => |e.points| >= MAX_POINTS || e.selected + 1 >= |e.points|
    case Delete => |e.points| <= 2 || e.selected >= |e.points|
    case Reset => e.points == DEFAULT_CURVE
    case Save => true
    case Escape => e.points == e.original
    case DaemonCurve(curve) => e.dirty || curve == e.points
    case DaemonSaved => true
  }

  lemma KeepsPointsExactly(e: Editor, event: Event)
    ensures Next(e, event).points == e.points <==> KeepsPoints(e, event)
  {
    if (event.Up? || event.Down?) && e.selected < |e.points| {
      assert Next(e, event).points[e.selected] == e.points[e.selected] <==> KeepsPoints(e, event);
      assert e.points[e.selected := e.points[e.selected]] == e.points;
    }
  }

  /** The daemon's confirmation names no curve: it makes the baseline whatever is being edited by
      then. After one more event that is the curve that was sent exactly if the event kept it. */
  lemma ConfirmationBaselineExactly(e: Editor, event: Event)
    requires e.dirty
    ensures var confirmed := Next(Next(Next(e, Save), event), DaemonSaved);
            && (Some(confirmed.original) == Sent(e, Save) <==> KeepsPoints(e, event))
            && confirmed.points == confirmed.original && Sent(confirmed, Save) == None
  {
    KeepsPointsExactly(e, event);
  }

  /** Every event finds the points as they are and keeps them. */
  ghost predicate EachKeepsPoints(e: Editor, events: seq<Event>) {
    forall i :: 0 <= i < |events| ==> KeepsPoints(AfterEvents(e, events[..i]), events[i])
  }

  lemma {:induction false} PrefixAfterEvents(e: Editor, events: seq<Event>, i: nat)
    requires i < |events|
    ensures AfterEvents(e, events[..i + 1]) == Next(AfterEvents(e, events[..i]), events[i])
  {
    assert events[..i + 1][..i] == events[..i];
  }

  lemma KeepingStep(e: Editor, event: Event)
    requires KeepsPoints(e, event)
    ensures Next(e, event).points == e.points
    ensures e.dirty && event != Escape && event != DaemonSaved ==> Next(e, event).dirty
  {
    KeepsPointsExactly(e, event);
  }

  lemma {:induction false} KeptSoFar(e: Editor, events: seq<Event>, n: nat)
    requires EachKeepsPoints(e, events) && n <= |events|
    ensures AfterEvents(e, events[..n]).points == e.points
    ensures e.dirty && Escape !in events && DaemonSaved !in events ==> AfterEvents(e, events[..n]).dirty
  {
    if n > 0 {
      var last := AfterEvents(e, events[..n - 1]);
      KeptSoFar(e, events, n - 1);
      PrefixAfterEvents(e, events, n - 1);
      assert KeepsPoints(last, events[n - 1]) && events[n - 1] in events;
      KeepingStep(last, events[n - 1]);
    }
  }

  lemma {:induction false} KeptToTheEnd(e: Editor, events: seq<Event>)
    requires EachKeepsPoints(e, events)
    ensures AfterEvents(e, events).points == e.points
    ensures e.dirty && Escape !in events && DaemonSaved !in events ==> AfterEvents(e, events).dirty
  {
    KeptSoFar(e, events, |events|);
    assert events[..|events|] == events;
  }

  /** Whenever a confirmation comes during the session, it makes the first points the baseline. */
  ghost predicate ConfirmedAnyTime(e: Editor, events: seq<Event>) {
    forall i :: 0 <= i <= |events| ==> Next(AfterEvents(e, events[..i]), DaemonSaved).original == e.points
  }

  lemma {:induction false} ConfirmedPointsAreKept(e: Editor, events: seq<Event>, i: nat)
    requires ConfirmedAnyTime(e, events) && i < |events|
    ensures KeepsPoints(AfterEvents(e, events[..i]), events[i])
  {
    PrefixAfterEvents(e, events, i);
    assert Next(AfterEvents(e, events[..i + 1]), DaemonSaved).original == e.points;
    assert Next(AfterEvents(e, events[..i]), DaemonSaved).original == e.points;
    KeepsPointsExactly(AfterEvents(e, events[..i]), events[i]);
  }

  /** Over any events after a save, the confirmation makes the curve that was sent the baseline, whenever
      it comes, exactly if each event finds nothing to change. */
  lemma {:induction false} ConfirmedAnyTimeExactly(e: Editor, events: seq<Event>)
    requires e.dirty
    ensures Next(e, Save) == e && Sent(e, Save) == Some(e.points)
    ensures ConfirmedAnyTime(e, events) <==> EachKeepsPoints(e, events)
  {
    if EachKeepsPoints(e, events) {
      forall i | 0 <= i <= |events| ensures Next(AfterEvents(e, events[..i]), DaemonSaved).original == e.points {
        KeptSoFar(e, events, i);
      }
    }
    if ConfirmedAnyTime(e, events) {
      forall i | 0 <= i < |events| ensures KeepsPoints(AfterEvents(e, events[..i]), events[i]) {
        ConfirmedPointsAreKept(e, events, i);
      }
    }
  }

  /** If every event between the save and its confirmation keeps the points, the confirmation makes the
      curve that was sent the baseline. */
  lemma {:induction false} ConfirmationKeepsSentCurve(e: Editor, between: seq<Event>)
    requires e.dirty && EachKeepsPoints(Next(e, Save), between)
    ensures var end := AfterEvents(Next(e, Save), between);
            && Some(Next(end, DaemonSaved).original) == Sent(e, Save) && !Next(end, DaemonSaved).dirty
            && (Escape !in between && DaemonSaved !in between ==> end.dirty)
  {
    KeptToTheEnd(e, between);
  }

  /** Two saves with their confirmations in flight: the first confirmation, of the first curve, already
      makes the second the baseline; the second confirmation finds the curve it is of exactly if the
      event before it kept the points. */
  lemma SecondConfirmationExactly(e: Editor, edit: Event, event: Event)
    requires e.dirty && Next(e, edit).dirty
    ensures var second := Next(Next(e, Save), edit);
            var first := Next(Next(second, Save), DaemonSaved);
            && Some(first.original) == Sent(second, Save) && !first.dirty
            && (Some(first.original) == Sent(e, Save) <==> KeepsPoints(e, edit))
            && (Some(Next(Next(first, event), DaemonSaved).original) == Sent(second, Save) <==> KeepsPoints(first, event))
  {
    KeepsPointsExactly(e, edit);
    KeepsPointsExactly(Next(Next(e, edit), DaemonSaved), event);
  }

  /** A daemon curve, an edit, a save, one more edit, the confirmation. */
  const RACED_SESSION := [DaemonCurve([Point(0, 10), Point(50, 60)]), Up, Save, Up, DaemonSaved]

  lemma RacedSessionSaves()
    ensures AfterEvents(FRESH_EDITOR, RACED_SESSION[..2])
            == Editor([Point(0, 15), Point(50, 60)], 0, true, [Point(0, 10), Point(50, 60)])
  {
    PrefixAfterEvents(FRESH_EDITOR, RACED_SESSION, 0);
    PrefixAfterEvents(FRESH_EDITOR, RACED_SESSION, 1);
  }

  lemma RacedSessionEdits()
    ensures AfterEvents(FRESH_EDITOR, RACED_SESSION[..4])
            == Editor([Point(0, 20), Point(50, 60)], 0, true, [Point(0, 10), Point(50, 60)])
  {
    RacedSessionSaves();
    PrefixAfterEvents(FRESH_EDITOR, RACED_SESSION, 2);
    PrefixAfterEvents(FRESH_EDITOR, RACED_SESSION, 3);
  }

  /** In that session the last edit is never sent, is shown as saved, and a further save does not send it. */
  lemma UnsavedEditLooksSaved()
    ensures var end := AfterEvents(FRESH_EDITOR, RACED_SESSION);
            && Sent(AfterEvents(FRESH_EDITOR, RACED_SESSION[..2]), RACED_SESSION[2]) == Some([Point(0, 15), Point(50, 60)])
            && end.points == end.original == [Point(0, 20), Point(50, 60)] && !end.dirty && Sent(end, Save) == None
  {
    RacedSessionSaves();
    RacedSessionEdits();
    PrefixAfterEvents(FRESH_EDITOR, RACED_SESSION, 4);
    assert RACED_SESSION[..5] == RACED_SESSION;
  }

  // ---- What an insertion does to the curve ---------------------------------------

  /** A strict bracket decides an interior temperature. */
  lemma BracketDecides(curve: seq<Point>, temp: u8, k: nat)
    requires Sorted(curve) && Interior(curve, temp)
    requires k + 1 < |curve| && curve[k].temp < temp <= curve[k + 1].temp
    ensures Interpolate(curve, temp) == Clamp(curve[k].speed
                + Slope(curve[k + 1].speed - curve[k].speed, temp - curve[k].temp, curve[k + 1].temp - curve[k].temp), 0, 100)
  {
    var j := InteriorWindow(curve, temp);
    assert j == k;
  }

  /** The points of an insertion, index by index. */
  lemma InsertShape(points: seq<Point>, i: nat, k: nat)
    requires i + 1 < |points| && k < |points|
    ensures var after := InsertAfter(points, i);
            && |after| == |points| + 1 && after[0] == points[0] && after[|points|] == points[|points| - 1]
            && after[i + 1] == Midpoint(points[i], points[i + 1])
            && (k <= i ==> after[k] == points[k]) && (k > i ==> after[k + 1] == points[k])
  {
    var mid := Midpoint(points[i], points[i + 1]);
    InsertedAt(points, i + 1, mid, k);
    InsertedAt(points, i + 1, mid, 0);
    InsertedAt(points, i + 1, mid, |points| - 1);
  }

  /** A window that keeps its two points keeps its result, wherever it moves to. */
  lemma WindowMoves(curve: seq<Point>, curve': seq<Point>, temp: u8, k: nat, k': nat)
    requires Sorted(curve) && Sorted(curve') && Interior(curve, temp) && Interior(curve', temp)
    requires k + 1 < |curve| && curve[k].temp < temp <= curve[k + 1].temp
    requires k' + 1 < |curve'| && curve'[k'] == curve[k] && curve'[k' + 1] == curve[k + 1]
    ensures Interpolate(curve', temp) == Interpolate(curve, temp)
  {
    BracketDecides(curve, temp, k);
    BracketDecides(curve', temp, k');
  }

  lemma InsertElsewhere(points: seq<Point>, i: nat, temp: u8)
    requires Sorted(points) && i + 1 < |points| && Interior(points, temp)
    requires temp <= points[i].temp || temp > points[i + 1].temp
    ensures Interpolate(InsertAfter(points, i), temp) == Interpolate(points, temp)
  {
    InsertKeepsCurveOk(points, i);
    var k := InteriorWindow(points, temp);
    assert k != i;
    InsertShape(points, i, k);
    InsertShape(points, i, k + 1);
    WindowMoves(points, InsertAfter(points, i), temp, k, if k < i then k else k + 1);
  }

  /** Outside the two neighbouring temperatures an inserted midpoint changes no result. */
  lemma InsertChangesNothingOutside(points: seq<Point>, i: nat, temp: u8)
    requires Sorted(points) && i + 1 < |points|
    requires temp <= points[i].temp || temp >= points[i + 1].temp
    ensures Interpolate(InsertAfter(points, i), temp) == Interpolate(points, temp)
  {
    InsertShape(points, i, 0);
    if Interior(points, temp) {
      if temp <= points[i].temp || temp > points[i + 1].temp {
        InsertElsewhere(points, i, temp);
      } else {
        InsertKeepsFarEnd(points, i);
      }
    }
  }

  lemma InsertKeepsFarEnd(points: seq<Point>, i: nat)
    requires Sorted(points) && i + 1 < |points| && points[i].temp < points[i + 1].temp
    requires Interior(points, points[i + 1].temp)
    ensures Interpolate(InsertAfter(points, i), points[i + 1].temp) == Interpolate(points, points[i + 1].temp)
  {
    var after := InsertAfter(points, i);
    var a, b, mid := points[i], points[i + 1], Midpoint(points[i], points[i + 1]);
    InsertKeepsCurveOk(points, i);
    MidpointBetween(a.temp, b.temp);
    InsertShape(points, i, i + 1);
    BracketDecides(points, b.temp, i);
    BracketDecides(after, b.temp, i + 1);
    SlopeRange(b.speed - a.speed, b.temp - a.temp, b.temp - a.temp);
    SlopeRange(b.speed - mid.speed, b.temp - mid.temp, b.temp - mid.temp);
  }

  /** Up to the inserted point the new result lies between its speed and the left neighbour's. */
  lemma InsertLeftHalf(points: seq<Point>, i: nat, temp: u8)
    requires Sorted(points) && i + 1 < |points|
    requires points[i].temp < temp <= Midpoint(points[i], points[i + 1]).temp && temp < points[i + 1].temp
    ensures var r, a := Interpolate(InsertAfter(points, i), temp), points[i].speed;
            var m := Halfway(points[i].speed, points[i + 1].speed);
            Min(Min(a, m), 100) <= r <= Min(Max(a, m), 100)
  {
    var a, mid := points[i], Midpoint(points[i], points[i + 1]);
    InsertKeepsCurveOk(points, i);
    InsertShape(points, i, i);
    BracketDecides(InsertAfter(points, i), temp, i);
    SlopeRange(mid.speed - a.speed, temp - a.temp, mid.temp - a.temp);
  }

  lemma InsertRightHalf(points: seq<Point>, i: nat, temp: u8)
    requires Sorted(points) && i + 1 < |points|
    requires Midpoint(points[i], points[i + 1]).temp < temp < points[i + 1].temp && points[i].temp < temp
    ensures var r, b := Interpolate(InsertAfter(points, i), temp), points[i + 1].speed;
            var m := Halfway(points[i].speed, points[i + 1].speed);
            Min(Min(b, m), 100) <= r <= Min(Max(b, m), 100)
  {
    var b, mid := points[i + 1], Midpoint(points[i], points[i + 1]);
    InsertKeepsCurveOk(points, i);
    InsertShape(points, i, i + 1);
    BracketDecides(InsertAfter(points, i), temp, i + 1);
    SlopeRange(b.speed - mid.speed, temp - mid.temp, b.temp - mid.temp);
  }

  /** Strictly between the two neighbours the new result stays within their speeds, unless both are
      above what interpolation is clamped to. */
  lemma InsertStaysWithinNeighbours(points: seq<Point>, i: nat, temp: u8)
    requires Sorted(points) && i + 1 < |points|
    requires points[i].temp < temp < points[i + 1].temp
    ensures Min(points[i].speed, points[i + 1].speed)
            <= Interpolate(InsertAfter(points, i), temp) <= Max(points[i].speed, points[i + 1].speed)
            <==> Min(points[i].speed, points[i + 1].speed) <= 100
  {
    MidpointBetween(points[i].speed, points[i + 1].speed);
    MidpointBetween(points[i + 1].speed, points[i].speed);
    if temp <= Midpoint(points[i], points[i + 1]).temp {
      InsertLeftHalf(points, i, temp);
    } else {
      InsertRightHalf(points, i, temp);
    }
  }
}
