/** Blind spot detection: the debounce of each side, its warnings, and what they say about the processed frames. */
module BlindSpot {
  import opened Histories
  import opened Options

  const MIN_SPEED_KMH: real := 10.0
  const MIN_CONFIDENCE: real := 0.6
  const DEBOUNCE_FRAMES: nat := 3
  const CLEAR_FRAMES: nat := 5

  datatype Side = Left | Right

  datatype TurnSignal = SignalOff | SignalLeft | SignalRight

  datatype WarningType = NoWarning | VisualOnly | Audible | Haptic

  datatype Reading = Reading(objectDetected: bool, confidence: real, range: real)

  datatype Warning = Warning(side: Side, kind: WarningType, confidence: real, range: real, time: nat)

  datatype SideState = SideState(detectCount: nat, clearCount: nat, active: bool)

  const CLEARED: SideState := SideState(0, 0, false)

  predicate Hit(reading: Reading) {
    reading.objectDetected && reading.confidence >= MIN_CONFIDENCE
  }

  function Debounced(s: SideState, hit: bool): SideState {
    if hit then
      var count := if s.detectCount < DEBOUNCE_FRAMES then s.detectCount + 1 else s.detectCount;
      SideState(count, 0, s.active || count >= DEBOUNCE_FRAMES)
    else if s.clearCount < CLEAR_FRAMES then SideState(0, s.clearCount + 1, s.active)
    else SideState(0, s.clearCount, false)
  }

  function Signalled(side: Side): TurnSignal {
    if side == Left then SignalLeft else SignalRight
  }

  function WarningFor(side: Side, active: bool, signal: TurnSignal): WarningType {
    if !active then NoWarning else if signal == Signalled(side) then Audible else VisualOnly
  }

  // ---- The function as a whole ----

  datatype State = State(
    speed: real, speedValid: bool, signal: TurnSignal,
    left: SideState, right: SideState, leftWarning: WarningType, rightWarning: WarningType)
  {
    predicate IsActive() {
      speedValid && speed >= MIN_SPEED_KMH
    }

    function Of(side: Side): SideState {
      if side == Left then left else right
    }

    function WarningOf(side: Side): WarningType {
      if side == Left then leftWarning else rightWarning
    }
  }

  const START: State := State(0.0, false, SignalOff, CLEARED, CLEARED, NoWarning, NoWarning)

  /** Below the minimum speed both warnings go out and the debounce stands still. */
  function Processed(s: State, side: Side, reading: Reading): State {
    if !s.IsActive() then s.(leftWarning := NoWarning, rightWarning := NoWarning)
    else
      var next := Debounced(s.Of(side), Hit(reading));
      var kind := WarningFor(side, next.active, s.signal);
      if side == Left then s.(left := next, leftWarning := kind) else s.(right := next, rightWarning := kind)
  }

  function Published(s: State, side: Side, reading: Reading, time: nat): Option<Warning> {
    var kind := Processed(s, side, reading).WarningOf(side);
    if s.IsActive() && kind != NoWarning then Some(Warning(side, kind, reading.confidence, reading.range, time))
    else None
  }

  class BlindSpotDetection {
    var speed: real
    var speedValid: bool
    var turnSignal: TurnSignal
    var leftState: SideState
    var rightState: SideState
    var leftWarning: WarningType
    var rightWarning: WarningType

    ghost function View(): State
      reads this
    {
      State(speed, speedValid, turnSignal, leftState, rightState, leftWarning, rightWarning)
    }

    constructor ()
      ensures View() == START
    {
      speed, speedValid, turnSignal := 0.0, false, SignalOff;
      leftState, rightState, leftWarning, rightWarning := CLEARED, CLEARED, NoWarning, NoWarning;
    }

    method OnSpeed(kmh: real, valid: bool)
      modifies this
      ensures View() == old(View()).(speed := kmh, speedValid := valid)
    {
      speed := kmh;
      speedValid := valid;
    }

    method OnTurnSignal(signal: TurnSignal)
      modifies this
      ensures View() == old(View()).(signal := signal)
    {
      turnSignal := signal;
    }

    method Process(side: Side, reading: Reading, time: nat) returns (published: Option<Warning>)
      modifies this
      ensures View() == Processed(old(View()), side, reading)
      ensures published == Published(old(View()), side, reading, time)
    {
      published := None;
      if !(speedValid && speed >= MIN_SPEED_KMH) {
        leftWarning := NoWarning;
        rightWarning := NoWarning;
        return;
      }
      var ss := if side == Left then leftState else rightState;
      if reading.objectDetected && reading.confidence >= MIN_CONFIDENCE {
        ss := ss.(clearCount := 0);
        if ss.detectCount < DEBOUNCE_FRAMES {
          ss := ss.(detectCount := ss.detectCount + 1);
        }
      } else {
        ss := ss.(detectCount := 0);
        if ss.clearCount < CLEAR_FRAMES {
          ss := ss.(clearCount := ss.clearCount + 1);
        } else {
          ss := ss.(active := false);
        }
      }
      if ss.detectCount >= DEBOUNCE_FRAMES {
        ss := ss.(active := true);
      }
      var kind := NoWarning;
      if ss.active {
        var signalling := (side == Left && turnSignal == SignalLeft) || (side == Right && turnSignal == SignalRight);
        kind := if signalling then Audible else VisualOnly;
      }
      if side == Left {
        leftState, leftWarning := ss, kind;
      } else {
        rightState, rightWarning := ss, kind;
      }
      if kind != NoWarning {
        published := Some(Warning(side, kind, reading.confidence, reading.range, time));
      }
    }
  }

  // ---- The history of one side ----

  /** The debounce state after a sequence of processed frames: true is a detection, false a miss. */
  function After(history: seq<bool>): SideState {
    if history == [] then CLEARED
    else Debounced(After(history[..|history| - 1]), history[|history| - 1])
  }

  /** All n frames from position i are detections, or all are misses. */
  predicate Row(history: seq<bool>, i: nat, n: nat, hit: bool) {
    i + n <= |history| && forall k :: i <= k < i + n ==> history[k] == hit
  }

  /** Three detections in a row, and no six misses in a row after them. */
  ghost predicate DetectedAt(history: seq<bool>, i: nat) {
    Row(history, i, 3, true) && forall j: nat :: j >= i + 3 ==> !Row(history, j, 6, false)
  }

  ghost predicate Detected(history: seq<bool>) {
    exists i: nat :: DetectedAt(history, i)
  }

  lemma {:induction false} TrailingRow(history: seq<bool>, n: nat, hit: bool)
    requires n <= |history|
    ensures Trailing(history, hit) >= n <==> Row(history, |history| - n, n, hit)
  {
    if n > 0 && history[|history| - 1] == hit {
      var init := history[..|history| - 1];
      TrailingRow(init, n - 1, hit);
      assert Row(history, |history| - n, n, hit) <==> Row(init, |init| - (n - 1), n - 1, hit);
    } else if n > 0 {
      assert history[|history| - 1] != hit;
    }
  }

  lemma RowKept(history: seq<bool>, x: bool, i: nat, n: nat, hit: bool)
    requires i + n <= |history|
    ensures Row(history + [x], i, n, hit) <==> Row(history, i, n, hit)
  {
    if Row(history + [x], i, n, hit) {
      forall k | i <= k < i + n ensures history[k] == hit {
        assert (history + [x])[k] == hit;
      }
    }
  }

  lemma RowEnds(history: seq<bool>, x: bool, i: nat, n: nat, hit: bool)
    requires n > 0 && Row(history + [x], i, n, hit) && x != hit
    ensures i + n <= |history|
  {
    assert (history + [x])[|history|] == x;
  }

  /** A detection makes the row of three, if it is the third, and ends every row of misses. */
  lemma DetectedAfterHit(history: seq<bool>)
    ensures Detected(history + [true])
       <==> Detected(history) || (|history| >= 2 && Row(history + [true], |history| - 2, 3, true))
  {
    var h := history + [true];
    forall i: nat | DetectedAt(history, i) ensures DetectedAt(h, i) {
      RowKept(history, true, i, 3, true);
      forall j: nat | j >= i + 3 && Row(h, j, 6, false) ensures false {
        RowEnds(history, true, j, 6, false);
        RowKept(history, true, j, 6, false);
      }
    }
    forall i: nat | DetectedAt(h, i) && i + 3 <= |history| ensures DetectedAt(history, i) {
      RowKept(history, true, i, 3, true);
      forall j: nat | j >= i + 3 && Row(history, j, 6, false) ensures false {
        RowKept(history, true, j, 6, false);
      }
    }
    if |history| >= 2 && Row(h, |history| - 2, 3, true) {
      assert DetectedAt(h, |history| - 2);
    }
  }

  /** A miss undoes the detection exactly when it is the sixth in a row. */
  lemma DetectedAfterMiss(history: seq<bool>)
    ensures Detected(history + [false])
       <==> Detected(history) && !(|history| >= 5 && Row(history + [false], |history| - 5, 6, false))
  {
    var h := history + [false];
    forall i: nat | DetectedAt(h, i) ensures DetectedAt(history, i)
    {
      RowEnds(history, false, i, 3, true);
      RowKept(history, false, i, 3, true);
      forall j: nat | j >= i + 3 && Row(history, j, 6, false) ensures false {
        RowKept(history, false, j, 6, false);
      }
    }
    if |history| >= 5 && Row(h, |history| - 5, 6, false) {
      forall i: nat ensures !DetectedAt(h, i) {
        if DetectedAt(h, i) {
          RowEnds(history, false, i, 3, true);
          RowsApart(h, i, 3, |history| - 5, 6);
        }
      }
    } else {
      forall i: nat | DetectedAt(history, i) ensures DetectedAt(h, i) {
        RowKept(history, false, i, 3, true);
        forall j: nat | j >= i + 3 && Row(h, j, 6, false) ensures false {
          if j + 6 <= |history| {
            RowKept(history, false, j, 6, false);
          }
        }
      }
    }
  }

  /** A row of detections and a row of misses do not overlap. */
  lemma RowsApart(history: seq<bool>, i: nat, m: nat, j: nat, n: nat)
    requires m > 0 && n > 0 && Row(history, i, m, true) && Row(history, j, n, false)
    ensures i + m <= j || j + n <= i
  {
    var k := if i < j then j else i;
    assert k < i + m ==> history[k];
    assert k < j + n ==> !history[k];
  }

  /** What the counters and the flag say about the history, for every history. */
  lemma {:induction false} ActiveMeansDetected(history: seq<bool>)
    ensures var s := After(history);
            && s.detectCount == Capped(Trailing(history, true), DEBOUNCE_FRAMES)
            && s.clearCount == Capped(Trailing(history, false), CLEAR_FRAMES)
            && (s.active <==> Detected(history))
  {
    if history == [] {
      assert forall i: nat :: !DetectedAt(history, i);
    } else {
      var n := |history| - 1;
      var init := history[..n];
      ActiveMeansDetected(init);
      assert history == init + [history[n]];
      hide Detected, Row;
      if history[n] {
        DetectedAfterHit(init);
        if n >= 2 {
          TrailingRow(history, 3, true);
        }
      } else {
        DetectedAfterMiss(init);
        if n >= 5 {
          TrailingRow(history, 6, false);
        }
      }
    }
  }

  // ---- Runs of the whole function ----

  datatype Event = Speed(kmh: real, valid: bool) | Turn(signal: TurnSignal) | Frame(side: Side, reading: Reading)

  function Apply(s: State, e: Event): State {
    match e
    case Speed(kmh, valid) => s.(speed := kmh, speedValid := valid)
    case Turn(signal) => s.(signal := signal)
    case Frame(side, reading) => Processed(s, side, reading)
  }

  function Run(events: seq<Event>): State {
    if events == [] then START
    else Apply(Run(events[..|events| - 1]), events[|events| - 1])
  }

  /** Active by the speed events alone: the last one is valid and fast enough. */
  predicate FastEnough(events: seq<Event>) {
    if events == [] then false
    else
      var last := events[|events| - 1];
      if last.Speed? then last.valid && last.kmh >= MIN_SPEED_KMH else FastEnough(events[..|events| - 1])
  }

  /** The frames of one side that arrive while the function is active: nothing else enters its history. */
  function History(events: seq<Event>, side: Side): seq<bool> {
    if events == [] then []
    else
      var init, last := events[..|events| - 1], events[|events| - 1];
      if last.Frame? && last.side == side && FastEnough(init) then History(init, side) + [Hit(last.reading)]
      else History(init, side)
  }

  /**
    In every run each side's debounce is determined by its own processed frames alone: frames of the other side and
    frames below the minimum speed leave no trace.
   */
  lemma {:induction false} SidesAreIndependent(events: seq<Event>, side: Side)
    ensures Run(events).Of(side) == After(History(events, side))
    ensures Run(events).IsActive() <==> FastEnough(events)
  {
    if events != [] {
      var init, last := events[..|events| - 1], events[|events| - 1];
      SidesAreIndependent(init, side);
      if last.Frame? {
        var history := History(init, side);
        assert (history + [Hit(last.reading)])[..|history|] == history;
      }
    }
  }

  /** After every run, a side is active exactly when three detections in a row were not followed by six misses. */
  lemma ActiveInEveryRun(events: seq<Event>, side: Side)
    ensures Run(events).Of(side).active <==> Detected(History(events, side))
  {
    SidesAreIndependent(events, side);
    ActiveMeansDetected(History(events, side));
  }

  /**
    The turn signal at the last frame of this side, if that frame was processed at speed and no frame of either side
    has been refused for want of speed since.
   */
  function LastShown(events: seq<Event>, side: Side): Option<TurnSignal> {
    if events == [] then None
    else
      var init, last := events[..|events| - 1], events[|events| - 1];
      if last.Frame? && !FastEnough(init) then None
      else if last.Frame? && last.side == side then Some(SignalAfter(init))
      else LastShown(init, side)
  }

  function SignalAfter(events: seq<Event>): TurnSignal {
    if events == [] then SignalOff
    else if events[|events| - 1].Turn? then events[|events| - 1].signal
    else SignalAfter(events[..|events| - 1])
  }

  /**
    The warning shown after every run, exactly: one is shown if and only if the side is detected and its last frame
    was processed at speed with no refused frame since; it is audible if and only if the driver signalled toward
    the side at that frame. It is never haptic.
   */
  lemma {:induction false} ShownExactly(events: seq<Event>, side: Side)
    ensures Run(events).signal == SignalAfter(events)
    ensures var shown := LastShown(events, side);
            var toward := if side == Left then SignalLeft else SignalRight;
            Run(events).WarningOf(side)
            == if shown.Some? && Detected(History(events, side))
               then (if shown.value == toward then Audible else VisualOnly) else NoWarning
  {
    if events != [] {
      var init, last := events[..|events| - 1], events[|events| - 1];
      ShownExactly(init, side);
      SidesAreIndependent(init, side);
      ActiveInEveryRun(init, side);
      ActiveInEveryRun(events, side);
      hide Detected, After;
    }
  }

  /** Which frames count as detections, and at what speed the function works. */
  lemma DetectionsExactly(events: seq<Event>, side: Side, reading: Reading, kmh: real, valid: bool)
    ensures var next := events + [Frame(side, reading)];
            && History(next, side) == History(events, side)
                 + (if FastEnough(events) then [reading.objectDetected && reading.confidence >= 0.6] else [])
            && FastEnough(next) == FastEnough(events)
    ensures FastEnough(events + [Speed(kmh, valid)]) <==> valid && kmh >= 10.0
    ensures History([], side) == [] && !FastEnough([])
  {
    assert (events + [Frame(side, reading)])[..|events|] == events;
  }

  /**
    A frame is answered with a warning exactly when the function is active and the side is detected. The warning
    names the side of the frame, carries its confidence, its range and the time of the call, and is audible exactly
    when the turn signal is set toward that side.
   */
  lemma PublishedExactly(events: seq<Event>, side: Side, reading: Reading, time: nat)
    ensures Published(Run(events), side, reading, time).Some?
       <==> FastEnough(events) && Detected(History(events, side) + [Hit(reading)])
    ensures var answer := Published(Run(events), side, reading, time);
            var toward := if side == Left then SignalLeft else SignalRight;
            answer.Some? ==>
              && answer.value.side == side && answer.value.confidence == reading.confidence
              && answer.value.range == reading.range && answer.value.time == time
              && answer.value.kind == if Run(events).signal == toward then Audible else VisualOnly
  {
    var next := events + [Frame(side, reading)];
    assert next[..|events|] == events;
    SidesAreIndependent(events, side);
    ActiveInEveryRun(next, side);
    hide Detected;
  }
}
