/** The cyclic speed service: draining the bus, plausibility, timeout, filter and quality. */
module VehicleSpeed {
  import opened KalmanFilter
  import opened Options
  import opened Words

  const SPEED_CAN_ID: nat := 0x123
  const MAX_PLAUSIBLE_KMH: real := 400.0
  const MAX_JUMP_KMH: real := 15.0
  const SIGNAL_TIMEOUT: int := 200_000_000 // nanoseconds
  const MAX_FRAMES_DRAINED: nat := 64

  datatype Quality = Valid | Degraded | Invalid

  /** A CAN frame: identifier, length code and the eight data bytes. */
  datatype Frame = Frame(id: nat, dlc: nat, data: seq<bv8>) {
    predicate IsSpeed() {
      id == SPEED_CAN_ID && dlc >= 2
    }
  }

  type CanFrame = f: Frame | |f.data| == 8 witness Frame(0, 0, [0, 0, 0, 0, 0, 0, 0, 0])

  datatype Sample = Sample(kmh: real, quality: Quality, time: int, filtered: real, convergence: real)

  /** The 16-bit word of a frame: the second byte above the first. */
  function Raw(f: CanFrame): bv16 {
    (f.data[0] as bv16) | ((f.data[1] as bv16) << 8)
  }

  function Kmh(f: CanFrame): real {
    (Raw(f) as int) as real * 0.01
  }

  lemma RawNumber(f: CanFrame)
    ensures Raw(f) as int == f.data[0] as int + 256 * (f.data[1] as int)
  {
    JoinTwo(Raw(f), f.data[0], f.data[1]);
  }

  /** A frame with the number n in its first two bytes, low byte first, reads n hundredths of a km/h. */
  lemma FrameReads(f: CanFrame, n: nat)
    requires f.data[0] as int == n % 256 && f.data[1] as int == n / 256
    ensures Kmh(f) == n as real / 100.0
  {
    hide Raw;
    RawNumber(f);
  }

  /** Which frames carry the speed. */
  lemma SpeedFrames(f: CanFrame)
    ensures f.IsSpeed() <==> f.id == 0x123 && f.dlc >= 2
  {
  }

  function Drained(pending: seq<CanFrame>): nat {
    if |pending| < MAX_FRAMES_DRAINED then |pending| else MAX_FRAMES_DRAINED
  }

  /** The newest speed frame of a batch. */
  function Newest(frames: seq<CanFrame>): Option<real> {
    if frames == [] then None
    else if frames[|frames| - 1].IsSpeed() then Some(Kmh(frames[|frames| - 1]))
    else Newest(frames[..|frames| - 1])
  }

  function Reading(pending: seq<CanFrame>): Option<real> {
    Newest(pending[..Drained(pending)])
  }

  /** A reading is the one of the last speed frame among the drained frames. */
  lemma {:induction false} NewestIsLast(frames: seq<CanFrame>, k: nat)
    requires k < |frames| && frames[k].IsSpeed()
    requires forall j :: k < j < |frames| ==> !frames[j].IsSpeed()
    ensures Newest(frames) == Some(Kmh(frames[k]))
  {
    var n := |frames| - 1;
    if k < n {
      NewestIsLast(frames[..n], k);
    }
  }

  lemma {:induction false} NoSpeedFrame(frames: seq<CanFrame>)
    ensures Newest(frames).None? <==> forall k :: 0 <= k < |frames| ==> !frames[k].IsSpeed()
  {
    if frames != [] {
      NoSpeedFrame(frames[..|frames| - 1]);
    }
  }

  // ---- One cycle ----

  datatype State = State(hasValid: bool, last: real, lastTime: int, quality: Quality, x: real, p: real)

  const START: State := State(false, 0.0, 0, Invalid, 0.0, SERVICE.p0)

  predicate Plausible(s: State, kmh: real) {
    && 0.0 <= kmh <= MAX_PLAUSIBLE_KMH
    && (s.hasValid ==> Abs(kmh - s.last) <= MAX_JUMP_KMH)
  }

  predicate Accepts(s: State, reading: Option<real>) {
    reading.Some? && Plausible(s, reading.value)
  }

  /** Taking over an accepted reading; the first one also seeds the filter. */
  function Accepted(s: State, now: int, kmh: real): State {
    if s.hasValid then State(true, kmh, now, Valid, s.x, s.p)
    else State(true, kmh, now, Valid, kmh, SERVICE.p0)
  }

  function Substituted(s: State, now: int): State {
    if s.hasValid && now - s.lastTime <= SIGNAL_TIMEOUT then s.(quality := Degraded)
    else s.(hasValid := false, quality := Invalid)
  }

  /** The filter runs in every cycle, on the held value or on its own estimate. */
  function Filtered(s: State): State
    requires s.p >= 0.0
  {
    s.(x := NextX(SERVICE.q, SERVICE.r, s.p, s.x, if s.hasValid then s.last else s.x),
       p := NextP(SERVICE.q, SERVICE.r, s.p))
  }

  function Decide(s: State, now: int, reading: Option<real>): State {
    if Accepts(s, reading) then Accepted(s, now, reading.value) else Substituted(s, now)
  }

  function Step(s: State, now: int, reading: Option<real>): State
    requires s.p >= 0.0
  {
    Filtered(Decide(s, now, reading))
  }

  predicate Inv(s: State) {
    && (s.quality == Invalid <==> !s.hasValid)
    && 0.0 <= s.last <= MAX_PLAUSIBLE_KMH
    && 0.0 <= s.x <= MAX_PLAUSIBLE_KMH
    && 0.0 <= s.p <= SERVICE.p0
    && Excess(SERVICE.q, SERVICE.r, s.p) >= 0.0
  }

  lemma FilterKeepsInv(s: State)
    requires Inv(s)
    ensures Inv(Filtered(s))
  {
    hide NextX, NextP, Excess;
    ExcessKept(SERVICE.q, SERVICE.r, s.p);
    FallsAboveFixedPoint(SERVICE.q, SERVICE.r, s.p);
    CovarianceBounds(SERVICE.q, SERVICE.r, s.p);
    EstimateBetween(SERVICE.q, SERVICE.r, s.p, s.x, if s.hasValid then s.last else s.x, 0.0, MAX_PLAUSIBLE_KMH);
  }

  /** Every cycle keeps the invariant: among others, the filter output stays between 0 and 400 km/h. */
  lemma StepInv(s: State, now: int, reading: Option<real>)
    requires Inv(s)
    ensures Inv(Step(s, now, reading))
  {
    hide NextX, NextP;
    FilterKeepsInv(Decide(s, now, reading));
  }

  function SampleOf(s: State, now: int): Sample {
    Sample(if s.hasValid then s.last else 0.0, s.quality, now, s.x, Convergence(SERVICE, s.p))
  }

  // ---- One cycle in numbers ----

  /** Acceptance: from 0 to 400 km/h, and while a speed is held at most 15 km/h away from it. */
  lemma AcceptedExactly(s: State, reading: Option<real>)
    ensures Accepts(s, reading)
       <==> reading.Some? && 0.0 <= reading.value <= 400.0
            && (s.hasValid ==> s.last - 15.0 <= reading.value <= s.last + 15.0)
  {
  }

  /** What a cycle holds afterwards: the accepted reading, or the old one for up to 200 ms. */
  lemma HeldExactly(s: State, now: int, reading: Option<real>)
    requires s.p >= 0.0
    ensures var t := Step(s, now, reading);
            if Accepts(s, reading) then t.hasValid && t.last == reading.value && t.lastTime == now && t.quality == Valid
            else && t.last == s.last && t.lastTime == s.lastTime
                 && (t.hasValid <==> s.hasValid && now - s.lastTime <= 200 * 1_000_000)
                 && t.quality == if t.hasValid then Degraded else Invalid
  {
    hide NextX, NextP;
  }

  /** The newest speed frame of a cycle that carries the number n is held as n hundredths if it is accepted. */
  lemma FrameIsHeld(s: State, now: int, pending: seq<CanFrame>, k: nat, n: nat)
    requires s.p >= 0.0
    requires k < |pending| && k < 64 && pending[k].id == 0x123 && pending[k].dlc >= 2
    requires forall j :: k < j < |pending| && j < 64 ==> !(pending[j].id == 0x123 && pending[j].dlc >= 2)
    requires pending[k].data[0] as int == n % 256 && pending[k].data[1] as int == n / 256
    ensures Reading(pending) == Some(n as real / 100.0)
    ensures Accepts(s, Reading(pending)) ==> Step(s, now, Reading(pending)).last == n as real / 100.0
  {
    FrameReads(pending[k], n);
    NewestIsLast(pending[..Drained(pending)], k);
    HeldExactly(s, now, Reading(pending));
    hide Newest, Step, Accepts;
  }

  /**
    The filter in a cycle: it mixes its estimate with the held speed, or without one keeps the estimate. The first
    reading after start-up or a loss is taken over as it is, with the initial covariance.
   */
  lemma FilteredExactly(s: State, now: int, reading: Option<real>)
    requires Inv(s)
    ensures var t := Step(s, now, reading);
            var p := if Accepts(s, reading) && !s.hasValid then 100.0 else s.p;
            && t.p * (p + 5.0) == 4.0 * (p + 1.0)
            && (t.hasValid && s.hasValid ==> (t.x - t.last) * (p + 5.0) == 4.0 * (s.x - t.last))
            && (t.hasValid && !s.hasValid ==> t.x == t.last)
            && (!t.hasValid ==> t.x == s.x)
  {
    var d := Decide(s, now, reading);
    UpdateInNumbers(d.p, d.x, if d.hasValid then d.last else d.x);
    hide NextX, NextP, Excess;
  }

  lemma UpdateInNumbers(p: real, x: real, z: real)
    requires p >= 0.0
    ensures NextP(1.0, 4.0, p) * (p + 5.0) == 4.0 * (p + 1.0)
    ensures (NextX(1.0, 4.0, p, x, z) - z) * (p + 5.0) == 4.0 * (x - z)
    ensures x == z ==> NextX(1.0, 4.0, p, x, z) == z
  {
    Forms(1.0, 4.0, p);
    ErrorExactly(1.0, 4.0, p, x, z);
    hide NextX, NextP, Gain;
    Scaled(NextX(1.0, 4.0, p, x, z) - z, p + 5.0, x - z);
    Fraction(4.0 * (p + 1.0), p + 5.0);
  }

  lemma Scaled(e: real, d: real, f: real)
    requires d > 0.0 && e == 4.0 / d * f
    ensures e * d == 4.0 * f && (f == 0.0 ==> e == 0.0)
  {
    Fraction(4.0, d);
    assert 4.0 / d * f * d == 4.0 / d * d * f;
  }

  /** What is published: the held speed or zero, the quality, the time of the cycle, and the filter's two values. */
  lemma SampleExactly(s: State, now: int)
    requires Inv(s)
    ensures var m := SampleOf(s, now);
            && m.kmh == (if s.quality == Invalid then 0.0 else s.last) && m.quality == s.quality && m.time == now
            && m.filtered == s.x && (1.0 - m.convergence) * (100.0 - 0.8 + 0.000001) == s.p - 0.8
  {
    assert IdealP(1.0, 4.0) == 0.8;
    hide Excess, IdealP, Convergence;
    ConvergenceExactly(SERVICE, s.p);
  }

  class VehicleSpeedService {
    const kalman: KalmanFilter
    var quality: Quality
    var lastValidKmh: real
    var hasValid: bool
    var lastValidTime: int

    ghost function View(): State
      reads this, kalman
    {
      State(hasValid, lastValidKmh, lastValidTime, quality, kalman.x, kalman.p)
    }

    ghost predicate Valid()
      reads this, kalman
    {
      kalman.params == SERVICE && kalman.Valid() && Inv(View())
    }

    constructor ()
      ensures Valid() && View() == START && fresh(kalman)
    {
      kalman := new KalmanFilter(SERVICE);
      quality, lastValidKmh, hasValid, lastValidTime := Quality.Invalid, 0.0, false, 0;
    }

    /** The drain loop: at most 64 frames are taken, and the newest speed frame among them counts. */
    static method Drain(pending: seq<CanFrame>) returns (reading: Option<real>, left: seq<CanFrame>)
      ensures reading == Reading(pending)
      ensures left == pending[Drained(pending)..]
    {
      reading := None;
      var i := 0;
      while i < MAX_FRAMES_DRAINED && i < |pending|
        invariant 0 <= i <= Drained(pending)
        invariant reading == Newest(pending[..i])
      {
        var frame := pending[i];
        assert pending[..i + 1][..i] == pending[..i];
        i := i + 1;
        if !frame.IsSpeed() {
          continue;
        }
        reading := Some(Kmh(frame));
      }
      left := pending[i..];
    }

    predicate IsPlausible(kmh: real)
      reads this
    {
      if kmh < 0.0 || kmh > MAX_PLAUSIBLE_KMH then false
      else if hasValid && Abs(kmh - lastValidKmh) > MAX_JUMP_KMH then false
      else true
    }

    /** One cycle at the time now, with the frames pending on the bus. */
    method Cycle(now: int, pending: seq<CanFrame>) returns (sample: Sample, left: seq<CanFrame>)
      requires Valid()
      modifies this, kalman
      ensures Valid()
      ensures View() == Step(old(View()), now, Reading(pending))
      ensures sample == SampleOf(View(), now)
      ensures left == pending[Drained(pending)..]
    {
      var reading;
      reading, left := Drain(pending);
      ghost var before := View();
      StepInv(before, now, reading);
      if reading.Some? && IsPlausible(reading.value) {
        if !hasValid {
          kalman.Seed(reading.value);
        }
        lastValidKmh := reading.value;
        lastValidTime := now;
        hasValid := true;
        quality := Quality.Valid;
      } else {
        var sinceValid := now - lastValidTime;
        if hasValid && sinceValid <= SIGNAL_TIMEOUT {
          quality := Degraded;
        } else if hasValid {
          hasValid := false;
          quality := Invalid;
        } else {
          quality := Invalid;
        }
      }
      assert View() == Decide(before, now, reading);
      var filtered := kalman.Update(if hasValid then lastValidKmh else kalman.x);
      sample := Sample(if hasValid then lastValidKmh else 0.0, quality, now, filtered,
                       Convergence(kalman.params, kalman.p));
    }
  }

  // ---- Runs ----

  datatype Input = Input(now: int, pending: seq<CanFrame>)

  function Run(s: State, inputs: seq<Input>): (t: State)
    requires Inv(s)
    ensures Inv(t)
  {
    if inputs == [] then s
    else
      var last := inputs[|inputs| - 1];
      var before := Run(s, inputs[..|inputs| - 1]);
      StepInv(before, last.now, Reading(last.pending));
      Step(before, last.now, Reading(last.pending))
  }

  /** The reading of cycle k of a run that starts in s is accepted. */
  predicate AcceptsAt(s: State, inputs: seq<Input>, k: nat)
    requires Inv(s) && k < |inputs|
  {
    Accepts(Run(s, inputs[..k]), Reading(inputs[k].pending))
  }

  /** The quality that cycle k of a run leaves. */
  function QualityAt(s: State, inputs: seq<Input>, k: nat): Quality
    requires Inv(s) && k < |inputs|
  {
    Run(s, inputs[..k + 1]).quality
  }

  lemma RunNext(s: State, inputs: seq<Input>, k: nat)
    requires Inv(s) && k < |inputs|
    ensures Run(s, inputs[..k + 1]) == Step(Run(s, inputs[..k]), inputs[k].now, Reading(inputs[k].pending))
  {
    assert inputs[..k + 1][..k] == inputs[..k];
  }

  /** The state holds the reading of cycle k: accepted there, replaced by no later one, and never too old since. */
  predicate Holds(s: State, inputs: seq<Input>, k: nat)
    requires Inv(s) && k < |inputs|
  {
    && AcceptsAt(s, inputs, k)
    && forall j :: k < j < |inputs| ==> !AcceptsAt(s, inputs, j) && inputs[j].now - inputs[k].now <= SIGNAL_TIMEOUT
  }

  /**
    What the quality says about the run from start-up: Valid is an accepted reading in the last cycle, Degraded an
    earlier one that is still held and not older than the timeout, Invalid neither.
   */
  lemma {:induction false} QualityMeansHistory(inputs: seq<Input>)
    requires |inputs| > 0
    ensures var n := |inputs|; var t := Run(START, inputs);
            && (t.quality == Valid <==> AcceptsAt(START, inputs, n - 1))
            && (t.quality == Degraded <==> exists k :: 0 <= k < n - 1 && Holds(START, inputs, k))
            && (t.quality != Invalid <==> t.hasValid)
            && forall k :: 0 <= k < n && Holds(START, inputs, k) ==>
                 t.hasValid && t.lastTime == inputs[k].now && Reading(inputs[k].pending) == Some(t.last)
  {
    var n := |inputs|;
    var init := inputs[..n - 1];
    hide Inv, Step, Accepts, Holds;
    RunNext(START, inputs, n - 1);
    assert inputs[..n] == inputs;
    StepQuality(Run(START, init), inputs[n - 1].now, Reading(inputs[n - 1].pending));
    HoldsNext(START, inputs);
    if n > 1 {
      QualityMeansHistory(init);
    }
  }

  /** What one cycle does to quality, held value and its time. */
  lemma StepQuality(s: State, now: int, reading: Option<real>)
    requires Inv(s)
    ensures var t := Step(s, now, reading);
            && (t.quality == Valid <==> Accepts(s, reading))
            && (t.quality == Degraded <==> !Accepts(s, reading) && s.hasValid && now - s.lastTime <= SIGNAL_TIMEOUT)
            && (t.hasValid <==> t.quality != Invalid)
            && (if Accepts(s, reading) then reading == Some(t.last) && t.lastTime == now
                else t.last == s.last && t.lastTime == s.lastTime)
  {
    hide NextX, NextP;
  }

  /** A reading is held after one more cycle if it was held and is neither replaced nor too old. */
  lemma HoldsNext(s: State, inputs: seq<Input>)
    requires Inv(s) && |inputs| > 0
    ensures var n := |inputs|; var init := inputs[..n - 1];
            && (forall k :: 0 <= k < n - 1 ==> AcceptsAt(s, init, k) == AcceptsAt(s, inputs, k))
            && (Holds(s, inputs, n - 1) <==> AcceptsAt(s, inputs, n - 1))
            && forall k :: 0 <= k < n - 1 ==>
                 (Holds(s, inputs, k) <==> && Holds(s, init, k) && !AcceptsAt(s, inputs, n - 1)
                                           && inputs[n - 1].now - inputs[k].now <= SIGNAL_TIMEOUT)
  {
    hide Inv, Run, Accepts;
    var n := |inputs|;
    var init := inputs[..n - 1];
    forall k | 0 <= k < n - 1
      ensures AcceptsAt(s, init, k) == AcceptsAt(s, inputs, k)
    {
      assert init[..k] == inputs[..k];
    }
  }

  // ---- Jumps ----

  /** How many of the cycles from k + 1 up to m accept. */
  function Acceptances(s: State, inputs: seq<Input>, k: nat, m: nat): nat
    requires Inv(s) && k <= m < |inputs|
  {
    if k == m then 0
    else Acceptances(s, inputs, k, m - 1) + if AcceptsAt(s, inputs, m) then 1 else 0
  }

  function AllowedMove(n: nat): real {
    MAX_JUMP_KMH * n as real
  }

  /** While the signal is not lost, the held speed moves by at most 15 km/h for each accepted reading. */
  lemma {:induction false} JumpsBounded(s: State, inputs: seq<Input>, k: nat, m: nat)
    requires Inv(s) && k <= m < |inputs|
    requires forall j :: k <= j < m ==> QualityAt(s, inputs, j) != Invalid
    ensures Abs(Run(s, inputs[..m + 1]).last - Run(s, inputs[..k + 1]).last)
         <= AllowedMove(Acceptances(s, inputs, k, m))
  {
    hide Inv, Run, QualityAt, AcceptsAt, Abs, AllowedMove;
    if k == m {
      NoMove(Run(s, inputs[..k + 1]).last);
    } else {
      JumpsBounded(s, inputs, k, m - 1);
      CycleJump(s, inputs, m);
      JumpStep(Run(s, inputs[..m + 1]).last, Run(s, inputs[..m]).last, Run(s, inputs[..k + 1]).last,
               Acceptances(s, inputs, k, m - 1), AcceptsAt(s, inputs, m));
    }
  }

  lemma CycleJump(s: State, inputs: seq<Input>, m: nat)
    requires Inv(s) && 0 < m < |inputs| && QualityAt(s, inputs, m - 1) != Invalid
    ensures var before, after := Run(s, inputs[..m]), Run(s, inputs[..m + 1]);
            if AcceptsAt(s, inputs, m) then Abs(after.last - before.last) <= MAX_JUMP_KMH
            else after.last == before.last
  {
    hide Inv, Run, Step, Accepts, Abs;
    RunNext(s, inputs, m);
    StepJump(Run(s, inputs[..m]), inputs[m].now, Reading(inputs[m].pending));
  }

  lemma NoMove(a: real)
    ensures Abs(a - a) <= AllowedMove(0)
  {
  }

  lemma JumpStep(next: real, before: real, first: real, n: nat, accepted: bool)
    requires Abs(before - first) <= AllowedMove(n)
    requires if accepted then Abs(next - before) <= MAX_JUMP_KMH else next == before
    ensures Abs(next - first) <= AllowedMove(n + if accepted then 1 else 0)
  {
  }

  /** One cycle moves the held speed only when it accepts, and then by a bounded amount or from a lost signal. */
  lemma StepJump(s: State, now: int, reading: Option<real>)
    requires Inv(s)
    ensures var t := Step(s, now, reading);
            && (s.hasValid <==> s.quality != Invalid)
            && (!Accepts(s, reading) ==> t.last == s.last)
            && (Accepts(s, reading) ==> t.last == reading.value)
            && (Accepts(s, reading) && s.hasValid ==> Abs(t.last - s.last) <= MAX_JUMP_KMH)
  {
    hide NextX, NextP;
  }

  /** Between seeds the published convergence never falls, and it always lies in [0, 1). */
  lemma ConvergenceBetweenSeeds(s: State, now: int, reading: Option<real>)
    requires Inv(s)
    ensures var t := Step(s, now, reading);
            && (s.hasValid || !Accepts(s, reading) ==> Convergence(SERVICE, s.p) <= Convergence(SERVICE, t.p))
            && 0.0 <= Convergence(SERVICE, t.p) < 1.0
  {
    StepInv(s, now, reading);
    assert IdealP(1.0, 4.0) == 0.8;
    hide NextX, IdealP;
    var d := Decide(s, now, reading);
    var t := Step(s, now, reading);
    CovarianceBounds(1.0, 4.0, d.p);
    assert d.p > 0.0 by {
      if d.p == 0.0 {
        assert Excess(1.0, 4.0, d.p) < 0.0;
      }
    }
    hide NextP, Excess;
    ConvergenceOrder(SERVICE, t.p, t.p);
    ConvergenceRises(SERVICE, d.p);
  }

  // ---- Recovery ----

  /** Every cycle reads the same speed. */
  predicate Constant(inputs: seq<Input>, kmh: real) {
    forall k :: 0 <= k < |inputs| ==> Reading(inputs[k].pending) == Some(kmh)
  }

  predicate Monotone(inputs: seq<Input>) {
    forall j, k :: 0 <= j < k < |inputs| ==> inputs[j].now <= inputs[k].now
  }

  /** How many cycles come later than the timeout after the time t. */
  function Late(inputs: seq<Input>, t: int): nat {
    if inputs == [] then 0
    else Late(inputs[..|inputs| - 1], t) + if inputs[|inputs| - 1].now - t > SIGNAL_TIMEOUT then 1 else 0
  }

  lemma {:induction false} NoneLate(inputs: seq<Input>, t: int)
    requires Monotone(inputs) && |inputs| > 0 && inputs[|inputs| - 1].now - t <= SIGNAL_TIMEOUT
    ensures Late(inputs, t) == 0
  {
    var init := inputs[..|inputs| - 1];
    if init != [] {
      NoneLate(init, t);
    }
  }

  /**
    A constant speed in range makes the signal valid exactly when it is near the held speed, or nothing is held, or
    the second cycle later than the timeout has come. It is never rejected for longer.
   */
  lemma {:induction false} RecoversBySecondLateCycle(s: State, inputs: seq<Input>, kmh: real)
    requires Inv(s) && |inputs| > 0 && Monotone(inputs) && Constant(inputs, kmh)
    requires 0.0 <= kmh <= MAX_PLAUSIBLE_KMH
    ensures Run(s, inputs).quality == Valid
       <==> !s.hasValid || Abs(kmh - s.last) <= MAX_JUMP_KMH || Late(inputs, s.lastTime) >= 2
    ensures var t := Run(s, inputs);
            if t.quality == Valid then t.hasValid && t.last == kmh
            else t.lastTime == s.lastTime && t.last == s.last && (t.hasValid <==> Late(inputs, s.lastTime) == 0)
  {
    var n := |inputs|;
    var init, last := inputs[..n - 1], inputs[n - 1];
    hide NextX, NextP, Inv;
    assert inputs[..n] == inputs;
    RunNext(s, inputs, n - 1);
    if n > 1 {
      RecoversBySecondLateCycle(s, init, kmh);
      if last.now - s.lastTime <= SIGNAL_TIMEOUT {
        NoneLate(init, s.lastTime) by {
          assert init[n - 2].now <= last.now;
        }
      }
    } else {
      assert Run(s, init) == s;
    }
  }

  /** Once a constant speed is accepted, the filter output approaches it by the factor 4/5 in every cycle. */
  lemma {:induction false} FilterTracks(s: State, inputs: seq<Input>, kmh: real)
    requires Inv(s) && Constant(inputs, kmh) && s.quality == Valid && s.last == kmh
    ensures Run(s, inputs).quality == Valid && Run(s, inputs).last == kmh
    ensures Decayed(Abs(Run(s, inputs).x - kmh), Factor(SERVICE.q, SERVICE.r), |inputs|, Abs(s.x - kmh))
  {
    if |inputs| > 0 {
      var n := |inputs|;
      var init, last := inputs[..n - 1], inputs[n - 1];
      hide NextX, NextP, Excess, Factor, Decayed, Shrunk;
      FilterTracks(s, init, kmh);
      var t := Run(s, init);
      assert inputs[..n] == inputs;
      RunNext(s, inputs, n - 1);
      ErrorStep(SERVICE.q, SERVICE.r, t.p, t.x, kmh);
      Shrink(SERVICE.q, SERVICE.r, 0.0);
      ShrunkBy(Abs(Run(s, inputs).x - kmh), Factor(SERVICE.q, SERVICE.r), Abs(t.x - kmh));
      GeometricStep(Factor(SERVICE.q, SERVICE.r), Abs(Run(s, inputs).x - kmh), Abs(t.x - kmh), n - 1, Abs(s.x - kmh));
    }
  }

  lemma ShrunkBy(next: real, f: real, error: real)
    requires next <= f * error
    ensures Shrunk(next, f, error)
  {
  }
}
