/**
  The ring buffer under two threads: every atomic load, slot access and store of `push`, `pop` and `clear` is
  a step of its own, and the steps of the producer and of the consumer interleave in any way. A load of the
  other thread's index may return an old value: any one stored since the value this thread saw last, which is
  the read-read coherence of a single atomic variable.
 */
module SpscProtocol {
  import opened Numbers
  import opened RingBuffer

  /** Where the producer is inside `push`. */
  datatype Producer<T> =
    | OutsidePush
    | Pushing(item: T, wp: nat)      // its own index loaded
    | Permitted(item: T, wp: nat)    // the full test passed
    | Written(item: T, wp: nat)      // the slot written, not yet published

  /** Where the consumer is inside `pop` or `clear`. */
  datatype Consumer<T> =
    | OutsidePop
    | Popping(rp: nat)               // its own index loaded
    | Available(rp: nat)             // the empty test passed
    | Taken(rp: nat, item: T)        // the slot read, not yet released
    | Clearing(wp: nat)              // in `clear`: the write index loaded

  /** What became of a pushed item on the consumer's side. */
  datatype Fate<T> = Popped(item: T) | Discarded(item: T)

  datatype State<T> = State(
    buffer: seq<T>,
    writePositions: seq<nat>, // the values write_pos_ has held, oldest first
    readPositions: seq<nat>, // the values read_pos_ has held, oldest first
    sawRead: nat,            // which of `readPositions` the producer saw last
    sawWrite: nat,           // which of `writePositions` the consumer saw last
    producer: Producer<T>,
    consumer: Consumer<T>,
    pushed: seq<T>,          // history: the items of completed pushes
    retired: seq<Fate<T>>,   // history: what the consumer did with them
    totals: seq<nat>         // history: how many items were retired at each of `readPositions`
  )

  datatype Step<T> =
    | StartPush(item: T)
    | LoadReadPos(seen: nat)
    | WriteSlot
    | StoreWritePos
    | StartPop
    | LoadWritePos(seen: nat)
    | ReadSlot
    | StoreReadPos
    | StartClear(seen: nat)
    | StoreCleared
    | ProducerLooks(seen: nat)    // the producer calls empty, full or size between two pushes
    | ConsumerLooks(seen: nat)    // the consumer does so between two pops

  function Last<A>(s: seq<A>): A
    requires s != []
  {
    s[|s| - 1]
  }

  function Initial<T>(buffer: seq<T>): State<T> {
    State(buffer, [0], [0], 0, 0, OutsidePush, OutsidePop, [], [], [0])
  }

  /** Shape conditions that make every step well defined. */
  ghost predicate Shape<T>(s: State<T>) {
    && |s.buffer| > 0 && s.writePositions != [] && s.readPositions != [] && |s.totals| == |s.readPositions|
    && s.sawRead < |s.readPositions| && s.sawWrite < |s.writePositions|
    && (forall i :: 0 <= i < |s.writePositions| ==> s.writePositions[i] < |s.buffer|)
    && (forall i :: 0 <= i < |s.readPositions| ==> s.readPositions[i] < |s.buffer|)
    && (!s.producer.OutsidePush? ==> s.producer.wp < |s.buffer|)
    && (s.consumer.Popping? || s.consumer.Available? || s.consumer.Taken? ==> s.consumer.rp < |s.buffer|)
    && (s.consumer.Clearing? ==> s.consumer.wp < |s.buffer|)
  }

  /** Which steps the program text and the coherence of the index loads allow. */
  ghost predicate Enabled<T>(s: State<T>, step: Step<T>)
    requires Shape(s)
  {
    match step
    case StartPush(_) => s.producer.OutsidePush?
    case LoadReadPos(seen) => s.producer.Pushing? && s.sawRead <= seen < |s.readPositions|
    case WriteSlot => s.producer.Permitted?
    case StoreWritePos => s.producer.Written?
    case StartPop => s.consumer.OutsidePop?
    case LoadWritePos(seen) => s.consumer.Popping? && s.sawWrite <= seen < |s.writePositions|
    case ReadSlot => s.consumer.Available?
    case StoreReadPos => s.consumer.Taken?
    case StartClear(seen) => s.consumer.OutsidePop? && s.sawWrite <= seen < |s.writePositions|
    case StoreCleared => s.consumer.Clearing?
    case ProducerLooks(seen) => s.producer.OutsidePush? && s.sawRead <= seen < |s.readPositions|
    case ConsumerLooks(seen) => s.consumer.OutsidePop? && s.sawWrite <= seen < |s.writePositions|
  }

  /** The n items stored from item r on, as the memory holds them. */
  function Window<T>(buffer: seq<T>, r: nat, n: nat): (w: seq<T>)
    requires |buffer| > 0
    ensures |w| == n
  {
    seq(n, i requires 0 <= i < n => buffer[Slot(r + i, |buffer|)])
  }

  function Discard<T>(items: seq<T>): (f: seq<Fate<T>>)
    ensures |f| == |items|
  {
    seq(|items|, i requires 0 <= i < |items| => Discarded(items[i]))
  }

  ghost function Apply<T>(s: State<T>, step: Step<T>): State<T>
    requires Shape(s) && Enabled(s, step)
  {
    var c := |s.buffer|;
    match step
    case StartPush(item) =>
      s.(producer := Pushing(item, Last(s.writePositions)))
    case LoadReadPos(seen) =>
      var p := s.producer;
      s.(sawRead := seen,
         producer := if Advance(p.wp, c) == s.readPositions[seen] then OutsidePush else Permitted(p.item, p.wp))
    case WriteSlot =>
      s.(buffer := s.buffer[s.producer.wp := s.producer.item], producer := Written(s.producer.item, s.producer.wp))
    case StoreWritePos =>
      s.(writePositions := s.writePositions + [Advance(s.producer.wp, c)], producer := OutsidePush,
         pushed := s.pushed + [s.producer.item])
    case StartPop =>
      s.(consumer := Popping(Last(s.readPositions)))
    case LoadWritePos(seen) =>
      s.(sawWrite := seen,
         consumer := if s.consumer.rp == s.writePositions[seen] then OutsidePop else Available(s.consumer.rp))
    case ReadSlot =>
      s.(consumer := Taken(s.consumer.rp, s.buffer[s.consumer.rp]))
    case StoreReadPos =>
      s.(readPositions := s.readPositions + [Advance(s.consumer.rp, c)], consumer := OutsidePop,
         retired := s.retired + [Popped(s.consumer.item)], totals := s.totals + [|s.retired| + 1])
    case StartClear(seen) =>
      s.(sawWrite := seen, consumer := Clearing(s.writePositions[seen]))
    case StoreCleared =>
      var n := Distance(s.consumer.wp, Last(s.readPositions), c);
      s.(readPositions := s.readPositions + [s.consumer.wp], consumer := OutsidePop,
         retired := s.retired + Discard(Window(s.buffer, |s.retired|, n)), totals := s.totals + [|s.retired| + n])
    case ProducerLooks(seen) => s.(sawRead := seen)
    case ConsumerLooks(seen) => s.(sawWrite := seen)
  }

  /** The invariant of the protocol. */
  ghost predicate Inv<T>(s: State<T>) {
    var c, w, r := |s.buffer|, |s.pushed|, |s.retired|;
    && Shape(s) && PowerOfTwo(c) && c <= TWO_64
    && |s.writePositions| == w + 1
    && (forall i :: 0 <= i <= w ==> s.writePositions[i] == Slot(i, c))
    && (forall i :: 0 <= i < |s.readPositions| ==> s.readPositions[i] == Slot(s.totals[i], c))
    && (forall i, j :: 0 <= i <= j < |s.totals| ==> s.totals[i] <= s.totals[j])
    && Last(s.totals) == r
    && r <= s.sawWrite
    && w < s.totals[s.sawRead] + c
    && (forall k :: 0 <= k < r ==> s.retired[k].item == s.pushed[k])
    && (forall k :: r <= k < w ==> s.buffer[Slot(k, c)] == s.pushed[k])
    && ProducerInv(s) && ConsumerInv(s)
  }

  ghost predicate ProducerInv<T>(s: State<T>)
    requires Shape(s)
  {
    var c, w := |s.buffer|, |s.pushed|;
    match s.producer
    case OutsidePush => true
    case Pushing(_, wp) => wp == Slot(w, c)
    case Permitted(_, wp) => wp == Slot(w, c) && w + 1 < s.totals[s.sawRead] + c
    case Written(item, wp) => wp == Slot(w, c) && w + 1 < s.totals[s.sawRead] + c && s.buffer[wp] == item
  }

  ghost predicate ConsumerInv<T>(s: State<T>)
    requires Shape(s)
  {
    var c, r := |s.buffer|, |s.retired|;
    match s.consumer
    case OutsidePop => true
    case Popping(rp) => rp == Slot(r, c)
    case Available(rp) => rp == Slot(r, c) && r < s.sawWrite
    case Taken(rp, item) => rp == Slot(r, c) && r < s.sawWrite <= |s.pushed| && item == s.pushed[r]
    case Clearing(wp) => wp == Slot(s.sawWrite, c)
  }

  lemma InitialInv<T>(buffer: seq<T>)
    requires PowerOfTwo(|buffer|) && |buffer| <= TWO_64
    ensures Inv(Initial(buffer))
  {
    DivModUnique(0, |buffer|, 0, 0);
  }

  /** The bounds both threads live by. */
  lemma Bounds<T>(s: State<T>)
    requires Inv(s)
    ensures s.totals[s.sawRead] <= |s.retired| <= s.sawWrite <= |s.pushed| < s.totals[s.sawRead] + |s.buffer|
  {
    assert s.totals[s.sawRead] <= s.totals[|s.totals| - 1];
  }

  lemma ProducerStep<T>(s: State<T>, step: Step<T>)
    requires Inv(s) && Enabled(s, step)
    requires step.StartPush? || step.LoadReadPos? || step.WriteSlot? || step.StoreWritePos?
    ensures Inv(Apply(s, step))
  {
    hide PowerOfTwo, Advance, Slot, Distance;
    var c, w, r := |s.buffer|, |s.pushed|, |s.retired|;
    Bounds(s);
    match step
    case StartPush(item) =>
    case LoadReadPos(seen) =>
      assert s.totals[s.sawRead] <= s.totals[seen] <= r;
      PositionTests(s.totals[seen], w, c);
    case WriteSlot =>
      forall k | r <= k < w
        ensures Slot(k, c) != s.producer.wp
      {
        SlotsApart(k, w, c);
      }
    case StoreWritePos =>
      AdvanceSlot(w, c);
  }

  lemma PopStep<T>(s: State<T>, step: Step<T>)
    requires Inv(s) && Enabled(s, step)
    requires step.StartPop? || step.LoadWritePos? || step.ReadSlot? || step.StoreReadPos?
    ensures Inv(Apply(s, step))
  {
    hide PowerOfTwo, Advance, Slot, Distance;
    var c, w, r := |s.buffer|, |s.pushed|, |s.retired|;
    Bounds(s);
    match step
    case StartPop =>
    case LoadWritePos(seen) =>
      PositionTests(r, seen, c);
    case ReadSlot =>
    case StoreReadPos =>
      AdvanceSlot(r, c);
  }

  lemma ClearStep<T>(s: State<T>, step: Step<T>)
    requires Inv(s) && Enabled(s, step)
    requires step.StartClear? || step.StoreCleared?
    ensures Inv(Apply(s, step))
  {
    hide PowerOfTwo, Advance, Slot, Distance;
    Bounds(s);
    if step.StoreCleared? {
      DistanceIsLength(|s.retired|, s.sawWrite, |s.buffer|);
    }
  }

  lemma LookStep<T>(s: State<T>, step: Step<T>)
    requires Inv(s) && Enabled(s, step)
    requires step.ProducerLooks? || step.ConsumerLooks?
    ensures Inv(Apply(s, step))
  {
    hide PowerOfTwo, Slot;
    Bounds(s);
    if step.ProducerLooks? {
      assert s.totals[s.sawRead] <= s.totals[step.seen];
    }
  }

  lemma StepInv<T>(s: State<T>, step: Step<T>)
    requires Inv(s) && Enabled(s, step)
    ensures Inv(Apply(s, step))
  {
    if step.StartPush? || step.LoadReadPos? || step.WriteSlot? || step.StoreWritePos? {
      ProducerStep(s, step);
    } else if step.StartClear? || step.StoreCleared? {
      ClearStep(s, step);
    } else if step.ProducerLooks? || step.ConsumerLooks? {
      LookStep(s, step);
    } else {
      PopStep(s, step);
    }
  }

  // ---- Runs ----

  /** A run: each step is allowed in the state the steps before it lead to. */
  ghost predicate Run<T>(s: State<T>, steps: seq<Step<T>>, t: State<T>)
    decreases |steps|
  {
    if steps == [] then s == t
    else Shape(s) && Enabled(s, steps[0]) && Run(Apply(s, steps[0]), steps[1..], t)
  }

  lemma {:induction false} RunInv<T>(s: State<T>, steps: seq<Step<T>>, t: State<T>)
    requires Inv(s) && Run(s, steps, t)
    ensures Inv(t)
    decreases |steps|
  {
    hide Inv, Apply, Enabled;
    if steps != [] {
      StepInv(s, steps[0]);
      RunInv(Apply(s, steps[0]), steps[1..], t);
    }
  }

  function Items<T>(fates: seq<Fate<T>>): (items: seq<T>)
    ensures |items| == |fates|
  {
    seq(|fates|, i requires 0 <= i < |fates| => fates[i].item)
  }

  /** The items in the memory between the two published positions, oldest first. */
  function Stored<T>(s: State<T>): seq<T>
    requires |s.buffer| > 0 && s.writePositions != [] && s.readPositions != []
  {
    var rp := Last(s.readPositions);
    Window(s.buffer, rp, Distance(Last(s.writePositions), rp, |s.buffer|))
  }

  /** The slot the producer is about to write. */
  function WriteTarget<T>(s: State<T>): set<nat> {
    if s.producer.Permitted? then {s.producer.wp} else {}
  }

  /** The slots the consumer has yet to read: those of stored items, and the one it is about to read. */
  function Unread<T>(s: State<T>): set<nat>
    requires |s.buffer| > 0
  {
    (set k: nat | |s.retired| <= k < |s.pushed| :: Slot(k, |s.buffer|))
    + (if s.consumer.Available? then {s.consumer.rp} else {})
  }

  lemma StoredItems<T>(s: State<T>)
    requires Inv(s)
    ensures Stored(s) == s.pushed[|s.retired|..]
    ensures |Stored(s)| < |s.buffer|
  {
    Bounds(s);
    hide PowerOfTwo, Distance, Slot, ProducerInv, ConsumerInv;
    var c, w, r := |s.buffer|, |s.pushed|, |s.retired|;
    DistanceIsLength(r, w, c);
    forall i | 0 <= i < w - r
      ensures Stored(s)[i] == s.pushed[r + i]
    {
      SlotFromSlot(r, i, c);
      assert s.buffer[Slot(r + i, c)] == s.pushed[r + i];
    }
  }

  lemma NoRace<T>(s: State<T>)
    requires Inv(s)
    ensures WriteTarget(s) !! Unread(s)
  {
    hide PowerOfTwo, Slot;
    Bounds(s);
    if s.producer.Permitted? {
      var c, w := |s.buffer|, |s.pushed|;
      forall k | |s.retired| <= k < w
        ensures Slot(k, c) != s.producer.wp
      {
        SlotsApart(k, w, c);
      }
    }
  }

  /**
    In every state of every run: the items retired so far, in order, followed by the items in memory between
    the published positions are exactly the items pushed; at most capacity - 1 are stored; and the slot about
    to be written is not one that is still to be read.
   */
  lemma FifoUnderInterleaving<T>(buffer: seq<T>, steps: seq<Step<T>>, s: State<T>)
    requires PowerOfTwo(|buffer|) && |buffer| <= TWO_64
    requires Run(Initial(buffer), steps, s)
    ensures Shape(s)
    ensures Items(s.retired) + Stored(s) == s.pushed
    ensures |Stored(s)| < |s.buffer|
    ensures WriteTarget(s) !! Unread(s)
  {
    InitialInv(buffer);
    RunInv(Initial(buffer), steps, s);
    StoredItems(s);
    NoRace(s);
    Bounds(s);
    hide Stored, WriteTarget, Unread, ProducerInv, ConsumerInv, PowerOfTwo;
    assert Items(s.retired) == s.pushed[..|s.retired|];
  }

  // ---- What the answers mean ----

  /** A push answers "full" only after reading an index at which capacity - 1 items were stored. */
  lemma FullAnswer<T>(s: State<T>, seen: nat)
    requires Inv(s) && Enabled(s, LoadReadPos(seen))
    ensures Apply(s, LoadReadPos(seen)).producer.OutsidePush? <==> |s.pushed| - s.totals[seen] == |s.buffer| - 1
    ensures seen == |s.readPositions| - 1 ==> s.totals[seen] == |s.retired|
  {
    hide PowerOfTwo, Advance, Slot;
    Bounds(s);
    assert s.totals[s.sawRead] <= s.totals[seen] <= Last(s.totals);
    PositionTests(s.totals[seen], |s.pushed|, |s.buffer|);
  }

  /** A pop answers "empty" only after reading an index up to which everything was retired. */
  lemma EmptyAnswer<T>(s: State<T>, seen: nat)
    requires Inv(s) && Enabled(s, LoadWritePos(seen))
    ensures Apply(s, LoadWritePos(seen)).consumer.OutsidePop? <==> seen == |s.retired|
    ensures seen == |s.writePositions| - 1 ==> seen == |s.pushed|
  {
    hide PowerOfTwo, Advance, Slot;
    Bounds(s);
    PositionTests(|s.retired|, seen, |s.buffer|);
  }

  /** What a clear discards is a beginning of what is stored at that moment, and nothing else changes. */
  lemma ClearDiscardsPrefix<T>(s: State<T>)
    requires Inv(s) && Enabled(s, StoreCleared)
    ensures var t := Apply(s, StoreCleared);
            && t.pushed == s.pushed && t.buffer == s.buffer && t.producer == s.producer
            && |s.retired| <= |t.retired| == s.sawWrite <= |s.pushed|
            && t.retired == s.retired + Discard(s.pushed[|s.retired|..|t.retired|])
  {
    hide PowerOfTwo, Slot, Distance, Advance;
    Bounds(s);
    DistanceIsLength(|s.retired|, s.sawWrite, |s.buffer|);
    assert Window(s.buffer, |s.retired|, s.sawWrite - |s.retired|) == s.pushed[|s.retired|..s.sawWrite];
  }

  /** A pop that completes retires the oldest item not yet retired, as popped, and nothing else. */
  lemma PopRetiresOldest<T>(s: State<T>)
    requires Inv(s) && Enabled(s, StoreReadPos)
    ensures var t := Apply(s, StoreReadPos);
            && |s.retired| < |s.pushed| && t.retired == s.retired + [Popped(s.pushed[|s.retired|])]
            && t.pushed == s.pushed && t.buffer == s.buffer && t.producer == s.producer
  {
    hide PowerOfTwo, Slot, Distance, Advance;
    Bounds(s);
  }

  /** A push that completes adds its item behind all others, and nothing else. */
  lemma PushAppends<T>(s: State<T>)
    requires Inv(s) && Enabled(s, StoreWritePos)
    ensures var t := Apply(s, StoreWritePos);
            t.pushed == s.pushed + [s.producer.item] && t.retired == s.retired && t.buffer == s.buffer
  {
    hide PowerOfTwo, Slot, Distance, Advance;
  }

  // ---- What one thread learns from empty, full and size ----

  /**
    The consumer reads its own index and one of the other thread's: it finds the buffer empty exactly when all
    items it can see are retired, and counts no more than what is stored.
   */
  lemma ConsumerSees<T>(s: State<T>, seen: nat)
    requires Inv(s) && Enabled(s, ConsumerLooks(seen))
    ensures var rp, wp, c := Last(s.readPositions), s.writePositions[seen], |s.buffer|;
            && (rp == wp <==> seen == |s.retired|)
            && (Advance(wp, c) == rp <==> seen - |s.retired| == c - 1)
            && Distance(wp, rp, c) == seen - |s.retired| <= |Stored(s)|
  {
    hide PowerOfTwo, Advance, Slot, Distance, Stored;
    Bounds(s);
    PositionTests(|s.retired|, seen, |s.buffer|);
    DistanceIsLength(|s.retired|, seen, |s.buffer|);
    StoredItems(s);
  }

  /** The producer counts no fewer than what is stored, and finds the buffer full exactly at a count of capacity - 1. */
  lemma ProducerSees<T>(s: State<T>, seen: nat)
    requires Inv(s) && Enabled(s, ProducerLooks(seen))
    ensures var wp, rp, c, n := Last(s.writePositions), s.readPositions[seen], |s.buffer|, |s.pushed| - s.totals[seen];
            && (rp == wp <==> n == 0)
            && (Advance(wp, c) == rp <==> n == c - 1)
            && Distance(wp, rp, c) == n >= |Stored(s)|
  {
    hide PowerOfTwo, Advance, Slot, Distance, Stored;
    Bounds(s);
    assert s.totals[s.sawRead] <= s.totals[seen] <= Last(s.totals);
    PositionTests(s.totals[seen], |s.pushed|, |s.buffer|);
    DistanceIsLength(s.totals[seen], |s.pushed|, |s.buffer|);
    StoredItems(s);
  }

  /** No step of these retires an item. */
  predicate KeepsItems<T>(steps: seq<Step<T>>) {
    forall i :: 0 <= i < |steps| ==> !steps[i].StoreReadPos? && !steps[i].StoreCleared?
  }

  predicate PublishesNothing<T>(steps: seq<Step<T>>) {
    forall i :: 0 <= i < |steps| ==> !steps[i].StoreWritePos?
  }

  lemma StepKnowledge<T>(s: State<T>, step: Step<T>)
    requires Inv(s) && Enabled(s, step)
    ensures var t := Apply(s, step);
            && s.sawWrite <= t.sawWrite
            && (!step.StoreReadPos? && !step.StoreCleared? ==> t.retired == s.retired)
            && (!step.StoreWritePos? ==> t.pushed == s.pushed)
            && Inv(t) && s.totals[s.sawRead] <= t.totals[t.sawRead]
  {
    StepInv(s, step);
    hide Slot, Advance, Distance, PowerOfTwo, Window, Discard, ProducerInv, ConsumerInv;
  }

  lemma {:induction false} RunKnowledge<T>(s: State<T>, steps: seq<Step<T>>, t: State<T>)
    requires Inv(s) && Run(s, steps, t)
    ensures Inv(t) && s.sawWrite <= t.sawWrite && s.totals[s.sawRead] <= t.totals[t.sawRead]
    ensures KeepsItems(steps) ==> t.retired == s.retired
    ensures PublishesNothing(steps) ==> t.pushed == s.pushed
    decreases |steps|
  {
    if steps != [] {
      hide Inv, Apply, Enabled;
      StepKnowledge(s, steps[0]);
      RunKnowledge(Apply(s, steps[0]), steps[1..], t);
    }
  }

  /** A consumer that saw the buffer non-empty, and has retired nothing since, pops successfully, whatever it reads. */
  lemma NonEmptyMeansPop<T>(s: State<T>, seen: nat, steps: seq<Step<T>>, t: State<T>, later: nat)
    requires Inv(s) && Enabled(s, ConsumerLooks(seen)) && Last(s.readPositions) != s.writePositions[seen]
    requires Run(Apply(s, ConsumerLooks(seen)), steps, t) && KeepsItems(steps)
    requires Inv(t) && Enabled(t, LoadWritePos(later))
    ensures Apply(t, LoadWritePos(later)).consumer.Available?
  {
    hide Slot, Advance, Distance, PowerOfTwo;
    ConsumerSees(s, seen);
    StepInv(s, ConsumerLooks(seen));
    RunKnowledge(Apply(s, ConsumerLooks(seen)), steps, t);
    EmptyAnswer(t, later);
  }

  /** A producer that saw the buffer non-full, and has pushed nothing since, pushes successfully, whatever it reads. */
  lemma NonFullMeansPush<T>(s: State<T>, seen: nat, steps: seq<Step<T>>, t: State<T>, later: nat)
    requires Inv(s) && Enabled(s, ProducerLooks(seen))
    requires Advance(Last(s.writePositions), |s.buffer|) != s.readPositions[seen]
    requires Run(Apply(s, ProducerLooks(seen)), steps, t) && PublishesNothing(steps)
    requires Inv(t) && Enabled(t, LoadReadPos(later))
    ensures Apply(t, LoadReadPos(later)).producer.Permitted?
  {
    hide Slot, Advance, Distance, PowerOfTwo;
    ProducerSees(s, seen);
    StepInv(s, ProducerLooks(seen));
    RunKnowledge(Apply(s, ProducerLooks(seen)), steps, t);
    SameBuffer(Apply(s, ProducerLooks(seen)), steps, t);
    FullAnswer(t, later);
    assert t.totals[t.sawRead] <= t.totals[later];
  }

  lemma {:induction false} SameBuffer<T>(s: State<T>, steps: seq<Step<T>>, t: State<T>)
    requires Inv(s) && Run(s, steps, t)
    ensures |t.buffer| == |s.buffer|
    decreases |steps|
  {
    if steps != [] {
      hide Inv, Enabled, Window, Discard;
      StepInv(s, steps[0]);
      SameBuffer(Apply(s, steps[0]), steps[1..], t);
    }
  }
}
