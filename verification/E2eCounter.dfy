/** The receiver's sequence counter, for both profiles: counters modulo n over whole deliveries. */
module E2eCounter {
  import opened Numbers

  datatype Status = Ok | WrongCrc | WrongSequence | Repeated | NoNewData | Error

  /** What a receiver remembers: whether it has seen a frame, and the last counter it accepted. */
  datatype Receiver = Receiver(seen: bool, last: nat)

  /** The counter check for a frame whose CRC is right. */
  function Accept(n: nat, rx: Receiver, c: nat): (Status, Receiver)
    requires n > 0
  {
    if !rx.seen then (Ok, Receiver(true, c))
    else if c == rx.last then (Repeated, rx)
    else if c != (rx.last + 1) % n then (WrongSequence, rx)
    else (Ok, Receiver(true, c))
  }

  /** The receiver after frames with these counters. */
  function After(n: nat, rx: Receiver, counters: seq<nat>): Receiver
    requires n > 0
  {
    if counters == [] then rx
    else Accept(n, After(n, rx, counters[..|counters| - 1]), counters[|counters| - 1]).1
  }

  /** The status of the i-th delivered frame. */
  function StatusAt(n: nat, rx: Receiver, counters: seq<nat>, i: nat): Status
    requires n > 0 && i < |counters|
  {
    Accept(n, After(n, rx, counters[..i]), counters[i]).0
  }

  /** The counters of the sender's frames with these indices. */
  function Counters(n: nat, indices: seq<nat>): (c: seq<nat>)
    requires n > 0
    ensures |c| == |indices|
  {
    seq(|indices|, i requires 0 <= i < |indices| => indices[i] % n)
  }

  function Consecutive(first: nat, m: nat): (s: seq<nat>)
    ensures |s| == m
  {
    seq(m, i requires 0 <= i < m => first + i)
  }

  /** The status of the i-th frame delivered after g frames were lost. */
  function AfterGap(n: nat, g: nat, i: nat): Status
    requires n > 0
  {
    if g % n == 0 || i >= n - g % n then Ok
    else if i == n - g % n - 1 then Repeated
    else WrongSequence
  }

  /** The receiver's memory i frames after the gap; `last` is the index of the frame accepted before it. */
  lemma {:induction false} GapMemory(n: nat, last: nat, g: nat, i: nat)
    requires n >= 2
    ensures After(n, Receiver(true, last % n), Counters(n, Consecutive(last + 1 + g, i)))
         == Receiver(true, if i > 0 && (g % n == 0 || i > n - g % n) then (last + g + i) % n else last % n)
  {
    if i > 0 {
      var c := Counters(n, Consecutive(last + 1 + g, i));
      assert c[..i - 1] == Counters(n, Consecutive(last + 1 + g, i - 1));
      assert c[i - 1] == (last + g + i) % n;
      GapMemory(n, last, g, i - 1);
      GapStep(n, last, g, i - 1);
    }
  }

  lemma GapStep(n: nat, last: nat, g: nat, i: nat)
    requires n >= 2
    ensures var memory := if i > 0 && (g % n == 0 || i > n - g % n) then (last + g + i) % n else last % n;
            var c := (last + 1 + g + i) % n;
            && Accept(n, Receiver(true, memory), c).0 == AfterGap(n, g, i)
            && Accept(n, Receiver(true, memory), c).1
               == Receiver(true, if g % n == 0 || i + 1 > n - g % n then c else last % n)
  {
    if i > 0 && (g % n == 0 || i > n - g % n) {
      ModStep(n, last + g + i);
    } else {
      ResumeStep(n, last, g, g / n, g % n, i);
    }
  }

  /** The counters while the receiver still waits for its next frame. */
  lemma ResumeStep(n: nat, last: nat, g: nat, k: nat, d: nat, i: nat)
    requires n >= 2 && d < n && g == d + n * k && i <= n - d && (d == 0 ==> i == 0)
    ensures var c := (last + 1 + g + i) % n;
            && (c == last % n <==> d != 0 && i == n - d - 1)
            && (c == (last % n + 1) % n <==> d == 0 || i == n - d)
  {
    ModStep(n, last);
    DropMultiple(n, last + 1 + d + i, k);
    assert last + 1 + g + i == last + 1 + d + i + n * k;
    if d != 0 && i == n - d {
      DropMultiple(n, last + 1, 1);
    } else if d != 0 && i == n - d - 1 {
      DropMultiple(n, last, 1);
    } else if d != 0 {
      DifferentResidue(n, last, 1 + d + i);
      DifferentResidue(n, last + 1, d + i);
    }
  }

  lemma ModStep(n: nat, a: nat)
    requires n >= 2
    ensures (a % n + 1) % n == (a + 1) % n != a % n
  {
    ModSum(n, a, 1);
    DifferentResidue(n, a, 1);
  }

  /**
    After g lost frames and then lossless delivery: when n divides g every frame is accepted and the loss is
    not noticed; otherwise exactly n - g % n frames are rejected, the last of them as a repetition and the
    others as out of sequence, and from then on every frame is accepted.
   */
  lemma GapRecovery(n: nat, last: nat, g: nat, m: nat, i: nat)
    requires n >= 2 && i < m
    ensures StatusAt(n, Receiver(true, last % n), Counters(n, Consecutive(last + 1 + g, m)), i) == AfterGap(n, g, i)
  {
    var c := Counters(n, Consecutive(last + 1 + g, m));
    assert c[..i] == Counters(n, Consecutive(last + 1 + g, i));
    GapMemory(n, last, g, i);
    GapStep(n, last, g, i);
  }

  /** Lossless in-order delivery from the first frame on: every frame is accepted, across every wrap. */
  lemma LosslessAccepted(n: nat, start: nat, m: nat, i: nat, rx: Receiver)
    requires n >= 2 && i < m && !rx.seen
    ensures StatusAt(n, rx, Counters(n, Consecutive(start, m)), i) == Ok
  {
    if i > 0 {
      var c := Counters(n, Consecutive(start, m));
      assert c[..i] == Counters(n, Consecutive(start, i));
      assert c[i] == (start + i) % n;
      hide Counters, After;
      LosslessMemory(n, start, i, rx);
      ModStep(n, start + i - 1);
    }
  }

  lemma LosslessMemory(n: nat, start: nat, i: nat, rx: Receiver)
    requires n >= 2 && i > 0 && !rx.seen
    ensures After(n, rx, Counters(n, Consecutive(start, i))) == Receiver(true, (start + i - 1) % n)
  {
    hide After, Counters;
    FirstFrame(n, start, i, rx);
    GapMemory(n, start, 0, i - 1);
  }

  lemma {:induction false} FirstFrame(n: nat, start: nat, m: nat, rx: Receiver)
    requires n >= 2 && m > 0 && !rx.seen
    ensures After(n, rx, Counters(n, Consecutive(start, m)))
         == After(n, Receiver(true, start % n), Counters(n, Consecutive(start + 1, m - 1)))
  {
    var c := Counters(n, Consecutive(start, m));
    var d := Counters(n, Consecutive(start + 1, m - 1));
    assert c[..m - 1] == Counters(n, Consecutive(start, m - 1));
    if m > 1 {
      assert d[..m - 2] == Counters(n, Consecutive(start + 1, m - 2));
      assert c[m - 1] == d[m - 2];
      FirstFrame(n, start, m - 1, rx);
    } else {
      assert c[..0] == [];
    }
  }

  /** Between two accepted frames with none accepted in between, the memory is the first one's counter. */
  lemma {:induction false} MemoryBetween(n: nat, rx: Receiver, c: seq<nat>, i: nat, j: nat)
    requires n > 0 && i < j <= |c|
    requires StatusAt(n, rx, c, i) == Ok
    requires forall k :: i < k < j ==> StatusAt(n, rx, c, k) != Ok
    ensures After(n, rx, c[..j]) == Receiver(true, c[i])
  {
    assert c[..j][..j - 1] == c[..j - 1];
    if j > i + 1 {
      MemoryBetween(n, rx, c, i, j - 1);
      assert StatusAt(n, rx, c, j - 1) != Ok;
    }
  }

  /**
    Whatever the channel loses, repeats or reorders: the sender indices of two frames accepted one after the
    other differ by 1 modulo n. If the channel keeps the order and fewer than n frames went missing in
    between, the second is the sender's very next frame.
   */
  lemma AcceptedSuccessor(n: nat, rx: Receiver, indices: seq<nat>, i: nat, j: nat)
    requires n >= 2 && i < j < |indices|
    requires var c := Counters(n, indices);
             StatusAt(n, rx, c, i) == Ok && StatusAt(n, rx, c, j) == Ok
             && forall k :: i < k < j ==> StatusAt(n, rx, c, k) != Ok
    ensures indices[j] % n == (indices[i] + 1) % n
    ensures indices[i] <= indices[j] <= indices[i] + n ==> indices[j] == indices[i] + 1
  {
    var c := Counters(n, indices);
    MemoryBetween(n, rx, c, i, j);
    ModStep(n, indices[i]);
    if indices[i] + 1 < indices[j] <= indices[i] + n {
      DifferentResidue(n, indices[i] + 1, indices[j] - indices[i] - 1);
    }
  }

  /** How many of the first m frames after a gap are rejected. */
  function RejectedAfterGap(n: nat, g: nat, m: nat): nat
    requires n > 0
  {
    if m == 0 then 0 else RejectedAfterGap(n, g, m - 1) + if AfterGap(n, g, m - 1) == Ok then 0 else 1
  }

  lemma {:induction false} RejectedCount(n: nat, g: nat, m: nat)
    requires n > 0
    ensures RejectedAfterGap(n, g, m) == if g % n == 0 then 0 else if m < n - g % n then m else n - g % n
  {
    if m > 0 {
      RejectedCount(n, g, m - 1);
    }
  }
}
