/**
  Whole deliveries over a channel that loses, repeats and reorders frames, damages payloads by bursts of up to
  eight bits, and delivers frames meant for other Data IDs.
 */
module E2eChannel {
  import opened Crc8
  import opened E2eCounter
  import opened E2eProtection

  datatype Profile = Profile1 | Profile2 {
    function Modulus(): (n: nat)
      ensures n >= 2
    {
      if Profile1? then 16 else 256
    }
  }

  /** What arrives: a sender's k-th frame as it was sent, with a damaged payload, or protected under another Data ID. */
  datatype Arrival =
    | Genuine(k: nat, payload: seq<bv8>)
    | Damaged(k: nat, sent: seq<bv8>, received: seq<bv8>)
    | Misrouted(other: bv16, k: nat, payload: seq<bv8>)

  /** Damage is a burst, and the other Data ID is one the profile tells apart from the receiver's. */
  ghost predicate Detectable(p: Profile, id: bv16, a: Arrival) {
    match a
    case Genuine(_, _) => true
    case Damaged(_, sent, received) => BurstError(sent, received)
    case Misrouted(other, _, _) =>
      !(SameIdCrc(other, id) && (p.Profile1? || IdNibble(other) == IdNibble(id)))
  }

  /** What the receiver answers to an arrival, and what it remembers afterwards. */
  function Answer(p: Profile, rx: Receiver, id: bv16, a: Arrival): (Status, Receiver) {
    match p
    case Profile1 =>
      (match a
       case Genuine(k, payload) => Check1(rx, id, payload, Protect1(id, k, payload))
       case Damaged(k, sent, received) => Check1(rx, id, received, Protect1(id, k, sent))
       case Misrouted(other, k, payload) => Check1(rx, id, payload, Protect1(other, k, payload)))
    case Profile2 =>
      (match a
       case Genuine(k, payload) => Check2(rx, id, payload, Protect2(id, k, payload))
       case Damaged(k, sent, received) => Check2(rx, id, received, Protect2(id, k, sent))
       case Misrouted(other, k, payload) => Check2(rx, id, payload, Protect2(other, k, payload)))
  }

  lemma AnswerExactly(p: Profile, rx: Receiver, id: bv16, a: Arrival)
    requires Detectable(p, id, a)
    ensures Answer(p, rx, id, a) == if a.Genuine? then Accept(p.Modulus(), rx, a.k % p.Modulus()) else (WrongCrc, rx)
  {
    hide Check1, Check2, Protect1, Protect2, SameIdCrc, IdNibble, BurstError, Accept;
    match a
    case Genuine(k, payload) =>
      GenuineFrame1(rx, id, k, payload);
      GenuineFrame2(rx, id, k, payload);
    case Damaged(k, sent, received) =>
      BurstRejected1(rx, id, k, sent, received);
      PayloadBurstRejected2(rx, id, k, sent, received);
    case Misrouted(other, k, payload) =>
      WrongId1(rx, other, id, k, payload);
      WrongId2(rx, other, id, k, payload);
  }

  /** The receiver after a delivery. */
  function Delivered(p: Profile, rx: Receiver, id: bv16, arrivals: seq<Arrival>): Receiver {
    if arrivals == [] then rx
    else Answer(p, Delivered(p, rx, id, arrivals[..|arrivals| - 1]), id, arrivals[|arrivals| - 1]).1
  }

  /** The sender indices of the frames that arrived as they were sent. */
  function GenuineIndices(arrivals: seq<Arrival>): (ks: seq<nat>)
    ensures |ks| <= |arrivals|
  {
    if arrivals == [] then []
    else
      var last := arrivals[|arrivals| - 1];
      GenuineIndices(arrivals[..|arrivals| - 1]) + if last.Genuine? then [last.k] else []
  }

  lemma AfterSnoc(n: nat, rx: Receiver, ks: seq<nat>, k: nat)
    requires n > 0
    ensures After(n, rx, Counters(n, ks + [k])) == Accept(n, After(n, rx, Counters(n, ks)), k % n).1
  {
    var c := Counters(n, ks + [k]);
    assert c[..|ks|] == Counters(n, ks) && c[|ks|] == k % n;
  }

  /** Damaged and misrouted frames leave the receiver as if they had never arrived. */
  lemma {:induction false} OnlyGenuineFramesCount(p: Profile, rx: Receiver, id: bv16, arrivals: seq<Arrival>)
    requires forall i :: 0 <= i < |arrivals| ==> Detectable(p, id, arrivals[i])
    ensures Delivered(p, rx, id, arrivals) == After(p.Modulus(), rx, Counters(p.Modulus(), GenuineIndices(arrivals)))
  {
    if arrivals != [] {
      hide Answer, Detectable, Accept, Counters;
      var init, last := arrivals[..|arrivals| - 1], arrivals[|arrivals| - 1];
      OnlyGenuineFramesCount(p, rx, id, init);
      AnswerExactly(p, Delivered(p, rx, id, init), id, last);
      if last.Genuine? {
        AfterSnoc(p.Modulus(), rx, GenuineIndices(init), last.k);
      } else {
        assert GenuineIndices(arrivals) == GenuineIndices(init);
      }
    }
  }

  lemma {:induction false} IndicesPrefix(arrivals: seq<Arrival>, i: nat)
    requires i < |arrivals|
    ensures GenuineIndices(arrivals[..i]) <= GenuineIndices(arrivals)
    ensures arrivals[i].Genuine? ==>
              var n := |GenuineIndices(arrivals[..i])|;
              n < |GenuineIndices(arrivals)| && GenuineIndices(arrivals)[n] == arrivals[i].k
  {
    var init := arrivals[..|arrivals| - 1];
    if i < |init| {
      assert init[..i] == arrivals[..i];
      IndicesPrefix(init, i);
    }
  }

  /**
    In every delivery each damaged or misrouted frame is answered with WrongCrc, and each genuine frame is
    answered as in the run of the counter protocol in which only the genuine frames arrive.
   */
  lemma ChannelStatus(p: Profile, rx: Receiver, id: bv16, arrivals: seq<Arrival>, i: nat)
    requires forall j :: 0 <= j < |arrivals| ==> Detectable(p, id, arrivals[j])
    requires i < |arrivals|
    ensures var ks, n := GenuineIndices(arrivals), |GenuineIndices(arrivals[..i])|;
            && (arrivals[i].Genuine? ==> n < |ks|)
            && Answer(p, Delivered(p, rx, id, arrivals[..i]), id, arrivals[i]).0
               == if arrivals[i].Genuine? then StatusAt(p.Modulus(), rx, Counters(p.Modulus(), ks), n) else WrongCrc
  {
    var a, ks := arrivals[i], GenuineIndices(arrivals);
    var n := |GenuineIndices(arrivals[..i])|;
    IndicesPrefix(arrivals, i);
    OnlyGenuineFramesCount(p, rx, id, arrivals[..i]);
    AnswerExactly(p, Delivered(p, rx, id, arrivals[..i]), id, a);
    hide Answer, Detectable, GenuineIndices, Accept, After;
    if a.Genuine? {
      assert ks[..n] == GenuineIndices(arrivals[..i]);
      assert Counters(p.Modulus(), ks)[..n] == Counters(p.Modulus(), ks[..n]);
    }
  }
}
