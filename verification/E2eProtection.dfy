/** The two end-to-end protection profiles: senders and receivers, and what they detect. */
module E2eProtection {
  import opened Bytes
  import opened Crc8Step
  import opened Crc8
  import opened E2eCounter
  import opened Words

  datatype Header1 = Header1(crc: bv8, counter: bv8)
  datatype Header2 = Header2(crc: bv8, counter: bv8, nibble: bv8)

  /** The Data ID as it enters the CRC, low byte first. */
  function IdBytes(id: bv16): (s: seq<bv8>)
    ensures |s| == 2
  {
    [(id & 0xFF) as bv8, (id >> 8) as bv8]
  }

  function IdNibble(id: bv16): bv8 {
    ((id >> 8) & 0x0F) as bv8
  }

  /** Profile 1: the CRC of the counter, added to one CRC over Data ID and payload. */
  function Crc1(id: bv16, counter: bv8, payload: seq<bv8>): bv8 {
    Add(Crc(IdBytes(id) + payload, 0xFF), Crc([counter], 0xFF))
  }

  /** Profile 2: one CRC over counter, nibble, payload and Data ID. */
  function Crc2(id: bv16, counter: bv8, nibble: bv8, payload: seq<bv8>): bv8 {
    Crc([counter, nibble] + payload + IdBytes(id), 0xFF)
  }

  /** What a sender attaches to its k-th frame. */
  function Protect1(id: bv16, k: nat, payload: seq<bv8>): Header1 {
    var counter := (k % 16) as bv8;
    Header1(Crc1(id, counter, payload), counter)
  }

  function Protect2(id: bv16, k: nat, payload: seq<bv8>): Header2 {
    var counter := (k % 256) as bv8;
    Header2(Crc2(id, counter, IdNibble(id), payload), counter, IdNibble(id))
  }

  /** The part of a Profile 1 counter byte that counts. */
  function CounterBits(b: bv8): bv8 { b & 0x0F }

  /** What a receiver answers, and what it remembers afterwards. */
  function Check1(rx: Receiver, id: bv16, payload: seq<bv8>, hdr: Header1): (Status, Receiver) {
    var counter := CounterBits(hdr.counter);
    if Crc1(id, counter, payload) != hdr.crc then (WrongCrc, rx)
    else Accept(16, rx, counter as int)
  }

  function Check2(rx: Receiver, id: bv16, payload: seq<bv8>, hdr: Header2): (Status, Receiver) {
    if Crc2(id, hdr.counter, hdr.nibble, payload) != hdr.crc || hdr.nibble != IdNibble(id) then (WrongCrc, rx)
    else Accept(256, rx, hdr.counter as int)
  }

  /** The CRC over Data ID and payload, by continuing the CRC of the ID bytes. */
  method Crc8WithDataId(tbl: array<bv8>, id: bv16, payload: seq<bv8>) returns (crc: bv8)
    requires IsTable(tbl[..])
    ensures crc == Crc(IdBytes(id) + payload, 0xFF)
  {
    hide IsTable, Crc, IdBytes;
    var idBytes := IdBytes(id);
    crc := ComputeCrc(tbl, idBytes, 0xFF);
    CrcContinues(idBytes, payload, 0xFF);
    crc := ComputeCrc(tbl, payload, crc ^ 0xFF);
  }

  lemma CounterSuccessor(b: bv8)
    ensures (b + 1) as int == (b as int + 1) % 256
  {
    if b < 255 {
      Successor(b);
    }
  }

  lemma LowNibble(b: bv8)
    ensures CounterBits(b) == (b as int % 16) as bv8
  {
    Nibbles(b);
    ValueByte(b & 0x0F);
  }

  class E2eProfile1 {
    const crcTable: array<bv8>
    var txCounter: bv8
    var rxLastCounter: bv8
    var hasFirst: bool

    ghost predicate Valid()
      reads crcTable
    {
      IsTable(crcTable[..])
    }

    function Memory(): Receiver
      reads this
    {
      Receiver(hasFirst, rxLastCounter as int)
    }

    constructor (table: array<bv8>)
      requires IsTable(table[..])
      ensures Valid() && crcTable == table && txCounter == 0 && !hasFirst
    {
      crcTable := table;
      txCounter, rxLastCounter, hasFirst := 0, 0, false;
    }

    method CombinedCrc(id: bv16, counter: bv8, payload: seq<bv8>) returns (crc: bv8)
      requires Valid()
      ensures crc == Crc1(id, counter, payload)
    {
      hide IsTable, Crc, IdBytes;
      crc := ComputeCrc(crcTable, [counter], 0xFF);
      var rest := Crc8WithDataId(crcTable, id, payload);
      crc := rest ^ crc;
    }

    method Protect(id: bv16, payload: seq<bv8>) returns (hdr: Header1)
      requires Valid()
      modifies this`txCounter
      ensures hdr == Protect1(id, old(txCounter) as int, payload)
      ensures txCounter as int == (old(txCounter) as int + 1) % 256
    {
      hide IsTable, Crc1, CounterBits;
      var counter := CounterBits(txCounter);
      LowNibble(txCounter);
      CounterSuccessor(txCounter);
      txCounter := txCounter + 1;
      var crc := CombinedCrc(id, counter, payload);
      hdr := Header1(crc, counter);
    }

    method Check(id: bv16, payload: seq<bv8>, hdr: Header1) returns (status: Status)
      requires Valid()
      modifies this`rxLastCounter, this`hasFirst
      ensures (status, Memory()) == Check1(old(Memory()), id, payload, hdr)
    {
      hide IsTable, Crc1, CounterBits, Next16, Accept;
      var counter := CounterBits(hdr.counter);
      AcceptByCounter(hasFirst, rxLastCounter, counter);
      var expected := CombinedCrc(id, counter, payload);
      if expected != hdr.crc {
        return WrongCrc;
      }
      if !hasFirst {
        hasFirst := true;
        rxLastCounter := counter;
        return Status.Ok;
      }
      if counter == rxLastCounter {
        return Repeated;
      }
      if counter != Next16(rxLastCounter) {
        return WrongSequence;
      }
      rxLastCounter := counter;
      return Status.Ok;
    }

    method Reset()
      modifies this`txCounter, this`hasFirst
      ensures txCounter == 0 && !hasFirst
    {
      txCounter, hasFirst := 0, false;
    }
  }

  lemma SameValue(a: bv8, b: bv8)
    ensures a == b <==> a as int == b as int
  {
    ValueByte(a);
    ValueByte(b);
  }

  /** The counter expected next, as the receivers compute it. */
  function Next16(last: bv8): bv8 { (last + 1) & 0x0F }

  function Next256(last: bv8): bv8 { last + 1 }

  lemma NextCounter(last: bv8, c: bv8)
    ensures c == last <==> c as int == last as int
    ensures c == Next16(last) <==> c as int == (last as int + 1) % 16
  {
    SameValue(c, last);
    SameValue(c, Next16(last));
    Nibbles(last + 1);
    CounterSuccessor(last);
  }

  /** The counter check of Profile 1 on bytes. */
  lemma AcceptByCounter(seen: bool, last: bv8, c: bv8)
    ensures var rx := Receiver(seen, last as int);
            Accept(16, rx, c as int)
            == if !seen then (Ok, Receiver(true, c as int))
               else if c == last then (Repeated, rx)
               else if c != Next16(last) then (WrongSequence, rx)
               else (Ok, Receiver(true, c as int))
  {
    NextCounter(last, c);
    hide Next16;
  }

  /** The counter check of Profile 2 on bytes. */
  lemma AcceptByByte(seen: bool, last: bv8, c: bv8)
    ensures var rx := Receiver(seen, last as int);
            Accept(256, rx, c as int)
            == if !seen then (Ok, Receiver(true, c as int))
               else if c == last then (Repeated, rx)
               else if c != Next256(last) then (WrongSequence, rx)
               else (Ok, Receiver(true, c as int))
  {
    NextByte(last, c);
    hide Next256;
  }

  lemma NextByte(last: bv8, c: bv8)
    ensures c == last <==> c as int == last as int
    ensures c == Next256(last) <==> c as int == (last as int + 1) % 256
  {
    SameValue(c, last);
    SameValue(c, Next256(last));
    CounterSuccessor(last);
  }

  class E2eProfile2 {
    const crcTable: array<bv8>
    var txCounter: bv8
    var rxLast: bv8
    var hasFirst: bool

    ghost predicate Valid()
      reads crcTable
    {
      IsTable(crcTable[..])
    }

    function Memory(): Receiver
      reads this
    {
      Receiver(hasFirst, rxLast as int)
    }

    constructor (table: array<bv8>)
      requires IsTable(table[..])
      ensures Valid() && crcTable == table && txCounter == 0 && !hasFirst
    {
      crcTable := table;
      txCounter, rxLast, hasFirst := 0, 0, false;
    }

    /** The chained CRC of both sides: prefix, then payload, then Data ID. */
    method ChainedCrc(id: bv16, counter: bv8, nibble: bv8, payload: seq<bv8>) returns (crc: bv8)
      requires Valid()
      ensures crc == Crc2(id, counter, nibble, payload)
    {
      hide IsTable, Crc, IdBytes;
      var prefix := [counter, nibble];
      crc := ComputeCrc(crcTable, prefix, 0xFF);
      CrcContinues(prefix, payload, 0xFF);
      crc := ComputeCrc(crcTable, payload, crc ^ 0xFF);
      CrcContinues(prefix + payload, IdBytes(id), 0xFF);
      crc := ComputeCrc(crcTable, IdBytes(id), crc ^ 0xFF);
    }

    method Protect(id: bv16, payload: seq<bv8>) returns (hdr: Header2)
      requires Valid()
      modifies this`txCounter
      ensures hdr == Protect2(id, old(txCounter) as int, payload)
      ensures txCounter as int == (old(txCounter) as int + 1) % 256
    {
      hide IsTable, Crc2;
      var counter := txCounter;
      ValueByte(counter);
      CounterSuccessor(txCounter);
      txCounter := txCounter + 1;
      var crc := ChainedCrc(id, counter, IdNibble(id), payload);
      hdr := Header2(crc, counter, IdNibble(id));
    }

    method Check(id: bv16, payload: seq<bv8>, hdr: Header2) returns (status: Status)
      requires Valid()
      modifies this`rxLast, this`hasFirst
      ensures (status, Memory()) == Check2(old(Memory()), id, payload, hdr)
    {
      hide IsTable, Crc2, IdNibble, Next256, Accept;
      AcceptByByte(hasFirst, rxLast, hdr.counter);
      var expected := ChainedCrc(id, hdr.counter, hdr.nibble, payload);
      if expected != hdr.crc {
        return WrongCrc;
      }
      if hdr.nibble != IdNibble(id) {
        return WrongCrc;
      }
      if !hasFirst {
        hasFirst := true;
        rxLast := hdr.counter;
        return Status.Ok;
      }
      if hdr.counter == rxLast {
        return Repeated;
      }
      if hdr.counter != Next256(rxLast) {
        return WrongSequence;
      }
      rxLast := hdr.counter;
      return Status.Ok;
    }

    method Reset()
      modifies this`txCounter, this`hasFirst
      ensures txCounter == 0 && !hasFirst
    {
      txCounter, hasFirst := 0, false;
    }
  }

  // ---- The check values as polynomials and numbers ----

  /** The Data ID enters low byte first; its nibble is the low half of its high byte. */
  lemma IdInNumbers(id: bv16)
    ensures IdBytes(id)[0] as int == id as int % 256
    ensures IdBytes(id)[1] as int == id as int / 256
    ensures IdNibble(id) as int == id as int / 256 % 16
  {
    IdParts(id);
    var low, high := IdBytes(id)[0], IdBytes(id)[1];
    Nibbles(high);
    ValueByte(low);
    hide IdBytes, IdNibble;
  }

  lemma IdParts(id: bv16)
    ensures id as int == IdBytes(id)[0] as int + 256 * (IdBytes(id)[1] as int)
    ensures IdNibble(id) == IdBytes(id)[1] & 0x0F
  {
    IdPartNumbers(id);
    TwoBytesOf(id);
    hide IdBytes;
  }

  lemma IdPartNumbers(id: bv16)
    ensures IdBytes(id)[0] as int == ((id & 0xFF) as bv8) as int
    ensures IdBytes(id)[1] as int == ((id >> 8) as bv8) as int
    ensures IdNibble(id) == IdBytes(id)[1] & 0x0F
  {
  }

  /** Profile 2: the CRC is the inverted remainder of one text, divided with the initial value 0xFF. */
  lemma Crc2IsRemainder(id: bv16, counter: bv8, nibble: bv8, payload: seq<bv8>)
    ensures BitsOf(Crc2(id, counter, nibble, payload) ^ 0xFF)
         == Remainder(Dividend(0xFF, BitStream([counter, nibble] + payload + IdBytes(id))))
  {
    hide Remainder, Dividend, BitStream, Register, IdBytes, BitsOf, Crc;
    CrcIsRemainder([counter, nibble] + payload + IdBytes(id), 0xFF);
  }

  /** Profile 1: the two inversions cancel, and the CRC is the sum of two remainders with the initial value 0xFF. */
  lemma Crc1IsRemainder(id: bv16, counter: bv8, payload: seq<bv8>)
    ensures BitsOf(Crc1(id, counter, payload))
         == XorBits(Remainder(Dividend(0xFF, BitStream(IdBytes(id) + payload))),
                    Remainder(Dividend(0xFF, BitStream([counter]))))
  {
    hide Remainder, Dividend, BitStream, Register, IdBytes, BitsOf, Add, Crc, XorBits;
    var x, y := Crc(IdBytes(id) + payload, 0xFF), Crc([counter], 0xFF);
    CrcIsRemainder(IdBytes(id) + payload, 0xFF);
    CrcIsRemainder([counter], 0xFF);
    InvertedSum(x, y);
    BitsOfSum(x ^ 0xFF, y ^ 0xFF);
  }

  lemma InvertedSum(x: bv8, y: bv8)
    ensures Add(x, y) == Add(x ^ 0xFF, y ^ 0xFF)
  {
  }

  // ---- Corrupted payloads ----

  /** A payload error confined to eight consecutive bits is rejected, and the receiver forgets nothing. */
  lemma BurstRejected1(rx: Receiver, id: bv16, k: nat, payload: seq<bv8>, received: seq<bv8>)
    requires BurstError(payload, received)
    ensures Check1(rx, id, received, Protect1(id, k, payload)) == (WrongCrc, rx)
  {
    hide Register, IdBytes;
    var hdr := Protect1(id, k, payload);
    CounterKept(k);
    RegisterConcat(0xFF, IdBytes(id), payload);
    RegisterConcat(0xFF, IdBytes(id), received);
    BurstChangesCrc(payload, received, Register(0xFF, IdBytes(id)));
    CrcDiffers(IdBytes(id) + payload, IdBytes(id) + received);
    AddCancel(Crc(IdBytes(id) + payload, 0xFF), Crc(IdBytes(id) + received, 0xFF), Crc([hdr.counter], 0xFF));
  }

  /** In Profile 2 the same holds when the burst reaches into the counter and the nibble of the header. */
  lemma BurstRejected2(rx: Receiver, id: bv16, k: nat, payload: seq<bv8>, received: seq<bv8>, counter: bv8, nibble: bv8)
    requires var hdr := Protect2(id, k, payload);
             BurstError([hdr.counter, hdr.nibble] + payload, [counter, nibble] + received)
    ensures Check2(rx, id, received, Header2(Protect2(id, k, payload).crc, counter, nibble)) == (WrongCrc, rx)
  {
    hide Register, IdBytes, IdNibble;
    var hdr := Protect2(id, k, payload);
    var sent, got := [hdr.counter, hdr.nibble] + payload, [counter, nibble] + received;
    BurstChangesCrc(sent, got, 0xFF);
    RegisterConcat(0xFF, sent, IdBytes(id));
    RegisterConcat(0xFF, got, IdBytes(id));
    RegisterAgreement(Register(0xFF, sent), Register(0xFF, got), IdBytes(id));
    CrcDiffers(sent + IdBytes(id), got + IdBytes(id));
  }

  /** The payload part of `BurstRejected2`, with the header as sent. */
  lemma PayloadBurstRejected2(rx: Receiver, id: bv16, k: nat, payload: seq<bv8>, received: seq<bv8>)
    requires BurstError(payload, received)
    ensures Check2(rx, id, received, Protect2(id, k, payload)) == (WrongCrc, rx)
  {
    hide Register, IdBytes, IdNibble, Check2;
    var hdr := Protect2(id, k, payload);
    var prefix := [hdr.counter, hdr.nibble];
    BurstAfterPrefix(prefix, payload, received);
    BurstRejected2(rx, id, k, payload, received, hdr.counter, hdr.nibble);
  }

  lemma BurstAfterPrefix(prefix: seq<bv8>, p: seq<bv8>, q: seq<bv8>)
    requires BurstError(p, q)
    ensures BurstError(prefix + p, prefix + q)
  {
    var o: nat :| DifferWithin(BitStream(p), BitStream(q), o);
    BitStreamConcat(prefix, p);
    BitStreamConcat(prefix, q);
    var n := |BitStream(prefix)|;
    var x, y := BitStream(prefix + p), BitStream(prefix + q);
    forall i | 0 <= i < |x| && !(o + n <= i < o + n + 8)
      ensures x[i] == y[i]
    {
      if i >= n {
        assert x[i] == BitStream(p)[i - n] && y[i] == BitStream(q)[i - n];
      }
    }
    assert DifferWithin(x, y, o + n);
    assert p == (prefix + p)[|prefix|..] && q == (prefix + q)[|prefix|..];
  }

  lemma CounterKept(k: nat)
    ensures CounterBits((k % 16) as bv8) == (k % 16) as bv8
    ensures ((k % 16) as bv8) as int == k % 16
  {
    ByteValue(k % 16);
    LowNibble((k % 16) as bv8);
  }

  lemma CrcDiffers(x: seq<bv8>, y: seq<bv8>)
    ensures Crc(x, 0xFF) == Crc(y, 0xFF) <==> Register(0xFF, x) == Register(0xFF, y)
  {
    InvertTwice(Register(0xFF, x));
    InvertTwice(Register(0xFF, y));
  }

  // ---- Wrong Data IDs ----

  /** Whether a frame protected under one Data ID passes the CRC under another does not depend on the payload. */
  ghost predicate SameIdCrc(a: bv16, b: bv16) {
    Register(0xFF, IdBytes(a)) == Register(0xFF, IdBytes(b))
  }

  lemma WrongId1(rx: Receiver, a: bv16, b: bv16, k: nat, payload: seq<bv8>)
    ensures Check1(rx, b, payload, Protect1(a, k, payload)) == (WrongCrc, rx) <==> !SameIdCrc(a, b)
  {
    hide Register, IdBytes;
    var hdr := Protect1(a, k, payload);
    CounterKept(k);
    RegisterConcat(0xFF, IdBytes(a), payload);
    RegisterConcat(0xFF, IdBytes(b), payload);
    RegisterAgreement(Register(0xFF, IdBytes(a)), Register(0xFF, IdBytes(b)), payload);
    CrcDiffers(IdBytes(a) + payload, IdBytes(b) + payload);
    AddCancel(Crc(IdBytes(a) + payload, 0xFF), Crc(IdBytes(b) + payload, 0xFF), Crc([hdr.counter], 0xFF));
  }

  lemma WrongId2(rx: Receiver, a: bv16, b: bv16, k: nat, payload: seq<bv8>)
    ensures Check2(rx, b, payload, Protect2(a, k, payload)) == (WrongCrc, rx)
       <==> !(SameIdCrc(a, b) && IdNibble(a) == IdNibble(b))
  {
    hide Register, IdBytes, IdNibble;
    var hdr := Protect2(a, k, payload);
    var body := [hdr.counter, hdr.nibble] + payload;
    RegisterConcat(0xFF, body, IdBytes(a));
    RegisterConcat(0xFF, body, IdBytes(b));
    AgreementAnywhere(Register(0xFF, body), 0xFF, IdBytes(a), IdBytes(b));
    CrcDiffers(body + IdBytes(a), body + IdBytes(b));
  }

  /** Data IDs that differ in exactly one byte never pass for each other. */
  lemma OneByteApart(a: bv16, b: bv16)
    requires (IdBytes(a)[0] == IdBytes(b)[0]) != (IdBytes(a)[1] == IdBytes(b)[1])
    ensures !SameIdCrc(a, b)
  {
    hide Register;
    var x, y := IdBytes(a), IdBytes(b);
    TwoBytes(x);
    TwoBytes(y);
    hide IdBytes, BitStream, BitsOf;
    assert DifferWithin(BitStream(x), BitStream(y), if x[0] == y[0] then 8 else 0);
    BurstChangesCrc(x, y, 0xFF);
  }

  lemma TwoBytes(x: seq<bv8>)
    requires |x| == 2
    ensures BitStream(x) == BitsOf(x[0]) + BitsOf(x[1])
  {
    hide BitsOf;
    assert x == [x[0]] + [x[1]];
    BitStreamConcat([x[0]], [x[1]]);
    assert BitStream([x[0]]) == BitsOf(x[0]) && BitStream([x[1]]) == BitsOf(x[1]);
  }

  const VEHICLE_SPEED: bv16 := 0x0101
  const BRAKE_REQUEST: bv16 := 0x0201
  const STEERING_TORQUE: bv16 := 0x0301
  const LEAD_VEHICLE: bv16 := 0x0401

  /** A frame for one of the four signals is rejected when it is read as another of them. */
  lemma WellKnownIdsApart(rx: Receiver, a: bv16, b: bv16, k: nat, payload: seq<bv8>)
    requires a in {VEHICLE_SPEED, BRAKE_REQUEST, STEERING_TORQUE, LEAD_VEHICLE}
    requires b in {VEHICLE_SPEED, BRAKE_REQUEST, STEERING_TORQUE, LEAD_VEHICLE}
    requires a != b
    ensures VEHICLE_SPEED == 0x0101 && BRAKE_REQUEST == 0x0201 && STEERING_TORQUE == 0x0301 && LEAD_VEHICLE == 0x0401
    ensures Check1(rx, b, payload, Protect1(a, k, payload)) == (WrongCrc, rx)
    ensures Check2(rx, b, payload, Protect2(a, k, payload)) == (WrongCrc, rx)
  {
    assert IdBytes(a)[0] == IdBytes(b)[0] && IdBytes(a)[1] != IdBytes(b)[1];
    OneByteApart(a, b);
    WrongId1(rx, a, b, k, payload);
    WrongId2(rx, a, b, k, payload);
  }

  /** Exactly when two Data IDs pass for each other in the CRC: a check on the differences of their bytes alone. */
  lemma SameIdCrcExactly(a: bv16, b: bv16)
    ensures var x, y := IdBytes(a), IdBytes(b);
            SameIdCrc(a, b) <==> Shift(Add(x[0], y[0]), 8) == Add(x[1], y[1])
  {
    var x, y := IdBytes(a), IdBytes(b);
    hide Register, Shift, Add, IdBytes;
    assert x == [x[0], x[1]] && y == [y[0], y[1]];
    AgreementAnywhere(0xFF, 0, x, y);
    RegisterOfTwo(x[0], x[1]);
    RegisterOfTwo(y[0], y[1]);
    if Register(0, x) == Register(0, y) {
      ShiftInjective(Add(Shift(x[0], 8), x[1]), Add(Shift(y[0], 8), y[1]), 8);
    }
    AddSwap(Shift(x[0], 8), x[1], Shift(y[0], 8), y[1]);
    ShiftLinear(x[0], y[0], 8);
  }

  /** Two Data IDs that differ in both bytes and that the CRC cannot tell apart; their nibbles differ. */
  lemma ConfusableIds()
    ensures SameIdCrc(0x0000, 0x1D01)
  {
    var x, y := IdBytes(0x0000), IdBytes(0x1D01);
    assert x == [0, 0] && y == [1, 0x1D];
    hide Shift, SameIdCrc;
    SameIdCrcExactly(0x0000, 0x1D01);
    ShiftOfOne();
  }

  /** Two Data IDs that neither the CRC nor the nibble can tell apart. */
  lemma ConfusableIds2()
    ensures SameIdCrc(0x0000, 0x10D8) && IdNibble(0x0000) == IdNibble(0x10D8)
  {
    var x, y := IdBytes(0x0000), IdBytes(0x10D8);
    assert x == [0, 0] && y == [0xD8, 0x10];
    hide Shift, SameIdCrc;
    SameIdCrcExactly(0x0000, 0x10D8);
    ShiftOfD8();
  }

  lemma ShiftOfD8()
    ensures Shift(0xD8, 8) == 0x10
  {
    assert Shift(0xD8, 8) == Shift(0x47, 6) == Shift(0x01, 4) == 0x10;
  }

  /**
    A frame under a Data ID that passes for the receiver's own is answered by the counter alone, as a genuine one
    is: in Profile 1 when the CRC confuses the IDs, in Profile 2 when the nibbles agree as well.
   */
  lemma PassingId1(rx: Receiver, a: bv16, b: bv16, k: nat, payload: seq<bv8>)
    requires SameIdCrc(a, b)
    ensures Check1(rx, b, payload, Protect1(a, k, payload)) == Accept(16, rx, k % 16)
  {
    hide Register, IdBytes, Accept;
    WrongId1(rx, a, b, k, payload);
    CounterKept(k);
  }

  lemma PassingId2(rx: Receiver, a: bv16, b: bv16, k: nat, payload: seq<bv8>)
    requires SameIdCrc(a, b) && IdNibble(a) == IdNibble(b)
    ensures Check2(rx, b, payload, Protect2(a, k, payload)) == Accept(256, rx, k % 256)
  {
    hide Register, IdBytes, IdNibble, Accept;
    WrongId2(rx, a, b, k, payload);
    ByteValue(k % 256);
  }

  /** The concrete frames: whatever the payload, they are not rejected under the wrong Data ID. */
  lemma MisroutedFramesPass(rx: Receiver, k: nat, payload: seq<bv8>)
    ensures Check1(rx, 0x1D01, payload, Protect1(0x0000, k, payload)) == Accept(16, rx, k % 16)
    ensures Check1(rx, 0x1D01, payload, Protect1(0x0000, k, payload)).0 != WrongCrc
    ensures Check2(rx, 0x10D8, payload, Protect2(0x0000, k, payload)) == Accept(256, rx, k % 256)
    ensures Check2(rx, 0x10D8, payload, Protect2(0x0000, k, payload)).0 != WrongCrc
  {
    hide Check1, Check2, Protect1, Protect2, SameIdCrc, IdNibble;
    ConfusableIds();
    ConfusableIds2();
    PassingId1(rx, 0x0000, 0x1D01, k, payload);
    PassingId2(rx, 0x0000, 0x10D8, k, payload);
  }

  lemma RegisterOfTwo(lo: bv8, hi: bv8)
    ensures Register(0, [lo, hi]) == Shift(Add(Shift(lo, 8), hi), 8)
  {
    hide Step, Add, BitsOf, Shift, Serial, BitStream;
    TwoBytes([lo, hi]);
    SerialConcat(0, BitsOf(lo), BitsOf(hi));
    ByteStep(0, lo);
    AddZero(lo);
    ByteStep(Shift(lo, 8), hi);
  }

  lemma ShiftOfOne()
    ensures Shift(0, 8) == 0
    ensures Shift(1, 8) == 0x1D
  {
    assert Shift(1, 8) == Shift(0x10, 4) == Shift(0x80, 1) == 0x1D;
  }

  // ---- Deliveries ----

  /** A frame as sent passes the CRC, and its status is decided by the counter alone. */
  lemma GenuineFrame1(rx: Receiver, id: bv16, k: nat, payload: seq<bv8>)
    ensures Check1(rx, id, payload, Protect1(id, k, payload)) == Accept(16, rx, k % 16)
  {
    hide Crc1, CounterBits;
    CounterKept(k);
  }

  lemma GenuineFrame2(rx: Receiver, id: bv16, k: nat, payload: seq<bv8>)
    ensures Check2(rx, id, payload, Protect2(id, k, payload)) == Accept(256, rx, k % 256)
  {
    hide Crc2, IdNibble;
    ByteValue(k % 256);
  }

  /** The receiver after it was delivered the sender's frames with these indices and payloads. */
  function Delivered1(rx: Receiver, id: bv16, ks: seq<nat>, payloads: seq<seq<bv8>>): Receiver
    requires |ks| == |payloads|
  {
    if ks == [] then rx
    else
      var n := |ks| - 1;
      Check1(Delivered1(rx, id, ks[..n], payloads[..n]), id, payloads[n], Protect1(id, ks[n], payloads[n])).1
  }

  function Delivered2(rx: Receiver, id: bv16, ks: seq<nat>, payloads: seq<seq<bv8>>): Receiver
    requires |ks| == |payloads|
  {
    if ks == [] then rx
    else
      var n := |ks| - 1;
      Check2(Delivered2(rx, id, ks[..n], payloads[..n]), id, payloads[n], Protect2(id, ks[n], payloads[n])).1
  }

  lemma {:induction false} DeliveryIsCounting1(rx: Receiver, id: bv16, ks: seq<nat>, payloads: seq<seq<bv8>>)
    requires |ks| == |payloads|
    ensures Delivered1(rx, id, ks, payloads) == After(16, rx, Counters(16, ks))
  {
    hide Check1, Protect1;
    if ks != [] {
      var n := |ks| - 1;
      assert Counters(16, ks)[..n] == Counters(16, ks[..n]);
      DeliveryIsCounting1(rx, id, ks[..n], payloads[..n]);
      GenuineFrame1(Delivered1(rx, id, ks[..n], payloads[..n]), id, ks[n], payloads[n]);
    }
  }

  lemma {:induction false} DeliveryIsCounting2(rx: Receiver, id: bv16, ks: seq<nat>, payloads: seq<seq<bv8>>)
    requires |ks| == |payloads|
    ensures Delivered2(rx, id, ks, payloads) == After(256, rx, Counters(256, ks))
  {
    hide Check2, Protect2;
    if ks != [] {
      var n := |ks| - 1;
      assert Counters(256, ks)[..n] == Counters(256, ks[..n]);
      DeliveryIsCounting2(rx, id, ks[..n], payloads[..n]);
      GenuineFrame2(Delivered2(rx, id, ks[..n], payloads[..n]), id, ks[n], payloads[n]);
    }
  }

  /** The answers to a delivery of genuine frames are those of the counter protocol. */
  lemma DeliveryStatus(rx: Receiver, id: bv16, ks: seq<nat>, payloads: seq<seq<bv8>>, i: nat)
    requires |ks| == |payloads| && i < |ks|
    ensures Check1(Delivered1(rx, id, ks[..i], payloads[..i]), id, payloads[i], Protect1(id, ks[i], payloads[i])).0
         == StatusAt(16, rx, Counters(16, ks), i)
    ensures Check2(Delivered2(rx, id, ks[..i], payloads[..i]), id, payloads[i], Protect2(id, ks[i], payloads[i])).0
         == StatusAt(256, rx, Counters(256, ks), i)
  {
    hide Check1, Protect1, Check2, Protect2;
    assert Counters(16, ks)[..i] == Counters(16, ks[..i]);
    assert Counters(256, ks)[..i] == Counters(256, ks[..i]);
    DeliveryIsCounting1(rx, id, ks[..i], payloads[..i]);
    DeliveryIsCounting2(rx, id, ks[..i], payloads[..i]);
    GenuineFrame1(Delivered1(rx, id, ks[..i], payloads[..i]), id, ks[i], payloads[i]);
    GenuineFrame2(Delivered2(rx, id, ks[..i], payloads[..i]), id, ks[i], payloads[i]);
  }
}
