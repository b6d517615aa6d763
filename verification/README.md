# Verified model of the SDV platform's stateful cores

This project models seven stateful components of the platform and proves what each of them is for, over all
inputs and over whole runs. Where a component updates fields, an array or the disk in place, the model is a class
or a method with a loop, proved against a specification function; the laws are lemmas about those functions.

| component | files | meaning that the code is shown to refine |
|---|---|---|
| SPSC ring buffer | `RingBuffer.dfy`, `SpscProtocol.dfy` | a FIFO of at most capacity - 1 items, under every interleaving of the two threads' atomic steps, with stale reads of the other thread's index |
| SHA-256, HMAC | `Fips180.dfy`, `Fips180Laws.dfy`, `Sha256.dfy`, `Hmac.dfy`, `Hex.dfy` | FIPS 180-4 (sections 4.1.2, 4.2.2, 5.1.1, 5.3.3, 6.2.2) and section 2 of RFC 2104, written as functions |
| E2E protection | `Crc8Step.dfy`, `Crc8.dfy`, `E2eCounter.dfy`, `E2eProtection.dfy`, `E2eChannel.dfy` | polynomial long division over GF(2), and a counter protocol over a channel that loses, repeats, damages and misroutes frames |
| OTA manager | `Manifest.dfy`, `ManifestAmbiguity.dfy`, `ManifestParser.dfy`, `ManifestPrinter.dfy`, `OtaDisk.dfy`, `OtaManager.dfy`, `OtaRuns.dfy` | lives of an ECU with updates, commits, rollbacks, and power losses between any two disk writes |
| Kalman filter, vehicle speed | `KalmanFilter.dfy`, `VehicleSpeed.dfy` | the covariance recursion in exact reals, and the quality as a statement about the history of cycles |
| Alive watchdog | `Watchdog.dfy` | the status of a task as a function of its own checkpoints and the supervisor's ticks |
| Blind spot detection | `BlindSpot.dfy` | three detections in a row that are not followed by six misses in a row |

`Bytes.dfy`, `Words.dfy`, `Numbers.dfy`, `Histories.dfy` and `Options.dfy` hold shared vocabulary.

How the environment enters: the bus is a list of pending frames for each cycle, the clock is a parameter, the disk
is an object with two state files and two slots, and a power loss is a step of its own that keeps the disk as it
was after the last completed write. The disk keeps a ghost trail of every image that passes over it, so that the
methods of the manager are tied to the very sequence of writes that the lemmas about power losses speak of. A slot
also carries `release`, the version under which it was last written; it is a history value that the manager never
reads.

## Results that are not what the comments say

The model follows the code. These are the places where the code and its comments, or an expectation, part ways.

- A failed `startUpdate` ends in Idle, never in Failed (`sdv-platform/services/ota/ota_manager.cpp:254-260` against
  `sdv-platform/services/ota/ota_manager.hpp:16-19`): see `OtaManager.OtaManager.Fail`.
- A power loss between the two writes of `commit` records the new version while the old slot stays active. The
  comment (`sdv-platform/services/ota/ota_manager.cpp:232-234`) says a re-update is possible. `OtaRuns.RetryExactly`
  says when it is: a good package whose commit was cut off behind k writes is accepted again after the restart if
  and only if k = 0. `OtaRuns.InterruptedCommit` carries the refusal through every later run, and
  `OtaRuns.NextPackageIsGood` with `OtaRuns.GoodPackageGoesLive` shows that such commits are reached.
- A frame read under a wrong Data ID is not always rejected. In Profile 1 it is rejected if and only if the CRC tells
  the IDs apart (`E2eProtection.WrongId1`), in Profile 2 if and only if the CRC or the nibble does
  (`E2eProtection.WrongId2`); `E2eProtection.SameIdCrcExactly` turns the CRC's part into a check on the bytes of the
  two IDs, and `E2eProtection.MisroutedFramesPass` names a pair for each profile. IDs that differ in one byte are
  always told apart.
- Losing a multiple of N frames (N = 16 or 256) goes unnoticed: `E2eCounter.GapRecovery`.
- `ideal_p` is a lower bound of the covariance and not the fixed point of its recursion:
  `KalmanFilter.CovarianceBounds` and `KalmanFilter.FixedPoint`.
- The signed bytes do not always determine the signed fields. `ManifestAmbiguity.CanonicalAmbiguous` is an if and
  only if: another manifest has the same signed bytes exactly when some field contains the text that separates it
  from a neighbour (a line break and the next tag; for the version, the whole line with a number). A line break alone
  does no harm. In the version's case the other manifest carries another version: `ManifestAmbiguity.FileHoldsVersion`.
- Not every manifest can be written down. `ManifestPrinter.ReadableExactly`: some file parses to it if and only if its
  version has 64 bits and none of its texts ends in a backslash. So a unit whose hardware identifier ends in a
  backslash can never be updated, and neither can one at the last version; every other unit can:
  `OtaRuns.UpdatableExactly`.
- A blind spot warning clears on the sixth miss, not the fifth; a checkpoint revives a Failed task; a tolerance of
  zero missed alives acts like a tolerance of one; 2^64 checkpoints between two ticks look like none.

## Model

| member | source | states |
|---|---|---|
| RingBuffer.MaskIsMod | sdv-platform/middleware/spsc/ring_buffer.hpp:47-53 | for every capacity the template admits, masking with capacity - 1 is the remainder modulo the capacity |
| RingBuffer.AdvanceSlot | sdv-platform/middleware/spsc/ring_buffer.hpp:59-59 | the masked increment leads from the slot of one item to the slot of the next |
| RingBuffer.PositionTests | sdv-platform/middleware/spsc/ring_buffer.hpp:83-92 | with at most capacity - 1 items between them, the positions are equal exactly when none is stored, and the write position is one behind exactly when capacity - 1 are |
| RingBuffer.DistanceIsLength | sdv-platform/middleware/spsc/ring_buffer.hpp:94-98 | the difference of the positions, wrapped at 64 bits and masked, is the exact queue length |
| RingBuffer.RingBuffer.constructor | sdv-platform/middleware/spsc/ring_buffer.hpp:108-110 | a new buffer is an empty queue |
| RingBuffer.RingBuffer.Push | sdv-platform/middleware/spsc/ring_buffer.hpp:57-67 | appends to the queue, and fails exactly when capacity - 1 items are stored |
| RingBuffer.RingBuffer.Pop | sdv-platform/middleware/spsc/ring_buffer.hpp:71-80 | takes the oldest item, and answers with nothing exactly when the queue is empty |
| RingBuffer.RingBuffer.Empty | sdv-platform/middleware/spsc/ring_buffer.hpp:83-86 | true exactly for the empty queue |
| RingBuffer.RingBuffer.Full | sdv-platform/middleware/spsc/ring_buffer.hpp:88-92 | true exactly at capacity - 1 items |
| RingBuffer.RingBuffer.Size | sdv-platform/middleware/spsc/ring_buffer.hpp:94-98 | the number of stored items |
| RingBuffer.RingBuffer.Clear | sdv-platform/middleware/spsc/ring_buffer.hpp:100-103 | empties the queue |
| SpscProtocol.InitialInv | sdv-platform/middleware/spsc/ring_buffer.hpp:108-110 | the invariant of the two-thread protocol holds at the start, for every capacity the template admits |
| SpscProtocol.ProducerStep | sdv-platform/middleware/spsc/ring_buffer.hpp:57-67 | every atomic step of push keeps the invariant, whichever older value of the read index it sees |
| SpscProtocol.PopStep | sdv-platform/middleware/spsc/ring_buffer.hpp:71-80 | every atomic step of pop keeps the invariant, whichever older value of the write index it sees |
| SpscProtocol.ClearStep | sdv-platform/middleware/spsc/ring_buffer.hpp:100-103 | every atomic step of clear keeps the invariant |
| SpscProtocol.RunInv | sdv-platform/middleware/spsc/ring_buffer.hpp:57-103 | the invariant holds after every interleaving of the two threads' steps |
| SpscProtocol.StoredItems | sdv-platform/middleware/spsc/ring_buffer.hpp:94-110 | the memory between the published positions holds exactly the pushed items not yet retired, in order |
| SpscProtocol.NoRace | sdv-platform/middleware/spsc/ring_buffer.hpp:64-77 | the slot the producer may write is never one the consumer has still to read |
| SpscProtocol.FifoUnderInterleaving | sdv-platform/middleware/spsc/ring_buffer.hpp:57-103 | in every state of every interleaving, retired items followed by stored items are the pushed items in order, at most capacity - 1 are stored, and no slot is written that is still to be read |
| SpscProtocol.FullAnswer | sdv-platform/middleware/spsc/ring_buffer.hpp:61-62 | push answers full exactly when capacity - 1 items were stored at the index it saw; with an up-to-date index, exactly when the buffer is full |
| SpscProtocol.EmptyAnswer | sdv-platform/middleware/spsc/ring_buffer.hpp:74-75 | pop answers empty exactly when all items up to the index it saw are retired; with an up-to-date index, exactly when nothing is stored |
| SpscProtocol.ClearDiscardsPrefix | sdv-platform/middleware/spsc/ring_buffer.hpp:100-103 | clear discards, in order, exactly the stored items up to the write index it saw, and nothing else |
| SpscProtocol.PopRetiresOldest | sdv-platform/middleware/spsc/ring_buffer.hpp:77-79 | a completed pop retires the oldest stored item, as popped, and nothing else |
| SpscProtocol.PushAppends | sdv-platform/middleware/spsc/ring_buffer.hpp:64-65 | a completed push adds its item behind all others |
| SpscProtocol.ConsumerSees | sdv-platform/middleware/spsc/ring_buffer.hpp:83-98 | empty, full and size called by the consumer, with a stale write index: empty exactly when all it can see is retired, and a size that never exceeds what is stored |
| SpscProtocol.ProducerSees | sdv-platform/middleware/spsc/ring_buffer.hpp:83-98 | the same called by the producer, with a stale read index: full exactly at capacity - 1 of its count, which is never below what is stored |
| SpscProtocol.NonEmptyMeansPop | sdv-platform/middleware/spsc/ring_buffer.hpp:71-86 | a consumer that saw the buffer non-empty and has retired nothing since pops successfully, whatever the producer does and whichever index it reads |
| SpscProtocol.NonFullMeansPush | sdv-platform/middleware/spsc/ring_buffer.hpp:57-92 | a producer that saw the buffer non-full and has pushed nothing since pushes successfully |
| Fips180.RoundConstantsAreCubeRoots | sdv-platform/security/crypto/sha256.hpp:99-112 | each of the 64 constants is the first 32 bits of the fractional part of the cube root of its prime |
| Fips180.InitialValuesAreSquareRoots | sdv-platform/security/crypto/sha256.hpp:25-26 | each initial word is the first 32 bits of the fractional part of the square root of its prime |
| Fips180.ScheduleRecurrence | sdv-platform/security/crypto/sha256.hpp:114-127 | the specification's schedule satisfies the standard's equation for each of its 64 words |
| Fips180.ZeroCountIsLeast | sdv-platform/security/crypto/sha256.hpp:52-55 | the specified number of zero bytes reaches 56 modulo 64, and no smaller number does |
| Fips180.PadLength | sdv-platform/security/crypto/sha256.hpp:46-63 | a padded message consists of whole blocks |
| Fips180.BigEndianRoundTrip | sdv-platform/security/crypto/sha256.hpp:56-58 | the length bytes, read most significant first, give back the number modulo a power of 256 |
| Fips180.LengthFieldExact | sdv-platform/security/crypto/sha256.hpp:47-63 | the length field is the length in bits exactly for the messages under 2^61 bytes |
| Fips180.ChainPrefix | sdv-platform/security/crypto/sha256.hpp:39-42 | appending to a message does not change the chaining value of its earlier blocks |
| Fips180Laws.ChooseBit | sdv-platform/security/crypto/sha256.hpp:134-134 | Ch takes, bit by bit, the second word where the first has a one and the third elsewhere |
| Fips180Laws.MajorityBit | sdv-platform/security/crypto/sha256.hpp:137-137 | Maj takes, bit by bit, the vote of its three words |
| Fips180Laws.BigSigma0Bit | sdv-platform/security/crypto/sha256.hpp:136-136 | bit k is the sum of bits k + 2, k + 13 and k + 22, wrapping around |
| Fips180Laws.BigSigma1Bit | sdv-platform/security/crypto/sha256.hpp:133-133 | bit k is the sum of bits k + 6, k + 11 and k + 25, wrapping around |
| Fips180Laws.SmallSigma0Bit | sdv-platform/security/crypto/sha256.hpp:122-123 | bit k is the sum of bits k + 7 and k + 18, wrapping around, and of bit k + 3 while there is one |
| Fips180Laws.SmallSigma1Bit | sdv-platform/security/crypto/sha256.hpp:124-125 | bit k is the sum of bits k + 17 and k + 19, wrapping around, and of bit k + 10 while there is one |
| Fips180Laws.AddCounts | sdv-platform/security/crypto/sha256.hpp:135-140 | addition of words counts up by ones |
| Fips180Laws.Sum4Counts | sdv-platform/security/crypto/sha256.hpp:126-126 | the sum of four words counts up by ones in each of them |
| Fips180Laws.RoundVariables | sdv-platform/security/crypto/sha256.hpp:132-141 | what a round does to each of the eight variables |
| Fips180Laws.RoundsInOrder | sdv-platform/security/crypto/sha256.hpp:132-141 | round t uses constant t and word t, one round after the other |
| Fips180Laws.CompressVariables | sdv-platform/security/crypto/sha256.hpp:143-144 | each variable of the chaining value is increased by what it is after the rounds |
| Fips180Laws.BlockWordIsNumber | sdv-platform/security/crypto/sha256.hpp:116-119 | a word of a block is the number of its four bytes, most significant first |
| Fips180Laws.ScheduleSums | sdv-platform/security/crypto/sha256.hpp:114-127 | the first 16 schedule words are those numbers, the others the sums of four earlier words |
| Fips180Laws.WordBytesAreNumber | sdv-platform/security/crypto/sha256.hpp:66-69 | the four bytes of a word, most significant first, make its number |
| Fips180Laws.DigestOrder | sdv-platform/security/crypto/sha256.hpp:64-71 | a digest lists the eight variables in order, each as a number of four bytes |
| Fips180Laws.PaddedBytes | sdv-platform/security/crypto/sha256.hpp:46-63 | a padded message is the message, the byte 0x80, zeros, and the eight length bytes |
| Fips180Laws.BlocksInOrder | sdv-platform/security/crypto/sha256.hpp:33-43 | the blocks are compressed in order, from the initial value on |
| Sha256Hasher.ScheduleS0 | sdv-platform/security/crypto/sha256.hpp:122-123 | two shifted halves joined by or are the standard's rotations, in the first schedule function |
| Sha256Hasher.ScheduleS1 | sdv-platform/security/crypto/sha256.hpp:124-125 | the same for the second schedule function |
| Sha256Hasher.RoundS1 | sdv-platform/security/crypto/sha256.hpp:133-133 | the same for the round function on e |
| Sha256Hasher.RoundS0 | sdv-platform/security/crypto/sha256.hpp:136-136 | the same for the round function on a |
| Sha256Hasher.AppendInsideBlock | sdv-platform/security/crypto/sha256.hpp:34-38 | bytes that do not fill the buffer extend the leftover of the message and leave the chaining value |
| Sha256Hasher.AppendFillsBlock | sdv-platform/security/crypto/sha256.hpp:39-42 | bytes that fill the buffer complete one block, whose compression is the new chaining value, and leave nothing over |
| Sha256Hasher.Sha256.constructor | sdv-platform/security/crypto/sha256.hpp:22-29 | a new hasher has absorbed the empty message |
| Sha256Hasher.Sha256.Reset | sdv-platform/security/crypto/sha256.hpp:24-29 | a reset hasher has absorbed the empty message, whatever it held |
| Sha256Hasher.Sha256.ExpandSchedule | sdv-platform/security/crypto/sha256.hpp:114-127 | the in-place 64-word array ends as the standard's schedule of the block |
| Sha256Hasher.Sha256.ProcessBlock | sdv-platform/security/crypto/sha256.hpp:98-145 | the register loop replaces the chaining value by its compression with the block |
| Sha256Hasher.Sha256.AbsorbPiece | sdv-platform/security/crypto/sha256.hpp:34-42 | one turn of the loop appends its bytes to the absorbed message: the words stay the fold over the full blocks, the buffer the bytes left over |
| Sha256Hasher.Sha256.Update | sdv-platform/security/crypto/sha256.hpp:31-44 | appends the data to the absorbed message and to the 64-bit byte counter |
| Sha256Hasher.Sha256.AppendPadding | sdv-platform/security/crypto/sha256.hpp:48-55 | the loop that runs until 56 bytes are buffered terminates across the wrap, having appended the 1 bit and exactly the standard's zeros |
| Sha256Hasher.Sha256.AppendLength | sdv-platform/security/crypto/sha256.hpp:56-63 | the eight length bytes go into the buffer most significant first and complete a block |
| Sha256Hasher.Sha256.Finish | sdv-platform/security/crypto/sha256.hpp:46-72 | what is compressed is exactly the padding of section 5.1.1, and the result is the digest of section 6.2.2 of the absorbed message; a hasher finished before and not reset goes on from its padded message |
| Sha256Hasher.Sha256.SerializeWords | sdv-platform/security/crypto/sha256.hpp:64-71 | the digest bytes are the words, most significant byte first |
| Sha256Hasher.Sha256.DigestOf | sdv-platform/security/crypto/sha256.hpp:74-78 | the digest of any message, the empty one included |
| Hmac.DigestOfChunks | sdv-platform/security/crypto/sha256.hpp:31-72 | however a message is cut into chunks, feeding them in turn gives the digest of the whole |
| Hmac.KeyBlockBytes | sdv-platform/security/crypto/sha256.hpp:162-168 | byte by byte: a key of at most 64 bytes and zeros, or the 32 bytes of the digest of a longer one and zeros |
| Hmac.MacTexts | sdv-platform/security/crypto/sha256.hpp:170-184 | the two hashed texts, byte by byte: 64 key bytes plus 0x36 and the message; 64 key bytes plus 0x5c and the inner digest |
| Hmac.PrepareKey | sdv-platform/security/crypto/sha256.hpp:162-168 | keys of every length become one block: longer ones hashed first, then filled with zeros |
| Hmac.Pads | sdv-platform/security/crypto/sha256.hpp:170-174 | the two pads are the key block under the two constants |
| Hmac.HmacSha256 | sdv-platform/security/crypto/sha256.hpp:160-185 | the HMAC of section 2 of RFC 2104, for every key and message |
| Hmac.ConstantTimeEqual | sdv-platform/security/crypto/sha256.hpp:188-193 | the accumulated difference is zero exactly when the arrays are equal |
| Hex.ToHex | sdv-platform/security/crypto/sha256.hpp:80-89 | the lower-case hexadecimal text of the bytes |
| Hex.HexCharacters | sdv-platform/security/crypto/sha256.hpp:80-89 | each byte becomes two lower-case digits, the high half first |
| Hex.DigitValues | sdv-platform/services/ota/ota_manager.cpp:167-172 | exactly the hexadecimal digits of either case have a value, and which |
| Hex.JoinDecodes | sdv-platform/services/ota/ota_manager.cpp:167-176 | two characters decode to a byte exactly when they are, up to case, the byte's two digits |
| Hex.Decode | sdv-platform/services/ota/ota_manager.cpp:165-177 | the decoding loop succeeds exactly on hexadecimal text, then inverts the encoder up to letter case; when it fails, the text encodes nothing |
| Hex.HexInjective | sdv-platform/security/crypto/sha256.hpp:80-89 | equal texts come from equal bytes |
| Crc8.SerialIsRemainder | sdv-platform/middleware/e2e/e2e_protection.hpp:66-77 | the bit-serial register is the remainder of polynomial long division by 0x1D with its leading term, for every initial value |
| Crc8.BuildCrc8Table | sdv-platform/middleware/e2e/e2e_protection.hpp:68-77 | entry i of the table is the register i after eight zero bits |
| Crc8.ByteStep | sdv-platform/middleware/e2e/e2e_protection.hpp:83-84 | eight bit steps on a byte are eight shifts of the byte added to the register |
| Crc8.ComputeCrc | sdv-platform/middleware/e2e/e2e_protection.hpp:81-86 | the table-driven loop computes the bit-serial CRC of every byte sequence from every initial value |
| Crc8.CrcIsRemainder | sdv-platform/middleware/e2e/e2e_protection.hpp:81-86 | the CRC, before its final inversion, is the remainder of the long division |
| Crc8.CheckValue | sdv-platform/middleware/e2e/e2e_protection.hpp:66-86 | the CRC of the text "123456789" is 0x4B, the check value of the SAE J1850 CRC |
| Crc8.CrcContinues | sdv-platform/middleware/e2e/e2e_protection.hpp:93-94 | continuing with the inverted CRC gives the CRC of the concatenation |
| Crc8.SerialLinear | sdv-platform/middleware/e2e/e2e_protection.hpp:68-86 | the register is linear over GF(2) in initial value and message together |
| Crc8.SerialInjective | sdv-platform/middleware/e2e/e2e_protection.hpp:68-86 | for a fixed message, different initial values leave different registers |
| Crc8.BurstChangesRegister | sdv-platform/middleware/e2e/e2e_protection.hpp:68-86 | a difference confined to eight consecutive bits always changes the register |
| E2eProtection.Crc8WithDataId | sdv-platform/middleware/e2e/e2e_protection.hpp:89-95 | one CRC over the ID bytes and the payload |
| E2eProtection.E2eProfile1.CombinedCrc | sdv-platform/middleware/e2e/e2e_protection.hpp:117-119 | Profile 1: the CRC of the counter added to one CRC over ID and payload |
| E2eProtection.E2eProfile1.Protect | sdv-platform/middleware/e2e/e2e_protection.hpp:112-122 | attaches counter k modulo 16 and its CRC, and counts on modulo 256 |
| E2eProtection.E2eProfile1.Check | sdv-platform/middleware/e2e/e2e_protection.hpp:125-148 | answer and receiver memory are those of the specification; only an accepted frame changes the memory |
| E2eProtection.E2eProfile1.Reset | sdv-platform/middleware/e2e/e2e_protection.hpp:150-150 | both directions start over |
| E2eProtection.E2eProfile2.ChainedCrc | sdv-platform/middleware/e2e/e2e_protection.hpp:174-179 | Profile 2: one CRC over counter, nibble, payload and ID |
| E2eProtection.E2eProfile2.Protect | sdv-platform/middleware/e2e/e2e_protection.hpp:168-181 | attaches counter k modulo 256, the ID nibble and the CRC, and counts on |
| E2eProtection.E2eProfile2.Check | sdv-platform/middleware/e2e/e2e_protection.hpp:183-207 | answer and receiver memory are those of the specification; only an accepted frame changes the memory |
| E2eProtection.E2eProfile2.Reset | sdv-platform/middleware/e2e/e2e_protection.hpp:209-209 | both directions start over |
| E2eProtection.IdInNumbers | sdv-platform/middleware/e2e/e2e_protection.hpp:91-92 | the ID bytes are the remainder and the quotient by 256, the nibble the low half of the quotient |
| E2eProtection.Crc1IsRemainder | sdv-platform/middleware/e2e/e2e_protection.hpp:117-120 | the Profile 1 CRC is the sum of two polynomial remainders, both with the initial value 0xFF |
| E2eProtection.Crc2IsRemainder | sdv-platform/middleware/e2e/e2e_protection.hpp:174-179 | the Profile 2 CRC is the inverted remainder of counter, nibble, payload and ID in this order |
| E2eProtection.BurstRejected1 | sdv-platform/middleware/e2e/e2e_protection.hpp:112-148 | Profile 1 rejects every nonzero payload error within eight consecutive bits as WrongCrc and leaves the receiver unchanged, for every payload length |
| E2eProtection.BurstRejected2 | sdv-platform/middleware/e2e/e2e_protection.hpp:168-207 | Profile 2 does the same, also when the burst reaches into the header's counter and nibble |
| E2eProtection.PayloadBurstRejected2 | sdv-platform/middleware/e2e/e2e_protection.hpp:168-207 | Profile 2 rejects every nonzero payload error within eight consecutive bits as WrongCrc |
| E2eProtection.WrongId1 | sdv-platform/middleware/e2e/e2e_protection.hpp:89-148 | a Profile 1 frame is rejected under another Data ID exactly when the CRC tells the two IDs apart, whatever the payload |
| E2eProtection.WrongId2 | sdv-platform/middleware/e2e/e2e_protection.hpp:168-207 | a Profile 2 frame is rejected under another Data ID exactly when the CRC or the nibble tells the IDs apart |
| E2eProtection.SameIdCrcExactly | sdv-platform/middleware/e2e/e2e_protection.hpp:91-94 | the CRC confuses two Data IDs exactly when the table entry of the difference of their low bytes is the difference of their high bytes |
| E2eProtection.OneByteApart | sdv-platform/middleware/e2e/e2e_protection.hpp:88-95 | Data IDs that differ in exactly one byte are told apart |
| E2eProtection.WellKnownIdsApart | sdv-platform/middleware/e2e/e2e_protection.hpp:219-222 | a frame of one of the four well-known signals is rejected under each of the others, in both profiles; their values |
| E2eProtection.ConfusableIds | sdv-platform/middleware/e2e/e2e_protection.hpp:88-95 | two Data IDs the CRC does not tell apart |
| E2eProtection.ConfusableIds2 | sdv-platform/middleware/e2e/e2e_protection.hpp:172-179 | two Data IDs that neither the CRC nor the nibble tells apart |
| E2eProtection.PassingId1 | sdv-platform/middleware/e2e/e2e_protection.hpp:112-148 | a Profile 1 frame under an ID the CRC confuses with the receiver's gets exactly the counter's answer |
| E2eProtection.PassingId2 | sdv-platform/middleware/e2e/e2e_protection.hpp:168-207 | a Profile 2 frame under an ID that CRC and nibble confuse with the receiver's gets exactly the counter's answer |
| E2eProtection.MisroutedFramesPass | sdv-platform/middleware/e2e/e2e_protection.hpp:112-207 | for each profile a concrete pair of IDs: whatever the payload, the frame is not rejected under the wrong one and gets the counter's answer |
| E2eProtection.GenuineFrame1 | sdv-platform/middleware/e2e/e2e_protection.hpp:112-148 | a Profile 1 frame as sent passes the CRC, and the counter alone decides its status |
| E2eProtection.GenuineFrame2 | sdv-platform/middleware/e2e/e2e_protection.hpp:168-207 | the same for Profile 2 |
| E2eProtection.DeliveryStatus | sdv-platform/middleware/e2e/e2e_protection.hpp:112-207 | over every delivery of genuine frames, in any order and multiplicity, the answers of both profiles are those of the counter protocol |
| E2eChannel.OnlyGenuineFramesCount | sdv-platform/middleware/e2e/e2e_protection.hpp:112-207 | over every delivery with damaged and misrouted frames among the genuine ones, in both profiles, the receiver ends as if only the genuine ones had arrived |
| E2eChannel.ChannelStatus | sdv-platform/middleware/e2e/e2e_protection.hpp:112-207 | in every such delivery each damaged or misrouted frame is answered with WrongCrc, and each genuine one as in the run of genuine frames alone |
| E2eCounter.LosslessAccepted | sdv-platform/middleware/e2e/e2e_protection.hpp:134-147 | lossless in-order delivery is Ok for ever, across every wrap |
| E2eCounter.AcceptedSuccessor | sdv-platform/middleware/e2e/e2e_protection.hpp:134-147 | the sender indices of two frames accepted in succession differ by 1 modulo N; in order and with fewer than N missing, they are neighbours |
| E2eCounter.GapRecovery | sdv-platform/middleware/e2e/e2e_protection.hpp:134-147 | the status of every frame after g lost ones: N - g mod N rejected, the last as Repeated and the others as WrongSequence, then Ok; none rejected when N divides g |
| E2eCounter.GapMemory | sdv-platform/middleware/e2e/e2e_protection.hpp:143-146 | a WrongSequence answer does not move the receiver: its memory during and after a gap |
| E2eCounter.RejectedCount | sdv-platform/middleware/e2e/e2e_protection.hpp:134-147 | how many of the first m frames after a gap are rejected |
| Manifest.DecimalRoundTrip | sdv-platform/services/ota/ota_manager.cpp:34-34 | the decimal form of a version determines it |
| Manifest.DecimalDigits | sdv-platform/services/ota/ota_manager.cpp:34-34 | decimal notation, digit by digit |
| Manifest.WhiteSpace | sdv-platform/services/ota/ota_manager.cpp:46-46 | the six white-space characters |
| Manifest.StoullExactly | sdv-platform/services/ota/ota_manager.cpp:98-98 | the number read from every text of white space, sign, digits and a rest, with the 64-bit limit and the negation modulo 2^64 |
| Manifest.CanonicalTextExactly | sdv-platform/services/ota/ota_manager.cpp:29-39 | the signed text, spelled out |
| Manifest.CanonicalByte | sdv-platform/services/ota/ota_manager.cpp:37-38 | the signed bytes are its characters, one by one |
| Manifest.StoullOfDecimal | sdv-platform/services/ota/ota_manager.cpp:98-98 | every 64-bit version is read back from its decimal form |
| Manifest.CanonicalBytesInjective | sdv-platform/services/ota/ota_manager.cpp:29-39 | equal signed bytes mean equal signed fields, when name, hardware_id and payload_file hold no newline |
| ManifestAmbiguity.CanonicalAmbiguous | sdv-platform/services/ota/ota_manager.cpp:29-39 | another manifest of 64-bit version has the same signed bytes and other signed fields exactly when a field of this one contains the separator between it and a neighbour |
| ManifestAmbiguity.CollisionIsAmbiguous | sdv-platform/services/ota/ota_manager.cpp:29-39 | manifests with equal signed bytes agree in every signed field, unless the one contains a separator inside a field |
| ManifestAmbiguity.NameSplits | sdv-platform/services/ota/ota_manager.cpp:32-33 | a name that contains the hardware line's beginning can be read as a shorter name and a longer hardware identifier |
| ManifestAmbiguity.HardwareHoldsVersion | sdv-platform/services/ota/ota_manager.cpp:33-34 | a hardware identifier that contains a version line is signed by the same bytes as a manifest of that version |
| ManifestAmbiguity.FileHoldsVersion | sdv-platform/services/ota/ota_manager.cpp:34-35 | a payload file name that contains a version line is signed by the same bytes as a manifest of that version |
| ManifestParser.StringCharacters | sdv-platform/services/ota/ota_manager.cpp:47-62 | how a string is read, character by character |
| ManifestParser.FieldsByKey | sdv-platform/services/ota/ota_manager.cpp:94-105 | the six keys, which field each fills, and that nothing else is needed |
| ManifestParser.ScanWs | sdv-platform/services/ota/ota_manager.cpp:46-46 | skips exactly the white space, in bounds |
| ManifestParser.ScanString | sdv-platform/services/ota/ota_manager.cpp:47-62 | reads a string whose only escape is a backslash before a quote, or fails, in bounds |
| ManifestParser.ScanDigits | sdv-platform/services/ota/ota_manager.cpp:82-84 | reads the longest row of digits |
| ManifestParser.ScanValue | sdv-platform/services/ota/ota_manager.cpp:76-86 | reads a quoted or a bare value; a bare one without digits fails |
| ManifestParser.ScanKeyValues | sdv-platform/services/ota/ota_manager.cpp:64-92 | the index loop terminates on every input and builds the map the grammar describes; a later member replaces an earlier one |
| ManifestParser.ParseManifest | sdv-platform/services/ota/ota_manager.cpp:43-106 | returns on every input, with the fields of that map or with nothing |
| ManifestPrinter.ReadEscaped | sdv-platform/services/ota/ota_manager.cpp:51-61 | the reader undoes the escaping of a string exactly when the string does not end in a backslash |
| ManifestPrinter.ReadDocument | sdv-platform/services/ota/ota_manager.cpp:64-92 | a printed document, with or without a comma after its last member, is read back as the map of its members, whatever the order and the white space |
| ManifestPrinter.AcceptedLanguage | sdv-platform/services/ota/ota_manager.cpp:43-92 | the index loop accepts exactly the printed documents: what is accepted was printed, and its map is that of the members |
| ManifestPrinter.StoredExactly | sdv-platform/services/ota/ota_manager.cpp:87-87 | of several members with one key the last one counts |
| ManifestPrinter.ReadTexts | sdv-platform/services/ota/ota_manager.cpp:47-87 | no text the parser yields ends in a backslash |
| ManifestPrinter.ReadableExactly | sdv-platform/services/ota/ota_manager.cpp:43-106 | some file parses to a manifest exactly when its version has 64 bits and none of its texts ends in a backslash |
| ManifestPrinter.ManifestRoundTrip | sdv-platform/services/ota/ota_manager.cpp:43-106 | every manifest with a 64-bit version is parsed back from every printed form none of whose strings ends in a backslash |
| OtaDisk.FirstLineExactly | sdv-platform/services/ota/ota_manager.cpp:288-295 | a state file is read up to its first line break |
| OtaDisk.StateDefaults | sdv-platform/services/ota/ota_manager.cpp:262-276 | without state files, or with empty ones, slot a is active and the version is 0; otherwise what the first lines say; the inactive slot is the other one |
| OtaDisk.SlotNamesReadBack | sdv-platform/services/ota/ota_manager.cpp:262-295 | a written slot name is read back |
| OtaDisk.VersionReadsBack | sdv-platform/services/ota/ota_manager.cpp:270-295 | a written version is read back through the decimal state file |
| OtaManager.SignatureDecides | sdv-platform/services/ota/ota_manager.cpp:157-196 | the signature stage rejects exactly the manifests whose 64-character field is not, up to letter case, the hexadecimal HMAC of the canonical bytes; the whole check passes exactly when hardware and version fit as well |
| OtaManager.BootedExactly | sdv-platform/services/ota/ota_manager.cpp:111-125 | after power-up nothing is missing, what was there is unchanged, and what is new is empty, slot a or version 0 |
| OtaManager.ReasonsExactly | sdv-platform/services/ota/ota_manager.cpp:127-225 | each reason for a rejection, and acceptance, as an if and only if on the manifest's fields, the payload and the state |
| OtaManager.StagedFiles | sdv-platform/services/ota/ota_manager.cpp:218-224 | the payload goes under the manifest's file name, and the slot's other files stay |
| OtaManager.OtaManager.constructor | sdv-platform/services/ota/ota_manager.cpp:111-125 | creates what is missing on the disk, write by write, and starts idle |
| OtaManager.OtaManager.VerifyManifest | sdv-platform/services/ota/ota_manager.cpp:157-196 | computes the verdict: signature, then hardware, then version |
| OtaManager.OtaManager.StreamDigest | sdv-platform/services/ota/ota_manager.cpp:203-210 | streaming in pieces of 64 KiB gives the digest of the whole file |
| OtaManager.OtaManager.VerifyPayload | sdv-platform/services/ota/ota_manager.cpp:198-216 | accepts exactly the payloads whose digest text equals the manifest's |
| OtaManager.OtaManager.InstallToInactiveSlot | sdv-platform/services/ota/ota_manager.cpp:218-225 | rewrites the inactive slot and nothing else, through whatever intermediate contents |
| OtaManager.OtaManager.Fail | sdv-platform/services/ota/ota_manager.cpp:254-260 | ends idle, with what was staged unchanged |
| OtaManager.OtaManager.StartUpdate | sdv-platform/services/ota/ota_manager.cpp:127-155 | answer, manager state, disk and every image on the way are the specified ones, and the session invariant holds afterwards |
| OtaManager.OtaManager.Commit | sdv-platform/services/ota/ota_manager.cpp:227-240 | writes the version, then the slot; fails and writes nothing unless an update is pending |
| OtaManager.OtaManager.Rollback | sdv-platform/services/ota/ota_manager.cpp:242-252 | empties the inactive slot; fails and writes nothing unless an update is pending |
| OtaManager.StartKeepsInv | sdv-platform/services/ota/ota_manager.cpp:127-155 | whenever an update is pending, its manifest is authentic, for this hardware and newer than the installed version, and the inactive slot holds bytes with its digest under its file name |
| OtaRuns.FactoryInv | sdv-platform/services/ota/ota_manager.cpp:111-125 | a unit that is switched off and was never updated satisfies the invariant of runs |
| OtaRuns.EveryImageSafe | sdv-platform/services/ota/ota_manager.cpp:111-252 | no write of any operation, wherever the power fails, lowers the version, touches the active slot, or makes an image active that is newer than the recorded version |
| OtaRuns.RunSafety | sdv-platform/services/ota/ota_manager.cpp:111-260 | over every run with power losses and restarts, the installed version never decreases, the active image is at most the installed version, and a pending update has passed all checks |
| OtaRuns.ActiveSlotUntouched | sdv-platform/services/ota/ota_manager.cpp:218-260 | in every run, no event changes a file of the slot that was active before it |
| OtaRuns.CommitActivates | sdv-platform/services/ota/ota_manager.cpp:227-240 | in every run, a finished commit strictly raises the version, and the active slot then holds exactly the staged, authenticated bytes |
| OtaRuns.GoodPackageGoesLive | sdv-platform/services/ota/ota_manager.cpp:127-240 | nothing good is refused: an idle manager stages every authentic, fitting, newer and intact package, and the commit that follows makes its payload active under its version |
| OtaRuns.AcceptedExactly | sdv-platform/services/ota/ota_manager.cpp:127-216 | a start succeeds exactly when the manager is idle and the package is authentic, fitting, newer, intact and copied |
| OtaRuns.NextPackageIsGood | sdv-platform/services/ota/ota_manager.cpp:43-216 | for every unit below the last version whose hardware identifier does not end in a backslash, and every payload, a good package exists |
| OtaRuns.UpdatableExactly | sdv-platform/services/ota/ota_manager.cpp:43-216 | no other unit can be updated: a good package exists exactly under that condition |
| OtaRuns.ActiveIsTrusted | sdv-platform/services/ota/ota_manager.cpp:127-252 | in every run the active slot holds what the unit started with, or bytes with the digest of an authentic manifest for this hardware, not newer than the recorded version |
| OtaRuns.RollbackExactly | sdv-platform/services/ota/ota_manager.cpp:242-252 | rolling back a pending update empties the inactive slot, keeps both state files, the active slot and the version, and ends the update |
| OtaRuns.CommitEnds | sdv-platform/services/ota/ota_manager.cpp:227-252 | with nothing pending, commit and rollback change nothing; a finished commit leaves the manager idle |
| OtaRuns.FailedStartHarmless | sdv-platform/services/ota/ota_manager.cpp:127-155 | a start that fails leaves both state files and the active slot as they were, and the whole disk unless the copy itself failed |
| OtaRuns.CommitImages | sdv-platform/services/ota/ota_manager.cpp:231-237 | the two images a commit leaves: new version with old slot, then new version with new slot |
| OtaRuns.InterruptedCommit | sdv-platform/services/ota/ota_manager.cpp:231-237 | after a power loss between the two writes the old slot is active under the new version, and over every later run only a strictly newer package is accepted |
| OtaRuns.RestartedIsRun | sdv-platform/services/ota/ota_manager.cpp:111-125 | a pending commit can be cut off behind none, one or both of its writes and the unit started again, with the disk of `Restarted` |
| OtaRuns.RetryExactly | sdv-platform/services/ota/ota_manager.cpp:231-237 | after a commit cut off behind k of its writes and a restart, the same package is accepted exactly when k = 0; the new slot is active exactly when k = 2 |
| KalmanFilter.KalmanFilter.Update | sdv-platform/services/vehicle-signals/kalman_filter.hpp:56-66 | one step of the recursion, for all parameters without a zero divisor; positive Q and R and a nonnegative covariance stay so |
| KalmanFilter.KalmanFilter.Seed | sdv-platform/services/vehicle-signals/kalman_filter.hpp:71-74 | the estimate starts at the given value with the initial covariance |
| KalmanFilter.CovarianceBounds | sdv-platform/services/vehicle-signals/kalman_filter.hpp:56-86 | after every update QR/(Q+R) <= P < R, and strictly above it from a positive covariance |
| KalmanFilter.CovarianceContracts | sdv-platform/services/vehicle-signals/kalman_filter.hpp:58-63 | one update brings two covariances together by at least the factor (R/(Q+R))^2 |
| KalmanFilter.CovarianceConverges | sdv-platform/services/vehicle-signals/kalman_filter.hpp:56-66 | n updates bring any two covariances together by at least that factor to the n-th power |
| KalmanFilter.FixedPoint | sdv-platform/services/vehicle-signals/kalman_filter.hpp:58-63 | the covariance stands still exactly at the root of P^2 + QP - QR |
| KalmanFilter.ConvergesToFixedPoint | sdv-platform/services/vehicle-signals/kalman_filter.hpp:56-66 | from every start the covariance converges geometrically to that root |
| KalmanFilter.ErrorExactly | sdv-platform/services/vehicle-signals/kalman_filter.hpp:61-62 | the error after an update is exactly R/(P+Q+R) of the error before |
| KalmanFilter.BestWeight | sdv-platform/services/vehicle-signals/kalman_filter.hpp:58-63 | the filter's weight is the only one with the least error variance, the new covariance is that variance, and the new estimate is mixed with that weight |
| KalmanFilter.ErrorStep | sdv-platform/services/vehicle-signals/kalman_filter.hpp:61-62 | one update shrinks the error against its measurement by at least R/(Q+R) |
| KalmanFilter.EstimateConverges | sdv-platform/services/vehicle-signals/kalman_filter.hpp:56-66 | under constant input z, the error after n updates is at most (R/(Q+R))^n of the first |
| KalmanFilter.EstimateBetween | sdv-platform/services/vehicle-signals/kalman_filter.hpp:61-62 | the new estimate stays in every interval that holds the old one and the measurement |
| KalmanFilter.ConvergenceExactly | sdv-platform/services/vehicle-signals/kalman_filter.hpp:80-86 | the convergence is affine in the covariance, one at QR/(Q+R) |
| KalmanFilter.ConvergenceWithoutNoise | sdv-platform/services/vehicle-signals/kalman_filter.hpp:83-85 | without process noise the filter counts as converged |
| KalmanFilter.FallsAboveFixedPoint | sdv-platform/services/vehicle-signals/kalman_filter.hpp:58-63 | an update does not raise the covariance exactly at and above the fixed point |
| KalmanFilter.ConvergenceRises | sdv-platform/services/vehicle-signals/kalman_filter.hpp:80-86 | the convergence measure does not fall exactly when the covariance is at or above the fixed point |
| KalmanFilter.ServiceConvergence | sdv-platform/services/vehicle-signals/vehicle_speed_service.hpp:198-198 | with the service's parameters, convergence never falls between seeds and stays in [0, 1) |
| VehicleSpeed.FrameReads | sdv-platform/services/vehicle-signals/vehicle_speed_service.hpp:106-108 | a frame with a number in its first two bytes, low byte first, reads that many hundredths of a km/h |
| VehicleSpeed.SpeedFrames | sdv-platform/services/vehicle-signals/vehicle_speed_service.hpp:104-104 | which frames carry the speed |
| VehicleSpeed.AcceptedExactly | sdv-platform/services/vehicle-signals/vehicle_speed_service.hpp:166-171 | acceptance in numbers: 0 to 400 km/h, at most 15 from a held speed |
| VehicleSpeed.HeldExactly | sdv-platform/services/vehicle-signals/vehicle_speed_service.hpp:113-133 | what a cycle holds afterwards and with which quality: the accepted reading, or the old one for up to 200 ms |
| VehicleSpeed.FrameIsHeld | sdv-platform/services/vehicle-signals/vehicle_speed_service.hpp:97-119 | the number in the last speed frame among the first 64 is the reading, and is held in hundredths if it is accepted |
| VehicleSpeed.FilteredExactly | sdv-platform/services/vehicle-signals/vehicle_speed_service.hpp:113-137 | the filter's two values after every cycle, in numbers: mixing while a speed is held, taking over the first reading, standing still without one |
| VehicleSpeed.SampleExactly | sdv-platform/services/vehicle-signals/vehicle_speed_service.hpp:173-185 | every published field |
| VehicleSpeed.NewestIsLast | sdv-platform/services/vehicle-signals/vehicle_speed_service.hpp:100-111 | the reading of a cycle is that of the last speed frame drained |
| VehicleSpeed.NoSpeedFrame | sdv-platform/services/vehicle-signals/vehicle_speed_service.hpp:100-111 | there is no reading exactly when no drained frame has the speed identifier and two bytes |
| VehicleSpeed.VehicleSpeedService.Drain | sdv-platform/services/vehicle-signals/vehicle_speed_service.hpp:97-111 | takes at most 64 frames and leaves the rest pending |
| VehicleSpeed.VehicleSpeedService.Cycle | sdv-platform/services/vehicle-signals/vehicle_speed_service.hpp:94-142 | one cycle is one step of the specified state machine, it publishes that state, and it keeps the invariant |
| VehicleSpeed.StepInv | sdv-platform/services/vehicle-signals/vehicle_speed_service.hpp:94-142 | every cycle keeps: Invalid exactly when nothing is held, held speed and filter output between 0 and 400, covariance between the fixed point and its initial value |
| VehicleSpeed.QualityMeansHistory | sdv-platform/services/vehicle-signals/vehicle_speed_service.hpp:113-133 | over every run: Valid exactly if the last cycle accepted; Degraded exactly if an earlier reading is still held, not replaced and at most 200 ms old; otherwise Invalid; and what is held is that reading |
| VehicleSpeed.JumpsBounded | sdv-platform/services/vehicle-signals/vehicle_speed_service.hpp:166-171 | with no Invalid in between, the held speed moves by at most 15 km/h for each acceptance |
| VehicleSpeed.ConvergenceBetweenSeeds | sdv-platform/services/vehicle-signals/vehicle_speed_service.hpp:113-138 | in every cycle that does not seed, the published convergence does not fall; it always lies in [0, 1) |
| VehicleSpeed.RecoversBySecondLateCycle | sdv-platform/services/vehicle-signals/vehicle_speed_service.hpp:113-133 | a constant speed in range is Valid exactly when nothing is held, or it is near the held speed, or the second cycle more than 200 ms after the last valid time has come |
| VehicleSpeed.FilterTracks | sdv-platform/services/vehicle-signals/vehicle_speed_service.hpp:135-138 | under a constant accepted speed the signal stays Valid, and the filtered output approaches the speed by the factor R/(Q+R) per cycle |
| Watchdog.AliveWatchdog.RegisterTask | sdv-platform/middleware/ara_phm/watchdog.hpp:85-88 | adds a fresh task, and keeps one that is already registered |
| Watchdog.AliveWatchdog.CheckIn | sdv-platform/middleware/ara_phm/watchdog.hpp:93-100 | counts, revives and clears one task, and ignores an unknown name |
| Watchdog.AliveWatchdog.ResetAll | sdv-platform/middleware/ara_phm/watchdog.hpp:119-122 | forgets all tasks |
| Watchdog.AliveWatchdog.SuperviseTask | sdv-platform/middleware/ara_phm/watchdog.hpp:143-159 | one look at one task, and whether it calls the failure action |
| Watchdog.AliveWatchdog.SuperviseOnce | sdv-platform/middleware/ara_phm/watchdog.hpp:137-162 | one pass looks at every task exactly once, and calls the actions of exactly those that reach their threshold |
| Watchdog.StatusMeansHistory | sdv-platform/middleware/ara_phm/watchdog.hpp:93-159 | for every history of checkpoints and ticks, the exact counters and the exact status: Failed if and only if the silent ticks, without the one that noticed the last checkpoint, number at least max(1, max_missed_alives) |
| Watchdog.FiresAtThreshold | sdv-platform/middleware/ara_phm/watchdog.hpp:151-155 | the failure action is called exactly by the tick with which the silence reaches the threshold |
| Watchdog.OncePerSilentStretch | sdv-platform/middleware/ara_phm/watchdog.hpp:143-155 | in a silent stretch the action is called once if the threshold is reached, and never otherwise |
| Watchdog.TasksAreIndependent | sdv-platform/middleware/ara_phm/watchdog.hpp:85-162 | in every run of the whole watchdog each task is in the state of its own history alone |
| Watchdog.FailedMeansSilent | sdv-platform/middleware/ara_phm/watchdog.hpp:85-162 | after every run of the whole watchdog, status and next action of every task are those of its silence |
| BlindSpot.BlindSpotDetection.Process | sdv-platform/apps/adas/blind_spot.hpp:120-159 | one frame changes one side's debounce and warning as specified, and publishes exactly the shown warning; below the minimum speed both warnings go out and nothing else changes |
| BlindSpot.DetectedAfterHit | sdv-platform/apps/adas/blind_spot.hpp:131-140 | what a detection does to the declarative condition: it can only complete a row of three |
| BlindSpot.DetectedAfterMiss | sdv-platform/apps/adas/blind_spot.hpp:134-138 | what a miss does to it: it undoes a detection exactly as the sixth miss in a row |
| BlindSpot.ActiveMeansDetected | sdv-platform/apps/adas/blind_spot.hpp:114-140 | for every sequence of processed frames, counters and flag: active exactly when some three detections in a row have no six misses in a row after them |
| BlindSpot.SidesAreIndependent | sdv-platform/apps/adas/blind_spot.hpp:113-128 | in every run a side's debounce depends on its own frames processed at speed alone; inactive frames and the other side leave no trace |
| BlindSpot.ActiveInEveryRun | sdv-platform/apps/adas/blind_spot.hpp:106-159 | after every run of the whole function a side is active exactly when detected in its own history |
| BlindSpot.ShownExactly | sdv-platform/apps/adas/blind_spot.hpp:120-151 | in every run the shown warning, exactly: there is one if and only if the side is detected and its last frame was processed at speed with no refused frame since, and it is audible if and only if the driver signalled toward the side at that frame; never haptic |
| BlindSpot.DetectionsExactly | sdv-platform/apps/adas/blind_spot.hpp:106-138 | a frame counts as a detection with an object and a confidence of at least 0.6, and counts at all with a valid speed of at least 10 km/h |
| BlindSpot.PublishedExactly | sdv-platform/apps/adas/blind_spot.hpp:120-158 | a frame is answered with a warning exactly when the function is active and the side detected; the whole warning: side of the frame, confidence, range, time of the call, audible exactly with the turn signal toward that side |

## Left out

- The C++ memory model: the ring buffer's threads interleave atomic steps, and a load of the other thread's index may return any value stored since the one it saw last; acquire and release axioms are not modelled.
- `empty`, `full` and `size` called by a third thread while both others run: each reads two indices of different age, and the answer is approximate by design.
- Cryptographic strength and timing: agreement with the standards only. That equal digests mean equal bytes is not claimed anywhere.
- IEEE rounding: speeds, covariances and confidences are exact reals, and nothing is claimed about float results.
- KalmanFilter.KalmanFilter.Update: requires a divisor other than zero, where the source yields an infinity or no number; the bounds are stated for positive Q and R.
- Vehicle speed: the metric counters, the log line, the thread and `latest`, which only copies fields.
- OTA: file streams and directory creation. Each state-file write is atomic, the payload does not change between verification and copy, `payload_file` is a plain file name, and writes, `remove_all` and `create_directories` succeed; only the copy may fail, leaving anything in the inactive slot.
- OTA: message texts are reasons of an enumeration; `toString` and the demo programs are not modelled.
- E2E: damage longer than eight bits, and damage to the CRC byte or to a Profile 1 counter; `NoNewData` and `Error` are never produced by the code and only listed.
- Watchdog: the 10 ms sleep, the lock and the thread; the order of `std::map` iteration (a pass answers with a set of names) and what a callback does; the expected period, which the code never reads.
- Blind spot: message-bus plumbing; the speed sample enters as a value and a validity flag.
- SHA-256: the constants are kept as numbers in rows of eight, and the fixed-size array types of the interface are lengths in contracts.
- `vehicle_model.hpp` and `physical_units.hpp`: trigonometry without an exact theory, and unit ratios.
- `aeb_function.hpp`, `adaptive_cruise.hpp`, `lane_keeping.hpp`, `dtc_store.hpp`, `health_monitor.hpp`: thresholds, clamps and small counters that would only add easy members.
- `ota_pipeline.hpp`, `message_bus.hpp`, `service_registry.hpp`, `metrics_collector.hpp`, `sdv_log.hpp`, `sovd_service.hpp`, `sdv_concepts.hpp`, the package generator and the build files: wrappers, plumbing and text.
