/**
 * The SNTP client: one request stamped with the local clock, one reply, and the offset
 * arithmetic on the four timestamps T1 (originate), T2 (receive), T3 (transmit) and T4 (the
 * local clock when the reply arrived).
 *
 * The arithmetic is done separately on the seconds words and on the fraction words, each in
 * unsigned 32-bit arithmetic, exactly as the program does it. The value it reports is
 * |offset - delay|, where offset and delay are the quantities of section 5 of RFC 4330.
 */
module Client {
  import opened Wire
  import opened NtpTime
  import opened Packet

  /** The request struct: zeroed, then the header byte and the transmit timestamp through `htonl`. */
  function RequestPacket(host: ByteOrder, t1: Timestamp): (p: Packet)
    ensures LeapIndicator(p.livnm) == 0 && VersionNumber(p.livnm) == NTP_VERSION && Mode(p.livnm) == MODE_CLIENT
    ensures Ntohl(host, p.transmitSeconds) == t1.seconds && Ntohl(host, p.transmitFraction) == t1.fraction
    ensures p.stratum == 0 && p.poll == 0 && p.precision == 0 && p.rootDelay == 0
    ensures p.rootDispersion == 0 && p.resourceIdentifier == 0 && p.referenceSeconds == 0 && p.referenceFraction == 0
    ensures p.originateSeconds == 0 && p.originateFraction == 0 && p.receiveSeconds == 0 && p.receiveFraction == 0
  {
    NtohlHtonl(host, t1.seconds);
    NtohlHtonl(host, t1.fraction);
    ZERO.(livnm := CLIENT_LIVNM,
          transmitSeconds := Htonl(host, t1.seconds),
          transmitFraction := Htonl(host, t1.fraction))
  }

  /**
   * The request on the wire: the header byte 0x23, 39 zero bytes, and the transmit timestamp
   * most significant byte first at offsets 40-43 (seconds) and 44-47 (fraction).
   */
  function RequestBytes(t1: Timestamp): (b: seq<uint8>)
    ensures |b| == PACKET_SIZE
    ensures TimestampAt(b, 40) == t1
  {
    var b := [CLIENT_LIVNM] + Zeros(39) + BigEndianBytes(t1.seconds) + BigEndianBytes(t1.fraction);
    assert b[40..44] == BigEndianBytes(t1.seconds) && b[44..48] == BigEndianBytes(t1.fraction);
    BigEndianWordRoundTrip(t1.seconds);
    BigEndianWordRoundTrip(t1.fraction);
    b
  }

  /** Whatever the host's byte order, the request struct's memory is `RequestBytes`. */
  lemma {:induction false} RequestImage(host: ByteOrder, t1: Timestamp)
    ensures Image(host, RequestPacket(host, t1)) == RequestBytes(t1)
  {
    var p := RequestPacket(host, t1);
    var b := Image(host, p);
    RequestImageHead(host, p);
    NetworkTimestampAt(host, p, 9, t1);
    assert b == b[..40] + b[40..48];
  }

  /** A struct that is zero but for its header byte 0x23 and its transmit words: the first 40 bytes. */
  lemma {:induction false} RequestImageHead(host: ByteOrder, p: Packet)
    requires p == ZERO.(livnm := CLIENT_LIVNM, transmitSeconds := p.transmitSeconds,
                        transmitFraction := p.transmitFraction)
    ensures Image(host, p)[..40] == [CLIENT_LIVNM] + Zeros(39)
  {
    var b := Image(host, p);
    ImageWordsPrefix(host, p, 9);
    StoreZeroWords(host, WordsOf(p)[..9]);
    assert b[..4] == [CLIENT_LIVNM, 0, 0, 0];
    assert b[..40] == b[..4] + b[4..40];
    assert [CLIENT_LIVNM, 0, 0, 0] + Zeros(36) == [CLIENT_LIVNM] + Zeros(39);
  }

  /** Lines 83-89: convert the clock reading, zero the request, set its header and transmit words. */
  method BuildRequest(host: ByteOrder, clock: TimeVal, request: PacketStruct) returns (t1: Timestamp)
    requires ConvertibleUsec(clock.usec)
    modifies request
    ensures t1 == ConvertTime(clock)
    ensures request.Value() == RequestPacket(host, t1)
  {
    t1 := ConvertTime(clock);
    request.Clear();
    request.livnm := CLIENT_LIVNM;
    request.transmitSeconds := Htonl(host, t1.seconds);
    request.transmitFraction := Htonl(host, t1.fraction);
    assert request.Value() == ZERO.(livnm := CLIENT_LIVNM, transmitSeconds := Htonl(host, t1.seconds),
                                    transmitFraction := Htonl(host, t1.fraction));
  }

  /** The reply struct after the `ntohl` pass: the six timestamp words of T1, T2, T3 only. */
  function HostOrderReply(host: ByteOrder, r: Packet): (h: Packet)
    ensures Htonl(host, h.originateSeconds) == r.originateSeconds && Htonl(host, h.originateFraction) == r.originateFraction
    ensures Htonl(host, h.receiveSeconds) == r.receiveSeconds && Htonl(host, h.receiveFraction) == r.receiveFraction
    ensures Htonl(host, h.transmitSeconds) == r.transmitSeconds && Htonl(host, h.transmitFraction) == r.transmitFraction
    ensures h.(originateSeconds := r.originateSeconds, originateFraction := r.originateFraction,
               receiveSeconds := r.receiveSeconds, receiveFraction := r.receiveFraction,
               transmitSeconds := r.transmitSeconds, transmitFraction := r.transmitFraction) == r
  {
    HtonlNtohl(host, r.originateSeconds);
    HtonlNtohl(host, r.originateFraction);
    HtonlNtohl(host, r.receiveSeconds);
    HtonlNtohl(host, r.receiveFraction);
    HtonlNtohl(host, r.transmitSeconds);
    HtonlNtohl(host, r.transmitFraction);
    r.(receiveSeconds := Ntohl(host, r.receiveSeconds),
       originateSeconds := Ntohl(host, r.originateSeconds),
       transmitSeconds := Ntohl(host, r.transmitSeconds),
       receiveFraction := Ntohl(host, r.receiveFraction),
       originateFraction := Ntohl(host, r.originateFraction),
       transmitFraction := Ntohl(host, r.transmitFraction))
  }

  /** Lines 113-118: rewrite the six timestamp words of the reply in place, nothing else. */
  method ConvertReplyTimestamps(host: ByteOrder, reply: PacketStruct)
    modifies reply
    ensures reply.Value() == HostOrderReply(host, old(reply.Value()))
  {
    ConvertSecondsWords(host, reply);
    ConvertFractionWords(host, reply);
  }

  /** Lines 113-115: the seconds words of T2, T1 and T3. */
  method ConvertSecondsWords(host: ByteOrder, reply: PacketStruct)
    modifies reply
    ensures reply.Value() == old(reply.Value()).(
      receiveSeconds := Ntohl(host, old(reply.receiveSeconds)),
      originateSeconds := Ntohl(host, old(reply.originateSeconds)),
      transmitSeconds := Ntohl(host, old(reply.transmitSeconds)))
  {
    reply.receiveSeconds := Ntohl(host, reply.receiveSeconds);
    reply.originateSeconds := Ntohl(host, reply.originateSeconds);
    reply.transmitSeconds := Ntohl(host, reply.transmitSeconds);
  }

  /** Lines 116-118: the fraction words of T2, T1 and T3. */
  method ConvertFractionWords(host: ByteOrder, reply: PacketStruct)
    modifies reply
    ensures reply.Value() == old(reply.Value()).(
      receiveFraction := Ntohl(host, old(reply.receiveFraction)),
      originateFraction := Ntohl(host, old(reply.originateFraction)),
      transmitFraction := Ntohl(host, old(reply.transmitFraction)))
  {
    reply.receiveFraction := Ntohl(host, reply.receiveFraction);
    reply.originateFraction := Ntohl(host, reply.originateFraction);
    reply.transmitFraction := Ntohl(host, reply.transmitFraction);
  }

  /** `ntohl` of the word at index `i` is the big-endian value of its four bytes in memory. */
  lemma {:induction false} NtohlOfImageWord(host: ByteOrder, p: Packet, i: nat)
    requires i < WORD_COUNT
    ensures Ntohl(host, WordsOf(p)[i]) == FromBigEndian(Image(host, p)[4 + 4 * i .. 8 + 4 * i])
  {
    ImageWordAt(host, p, i);
    BigEndianWordRoundTrip(Ntohl(host, WordsOf(p)[i]));
  }

  /**
   * Once the reply's bytes are in the struct, the `ntohl` pass leaves in T1, T2 and T3 the
   * big-endian values of bytes 24-31, 32-39 and 40-47, on every host.
   */
  lemma {:induction false} HostOrderReplyReadsWire(host: ByteOrder, b: seq<uint8>)
    requires |b| == PACKET_SIZE
    ensures var r := HostOrderReply(host, Parse(host, b));
      Timestamp(r.originateSeconds, r.originateFraction) == TimestampAt(b, 24) &&
      Timestamp(r.receiveSeconds, r.receiveFraction) == TimestampAt(b, 32) &&
      Timestamp(r.transmitSeconds, r.transmitFraction) == TimestampAt(b, 40)
  {
    var p := Parse(host, b);
    var ws := WordsOf(p);
    var r := HostOrderReply(host, p);
    assert r.originateSeconds == Ntohl(host, ws[5]) && r.originateFraction == Ntohl(host, ws[6]);
    assert r.receiveSeconds == Ntohl(host, ws[7]) && r.receiveFraction == Ntohl(host, ws[8]);
    assert r.transmitSeconds == Ntohl(host, ws[9]) && r.transmitFraction == Ntohl(host, ws[10]);
    ImageParse(host, b);
    NtohlTimestampAt(host, p, 5);
    NtohlTimestampAt(host, p, 7);
    NtohlTimestampAt(host, p, 9);
  }

  /** `ntohl` of the two words at index `i` is the big-endian timestamp at their offset in memory. */
  lemma {:induction false} NtohlTimestampAt(host: ByteOrder, p: Packet, i: nat)
    requires i + 1 < WORD_COUNT
    ensures Timestamp(Ntohl(host, WordsOf(p)[i]), Ntohl(host, WordsOf(p)[i + 1]))
         == TimestampAt(Image(host, p), 4 + 4 * i)
  {
    NtohlOfImageWord(host, p, i);
    NtohlOfImageWord(host, p, i + 1);
    assert 4 + 4 * (i + 1) == 8 + 4 * i;
  }

  /**
   * `sec` (and `usec`) of lines 120-121: ((T2 - T1) + (T3 - T4)) / 2 with every operation in
   * unsigned 32-bit arithmetic. The result is half of the sum taken modulo 2^32.
   */
  function Offset(t1: uint32, t2: uint32, t3: uint32, t4: uint32): (r: uint32)
    ensures r < HALF_WORD
    ensures ToUint32(2 * r) == ToUint32((t2 - t1) + (t3 - t4))
         || ToUint32(2 * r + 1) == ToUint32((t2 - t1) + (t3 - t4))
  {
    var m := ToUint32(ToUint32(t2 - t1) + ToUint32(t3 - t4));
    ModAdd(t2 - t1, t3 - t4);
    HalveWord(m);
    m / 2
  }

  /** Halving a word and doubling it back loses at most the low bit, and needs no wrap. */
  lemma HalveWord(m: uint32)
    ensures m / 2 < HALF_WORD
    ensures ToUint32(2 * (m / 2)) == m || ToUint32(2 * (m / 2) + 1) == m
  {
    var r := m / 2;
    assert 2 * r == m || 2 * r + 1 == m;
    assert 0 <= 2 * r + 1 < WORD;
  }

  /** `dsec` (and `dusec`) of lines 123-124: (T4 - T1) - (T3 - T2) modulo 2^32. */
  function Delay(t1: uint32, t2: uint32, t3: uint32, t4: uint32): (r: uint32)
    ensures r == ToUint32((t4 - t1) - (t3 - t2))
  {
    ModSub(t4 - t1, t3 - t2);
    ToUint32(ToUint32(t4 - t1) - ToUint32(t3 - t2))
  }

  /**
   * `abs(a - b)` of lines 126-127: the unsigned difference is passed as an `int` and the result
   * stored back unsigned. It is the shorter way round the 2^32 circle from one value to the other.
   * A difference of exactly 2^31 becomes INT_MIN, whose `abs` is undefined.
   */
  function AbsDiff(a: uint32, b: uint32): (r: uint32)
    requires ToUint32(a - b) != HALF_WORD
    ensures r < HALF_WORD
    ensures r == ToUint32(a - b) || r == ToUint32(b - a)
    ensures r <= ToUint32(a - b) && r <= ToUint32(b - a)
    ensures r == 0 <==> a == b
  {
    AbsDefined(a, b);
    NegatedDifference(a, b);
    ToUint32(Abs(ToInt32(ToUint32(a - b))))
  }

  /** The two modular differences of `a` and `b` add up to 2^32, unless both are zero. */
  lemma NegatedDifference(a: uint32, b: uint32)
    ensures ToUint32(b - a) == if a == b then 0 else WORD - ToUint32(a - b)
    ensures ToUint32(a - b) == 0 <==> a == b
  {
    if a < b {
      assert ToUint32(a - b) == WORD + a - b;
    } else if b < a {
      assert ToUint32(b - a) == WORD + b - a;
    }
  }

  /** A difference other than 2^31 is not INT_MIN once passed as an `int`. */
  lemma AbsDefined(a: uint32, b: uint32)
    requires ToUint32(a - b) != HALF_WORD
    ensures ToInt32(ToUint32(a - b)) != -HALF_WORD
  {
  }

  /** The C behaviour of the last step is defined for these four words. */
  predicate ReportDefined(t1: uint32, t2: uint32, t3: uint32, t4: uint32)
  {
    ToUint32(Offset(t1, t2, t3, t4) - Delay(t1, t2, t3, t4)) != HALF_WORD
  }

  /** The value the client reports for one component: |offset - delay| as computed in C. */
  function Reported(t1: uint32, t2: uint32, t3: uint32, t4: uint32): (r: uint32)
    requires ReportDefined(t1, t2, t3, t4)
    ensures r < HALF_WORD
    ensures r == 0 <==> Offset(t1, t2, t3, t4) == Delay(t1, t2, t3, t4)
  {
    AbsDiff(Offset(t1, t2, t3, t4), Delay(t1, t2, t3, t4))
  }

  predicate OffsetComputable(t1: Timestamp, t2: Timestamp, t3: Timestamp, t4: Timestamp)
  {
    ReportDefined(t1.seconds, t2.seconds, t3.seconds, t4.seconds) &&
    ReportDefined(t1.fraction, t2.fraction, t3.fraction, t4.fraction)
  }

  /** The pair the client prints: each component from its own words, no carry between them. */
  function ClockOffset(t1: Timestamp, t2: Timestamp, t3: Timestamp, t4: Timestamp): (r: (uint32, uint32))
    requires OffsetComputable(t1, t2, t3, t4)
    ensures r.0 < HALF_WORD && r.1 < HALF_WORD
    ensures r.0 == 0 <==> Offset(t1.seconds, t2.seconds, t3.seconds, t4.seconds) == Delay(t1.seconds, t2.seconds, t3.seconds, t4.seconds)
    ensures r.1 == 0 <==> Offset(t1.fraction, t2.fraction, t3.fraction, t4.fraction) == Delay(t1.fraction, t2.fraction, t3.fraction, t4.fraction)
  {
    (Reported(t1.seconds, t2.seconds, t3.seconds, t4.seconds),
     Reported(t1.fraction, t2.fraction, t3.fraction, t4.fraction))
  }

  /**
   * Lines 120-127 for one component: the program evaluates the same three statements once on
   * the seconds words (`sec`, `dsec`) and once on the fraction words (`usec`, `dusec`).
   */
  method ComputeComponent(t1: uint32, t2: uint32, t3: uint32, t4: uint32) returns (r: uint32)
    requires ReportDefined(t1, t2, t3, t4)
    ensures r == Reported(t1, t2, t3, t4)
    ensures r < HALF_WORD
  {
    var sec := ToUint32(ToUint32(t2 - t1) + ToUint32(t3 - t4)) / 2;
    var dsec := ToUint32(ToUint32(t4 - t1) - ToUint32(t3 - t2));
    assert sec == Offset(t1, t2, t3, t4) && dsec == Delay(t1, t2, t3, t4);
    AbsDefined(sec, dsec);
    r := ToUint32(Abs(ToInt32(ToUint32(sec - dsec))));
  }

  /** Lines 120-127, with the reply's timestamps already in host order. */
  method ComputeOffset(t1: Timestamp, t2: Timestamp, t3: Timestamp, t4: Timestamp)
    returns (sec: uint32, usec: uint32)
    requires OffsetComputable(t1, t2, t3, t4)
    ensures (sec, usec) == ClockOffset(t1, t2, t3, t4)
    ensures sec < HALF_WORD && usec < HALF_WORD
  {
    sec := ComputeComponent(t1.seconds, t2.seconds, t3.seconds, t4.seconds);
    usec := ComputeComponent(t1.fraction, t2.fraction, t3.fraction, t4.fraction);
  }

  /** Section 5 of RFC 4330: clock offset ((T2 - T1) + (T3 - T4)) / 2, over the integers. */
  function RfcOffset(t1: int, t2: int, t3: int, t4: int): int
  {
    ((t2 - t1) + (t3 - t4)) / 2
  }

  /** Section 5 of RFC 4330: round-trip delay (T4 - T1) - (T3 - T2), over the integers. */
  function RfcDelay(t1: int, t2: int, t3: int, t4: int): int
  {
    (t4 - t1) - (t3 - t2)
  }

  /** When the true sum is in [0, 2^32), the unsigned offset is the RFC offset. */
  lemma {:induction false} OffsetAgreesWithRfc(t1: uint32, t2: uint32, t3: uint32, t4: uint32)
    requires 0 <= (t2 - t1) + (t3 - t4) < WORD
    ensures Offset(t1, t2, t3, t4) == RfcOffset(t1, t2, t3, t4)
  {
    var sum := (t2 - t1) + (t3 - t4);
    ModAdd(t2 - t1, t3 - t4);
    assert ToUint32(sum) == sum;
    assert ToUint32(ToUint32(t2 - t1) + ToUint32(t3 - t4)) == sum;
  }

  /**
   * When the server's clock is behind (the true sum is in [-2^32, 0)), the unsigned arithmetic
   * does not give a negative offset but 2^31 minus its magnitude, rounded down.
   */
  lemma {:induction false} NegativeOffsetWraps(t1: uint32, t2: uint32, t3: uint32, t4: uint32)
    requires -WORD <= (t2 - t1) + (t3 - t4) < 0
    ensures Offset(t1, t2, t3, t4) == HALF_WORD + RfcOffset(t1, t2, t3, t4)
  {
    var sum := (t2 - t1) + (t3 - t4);
    ModAdd(t2 - t1, t3 - t4);
    ShiftByWords(sum, 1);
    assert ToUint32(sum + WORD) == sum + WORD;
    assert ToUint32(ToUint32(t2 - t1) + ToUint32(t3 - t4)) == sum + WORD;
    var q := sum / 2;
    assert sum == 2 * q + sum % 2;
    assert sum + WORD == 2 * (q + HALF_WORD) + sum % 2;
    assert (sum + WORD) / 2 == q + HALF_WORD;
  }

  /** When the true delay is in [0, 2^32), the unsigned delay is the RFC delay. */
  lemma {:induction false} DelayAgreesWithRfc(t1: uint32, t2: uint32, t3: uint32, t4: uint32)
    requires 0 <= RfcDelay(t1, t2, t3, t4) < WORD
    ensures Delay(t1, t2, t3, t4) == RfcDelay(t1, t2, t3, t4)
  {
  }

  /**
   * A symmetric exchange: each direction takes `d` seconds, the server holds the request for
   * `s` seconds and its clock is `theta` seconds ahead. The offset component is then `theta`,
   * the delay component `2 * d`, and the client reports |theta - 2 * d|, not `theta`.
   */
  lemma {:induction false} SymmetricExchange(t1: uint32, t2: uint32, t3: uint32, t4: uint32,
                                             d: nat, s: nat, theta: nat)
    requires t2 == t1 + d + theta && t3 == t2 + s && t4 == t3 + d - theta
    requires theta < HALF_WORD && 2 * d < HALF_WORD
    ensures Offset(t1, t2, t3, t4) == theta
    ensures Delay(t1, t2, t3, t4) == 2 * d
    ensures ReportDefined(t1, t2, t3, t4)
    ensures Reported(t1, t2, t3, t4) == if theta >= 2 * d then theta - 2 * d else 2 * d - theta
  {
    OffsetAgreesWithRfc(t1, t2, t3, t4);
    DelayAgreesWithRfc(t1, t2, t3, t4);
    AbsDiffOfSmall(theta, 2 * d);
  }

  /** Two values less than 2^31 apart: `AbsDiff` is their ordinary distance. */
  lemma AbsDiffOfSmall(a: uint32, b: uint32)
    requires a < HALF_WORD && b < HALF_WORD
    ensures ToUint32(a - b) != HALF_WORD
    ensures AbsDiff(a, b) == if a >= b then a - b else b - a
  {
    if a < b {
      assert ToUint32(a - b) == WORD + a - b;
    }
  }

  /**
   * Lines 83-96 without the socket: read the clock, build the request in the uninitialised
   * struct (which held `staleRequest`) and hand its memory to `sendto`. What is sent does not
   * depend on the host's byte order.
   */
  method SendRequest(host: ByteOrder, sendClock: TimeVal, staleRequest: Packet) returns (sent: seq<uint8>)
    requires ConvertibleUsec(sendClock.usec)
    ensures sent == RequestBytes(ConvertTime(sendClock))
  {
    var request := new PacketStruct(staleRequest);
    var t1 := BuildRequest(host, sendClock, request);
    sent := Image(host, request.Value());
    RequestImage(host, t1);
  }

  /**
   * Lines 104-127 without the socket: receive one datagram into the uninitialised reply struct
   * (which held `staleReply`; no length or validity check is made), stamp its arrival, convert
   * the reply's timestamps and compute. The result depends only on the bytes in the struct.
   */
  method ReceiveReply(host: ByteOrder, staleReply: Packet, datagram: seq<uint8>, recvClock: TimeVal)
    returns (sec: uint32, usec: uint32)
    requires ConvertibleUsec(recvClock.usec)
    requires var b := Overlay(datagram, Image(host, staleReply));
      OffsetComputable(TimestampAt(b, 24), TimestampAt(b, 32), TimestampAt(b, 40), ConvertTime(recvClock))
    ensures var b := Overlay(datagram, Image(host, staleReply));
      (sec, usec) == ClockOffset(TimestampAt(b, 24), TimestampAt(b, 32), TimestampAt(b, 40), ConvertTime(recvClock))
  {
    var reply := new PacketStruct(staleReply);
    var numbytes := reply.Receive(host, datagram);
    var received := Image(host, reply.Value());
    ParseImage(host, reply.Value());

    var t4 := ConvertTime(recvClock);
    ConvertReplyTimestamps(host, reply);
    HostOrderReplyReadsWire(host, received);

    sec, usec := ComputeOffset(
      Timestamp(reply.originateSeconds, reply.originateFraction),
      Timestamp(reply.receiveSeconds, reply.receiveFraction),
      Timestamp(reply.transmitSeconds, reply.transmitFraction),
      t4);
  }
}
