/**
 * One iteration of the SNTP server's loop: receive a request into a zeroed struct, build the
 * reply in another zeroed struct from the request and two readings of the clock, and send it.
 *
 * The server stores its converted timestamps in `int` variables and hands them to `htonl`,
 * which takes them as `uint32_t` again; the reply's originate words are copied from the
 * request's transmit words without any byte-order conversion.
 */
module Server {
  import opened Wire
  import opened NtpTime
  import opened Packet

  /** The server always claims to be a primary reference. */
  const STRATUM_PRIMARY: uint8 := 1

  /**
   * The reply struct: zeroed, then filled from the request and from the two converted clock
   * readings `rx` (on arrival) and `tx` (just before sending), each a pair of `int`s.
   */
  function ReplyPacket(host: ByteOrder, request: Packet, rx: (int32, int32), tx: (int32, int32)): (p: Packet)
    ensures LeapIndicator(p.livnm) == 0 && VersionNumber(p.livnm) == NTP_VERSION && Mode(p.livnm) == MODE_SERVER
    ensures p.stratum == STRATUM_PRIMARY && p.poll == request.poll
    ensures p.precision == 0 && p.rootDelay == 0 && p.rootDispersion == 0 && p.resourceIdentifier == 0
    ensures Ntohl(host, p.referenceSeconds) == Ntohl(host, p.receiveSeconds) == ToUint32(rx.0)
    ensures Ntohl(host, p.referenceFraction) == Ntohl(host, p.receiveFraction) == ToUint32(rx.1)
    ensures Ntohl(host, p.transmitSeconds) == ToUint32(tx.0) && Ntohl(host, p.transmitFraction) == ToUint32(tx.1)
    ensures p.originateSeconds == request.transmitSeconds && p.originateFraction == request.transmitFraction
  {
    NtohlHtonl(host, ToUint32(rx.0));
    NtohlHtonl(host, ToUint32(rx.1));
    NtohlHtonl(host, ToUint32(tx.0));
    NtohlHtonl(host, ToUint32(tx.1));
    ZERO.(receiveSeconds := Htonl(host, ToUint32(rx.0)),
          receiveFraction := Htonl(host, ToUint32(rx.1)),
          livnm := SERVER_LIVNM,
          stratum := STRATUM_PRIMARY,
          poll := request.poll,
          referenceSeconds := Htonl(host, ToUint32(rx.0)),
          referenceFraction := Htonl(host, ToUint32(rx.1)),
          originateSeconds := request.transmitSeconds,
          originateFraction := request.transmitFraction,
          transmitSeconds := Htonl(host, ToUint32(tx.0)),
          transmitFraction := Htonl(host, ToUint32(tx.1)))
  }

  /**
   * The reply on the wire, given the request's 48 bytes: header 0x24, stratum 1, the request's
   * poll byte, 13 zero bytes (precision, root delay, root dispersion, reference identifier),
   * then reference = `rx`, originate = the request's bytes 40-47 unchanged, receive = `rx` and
   * transmit = `tx`, timestamps big-endian.
   */
  function ReplyBytes(request: seq<uint8>, rx: Timestamp, tx: Timestamp): (b: seq<uint8>)
    requires |request| == PACKET_SIZE
    ensures |b| == PACKET_SIZE
    ensures TimestampAt(b, 16) == rx && TimestampAt(b, 32) == rx && TimestampAt(b, 40) == tx
    ensures b[24..32] == request[40..48] && TimestampAt(b, 24) == TimestampAt(request, 40)
  {
    var head := [SERVER_LIVNM, STRATUM_PRIMARY, request[2]] + Zeros(13);
    var rxBytes := BigEndianBytes(rx.seconds) + BigEndianBytes(rx.fraction);
    var txBytes := BigEndianBytes(tx.seconds) + BigEndianBytes(tx.fraction);
    var b := head + rxBytes + request[40..48] + rxBytes + txBytes;
    assert b[16..24] == rxBytes;
    assert b[24..32] == request[40..48];
    assert b[32..40] == rxBytes;
    assert b[40..48] == txBytes;
    TimestampOfBytes(b, 16, rx);
    TimestampOfBytes(b, 32, rx);
    TimestampOfBytes(b, 40, tx);
    TimestampOfCopy(b, 24, request, 40);
    b
  }

  /** The first 16 bytes of a reply struct's memory: header, stratum, poll and zeros. */
  lemma {:induction false} ReplyImageHead(host: ByteOrder, p: Packet, request: Packet)
    requires p.livnm == SERVER_LIVNM && p.stratum == STRATUM_PRIMARY && p.poll == request.poll
    requires p.precision == 0 && p.rootDelay == 0 && p.rootDispersion == 0 && p.resourceIdentifier == 0
    ensures Image(host, p)[..16] == [SERVER_LIVNM, STRATUM_PRIMARY, Image(host, request)[2]] + Zeros(13)
  {
    var b := Image(host, p);
    ImageWordsPrefix(host, p, 3);
    StoreZeroWords(host, WordsOf(p)[..3]);
    assert b[..16] == b[..4] + b[4..16];
  }

  /**
   * The memory of a reply stamped with the `int` pairs `rxw` and `txw` is `ReplyBytes` of the
   * request's memory and the timestamps those pairs denote as `uint32_t`.
   */
  lemma {:induction false} ReplyImageOf(host: ByteOrder, request: Packet, rxw: (int32, int32), txw: (int32, int32),
                                        rx: Timestamp, tx: Timestamp)
    requires ToUint32(rxw.0) == rx.seconds && ToUint32(rxw.1) == rx.fraction
    requires ToUint32(txw.0) == tx.seconds && ToUint32(txw.1) == tx.fraction
    ensures Image(host, ReplyPacket(host, request, rxw, txw)) == ReplyBytes(Image(host, request), rx, tx)
  {
    var p := ReplyPacket(host, request, rxw, txw);
    ReplyImageHead(host, p, request);
    NetworkTimestampAt(host, p, 3, rx);
    CopiedWordsAt(host, p, 5, request, 9);
    NetworkTimestampAt(host, p, 7, rx);
    NetworkTimestampAt(host, p, 9, tx);
    ReplyBytesLayout(Image(host, request), rx, tx);
    EqualByTimestampSlices(Image(host, p), ReplyBytes(Image(host, request), rx, tx));
  }

  /** The reply's bytes in five runs: the first 16 bytes, then four timestamps. */
  lemma {:induction false} ReplyBytesLayout(request: seq<uint8>, rx: Timestamp, tx: Timestamp)
    requires |request| == PACKET_SIZE
    ensures var b := ReplyBytes(request, rx, tx);
      b[..16] == [SERVER_LIVNM, STRATUM_PRIMARY, request[2]] + Zeros(13) &&
      b[16..24] == BigEndianBytes(rx.seconds) + BigEndianBytes(rx.fraction) &&
      b[24..32] == request[40..48] &&
      b[32..40] == BigEndianBytes(rx.seconds) + BigEndianBytes(rx.fraction) &&
      b[40..48] == BigEndianBytes(tx.seconds) + BigEndianBytes(tx.fraction)
  {
  }

  /** Two 48-byte sequences agreeing on the first 16 bytes and on each timestamp are equal. */
  lemma {:induction false} EqualByTimestampSlices(a: seq<uint8>, b: seq<uint8>)
    requires |a| == PACKET_SIZE && |b| == PACKET_SIZE
    requires a[..16] == b[..16] && a[16..24] == b[16..24] && a[24..32] == b[24..32]
    requires a[32..40] == b[32..40] && a[40..48] == b[40..48]
    ensures a == b
  {
    assert a == a[..16] + a[16..24] + a[24..32] + a[32..40] + a[40..48];
    assert b == b[..16] + b[16..24] + b[24..32] + b[32..40] + b[40..48];
  }

  /** Whatever the host's byte order, the reply struct's memory is `ReplyBytes` of the request's memory. */
  lemma {:induction false} ReplyImage(host: ByteOrder, request: Packet, first: TimeVal, second: TimeVal)
    requires ConvertibleUsec(first.usec) && ConvertibleUsec(second.usec)
    ensures Image(host, ReplyPacket(host, request, ServerConvertTime(first), ServerConvertTime(second)))
         == ReplyBytes(Image(host, request), ConvertTime(first), ConvertTime(second))
  {
    ReplyImageOf(host, request, ServerConvertTime(first), ServerConvertTime(second),
                 ConvertTime(first), ConvertTime(second));
  }

  /** Lines 96-97: the receive words from the first converted reading, through `htonl`. */
  method StampReceive(host: ByteOrder, replied: PacketStruct, ntpsec: int32, ntpusec: int32)
    modifies replied
    ensures replied.Value() == old(replied.Value()).(
      receiveSeconds := Htonl(host, ToUint32(ntpsec)),
      receiveFraction := Htonl(host, ToUint32(ntpusec)))
  {
    replied.receiveSeconds := Htonl(host, ToUint32(ntpsec));
    replied.receiveFraction := Htonl(host, ToUint32(ntpusec));
  }

  /** Lines 99-101: header 0x24, stratum 1, and the request's poll. */
  method SetHeader(received: PacketStruct, replied: PacketStruct)
    requires received != replied
    modifies replied
    ensures replied.Value() == old(replied.Value()).(
      livnm := SERVER_LIVNM, stratum := STRATUM_PRIMARY, poll := received.poll)
  {
    replied.livnm := SERVER_LIVNM;
    replied.stratum := STRATUM_PRIMARY;
    replied.poll := received.poll;
  }

  /** Lines 103-104: the reference words, the same as the receive words. */
  method StampReference(host: ByteOrder, replied: PacketStruct, ntpsec: int32, ntpusec: int32)
    modifies replied
    ensures replied.Value() == old(replied.Value()).(
      referenceSeconds := Htonl(host, ToUint32(ntpsec)),
      referenceFraction := Htonl(host, ToUint32(ntpusec)))
  {
    replied.referenceSeconds := Htonl(host, ToUint32(ntpsec));
    replied.referenceFraction := Htonl(host, ToUint32(ntpusec));
  }

  /** Lines 106-107: the request's transmit words become the originate words, unconverted. */
  method CopyOriginate(received: PacketStruct, replied: PacketStruct)
    requires received != replied
    modifies replied
    ensures replied.Value() == old(replied.Value()).(
      originateSeconds := received.transmitSeconds,
      originateFraction := received.transmitFraction)
  {
    replied.originateSeconds := received.transmitSeconds;
    replied.originateFraction := received.transmitFraction;
  }

  /** Lines 113-114: stamp transmit with the second converted reading. */
  method StampTransmit(host: ByteOrder, replied: PacketStruct, ntpsec: int32, ntpusec: int32)
    modifies replied
    ensures replied.Value() == old(replied.Value()).(
      transmitSeconds := Htonl(host, ToUint32(ntpsec)),
      transmitFraction := Htonl(host, ToUint32(ntpusec)))
  {
    replied.transmitSeconds := Htonl(host, ToUint32(ntpsec));
    replied.transmitFraction := Htonl(host, ToUint32(ntpusec));
  }

  /**
   * Lines 91-114: zero the reply, stamp receive and reference from the first clock reading, set
   * header, stratum and poll, copy the originate words, stamp transmit from the second reading.
   */
  method BuildReply(host: ByteOrder, received: PacketStruct, replied: PacketStruct,
                    first: TimeVal, second: TimeVal)
    requires received != replied
    requires ConvertibleUsec(first.usec) && ConvertibleUsec(second.usec)
    modifies replied
    ensures replied.Value() ==
      ReplyPacket(host, received.Value(), ServerConvertTime(first), ServerConvertTime(second))
  {
    replied.Clear();

    var now := ServerConvertTime(first);
    var ntpsec, ntpusec := now.0, now.1;
    StampReceive(host, replied, ntpsec, ntpusec);
    SetHeader(received, replied);
    StampReference(host, replied, ntpsec, ntpusec);
    CopyOriginate(received, replied);

    now := ServerConvertTime(second);
    ntpsec, ntpusec := now.0, now.1;
    StampTransmit(host, replied, ntpsec, ntpusec);
  }

  /**
   * One iteration of the server loop without its socket: the request struct is zeroed and
   * receives `datagram` (at most 48 bytes of it), the reply is built and its memory sent.
   * What is sent does not depend on the host's byte order, nor on the structs' earlier contents.
   */
  method ServeOnce(host: ByteOrder, staleRequest: Packet, staleReply: Packet,
                   datagram: seq<uint8>, first: TimeVal, second: TimeVal)
    returns (sent: seq<uint8>)
    requires ConvertibleUsec(first.usec) && ConvertibleUsec(second.usec)
    ensures sent == ReplyBytes(Overlay(datagram, Zeros(PACKET_SIZE)), ConvertTime(first), ConvertTime(second))
  {
    var received := new PacketStruct(staleRequest);
    received.Clear();
    ImageZero(host, received.Value());
    var numbytes := received.Receive(host, datagram);

    var replied := new PacketStruct(staleReply);
    BuildReply(host, received, replied, first, second);
    sent := Image(host, replied.Value());
    ReplyImage(host, received.Value(), first, second);
  }

  /**
   * Whatever the request holds, the reply announces no leap warning, version 4, server mode
   * and stratum 1, and carries no precision, root delay, root dispersion or reference identifier.
   */
  lemma ReplyHeader(request: seq<uint8>, rx: Timestamp, tx: Timestamp)
    requires |request| == PACKET_SIZE
    ensures var b := ReplyBytes(request, rx, tx);
      LeapIndicator(b[0]) == 0 && VersionNumber(b[0]) == NTP_VERSION && Mode(b[0]) == MODE_SERVER &&
      b[1] == STRATUM_PRIMARY && b[2] == request[2] &&
      forall k :: 3 <= k < 16 ==> b[k] == 0
  {
  }

  /**
   * A request datagram shorter than 48 bytes reads as zero past its end: a missing poll byte
   * is echoed as 0 and the missing bytes of the transmit timestamp become zero originate bytes.
   */
  lemma ShortRequestReadsZero(datagram: seq<uint8>, rx: Timestamp, tx: Timestamp)
    ensures var b := ReplyBytes(Overlay(datagram, Zeros(PACKET_SIZE)), rx, tx);
      (|datagram| <= 2 ==> b[2] == 0) &&
      forall k :: 24 <= k < 32 && |datagram| <= k + 16 ==> b[k] == 0
  {
    var request := Overlay(datagram, Zeros(PACKET_SIZE));
    var b := ReplyBytes(request, rx, tx);
    forall k | 24 <= k < 32 && |datagram| <= k + 16
      ensures b[k] == 0
    {
      assert b[k] == b[24..32][k - 24] == request[40..48][k - 24] == request[k + 16];
    }
  }

  /**
   * A second clock reading no earlier than the first gives a transmit timestamp no earlier than
   * the receive timestamp, unless the NTP seconds wrap between or around the two readings.
   */
  lemma {:induction false} TransmitNotBeforeReceive(request: seq<uint8>, first: TimeVal, second: TimeVal)
    requires |request| == PACKET_SIZE
    requires ConvertibleUsec(first.usec) && ConvertibleUsec(second.usec)
    requires TimeValNotAfter(first, second)
    requires 0 <= first.sec + UNIX_TO_NTP && second.sec + UNIX_TO_NTP < WORD
    ensures var b := ReplyBytes(request, ConvertTime(first), ConvertTime(second));
      NotAfter(TimestampAt(b, 32), TimestampAt(b, 40))
  {
    ConvertTimeMonotone(first, second);
  }
}
