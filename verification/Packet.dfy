/**
 * The 48-byte SNTP message of section 4 of RFC 4330, as the C `struct packet` holds it.
 *
 * A `Packet` holds the field values as the host reads them: a word stored with `htonl` holds
 * the network-order value, which on a little-endian host is the byte-swapped number. `Image`
 * is the struct's memory, which is also exactly what `sendto` puts on the wire and what
 * `recvfrom` fills in.
 */
module Packet {
  import opened Wire
  import opened NtpTime

  const PACKET_SIZE: nat := 48
  /** Number of 32-bit words after the four header bytes. */
  const WORD_COUNT: nat := 11

  const NTP_VERSION: int := 4
  const MODE_CLIENT: int := 3
  const MODE_SERVER: int := 4

  /** The first byte as the client sets it: LI = 0, VN = 4, Mode = 3. */
  const CLIENT_LIVNM: uint8 := 0x23
  /** The first byte as the server sets it: LI = 0, VN = 4, Mode = 4. */
  const SERVER_LIVNM: uint8 := 0x24

  datatype Packet = Packet(
    livnm: uint8,
    stratum: uint8,
    poll: uint8,
    precision: int8,
    rootDelay: int32,
    rootDispersion: uint32,
    resourceIdentifier: uint32,
    referenceSeconds: uint32,
    referenceFraction: uint32,
    originateSeconds: uint32,
    originateFraction: uint32,
    receiveSeconds: uint32,
    receiveFraction: uint32,
    transmitSeconds: uint32,
    transmitFraction: uint32)

  /** The packet after `memset(&p, 0, sizeof p)`. */
  const ZERO: Packet := Packet(0, 0, 0, 0, 0, 0, 0, 0, 0, 0, 0, 0, 0, 0, 0)

  function Zeros(n: nat): (z: seq<uint8>)
    ensures |z| == n && forall i :: 0 <= i < n ==> z[i] == 0
  {
    seq(n, _ => 0)
  }

  /** Leap indicator: the two most significant bits of the first byte. */
  function LeapIndicator(b: uint8): int { b / 64 }
  /** Version number: the next three bits. */
  function VersionNumber(b: uint8): int { b / 8 % 8 }
  /** Mode: the three least significant bits. */
  function Mode(b: uint8): int { b % 8 }

  /** The first byte with the given leap indicator, version and mode. */
  function PackLiVnMode(li: int, vn: int, mode: int): (b: uint8)
    requires 0 <= li < 4 && 0 <= vn < 8 && 0 <= mode < 8
    ensures LeapIndicator(b) == li && VersionNumber(b) == vn && Mode(b) == mode
  {
    var b := li * 64 + vn * 8 + mode;
    assert b == (li * 8 + vn) * 8 + mode;
    assert b / 8 == li * 8 + vn && b % 8 == mode;
    assert b == li * 64 + (vn * 8 + mode);
    b
  }

  /** 0x23 is "no leap warning, version 4, client"; 0x24 is the same with mode "server". */
  lemma HeaderBytes()
    ensures CLIENT_LIVNM == PackLiVnMode(0, NTP_VERSION, MODE_CLIENT)
    ensures SERVER_LIVNM == PackLiVnMode(0, NTP_VERSION, MODE_SERVER)
  {
  }

  /** The eleven 32-bit words of the struct in memory order, as unsigned values. */
  function WordsOf(p: Packet): (ws: seq<uint32>)
    ensures |ws| == WORD_COUNT
  {
    [ToUint32(p.rootDelay), p.rootDispersion, p.resourceIdentifier,
     p.referenceSeconds, p.referenceFraction, p.originateSeconds, p.originateFraction,
     p.receiveSeconds, p.receiveFraction, p.transmitSeconds, p.transmitFraction]
  }

  /** The packet with the given four header bytes and eleven words. */
  function FromParts(header: seq<uint8>, ws: seq<uint32>): (p: Packet)
    requires |header| == 4 && |ws| == WORD_COUNT
    ensures WordsOf(p) == ws
  {
    Int32Uint32RoundTrip(ws[0]);
    Packet(header[0], header[1], header[2], ToInt8(header[3]), ToInt32(ws[0]),
           ws[1], ws[2], ws[3], ws[4], ws[5], ws[6], ws[7], ws[8], ws[9], ws[10])
  }

  /** The memory images of consecutive words. */
  function StoreWords(host: ByteOrder, ws: seq<uint32>): (b: seq<uint8>)
    ensures |b| == 4 * |ws|
  {
    if ws == [] then [] else StoreWord(host, ws[0]) + StoreWords(host, ws[1..])
  }

  /** The words a host reads from consecutive groups of four bytes. */
  function LoadWords(host: ByteOrder, b: seq<uint8>): (ws: seq<uint32>)
    requires |b| % 4 == 0
    ensures |ws| == |b| / 4
  {
    if b == [] then [] else [LoadWord(host, b[..4])] + LoadWords(host, b[4..])
  }

  lemma {:induction false} LoadStoreWords(host: ByteOrder, ws: seq<uint32>)
    ensures LoadWords(host, StoreWords(host, ws)) == ws
  {
    if ws != [] {
      var b := StoreWords(host, ws);
      assert b[..4] == StoreWord(host, ws[0]);
      assert b[4..] == StoreWords(host, ws[1..]);
      LoadStoreWord(host, ws[0]);
      LoadStoreWords(host, ws[1..]);
    }
  }

  lemma {:induction false} StoreLoadWords(host: ByteOrder, b: seq<uint8>)
    requires |b| % 4 == 0
    ensures StoreWords(host, LoadWords(host, b)) == b
  {
    if b != [] {
      var ws := LoadWords(host, b);
      assert ws[1..] == LoadWords(host, b[4..]);
      StoreLoadWord(host, b[..4]);
      StoreLoadWords(host, b[4..]);
      assert b == b[..4] + b[4..];
    }
  }

  /** Word `i` occupies bytes `4 * i` to `4 * i + 3` of the stored words. */
  lemma {:induction false} StoreWordsAt(host: ByteOrder, ws: seq<uint32>, i: nat)
    requires i < |ws|
    ensures StoreWords(host, ws)[4 * i .. 4 * i + 4] == StoreWord(host, ws[i])
  {
    var first, rest := StoreWord(host, ws[0]), StoreWords(host, ws[1..]);
    assert StoreWords(host, ws) == first + rest;
    if i > 0 {
      StoreWordsAt(host, ws[1..], i - 1);
      SliceAfterPrefix(first, rest, 4 * (i - 1), 4);
    } else {
      assert (first + rest)[..4] == first;
    }
  }

  /** A slice of `h + t` that starts after `h` is a slice of `t`. */
  lemma SliceAfterPrefix<T>(h: seq<T>, t: seq<T>, k: nat, n: nat)
    requires k + n <= |t|
    ensures (h + t)[|h| + k .. |h| + k + n] == t[k .. k + n]
  {
  }

  /** The struct's 48 bytes of memory on a host with byte order `host`. */
  function Image(host: ByteOrder, p: Packet): (b: seq<uint8>)
    ensures |b| == PACKET_SIZE
  {
    [p.livnm, p.stratum, p.poll, ToUint8(p.precision)] + StoreWords(host, WordsOf(p))
  }

  /** The struct a host sees in the 48 bytes `b` of memory. */
  function Parse(host: ByteOrder, b: seq<uint8>): (p: Packet)
    requires |b| == PACKET_SIZE
    ensures p.livnm == b[0] && p.stratum == b[1] && p.poll == b[2] && ToUint8(p.precision) == b[3]
    ensures WordsOf(p) == LoadWords(host, b[4..])
  {
    Int8Uint8RoundTrip(b[3]);
    FromParts(b[..4], LoadWords(host, b[4..]))
  }

  /** Reading back the memory of a struct gives the same struct. */
  lemma {:induction false} ParseImage(host: ByteOrder, p: Packet)
    ensures Parse(host, Image(host, p)) == p
  {
    var b := Image(host, p);
    assert b[..4] == [p.livnm, p.stratum, p.poll, ToUint8(p.precision)];
    assert b[4..] == StoreWords(host, WordsOf(p));
    LoadStoreWords(host, WordsOf(p));
    FromPartsOfWords(p);
  }

  /** A struct is rebuilt from its four header bytes and its eleven words. */
  lemma {:induction false} FromPartsOfWords(p: Packet)
    ensures FromParts([p.livnm, p.stratum, p.poll, ToUint8(p.precision)], WordsOf(p)) == p
  {
    Int32Uint32RoundTrip(p.rootDelay);
    assert ToInt8(ToUint8(p.precision)) == p.precision;
  }

  /** Every 48 bytes of memory are the image of the struct read from them. */
  lemma {:induction false} ImageParse(host: ByteOrder, b: seq<uint8>)
    requires |b| == PACKET_SIZE
    ensures Image(host, Parse(host, b)) == b
  {
    var p := Parse(host, b);
    StoreLoadWords(host, b[4..]);
    Int8Uint8RoundTrip(b[3]);
    assert Image(host, p) == b[..4] + b[4..];
  }

  /** The word at index `i` of the struct lies at byte offset `4 + 4 * i` of its image. */
  lemma {:induction false} ImageWordAt(host: ByteOrder, p: Packet, i: nat)
    requires i < WORD_COUNT
    ensures Image(host, p)[4 + 4 * i .. 8 + 4 * i] == StoreWord(host, WordsOf(p)[i])
  {
    var ws := WordsOf(p);
    StoreWordsAt(host, ws, i);
    SliceAfterPrefix([p.livnm, p.stratum, p.poll, ToUint8(p.precision)], StoreWords(host, ws), 4 * i, 4);
  }

  /** The words of a concatenation are stored one run after the other. */
  lemma {:induction false} StoreWordsAppend(host: ByteOrder, xs: seq<uint32>, ys: seq<uint32>)
    ensures StoreWords(host, xs + ys) == StoreWords(host, xs) + StoreWords(host, ys)
  {
    if xs != [] {
      assert (xs + ys)[1..] == xs[1..] + ys;
      StoreWordsAppend(host, xs[1..], ys);
    } else {
      assert xs + ys == ys;
    }
  }

  /** Bytes 4 up to `4 + 4 * k` of the image hold the first `k` words. */
  lemma {:induction false} ImageWordsPrefix(host: ByteOrder, p: Packet, k: nat)
    requires k <= WORD_COUNT
    ensures Image(host, p)[4 .. 4 + 4 * k] == StoreWords(host, WordsOf(p)[..k])
  {
    var ws := WordsOf(p);
    assert ws == ws[..k] + ws[k..];
    StoreWordsAppend(host, ws[..k], ws[k..]);
    assert Image(host, p)[4..] == StoreWords(host, ws);
  }

  /** The timestamp stored big-endian at byte offset `off` of `b`: seconds, then fraction. */
  function TimestampAt(b: seq<uint8>, off: nat): Timestamp
    requires off + 8 <= |b|
  {
    Timestamp(FromBigEndian(b[off .. off + 4]), FromBigEndian(b[off + 4 .. off + 8]))
  }

  /** Eight bytes holding a timestamp's two words big-endian read back as that timestamp. */
  lemma {:induction false} TimestampOfBytes(b: seq<uint8>, off: nat, t: Timestamp)
    requires off + 8 <= |b|
    requires b[off .. off + 8] == BigEndianBytes(t.seconds) + BigEndianBytes(t.fraction)
    ensures TimestampAt(b, off) == t
  {
    assert b[off .. off + 4] == b[off .. off + 8][..4];
    assert b[off + 4 .. off + 8] == b[off .. off + 8][4..];
    BigEndianWordRoundTrip(t.seconds);
    BigEndianWordRoundTrip(t.fraction);
  }

  /** Equal eight-byte runs read as equal timestamps. */
  lemma {:induction false} TimestampOfCopy(b: seq<uint8>, off: nat, c: seq<uint8>, from: nat)
    requires off + 8 <= |b| && from + 8 <= |c|
    requires b[off .. off + 8] == c[from .. from + 8]
    ensures TimestampAt(b, off) == TimestampAt(c, from)
  {
    assert b[off .. off + 4] == b[off .. off + 8][..4];
    assert c[from .. from + 4] == c[from .. from + 8][..4];
    assert b[off + 4 .. off + 8] == b[off .. off + 8][4..];
    assert c[from + 4 .. from + 8] == c[from .. from + 8][4..];
  }

  /** Words `i` and `i + 1` of the struct occupy bytes `4 + 4 * i` to `11 + 4 * i` of its memory. */
  lemma {:induction false} WordPairAt(host: ByteOrder, p: Packet, i: nat)
    requires i + 1 < WORD_COUNT
    ensures Image(host, p)[4 + 4 * i .. 12 + 4 * i]
         == StoreWord(host, WordsOf(p)[i]) + StoreWord(host, WordsOf(p)[i + 1])
  {
    var b := Image(host, p);
    ImageWordAt(host, p, i);
    ImageWordAt(host, p, i + 1);
    assert b[4 + 4 * i .. 12 + 4 * i] == b[4 + 4 * i .. 8 + 4 * i] + b[8 + 4 * i .. 12 + 4 * i];
  }

  /** Two consecutive words stored with `htonl` lie in memory as the timestamp's big-endian bytes. */
  lemma {:induction false} NetworkTimestampAt(host: ByteOrder, p: Packet, i: nat, t: Timestamp)
    requires i + 1 < WORD_COUNT
    requires WordsOf(p)[i] == Htonl(host, t.seconds) && WordsOf(p)[i + 1] == Htonl(host, t.fraction)
    ensures Image(host, p)[4 + 4 * i .. 12 + 4 * i] == BigEndianBytes(t.seconds) + BigEndianBytes(t.fraction)
  {
    WordPairAt(host, p, i);
  }

  /** Two structs with the same pair of words hold the same eight bytes there. */
  lemma {:induction false} CopiedWordsAt(host: ByteOrder, p: Packet, i: nat, q: Packet, j: nat)
    requires i + 1 < WORD_COUNT && j + 1 < WORD_COUNT
    requires WordsOf(p)[i] == WordsOf(q)[j] && WordsOf(p)[i + 1] == WordsOf(q)[j + 1]
    ensures Image(host, p)[4 + 4 * i .. 12 + 4 * i] == Image(host, q)[4 + 4 * j .. 12 + 4 * j]
  {
    WordPairAt(host, p, i);
    WordPairAt(host, q, j);
  }

  /** What `recvfrom` leaves in a 48-byte buffer holding `before` when `datagram` arrives. */
  function Overlay(datagram: seq<uint8>, before: seq<uint8>): (b: seq<uint8>)
    requires |before| == PACKET_SIZE
    ensures |b| == PACKET_SIZE
    ensures forall i :: 0 <= i < PACKET_SIZE ==> b[i] == (if i < |datagram| then datagram[i] else before[i])
  {
    var n := if |datagram| < PACKET_SIZE then |datagram| else PACKET_SIZE;
    datagram[..n] + before[n..]
  }

  /** A `struct packet` variable, updated in place field by field. */
  class PacketStruct {
    var livnm: uint8
    var stratum: uint8
    var poll: uint8
    var precision: int8
    var rootDelay: int32
    var rootDispersion: uint32
    var resourceIdentifier: uint32
    var referenceSeconds: uint32
    var referenceFraction: uint32
    var originateSeconds: uint32
    var originateFraction: uint32
    var receiveSeconds: uint32
    var receiveFraction: uint32
    var transmitSeconds: uint32
    var transmitFraction: uint32

    /** The current contents of the struct. */
    function Value(): Packet
      reads this
    {
      Packet(livnm, stratum, poll, precision, rootDelay, rootDispersion, resourceIdentifier,
             referenceSeconds, referenceFraction, originateSeconds, originateFraction,
             receiveSeconds, receiveFraction, transmitSeconds, transmitFraction)
    }

    /** A struct declared without an initialiser: its contents are whatever `stale` says. */
    constructor (stale: Packet)
      ensures Value() == stale
    {
      livnm, stratum, poll, precision := stale.livnm, stale.stratum, stale.poll, stale.precision;
      rootDelay, rootDispersion := stale.rootDelay, stale.rootDispersion;
      resourceIdentifier := stale.resourceIdentifier;
      referenceSeconds, referenceFraction := stale.referenceSeconds, stale.referenceFraction;
      originateSeconds, originateFraction := stale.originateSeconds, stale.originateFraction;
      receiveSeconds, receiveFraction := stale.receiveSeconds, stale.receiveFraction;
      transmitSeconds, transmitFraction := stale.transmitSeconds, stale.transmitFraction;
    }

    /** Overwrites every field with those of `p`, one part of the struct at a time. */
    method Assign(p: Packet)
      modifies this
      ensures Value() == p
    {
      AssignHeader(p);
      AssignFixedWords(p);
      AssignReferenceOriginate(p);
      AssignReceiveTransmit(p);
    }

    /** The four header bytes. */
    method AssignHeader(p: Packet)
      modifies this
      ensures Value() == old(Value()).(livnm := p.livnm, stratum := p.stratum, poll := p.poll,
                                       precision := p.precision)
    {
      livnm, stratum, poll, precision := p.livnm, p.stratum, p.poll, p.precision;
    }

    /** Root delay, root dispersion and the reference identifier. */
    method AssignFixedWords(p: Packet)
      modifies this
      ensures Value() == old(Value()).(rootDelay := p.rootDelay, rootDispersion := p.rootDispersion,
                                       resourceIdentifier := p.resourceIdentifier)
    {
      rootDelay, rootDispersion, resourceIdentifier := p.rootDelay, p.rootDispersion, p.resourceIdentifier;
    }

    /** The reference and originate timestamps. */
    method AssignReferenceOriginate(p: Packet)
      modifies this
      ensures Value() == old(Value()).(referenceSeconds := p.referenceSeconds,
                                       referenceFraction := p.referenceFraction,
                                       originateSeconds := p.originateSeconds,
                                       originateFraction := p.originateFraction)
    {
      referenceSeconds, referenceFraction := p.referenceSeconds, p.referenceFraction;
      originateSeconds, originateFraction := p.originateSeconds, p.originateFraction;
    }

    /** The receive and transmit timestamps. */
    method AssignReceiveTransmit(p: Packet)
      modifies this
      ensures Value() == old(Value()).(receiveSeconds := p.receiveSeconds,
                                       receiveFraction := p.receiveFraction,
                                       transmitSeconds := p.transmitSeconds,
                                       transmitFraction := p.transmitFraction)
    {
      receiveSeconds, receiveFraction := p.receiveSeconds, p.receiveFraction;
      transmitSeconds, transmitFraction := p.transmitSeconds, p.transmitFraction;
    }

    /** `memset(&p, 0, sizeof p)`. */
    method Clear()
      modifies this
      ensures Value() == ZERO
    {
      Assign(ZERO);
    }

    /**
     * `recvfrom` into this struct: the first bytes of memory, up to 48, are overwritten by the
     * datagram (a longer datagram is truncated) and the rest keep their previous contents.
     */
    method Receive(host: ByteOrder, datagram: seq<uint8>) returns (numbytes: nat)
      modifies this
      ensures numbytes == if |datagram| < PACKET_SIZE then |datagram| else PACKET_SIZE
      ensures Image(host, Value()) == Overlay(datagram, Image(host, old(Value())))
    {
      numbytes := if |datagram| < PACKET_SIZE then |datagram| else PACKET_SIZE;
      var memory := Overlay(datagram, Image(host, Value()));
      Assign(Parse(host, memory));
      ImageParse(host, memory);
    }
  }

  /** Zero words are stored as zero bytes, whatever the byte order. */
  lemma {:induction false} StoreZeroWords(host: ByteOrder, ws: seq<uint32>)
    requires forall i :: 0 <= i < |ws| ==> ws[i] == 0
    ensures StoreWords(host, ws) == Zeros(4 * |ws|)
  {
    if ws != [] {
      StoreZeroWords(host, ws[1..]);
      assert StoreWord(host, ws[0]) == [0, 0, 0, 0];
      assert [0, 0, 0, 0] + Zeros(4 * (|ws| - 1)) == Zeros(4 * |ws|);
    }
  }

  /** Every word of the zeroed struct is zero. */
  lemma ZeroWords(p: Packet)
    requires p == ZERO
    ensures forall i :: 0 <= i < |WordsOf(p)| ==> WordsOf(p)[i] == 0
  {
    assert WordsOf(p) == [0, 0, 0, 0, 0, 0, 0, 0, 0, 0, 0];
  }

  /** The zeroed struct's memory is all zero bytes, on every host. */
  lemma {:induction false} ImageZero(host: ByteOrder, p: Packet)
    requires p == ZERO
    ensures Image(host, p) == Zeros(PACKET_SIZE)
  {
    ZeroWords(p);
    StoreZeroWords(host, WordsOf(p));
    var b := Image(host, p);
    assert b[..4] == Zeros(4);
    assert b == b[..4] + b[4..];
  }
}
