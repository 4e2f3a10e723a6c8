/**
 * Fixed-width C integers and the byte order of 32-bit words in memory and on the wire.
 *
 * A word is stored in memory in the host's byte order; `htonl`/`ntohl` exchange host order
 * and network (big-endian) order. Both are modelled for either host byte order, so that the
 * statements about what reaches the wire hold on every host.
 */
module Wire {

  const WORD: int := 0x1_0000_0000
  const HALF_WORD: int := 0x8000_0000

  type uint8 = x: int | 0 <= x < 0x100
  type int8 = x: int | -0x80 <= x < 0x80
  type uint32 = x: int | 0 <= x < 0x1_0000_0000
  type int32 = x: int | -0x8000_0000 <= x < 0x8000_0000

  /** Conversion of an integer to `uint32_t`: reduction modulo 2^32. */
  function ToUint32(x: int): uint32
  {
    x % WORD
  }

  /** Conversion of an integer to `int32_t`, two's complement wrap-around (what gcc does). */
  function ToInt32(x: int): (r: int32)
    ensures (r - x) % WORD == 0
  {
    var m := x % WORD;
    if m < HALF_WORD then m else m - WORD
  }

  /** C's `abs` on an `int`; undefined for INT_MIN. */
  function Abs(x: int32): (r: int32)
    requires x != -HALF_WORD
    ensures 0 <= r && (r == x || r == -x)
  {
    if x < 0 then -x else x
  }

  /** Conversion of an integer to `uint8_t`. */
  function ToUint8(x: int): uint8
  {
    x % 0x100
  }

  /** Conversion of an integer to `int8_t`, two's complement wrap-around. */
  function ToInt8(x: int): int8
  {
    var m := x % 0x100;
    if m < 0x80 then m else m - 0x100
  }

  lemma Int32Uint32RoundTrip(x: int)
    ensures ToUint32(ToInt32(x)) == ToUint32(x)
    ensures ToInt32(ToUint32(x)) == ToInt32(x)
  {
  }

  /** Wrapping the operands of an addition first does not change the wrapped sum. */
  lemma ModAdd(a: int, b: int)
    ensures ToUint32(ToUint32(a) + ToUint32(b)) == ToUint32(a + b)
  {
    var qa, qb := a / WORD, b / WORD;
    assert a + b == (ToUint32(a) + ToUint32(b)) + WORD * (qa + qb);
    ShiftByWords(ToUint32(a) + ToUint32(b), qa + qb);
  }

  /** Wrapping the operands of a subtraction first does not change the wrapped difference. */
  lemma ModSub(a: int, b: int)
    ensures ToUint32(ToUint32(a) - ToUint32(b)) == ToUint32(a - b)
  {
    var qa, qb := a / WORD, b / WORD;
    assert a - b == (ToUint32(a) - ToUint32(b)) + WORD * (qa - qb);
    ShiftByWords(ToUint32(a) - ToUint32(b), qa - qb);
  }

  lemma ShiftByWords(x: int, k: int)
    ensures ToUint32(x + WORD * k) == ToUint32(x)
  {
  }

  lemma Int8Uint8RoundTrip(x: uint8)
    ensures ToUint8(ToInt8(x)) == x
  {
  }

  /** The two byte orders a host may use for a 32-bit word in memory. */
  datatype ByteOrder = BigEndian | LittleEndian

  /** The four bytes of `x`, most significant first (network byte order). */
  function BigEndianBytes(x: uint32): (b: seq<uint8>)
    ensures |b| == 4
  {
    [x / 0x100_0000, (x / 0x1_0000) % 0x100, (x / 0x100) % 0x100, x % 0x100]
  }

  /** The word whose bytes, most significant first, are `b`. */
  function FromBigEndian(b: seq<uint8>): (x: uint32)
    requires |b| == 4
    ensures x / 0x100_0000 == b[0] && x % 0x100 == b[3]
  {
    var low := b[1] as int * 0x1_0000 + b[2] as int * 0x100 + b[3];
    var x := b[0] as int * 0x100_0000 + low;
    QuotientRemainder(b[0], low, 0x100_0000);
    QuotientRemainder(b[0] as int * 0x1_0000 + b[1] as int * 0x100 + b[2], b[3], 0x100);
    x
  }

  /** Division by `m` recovers the quotient and remainder a number was built from. */
  lemma QuotientRemainder(q: int, r: int, m: int)
    requires 0 <= r < m
    ensures (q * m + r) / m == q && (q * m + r) % m == r
  {
    var x := q * m + r;
    var d := x / m - q;
    assert m * (x / m) == m * q + m * d;
    assert m * d == r - x % m;
  }

  lemma BigEndianWordRoundTrip(x: uint32)
    ensures FromBigEndian(BigEndianBytes(x)) == x
  {
    var b := BigEndianBytes(x);
    var hi := x / 0x1_0000;
    assert hi == b[0] as int * 0x100 + b[1];
    assert x == hi * 0x1_0000 + (x % 0x1_0000);
    assert x % 0x1_0000 == b[2] as int * 0x100 + b[3];
  }

  lemma BigEndianBytesRoundTrip(b: seq<uint8>)
    requires |b| == 4
    ensures BigEndianBytes(FromBigEndian(b)) == b
  {
    var x := FromBigEndian(b);
    var lo := b[2] as int * 0x100 + b[3];
    assert x == (b[0] as int * 0x100 + b[1]) * 0x1_0000 + lo;
    assert x / 0x1_0000 == b[0] as int * 0x100 + b[1];
    assert x % 0x1_0000 == lo;
    assert (x / 0x100) % 0x100 == b[2];
  }

  function Reverse4(b: seq<uint8>): (r: seq<uint8>)
    requires |b| == 4
    ensures |r| == 4 && forall i :: 0 <= i < 4 ==> r[i] == b[3 - i]
  {
    [b[3], b[2], b[1], b[0]]
  }

  /** The memory image of the word `x` on a host with byte order `host`. */
  function StoreWord(host: ByteOrder, x: uint32): (b: seq<uint8>)
    ensures |b| == 4
  {
    match host
    case BigEndian => BigEndianBytes(x)
    case LittleEndian => Reverse4(BigEndianBytes(x))
  }

  /** The word a host with byte order `host` reads from the four memory bytes `b`. */
  function LoadWord(host: ByteOrder, b: seq<uint8>): uint32
    requires |b| == 4
  {
    match host
    case BigEndian => FromBigEndian(b)
    case LittleEndian => FromBigEndian(Reverse4(b))
  }

  lemma {:induction false} LoadStoreWord(host: ByteOrder, x: uint32)
    ensures LoadWord(host, StoreWord(host, x)) == x
  {
    BigEndianWordRoundTrip(x);
    if host == LittleEndian {
      assert Reverse4(Reverse4(BigEndianBytes(x))) == BigEndianBytes(x);
    }
  }

  lemma {:induction false} StoreLoadWord(host: ByteOrder, b: seq<uint8>)
    requires |b| == 4
    ensures StoreWord(host, LoadWord(host, b)) == b
  {
    match host
    case BigEndian =>
      BigEndianBytesRoundTrip(b);
    case LittleEndian =>
      BigEndianBytesRoundTrip(Reverse4(b));
      assert Reverse4(Reverse4(b)) == b;
  }

  /** `htonl`: the word whose memory image on `host` is the big-endian image of `x`. */
  function Htonl(host: ByteOrder, x: uint32): (w: uint32)
    ensures StoreWord(host, w) == BigEndianBytes(x)
  {
    var w := LoadWord(host, BigEndianBytes(x));
    StoreLoadWord(host, BigEndianBytes(x));
    w
  }

  /** `ntohl`: the value of a word whose memory image on `host` is in network order. */
  function Ntohl(host: ByteOrder, w: uint32): (x: uint32)
    ensures BigEndianBytes(x) == StoreWord(host, w)
  {
    var x := FromBigEndian(StoreWord(host, w));
    BigEndianBytesRoundTrip(StoreWord(host, w));
    x
  }

  /** `ntohl` undoes `htonl` on every host. */
  lemma {:induction false} NtohlHtonl(host: ByteOrder, x: uint32)
    ensures Ntohl(host, Htonl(host, x)) == x
  {
    BigEndianWordRoundTrip(x);
  }

  /** `htonl` undoes `ntohl` on every host. */
  lemma {:induction false} HtonlNtohl(host: ByteOrder, w: uint32)
    ensures Htonl(host, Ntohl(host, w)) == w
  {
    var x := Ntohl(host, w);
    LoadStoreWord(host, Htonl(host, x));
    LoadStoreWord(host, w);
  }

  /** Reading a network-order word from memory and applying `ntohl` yields its big-endian value. */
  lemma {:induction false} NtohlOfLoad(host: ByteOrder, b: seq<uint8>)
    requires |b| == 4
    ensures Ntohl(host, LoadWord(host, b)) == FromBigEndian(b)
  {
    StoreLoadWord(host, b);
  }

  /** On a big-endian host `htonl` changes nothing; on a little-endian host it reverses the bytes. */
  lemma {:induction false} HtonlByHost(host: ByteOrder, x: uint32)
    ensures host == BigEndian ==> Htonl(host, x) == x
    ensures host == LittleEndian ==> StoreWord(BigEndian, Htonl(host, x)) == Reverse4(BigEndianBytes(x))
  {
    BigEndianWordRoundTrip(x);
    var b := BigEndianBytes(x);
    if host == LittleEndian {
      BigEndianBytesRoundTrip(Reverse4(b));
    }
  }
}
