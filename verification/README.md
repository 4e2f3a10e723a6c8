# SNTPv4 client and server: a verified model of the timestamp exchange

The repository holds two small C programs. They implement a subset of SNTP version 4
(RFC 4330).

- The **client** (`mclient.c`) does the following:
  - reads the clock and converts it to an NTP timestamp with `convertTime`;
  - sends a zeroed 48-byte `struct packet` stamped with that transmit time;
  - receives one reply into another `struct packet`;
  - converts the reply's originate, receive and transmit words to host order in place;
  - computes, separately on the seconds words and on the fraction words, the RFC 4330
    offset `((T2-T1)+(T3-T4))/2` and delay `(T4-T1)-(T3-T2)` in unsigned 32-bit arithmetic;
  - prints `|offset - delay|`.
- The **server** (`server.c`) does the following, on every iteration of its loop:
  - zeroes a request struct and receives a datagram into it;
  - zeroes a reply struct and stamps its receive and reference words from one clock reading;
  - sets the header byte to 0x24, the stratum to 1 and the poll to the request's poll;
  - copies the request's transmit words into the originate words;
  - stamps the transmit words from a second clock reading, then sends the struct.

## How the model is built

The Dafny modules follow the program's structure.

- `Wire`: C integer widths and their conversions (`% 2^32`, two's complement), and `abs`.
  It also holds the memory image of a 32-bit word on a host of either byte order, with
  `htonl` and `ntohl` over it.
- `NtpTime`: `convertTime` in both forms. The client stores the result in `unsigned int`,
  the server in `int`.
- `Packet`: the `struct packet` fields as a datatype, and the struct's 48 bytes of memory
  (`Image`) and back (`Parse`). `PacketStruct` is a class for a struct variable that the
  programs update field by field. It has `memset` (`Clear`) and `recvfrom` (`Receive`).
  `recvfrom` overwrites at most 48 bytes of the struct's memory and leaves the rest as they were.
- `Client`: building the request, the in-place `ntohl` pass, the offset arithmetic, and the
  send and receive halves of `main`.
- `Server`: building the reply, and one iteration of the loop.
- `Exchange`: a client's request served by the server and the reply read by the client,
  with client and server on hosts of any byte order.

Each struct is modelled as its field values together with the host's byte order. This lets
the model state what reaches the wire, and prove it is the same on big-endian and
little-endian hosts. Clock readings are parameters. So are the contents a struct held before
the program wrote to it (a struct declared without an initialiser).

Where the C code departs from RFC 4330 or from the client's own header comment, the model follows the code:

- The code calls `sec` what RFC 4330 calls the offset, and `dsec` the RFC's delay. It then
  reports `|sec - dsec|` per component.
- The poll field is `uint8_t`, where RFC 4330 has a signed 8-bit exponent.
- No received datagram is checked for its length. A short datagram leaves the rest of the
  struct as it was (zero on the server, whatever was there on the client). A long one is
  truncated to 48 bytes.

## Model

| member | source | states |
|---|---|---|
| Wire.Abs | mclient.c:126-127 | C `abs` on an `int`: defined except for INT_MIN; the result is non-negative and is the argument or its negation |
| Wire.ModAdd | mclient.c:120-121 | adding words already reduced modulo 2^32 and reducing again gives the true sum modulo 2^32 |
| Wire.ModSub | mclient.c:123-124 | subtracting words already reduced modulo 2^32 and reducing again gives the true difference modulo 2^32 |
| Wire.ToInt32 | mclient.c:126-127 | conversion to `int` (taken as two's complement): the result is in the `int32_t` range and congruent to the input modulo 2^32 |
| Wire.Int32Uint32RoundTrip | server.c:96-97 | an integer stored through `int` and then passed to `htonl` as `uint32_t` keeps its value modulo 2^32 |
| Wire.Int8Uint8RoundTrip | server.c:38 | the `int8_t` precision byte read back from memory is the byte stored |
| Wire.BigEndianWordRoundTrip | mclient.c:88-89 | a word's four network-order bytes, most significant first, decode to the word |
| Wire.BigEndianBytesRoundTrip | mclient.c:113-118 | any four bytes are the network-order bytes of the word they decode to |
| Wire.FromBigEndian | mclient.c:113-118 | the decoded word's top byte is the first byte and its low byte the last |
| Wire.LoadStoreWord | mclient.c:41-51 | a host reads back from memory the word it stored, for either byte order |
| Wire.StoreLoadWord | mclient.c:41-51 | any four bytes of memory are the image of the word a host reads from them |
| Wire.Htonl | mclient.c:88-89 | `htonl(x)` is the word whose memory image on this host is `x` in network byte order |
| Wire.Ntohl | mclient.c:113-118 | `ntohl(w)` is the value whose network-order bytes are the memory image of `w` |
| Wire.NtohlHtonl | mclient.c:113-118 | `ntohl` undoes `htonl` on every host |
| Wire.HtonlNtohl | mclient.c:113-118 | `htonl` undoes `ntohl` on every host, so the `ntohl` pass loses nothing |
| Wire.NtohlOfLoad | mclient.c:113-118 | `ntohl` of a word read from memory is the big-endian value of its bytes |
| Wire.HtonlByHost | mclient.c:88-89 | `htonl` is the identity on a big-endian host and reverses the bytes on a little-endian one |
| NtpTime.ScaledFraction | mclient.c:155 | the fraction is the floor of `(tv_usec+1)·2^32/10^6`: `r·10^6 ≤ (tv_usec+1)·2^32 < (r+1)·10^6` |
| NtpTime.LastMicrosecondOverflows | mclient.c:155 | at `tv_usec == 999999` the scaled fraction is exactly 2^32, which no `uint32_t` holds |
| NtpTime.ScaledFractionMonotone | mclient.c:155 | the fraction does not decrease as `tv_usec` grows |
| NtpTime.ScaledFractionFits | mclient.c:155 | for `tv_usec` in [0, 999998] the fraction fits in 32 bits |
| NtpTime.ConvertTime | mclient.c:152-156 | seconds are `tv_sec + 0x83AA7E80` modulo 2^32; the fraction is the largest 32-bit binary fraction not above `(tv_usec+1)` microseconds |
| NtpTime.ServerConvertTime | server.c:148-152 | the server's `int` results, taken as `uint32_t`, are the client's conversion of the same reading |
| NtpTime.EpochShiftInvertible | mclient.c:154 | within NTP era 0, subtracting 2208988800 from the NTP seconds gives back the Unix seconds |
| NtpTime.ConvertTimeMonotone | server.c:148-152 | a later clock reading converts to a timestamp no earlier, unless the seconds wrap |
| Packet.PackLiVnMode | mclient.c:87 | the packed first byte decodes to the given leap indicator, version and mode |
| Packet.HeaderBytes | mclient.c:87 | 0x23 is LI 0, VN 4, mode 3 (client); 0x24 is LI 0, VN 4, mode 4 (server) |
| Packet.FromParts | mclient.c:35-52 | a struct rebuilt from its eleven words has exactly those words |
| Packet.LoadStoreWords | mclient.c:35-52 | consecutive words stored to memory are read back unchanged |
| Packet.StoreLoadWords | mclient.c:35-52 | memory of whole words is the image of the words read from it |
| Packet.FromPartsOfWords | mclient.c:35-52 | a struct is rebuilt exactly from its four header bytes and its eleven words |
| Packet.Image | mclient.c:35-52 | the struct's memory, which is also what `sendto` puts on the wire; its own contract states only the length 48, and `ParseImage` and `ImageParse` carry the inverse pair |
| Packet.Parse | mclient.c:35-52 | the struct a host sees in 48 bytes of memory: the first four bytes are the header fields and the rest are the words loaded in this host's byte order; `ParseImage` and `ImageParse` carry the inverse pair |
| Packet.ParseImage | mclient.c:35-52 | reading back a struct's 48 bytes of memory gives the same struct |
| Packet.ImageParse | mclient.c:35-52 | every 48 bytes of memory are the image of the struct read from them |
| Packet.ImageWordAt | mclient.c:41-51 | word `i` of the struct occupies bytes `4+4i` to `7+4i` of its memory |
| Packet.WordPairAt | mclient.c:44-51 | words `i` and `i+1` occupy bytes `4+4i` to `11+4i` of memory |
| Packet.NetworkTimestampAt | mclient.c:88-89 | a timestamp stored with `htonl` lies in memory as its big-endian bytes, seconds first |
| Packet.CopiedWordsAt | server.c:106-107 | two structs holding the same pair of words hold the same eight bytes there |
| Packet.TimestampOfBytes | mclient.c:113-118 | eight bytes holding a timestamp big-endian read back as that timestamp |
| Packet.TimestampOfCopy | server.c:106-107 | equal eight-byte runs read as equal timestamps |
| Packet.ImageWordsPrefix | mclient.c:41-51 | bytes 4 up to `4+4k` of memory hold the first `k` words |
| Packet.StoreZeroWords | server.c:91 | zero words occupy zero bytes, in either byte order |
| Packet.ZeroWords | server.c:91 | every 32-bit word of a zeroed struct is 0 |
| Packet.ImageZero | server.c:91 | a zeroed struct's memory is 48 zero bytes on every host |
| Packet.Overlay | server.c:85 | after `recvfrom`, byte `i` of the buffer is the datagram's byte `i` if there is one, else the byte that was there |
| Packet.PacketStruct.constructor | mclient.c:60-61 | a struct declared without an initialiser holds whatever it held |
| Packet.PacketStruct.Assign | server.c:85 | every field is overwritten with those of the given struct |
| Packet.PacketStruct.Clear | server.c:91 | after `memset` every field is zero and the struct's memory is 48 zero bytes on every host |
| Packet.PacketStruct.Receive | server.c:85 | `recvfrom` reports `min(len, 48)` bytes and the struct's memory becomes the datagram laid over the old memory |
| Client.RequestPacket | mclient.c:86-89 | the request struct is LI 0, VN 4, mode 3; its transmit words read back through `ntohl` as `T1`; every other field is zero |
| Client.RequestBytes | mclient.c:86-89 | the request is 48 bytes whose transmit timestamp, read big-endian at offset 40, is `T1` |
| Client.RequestImage | mclient.c:86-89 | on every host the request's memory is 0x23, 39 zero bytes, then `T1` seconds and fraction, most significant byte first |
| Client.BuildRequest | mclient.c:83-89 | `T1` is the converted clock reading; the struct is zero except header 0x23 and the `htonl` transmit words |
| Client.RequestImageHead | mclient.c:86-87 | a struct zero but for header 0x23 and its transmit words has 0x23 and 39 zero bytes before the transmit timestamp |
| Client.HostOrderReply | mclient.c:113-118 | the reply after the `ntohl` pass: each of the six timestamp words goes back through `htonl` to the received word, and no other field changes |
| Client.ConvertReplyTimestamps | mclient.c:113-118 | `ntohl` rewrites exactly the six originate, receive and transmit words; every other field is unchanged |
| Client.ConvertSecondsWords | mclient.c:113-115 | `ntohl` rewrites the receive, originate and transmit seconds words and nothing else |
| Client.ConvertFractionWords | mclient.c:116-118 | `ntohl` rewrites the receive, originate and transmit fraction words and nothing else |
| Client.NtohlOfImageWord | mclient.c:113-118 | `ntohl` of a reply word is the big-endian value of its four bytes in memory |
| Client.NtohlTimestampAt | mclient.c:113-118 | `ntohl` of a pair of reply words is the big-endian timestamp at their offset in memory |
| Client.HostOrderReplyReadsWire | mclient.c:113-118 | after the `ntohl` pass, T1, T2 and T3 are the big-endian timestamps at reply offsets 24, 32 and 40, on every host |
| Client.Offset | mclient.c:120-121 | `sec` is below 2^31 and is half of `(T2-T1)+(T3-T4)` taken modulo 2^32, rounded down |
| Client.HalveWord | mclient.c:120-121 | halving an unsigned word gives a value below 2^31 that doubles back to the word, up to its low bit |
| Client.Delay | mclient.c:123-124 | `dsec` is `(T4-T1)-(T3-T2)` modulo 2^32 |
| Client.AbsDefined | mclient.c:126-127 | an unsigned difference other than 2^31 does not become INT_MIN when passed to `abs` |
| Client.NegatedDifference | mclient.c:126-127 | the two unsigned differences of two words sum to 2^32 unless the words are equal, when both are 0 |
| Client.AbsDiff | mclient.c:126-127 | `abs(a - b)` stored unsigned is below 2^31, is one of the two modular differences and no larger than either, and is zero exactly when `a == b` |
| Client.Reported | mclient.c:126-127 | the reported component is below 2^31 and is zero exactly when offset and delay are equal modulo 2^32 |
| Client.ClockOffset | mclient.c:120-129 | the printed pair: both components are below 2^31, and each is zero exactly when that component's offset equals its delay |
| Client.ComputeComponent | mclient.c:120-127 | the three statements on one component compute the reported value |
| Client.ComputeOffset | mclient.c:120-127 | `sec` and `usec` are the reported values of the seconds and fraction components, each from its own words only |
| Client.OffsetAgreesWithRfc | mclient.c:120-121 | when the true sum is in [0, 2^32), `sec` is the RFC 4330 offset |
| Client.NegativeOffsetWraps | mclient.c:120-121 | when the true sum `(T2-T1)+(T3-T4)` is in [−2^32, 0), odd or even, `sec` is 2^31 plus the (negative) RFC offset, not the offset |
| Client.DelayAgreesWithRfc | mclient.c:123-124 | when the true delay is in [0, 2^32), `dsec` is the RFC 4330 delay |
| Client.AbsDiffOfSmall | mclient.c:126-127 | for two values below 2^31, `abs` of their difference is their distance |
| Client.SymmetricExchange | mclient.c:120-127 | with one-way delay `d` and server clock `theta` ahead, the offset is `theta`, the delay `2d` and the reported value `abs(theta - 2d)` |
| Client.SendRequest | mclient.c:83-96 | what is sent is the request bytes of the converted clock reading, whatever the host and the struct held |
| Client.ReceiveReply | mclient.c:104-127 | the printed pair is computed from the timestamps at offsets 24, 32 and 40 of the received memory and the converted arrival reading |
| Server.ReplyPacket | server.c:91-114 | the reply struct is LI 0, VN 4, mode 4, stratum 1, echoes the request's poll, has zero precision, root delay, root dispersion and identifier; reference and receive read back through `ntohl` as the first reading, transmit as the second; originate is the request's transmit words, unconverted |
| Server.ReplyBytes | server.c:91-114 | the reply is 48 bytes: reference and receive are `rx`, transmit is `tx`, and the originate bytes are the request's transmit bytes unchanged |
| Server.ReplyBytesLayout | server.c:91-114 | the reply's bytes are, in order, the 16-byte head, `rx`, the request's transmit bytes, `rx` and `tx` |
| Server.ReplyImageHead | server.c:91-101 | a struct with header 0x24, stratum 1, the request's poll and zero precision, root delay, root dispersion and identifier starts with 0x24, 1, the request's poll byte and 13 zero bytes |
| Server.EqualByTimestampSlices | server.c:116 | two 48-byte messages agreeing on their head and on each of the four timestamps are equal |
| Server.ReplyImageOf | server.c:96-114 | the memory of a reply stamped with two `int` pairs is `ReplyBytes` of the request's memory and the timestamps the pairs denote as `uint32_t` |
| Server.ReplyImage | server.c:91-116 | on every host the reply's memory is the reply bytes of the request's memory and the two converted readings |
| Server.StampReceive | server.c:96-97 | the receive words become the first reading through `htonl`; nothing else changes |
| Server.SetHeader | server.c:99-101 | header 0x24, stratum 1 and the request's poll are set; nothing else changes |
| Server.StampReference | server.c:103-104 | the reference words become the first reading through `htonl`; nothing else changes |
| Server.CopyOriginate | server.c:106-107 | the originate words become the request's transmit words, unconverted; nothing else changes |
| Server.StampTransmit | server.c:113-114 | the transmit words become the second reading through `htonl`; nothing else changes |
| Server.BuildReply | server.c:91-114 | the reply struct is zero except header, stratum, poll, reference, originate, receive and transmit, each set as the protocol says |
| Server.ServeOnce | server.c:83-116 | what is sent is the reply bytes of the datagram laid over 48 zero bytes, whatever the host and the structs held |
| Server.ReplyHeader | server.c:91-101 | every reply is LI 0, VN 4, mode 4, stratum 1, echoes the request's poll, and has zero precision, root delay, root dispersion and reference identifier |
| Server.ShortRequestReadsZero | server.c:83-107 | bytes a short request does not supply read as zero in the echoed poll and originate |
| Server.TransmitNotBeforeReceive | server.c:93-114 | a second reading no earlier than the first gives a transmit timestamp no earlier than the receive timestamp, unless the seconds wrap |
| Exchange.ReplyCarriesTimestamps | server.c:106-107 | the reply to a request carries the request's `T1` as originate and the server's readings as receive and transmit, and arrives whole |
| Exchange.Exchange | mclient.c:83-127 | across client and server hosts of any byte order, the client computes from T1 = its send reading, T2 and T3 = the server's readings and T4 = its arrival reading |

## Left out

- Sockets: `socket`, `gethostbyname`, `bind`, `sendto`, `recvfrom`, `close`, and the
  `perror`/`exit(1)` error paths. `recvfrom` appears only as what it does to the struct's
  memory (`PacketStruct.Receive`). `sendto` appears only as the struct's memory.
- `gettimeofday`: clock readings are parameters.
- The server's `while (1)` loop and its rebinding of the socket. One iteration is `Server.ServeOnce`.
- `printf` of the result with `%d`.
- The `argc` check, the fixed multicast address and the port numbers.
- The `double` arithmetic of the fraction. The model uses the exact floor of
  `(tv_usec+1)·2^32/10^6`, which is the C value on every admitted input: that quotient equals
  `(tv_usec+1)·2^26/15625`, so it is either an integer or at least 1/15625 away from one,
  while the rounding error of the IEEE double product is below 10^-6. At the 64 inputs where
  the quotient is an integer, `(tv_usec+1)·2^32` and the product with `1.0e-6` both round to
  that integer exactly, so truncation gives the floor there too.
- NtpTime.ConvertTime: requires `tv_usec` at most 999998. At 999999 the C cast of 2^32 to
  `uint32_t` is undefined (`LastMicrosecondOverflows`).
- NtpTime.ServerConvertTime: the conversion of an out-of-range value to `int` is taken as
  two's complement wrap-around, which C leaves to the implementation.
- Client.AbsDiff: the conversion of `sec - dsec` to `int` is taken as two's complement
  wrap-around. C leaves this conversion to the implementation once the difference reaches 2^31.
- Client.Reported: requires that `sec - dsec` is not 2^31. There `abs(INT_MIN)` is
  undefined behaviour, and the model gives no value.
- The validation and resending of replies described in the client's header comment. The
  code does neither, so neither is modelled.
- `tv_sec` is an unbounded integer. Its 64-bit width does not matter, because only its value
  modulo 2^32 reaches the packet.
- Struct padding: the fields of `struct packet` are laid out with no padding, as gcc
  does for these types.
