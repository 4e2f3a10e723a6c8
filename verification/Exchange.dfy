/**
 * One request/reply exchange between the client and the server, each on a host of either
 * byte order: the client's request reaches the server whole, the server's reply reaches the
 * client whole, and the four timestamps the client computes with are the four clock readings.
 */
module Exchange {
  import opened Wire
  import opened NtpTime
  import opened Packet
  import Client
  import Server

  /** A full 48-byte datagram overwrites the whole receive buffer. */
  lemma FullDatagramOverlay(datagram: seq<uint8>, before: seq<uint8>)
    requires |datagram| == PACKET_SIZE && |before| == PACKET_SIZE
    ensures Overlay(datagram, before) == datagram
  {
  }

  /**
   * The reply to the client's request carries the request's transmit timestamp as originate,
   * the first server reading as receive and the second as transmit, whatever the receiving
   * struct held before: the originate words are the correlation between request and reply.
   */
  lemma {:induction false} ReplyCarriesTimestamps(t1: Timestamp, rx: Timestamp, tx: Timestamp, stale: seq<uint8>)
    requires |stale| == PACKET_SIZE
    ensures var reply := Server.ReplyBytes(Overlay(Client.RequestBytes(t1), Zeros(PACKET_SIZE)), rx, tx);
      Overlay(reply, stale) == reply &&
      TimestampAt(reply, 24) == t1 && TimestampAt(reply, 32) == rx && TimestampAt(reply, 40) == tx
  {
    var request := Client.RequestBytes(t1);
    FullDatagramOverlay(request, Zeros(PACKET_SIZE));
    var reply := Server.ReplyBytes(request, rx, tx);
    FullDatagramOverlay(reply, stale);
  }

  /**
   * The client sends its request, the server serves it once and the client receives the reply:
   * the client computes its offset from T1 = its send reading, T2 and T3 = the server's two
   * readings and T4 = its receive reading, each converted to NTP time.
   */
  method Exchange(clientHost: ByteOrder, serverHost: ByteOrder,
                  staleRequest: Packet, staleReply: Packet, staleReceived: Packet, staleReplied: Packet,
                  sendClock: TimeVal, first: TimeVal, second: TimeVal, recvClock: TimeVal)
    returns (sec: uint32, usec: uint32)
    requires ConvertibleUsec(sendClock.usec) && ConvertibleUsec(first.usec)
    requires ConvertibleUsec(second.usec) && ConvertibleUsec(recvClock.usec)
    requires Client.OffsetComputable(ConvertTime(sendClock), ConvertTime(first), ConvertTime(second), ConvertTime(recvClock))
    ensures (sec, usec) == Client.ClockOffset(ConvertTime(sendClock), ConvertTime(first), ConvertTime(second), ConvertTime(recvClock))
  {
    var request := Client.SendRequest(clientHost, sendClock, staleRequest);
    var reply := Server.ServeOnce(serverHost, staleReceived, staleReplied, request, first, second);
    ReplyCarriesTimestamps(ConvertTime(sendClock), ConvertTime(first), ConvertTime(second), Image(clientHost, staleReply));
    sec, usec := Client.ReceiveReply(clientHost, staleReply, reply, recvClock);
  }
}
