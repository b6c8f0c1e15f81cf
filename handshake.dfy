/**
 * The client side of the three-way handshake in A3/client.cpp: the bytes
 * `send_tcp_packet` feeds to `checksum`, the segments it sends, the test
 * that ends the wait for the SYN-ACK, and the numbers of the final ACK.
 * The IP header, the raw socket and `inet_addr` are not modelled: an
 * address is the four bytes `inet_addr` leaves in memory.
 */
module Handshake {
  import opened Common
  import opened Checksum

  type U32 = x: int | 0 <= x < 0x1_0000_0000

  const TcpProtocol: Byte := 6
  const ClientPort: Word := 54321
  const ServerPort: Word := 12345
  const ClientIsn: U32 := 200
  const FinalSeq: U32 := 600
  const WindowSize: Word := 8192
  const TcpHeaderLength: Word := 20

  /** The fields of a TCP header that the client sets or reads. */
  datatype TcpHeader = TcpHeader(
    source: Word, dest: Word, seqNum: U32, ackSeq: U32,
    syn: bool, ack: bool, window: Word, check: Word)

  /** What one `recv` on the raw socket yields: a failure, or a decoded datagram. */
  datatype Received = Failed | Datagram(protocol: Byte, tcp: TcpHeader)

  /** `htons`: the two bytes of `x` in network order. */
  function Be16(x: Word): seq<Byte> {
    [x / 0x100, x % 0x100]
  }

  /** `htonl`: the four bytes of `x` in network order. */
  function Be32(x: U32): seq<Byte> {
    [x / 0x100_0000, x / 0x1_0000 % 0x100, x / 0x100 % 0x100, x % 0x100]
  }

  /** The flags byte: SYN is bit 1 and ACK bit 4; FIN, RST, PSH and URG are clear. */
  function Flags(h: TcpHeader): Byte {
    (if h.syn then 0x02 else 0) + (if h.ack then 0x10 else 0)
  }

  /**
   * The 20 bytes of the TCP header in memory: data offset 5, no options,
   * the check field holding `check` as `checksum` returned it, and a zero
   * urgent pointer.
   */
  function HeaderBytes(h: TcpHeader): (r: seq<Byte>)
    ensures |r| == 20
  {
    HeaderFields(h) + Bytes(h.check) + [0, 0]
  }

  /** The 16 bytes before the check field: ports, numbers, data offset and flags, window. */
  function HeaderFields(h: TcpHeader): (r: seq<Byte>)
    ensures |r| == 16
  {
    Be16(h.source) + Be16(h.dest) + Be32(h.seqNum) + Be32(h.ackSeq) + [0x50, Flags(h)] + Be16(h.window)
  }

  /** The pseudo header of section 3.1 of RFC 793: addresses, zero, protocol, TCP length. */
  function PseudoHeader(src: seq<Byte>, dst: seq<Byte>): (r: seq<Byte>)
    requires |src| == 4 && |dst| == 4
    ensures |r| == 12
  {
    src + dst + [0, TcpProtocol] + Be16(TcpHeaderLength)
  }

  /** The 32 bytes `checksum` is given for header `h`. */
  function ChecksumInput(src: seq<Byte>, dst: seq<Byte>, h: TcpHeader): (r: seq<Byte>)
    requires |src| == 4 && |dst| == 4
    ensures |r| == 32
  {
    PseudoHeader(src, dst) + HeaderBytes(h)
  }

  /**
   * The TCP header `send_tcp_packet` sends: the given ports, numbers and
   * flags, window 8192, and in the check field the checksum of the pseudo
   * header and header computed with that field zero.
   */
  function SendTcpPacket(src: seq<Byte>, dst: seq<Byte>, srcPort: Word, dstPort: Word,
                         seqNum: U32, ackSeq: U32, syn: bool, ack: bool): (h: TcpHeader)
    requires |src| == 4 && |dst| == 4
    ensures h.source == srcPort && h.dest == dstPort && h.seqNum == seqNum && h.ackSeq == ackSeq
    ensures h.syn == syn && h.ack == ack && h.window == WindowSize
  {
    var blank := TcpHeader(srcPort, dstPort, seqNum, ackSeq, syn, ack, WindowSize, 0);
    blank.(check := ChecksumOf(ChecksumInput(src, dst, blank)))
  }

  /** The receiver's checksum over the pseudo header and a header `send_tcp_packet` built comes out 0. */
  lemma SentHeaderVerifies(src: seq<Byte>, dst: seq<Byte>, srcPort: Word, dstPort: Word,
                           seqNum: U32, ackSeq: U32, syn: bool, ack: bool)
    requires |src| == 4 && |dst| == 4
    ensures ChecksumOf(ChecksumInput(src, dst, SendTcpPacket(src, dst, srcPort, dstPort, seqNum, ackSeq, syn, ack))) == 0
  {
    var blank := TcpHeader(srcPort, dstPort, seqNum, ackSeq, syn, ack, WindowSize, 0);
    CheckFieldVerifies(src, dst, blank, ChecksumOf(ChecksumInput(src, dst, blank)));
  }

  /** The checksum input around the check field, whatever that field holds. */
  lemma InputAroundCheck(src: seq<Byte>, dst: seq<Byte>, blank: TcpHeader, c: Word)
    requires |src| == 4 && |dst| == 4
    ensures ChecksumInput(src, dst, blank.(check := c)) == (PseudoHeader(src, dst) + HeaderFields(blank)) + Bytes(c) + [0, 0]
  {
    assert HeaderFields(blank.(check := c)) == HeaderFields(blank);
  }

  /** With a zero check field, the input is the bytes before it followed by four zeros. */
  lemma ZeroedInput(src: seq<Byte>, dst: seq<Byte>, blank: TcpHeader)
    requires |src| == 4 && |dst| == 4 && blank.check == 0
    ensures ChecksumInput(src, dst, blank) == (PseudoHeader(src, dst) + HeaderFields(blank)) + [0, 0] + [0, 0]
  {
    InputAroundCheck(src, dst, blank, 0);
    assert blank.(check := 0) == blank;
    assert Bytes(0) == [0, 0];
  }

  /** Storing the checksum of the input with a zero check field makes it verify. */
  lemma CheckFieldVerifies(src: seq<Byte>, dst: seq<Byte>, blank: TcpHeader, c: Word)
    requires |src| == 4 && |dst| == 4 && blank.check == 0
    requires c == ChecksumOf(ChecksumInput(src, dst, blank))
    ensures ChecksumOf(ChecksumInput(src, dst, blank.(check := c))) == 0
  {
    ZeroedInput(src, dst, blank);
    InputAroundCheck(src, dst, blank, c);
    var prefix := PseudoHeader(src, dst) + HeaderFields(blank);
    assert |prefix| == 28;
    assert ChecksumInput(src, dst, blank) == prefix + [0, 0] + [0, 0];
    assert c == ChecksumOf(ChecksumInput(src, dst, blank));
    assert ChecksumInput(src, dst, blank.(check := c)) == prefix + Bytes(c) + [0, 0];
    StoredInTrailer(PseudoHeader(src, dst) + HeaderFields(blank), ChecksumInput(src, dst, blank), c,
      ChecksumInput(src, dst, blank.(check := c)));
  }

  /** The check field is followed by the two-byte urgent pointer, zero. */
  lemma StoredInTrailer(prefix: seq<Byte>, zeroed: seq<Byte>, c: Word, stored: seq<Byte>)
    requires |prefix| % 2 == 0 && |prefix| <= 0x1_0000
    requires zeroed == prefix + [0, 0] + [0, 0] && c == ChecksumOf(zeroed)
    requires stored == prefix + Bytes(c) + [0, 0]
    ensures ChecksumOf(stored) == 0
  {
    StoredChecksumVerifies(prefix, [0, 0]);
  }

  // ----------------------------------------------------------------------
  // client_handshake

  /** The datagram that ends the wait: TCP, from the server port to the client port, SYN and ACK set. */
  predicate IsSynAck(r: Received) {
    && r.Datagram?
    && r.protocol == TcpProtocol
    && r.tcp.source == ServerPort && r.tcp.dest == ClientPort
    && r.tcp.syn && r.tcp.ack
  }

  /** The position of the first SYN-ACK among the received datagrams, if there is one. */
  function FirstSynAck(received: seq<Received>): (r: Option<nat>)
    ensures r.Some? ==> r.value < |received| && IsSynAck(received[r.value])
    ensures r.Some? ==> forall k :: 0 <= k < r.value ==> !IsSynAck(received[k])
    ensures r.None? <==> forall k :: 0 <= k < |received| ==> !IsSynAck(received[k])
  {
    if received == [] then None
    else if IsSynAck(received[0]) then Some(0)
    else
      match FirstSynAck(received[1..])
      case None => None
      case Some(i) => Some(i + 1)
  }

  /**
   * The wait loop over what `recv` returned: failures and datagrams that
   * are not the SYN-ACK are skipped.
   */
  method AwaitSynAck(received: seq<Received>) returns (found: Option<nat>)
    ensures found == FirstSynAck(received)
  {
    var i := 0;
    while i < |received|
      invariant i <= |received|
      invariant forall k :: 0 <= k < i ==> !IsSynAck(received[k])
    {
      var r := received[i];
      if r.Failed? {
        i := i + 1;
        continue;
      }
      if r.protocol != TcpProtocol {
        i := i + 1;
        continue;
      }
      if r.tcp.source == ServerPort && r.tcp.dest == ClientPort && r.tcp.syn && r.tcp.ack {
        FirstIsFirst(received, i);
        return Some(i);
      }
      i := i + 1;
    }
    found := None;
  }

  lemma FirstIsFirst(received: seq<Received>, i: nat)
    requires i < |received| && IsSynAck(received[i])
    requires forall k :: 0 <= k < i ==> !IsSynAck(received[k])
    ensures FirstSynAck(received) == Some(i)
  {
    var r := FirstSynAck(received);
    assert r.Some?;
  }

  /** The final ACK: sequence number 600, acknowledging the server's sequence number plus one, modulo 2^32. */
  function FinalAck(src: seq<Byte>, dst: seq<Byte>, serverSeq: U32): (h: TcpHeader)
    requires |src| == 4 && |dst| == 4
    ensures h.seqNum == FinalSeq && h.ackSeq == (serverSeq + 1) % 0x1_0000_0000
    ensures !h.syn && h.ack
  {
    SendTcpPacket(src, dst, ClientPort, ServerPort, FinalSeq, (serverSeq + 1) % 0x1_0000_0000, false, true)
  }

  /**
   * The segments `client_handshake` sends, given what `recv` returns: the
   * SYN, then, once a SYN-ACK has arrived, the final ACK.
   */
  function ClientHandshake(src: seq<Byte>, dst: seq<Byte>, received: seq<Received>): (sent: seq<TcpHeader>)
    requires |src| == 4 && |dst| == 4
    ensures 1 <= |sent| <= 2
    ensures sent[0].seqNum == ClientIsn && sent[0].ackSeq == 0 && sent[0].syn && !sent[0].ack
    ensures |sent| == 2 <==> FirstSynAck(received).Some?
    ensures |sent| == 2 ==>
      var serverSeq := received[FirstSynAck(received).value].tcp.seqNum;
      sent[1].seqNum == FinalSeq && sent[1].ackSeq == (serverSeq + 1) % 0x1_0000_0000 && !sent[1].syn && sent[1].ack
    ensures forall k :: 0 <= k < |sent| ==> sent[k].source == ClientPort && sent[k].dest == ServerPort
  {
    var syn := SendTcpPacket(src, dst, ClientPort, ServerPort, ClientIsn, 0, true, false);
    match FirstSynAck(received)
    case None => [syn]
    case Some(i) => [syn, FinalAck(src, dst, received[i].tcp.seqNum)]
  }

  /** Every segment of the handshake carries a checksum the server accepts. */
  lemma SegmentsVerify(src: seq<Byte>, dst: seq<Byte>, received: seq<Received>)
    requires |src| == 4 && |dst| == 4
    ensures forall k :: 0 <= k < |ClientHandshake(src, dst, received)| ==>
      ChecksumOf(ChecksumInput(src, dst, ClientHandshake(src, dst, received)[k])) == 0
  {
    SentHeaderVerifies(src, dst, ClientPort, ServerPort, ClientIsn, 0, true, false);
    match FirstSynAck(received)
    case None =>
    case Some(i) =>
      SentHeaderVerifies(src, dst, ClientPort, ServerPort, FinalSeq, (received[i].tcp.seqNum + 1) % 0x1_0000_0000, false, true);
  }

  /** When the server's sequence number is the largest, the acknowledgement wraps to 0. */
  lemma AckWrapsAround(src: seq<Byte>, dst: seq<Byte>)
    requires |src| == 4 && |dst| == 4
    ensures FinalAck(src, dst, 0xFFFF_FFFF).ackSeq == 0
  {
    var h := FinalAck(src, dst, 0xFFFF_FFFF);
    assert h.ackSeq == 0x1_0000_0000 % 0x1_0000_0000;
  }

  /** A server that answers with sequence number 400 gets its acknowledgement 401. */
  lemma HandshakeWithServer(src: seq<Byte>, dst: seq<Byte>, synAck: TcpHeader, noise: seq<Received>)
    requires |src| == 4 && |dst| == 4
    requires synAck.source == ServerPort && synAck.dest == ClientPort && synAck.syn && synAck.ack
    requires synAck.seqNum == 400
    requires forall k :: 0 <= k < |noise| ==> !IsSynAck(noise[k])
    ensures var sent := ClientHandshake(src, dst, noise + [Datagram(TcpProtocol, synAck)]);
      |sent| == 2 && sent[1].seqNum == 600 && sent[1].ackSeq == 401
  {
    var received := noise + [Datagram(TcpProtocol, synAck)];
    SynAckAfterNoise(noise, Datagram(TcpProtocol, synAck));
    SecondIsFinalAck(src, dst, received, |noise|);
    assert received[|noise|].tcp.seqNum == 400;
    AckOf400(src, dst);
  }

  lemma AckOf400(src: seq<Byte>, dst: seq<Byte>)
    requires |src| == 4 && |dst| == 4
    ensures FinalAck(src, dst, 400).seqNum == 600 && FinalAck(src, dst, 400).ackSeq == 401
  {
    AckFields(FinalAck(src, dst, 400), 400);
  }

  /** The arithmetic of `AckOf400`, on the fields alone. */
  lemma AckFields(h: TcpHeader, serverSeq: U32)
    requires h.seqNum == FinalSeq && h.ackSeq == (serverSeq + 1) % 0x1_0000_0000 && serverSeq == 400
    ensures h.seqNum == 600 && h.ackSeq == 401
  {
  }

  /** A SYN-ACK after datagrams that are not one is the first SYN-ACK. */
  lemma SynAckAfterNoise(noise: seq<Received>, d: Received)
    requires forall k :: 0 <= k < |noise| ==> !IsSynAck(noise[k])
    requires IsSynAck(d)
    ensures FirstSynAck(noise + [d]) == Some(|noise|)
  {
    FirstIsFirst(noise + [d], |noise|);
  }

  lemma SecondIsFinalAck(src: seq<Byte>, dst: seq<Byte>, received: seq<Received>, i: nat)
    requires |src| == 4 && |dst| == 4
    requires FirstSynAck(received) == Some(i)
    ensures i < |received|
    ensures |ClientHandshake(src, dst, received)| == 2
    ensures ClientHandshake(src, dst, received)[1] == FinalAck(src, dst, received[i].tcp.seqNum)
  {
  }
}
