/** Numbers on the wire: the signed 64-bit datagram id in two 32-bit words
    (WritePacketID in jni/src/Client.cpp, ReadPacketID in jni/src/Server.cpp) and the
    64-bit counts of the server's final report (jni/src/Reports.c). */
module WireId {
  const TWO31: int := 0x8000_0000
  const TWO32: int := 0x1_0000_0000
  const TWO63: int := 0x8000_0000_0000_0000
  const TWO64: int := 0x1_0000_0000_0000_0000

  /** Host-order values of the `id` and `id2` words. */
  datatype Words = Words(id: int, id2: int)

  predicate Int64(x: int) { -TWO63 <= x < TWO63 }

  predicate Word32(x: int) { 0 <= x < TWO32 }

  /** An unsigned value stored in a signed variable of the same width. */
  function ToSigned(x: int, half: int): int { if x >= half then x - 2 * half else x }

  function WritePacketID(packetID: int): (w: Words)
    requires Int64(packetID)
    ensures Word32(w.id) && Word32(w.id2)
  {
    var u := packetID % TWO64;
    Words(packetID % TWO32, u / TWO32)
  }

  /** The packet id and whether the client announced its end. */
  function ReadPacketID(w: Words, seqNo64: bool): (r: (int, bool)) {
    var v := if seqNo64 then ToSigned(w.id + w.id2 * TWO32, TWO63) else ToSigned(w.id, TWO31);
    if v < 0 then (-v, true) else (v, false)
  }

  lemma WordsJoin(packetID: int)
    requires Int64(packetID)
    ensures var w := WritePacketID(packetID); w.id + w.id2 * TWO32 == packetID % TWO64
  {
    var u := packetID % TWO64;
    assert packetID == u || packetID == u - TWO64;
    assert packetID % TWO32 == u % TWO32;
  }

  /** For every signed 64-bit id but the least, the server reads its absolute value and
      ends exactly when it was negative; a legacy server that reads one word agrees
      below 2^31. */
  lemma PacketIdRoundTrip(packetID: int)
    requires Int64(packetID) && packetID != -TWO63
    ensures ReadPacketID(WritePacketID(packetID), true) ==
      (if packetID < 0 then -packetID else packetID, packetID < 0)
    ensures -TWO31 < packetID < TWO31 ==>
      ReadPacketID(WritePacketID(packetID), false) == ReadPacketID(WritePacketID(packetID), true)
  {
    WordsJoin(packetID);
  }

  /** write_UDP_AckFIN and InitServerRelayUDPReport: a count in two words. */
  function SplitCount(c: int): (w: Words)
    ensures Word32(w.id) && Word32(w.id2)
  { Words(c % TWO32, c / TWO32 % TWO32) }

  /** Joined in a signed 64-bit variable. */
  function JoinCount(w: Words): int { ToSigned(w.id2 * TWO32 + w.id, TWO63) }

  /** The four counts of the server report. */
  datatype Ack = Ack(bytes: int, error: int, outOfOrder: int, datagrams: int)

  datatype AckHdr = AckHdr(seqNo64: bool, totalLen: Words, error: Words, outOfOrder: Words, datagrams: Words)

  function WriteAck(a: Ack): AckHdr {
    AckHdr(true, SplitCount(a.bytes), SplitCount(a.error), SplitCount(a.outOfOrder), SplitCount(a.datagrams))
  }

  /** Without the 64-bit flag only the low words of the three counts are read. */
  function ReadAck(h: AckHdr): Ack {
    if h.seqNo64 then
      Ack(JoinCount(h.totalLen), JoinCount(h.error), JoinCount(h.outOfOrder), JoinCount(h.datagrams))
    else Ack(JoinCount(h.totalLen), h.error.id, h.outOfOrder.id, h.datagrams.id)
  }

  /** A count survives if and only if it fits a signed 64-bit variable. */
  lemma CountRoundTrip(c: int)
    ensures JoinCount(SplitCount(c)) == c <==> Int64(c)
  {
    var u := c % TWO64;
    assert u % TWO32 == c % TWO32 && u / TWO32 == c / TWO32 % TWO32;
    assert SplitCount(c).id2 * TWO32 + SplitCount(c).id == u;
  }

  /** The client shows the counts that the server reported. */
  lemma AckRoundTrip(a: Ack)
    requires Int64(a.bytes) && Int64(a.error) && Int64(a.outOfOrder) && Int64(a.datagrams)
    ensures ReadAck(WriteAck(a)) == a
  {
    CountRoundTrip(a.bytes);
    CountRoundTrip(a.error);
    CountRoundTrip(a.outOfOrder);
    CountRoundTrip(a.datagrams);
  }

  /** A header without the 64-bit flag gives the byte count and the low words of the others. */
  lemma LegacyAck(a: Ack)
    requires Int64(a.bytes)
    ensures ReadAck(WriteAck(a).(seqNo64 := false)) == Ack(a.bytes, a.error % TWO32, a.outOfOrder % TWO32, a.datagrams % TWO32)
  {
    CountRoundTrip(a.bytes);
  }
}
