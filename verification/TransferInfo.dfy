/** The server-side UDP counters of jni/src/Reporter.c: the packet handler, the interval
    and final reports, the reset between intervals and the group sum. */
module TransferInfo {
  /** struct ShiftIntCounter. */
  datatype Shift = Shift(current: int, prev: int) {
    function Delta(): int { current - prev }
    function Plus(d: int): Shift { Shift(current + d, prev) }
    function Roll(): Shift { Shift(current, current) }
  }

  /** The fields of struct TransferInfo that the UDP server reports use. */
  datatype Info = Info(
    bytes: Shift, lost: Shift, outOfOrder: Shift, datagrams: Shift, packetId: int, cntTransit: int,
    cntBytes: int, cntError: int, cntOutofOrder: int, cntDatagrams: int)

  const ZERO := Info(Shift(0, 0), Shift(0, 0), Shift(0, 0), Shift(0, 0), 0, 0, 0, 0, 0, 0)

  function Clamp(x: int): nat { if x < 0 then 0 else x }

  /** reporter_handle_packet_server_udp. */
  function Handle(i: Info, id: int, len: int, empty: bool): Info {
    if (empty && i.cntTransit == 0) || id <= 0 then i
    else i.(
      bytes := i.bytes.Plus(len),
      outOfOrder := i.outOfOrder.Plus(if id < i.packetId + 1 then 1 else 0),
      lost := i.lost.Plus(if id > i.packetId + 1 then id - i.packetId - 1 else 0),
      packetId := if id > i.packetId then id else i.packetId,
      datagrams := i.datagrams.Plus(if empty then 0 else 1),
      cntTransit := i.cntTransit + 1)
  }

  /** The interval values of reporter_transfer_protocol_server_udp. */
  function Count(i: Info): Info {
    i.(cntBytes := i.bytes.Delta(), cntOutofOrder := i.outOfOrder.Delta(),
       cntError := Clamp(i.lost.Delta() - i.outOfOrder.Delta()),
       cntDatagrams := i.packetId - i.datagrams.prev)
  }

  /** reporter_reset_transfer_stats_server_udp. */
  function Reset(i: Info): Info {
    i.(bytes := i.bytes.Roll(), lost := i.lost.Roll(), outOfOrder := i.outOfOrder.Roll(),
       datagrams := Shift(i.datagrams.current, i.packetId), cntTransit := 0)
  }

  /** The totals of the final report. */
  function Final(i: Info): Info {
    i.(cntBytes := i.bytes.current, cntOutofOrder := i.outOfOrder.current,
       cntError := Clamp(i.lost.current - i.outOfOrder.current), cntDatagrams := i.packetId)
  }

  /** What a member's report adds to its group sum. */
  function AddTo(sum: Info, i: Info): Info {
    sum.(bytes := sum.bytes.Plus(i.bytes.Delta()), lost := sum.lost.Plus(i.lost.Delta()),
         outOfOrder := sum.outOfOrder.Plus(i.outOfOrder.Delta()),
         datagrams := sum.datagrams.Plus(i.packetId - i.datagrams.prev))
  }

  /** reporter_transfer_protocol_sum_server_udp. */
  function SumInterval(s: Info): Info {
    Reset(s.(cntBytes := s.bytes.Delta(), cntOutofOrder := s.outOfOrder.Delta(),
             cntError := Clamp(s.lost.Delta() - s.outOfOrder.Delta()), cntDatagrams := s.datagrams.Delta(),
             packetId := s.datagrams.current))
  }

  function SumFinal(s: Info): Info {
    s.(cntBytes := s.bytes.current, cntOutofOrder := s.outOfOrder.current,
       cntError := Clamp(s.lost.current - s.outOfOrder.current), cntDatagrams := s.datagrams.current)
  }

  /** What a list of reports showed, added up. */
  datatype Sums = Sums(bytes: int, outOfOrder: int, datagrams: int, error: int)

  function Totalled(rs: seq<Info>): Sums {
    if rs == [] then Sums(0, 0, 0, 0)
    else var s, r := Totalled(rs[..|rs| - 1]), rs[|rs| - 1];
      Sums(s.bytes + r.cntBytes, s.outOfOrder + r.cntOutofOrder, s.datagrams + r.cntDatagrams, s.error + r.cntError)
  }

  class TransferInfo {
    var bytes: Shift
    var lost: Shift
    var outOfOrder: Shift
    var datagrams: Shift
    var packetId: int
    var cntTransit: int
    var cntBytes: int
    var cntError: int
    var cntOutofOrder: int
    var cntDatagrams: int

    ghost function View(): Info
      reads this
    { Info(bytes, lost, outOfOrder, datagrams, packetId, cntTransit, cntBytes, cntError, cntOutofOrder, cntDatagrams) }

    constructor ()
      ensures View() == ZERO
    {
      bytes, lost, outOfOrder, datagrams := Shift(0, 0), Shift(0, 0), Shift(0, 0), Shift(0, 0);
      packetId, cntTransit, cntBytes, cntError, cntOutofOrder, cntDatagrams := 0, 0, 0, 0, 0, 0;
    }

    method HandlePacket(id: int, len: int, empty: bool)
      modifies this
      ensures View() == Handle(old(View()), id, len, empty)
    {
      if empty && cntTransit == 0 {
      } else if id > 0 {
        bytes := bytes.(current := bytes.current + len);
        if id != packetId + 1 {
          if id < packetId + 1 {
            outOfOrder := outOfOrder.(current := outOfOrder.current + 1);
          } else {
            lost := lost.(current := lost.current + (id - packetId - 1));
          }
        }
        if id > packetId { packetId := id; }
        if !empty { datagrams := datagrams.(current := datagrams.current + 1); }
        cntTransit := cntTransit + 1;
      }
    }

    method ResetStats()
      modifies this
      ensures View() == Reset(old(View()))
    {
      bytes := bytes.(prev := bytes.current);
      datagrams := datagrams.(prev := packetId);
      outOfOrder := outOfOrder.(prev := outOfOrder.current);
      lost := lost.(prev := lost.current);
      cntTransit := 0;
    }

    /** The block that feeds the group sum. */
    method Feed(sum: TransferInfo)
      requires sum != this && cntBytes == bytes.Delta()
      modifies sum
      ensures sum.View() == AddTo(old(sum.View()), View())
    {
      sum.outOfOrder := sum.outOfOrder.(current := sum.outOfOrder.current + (outOfOrder.current - outOfOrder.prev));
      sum.lost := sum.lost.(current := sum.lost.current + (lost.current - lost.prev));
      sum.datagrams := sum.datagrams.(current := sum.datagrams.current + (packetId - datagrams.prev));
      sum.bytes := sum.bytes.(current := sum.bytes.current + cntBytes);
    }

    method CountInterval()
      modifies this
      ensures View() == Count(old(View()))
    {
      cntBytes := bytes.current - bytes.prev;
      cntOutofOrder := outOfOrder.current - outOfOrder.prev;
      cntError := lost.current - lost.prev - cntOutofOrder;
      if cntError < 0 { cntError := 0; }
      cntDatagrams := packetId - datagrams.prev;
    }

    method CountTotals()
      modifies this
      ensures View() == Final(old(View()))
    {
      cntOutofOrder := outOfOrder.current;
      cntError := lost.current;
      cntError := cntError - cntOutofOrder;
      if cntError < 0 { cntError := 0; }
      cntDatagrams := packetId;
      cntBytes := bytes.current;
    }

    /** reporter_transfer_protocol_server_udp with a group sum: the sum is fed before the
        counters roll over, and a final report does not roll them. */
    method Protocol(final: bool, sum: TransferInfo)
      requires sum != this
      modifies this, sum
      ensures sum.View() == AddTo(old(sum.View()), old(View()))
      ensures View() == if final then Final(old(View())) else Reset(Count(old(View())))
    {
      CountInterval();
      Feed(sum);
      if final { CountTotals(); } else { ResetStats(); }
    }

    method SumProtocol(final: bool)
      modifies this
      ensures View() == if final then SumFinal(old(View())) else SumInterval(old(View()))
    {
      if final {
        cntOutofOrder := outOfOrder.current;
        cntError := lost.current - cntOutofOrder;
        if cntError < 0 { cntError := 0; }
        cntDatagrams := datagrams.current;
        cntBytes := bytes.current;
      } else {
        cntOutofOrder := outOfOrder.current - outOfOrder.prev;
        cntError := lost.current - lost.prev - cntOutofOrder;
        if cntError < 0 { cntError := 0; }
        cntDatagrams := datagrams.current - datagrams.prev;
        cntBytes := bytes.current - bytes.prev;
        packetId := datagrams.current;
        ResetStats();
      }
    }
  }
}
