/** The UDP server's error count through the packet ring: the reports that RunUDP of
    jni/src/Server.cpp hands to the ring (jni/src/packet_ring.c), those that the reporter
    accounts (jni/src/Reporter.c), and the final count. */
module UdpReports {
  import opened WireId
  import opened TransferInfo
  import EndJob
  import opened UdpFlow

  /** The reports behind the accounted packets, the end marker left out. */
  function Picked(accounted: seq<EndJob.Packet>, reports: seq<Event>): seq<Event> {
    if accounted == [] then []
    else
      var n := accounted[|accounted| - 1].n;
      Picked(accounted[..|accounted| - 1], reports) + if n < |reports| then [reports[n]] else []
  }

  /** What the reporter does, with the interval reports left out. */
  function Reported(es: seq<Event>): seq<Event> {
    if es == [] then []
    else Reported(es[..|es| - 1]) + if es[|es| - 1].Interval? then [] else [es[|es| - 1]]
  }

  /** What the server hands to the ring: datagrams off the wire and read timeouts, the first
      final datagram last. */
  ghost predicate Served(reports: seq<Event>, last: int, fin: int, retries: nat) {
    && 0 <= last <= fin && fin >= 1
    && (forall k :: 0 <= k < |reports| ==> !reports[k].Interval?)
    && AllOnWire(reports, last, fin, retries) && StopsOnFin(reports)
  }

  ghost predicate IsFinal(e: Event) { e.Receive? && ReadPacketID(e.w, true).1 }

  /** Packets accounted in order stand for reports in order. */
  lemma {:induction false} PickedFrom(q: seq<EndJob.Packet>, reports: seq<Event>, sent: seq<EndJob.Packet>, k: nat) returns (i: nat)
    requires EndJob.InOrder(q, sent) && k < |Picked(q, reports)|
    ensures i < |q| && q[i].n < |reports| && Picked(q, reports)[k] == reports[q[i].n]
    ensures k < |Picked(q, reports)| - 1 ==> q[i].n < |reports| - 1
  {
    var m := |q| - 1;
    var pre := q[..m];
    PrefixInOrder(q, sent, m);
    if k < |Picked(pre, reports)| {
      i := PickedFrom(pre, reports, sent, k);
      if q[m].n < |reports| { assert q[i].n < q[m].n; }
    } else {
      i := m;
    }
  }

  lemma PrefixInOrder(q: seq<EndJob.Packet>, sent: seq<EndJob.Packet>, m: nat)
    requires EndJob.InOrder(q, sent) && m <= |q|
    ensures EndJob.InOrder(q[..m], sent)
  {
    assert q[..m] + q[m..] == q;
    EndJob.InOrderPrefix(q[..m], q[m..], sent);
  }

  lemma {:induction false} PickedAll(q: seq<EndJob.Packet>, reports: seq<Event>, m: nat)
    requires m <= |q| && m <= |reports| && forall i :: 0 <= i < m ==> q[i].n == i
    ensures Picked(q[..m], reports) == reports[..m]
  {
    if m > 0 {
      PickedAll(q, reports, m - 1);
      assert q[..m][..m - 1] == q[..m - 1] && reports[..m] == reports[..m - 1] + [reports[m - 1]];
    }
  }

  lemma {:induction false} ReportedFrom(es: seq<Event>, k: nat) returns (i: nat)
    requires k < |es| && !es[k].Interval?
    ensures i < |Reported(es)| && Reported(es)[i] == es[k] && (k < |es| - 1 && !es[|es| - 1].Interval? ==> i < |Reported(es)| - 1)
  {
    var m := |es| - 1;
    if k < m { i := ReportedFrom(es[..m], k); } else { i := |Reported(es)| - 1; }
  }

  /** Through the ring, for every interleaving: if the final datagram's report is accounted
      last, the final error count is max(0, missing - duplicates - stale) of the datagrams
      accounted; those are all that the server received if no enqueue overran the ring. */
  lemma AccountedEndToEnd(tr: seq<EndJob.State>, reports: seq<Event>, es: seq<Event>, last: int, fin: int, retries: nat)
    requires EndJob.Run(tr) && tr[|tr| - 1].traffic.Returned? && |tr[|tr| - 1].sent| == |reports| + 1
    requires Served(reports, last, fin, retries)
    requires es != [] && IsFinal(es[|es| - 1]) && Reported(es) == Picked(tr[|tr| - 1].accounted, reports)
    ensures var g, ids := IdOf(es[|es| - 1]), Ids(es);
      g > 0 && Final(FeedAll(START, es).info).cntError == Clamp(Missing(ids, g) - Duplicates(ids) - StaleOf(es))
    ensures tr[|tr| - 1].lost == 0 ==> Reported(es) == reports
  {
    var s := tr[|tr| - 1];
    EndJob.EndJobAccountsAll(tr);
    forall k | 0 <= k < |es| && es[k].Receive?
      ensures OnWire(es[k].w, last, fin, retries) && (k < |es| - 1 ==> !IsFinal(es[k]))
    {
      EventServed(s.accounted, s.sent, reports, es, last, fin, retries, k);
    }
    EndToEnd(es, last, fin, retries);
    if s.lost == 0 { AllPicked(s.accounted, s.sent, reports); }
  }

  lemma EventServed(q: seq<EndJob.Packet>, sent: seq<EndJob.Packet>, reports: seq<Event>, es: seq<Event>, last: int, fin: int, retries: nat, k: nat)
    requires EndJob.InOrder(q, sent) && Served(reports, last, fin, retries) && Reported(es) == Picked(q, reports)
    requires k < |es| && es[k].Receive? && es[|es| - 1].Receive?
    ensures OnWire(es[k].w, last, fin, retries) && (k < |es| - 1 ==> !IsFinal(es[k]))
  {
    var i := ReportedFrom(es, k);
    var j := PickedFrom(q, reports, sent, i);
    assert es[k] == reports[q[j].n];
  }

  lemma AllPicked(q: seq<EndJob.Packet>, sent: seq<EndJob.Packet>, reports: seq<Event>)
    requires EndJob.InOrder(q, sent) && q == sent && |sent| == |reports| + 1
    ensures Picked(q, reports) == reports
  {
    forall i | 0 <= i < |q| ensures q[i].n == i { EndJob.Climb(q, sent, i); }
    var m := |reports|;
    PickedAll(q, reports, m);
    assert reports[..m] == reports && q[m].n == m;
  }
}
