/** UDP loss accounting from the client's numbering to the server's reports (RunUDP,
    FinishTrafficActions and AwaitServerFinPacket in jni/src/Client.cpp, RunUDP in
    jni/src/Server.cpp, the server-side handlers in jni/src/Reporter.c). */
module UdpFlow {
  import opened WireId
  import opened TransferInfo

  // ---------- the client ----------

  datatype Write = Sent | NonFatal | Fatal

  /** Ids lo..hi-1 as datagrams. */
  function Numbered(lo: int, hi: int): seq<Words>
    requires 1 <= lo <= hi <= TWO63
    decreases hi - lo
  {
    if lo == hi then [] else [WritePacketID(lo)] + Numbered(lo + 1, hi)
  }

  lemma {:induction false} NumberedAppend(lo: int, hi: int)
    requires 1 <= lo <= hi < TWO63
    ensures Numbered(lo, hi + 1) == Numbered(lo, hi) + [WritePacketID(hi)]
    decreases hi - lo
  {
    if lo < hi {
      NumberedAppend(lo + 1, hi);
    } else {
      assert Numbered(hi + 1, hi + 1) == [];
    }
  }

  /** How often x occurs in s. */
  function Times<T(==)>(s: seq<T>, x: T): (n: nat) { multiset(s)[x] }

  lemma TimesMore<T>(s: seq<T>, k: nat, x: T)
    requires k < |s|
    ensures Times(s[..k + 1], x) == Times(s[..k], x) + (if s[k] == x then 1 else 0) && Times(s[..k], x) <= k
  {
    assert s[..k + 1] == s[..k] + [s[k]];
    AtMostLength(s[..k], x);
  }

  lemma AtMostLength<T>(s: seq<T>, x: T)
    ensures Times(s, x) <= |s|
  {
    if s != [] {
      assert s == s[..|s| - 1] + [s[|s| - 1]];
      AtMostLength(s[..|s| - 1], x);
    }
  }

  /** The send loop under any outcome of its writes: it ends with the first fatal one, and
      exactly the successful ones before that leave, numbered 1 to n without a hole. */
  method RunUDP(writes: seq<Write>) returns (wire: seq<Words>, packetID: int, fatal: bool, ghost upto: nat)
    requires |writes| + 2 < TWO63
    ensures upto <= |writes| && Fatal !in writes[..upto] && (if fatal then upto < |writes| && writes[upto] == Fatal else upto == |writes|)
    ensures packetID == Times(writes[..upto], Sent) + if fatal then 0 else 1
    ensures packetID <= |writes| + 1 && wire == Numbered(1, if fatal then packetID + 1 else packetID)
  {
    wire, packetID, fatal, upto := [], 1, false, 0;
    var i := 0;
    while i < |writes|
      invariant 0 <= i <= |writes| && packetID == Times(writes[..i], Sent) + 1 <= i + 1 && !fatal
      invariant wire == Numbered(1, packetID)
      invariant Fatal !in writes[..i]
    {
      var datagram := WritePacketID(packetID);
      var w := writes[i];
      TimesMore(writes, i, Sent);
      if w != Sent {
        packetID := packetID - 1;
        if w == Fatal {
          fatal, upto := true, i;
          return;
        }
      } else {
        NumberedAppend(1, packetID);
        wire := wire + [datagram];
      }
      packetID := packetID + 1;
      i := i + 1;
    }
    upto := i;
  }

  const RETRYCOUNT: nat := 200

  /** What the wait for the server's report meets: nothing in time, a stale header ack or an
      empty read, the report. */
  datatype Reply = Nothing | Stale | Report

  /** The waits that take place: up to the report, at most RETRYCOUNT. */
  predicate Waits(replies: seq<Reply>, waits: nat) {
    && waits <= RETRYCOUNT && waits <= |replies| && Report !in replies[..waits]
    && (waits == RETRYCOUNT || waits == |replies| || replies[waits] == Report)
  }

  /** The final datagram, and one more with the next id for each wait that brings nothing. */
  method Finish(packetID: int, replies: seq<Reply>) returns (fins: seq<Words>, ghost waits: nat)
    requires 0 <= packetID < TWO63 - RETRYCOUNT
    ensures Waits(replies, waits) && |fins| == 1 + Times(replies[..waits], Nothing) <= 1 + RETRYCOUNT
    ensures forall k :: 0 <= k < |fins| ==> fins[k] == WritePacketID(-packetID - k)
  {
    fins := [WritePacketID(-packetID)];
    var id, count, i := packetID, RETRYCOUNT, 0;
    while count > 0 && i < |replies|
      invariant 0 <= count <= RETRYCOUNT && 0 <= i <= |replies| && i == RETRYCOUNT - count
      invariant Report !in replies[..i]
      invariant id == packetID + |fins| - 1 && |fins| == 1 + Times(replies[..i], Nothing) <= 1 + i
      invariant forall k :: 0 <= k < |fins| ==> fins[k] == WritePacketID(-packetID - k)
    {
      var reply := replies[i];
      TimesMore(replies, i, Nothing);
      if reply == Nothing {
        id := id + 1;
        fins := fins + [WritePacketID(-id)];
      } else if reply == Report {
        break;
      }
      count, i := count - 1, i + 1;
    }
    waits := i;
  }

  /** What can be on the wire: data 1..last, and final datagrams -fin, -(fin + 1), ... up to
      `retries` of them. */
  ghost predicate OnWire(w: Words, last: int, fin: int, retries: nat) {
    (exists id :: 1 <= id <= last < TWO63 && w == WritePacketID(id))
    || (exists id :: -TWO63 < -fin - retries <= id <= -fin < 0 && w == WritePacketID(id))
  }

  lemma {:induction false} NumberedAt(lo: int, hi: int, k: nat)
    requires 1 <= lo <= hi <= TWO63 && k < hi - lo
    ensures |Numbered(lo, hi)| == hi - lo && Numbered(lo, hi)[k] == WritePacketID(lo + k)
    decreases hi - lo
  {
    if k > 0 { NumberedAt(lo + 1, hi, k - 1); }
    else if lo + 1 < hi { NumberedAt(lo + 1, hi, 0); }
  }

  /** A whole client run: everything it puts on the wire is data 1..last, each once and in
      order, or a final datagram with an id above them (the last one's own id after a fatal
      write error). If the first write is fatal, the final datagram has id 0 and only its
      repeats can end the server. */
  method RunClient(writes: seq<Write>, replies: seq<Reply>)
    returns (wire: seq<Words>, ghost last: int, ghost fin: int, ghost upto: nat, ghost waits: nat)
    requires |writes| + 2 < TWO63 - RETRYCOUNT
    ensures upto <= |writes| && Fatal !in writes[..upto] && (upto < |writes| ==> writes[upto] == Fatal)
    ensures last == Times(writes[..upto], Sent) && fin == if upto < |writes| then last else last + 1
    ensures Waits(replies, waits) && |wire| == last + 1 + Times(replies[..waits], Nothing)
    ensures 0 <= last <= |wire| && last < TWO63 - 1 && wire[..last] == Numbered(1, last + 1)
    ensures fin >= 1 ==> forall k :: 0 <= k < |wire| ==> OnWire(wire[k], last, fin, RETRYCOUNT)
    ensures fin == 0 ==> wire[0] == WritePacketID(0) && forall k :: 1 <= k < |wire| ==> OnWire(wire[k], 0, 1, RETRYCOUNT)
  {
    var data, packetID, fatal, fins;
    data, packetID, fatal, upto := RunUDP(writes);
    last := if fatal then packetID else packetID - 1;
    fin := packetID;
    fins, waits := Finish(packetID, replies);
    wire := data + fins;
    if last > 0 { NumberedAt(1, last + 1, 0); } else { assert data == []; }
    forall k | 0 <= k < |data| ensures OnWire(data[k], last, if fin >= 1 then fin else 1, RETRYCOUNT) {
      DataOnWire(last, k, if fin >= 1 then fin else 1);
    }
    forall k | 0 <= k < |fins| && packetID + k >= 1 ensures OnWire(fins[k], last, if fin >= 1 then fin else 1, RETRYCOUNT) {
      FinOnWire(last, packetID, k);
    }
  }

  lemma DataOnWire(last: int, k: nat, fin: int)
    requires k < last < TWO63
    ensures |Numbered(1, last + 1)| == last && OnWire(Numbered(1, last + 1)[k], last, fin, RETRYCOUNT)
  {
    NumberedAt(1, last + 1, k);
    assert Numbered(1, last + 1)[k] == WritePacketID(1 + k);
  }

  lemma FinOnWire(last: int, packetID: int, k: nat)
    requires 0 <= packetID < TWO63 - RETRYCOUNT - 1 && k <= RETRYCOUNT && packetID + k >= 1
    ensures OnWire(WritePacketID(-packetID - k), last, if packetID >= 1 then packetID else 1, RETRYCOUNT)
  {
    var id := -packetID - k;
    assert WritePacketID(id) == WritePacketID(-packetID - k);
  }

  // ---------- the server ----------

  /** What reaches the reporter for one flow: a datagram, a read timeout (an empty report
      that still carries the previous packet id), an interval report in between. */
  datatype Event = Receive(w: Words, len: nat) | Timeout | Interval

  function IdOf(e: Event): int
    requires e.Receive?
  { ReadPacketID(e.w, true).0 }

  /** The counters, the id in the report structure, the interval reports shown. */
  datatype Flow = Flow(info: Info, lastId: int, reports: seq<Info>)

  const START := Flow(ZERO, 0, [])

  function Feed(f: Flow, e: Event): Flow {
    match e
    case Receive(w, len) => f.(info := Handle(f.info, IdOf(e), len, false), lastId := IdOf(e))
    case Timeout => f.(info := Handle(f.info, f.lastId, 0, true))
    case Interval => f.(info := Reset(Count(f.info)), reports := f.reports + [Count(f.info)])
  }

  function FeedAll(f: Flow, es: seq<Event>): Flow {
    if es == [] then f else Feed(FeedAll(f, es[..|es| - 1]), es[|es| - 1])
  }

  // ---------- what the events say ----------

  predicate Arrival(e: Event) { e.Receive? && IdOf(e) > 0 }

  /** The packet ids that arrived, in order. */
  function Ids(es: seq<Event>): seq<int> {
    if es == [] then []
    else if Arrival(es[|es| - 1]) then Ids(es[..|es| - 1]) + [IdOf(es[|es| - 1])]
    else Ids(es[..|es| - 1])
  }

  /** The bytes of those datagrams. */
  function BytesOf(es: seq<Event>): int {
    if es == [] then 0
    else BytesOf(es[..|es| - 1]) + if Arrival(es[|es| - 1]) then es[|es| - 1].len else 0
  }

  function Max(ids: seq<int>): int {
    if ids == [] then 0
    else var m := Max(ids[..|ids| - 1]); if ids[|ids| - 1] > m then ids[|ids| - 1] else m
  }

  /** Arrivals that do not go beyond the highest earlier id. */
  function Late(ids: seq<int>): nat {
    if ids == [] then 0
    else Late(ids[..|ids| - 1]) + if ids[|ids| - 1] <= Max(ids[..|ids| - 1]) then 1 else 0
  }

  /** A datagram has arrived since the last interval report. */
  predicate Fresh(es: seq<Event>) {
    es != [] && match es[|es| - 1]
                case Receive(w, len) => IdOf(es[|es| - 1]) > 0 || Fresh(es[..|es| - 1])
                case Timeout => Fresh(es[..|es| - 1])
                case Interval => false
  }

  /** The id of the datagram received last. */
  function LastId(es: seq<Event>): int {
    if es == [] then 0 else if es[|es| - 1].Receive? then IdOf(es[|es| - 1]) else LastId(es[..|es| - 1])
  }

  /** Timeouts that are taken for a packet: in an interval that has seen a datagram, with the
      id of one. */
  function StaleOf(es: seq<Event>): nat {
    if es == [] then 0
    else
      var pre := es[..|es| - 1];
      StaleOf(pre) + if es[|es| - 1].Timeout? && Fresh(pre) && LastId(pre) > 0 then 1 else 0
  }

  lemma {:induction false} IdsPositive(es: seq<Event>)
    ensures forall k :: 0 <= k < |Ids(es)| ==> Ids(es)[k] > 0
  {
    if es != [] { IdsPositive(es[..|es| - 1]); }
  }

  lemma IdsAppend(ids: seq<int>, id: int)
    ensures Max(ids + [id]) == (if id > Max(ids) then id else Max(ids))
    ensures Late(ids + [id]) == Late(ids) + if id <= Max(ids) then 1 else 0
  {
    assert (ids + [id])[..|ids|] == ids;
  }

  lemma {:induction false} LastIdBelow(es: seq<Event>)
    ensures 0 <= LastId(es) <= Max(Ids(es))
  {
    if es != [] {
      var pre, e := es[..|es| - 1], es[|es| - 1];
      LastIdBelow(pre);
      if Arrival(e) { IdsAppend(Ids(pre), IdOf(e)); }
    }
  }

  /** What a sequence of events comes to: the highest id, the arrivals and their bytes, the
      late ones, the timeouts taken for packets. */
  datatype Seen = Seen(highest: int, arrivals: int, bytes: int, late: int, stale: int)

  function SeenIn(es: seq<Event>): Seen { Seen(Max(Ids(es)), |Ids(es)|, BytesOf(es), Late(Ids(es)), StaleOf(es)) }

  /** The counters are those of the events; the lost packets make up the highest id. */
  ghost predicate Counts(i: Info, n: Seen) {
    && i.packetId == n.highest && i.datagrams.current == n.arrivals && i.bytes.current == n.bytes
    && i.outOfOrder.current == n.late + n.stale
    && i.lost.current == n.highest - n.arrivals + n.late
  }

  ghost predicate Matches(f: Flow, es: seq<Event>) {
    && Counts(f.info, SeenIn(es))
    && f.lastId == LastId(es) && f.info.cntTransit >= 0 && (f.info.cntTransit > 0 <==> Fresh(es))
  }

  /** One event more. */
  lemma SeenNext(es: seq<Event>, e: Event)
    ensures var n, m := SeenIn(es), SeenIn(es + [e]);
      if Arrival(e) then
        m == Seen(if IdOf(e) > n.highest then IdOf(e) else n.highest, n.arrivals + 1, n.bytes + e.len,
                  n.late + (if IdOf(e) <= n.highest then 1 else 0), n.stale)
      else m == n.(stale := n.stale + if e.Timeout? && Fresh(es) && LastId(es) > 0 then 1 else 0)
  {
    assert (es + [e])[..|es|] == es;
    if Arrival(e) { IdsAppend(Ids(es), IdOf(e)); }
  }

  lemma FeedMatches(f: Flow, es: seq<Event>, e: Event, f': Flow, es': seq<Event>)
    requires Matches(f, es) && f' == Feed(f, e) && es' == es + [e]
    ensures Matches(f', es')
  {
    SeenNext(es, e);
    LastIdBelow(es);
    assert es'[..|es|] == es;
  }

  /** Over every run. */
  lemma {:induction false} RunInvariant(es: seq<Event>)
    ensures Matches(FeedAll(START, es), es)
  {
    if es != [] {
      var pre, e := es[..|es| - 1], es[|es| - 1];
      RunInvariant(pre);
      FeedMatches(FeedAll(START, pre), pre, e, FeedAll(START, es), es);
    }
  }

  // ---------- missing and duplicate ids ----------

  function Range(n: nat): set<int> { if n == 0 then {} else Range(n - 1) + {n} }

  lemma {:induction false} RangeHas(n: nat, i: int)
    ensures i in Range(n) <==> 1 <= i <= n
  {
    if n > 0 { RangeHas(n - 1, i); }
  }

  lemma {:induction false} RangeSize(n: nat)
    ensures |Range(n)| == n
  {
    if n > 0 {
      RangeSize(n - 1);
      RangeHas(n - 1, n);
    }
  }

  ghost function Distinct(ids: seq<int>): set<int> { set i | i in ids }

  /** The ids of 1..n that did not arrive. */
  ghost function Missing(ids: seq<int>, n: nat): nat { |Range(n) - Distinct(ids)| }

  /** Arrivals beyond the first of each id. */
  ghost function Duplicates(ids: seq<int>): int { |ids| - |Distinct(ids)| }

  lemma {:induction false} DistinctAtMost(ids: seq<int>)
    ensures |Distinct(ids)| <= |ids|
    ensures |Distinct(ids)| == |ids| <==> forall i, j :: 0 <= i < j < |ids| ==> ids[i] != ids[j]
  {
    if ids == [] {
      assert Distinct(ids) == {};
    } else {
      var n := |ids| - 1;
      var pre, x := ids[..n], ids[n];
      DistinctAtMost(pre);
      assert ids == pre + [x];
      assert Distinct(ids) == Distinct(pre) + {x};
      if x in pre {
        var k :| 0 <= k < n && pre[k] == x;
        assert Distinct(ids) == Distinct(pre) && ids[k] == ids[n];
      } else {
        assert forall k :: 0 <= k < n ==> ids[k] == pre[k];
      }
    }
  }

  lemma MissingCount(ids: seq<int>, n: nat)
    requires forall k :: 0 <= k < |ids| ==> 1 <= ids[k] <= n
    ensures n - |ids| == Missing(ids, n) - Duplicates(ids) && Duplicates(ids) >= 0
  {
    RangeSize(n);
    DistinctAtMost(ids);
    forall i | i in Distinct(ids) ensures i in Range(n) { RangeHas(n, i); }
    assert |Range(n) - Distinct(ids)| == |Range(n)| - |Distinct(ids)| by {
      assert Range(n) == (Range(n) - Distinct(ids)) + Distinct(ids);
    }
  }

  lemma {:induction false} MaxAbove(ids: seq<int>, k: nat)
    requires k < |ids|
    ensures ids[k] <= Max(ids)
  {
    if k < |ids| - 1 { MaxAbove(ids[..|ids| - 1], k); }
  }

  /** What a final report shows of the events. */
  ghost predicate ShowsFinal(r: Info, n: Seen) {
    && r.cntDatagrams == n.highest && r.cntBytes == n.bytes && r.cntOutofOrder == n.late + n.stale
    && r.cntError == Clamp(n.highest - n.arrivals - n.stale)
  }

  lemma FinalOf(i: Info, n: Seen)
    requires Counts(i, n)
    ensures ShowsFinal(Final(i), n)
  {
  }

  /** What the final report shows, for every sequence of events: the highest id, the bytes
      that arrived, the late arrivals and the timeouts taken for packets, and as errors what
      the arrivals and those timeouts leave of the highest id, cut off at zero. */
  lemma FinalReport(es: seq<Event>) returns (r: Info, n: Seen)
    ensures r == Final(FeedAll(START, es).info) && n == SeenIn(es) && ShowsFinal(r, n)
  {
    RunInvariant(es);
    r, n := Final(FeedAll(START, es).info), SeenIn(es);
    FinalOf(FeedAll(START, es).info, n);
  }

  lemma MissingUpTo(es: seq<Event>)
    ensures var ids := Ids(es);
      Max(ids) >= 0 && Max(ids) - |ids| == Missing(ids, Max(ids)) - Duplicates(ids) && Duplicates(ids) >= 0
  {
    var ids := Ids(es);
    IdsPositive(es);
    LastIdBelow(es);
    forall k | 0 <= k < |ids| ensures 1 <= ids[k] <= Max(ids) { MaxAbove(ids, k); }
    MissingCount(ids, Max(ids));
  }

  // ---------- end to end ----------

  /** The server loop: it stops on the first datagram that announces the end. */
  ghost predicate StopsOnFin(es: seq<Event>) {
    && es != [] && es[|es| - 1].Receive? && ReadPacketID(es[|es| - 1].w, true).1
    && forall k :: 0 <= k < |es| - 1 && es[k].Receive? ==> !ReadPacketID(es[k].w, true).1
  }

  lemma WireMeaning(w: Words, last: int, fin: int, retries: nat)
    requires OnWire(w, last, fin, retries)
    ensures var (id, end) := ReadPacketID(w, true);
      if end then fin <= id <= fin + retries else 1 <= id <= last
  {
    if id :| 1 <= id <= last < TWO63 && w == WritePacketID(id) {
      PacketIdRoundTrip(id);
    } else {
      var id :| -TWO63 < -fin - retries <= id <= -fin < 0 && w == WritePacketID(id);
      PacketIdRoundTrip(id);
    }
  }

  ghost predicate AllOnWire(es: seq<Event>, last: int, fin: int, retries: nat) {
    forall k :: 0 <= k < |es| && es[k].Receive? ==> OnWire(es[k].w, last, fin, retries)
  }

  lemma {:induction false} DataBelow(es: seq<Event>, last: int, fin: int, retries: nat)
    requires 0 <= last <= fin && fin >= 1 && AllOnWire(es, last, fin, retries)
    requires forall k :: 0 <= k < |es| && es[k].Receive? ==> !ReadPacketID(es[k].w, true).1
    ensures Max(Ids(es)) <= last
  {
    if es != [] {
      var pre, e := es[..|es| - 1], es[|es| - 1];
      DataBelow(pre, last, fin, retries);
      if e.Receive? {
        WireMeaning(e.w, last, fin, retries);
        IdsAppend(Ids(pre), IdOf(e));
        assert Ids(es) == Ids(pre) + [IdOf(e)];
      }
    }
  }

  /** The first final datagram to arrive has the highest id. */
  lemma FinIsHighest(es: seq<Event>, last: int, fin: int, retries: nat)
    requires 0 <= last <= fin && fin >= 1 && AllOnWire(es, last, fin, retries) && StopsOnFin(es)
    ensures Max(Ids(es)) == IdOf(es[|es| - 1]) >= fin
  {
    var pre, e := es[..|es| - 1], es[|es| - 1];
    DataBelow(pre, last, fin, retries);
    WireMeaning(e.w, last, fin, retries);
    IdsAppend(Ids(pre), IdOf(e));
  }

  /** End to end, for every pattern of loss, reordering and duplication, every placing of
      read timeouts and interval reports, and whichever of the final datagrams is the first
      to arrive: if that one has id G, the final report counts max(0, missing - duplicates
      - stale) errors, where `missing` are the ids of 1..G that did not arrive. */
  lemma EndToEnd(es: seq<Event>, last: int, fin: int, retries: nat)
    requires 0 <= last <= fin && fin >= 1 && AllOnWire(es, last, fin, retries) && StopsOnFin(es)
    ensures var g, ids, r := IdOf(es[|es| - 1]), Ids(es), Final(FeedAll(START, es).info);
      && r.cntDatagrams == g >= fin && Duplicates(ids) >= 0
      && r.cntError == Clamp(Missing(ids, g) - Duplicates(ids) - StaleOf(es))
      && (r.cntError == Missing(ids, g) <==> Missing(ids, g) == 0 || Duplicates(ids) + StaleOf(es) == 0)
  {
    FinIsHighest(es, last, fin, retries);
    var r, n := FinalReport(es);
    MissingUpTo(es);
    HiddenErrors(Missing(Ids(es), IdOf(es[|es| - 1])), Duplicates(Ids(es)) + StaleOf(es));
  }

  lemma HiddenErrors(missing: nat, hidden: nat)
    ensures Clamp(missing - hidden) == missing <==> missing == 0 || hidden == 0
  {
  }

  /** A final datagram with id 0 neither ends the server nor touches its counters. */
  lemma ZeroIgnored(f: Flow, len: nat)
    ensures ReadPacketID(WritePacketID(0), true) == (0, false)
    ensures Feed(f, Receive(WritePacketID(0), len)).info == f.info
  {
    PacketIdRoundTrip(0);
  }

  /** Datagram 1, a read timeout, then the final datagram 3. */
  function HiddenLoss(): seq<Event> { [Receive(WritePacketID(1), 1470), Timeout, Receive(WritePacketID(-3), 1470)] }

  lemma HiddenLossEvents()
    ensures Ids(HiddenLoss()) == [1, 3] && StaleOf(HiddenLoss()) == 1
  {
    PacketIdRoundTrip(1);
    PacketIdRoundTrip(-3);
    var es := HiddenLoss();
    assert es[..2] == [es[0], es[1]] && es[..2][..1] == [es[0]] && es[..2][..1][..0] == [];
    assert Ids(es[..2][..1]) == [1] && Fresh(es[..2][..1]) && LastId(es[..2][..1]) == 1;
    assert es[..2][1] == Timeout && StaleOf(es[..2][..1]) == 0;
    assert Ids(es[..2]) == [1] && StaleOf(es[..2]) == 1;
  }

  /** Datagram 2 is missing, and the report shows no error: the timeout hid it. */
  lemma StaleHidesLoss()
    ensures Missing(Ids(HiddenLoss()), 3) == 1 && Final(FeedAll(START, HiddenLoss()).info).cntError == 0
  {
    HiddenLossEvents();
    var r, n := FinalReport(HiddenLoss());
    var ids := [1, 3];
    assert ids[..1] == [1] && ids[..1][..0] == [] && Max(ids[..1]) == 1 && Max(ids) == 3;
    MissingCount(ids, 3);
    DistinctAtMost(ids);
  }

  // ---------- interval reports ----------

  /** The events up to and with the last interval report. */
  function Before(es: seq<Event>): (pre: seq<Event>)
    ensures pre <= es
  {
    if es == [] || es[|es| - 1].Interval? then es else Before(es[..|es| - 1])
  }

  /** The counters at the last roll-over are those of the events before it. */
  ghost predicate RolledAt(i: Info, n: Seen) {
    && i.bytes.prev == n.bytes && i.datagrams.prev == n.highest
    && i.outOfOrder.prev == n.late + n.stale && i.lost.prev == n.highest - n.arrivals + n.late
  }

  lemma {:induction false} Rolled(es: seq<Event>)
    ensures RolledAt(FeedAll(START, es).info, SeenIn(Before(es)))
  {
    if es != [] {
      var pre, e := es[..|es| - 1], es[|es| - 1];
      Rolled(pre);
      if e.Interval? {
        RunInvariant(pre);
        SeenNext(pre, e);
        assert es == pre + [e];
      }
    }
  }

  /** What an interval report shows of the events since the one before. */
  ghost predicate ShowsInterval(r: Info, now: Seen, was: Seen) {
    && r.cntDatagrams == now.highest - was.highest && r.cntBytes == now.bytes - was.bytes
    && r.cntOutofOrder == now.late - was.late + (now.stale - was.stale)
    && r.cntError == Clamp(r.cntDatagrams - (now.arrivals - was.arrivals) - (now.stale - was.stale))
  }

  lemma CountOf(i: Info, now: Seen, was: Seen)
    requires Counts(i, now) && RolledAt(i, was)
    ensures ShowsInterval(Count(i), now, was)
  {
  }

  /** What an interval report shows, in every run: the rise of the highest id, the bytes, the
      late arrivals and stale timeouts since the report before, and as errors the rise less
      the arrivals and stale timeouts since then, cut off at zero. */
  lemma IntervalReport(es: seq<Event>) returns (r: Info, now: Seen, was: Seen)
    ensures r == Count(FeedAll(START, es).info) && now == SeenIn(es) && was == SeenIn(Before(es))
    ensures ShowsInterval(r, now, was)
  {
    RunInvariant(es);
    Rolled(es);
    r, now, was := Count(FeedAll(START, es).info), SeenIn(es), SeenIn(Before(es));
    CountOf(FeedAll(START, es).info, now, was);
  }

  /** Every report that a run shows is that of the events before one of its interval
      reports. */
  lemma {:induction false} EveryReport(es: seq<Event>, k: nat) returns (j: nat)
    requires k < |FeedAll(START, es).reports|
    ensures j < |es| && es[j].Interval? && FeedAll(START, es).reports[k] == Count(FeedAll(START, es[..j]).info)
  {
    var n := |es| - 1;
    var pre := es[..n];
    if k < |FeedAll(START, pre).reports| {
      j := EveryReport(pre, k);
      assert pre[..j] == es[..j];
    } else {
      j := n;
    }
  }

  /** What the reports showed adds up to the counters at the last roll-over. */
  ghost predicate Told(i: Info, s: Sums) {
    && s.bytes == i.bytes.prev && s.outOfOrder == i.outOfOrder.prev && s.datagrams == i.datagrams.prev
    && s.error >= 0 && s.error >= i.lost.prev - i.outOfOrder.prev
  }

  lemma TellMore(i: Info, rs: seq<Info>)
    requires Told(i, Totalled(rs))
    ensures Told(Reset(Count(i)), Totalled(rs + [Count(i)]))
  {
    assert (rs + [Count(i)])[..|rs|] == rs;
  }

  lemma {:induction false} Telescope(es: seq<Event>)
    ensures Told(FeedAll(START, es).info, Totalled(FeedAll(START, es).reports))
  {
    if es != [] {
      Telescope(es[..|es| - 1]);
      var f := FeedAll(START, es[..|es| - 1]);
      if es[|es| - 1].Interval? { TellMore(f.info, f.reports); }
    }
  }

  /** The interval reports and the last partial one add up to the final totals; their error
      counts, each cut off at zero, add up to at least the final error count. */
  lemma IntervalsAddUp(es: seq<Event>)
    ensures var f := FeedAll(START, es);
      var s, part, whole := Totalled(f.reports), Count(f.info), Final(f.info);
      && s.bytes + part.cntBytes == whole.cntBytes
      && s.outOfOrder + part.cntOutofOrder == whole.cntOutofOrder
      && s.datagrams + part.cntDatagrams == whole.cntDatagrams
      && s.error + part.cntError >= whole.cntError
  {
    Telescope(es);
  }
}
