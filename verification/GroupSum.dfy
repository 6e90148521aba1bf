/** Group sums in time-interval mode (jni/src/Reporter.c, jni/src/Reports.c): every
    interleaving of joining threads, packets, interval reports and final reports. */
module GroupSum {
  import opened TransferInfo

  datatype Tally = Tally(bytes: int, lost: int, outOfOrder: int, datagrams: int) {
    function Plus(t: Tally): Tally {
      Tally(bytes + t.bytes, lost + t.lost, outOfOrder + t.outOfOrder, datagrams + t.datagrams)
    }
  }

  const NOTHING := Tally(0, 0, 0, 0)

  /** A member's counters; what its events say beside them: a datagram has arrived since its
      last interval report, the packets handled so far and up to that report (datagrams, and
      read timeouts taken for packets). */
  datatype Member = Member(info: Info, live: bool, arrived: bool, handled: int, rolled: int)

  const NEW := Member(ZERO, true, false, 0, 0)

  function Take(m: Member, id: int, len: nat, empty: bool): Member {
    Member(Handle(m.info, id, len, empty), true, m.arrived || (id > 0 && !empty),
           m.handled + (if id > 0 && (!empty || m.arrived) then 1 else 0), m.rolled)
  }

  function Roll(m: Member): Member { Member(Reset(Count(m.info)), true, false, m.handled, m.handled) }

  function End(m: Member): Member { m.(info := Final(m.info), live := false) }

  /** A member's totals; its datagram total is its final packet id. */
  function Totals(i: Info): Tally { Tally(i.bytes.current, i.lost.current, i.outOfOrder.current, i.packetId) }

  /** What had been reported at the last roll-over. */
  function Rolled(i: Info): Tally { Tally(i.bytes.prev, i.lost.prev, i.outOfOrder.prev, i.datagrams.prev) }

  function Reported(m: Member): Tally { if m.live then Rolled(m.info) else Totals(m.info) }

  function SumTally(s: Info): Tally { Tally(s.bytes.current, s.lost.current, s.outOfOrder.current, s.datagrams.current) }

  /** Sum over the members of what has been reported. */
  function AllReported(ms: seq<Member>): Tally {
    if ms == [] then NOTHING else AllReported(ms[..|ms| - 1]).Plus(Reported(ms[|ms| - 1]))
  }

  function AllTotals(ms: seq<Member>): Tally {
    if ms == [] then NOTHING else AllTotals(ms[..|ms| - 1]).Plus(Totals(ms[|ms| - 1].info))
  }

  /** Packets handled and reported, and all packets handled. */
  function PacketsReported(ms: seq<Member>): int {
    if ms == [] then 0
    else PacketsReported(ms[..|ms| - 1]) + if ms[|ms| - 1].live then ms[|ms| - 1].rolled else ms[|ms| - 1].handled
  }

  function Weight(m: Member): nat { if m.live then 1 else 0 }

  function LiveCount(ms: seq<Member>): nat {
    if ms == [] then 0 else LiveCount(ms[..|ms| - 1]) + Weight(ms[|ms| - 1])
  }

  /** The group: members ever joined, the SumReport with its reference count and its count
      of member reports since the last interval sum; `reports` are the interval sums, `before`
      the members at the last of them, `closed` after the final one. */
  datatype Group = Group(
    members: seq<Member>, sum: Info, refcount: int, threads: int, reports: seq<Info>, before: seq<Member>, closed: bool)

  const INIT := Group([], ZERO, 0, 0, [], [], false)

  datatype Event =
    | Join
    | Packet(k: nat, id: int, len: nat, empty: bool)
    | Interval(k: nat)
    | Finish(k: nat)

  predicate Enabled(g: Group, e: Event) {
    !g.closed && (e.Join? || (e.k < |g.members| && g.members[e.k].live))
  }

  function Put(g: Group, k: nat, m: Member): Group
    requires k < |g.members|
  { g.(members := g.members[k := m]) }

  /** reporter_condprint_time_interval_report and the final branch of
      reporter_process_transfer_report, for one event. */
  function Step(g: Group, e: Event): Group
    requires Enabled(g, e)
  {
    match e
    case Join => g.(members := g.members + [NEW], refcount := g.refcount + 1)
    case Packet(k, id, len, empty) => Put(g, k, Take(g.members[k], id, len, empty))
    case Interval(k) => CountReport(Put(g, k, Roll(g.members[k])).(sum := AddTo(g.sum, g.members[k].info)))
    case Finish(k) => Leave(Put(g, k, End(g.members[k])).(sum := AddTo(g.sum, g.members[k].info)))
  }

  /** ++threads, and the interval sum when that makes it the reference count. */
  function CountReport(g: Group): Group {
    if g.threads + 1 == g.refcount then
      g.(threads := 0, sum := SumInterval(g.sum), reports := g.reports + [SumInterval(g.sum)], before := g.members)
    else g.(threads := g.threads + 1)
  }

  /** --refcount, and the final sum when that makes it zero. */
  function Leave(g: Group): Group {
    if g.refcount - 1 == 0 then g.(refcount := 0, sum := SumFinal(g.sum), closed := true)
    else g.(refcount := g.refcount - 1)
  }

  ghost predicate Runs(g: Group, es: seq<Event>, h: Group)
    decreases |es|
  {
    if es == [] then g == h else Enabled(g, es[0]) && Runs(Step(g, es[0]), es[1..], h)
  }

  // ---------- conservation ----------

  ghost predicate Inv(g: Group) {
    && SumTally(g.sum) == AllReported(g.members)
    && g.refcount == LiveCount(g.members)
    && (g.closed <==> g.members != [] && g.refcount == 0) && (g.closed ==> g.sum == SumFinal(g.sum))
    && Telescoped(g.sum, g.reports)
    && AllMemberOk(g.members) && AllMemberOk(g.before)
    && Rolled(g.sum) == AllReported(g.before)
  }

  /** The packets handled are the highest id less the lost and with the out-of-order ones, in
      all and at the last interval report. */
  ghost predicate MemberOk(m: Member) {
    && m.info.cntTransit >= 0 && (m.arrived <==> m.info.cntTransit > 0)
    && m.info.packetId - m.handled == m.info.lost.current - m.info.outOfOrder.current
    && m.info.datagrams.prev - m.rolled == m.info.lost.prev - m.info.outOfOrder.prev
  }

  ghost predicate AllMemberOk(ms: seq<Member>) { forall k :: 0 <= k < |ms| ==> MemberOk(ms[k]) }

  lemma MembersStayOk(m: Member, id: int, len: nat, empty: bool)
    requires MemberOk(m)
    ensures MemberOk(Take(m, id, len, empty)) && MemberOk(Roll(m)) && MemberOk(End(m)) && MemberOk(NEW)
  {
  }

  /** Of what was reported: lost less out of order is the ids less the packets. */
  lemma {:induction false} ReportedPackets(ms: seq<Member>)
    requires AllMemberOk(ms)
    ensures AllReported(ms).lost - AllReported(ms).outOfOrder == AllReported(ms).datagrams - PacketsReported(ms)
  {
    if ms != [] {
      assert MemberOk(ms[|ms| - 1]);
      ReportedPackets(ms[..|ms| - 1]);
    }
  }

  /** The interval sums shown add up to the sum's counters at their last roll-over. */
  ghost predicate Telescoped(sum: Info, reports: seq<Info>) {
    var s := Totalled(reports);
    && s.bytes == sum.bytes.prev && s.outOfOrder == sum.outOfOrder.prev && s.datagrams == sum.datagrams.prev
    && s.error >= 0 && s.error >= sum.lost.prev - sum.outOfOrder.prev
  }

  /** What a report of a member adds: its totals less what it had reported. */
  function Share(i: Info): Tally {
    Tally(i.bytes.Delta(), i.lost.Delta(), i.outOfOrder.Delta(), i.packetId - i.datagrams.prev)
  }

  lemma AddTallies(s: Info, i: Info)
    ensures SumTally(AddTo(s, i)) == SumTally(s).Plus(Share(i)) && Rolled(i).Plus(Share(i)) == Totals(i)
  {
  }

  lemma SumKeeps(s: Info)
    ensures SumTally(SumInterval(s)) == SumTally(s) && SumTally(SumFinal(s)) == SumTally(s) && SumFinal(SumFinal(s)) == SumFinal(s)
  {
  }

  lemma {:induction false} UpdateMember(ms: seq<Member>, k: nat, m: Member)
    requires k < |ms|
    ensures AllReported(ms[k := m]).Plus(Reported(ms[k])) == AllReported(ms).Plus(Reported(m))
    ensures LiveCount(ms[k := m]) + Weight(ms[k]) == LiveCount(ms) + Weight(m)
    decreases |ms|
  {
    var n := |ms| - 1;
    var us := ms[k := m];
    if k == n {
      assert us[..n] == ms[..n];
    } else {
      assert us[..n] == ms[..n][k := m] && ms[..n][k] == ms[k];
      UpdateMember(ms[..n], k, m);
    }
  }

  lemma AddMember(ms: seq<Member>, m: Member)
    requires m.live && Rolled(m.info) == NOTHING
    ensures AllReported(ms + [m]) == AllReported(ms) && LiveCount(ms + [m]) == LiveCount(ms) + 1
  {
    assert (ms + [m])[..|ms|] == ms;
  }

  lemma JoinInv(g: Group, ms: seq<Member>)
    requires Inv(g) && !g.closed && AllReported(ms) == AllReported(g.members) && LiveCount(ms) == LiveCount(g.members) + 1
    requires AllMemberOk(ms) && ms != []
    ensures Inv(g.(members := ms, refcount := g.refcount + 1))
  {
  }

  lemma PacketInv(g: Group, k: nat, m: Member)
    requires Inv(g) && !g.closed && k < |g.members| && g.members[k].live && m.live && Rolled(m.info) == Rolled(g.members[k].info)
    requires MemberOk(m)
    ensures Inv(Put(g, k, m))
  {
    UpdateMember(g.members, k, m);
  }

  lemma TelescopeMore(sum: Info, reports: seq<Info>)
    requires Telescoped(sum, reports)
    ensures Telescoped(SumInterval(sum), reports + [SumInterval(sum)])
    ensures Rolled(SumInterval(sum)) == SumTally(sum)
  {
    assert (reports + [SumInterval(sum)])[..|reports|] == reports;
  }

  /** A member's report moves its share into the sum. */
  lemma ReportInv(g: Group, k: nat, m: Member)
    requires Inv(g) && !g.closed && k < |g.members| && g.members[k].live && Reported(m) == Totals(g.members[k].info)
    requires MemberOk(m)
    ensures var h := Put(g, k, m).(sum := AddTo(g.sum, g.members[k].info));
      && SumTally(h.sum) == AllReported(h.members) && LiveCount(h.members) + 1 == LiveCount(g.members) + Weight(m)
      && Telescoped(h.sum, h.reports) && AllMemberOk(h.members) && Rolled(h.sum) == Rolled(g.sum) && h.members != []
  {
    UpdateMember(g.members, k, m);
    AddTallies(g.sum, g.members[k].info);
  }

  lemma IntervalInv(g: Group, k: nat)
    requires Inv(g) && Enabled(g, Interval(k))
    ensures Inv(Step(g, Interval(k)))
  {
    var m := Roll(g.members[k]);
    MembersStayOk(g.members[k], 0, 0, false);
    ReportInv(g, k, m);
    var h := Put(g, k, m).(sum := AddTo(g.sum, g.members[k].info));
    CountInv(h);
  }

  /** A group in the middle of a report, with its live members still to count. */
  ghost predicate Between(h: Group) {
    && SumTally(h.sum) == AllReported(h.members) && h.members != [] && !h.closed
    && Telescoped(h.sum, h.reports)
    && AllMemberOk(h.members) && AllMemberOk(h.before) && Rolled(h.sum) == AllReported(h.before)
  }

  lemma CountInv(h: Group)
    requires Between(h) && h.refcount == LiveCount(h.members) > 0
    ensures Inv(CountReport(h))
  {
    SumKeeps(h.sum);
    TelescopeMore(h.sum, h.reports);
  }

  lemma LeaveInv(h: Group)
    requires Between(h) && h.refcount == LiveCount(h.members) + 1
    ensures Inv(Leave(h))
  {
    SumKeeps(h.sum);
  }

  lemma FinishInv(g: Group, k: nat)
    requires Inv(g) && Enabled(g, Finish(k))
    ensures Inv(Step(g, Finish(k)))
  {
    var m := End(g.members[k]);
    MembersStayOk(g.members[k], 0, 0, false);
    ReportInv(g, k, m);
    LeaveInv(Put(g, k, m).(sum := AddTo(g.sum, g.members[k].info)));
  }

  lemma StepInv(g: Group, e: Event)
    requires Inv(g) && Enabled(g, e)
    ensures Inv(Step(g, e))
  {
    match e {
      case Join =>
        AddMember(g.members, NEW);
        JoinInv(g, g.members + [NEW]);
      case Packet(k, id, len, empty) =>
        MembersStayOk(g.members[k], id, len, empty);
        PacketInv(g, k, Take(g.members[k], id, len, empty));
      case Interval(k) => IntervalInv(g, k);
      case Finish(k) => FinishInv(g, k);
    }
  }

  lemma {:induction false} RunsInv(g: Group, es: seq<Event>, h: Group)
    requires Inv(g) && Runs(g, es, h)
    ensures Inv(h)
    decreases |es|
  {
    if es != [] {
      StepInv(g, es[0]);
      RunsInv(Step(g, es[0]), es[1..], h);
    }
  }

  lemma {:induction false} NoneLive(ms: seq<Member>)
    requires LiveCount(ms) == 0
    ensures AllReported(ms) == AllTotals(ms)
    ensures forall k :: 0 <= k < |ms| ==> !ms[k].live
  {
    if ms != [] { NoneLive(ms[..|ms| - 1]); }
  }

  /** Whenever the group closes, in whatever order its members joined, sent and ended: each
      has had its final report, and the final sum report shows exactly the sums of the
      members' totals, with an error count of the lost minus the out-of-order packets. */
  lemma SumConserves(es: seq<Event>, g: Group)
    requires Runs(INIT, es, g) && g.closed
    ensures forall k :: 0 <= k < |g.members| ==> !g.members[k].live
    ensures var t := AllTotals(g.members);
      && SumTally(g.sum) == t
      && g.sum.cntBytes == t.bytes && g.sum.cntOutofOrder == t.outOfOrder && g.sum.cntDatagrams == t.datagrams
      && g.sum.cntError == Clamp(t.lost - t.outOfOrder) == Clamp(t.datagrams - PacketsReported(g.members))
  {
    RunsInv(INIT, es, g);
    NoneLive(g.members);
    ReportedPackets(g.members);
  }

  /** The group closes when its last member has ended, and not before. */
  lemma ClosesIff(es: seq<Event>, g: Group)
    requires Runs(INIT, es, g)
    ensures g.closed <==> g.members != [] && LiveCount(g.members) == 0
  {
    RunsInv(INIT, es, g);
  }

  /** Before that, the sum holds what the live members had reported at their last interval
      and the totals of those that ended: nothing twice, nothing dropped. */
  lemma SumInFlight(es: seq<Event>, g: Group)
    requires Runs(INIT, es, g)
    ensures SumTally(g.sum) == AllReported(g.members) && g.refcount == LiveCount(g.members)
  {
    RunsInv(INIT, es, g);
  }

  // ---------- interval sums ----------

  /** The interval sums and what came in after the last of them add up to the final sum; the
      error counts, each cut off at zero, to at least the final one. */
  lemma IntervalSumsAddUp(es: seq<Event>, g: Group)
    requires Runs(INIT, es, g) && g.closed
    ensures AddsUp(Totalled(g.reports), g.sum)
  {
    RunsInv(INIT, es, g);
    FinalAddsUp(g.sum, g.reports);
  }

  ghost predicate AddsUp(shown: Sums, sum: Info) {
    && shown.bytes + sum.bytes.Delta() == sum.cntBytes
    && shown.outOfOrder + sum.outOfOrder.Delta() == sum.cntOutofOrder
    && shown.datagrams + sum.datagrams.Delta() == sum.cntDatagrams
    && shown.error + Clamp(sum.lost.Delta() - sum.outOfOrder.Delta()) >= sum.cntError
  }

  lemma FinalAddsUp(sum: Info, reports: seq<Info>)
    requires Telescoped(sum, reports) && sum == SumFinal(sum)
    ensures AddsUp(Totalled(reports), sum)
  {
  }

  /** Interval reports of members since the last interval sum, n before the events es. */
  ghost function SinceSum(g: Group, es: seq<Event>, n: nat): nat
    decreases |es|
  {
    if es == [] || !Enabled(g, es[0]) then n
    else
      var h := Step(g, es[0]);
      SinceSum(h, es[1..], if h.reports != g.reports then 0 else if es[0].Interval? then n + 1 else n)
  }

  lemma {:induction false} ThreadsCount(g: Group, es: seq<Event>, h: Group)
    requires Runs(g, es, h) && g.threads >= 0
    ensures h.threads == SinceSum(g, es, g.threads)
    decreases |es|
  {
    if es != [] {
      FiresStep(g, es[0]);
      ThreadsCount(Step(g, es[0]), es[1..], h);
    }
  }

  /** What an interval sum shows of the members' reports since the one before: their bytes,
      out-of-order packets and ids, and as errors the ids less the packets handled, cut off at
      zero. */
  ghost predicate ShowsSum(r: Info, now: seq<Member>, was: seq<Member>) {
    var t, u := AllReported(now), AllReported(was);
    && r.cntBytes == t.bytes - u.bytes && r.cntOutofOrder == t.outOfOrder - u.outOfOrder
    && r.cntDatagrams == t.datagrams - u.datagrams
    && r.cntError == Clamp(r.cntDatagrams - (PacketsReported(now) - PacketsReported(was)))
  }

  lemma SumShows(h: Group)
    requires Between(h)
    ensures ShowsSum(SumInterval(h.sum), h.members, h.before)
  {
    ReportedPackets(h.members);
    ReportedPackets(h.before);
  }

  /** In every run, each interval sum shows that, from the members at the interval sum before
      to those at its own. */
  lemma IntervalSumExact(es: seq<Event>, g: Group, k: nat) returns (h: Group)
    requires Runs(INIT, es, g) && Enabled(g, Interval(k)) && g.threads + 1 == g.refcount
    ensures h == Step(g, Interval(k)) && h.before == h.members && |h.reports| == |g.reports| + 1
    ensures ShowsSum(h.reports[|g.reports|], h.members, g.before)
  {
    RunsInv(INIT, es, g);
    var m := Roll(g.members[k]);
    MembersStayOk(g.members[k], 0, 0, false);
    ReportInv(g, k, m);
    SumShows(Put(g, k, m).(sum := AddTo(g.sum, g.members[k].info)));
    h := Step(g, Interval(k));
  }

  /** In every run, a step shows an interval sum if and only if it is a member's interval
      report and the interval reports since the last sum, with this one, are as many as there
      are members left. */
  lemma FiresIff(es: seq<Event>, g: Group, e: Event)
    requires Runs(INIT, es, g) && Enabled(g, e)
    ensures Step(g, e).reports != g.reports <==> e.Interval? && SinceSum(INIT, es, 0) + 1 == LiveCount(g.members)
    ensures Step(g, e).reports != g.reports ==> |Step(g, e).reports| == |g.reports| + 1
  {
    RunsInv(INIT, es, g);
    ThreadsCount(INIT, es, g);
    FiresStep(g, e);
  }

  lemma FiresStep(g: Group, e: Event)
    requires Enabled(g, e)
    ensures Step(g, e).reports != g.reports <==> e.Interval? && g.threads + 1 == g.refcount
    ensures Step(g, e).reports != g.reports ==> |Step(g, e).reports| == |g.reports| + 1 && Step(g, e).threads == 0
  {
    if e.Interval? && g.threads + 1 == g.refcount { assert |Step(g, e).reports| == |g.reports| + 1; }
  }

  /** As long as fewer have reported than are left, interval sums go on without anybody
      joining. */
  lemma {:induction false} CanFire(g: Group, k: nat) returns (es: seq<Event>, h: Group)
    requires !g.closed && k < |g.members| && g.members[k].live && g.threads < g.refcount
    ensures Runs(g, es, h) && Join !in es && |h.reports| == |g.reports| + 1
    decreases g.refcount - g.threads
  {
    var m := Step(g, Interval(k));
    FiresStep(g, Interval(k));
    if g.threads + 1 == g.refcount {
      es, h := [Interval(k)], m;
      assert es[1..] == [];
    } else {
      var rest;
      rest, h := CanFire(m, k);
      es := [Interval(k)] + rest;
      assert es[1..] == rest;
    }
  }

  /** Once as many have reported as are left, because some reported and then ended, no
      interval sum is shown until somebody joins. */
  lemma {:induction false} SilentUntilJoin(g: Group, es: seq<Event>, h: Group)
    requires g.threads >= g.refcount && Runs(g, es, h) && Join !in es
    ensures h.reports == g.reports && h.threads >= h.refcount
    decreases |es|
  {
    if es != [] {
      assert es[0] in es && forall e :: e in es[1..] ==> e in es;
      SilentUntilJoin(Step(g, es[0]), es[1..], h);
    }
  }

  lemma {:induction false} RunsThen(g: Group, es: seq<Event>, h: Group, e: Event)
    requires Runs(g, es, h) && Enabled(h, e)
    ensures Runs(g, es + [e], Step(h, e))
    decreases |es|
  {
    if es == [] {
      assert ([] + [e])[1..] == [];
    } else {
      RunsThen(Step(g, es[0]), es[1..], h, e);
      assert (es + [e])[1..] == es[1..] + [e];
    }
  }

  lemma TwoJoin() returns (es: seq<Event>, g: Group)
    ensures es == [] + [Join] + [Join] && Runs(INIT, es, g)
    ensures g.refcount == 2 && g.threads == 0 && Enabled(g, Interval(0))
  {
    var one := Step(INIT, Join);
    RunsThen(INIT, [], INIT, Join);
    RunsThen(INIT, [] + [Join], one, Join);
    es, g := [] + [Join] + [Join], Step(one, Join);
  }

  lemma ReportAndEnd(es: seq<Event>, g: Group) returns (h: Group)
    requires Runs(INIT, es, g) && g.refcount == 2 && g.threads == 0 && Enabled(g, Interval(0))
    ensures Runs(INIT, es + [Interval(0)] + [Finish(0)], h) && h.threads == h.refcount == 1 && !h.closed
  {
    var m := Step(g, Interval(0));
    RunsThen(INIT, es, g, Interval(0));
    RunsThen(INIT, es + [Interval(0)], m, Finish(0));
    h := Step(m, Finish(0));
  }

  /** That happens: of two members one reports its interval and ends, and the other goes on
      alone. */
  lemma SilentHappens() returns (es: seq<Event>, g: Group)
    ensures es == [] + [Join] + [Join] + [Interval(0)] + [Finish(0)]
    ensures Runs(INIT, es, g) && g.threads == g.refcount == 1 && !g.closed
  {
    es, g := TwoJoin();
    g := ReportAndEnd(es, g);
    es := es + [Interval(0)] + [Finish(0)];
  }
}
