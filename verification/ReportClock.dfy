/** The clock of the interval reports: the timeval macros of jni/include/util.h and the
    interval, catch-up and final timestamps of jni/src/Reporter.c. Times are integer
    microseconds. */
module ReportClock {
  const MILLION: int := 1_000_000

  datatype Timeval = Timeval(sec: int, usec: int) {
    function Micros(): int { sec * MILLION + usec }
    predicate Ranged() { 0 <= usec <= MILLION }
  }

  function TimeDifference(left: Timeval, right: Timeval): (d: int)
    ensures d == left.Micros() - right.Micros()
  { (left.sec - right.sec) * MILLION + (left.usec - right.usec) }

  /** TimeAdd: exact, although it may leave a whole second in the microseconds. */
  method TimeAdd(left: Timeval, right: Timeval) returns (sum: Timeval)
    ensures sum.Micros() == left.Micros() + right.Micros()
    ensures left.Ranged() && 0 <= right.usec < MILLION ==> sum.Ranged()
    ensures left.Ranged() && 0 <= right.usec < MILLION ==> (sum.usec == MILLION <==> left.usec + right.usec == MILLION)
  {
    sum := left.(usec := left.usec + right.usec);
    if sum.usec > MILLION {
      sum := Timeval(sum.sec + 1, sum.usec - MILLION);
    }
    sum := sum.(sec := sum.sec + right.sec);
  }

  /** A printed report covers start..end, in microseconds since the start time. */
  datatype Report = Report(start: int, end: int)

  /** How many interval reports there are after the catch-up loop, if there were n before. */
  function CatchUp(n: int, p: int, d: int): (m: int)
    requires d > 0
    ensures n <= m
    decreases p - n * d
  {
    if p - (n + 1) * d > d then
      assert (n + 1) * d == n * d + d;
      CatchUp(n + 1, p, d)
    else n
  }

  /** How many after a packet at p microseconds. */
  function Reports(n: int, p: int, d: int, outputs: bool): int
    requires d > 0
  {
    if p <= (n + 1) * d then n else if outputs then CatchUp(n + 1, p, d) else n + 1
  }

  /** What a packet at p does to a clock that has gone through n intervals of d: nothing up to
      the next report time; past it without output one interval; with output as many as it
      takes, and at least one, for the packet to be at most one interval beyond the next
      report time. */
  predicate Due(n: int, p: int, d: int, outputs: bool, m: int) {
    if p <= (n + 1) * d then m == n
    else if !outputs then m == n + 1
    else n + 1 <= m && Enough(m, p, d) && forall k :: n + 1 <= k < m ==> !Enough(k, p, d)
  }

  /** After m intervals the packet is at most one interval beyond the next report time. */
  predicate Enough(m: int, p: int, d: int) { p - (m + 1) * d <= d }

  lemma ReportsDue(n: int, p: int, d: int, outputs: bool)
    requires d > 0
    ensures Due(n, p, d, outputs, Reports(n, p, d, outputs))
  {
    if p > (n + 1) * d && outputs {
      var m := Reports(n, p, d, outputs);
      CatchUpLeast(n + 1, p, d);
      forall k | n + 1 <= k < m ensures !Enough(k, p, d) { Below(k + 1, m, d); }
    }
  }

  lemma Below(x: int, y: int, d: int)
    requires x <= y && d > 0
    ensures x * d <= y * d
  {
    assert y * d - x * d == (y - x) * d;
  }

  /** Reports n..m-1. */
  function Tiles(n: int, m: int, d: int): (r: seq<Report>)
    requires n <= m
    ensures |r| == m - n
    decreases m - n
  {
    if n == m then [] else Tiles(n, m - 1, d) + [Report((m - 1) * d, m * d)]
  }

  class Clock {
    const startTime: Timeval
    const intervalTime: Timeval
    var nextTime: Timeval
    var packetTime: Timeval
    /** There is an output handler and it is not filtered. */
    const outputs: bool
    var iStart: int
    var iEnd: int
    /** What the output handler was given. */
    var printed: seq<Report>
    /** The intervals that the clock has gone through. */
    ghost var spans: seq<Report>

    ghost function D(): int { intervalTime.Micros() }

    ghost function Since(t: Timeval): int { t.Micros() - startTime.Micros() }

    /** After n intervals: they tile the time from the start, the next ends one interval after
        the last, and they are what was printed, if anything is. */
    ghost predicate Valid(n: int)
      reads this
    {
      && 0 <= n && D() > 0
      && Since(nextTime) == (n + 1) * D() && iEnd == n * D()
      && spans == Tiles(0, n, D()) && printed == if outputs then spans else []
    }

    /** SetReportStartTime. */
    constructor (start: Timeval, interval: Timeval, outputs: bool)
      requires interval.Micros() > 0
      ensures startTime == start && intervalTime == interval && this.outputs == outputs && Valid(0)
    {
      startTime, intervalTime, packetTime, this.outputs := start, interval, start, outputs;
      iStart, iEnd, printed, spans := 0, 0, [], [];
      var next := TimeAdd(start, interval);
      nextTime := next;
    }

    /** reporter_set_timestamps_time with INTERVAL. */
    method SetInterval()
      modifies this`iStart, this`iEnd, this`nextTime
      ensures var early := Since(packetTime) < 0;
        && iStart == (if early then 0 else old(iEnd))
        && iEnd == (if early then 0 else Since(old(nextTime)))
        && nextTime.Micros() == old(nextTime).Micros() + (if early then 0 else D())
    {
      if TimeDifference(packetTime, startTime) < 0 {
        iEnd, iStart := 0, 0;
      } else {
        iStart := iEnd;
        iEnd := TimeDifference(nextTime, startTime);
        nextTime := TimeAdd(nextTime, intervalTime);
      }
    }

    method PrintInterval(ghost n: int)
      requires Valid(n) && Since(nextTime) < Since(packetTime)
      modifies this`iStart, this`iEnd, this`nextTime, this`printed, this`spans
      ensures Valid(n + 1)
    {
      assert (n + 1) * D() == n * D() + D() && (n + 2) * D() == (n + 1) * D() + D() && n * D() >= 0;
      SetInterval();
      if outputs { printed := printed + [Report(iStart, iEnd)]; }
      spans := spans + [Report(iStart, iEnd)];
    }

    /** reporter_transfer_protocol_missed_reports. */
    method MissedReports(packet: Timeval, ghost n: int)
      requires Valid(n) && packet == packetTime
      modifies this`iStart, this`iEnd, this`nextTime, this`printed, this`spans
      ensures Valid(CatchUp(n, Since(packet), D()))
    {
      ghost var m := n;
      while TimeDifference(packet, nextTime) > intervalTime.Micros()
        invariant Valid(m) && CatchUp(m, Since(packet), D()) == CatchUp(n, Since(packet), D())
        decreases Since(packet) - Since(nextTime)
      {
        ghost var before := Since(nextTime);
        PrintInterval(m);
        assert (m + 2) * D() == (m + 1) * D() + D();
        m := m + 1;
      }
    }

    /** reporter_condprint_time_interval_report, as far as the clock is concerned. */
    method CondPrint(packet: Timeval, ghost n: int) returns (advance: bool, ghost m: int)
      requires Valid(n)
      modifies this
      ensures Valid(m) && m == Reports(n, Since(packet), D(), outputs) && Due(n, Since(packet), D(), outputs, m)
      ensures advance <==> Since(packet) > (n + 1) * D()
    {
      m := Reports(n, Since(packet), D(), outputs);
      ReportsDue(n, Since(packet), D(), outputs);
      advance := TimeDifference(nextTime, packet) < 0;
      if advance {
        packetTime := packet;
        PrintInterval(n);
        if outputs { MissedReports(packet, n + 1); }
      }
    }

    /** The timestamps of the final report: the partial interval and the whole run. */
    method Finish(packet: Timeval, ghost n: int) returns (part: Report, total: Report)
      requires Valid(n)
      modifies this
      ensures Since(packet) >= 0 ==> part == Report(n * D(), Since(packet)) && total == Report(0, Since(packet))
      ensures Since(packet) < 0 ==> part == Report(0, 0) && total == Report(0, 0)
    {
      packetTime := packet;
      if TimeDifference(packetTime, startTime) < 0 {
        iEnd, iStart := 0, 0;
      } else {
        iStart := iEnd;
        iEnd := TimeDifference(packetTime, startTime);
      }
      part := Report(iStart, iEnd);
      if TimeDifference(packetTime, startTime) < 0 {
        iEnd, iStart := 0, 0;
      } else {
        iStart := 0;
        iEnd := TimeDifference(packetTime, startTime);
      }
      total := Report(iStart, iEnd);
    }
  }

  // ---------- runs ----------

  /** The k-th report starts where the one before it ended and ends at k intervals. */
  lemma {:induction false} TilesAt(m: int, d: int, k: nat)
    requires k < m
    ensures Tiles(0, m, d)[k] == Report(k * d, (k + 1) * d)
    ensures k > 0 ==> Tiles(0, m, d)[k].start == Tiles(0, m, d)[k - 1].end
    decreases m
  {
    if k < m - 1 { TilesAt(m - 1, d, k); }
    else if k > 0 { TilesAt(m - 1, d, k - 1); }
  }

  /** The loop as a closed form: it leaves the least number of reports, not below n, for
      which the packet is at most one interval beyond the next report time. */
  lemma {:induction false} CatchUpLeast(n: int, p: int, d: int)
    requires d > 0
    ensures var m := CatchUp(n, p, d); p - (m + 1) * d <= d && (m > n ==> p - m * d > d)
    decreases p - n * d
  {
    if p - (n + 1) * d > d {
      assert (n + 1) * d == n * d + d;
      CatchUpLeast(n + 1, p, d);
    }
  }

  /** Reports printed after packets at ps. */
  function Printed(ps: seq<int>, d: int, outputs: bool): (n: int)
    requires d > 0
    ensures n >= 0
  {
    if ps == [] then 0 else Reports(Printed(ps[..|ps| - 1], d, outputs), ps[|ps| - 1], d, outputs)
  }

  /** No report ends after the packet that caused it; later packets are not earlier, so every
      report lies in the past of the last packet. */
  lemma {:induction false} NoFutureReport(ps: seq<int>, d: int, outputs: bool)
    requires d > 0 && forall i, j :: 0 <= i < j < |ps| ==> ps[i] <= ps[j]
    ensures var n := Printed(ps, d, outputs); n == 0 || (ps != [] && n * d < ps[|ps| - 1])
  {
    if ps != [] {
      var pre, p := ps[..|ps| - 1], ps[|ps| - 1];
      NoFutureReport(pre, d, outputs);
      var n := Printed(pre, d, outputs);
      CatchUpLeast(n + 1, p, d);
      if pre != [] { assert pre[|pre| - 1] <= p; }
    }
  }

  /** With output on, the clock is never more than one interval behind the last packet. */
  lemma CaughtUp(ps: seq<int>, d: int)
    requires d > 0 && ps != []
    ensures ps[|ps| - 1] - (Printed(ps, d, true) + 1) * d <= d
  {
    CatchUpLeast(Printed(ps[..|ps| - 1], d, true) + 1, ps[|ps| - 1], d);
  }

  /** The counts of intervals before and after each packet. */
  ghost predicate AllDue(times: seq<int>, d: int, outputs: bool, counts: seq<int>) {
    && |counts| == |times| + 1 && counts[0] == 0
    && forall k :: 0 <= k < |times| ==> Due(counts[k], times[k], d, outputs, counts[k + 1])
  }

  lemma DueMore(times: seq<int>, d: int, outputs: bool, counts: seq<int>, p: int, m: int)
    requires AllDue(times, d, outputs, counts) && Due(counts[|times|], p, d, outputs, m)
    ensures AllDue(times + [p], d, outputs, counts + [m])
  {
  }

  /** The packets of a run, one after the other. */
  method FeedClock(clock: Clock, packets: seq<Timeval>) returns (ghost times: seq<int>, ghost counts: seq<int>)
    requires clock.Valid(0)
    modifies clock
    ensures |times| == |packets| && forall k :: 0 <= k < |packets| ==> times[k] == clock.Since(packets[k])
    ensures clock.Valid(Printed(times, clock.D(), clock.outputs))
    ensures AllDue(times, clock.D(), clock.outputs, counts) && counts[|packets|] == Printed(times, clock.D(), clock.outputs)
  {
    times, counts := [], [0];
    var i := 0;
    while i < |packets|
      invariant 0 <= i <= |packets| && |times| == i
      invariant forall k :: 0 <= k < i ==> times[k] == clock.Since(packets[k])
      invariant AllDue(times, clock.D(), clock.outputs, counts) && counts[i] == Printed(times, clock.D(), clock.outputs)
      invariant clock.Valid(counts[i])
    {
      var advance;
      ghost var m;
      advance, m := clock.CondPrint(packets[i], counts[i]);
      ghost var p := clock.Since(packets[i]);
      DueMore(times, clock.D(), clock.outputs, counts, p, m);
      assert (times + [p])[..i] == times;
      times, counts := times + [p], counts + [m];
      i := i + 1;
    }
  }

  /** The clock fed with a whole run of packets, then the end of the run: the intervals and
      the partial one cover the run from its start to its last packet without gap or overlap;
      with output on they are what was printed, and nothing is printed otherwise; each packet
      moves the clock by the intervals due. */
  method Run(start: Timeval, interval: Timeval, packets: seq<Timeval>, outputs: bool)
    returns (reports: seq<Report>, part: Report, total: Report, ghost spans: seq<Report>, ghost times: seq<int>, ghost counts: seq<int>)
    requires interval.Micros() > 0 && packets != [] && start.Micros() <= packets[|packets| - 1].Micros()
    requires forall i, j :: 0 <= i < j < |packets| ==> packets[i].Micros() <= packets[j].Micros()
    ensures |times| == |packets| && forall k :: 0 <= k < |packets| ==> times[k] == packets[k].Micros() - start.Micros()
    ensures AllDue(times, interval.Micros(), outputs, counts) && counts[|packets|] == |spans|
    ensures forall k :: 0 <= k < |spans| ==> spans[k] == Report(k * interval.Micros(), (k + 1) * interval.Micros())
    ensures reports == if outputs then spans else []
    ensures total == Report(0, packets[|packets| - 1].Micros() - start.Micros())
    ensures part == Report(|spans| * interval.Micros(), total.end) && part.start <= part.end
    ensures outputs ==> part.end - part.start <= 2 * interval.Micros()
  {
    var clock := new Clock(start, interval, outputs);
    times, counts := FeedClock(clock, packets);
    ghost var d := interval.Micros();
    ghost var n := Printed(times, d, outputs);
    NoFutureReport(times, d, outputs);
    if outputs { CaughtUp(times, d); }
    reports, spans := clock.printed, clock.spans;
    part, total := clock.Finish(packets[|packets| - 1], n);
    forall k | 0 <= k < |spans| ensures spans[k] == Report(k * d, (k + 1) * d) { TilesAt(n, d, k); }
    assert (n + 1) * d == n * d + d;
  }
}
