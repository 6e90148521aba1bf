/** The two-party full-duplex barrier: fullduplex_startstop_barrier of jni/src/Launch.cpp
    and its use at the end of EndJob in jni/src/Reporter.c. */
module Barrier {
  /** One of the two threads: `left` is its remaining timeout while it waits, `rcs` are the
      results of the calls it has returned from. */
  datatype Party = Party(waiting: bool, left: int, rcs: seq<int>) {
    function Return(rc: int): Party { Party(false, 0, rcs + [rc]) }
    function Arrivals(): nat { |rcs| + if waiting then 1 else 0 }
  }

  /** The locked section from the entry to the first wait. */
  function Enter(count: int, p: Party, timeout: int): (int, Party) {
    if count + 1 == 2 then (2, p.Return(1))
    else if timeout > 0 then (count + 1, p.(waiting := true, left := timeout))
    else (0, p.Return(0))
  }

  /** From the end of a wait, whatever ended it, to the next wait or the return. */
  function Recheck(count: int, p: Party): (int, Party) {
    if count == 2 then (0, p.Return(0))
    else if p.left - 1 == 0 then (count, p.Return(-1))
    else (count, p.(left := p.left - 1))
  }

  class BarrierMutex {
    var count: int
    const timeout: int

    constructor (timeout: int)
      ensures count == 0 && this.timeout == timeout
    {
      count, this.timeout := 0, timeout;
    }

    /** A call up to its first wait, or to its return with rc. */
    method Begin(ghost p: Party) returns (rc: int, wait: bool, left: int)
      modifies this
      ensures var (c, q) := Enter(old(count), p, timeout);
        count == c && q == if wait then p.(waiting := true, left := left) else p.Return(rc)
    {
      rc, wait, left := 0, false, timeout;
      count := count + 1;
      if count == 2 {
        rc := 1;
      } else if left > 0 {
        wait := true;
      } else {
        count := 0;
      }
    }

    /** One turn of the wait loop after the timed wait. */
    method Resume(ghost p: Party, left: int) returns (rc: int, wait: bool, left': int)
      requires p.waiting && p.left == left > 0
      modifies this
      ensures var (c, q) := Recheck(old(count), p);
        count == c && q == if wait then p.(left := left') else p.Return(rc)
    {
      rc, wait, left' := 0, true, left - 1;
      if left' == 0 && count != 2 {
        rc, wait := -1, false;
      } else if !(count != 2 && left' > 0) {
        count := 0;
        wait := false;
      }
    }
  }

  // ---------- interleavings ----------

  datatype State = State(count: int, a: Party, b: Party)

  const INIT := State(0, Party(false, 0, []), Party(false, 0, []))

  datatype Event = Arrive(first: bool) | Wake(first: bool)

  function Who(s: State, e: Event): Party { if e.first then s.a else s.b }

  predicate Enabled(s: State, e: Event) { if e.Arrive? then !Who(s, e).waiting else Who(s, e).waiting }

  function Step(s: State, e: Event, timeout: int): State {
    var (c, p) := if e.Arrive? then Enter(s.count, Who(s, e), timeout) else Recheck(s.count, Who(s, e));
    if e.first then State(c, p, s.b) else State(c, s.a, p)
  }

  ghost predicate Runs(s: State, es: seq<Event>, t: State, timeout: int)
    decreases |es|
  {
    if es == [] then s == t else Enabled(s, es[0]) && Runs(Step(s, es[0], timeout), es[1..], t, timeout)
  }

  /** No call of this run begins while the other party has yet to leave the last round. */
  ghost predicate Polite(s: State, es: seq<Event>, timeout: int)
    decreases |es|
  {
    es == [] || (!(es[0].Arrive? && s.count == 2) && Polite(Step(s, es[0], timeout), es[1..], timeout))
  }

  predicate NoTimeout(s: State) { -1 !in s.a.rcs && -1 !in s.b.rcs }

  predicate OneEach(x: int, y: int) { (x == 0 && y == 1) || (x == 1 && y == 0) }

  ghost predicate Paired(s: State) {
    forall k :: 0 <= k < |s.a.rcs| && k < |s.b.rcs| ==> OneEach(s.a.rcs[k], s.b.rcs[k])
  }

  /** Of a party that left the round ahead of the other. */
  predicate Ahead(p: Party, q: Party) { |p.rcs| == |q.rcs| + 1 && p.rcs[|q.rcs|] == 1 && !p.waiting && q.waiting }

  ghost predicate Inv(s: State) {
    && Paired(s)
    && (s.a.waiting ==> s.a.left > 0) && (s.b.waiting ==> s.b.left > 0)
    && (if s.count == 2 then Ahead(s.a, s.b) || Ahead(s.b, s.a)
        else
          && |s.a.rcs| == |s.b.rcs| && !(s.a.waiting && s.b.waiting)
          && s.count == if s.a.waiting || s.b.waiting then 1 else 0)
  }

  lemma StepInv(s: State, e: Event, timeout: int)
    requires Inv(s) && Enabled(s, e) && timeout > 0 && !(e.Arrive? && s.count == 2)
    requires NoTimeout(Step(s, e, timeout))
    ensures Inv(Step(s, e, timeout)) && NoTimeout(s)
  {
    var t, p := Step(s, e, timeout), Who(s, e);
    assert p.Return(-1).rcs[|p.rcs|] == -1;
    if e.first { assert forall x :: x in s.a.rcs ==> x in t.a.rcs; } else { assert forall x :: x in s.b.rcs ==> x in t.b.rcs; }
  }

  lemma {:induction false} NoTimeoutBefore(s: State, es: seq<Event>, t: State, timeout: int)
    requires Runs(s, es, t, timeout) && NoTimeout(t)
    ensures NoTimeout(s)
    decreases |es|
  {
    if es != [] {
      var u := Step(s, es[0], timeout);
      NoTimeoutBefore(u, es[1..], t, timeout);
      assert forall x :: x in s.a.rcs ==> x in u.a.rcs;
      assert forall x :: x in s.b.rcs ==> x in u.b.rcs;
    }
  }

  lemma {:induction false} RunsInv(s: State, es: seq<Event>, t: State, timeout: int)
    requires Inv(s) && timeout > 0 && Runs(s, es, t, timeout) && Polite(s, es, timeout) && NoTimeout(t)
    ensures Inv(t)
    decreases |es|
  {
    if es != [] {
      NoTimeoutBefore(Step(s, es[0], timeout), es[1..], t, timeout);
      StepInv(s, es[0], timeout);
      RunsInv(Step(s, es[0], timeout), es[1..], t, timeout);
    }
  }

  /** In every round the second call begins before the first has woken up `timeout` times. The
      phase is the number of calls that the round has seen, w how often the first has woken up
      so far. */
  predicate Timely(es: seq<Event>, phase: int, w: nat, timeout: int) {
    if es == [] then true
    else if es[0].Arrive? then Timely(es[1..], phase + 1, 0, timeout)
    else if phase == 1 then w + 1 < timeout && Timely(es[1..], 1, w + 1, timeout)
    else Timely(es[1..], 0, 0, timeout)
  }

  predicate WaitsSince(p: Party, w: nat, timeout: int) { p.waiting ==> p.left == timeout - w }

  lemma {:induction false} TimelyIff(s: State, es: seq<Event>, t: State, w: nat, timeout: int)
    requires Inv(s) && NoTimeout(s) && timeout > 0 && Runs(s, es, t, timeout) && Polite(s, es, timeout)
    requires s.count == 1 ==> WaitsSince(s.a, w, timeout) && WaitsSince(s.b, w, timeout)
    ensures NoTimeout(t) <==> Timely(es, s.count, w, timeout)
    decreases |es|
  {
    if es != [] {
      var u, rest := Step(s, es[0], timeout), es[1..];
      if es[0].Wake? && s.count == 1 && w + 1 >= timeout {
        TimeoutShows(s, es[0], rest, t, timeout);
      } else {
        assert NoTimeout(u);
        StepInv(s, es[0], timeout);
        TimelyIff(u, rest, t, if es[0].Wake? && s.count == 1 then w + 1 else 0, timeout);
      }
    }
  }

  lemma TimeoutShows(s: State, e: Event, es: seq<Event>, t: State, timeout: int)
    requires Enabled(s, e) && e.Wake? && s.count != 2 && Who(s, e).left == 1
    requires Runs(Step(s, e, timeout), es, t, timeout)
    ensures !NoTimeout(t)
  {
    var u, p := Step(s, e, timeout), Who(s, e);
    ResultsStay(u, es, t, timeout);
    assert p.Return(-1).rcs[|p.rcs|] == -1;
    if e.first { assert t.a.rcs[|p.rcs|] == -1; } else { assert t.b.rcs[|p.rcs|] == -1; }
  }

  /** Any number of rounds, in each of which the second call comes in time: nobody returns
      from a round before both have arrived in it, one returns 1 and the other 0, and the
      count is back at zero once both are out. */
  lemma RoundsPair(es: seq<Event>, s: State, timeout: int)
    requires timeout > 0 && Runs(INIT, es, s, timeout) && Polite(INIT, es, timeout) && Timely(es, 0, 0, timeout)
    ensures NoTimeout(s) && |s.a.rcs| <= s.b.Arrivals() && |s.b.rcs| <= s.a.Arrivals()
    ensures forall k :: 0 <= k < |s.a.rcs| && k < |s.b.rcs| ==> OneEach(s.a.rcs[k], s.b.rcs[k])
    ensures !s.a.waiting && !s.b.waiting ==> s.count == 0 && |s.a.rcs| == |s.b.rcs|
  {
    TimelyIff(INIT, es, s, 0, timeout);
    RunsInv(INIT, es, s, timeout);
  }

  /** Without early calls, some round meets a timeout if and only if in some round the second
      call does not come in time. */
  lemma RoundsTimeoutIff(es: seq<Event>, s: State, timeout: int)
    requires timeout > 0 && Runs(INIT, es, s, timeout) && Polite(INIT, es, timeout)
    ensures NoTimeout(s) <==> Timely(es, 0, 0, timeout)
  {
    TimelyIff(INIT, es, s, 0, timeout);
  }

  // ---------- one round, with timeouts ----------

  /** The states of one round. */
  ghost predicate Once(s: State) {
    var a, b, x, y := s.a, s.b, s.a.rcs, s.b.rcs;
    && a.Arrivals() <= 1 && b.Arrivals() <= 1
    && (a.waiting ==> a.left > 0) && (b.waiting ==> b.left > 0)
    && if x == [] && y == [] then
         !(a.waiting && b.waiting) && s.count == if a.waiting || b.waiting then 1 else 0
       else if x == [] then (y == [1] && a.waiting && s.count == 2) || (y == [-1] && !a.waiting && s.count == 1)
       else if y == [] then (x == [1] && b.waiting && s.count == 2) || (x == [-1] && !b.waiting && s.count == 1)
       else (OneEach(x[0], y[0]) && s.count == 0) || (((x == [-1] && y == [1]) || (x == [1] && y == [-1])) && s.count == 2)
  }

  lemma OnceStep(s: State, e: Event, timeout: int)
    requires Once(s) && Enabled(s, e) && timeout > 0
    requires var t := Step(s, e, timeout); t.a.Arrivals() <= 1 && t.b.Arrivals() <= 1
    ensures Once(Step(s, e, timeout))
  {
  }

  lemma {:induction false} ArrivalsGrow(s: State, es: seq<Event>, t: State, timeout: int)
    requires Runs(s, es, t, timeout)
    ensures s.a.Arrivals() <= t.a.Arrivals() && s.b.Arrivals() <= t.b.Arrivals()
    decreases |es|
  {
    if es != [] { ArrivalsGrow(Step(s, es[0], timeout), es[1..], t, timeout); }
  }

  lemma {:induction false} OnceRuns(s: State, es: seq<Event>, t: State, timeout: int)
    requires Once(s) && timeout > 0 && Runs(s, es, t, timeout) && t.a.Arrivals() <= 1 && t.b.Arrivals() <= 1
    ensures Once(t)
    decreases |es|
  {
    if es != [] {
      ArrivalsGrow(Step(s, es[0], timeout), es[1..], t, timeout);
      OnceStep(s, es[0], timeout);
      OnceRuns(Step(s, es[0], timeout), es[1..], t, timeout);
    }
  }

  /** How often a waiting party wakes up before the second of the two calls begins; `arrived`
      calls have begun already. */
  function WakesBetween(es: seq<Event>, arrived: nat): nat {
    if es == [] || arrived >= 2 then 0
    else if es[0].Arrive? then WakesBetween(es[1..], arrived + 1)
    else 1 + WakesBetween(es[1..], arrived)
  }

  function Mine(s: State, first: bool): Party { if first then s.a else s.b }

  lemma {:induction false} ResultsStay(s: State, es: seq<Event>, t: State, timeout: int)
    requires Runs(s, es, t, timeout)
    ensures s.a.rcs <= t.a.rcs && s.b.rcs <= t.b.rcs
    decreases |es|
  {
    if es != [] { ResultsStay(Step(s, es[0], timeout), es[1..], t, timeout); }
  }

  ghost predicate BothReturned(s: State) { |s.a.rcs| == |s.b.rcs| == 1 && !s.a.waiting && !s.b.waiting }

  /** Both are in: the one that waits is woken up and returns 0. */
  lemma SecondIsIn(s: State, first: bool, es: seq<Event>, t: State, timeout: int)
    requires s.count == 2 && Mine(s, first).waiting && Mine(s, first).rcs == []
    requires !Mine(s, !first).waiting && Mine(s, !first).rcs == [1]
    requires Runs(s, es, t, timeout) && BothReturned(t)
    ensures NoTimeout(t)
  {
    ArrivalsGrow(Step(s, es[0], timeout), es[1..], t, timeout);
    ResultsStay(Step(s, es[0], timeout), es[1..], t, timeout);
  }

  /** One has timed out: nobody wakes up until the other call begins. */
  lemma TimedOut(s: State, first: bool, es: seq<Event>, t: State, timeout: int)
    requires Mine(s, first).rcs == [-1] && !Mine(s, first).waiting && !Mine(s, !first).waiting
    requires Runs(s, es, t, timeout)
    ensures WakesBetween(es, 1) == 0 && !NoTimeout(t)
  {
    ResultsStay(s, es, t, timeout);
    assert Mine(t, first).rcs[0] == -1;
  }

  lemma {:induction false} WaitOutcome(s: State, first: bool, es: seq<Event>, t: State, timeout: int)
    requires s.count == 1 && Mine(s, first).waiting && Mine(s, first).left > 0 && Mine(s, first).rcs == []
    requires !Mine(s, !first).waiting && Mine(s, !first).rcs == []
    requires Runs(s, es, t, timeout) && BothReturned(t)
    ensures NoTimeout(t) <==> WakesBetween(es, 1) < Mine(s, first).left
    decreases |es|
  {
    var u, rest := Step(s, es[0], timeout), es[1..];
    if es[0].Arrive? {
      SecondIsIn(u, first, rest, t, timeout);
    } else if Mine(s, first).left == 1 {
      TimedOut(u, first, rest, t, timeout);
    } else {
      WaitOutcome(u, first, rest, t, timeout);
    }
  }

  /** Whether a round meets a timeout is decided by the schedule: it does not if and only if
      the second call begins before the first has woken up `timeout` times. */
  lemma TimeoutIff(es: seq<Event>, s: State, timeout: int)
    requires timeout > 0 && Runs(INIT, es, s, timeout) && BothReturned(s)
    ensures NoTimeout(s) <==> WakesBetween(es, 0) < timeout
  {
    WaitOutcome(Step(INIT, es[0], timeout), es[0].first, es[1..], s, timeout);
  }

  /** EndJob closes the socket and frees the shared report unless the barrier returned 0. */
  predicate DoClose(rc: int) { rc != 0 }

  /** One round in any interleaving: a result other than a timeout means that both had
      arrived; when both have returned, at least one side closes, and exactly one if and
      only if fewer than `timeout` wake-ups lie between the two calls. */
  lemma OneRound(es: seq<Event>, s: State, timeout: int)
    requires timeout > 0 && Runs(INIT, es, s, timeout) && s.a.Arrivals() <= 1 && s.b.Arrivals() <= 1
    ensures s.a.rcs != [] && s.a.rcs[0] != -1 ==> s.b.Arrivals() == 1
    ensures s.b.rcs != [] && s.b.rcs[0] != -1 ==> s.a.Arrivals() == 1
    ensures s.a.rcs != [] && s.b.rcs != [] ==>
      && (DoClose(s.a.rcs[0]) || DoClose(s.b.rcs[0]))
      && (DoClose(s.a.rcs[0]) != DoClose(s.b.rcs[0]) <==> WakesBetween(es, 0) < timeout)
      && (s.count == 0 <==> WakesBetween(es, 0) < timeout)
  {
    OnceRuns(INIT, es, s, timeout);
    if s.a.rcs != [] && s.b.rcs != [] { TimeoutIff(es, s, timeout); }
  }

  /** From `left` wake-ups before the timeout to the late second call. */
  lemma {:induction false} LateRun(left: nat, timeout: int) returns (es: seq<Event>)
    requires left > 0
    ensures Runs(State(1, Party(true, left, []), Party(false, 0, [])), es,
                 State(2, Party(false, 0, [-1]), Party(false, 0, [1])), timeout)
    decreases left
  {
    var s := State(1, Party(true, left, []), Party(false, 0, []));
    var t := State(2, Party(false, 0, [-1]), Party(false, 0, [1]));
    if left == 1 {
      es := [Wake(true), Arrive(false)];
      var u := State(1, Party(false, 0, [-1]), s.b);
      assert Step(s, Wake(true), timeout) == u && Step(u, Arrive(false), timeout) == t;
      assert es[1..] == [Arrive(false)] && es[1..][1..] == [];
      assert Runs(u, es[1..], t, timeout);
    } else {
      var rest := LateRun(left - 1, timeout);
      es := [Wake(true)] + rest;
      assert es[1..] == rest && Step(s, Wake(true), timeout) == State(1, Party(true, left - 1, []), s.b);
    }
  }

  /** For every timeout there is a run in which both sides close. */
  lemma BothClose(timeout: int) returns (es: seq<Event>, s: State)
    requires timeout > 0
    ensures Runs(INIT, es, s, timeout) && s.a.rcs == [-1] && s.b.rcs == [1]
    ensures DoClose(s.a.rcs[0]) && DoClose(s.b.rcs[0]) && s.count == 2
  {
    var rest := LateRun(timeout, timeout);
    es := [Arrive(true)] + rest;
    s := State(2, Party(false, 0, [-1]), Party(false, 0, [1]));
    assert es[1..] == rest && Step(INIT, Arrive(true), timeout) == State(1, Party(true, timeout, []), INIT.b);
  }

  // ---------- a call that comes too early ----------

  predicate AllTimeouts(rcs: seq<int>) { forall k :: 0 <= k < |rcs| ==> rcs[k] == -1 }

  /** `t` adds nothing but timeouts to the results of `s`. */
  ghost predicate OnlyTimeouts(s: Party, t: Party) { s.rcs <= t.rcs && AllTimeouts(t.rcs[|s.rcs|..]) }

  /** Once a call begins before the other party has left the last round, the count is past
      two for good and every later return is a timeout. */
  lemma {:induction false} NeverAgain(s: State, es: seq<Event>, t: State, timeout: int)
    requires s.count >= 3 && timeout > 0 && Runs(s, es, t, timeout)
    ensures t.count >= 3 && OnlyTimeouts(s.a, t.a) && OnlyTimeouts(s.b, t.b)
    decreases |es|
  {
    if es != [] {
      var u := Step(s, es[0], timeout);
      NeverAgain(u, es[1..], t, timeout);
    }
  }

  lemma EarlyCallBreaks(s: State, first: bool, es: seq<Event>, t: State, timeout: int)
    requires s.count == 2 && timeout > 0 && Enabled(s, Arrive(first))
    requires Runs(Step(s, Arrive(first), timeout), es, t, timeout)
    ensures t.count >= 3 && OnlyTimeouts(s.a, t.a) && OnlyTimeouts(s.b, t.b)
  {
    NeverAgain(Step(s, Arrive(first), timeout), es, t, timeout);
  }

  /** Such a call can happen: the second to arrive returns and calls again before the first
      has woken up. */
  lemma EarlyCallHappens(timeout: int)
    requires timeout > 0
    ensures Runs(INIT, [Arrive(true), Arrive(false), Arrive(false)],
                 State(3, Party(true, timeout, []), Party(true, timeout, [1])), timeout)
  {
    var es := [Arrive(true), Arrive(false), Arrive(false)];
    var s1 := State(1, Party(true, timeout, []), Party(false, 0, []));
    var s2 := State(2, s1.a, Party(false, 0, [1]));
    var s3 := State(3, s1.a, Party(true, timeout, [1]));
    assert Step(INIT, es[0], timeout) == s1 && Step(s1, es[1], timeout) == s2 && Step(s2, es[2], timeout) == s3;
    assert es[1..] == [Arrive(false), Arrive(false)] && es[1..][1..] == [Arrive(false)] && es[1..][1..][1..] == [];
    assert Runs(s2, es[1..][1..], s3, timeout);
    assert Runs(s1, es[1..], s3, timeout);
  }
}
