/** The thread counters of jni/compat/Thread.c and what thread_joinall waits for. */
module ThreadCount {
  datatype Mode = Client | Server | Listener | Reporter

  predicate Traffic(m: Mode) { m == Client || m == Server }

  /** The threads behind the counters: those started and not ended, the listeners between
      registering and unregistering, and those set to be ignored. */
  datatype Census = Census(live: map<int, Mode>, registered: set<int>, ignored: set<int>)

  const NOBODY := Census(map[], {}, {})

  ghost function TrafficIds(live: map<int, Mode>): set<int> { set id | id in live && Traffic(live[id]) }

  ghost predicate WellFormed(c: Census) {
    c.registered <= c.live.Keys && c.ignored <= c.live.Keys && c.registered !! c.ignored
  }

  /** What every operation keeps. */
  ghost predicate Counts(c: Census, sNum: int, trfcNum: int, nonterm: int) {
    && WellFormed(c)
    && 0 <= nonterm <= |c.registered|
    && sNum == |c.live| - |c.ignored| - (|c.registered| - nonterm)
    && trfcNum == |TrafficIds(c.live)|
  }

  lemma AddedTraffic(live: map<int, Mode>, id: int, m: Mode)
    requires id !in live
    ensures |TrafficIds(live[id := m])| == |TrafficIds(live)| + if Traffic(m) then 1 else 0
  {
    var more := live[id := m];
    assert id !in TrafficIds(live);
    forall x ensures x in TrafficIds(more) <==> x in TrafficIds(live) || (x == id && Traffic(m)) {
      if x != id { assert x in more <==> x in live; }
    }
    if Traffic(m) { assert TrafficIds(more) == TrafficIds(live) + {id}; } else { assert TrafficIds(more) == TrafficIds(live); }
  }

  lemma Added(live: map<int, Mode>, id: int, m: Mode)
    requires id !in live
    ensures |live[id := m]| == |live| + 1
    ensures |TrafficIds(live[id := m])| == |TrafficIds(live)| + if Traffic(m) then 1 else 0
  {
    AddedTraffic(live, id, m);
  }

  lemma Removed(live: map<int, Mode>, id: int)
    requires id in live
    ensures |live - {id}| == |live| - 1
    ensures |TrafficIds(live - {id})| == |TrafficIds(live)| - if Traffic(live[id]) then 1 else 0
  {
    var rest := live - {id};
    assert live == rest[id := live[id]];
    Added(rest, id, live[id]);
  }

  /** The count never goes negative, and is zero exactly when all registrations have been
      released and every thread left is ignored or a registered listener. */
  lemma JoinExact(c: Census, sNum: int, trfcNum: int, nonterm: int)
    requires Counts(c, sNum, trfcNum, nonterm)
    ensures sNum >= 0
    ensures sNum <= 0 <==> nonterm == 0 && c.live.Keys == c.ignored + c.registered
  {
    var out := c.ignored + c.registered;
    var waited := c.live.Keys - out;
    assert c.live.Keys == waited + out;
    assert |c.live| == |c.live.Keys| == |waited| + |out|;
    assert |out| == |c.ignored| + |c.registered|;
    assert |waited| == 0 <==> c.live.Keys == out;
  }

  // ---------- runs ----------

  datatype State = State(sNum: int, trfcNum: int, nonterm: int, c: Census)

  const INIT := State(0, 0, 0, NOBODY)

  datatype Event =
    | Start(id: int, mode: Mode)
    | End(id: int)
    | Ignore(id: int)
    | Unignore(id: int)
    | Register(id: int)
    | Unregister(id: int)
    | Release

  /** What the program's structure ensures of the callers. */
  ghost predicate Enabled(s: State, e: Event) {
    match e
    case Start(id, mode) => id !in s.c.live
    case End(id) => id in s.c.live && id !in s.c.registered && id !in s.c.ignored
    case Ignore(id) => id in s.c.live && id !in s.c.ignored && id !in s.c.registered
    case Unignore(id) => id in s.c.ignored
    case Register(id) => id in s.c.live && id !in s.c.registered && id !in s.c.ignored
    case Unregister(id) => id in s.c.registered
    case Release => true
  }

  function One(m: Mode): int { if Traffic(m) then 1 else 0 }

  ghost function Step(s: State, e: Event): State
    requires Enabled(s, e)
  {
    match e
    case Start(id, mode) => State(s.sNum + 1, s.trfcNum + One(mode), s.nonterm, s.c.(live := s.c.live[id := mode]))
    case End(id) =>
      assert id in s.c.live;
      State(s.sNum - 1, s.trfcNum - One(s.c.live[id]), s.nonterm, s.c.(live := s.c.live - {id}))
    case Ignore(id) => s.(sNum := s.sNum - 1, c := s.c.(ignored := s.c.ignored + {id}))
    case Unignore(id) => s.(sNum := s.sNum + 1, c := s.c.(ignored := s.c.ignored - {id}))
    case Register(id) => s.(nonterm := s.nonterm + 1, c := s.c.(registered := s.c.registered + {id}))
    case Unregister(id) =>
      s.(sNum := s.sNum + (if s.nonterm == 0 then 1 else 0), nonterm := if s.nonterm == 0 then 0 else s.nonterm - 1,
         c := s.c.(registered := s.c.registered - {id}))
    case Release => s.(sNum := s.sNum - s.nonterm, nonterm := 0)
  }

  ghost predicate Runs(s: State, es: seq<Event>, t: State)
    decreases |es|
  {
    if es == [] then s == t else Enabled(s, es[0]) && Runs(Step(s, es[0]), es[1..], t)
  }

  ghost predicate Inv(s: State) { Counts(s.c, s.sNum, s.trfcNum, s.nonterm) }

  lemma StepInv(s: State, e: Event)
    requires Inv(s) && Enabled(s, e)
    ensures Inv(Step(s, e))
  {
    match e {
      case Start(id, mode) => Added(s.c.live, id, mode);
      case End(id) => Removed(s.c.live, id);
      case Ignore(id) =>
      case Unignore(id) =>
      case Register(id) =>
      case Unregister(id) =>
      case Release =>
    }
  }

  lemma {:induction false} RunsInv(s: State, es: seq<Event>, t: State)
    requires Inv(s) && Runs(s, es, t)
    ensures Inv(t)
    decreases |es|
  {
    if es != [] {
      StepInv(s, es[0]);
      RunsInv(Step(s, es[0]), es[1..], t);
    }
  }

  /** Over every run, in any order of starts, failed starts, ends, registrations and releases:
      the counters are those of the threads, and joinall passes exactly when no thread that
      it should wait for is left. */
  lemma CountsOverRuns(es: seq<Event>, s: State)
    requires Runs(INIT, es, s)
    ensures s.sNum == |s.c.live| - |s.c.ignored| - (|s.c.registered| - s.nonterm)
    ensures s.trfcNum == |TrafficIds(s.c.live)| && 0 <= s.nonterm <= |s.c.registered|
    ensures s.sNum <= 0 <==> s.nonterm == 0 && s.c.live.Keys == s.c.ignored + s.c.registered
  {
    InitInv();
    RunsInv(INIT, es, s);
    JoinExact(s.c, s.sNum, s.trfcNum, s.nonterm);
  }

  /** What the events say of a thread: started and not ended, ignored, registered. */
  function StartedBy(es: seq<Event>, id: int, was: bool): bool {
    if es == [] then was
    else StartedBy(es[1..], id, if es[0].Start? && es[0].id == id then true else if es[0] == End(id) then false else was)
  }

  function IgnoredBy(es: seq<Event>, id: int, was: bool): bool {
    if es == [] then was
    else IgnoredBy(es[1..], id, if es[0] == Ignore(id) then true else if es[0] == Unignore(id) then false else was)
  }

  function RegisteredBy(es: seq<Event>, id: int, was: bool): bool {
    if es == [] then was
    else RegisteredBy(es[1..], id, if es[0] == Register(id) then true else if es[0] == Unregister(id) then false else was)
  }

  /** The census is that of the events. */
  lemma {:induction false} CensusExact(s: State, es: seq<Event>, t: State, id: int)
    requires Runs(s, es, t)
    ensures id in t.c.live <==> StartedBy(es, id, id in s.c.live)
    ensures id in t.c.ignored <==> IgnoredBy(es, id, id in s.c.ignored)
    ensures id in t.c.registered <==> RegisteredBy(es, id, id in s.c.registered)
    decreases |es|
  {
    if es != [] { CensusExact(Step(s, es[0]), es[1..], t, id); }
  }

  lemma PutAndTake(live: map<int, Mode>, id: int, mode: Mode)
    requires id !in live
    ensures live[id := mode] - {id} == live
  {
    assert (live[id := mode] - {id}).Keys == live.Keys;
  }

  /** A thread leaves the counters as they were before it started. */
  lemma StartEndUndo(s: State, id: int, mode: Mode)
    requires Inv(s) && Enabled(s, Start(id, mode))
    ensures Enabled(Step(s, Start(id, mode)), End(id))
    ensures Step(Step(s, Start(id, mode)), End(id)) == s
  {
    PutAndTake(s.c.live, id, mode);
  }

  /** A thread that starts the next of a chain gives up its own place in the count first. In
      any state of any run, joinall passes in between, with the next thread still to come, if
      and only if the registrations are released and every other thread is ignored or a
      registered listener. */
  lemma ChainGap(es: seq<Event>, s: State, id: int, next: int, mode: Mode)
    requires Runs(INIT, es, s) && Enabled(s, End(id)) && next !in s.c.live
    ensures Step(s, End(id)).sNum <= 0 <==> s.nonterm == 0 && s.c.live.Keys - {id} == s.c.ignored + s.c.registered
    ensures Enabled(Step(s, End(id)), Start(next, mode)) && Step(Step(s, End(id)), Start(next, mode)).sNum == s.sNum
  {
    InitInv();
    RunsInv(INIT, es, s);
    StepInv(s, End(id));
    var t := Step(s, End(id));
    JoinExact(t.c, t.sNum, t.trfcNum, t.nonterm);
    assert t.c.live.Keys == s.c.live.Keys - {id};
  }

  /** It does for a thread that is alone. */
  lemma ChainGapHappens(mode: Mode) returns (es: seq<Event>, s: State)
    ensures Runs(INIT, es, s) && Enabled(s, End(1)) && Step(s, End(1)) == INIT && INIT.sNum <= 0
  {
    es, s := [Start(1, mode)], Step(INIT, Start(1, mode));
    InitInv();
    StartEndUndo(INIT, 1, mode);
    RunsOne(INIT, Start(1, mode));
  }

  lemma InitInv()
    ensures Inv(INIT)
  {
    assert TrafficIds(map[]) == {};
  }

  lemma RunsOne(s: State, e: Event)
    requires Enabled(s, e)
    ensures Runs(s, [e], Step(s, e))
  {
    assert [e][1..] == [];
  }

  // ---------- the operations ----------

  class Counters {
    var sNum: int
    var trfcNum: int
    var nonterm: int
    ghost var c: Census

    ghost function View(): State
      reads this
    { State(sNum, trfcNum, nonterm, c) }

    constructor ()
      ensures View() == INIT && Inv(View())
    {
      sNum, trfcNum, nonterm, c := 0, 0, 0, NOBODY;
      assert TrafficIds(map[]) == {};
    }

    /** thread_start up to the creation of the thread. */
    method Start(id: int, mode: Mode)
      requires Inv(View()) && Enabled(View(), Event.Start(id, mode))
      modifies this
      ensures View() == Step(old(View()), Event.Start(id, mode)) && Inv(View())
    {
      StepInv(View(), Event.Start(id, mode));
      sNum := sNum + 1;
      if mode == Client || mode == Server { trfcNum := trfcNum + 1; }
      c := c.(live := c.live[id := mode]);
    }

    /** The locked section that ends a thread: at the end of thread_run_wrapper, in thread_stop,
        or in thread_start when the thread could not be created. */
    method End(id: int, mode: Mode)
      requires Inv(View()) && Enabled(View(), Event.End(id)) && c.live[id] == mode
      modifies this
      ensures View() == Step(old(View()), Event.End(id)) && Inv(View())
    {
      StepInv(View(), Event.End(id));
      sNum := sNum - 1;
      if mode == Client || mode == Server { trfcNum := trfcNum - 1; }
      c := c.(live := c.live - {id});
    }

    method SetIgnore(ghost id: int)
      requires Inv(View()) && Enabled(View(), Ignore(id))
      modifies this
      ensures View() == Step(old(View()), Ignore(id)) && Inv(View())
    {
      StepInv(View(), Ignore(id));
      sNum := sNum - 1;
      c := c.(ignored := c.ignored + {id});
    }

    method UnsetIgnore(ghost id: int)
      requires Inv(View()) && Enabled(View(), Unignore(id))
      modifies this
      ensures View() == Step(old(View()), Unignore(id)) && Inv(View())
    {
      StepInv(View(), Unignore(id));
      sNum := sNum + 1;
      c := c.(ignored := c.ignored - {id});
    }

    method RegisterNonterm(ghost id: int)
      requires Inv(View()) && Enabled(View(), Register(id))
      modifies this
      ensures View() == Step(old(View()), Register(id)) && Inv(View())
    {
      StepInv(View(), Register(id));
      nonterm := nonterm + 1;
      c := c.(registered := c.registered + {id});
    }

    /** The listener is waited for again if the registrations had been released. */
    method UnregisterNonterm(ghost id: int)
      requires Inv(View()) && Enabled(View(), Unregister(id))
      modifies this
      ensures View() == Step(old(View()), Unregister(id)) && Inv(View())
    {
      StepInv(View(), Unregister(id));
      if nonterm == 0 {
        sNum := sNum + 1;
      } else {
        nonterm := nonterm - 1;
      }
      c := c.(registered := c.registered - {id});
    }

    method ReleaseNonterm() returns (left: int)
      requires Inv(View())
      modifies this
      ensures View() == Step(old(View()), Release) && Inv(View())
      ensures left == |c.live| - |c.ignored| - |c.registered|
    {
      StepInv(View(), Release);
      sNum := sNum - nonterm;
      nonterm := 0;
      left := sNum;
    }

    /** The test on which thread_joinall stops waiting. */
    method JoinDone() returns (done: bool)
      requires Inv(View())
      ensures done <==> nonterm == 0 && c.live.Keys == c.ignored + c.registered
    {
      done := !(sNum > 0);
      JoinExact(c, sNum, trfcNum, nonterm);
    }
  }
}
