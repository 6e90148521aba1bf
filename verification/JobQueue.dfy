/** The reporter's job list (jni/src/Reporter.c): PostReport, reporter_jobq_set_root and
    the pass of reporter_spawn that walks the list through a pointer to a pointer. */
module JobQueue {
  ghost predicate Distinct<T>(s: seq<T>) { forall i, j :: 0 <= i < j < |s| ==> s[i] != s[j] }

  /** The list after a pass, when processing reports exactly the jobs of `done` as done.
      The successor of a removed job becomes *work_item and is stepped over. */
  function Kept<T(==)>(js: seq<T>, done: set<T>): seq<T> {
    if js == [] then []
    else if js[0] !in done then [js[0]] + Kept(js[1..], done)
    else if |js| == 1 then []
    else [js[1]] + Kept(js[2..], done)
  }

  /** The jobs that the pass hands to reporter_process_report, in order. */
  function Processed<T(==)>(js: seq<T>, done: set<T>): seq<T> {
    if js == [] then []
    else if js[0] !in done then [js[0]] + Processed(js[1..], done)
    else if |js| == 1 then [js[0]]
    else [js[0]] + Processed(js[2..], done)
  }

  /** The list without the members of `gone`, order kept. */
  function Without<T(==)>(js: seq<T>, gone: set<T>): seq<T> {
    if js == [] then []
    else (if js[0] in gone then [] else [js[0]]) + Without(js[1..], gone)
  }

  function DoneAmong<T(==)>(js: seq<T>, done: set<T>): set<T> { set j | j in js && j in done }

  function Reported<T(==)>(js: seq<T>, done: set<T>): set<T> { DoneAmong(Processed(js, done), done) }

  lemma {:induction false} ProcessedFrom<T>(js: seq<T>, done: set<T>)
    ensures forall j :: j in Processed(js, done) ==> j in js
    decreases |js|
  {
    if js == [] {
    } else if js[0] !in done {
      ProcessedFrom(js[1..], done);
    } else if |js| > 1 {
      ProcessedFrom(js[2..], done);
    }
  }

  /** No job is processed twice in a pass. */
  lemma {:induction false} ProcessedOnce<T>(js: seq<T>, done: set<T>)
    requires Distinct(js)
    ensures Distinct(Processed(js, done))
    decreases |js|
  {
    if js == [] {
    } else if js[0] !in done {
      ProcessedOnce(js[1..], done);
      ProcessedFrom(js[1..], done);
      DistinctCons(js[0], Processed(js[1..], done));
    } else if |js| > 1 {
      ProcessedOnce(js[2..], done);
      ProcessedFrom(js[2..], done);
      DistinctCons(js[0], Processed(js[2..], done));
    }
  }

  /** A job is processed unless the one before it was processed and reported done: that is the
      successor that the removal steps over. */
  lemma {:induction false} ProcessedIff<T>(js: seq<T>, done: set<T>, i: nat)
    requires Distinct(js) && i < |js|
    ensures js[i] in Processed(js, done) <==> i == 0 || !(js[i - 1] in Processed(js, done) && js[i - 1] in done)
    decreases |js|
  {
    var skip := if js[0] in done then 2 else 1;
    if skip <= |js| {
      var rest := js[skip..];
      ProcessedFrom(rest, done);
      assert Processed(js, done) == [js[0]] + Processed(rest, done);
      assert forall k :: 0 <= k < |rest| ==> rest[k] == js[k + skip];
      if i >= skip { ProcessedIff(rest, done, i - skip); }
    }
  }

  lemma DistinctCons<T>(x: T, s: seq<T>)
    requires Distinct(s) && x !in s
    ensures Distinct([x] + s)
  {
  }

  lemma {:induction false} WithoutSame<T>(js: seq<T>, a: set<T>, b: set<T>)
    requires forall j :: j in js ==> (j in a <==> j in b)
    ensures Without(js, a) == Without(js, b)
  {
    if js != [] {
      assert forall j :: j in js[1..] ==> j in js;
      WithoutSame(js[1..], a, b);
    }
  }

  /** A pass leaves exactly the jobs that were not processed and reported done, in their
      old order. */
  lemma {:induction false} PassExact<T>(js: seq<T>, done: set<T>)
    requires Distinct(js)
    ensures Kept(js, done) == Without(js, Reported(js, done))
    decreases |js|
  {
    if js == [] {
    } else if js[0] !in done {
      var rest := js[1..];
      PassExact(rest, done);
      assert Processed(js, done) == [js[0]] + Processed(rest, done);
      WithoutSame(rest, Reported(rest, done), Reported(js, done));
    } else if |js| == 1 {
      assert js[0] in Processed(js, done);
    } else {
      PassSkips(js, done);
    }
  }

  lemma PassSkips<T>(js: seq<T>, done: set<T>)
    requires Distinct(js) && |js| > 1 && js[0] in done
    ensures Kept(js, done) == Without(js, Reported(js, done))
    decreases |js|, 0
  {
    var rest := js[2..];
    PassExact(rest, done);
    ProcessedFrom(rest, done);
    assert Processed(js, done) == [js[0]] + Processed(rest, done);
    WithoutSame(rest, Reported(rest, done), Reported(js, done));
    assert js[1..][1..] == rest && js[1..][0] == js[1];
    assert Without(js[1..], Reported(js, done)) == [js[1]] + Without(rest, Reported(js, done));
  }

  /** A job that a pass steps over is still in the list, nearer to its head. */
  lemma {:induction false} SkippedMovesUp<T>(js: seq<T>, done: set<T>, i: nat) returns (at: nat)
    requires i < |js| && js[i] !in Processed(js, done)
    ensures at < i && at < |Kept(js, done)| && Kept(js, done)[at] == js[i]
    decreases |js|
  {
    if js[0] !in done {
      at := SkippedMovesUp(js[1..], done, i - 1);
      at := at + 1;
    } else if i == 1 {
      at := 0;
    } else {
      at := SkippedMovesUp(js[2..], done, i - 2);
      at := at + 1;
    }
  }

  /** The list before pass k, when pass m reports the jobs of `verdicts[m]` as done. */
  function ListAt<T(==)>(js: seq<T>, verdicts: seq<set<T>>, k: nat): seq<T>
    requires k <= |verdicts|
    decreases k
  {
    if k == 0 then js else ListAt(Kept(js, verdicts[0]), verdicts[1..], k - 1)
  }

  /** With nothing new posted, the job at index i is processed within i + 1 passes,
      whatever the passes report. */
  lemma {:induction false} ProcessedWithin<T>(js: seq<T>, verdicts: seq<set<T>>, i: nat) returns (k: nat)
    requires i < |js| && i < |verdicts|
    ensures k <= i && js[i] in Processed(ListAt(js, verdicts, k), verdicts[k])
    decreases i
  {
    if js[i] in Processed(js, verdicts[0]) {
      k := 0;
    } else {
      var at := SkippedMovesUp(js, verdicts[0], i);
      var rest := ProcessedWithin(Kept(js, verdicts[0]), verdicts[1..], at);
      k := rest + 1;
    }
  }

  /** Mid-pass: the first k jobs are settled, the rest is still to be walked. */
  ghost predicate Midway<T>(js: seq<T>, done: set<T>, now: seq<T>, k: nat, processed: seq<T>) {
    && k <= |now|
    && Kept(js, done) == now[..k] + Kept(now[k..], done)
    && Processed(js, done) == processed + Processed(now[k..], done)
  }

  lemma MidwayStart<T>(js: seq<T>, done: set<T>)
    ensures Midway(js, done, js, 0, [])
  {
    assert js[0..] == js;
  }

  lemma MidwayEnd<T>(js: seq<T>, done: set<T>, now: seq<T>, k: nat, processed: seq<T>)
    requires Midway(js, done, now, k, processed) && k == |now|
    ensures now == Kept(js, done) && processed == Processed(js, done)
  {
    assert now[k..] == [] && now[..k] == now;
  }

  lemma KeepStep<T>(js: seq<T>, done: set<T>, now: seq<T>, k: nat, processed: seq<T>)
    requires Midway(js, done, now, k, processed) && k < |now| && now[k] !in done
    ensures Midway(js, done, now, k + 1, processed + [now[k]])
  {
    var rest := now[k..];
    assert rest[0] == now[k] && rest[1..] == now[k + 1..] && now[..k] + [now[k]] == now[..k + 1];
  }

  lemma DropStep<T>(js: seq<T>, done: set<T>, now: seq<T>, k: nat, processed: seq<T>)
    requires Midway(js, done, now, k, processed) && k < |now| && now[k] in done
    ensures var then_ := now[..k] + now[k + 1..];
      Midway(js, done, then_, if k + 1 == |now| then k else k + 1, processed + [now[k]])
  {
    var rest, then_ := now[k..], now[..k] + now[k + 1..];
    assert rest[0] == now[k];
    if k + 1 == |now| {
      assert then_[k..] == [] && then_[..k] == now[..k];
    } else {
      assert rest[1] == now[k + 1] && rest[2..] == then_[k + 1..];
      assert then_[..k + 1] == now[..k] + [now[k + 1]];
    }
  }

  ghost function Splice<T>(s: seq<T>, k: nat): seq<T>
    requires k < |s|
  { s[..k] + s[k + 1..] }

  lemma SpliceFacts<T>(s: seq<T>, k: nat)
    requires k < |s| && Distinct(s)
    ensures Distinct(Splice(s, k)) && s[k] !in Splice(s, k) && forall h :: h in Splice(s, k) ==> h in s
    ensures forall i :: 0 <= i < |s| - 1 ==> Splice(s, k)[i] == if i < k then s[i] else s[i + 1]
  {
  }

  /** The same with the jobs reported done so far: none of them is still in the list. */
  ghost predicate Track<T>(js: seq<T>, done: set<T>, now: seq<T>, k: nat, processed: seq<T>, gone: set<T>) {
    && Midway(js, done, now, k, processed) && Distinct(now)
    && gone == DoneAmong(processed, done)
    && forall h :: h in now ==> h in js && h !in gone
  }

  lemma KeepTrack<T>(js: seq<T>, done: set<T>, now: seq<T>, k: nat, processed: seq<T>, gone: set<T>)
    requires Track(js, done, now, k, processed, gone) && k < |now| && now[k] !in done
    ensures Track(js, done, now, k + 1, processed + [now[k]], gone)
  {
    KeepStep(js, done, now, k, processed);
    assert DoneAmong(processed + [now[k]], done) == gone;
  }

  lemma DropTrack<T>(js: seq<T>, done: set<T>, now: seq<T>, k: nat, processed: seq<T>, gone: set<T>)
    requires Track(js, done, now, k, processed, gone) && k < |now| && now[k] in done
    ensures Track(js, done, Splice(now, k), if k + 1 == |now| then k else k + 1, processed + [now[k]], gone + {now[k]})
  {
    DropStep(js, done, now, k, processed);
    SpliceFacts(now, k);
    assert DoneAmong(processed + [now[k]], done) == gone + {now[k]};
  }

  lemma TrackEnd<T>(js: seq<T>, done: set<T>, now: seq<T>, k: nat, processed: seq<T>, gone: set<T>)
    requires Track(js, done, now, k, processed, gone) && k == |now|
    ensures now == Kept(js, done) && processed == Processed(js, done) && gone == Reported(js, done)
    ensures forall h :: h in gone ==> h !in now
  {
    MidwayEnd(js, done, now, k, processed);
  }

  // ---------- the linked lists ----------

  class Header {
    var next: Header?
    constructor () { next := null; }
  }

  /** Reading and writing a header's link, allowed while its memory is not gone. */
  method Link(h: Header, ghost gone: set<Header>) returns (n: Header?)
    requires h !in gone
    ensures n == h.next
  { n := h.next; }

  method SetLink(h: Header, n: Header?, ghost gone: set<Header>)
    requires h !in gone
    modifies h
    ensures h.next == n
  { h.next := n; }

  lemma DistinctAppend<T>(a: seq<T>, b: seq<T>)
    requires Distinct(a) && Distinct(b) && forall x :: x in b ==> x !in a
    ensures Distinct(a + b)
  {
    assert forall j :: 0 <= j < |b| ==> b[j] in b;
  }

  /** What the link of node `i` of a list should be. */
  ghost function After(ns: seq<Header>, i: int): Header?
    requires 0 <= i < |ns|
  { if i == |ns| - 1 then null else ns[i + 1] }

  /** `ns` are the nodes from `first` to a null link. */
  ghost predicate Chain(ns: seq<Header>, first: Header?)
    reads ns
  {
    && first == (if ns == [] then null else ns[0])
    && Distinct(ns)
    && forall i :: 0 <= i < |ns| ==> ns[i].next == After(ns, i)
  }

  /** The same, whatever the link of node k. */
  ghost predicate ChainBut(ns: seq<Header>, first: Header?, k: int)
    reads ns
  {
    && first == (if ns == [] then null else ns[0])
    && Distinct(ns)
    && forall i :: 0 <= i < |ns| && i != k ==> ns[i].next == After(ns, i)
  }

  /** reporter_process_report: a job that it reports done has been released, so nothing is
      known of that header's link afterwards. */
  method Process(h: Header, done: set<Header>, ghost gone: set<Header>) returns (finished: bool)
    requires h !in gone
    modifies h
    ensures finished <==> h in done
    ensures !finished ==> h.next == old(h.next)
  {
    finished := h in done;
    if finished { h.next := h; }
  }

  /** ReportPendingHead and ReportPendingTail. */
  class PendingList {
    var head: Header?
    var tail: Header?
    ghost var jobs: seq<Header>

    ghost predicate Valid()
      reads this, jobs
    { Chain(jobs, head) && tail == if jobs == [] then null else jobs[|jobs| - 1] }

    constructor ()
      ensures Valid() && jobs == []
    {
      head, tail, jobs := null, null, [];
    }

    /** PostReport: append. */
    method Post(h: Header)
      requires Valid() && h !in jobs
      modifies this, h, jobs
      ensures Valid() && jobs == old(jobs) + [h]
    {
      ghost var js := jobs;
      h.next := null;
      if head == null {
        head := h;
        tail := h;
      } else {
        tail.next := h;
        tail := h;
      }
      jobs := js + [h];
      forall i | 0 <= i < |jobs| ensures jobs[i].next == After(jobs, i) {
        if i < |js| - 1 { assert old(js[i].next) == After(js, i); }
      }
    }
  }

  /** ReportRoot. */
  class JobList {
    var root: Header?
    ghost var jobs: seq<Header>

    ghost predicate Valid()
      reads this, jobs
    { Chain(jobs, root) }

    constructor ()
      ensures Valid() && jobs == []
    {
      root, jobs := null, [];
    }

    /** reporter_jobq_set_root: the pending list goes in front of the job list. */
    method SetRoot(pending: PendingList) returns (head: Header?)
      requires Valid() && pending.Valid() && forall h :: h in jobs ==> h !in pending.jobs
      modifies this, pending, pending.jobs
      ensures Valid() && pending.Valid() && jobs == old(pending.jobs) + old(jobs) && pending.jobs == []
      ensures head == root && (head == null <==> jobs == [])
    {
      if pending.head != null {
        ghost var p, js := pending.jobs, jobs;
        pending.tail.next := root;
        root := pending.head;
        pending.head, pending.tail := null, null;
        jobs, pending.jobs := p + js, [];
        DistinctAppend(p, js);
        forall i | 0 <= i < |jobs| ensures jobs[i].next == After(jobs, i) {
          if i >= |p| {
            assert js[i - |p|] in js;
            assert old(js[i - |p|].next) == After(js, i - |p|);
          } else if i < |p| - 1 {
            assert old(p[i].next) == After(p, i);
          }
        }
      }
      head := root;
    }

    /** `work_item` addresses the link to the job at index `k`; `prev` null stands for
        &ReportRoot, else it is &prev->next.  `cur` is *work_item. */
    ghost predicate Cursor(prev: Header?, cur: Header?, k: nat)
      reads this
    {
      && k <= |jobs| && cur == (if k == |jobs| then null else jobs[k])
      && prev == (if k == 0 then null else jobs[k - 1])
    }

    /** *work_item = tmp. */
    method Unlink(prev: Header?, tmp: Header?, ghost k: nat, ghost gone: set<Header>)
      requires ChainBut(jobs, root, k) && k < |jobs| && Cursor(prev, jobs[k], k)
      requires tmp == After(jobs, k) && prev !in gone
      modifies this`root, this`jobs, if k == 0 then {} else {jobs[k - 1]}
      ensures Valid() && jobs == Splice(old(jobs), k) && Cursor(prev, tmp, k)
    {
      ghost var js := jobs;
      SpliceFacts(js, k);
      if prev == null { root := tmp; } else { SetLink(prev, tmp, gone); }
      jobs := Splice(js, k);
      forall i | 0 <= i < |jobs| ensures jobs[i].next == After(jobs, i) {
        if i >= k {
          assert old(js[i + 1].next) == After(js, i + 1);
        } else if i < k - 1 {
          assert old(js[i].next) == After(js, i);
        }
      }
    }

    /** work_item = &(*work_item)->next. */
    method Advance(cur: Header, ghost k: nat, ghost gone: set<Header>) returns (next: Header?)
      requires Valid() && k < |jobs| && cur == jobs[k] && cur !in gone
      ensures Cursor(cur, next, k + 1)
    {
      next := Link(cur, gone);
      assert next == After(jobs, k);
    }

    /** The job under the cursor was reported done: link it out and step over its
        successor. */
    method Drop(prev: Header?, cur: Header, tmp: Header?, ghost k: nat, ghost gone: set<Header>)
      returns (next: Header?)
      requires ChainBut(jobs, root, k) && k < |jobs| && Cursor(prev, cur, k) && tmp == After(jobs, k)
      requires forall h :: h in jobs ==> h !in gone || h == cur
      modifies this`root, this`jobs, if k == 0 then {} else {jobs[k - 1]}
      ensures Valid() && jobs == Splice(old(jobs), k) && (tmp == null <==> k == |jobs|)
      ensures tmp != null ==> Cursor(tmp, next, k + 1)
    {
      SpliceFacts(jobs, k);
      assert prev != null ==> prev in jobs && prev != cur;
      Unlink(prev, tmp, k, gone);
      next := null;
      if tmp != null {
        assert tmp in jobs;
        next := Advance(tmp, k, gone);
      }
    }

    /** Where a pass over the list `js` stands: cursor at index k, `gone` exactly the headers
        reported done so far. */
    ghost predicate Walking(js: seq<Header>, done: set<Header>, prev: Header?, cur: Header?, k: nat,
        processed: seq<Header>, gone: set<Header>)
      reads this, jobs
    {
      Valid() && Cursor(prev, cur, k) && Track(js, done, jobs, k, processed, gone)
    }

    /** The turn of a job that stays. */
    method Keep(prev: Header?, cur: Header, done: set<Header>, ghost js: seq<Header>, ghost k: nat,
        ghost processed: seq<Header>, ghost gone: set<Header>)
      returns (cur': Header?)
      requires Walking(js, done, prev, cur, k, processed, gone) && cur !in done
      ensures Walking(js, done, cur, cur', k + 1, processed + [cur], gone)
    {
      assert cur in jobs;
      KeepTrack(js, done, jobs, k, processed, gone);
      cur' := Advance(cur, k, gone);
    }

    /** The turn of a job reported done: its link was read before, its header is gone. */
    method Remove(prev: Header?, cur: Header, tmp: Header?, done: set<Header>, ghost js: seq<Header>, ghost k: nat,
        ghost processed: seq<Header>, ghost gone: set<Header>)
      returns (prev': Header?, cur': Header?, ghost k': nat)
      requires ChainBut(jobs, root, k) && Cursor(prev, cur, k) && Track(js, done, jobs, k, processed, gone)
      requires k < |jobs| && cur in done && tmp == After(jobs, k)
      modifies this`root, this`jobs, if k == 0 then {} else {jobs[k - 1]}
      ensures Walking(js, done, prev', cur', k', processed + [cur], gone + {cur})
      ensures |jobs| - k' < old(|jobs|) - k
    {
      DropTrack(js, done, jobs, k, processed, gone);
      cur' := Drop(prev, cur, tmp, k, gone + {cur});
      if tmp == null { return prev, null, k; }
      prev', k' := tmp, k + 1;
    }

    /** One turn of the loop: the link is read, the job processed, and a job reported done
        counts as gone from then on. */
    method Visit(prev: Header?, cur: Header, done: set<Header>, ghost js: seq<Header>, ghost k: nat,
        ghost processed: seq<Header>, ghost gone: set<Header>)
      returns (prev': Header?, cur': Header?, ghost k': nat, ghost gone': set<Header>)
      requires Walking(js, done, prev, cur, k, processed, gone)
      modifies this`root, this`jobs, js
      ensures Walking(js, done, prev', cur', k', processed + [cur], gone')
      ensures gone' == gone + if cur in done then {cur} else {}
      ensures |jobs| - k' < old(|jobs|) - k
    {
      assert cur in jobs;
      JobsWithin(js, done, k, processed, gone);
      var tmp := Link(cur, gone);
      var finished := Process(cur, done, gone);
      if finished {
        gone' := gone + {cur};
        prev', cur', k' := Remove(prev, cur, tmp, done, js, k, processed, gone);
      } else {
        gone' := gone;
        cur' := Keep(prev, cur, done, js, k, processed, gone);
        prev', k' := cur, k + 1;
      }
    }

    /** One pass over the job list.  `gone` are exactly the headers reported done, whose
        memory may have been released; links are read and written only of headers that are
        not gone. */
    method Pass(done: set<Header>) returns (ghost processed: seq<Header>, ghost gone: set<Header>)
      requires Valid()
      modifies this`root, this`jobs, jobs
      ensures Valid() && jobs == Kept(old(jobs), done) && processed == Processed(old(jobs), done)
      ensures gone == Reported(old(jobs), done) && forall h :: h in gone ==> h !in jobs
    {
      ghost var js, k := jobs, 0;
      processed, gone := [], {};
      var prev: Header?, cur: Header?;
      prev, cur := null, root;
      MidwayStart(jobs, done);
      while cur != null
        invariant Walking(js, done, prev, cur, k, processed, gone)
        decreases |jobs| - k
      {
        ghost var visited := cur;
        prev, cur, k, gone := Visit(prev, cur, done, js, k, processed, gone);
        processed := processed + [visited];
      }
      TrackEnd(js, done, jobs, k, processed, gone);
    }

    lemma JobsWithin(js: seq<Header>, done: set<Header>, k: nat, processed: seq<Header>, gone: set<Header>)
      requires Track(js, done, jobs, k, processed, gone)
      ensures k > 0 ==> jobs[k - 1] in js
    {
      assert k > 0 ==> jobs[k - 1] in jobs;
    }
  }
}
