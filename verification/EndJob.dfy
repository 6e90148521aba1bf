/** The end-of-job handshake between a traffic thread and the reporter thread
    (EndJob, reporter_process_transfer_report and the DATA_REPORT case of
    reporter_process_report in jni/src/Reporter.c), over every interleaving.

    Each ring operation is one step.  Leaving a ring early through advance_jobq is a
    reporter pass of fewer dequeue steps. */
module EndJob {
  import opened Basics
  import opened PacketRing

  /** A report with its packet id; `n` numbers the enqueue calls of the thread. */
  datatype Packet = Packet(id: int, n: nat)

  /** The traffic thread: sending, in EndJob before the end marker, waiting on
      consumerdone, out of the wait. */
  datatype Traffic = Sending | Ending | Waiting | Returned

  /** The reporter on this job: in its list, past the end marker, signalled and removed. */
  datatype Reporter = Listed | Finishing | Removed

  datatype State = State(
    ring: Ring<Packet>, traffic: Traffic, reporter: Reporter, consumerdone: bool,
    sent: seq<Packet>,       // every packet enqueued so far
    accounted: seq<Packet>,  // every packet handed to the packet handlers
    lost: nat)               // packets dropped from the ring by overruns

  ghost predicate Init(s: State) {
    && s.ring.Valid() && s.ring.producer == s.ring.consumer == 0
    && s.traffic == Sending && s.reporter == Listed && !s.consumerdone
    && s.sent == [] && s.accounted == [] && s.lost == 0
  }

  function Store(s: State, id: int): State
    requires s.ring.producer < |s.ring.data| && s.ring.consumer < |s.ring.data|
  {
    var p := Packet(id, |s.sent|);
    s.(ring := s.ring.Enqueue(p), sent := s.sent + [p],
       lost := s.lost + if s.ring.Overruns() then s.ring.Depth() + 1 else 0)
  }

  /** ReportPacket with a packet id that is not negative. */
  ghost predicate Send(s: State, t: State, id: int) {
    s.traffic == Sending && id >= 0 && s.ring.Valid() && !s.ring.Full() && t == Store(s, id)
  }

  /** EndJob clears the predicate before it enqueues the marker. */
  ghost predicate ClearDone(s: State, t: State) {
    s.traffic == Sending && t == s.(traffic := Ending, consumerdone := false)
  }

  ghost predicate SendMarker(s: State, t: State) {
    s.traffic == Ending && s.ring.Valid() && !s.ring.Full() && t == Store(s, -1).(traffic := Waiting)
  }

  /** One turn of the dequeue loop: account the packet; a negative id ends the job. */
  ghost predicate Account(s: State, t: State) {
    && s.reporter == Listed && s.ring.Valid() && s.ring.Dequeue().0.Some?
    && var p := s.ring.Dequeue().0.value;
      t == s.(ring := s.ring.Dequeue().1, accounted := s.accounted + [p],
              reporter := if p.id < 0 then Finishing else Listed)
  }

  ghost predicate Signal(s: State, t: State) {
    s.reporter == Finishing && t == s.(consumerdone := true, reporter := Removed)
  }

  ghost predicate Return(s: State, t: State) {
    s.traffic == Waiting && s.consumerdone && t == s.(traffic := Returned)
  }

  ghost predicate Next(s: State, t: State) {
    (exists id :: Send(s, t, id)) || ClearDone(s, t) || SendMarker(s, t) || Account(s, t) || Signal(s, t) || Return(s, t)
  }

  ghost predicate Run(tr: seq<State>) {
    |tr| > 0 && Init(tr[0]) && forall i :: 0 <= i < |tr| - 1 ==> Next(tr[i], tr[i + 1])
  }

  // ---------- the invariant ----------

  /** Packets in `q` are packets of `sent`, each at most once, in sending order. */
  ghost predicate InOrder(q: seq<Packet>, sent: seq<Packet>) {
    && (forall i :: 0 <= i < |q| ==> q[i].n < |sent| && sent[q[i].n] == q[i])
    && (forall i, j :: 0 <= i < j < |q| ==> q[i].n < q[j].n)
  }

  /** Only the last packet can be the end marker. */
  ghost predicate MarkerLast(q: seq<Packet>) { forall i :: 0 <= i < |q| - 1 ==> q[i].id >= 0 }

  /** No packet is repeated, reordered or unaccounted for, and the marker is sent last. */
  ghost predicate DataInv(ring: Ring<Packet>, sent: seq<Packet>, accounted: seq<Packet>, lost: nat) {
    && ring.Valid()
    && var all := accounted + ring.Queued();
    && InOrder(all, sent) && |all| + lost == |sent| && MarkerLast(sent)
  }

  ghost predicate Inv(s: State) {
    && DataInv(s.ring, s.sent, s.accounted, s.lost)
    && (s.traffic.Sending? || s.traffic.Ending? <==> !EndsWithMarker(s.sent))
    && (s.reporter.Listed? <==> !EndsWithMarker(s.accounted))
    && (s.consumerdone <==> s.reporter.Removed?)
    && (s.traffic.Returned? ==> s.consumerdone)
    && (s.traffic.Sending? || s.traffic.Ending? ==> s.reporter.Listed?)
    && (s.traffic.Waiting? ==> Stuck(s) || EndsWithMarker(s.accounted + s.ring.Queued()))
  }

  ghost predicate EndsWithMarker(q: seq<Packet>) { q != [] && q[|q| - 1].id < 0 }

  /** The traffic thread waits for a reporter that has nothing left to take. */
  ghost predicate Stuck(s: State) {
    s.traffic.Waiting? && !s.consumerdone && s.reporter.Listed? && s.ring.Valid() && s.ring.Queued() == []
  }

  lemma InOrderGrow(q: seq<Packet>, sent: seq<Packet>, p: Packet)
    requires InOrder(q, sent) && p.n == |sent|
    ensures InOrder(q, sent + [p]) && InOrder(q + [p], sent + [p])
  {
  }

  lemma InOrderPrefix(q: seq<Packet>, r: seq<Packet>, sent: seq<Packet>)
    requires InOrder(q + r, sent)
    ensures InOrder(q, sent)
  {
    assert forall i :: 0 <= i < |q| ==> q[i] == (q + r)[i];
  }

  lemma StoreQueue(s: State, id: int)
    requires s.ring.Valid() && !s.ring.Full()
    ensures var t, p := Store(s, id), Packet(id, |s.sent|);
      && t.ring.Valid()
      && t.accounted + t.ring.Queued() ==
        if s.ring.Overruns() then s.accounted else s.accounted + s.ring.Queued() + [p]
  {
    var p := Packet(id, |s.sent|);
    EnqueueExact(s.ring, p);
    assert s.accounted + (s.ring.Queued() + [p]) == s.accounted + s.ring.Queued() + [p];
  }

  lemma MarkerGrow(s: State, p: Packet)
    requires Inv(s) && (s.traffic.Sending? || s.traffic.Ending?)
    ensures MarkerLast(s.sent + [p])
  {
  }

  lemma StoreInv(s: State, id: int)
    requires Inv(s) && !s.ring.Full() && (s.traffic.Sending? || s.traffic.Ending?)
    ensures var t := Store(s, id); var all := t.accounted + t.ring.Queued();
      && t.ring.Valid() && InOrder(all, t.sent) && |all| + t.lost == |t.sent| && MarkerLast(t.sent)
  {
    var p, queued := Packet(id, |s.sent|), s.ring.Queued();
    StoreQueue(s, id);
    MarkerGrow(s, p);
    if s.ring.Overruns() {
      InOrderPrefix(s.accounted, queued, s.sent);
      InOrderGrow(s.accounted, s.sent, p);
    } else {
      InOrderGrow(s.accounted + queued, s.sent, p);
    }
  }

  /** The first marker in an in-order list is its end, because it is the end of `sent`. */
  lemma MarkerEnds(q: seq<Packet>, sent: seq<Packet>, i: nat)
    requires InOrder(q, sent) && MarkerLast(sent) && i < |q| && q[i].id < 0
    ensures i == |q| - 1
  {
    assert q[i].n == |sent| - 1 && q[|q| - 1].n <= |sent| - 1;
  }

  /** Accounting moves the boundary in the list of packets, not the list. */
  lemma AccountList(s: State, t: State)
    requires s.ring.Valid() && Account(s, t)
    ensures t.ring.Valid() && t.accounted + t.ring.Queued() == s.accounted + s.ring.Queued()
    ensures t.accounted[|t.accounted| - 1] == s.ring.Dequeue().0.value
  {
    DequeueExact(s.ring);
    var p := s.ring.Dequeue().0.value;
    assert s.accounted + ([p] + t.ring.Queued()) == s.accounted + [p] + t.ring.Queued();
  }

  lemma AccountInv(s: State, t: State)
    requires Inv(s) && Account(s, t)
    ensures Inv(t)
  {
    AccountList(s, t);
    DequeueExact(s.ring);
    var all := s.accounted + s.ring.Queued();
    assert all[|s.accounted|] == s.ring.Dequeue().0.value;
  }

  lemma SendInv(s: State, t: State, id: int)
    requires Inv(s) && Send(s, t, id)
    ensures Inv(t)
  {
    StoreInv(s, id);
  }

  lemma MarkerInv(s: State, t: State)
    requires Inv(s) && SendMarker(s, t)
    ensures Inv(t)
  {
    StoreInv(s, -1);
    StoreQueue(s, -1);
    EnqueueExact(s.ring, Packet(-1, |s.sent|));
  }

  lemma StepInv(s: State, t: State)
    requires Inv(s) && Next(s, t)
    ensures Inv(t)
  {
    if id :| Send(s, t, id) {
      SendInv(s, t, id);
    } else if SendMarker(s, t) {
      MarkerInv(s, t);
    } else if Account(s, t) {
      AccountInv(s, t);
    } else {
      FlagInv(s, t);
    }
  }

  lemma FlagInv(s: State, t: State)
    requires Inv(s) && (ClearDone(s, t) || Signal(s, t) || Return(s, t))
    ensures Inv(t)
  {
  }

  lemma {:induction false} RunInv(tr: seq<State>)
    requires Run(tr)
    ensures Inv(tr[|tr| - 1])
  {
    if |tr| == 1 {
      assert tr[0].ring.Queued() == [];
    } else {
      RunInv(tr[..|tr| - 1]);
      StepInv(tr[|tr| - 2], tr[|tr| - 1]);
    }
  }

  // ---------- the results ----------

  /** When EndJob stops waiting, for every interleaving: nothing is left in the ring, what
      was accounted is in order and without repetition, and it is everything that was
      enqueued, the end marker last, exactly when no enqueue overran the ring. */
  lemma EndJobAccountsAll(tr: seq<State>)
    requires Run(tr) && tr[|tr| - 1].traffic.Returned?
    ensures var s := tr[|tr| - 1];
      && s.ring.Valid() && s.ring.Queued() == [] && InOrder(s.accounted, s.sent)
      && |s.accounted| + s.lost == |s.sent|
      && (s.accounted == s.sent <==> s.lost == 0)
  {
    RunInv(tr);
    var s := tr[|tr| - 1];
    var all := s.accounted + s.ring.Queued();
    assert all[|s.accounted| - 1] == s.accounted[|s.accounted| - 1];
    MarkerEnds(all, s.sent, |s.accounted| - 1);
    assert all == s.accounted;
    if s.lost == 0 { InOrderFull(s.accounted, s.sent); }
  }

  /** An in-order selection of full length is the whole list. */
  lemma InOrderFull(q: seq<Packet>, sent: seq<Packet>)
    requires InOrder(q, sent) && |q| == |sent|
    ensures q == sent
  {
    forall i | 0 <= i < |q| ensures q[i].n == i { Climb(q, sent, i); }
  }

  lemma {:induction false} Climb(q: seq<Packet>, sent: seq<Packet>, i: nat)
    requires InOrder(q, sent) && i < |q| && |q| == |sent|
    ensures i <= q[i].n
    ensures q[i].n <= i
  {
    AtLeast(q, sent, i);
    AtMost(q, sent, i);
  }

  lemma {:induction false} AtLeast(q: seq<Packet>, sent: seq<Packet>, i: nat)
    requires InOrder(q, sent) && i < |q|
    ensures i <= q[i].n
  {
    if i > 0 { AtLeast(q, sent, i - 1); assert q[i - 1].n < q[i].n; }
  }

  lemma {:induction false} AtMost(q: seq<Packet>, sent: seq<Packet>, i: nat)
    requires InOrder(q, sent) && i < |q| && |q| == |sent|
    ensures q[i].n <= i
    decreases |q| - i
  {
    if i < |q| - 1 { AtMost(q, sent, i + 1); assert q[i].n < q[i + 1].n; }
  }

  /** A step of the traffic thread that stores into a ring on the point of overrunning. */
  ghost predicate OverrunStep(s: State, t: State) { s.ring.Overruns() && t.sent != s.sent }

  lemma StepLoss(s: State, t: State)
    requires Next(s, t)
    ensures t.lost >= s.lost && (t.lost == s.lost <==> !OverrunStep(s, t))
  {
  }

  /** Packets are lost in a run exactly when some enqueue overran the ring. */
  lemma {:induction false} LossIsOverrun(tr: seq<State>, k: nat)
    requires Run(tr) && k < |tr|
    ensures tr[k].lost == 0 <==> forall i :: 0 <= i < k ==> !OverrunStep(tr[i], tr[i + 1])
    decreases k
  {
    if k > 0 {
      LossIsOverrun(tr, k - 1);
      assert Next(tr[k - 1], tr[k - 1 + 1]);
      StepLoss(tr[k - 1], tr[k]);
      assert OverrunStep(tr[k - 1], tr[k]) == OverrunStep(tr[k - 1], tr[k - 1 + 1]);
    }
  }

  /** The end marker itself can be what overruns; then EndJob waits for ever. */
  lemma LostMarkerSticks(s: State, t: State)
    requires Inv(s) && SendMarker(s, t) && s.ring.Overruns()
    ensures Stuck(t) && !exists u :: Next(t, u)
  {
    StepInv(s, t);
    EnqueueExact(s.ring, Packet(-1, |s.sent|));
    DequeueExact(t.ring);
  }

  ghost predicate MarkerOverrun(s: State, t: State) { SendMarker(s, t) && s.ring.Overruns() }

  /** The only way into the stuck state is a marker that overruns. */
  lemma OnlyMarkerSticks(s: State, t: State)
    requires Inv(s) && Next(s, t) && Stuck(t)
    ensures MarkerOverrun(s, t)
  {
    DequeueExact(s.ring);
    if SendMarker(s, t) {
      EnqueueExact(s.ring, Packet(-1, |s.sent|));
    } else if Account(s, t) {
      AccountList(s, t);
    }
  }

  lemma StuckHasCause(tr: seq<State>)
    requires Run(tr) && Stuck(tr[|tr| - 1])
    ensures |tr| > 1 && MarkerOverrun(tr[|tr| - 2], tr[|tr| - 1])
  {
    var n := |tr| - 1;
    RunInv(tr[..n]);
    assert Next(tr[n - 1], tr[n - 1 + 1]);
    OnlyMarkerSticks(tr[n - 1], tr[n]);
  }

  lemma OverrunIsLast(tr: seq<State>, i: nat)
    requires Run(tr) && i < |tr| - 1 && MarkerOverrun(tr[i], tr[i + 1])
    ensures i + 1 == |tr| - 1 && Stuck(tr[i + 1])
  {
    var pre := tr[..i + 1];
    assert Run(pre) && pre[|pre| - 1] == tr[i];
    RunInv(pre);
    assert i + 1 < |tr| - 1 ==> Next(tr[i + 1], tr[i + 1 + 1]);
    LostMarkerSticks(tr[i], tr[i + 1]);
  }

  /** Over every run, whatever was lost before: EndJob is stuck if and only if its marker
      overran the ring. */
  lemma StuckIffMarkerOverran(tr: seq<State>)
    requires Run(tr)
    ensures Stuck(tr[|tr| - 1]) <==> exists i :: 0 <= i < |tr| - 1 && MarkerOverrun(tr[i], tr[i + 1])
  {
    if Stuck(tr[|tr| - 1]) {
      StuckHasCause(tr);
      var i := |tr| - 2;
      assert MarkerOverrun(tr[i], tr[i + 1]);
    }
    if i :| 0 <= i < |tr| - 1 && MarkerOverrun(tr[i], tr[i + 1]) {
      OverrunIsLast(tr, i);
    }
  }

  /** A run that fills a fresh ring of n slots up to the last one, with nobody reading. */
  lemma {:induction false} FillRun(n: nat, k: nat) returns (tr: seq<State>)
    requires k < n
    ensures Run(tr)
    ensures var s := tr[|tr| - 1];
      && s.ring.Valid() && |s.ring.data| == n && s.ring.producer == k && s.ring.consumer == 0
      && s.traffic.Sending? && s.reporter.Listed?
  {
    if k == 0 {
      var data := seq(n, _ => Packet(0, 0));
      tr := [State(Ring(data, 0, 0), Sending, Listed, false, [], [], 0)];
    } else {
      var pre := FillRun(n, k - 1);
      var s := pre[|pre| - 1];
      tr := Extend(pre, Store(s, 0), 0);
    }
  }

  lemma Extend(pre: seq<State>, t: State, id: int) returns (tr: seq<State>)
    requires Run(pre)
    requires var s := pre[|pre| - 1]; Send(s, t, id) || ClearDone(s, t) || SendMarker(s, t)
    ensures tr == pre + [t] && Run(tr)
  {
    tr := pre + [t];
    forall i | 0 <= i < |tr| - 1 ensures Next(tr[i], tr[i + 1]) {
      if i < |pre| - 1 { assert Next(pre[i], pre[i + 1]); }
    }
  }

  /** It happens for every capacity. */
  lemma MarkerCanStick(n: nat) returns (tr: seq<State>)
    requires n > 0
    ensures Run(tr) && |tr[0].ring.data| == n && Stuck(tr[|tr| - 1])
  {
    var filled := FillRun(n, n - 1);
    var s := filled[|filled| - 1];
    var t := s.(traffic := Ending, consumerdone := false);
    var ending := Extend(filled, t, 0);
    var u := Store(t, -1).(traffic := Waiting);
    tr := Extend(ending, u, 0);
    RunInv(ending);
    LostMarkerSticks(t, u);
    SameCapacity(filled);
  }

  lemma {:induction false} SameCapacity(tr: seq<State>)
    requires Run(tr)
    ensures |tr[0].ring.data| == |tr[|tr| - 1].ring.data|
  {
    if |tr| > 1 {
      SameCapacity(tr[..|tr| - 1]);
      assert Next(tr[|tr| - 2], tr[|tr| - 2 + 1]);
    }
  }

  /** Work the reporter still has to do before the traffic thread can go on. */
  function Pending(s: State): nat
    requires s.ring.producer < |s.ring.data| && s.ring.consumer < |s.ring.data|
  { 2 * s.ring.Depth() + if s.reporter.Removed? then 0 else 1 }

  /** Until consumerdone is set the reporter has a step if and only if EndJob is not stuck,
      and each of its steps leaves less to do: EndJob stops waiting in every run whose marker
      did not overrun. */
  lemma EndJobProgress(s: State)
    requires Inv(s) && s.traffic.Waiting? && !s.consumerdone
    ensures (exists t :: Next(s, t)) <==> !Stuck(s)
    ensures forall t :: Next(s, t) ==> t.ring.Valid() && Pending(t) < Pending(s)
  {
    DequeueExact(s.ring);
    var all := s.accounted + s.ring.Queued();
    if s.reporter.Finishing? {
      assert Signal(s, s.(consumerdone := true, reporter := Removed));
      assert Next(s, s.(consumerdone := true, reporter := Removed));
      assert all[|s.accounted| - 1] == s.accounted[|s.accounted| - 1];
    } else if s.ring.Queued() != [] {
      var p := s.ring.Dequeue().0.value;
      var t := s.(ring := s.ring.Dequeue().1, accounted := s.accounted + [p],
                  reporter := if p.id < 0 then Finishing else Listed);
      assert Account(s, t) && Next(s, t);
    }
  }
}
