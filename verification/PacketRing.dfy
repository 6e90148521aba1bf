/** The packet ring between a traffic thread and the reporter thread
    (jni/src/packet_ring.c): one producer, one consumer, one slot kept free. */
module PacketRing {
  import opened Basics

  /** The slots after c up to p, around the end if need be. */
  function Slots<T>(d: seq<T>, p: nat, c: nat): (q: seq<T>)
    requires p < |d| && c < |d|
    ensures |q| == if p >= c then p - c else |d| - c + p
  { if p >= c then d[c + 1..p + 1] else d[c + 1..] + d[..p + 1] }

  /** `|data|` is maxcount; the slot at `consumer` was read last. */
  datatype Ring<T> = Ring(data: seq<T>, producer: nat, consumer: nat) {
    ghost predicate Valid() { producer < |data| && consumer < |data| }

    /** The index after `i`, wrapping at maxcount. */
    function After(i: nat): nat { if i + 1 == |data| then 0 else i + 1 }

    /** packetring_getcount. */
    function Depth(): nat
      requires producer < |data| && consumer < |data|
    { if producer >= consumer then producer - consumer else |data| - consumer + producer }

    /** The packets enqueued and not yet dequeued, oldest first. */
    function Queued(): (q: seq<T>)
      requires producer < |data| && consumer < |data|
      ensures |q| == Depth()
    { Slots(data, producer, consumer) }

    /** The condition on which packetring_enqueue waits. */
    predicate Full() { (producer == |data| && consumer == 0) || producer + 1 == consumer }

    /** The producer is about to wrap onto a consumer that stands at slot 0; Full misses
        this case because `producer` never equals maxcount. */
    predicate Overruns() { producer + 1 == |data| && consumer == 0 }

    function Enqueue(x: T): Ring<T>
      requires producer < |data| && consumer < |data|
    { Ring(data[After(producer) := x], After(producer), consumer) }

    function Dequeue(): (r: (Option<T>, Ring<T>))
      requires producer < |data| && consumer < |data|
    {
      if producer == consumer then (None, this)
      else (Some(data[After(consumer)]), Ring(data, producer, After(consumer)))
    }
  }

  lemma AppendWrapped<T>(d: seq<T>, c: nat, x: T)
    requires 0 < c < |d|
    ensures Slots(d[0 := x], 0, c) == Slots(d, |d| - 1, c) + [x]
  {
    assert d[0 := x][c + 1..] == d[c + 1..] && d[0 := x][..1] == [x] && d[c + 1..|d|] == d[c + 1..];
  }

  lemma AppendStraight<T>(d: seq<T>, p: nat, c: nat, x: T)
    requires c <= p && p + 1 < |d|
    ensures Slots(d[p + 1 := x], p + 1, c) == Slots(d, p, c) + [x]
  {
  }

  lemma AppendAround<T>(d: seq<T>, p: nat, c: nat, x: T)
    requires p + 1 < c < |d|
    ensures Slots(d[p + 1 := x], p + 1, c) == Slots(d, p, c) + [x]
  {
    var e := d[p + 1 := x];
    assert e[c + 1..] == d[c + 1..] && e[..p + 2] == d[..p + 1] + [x];
    Associate(d[c + 1..], d[..p + 1], [x]);
  }

  lemma TakeStraight<T>(d: seq<T>, p: nat, c: nat)
    requires c < p < |d|
    ensures Slots(d, p, c) == [d[c + 1]] + Slots(d, p, c + 1)
  {
  }

  lemma TakeWrapped<T>(d: seq<T>, p: nat)
    requires p + 1 < |d|
    ensures Slots(d, p, |d| - 1) == [d[0]] + Slots(d, p, 0)
  {
    assert d[|d|..] == [];
  }

  lemma TakeAround<T>(d: seq<T>, p: nat, c: nat)
    requires p < c && c + 1 < |d|
    ensures Slots(d, p, c) == [d[c + 1]] + Slots(d, p, c + 1)
  {
    assert d[c + 1..] == [d[c + 1]] + d[c + 2..];
    Associate([d[c + 1]], d[c + 2..], d[..p + 1]);
  }

  lemma EnqueueAppends<T>(r: Ring<T>, x: T)
    requires r.Valid() && !r.Full() && !r.Overruns()
    ensures r.Enqueue(x).Queued() == r.Queued() + [x]
  {
    SlotsAppend(r.data, r.producer, r.consumer, x);
  }

  lemma SlotsAppend<T>(d: seq<T>, p: nat, c: nat, x: T)
    requires p < |d| && c < |d| && p + 1 != c && !(p + 1 == |d| && c == 0)
    ensures var w := if p + 1 == |d| then 0 else p + 1; Slots(d[w := x], w, c) == Slots(d, p, c) + [x]
  {
    if p + 1 == |d| {
      AppendWrapped(d, c, x);
    } else if p >= c {
      AppendStraight(d, p, c, x);
    } else {
      AppendAround(d, p, c, x);
    }
  }

  /** An enqueue that does not wait appends to the queue exactly when it does not
      overrun.  An overrunning one makes the full ring look empty. */
  lemma EnqueueExact<T>(r: Ring<T>, x: T)
    requires r.Valid() && !r.Full()
    ensures r.Enqueue(x).Valid()
    ensures r.Enqueue(x).Queued() == r.Queued() + [x] <==> !r.Overruns()
    ensures r.Overruns() ==> r.Enqueue(x).Queued() == [] && r.Depth() == |r.data| - 1
  {
    if r.Overruns() { OverrunEmpties(r, x); } else { EnqueueAppends(r, x); }
  }

  lemma OverrunEmpties<T>(r: Ring<T>, x: T)
    requires r.Valid() && r.Overruns()
    ensures r.Enqueue(x).Queued() == [] && r.Depth() == |r.data| - 1
  {
    assert |r.Enqueue(x).Queued()| == 0;
  }

  lemma DequeueTakes<T>(r: Ring<T>)
    requires r.Valid() && r.producer != r.consumer
    ensures r.Queued() == [r.data[r.After(r.consumer)]] + r.Dequeue().1.Queued()
  {
    SlotsTake(r.data, r.producer, r.consumer);
  }

  lemma SlotsTake<T>(d: seq<T>, p: nat, c: nat)
    requires p < |d| && c < |d| && p != c
    ensures var i := if c + 1 == |d| then 0 else c + 1; Slots(d, p, c) == [d[i]] + Slots(d, p, i)
  {
    if p > c {
      TakeStraight(d, p, c);
    } else if c + 1 == |d| {
      TakeWrapped(d, p);
    } else {
      TakeAround(d, p, c);
    }
  }

  /** A dequeue takes the oldest packet. */
  lemma DequeueExact<T>(r: Ring<T>)
    requires r.Valid()
    ensures r.Dequeue().1.Valid()
    ensures r.Dequeue().0.None? <==> r.Queued() == []
    ensures r.Dequeue().0.Some? ==> r.Queued() == [r.Dequeue().0.value] + r.Dequeue().1.Queued()
  {
    if r.producer != r.consumer { DequeueTakes(r); }
  }

  /** packetring_dequeue returns a pointer into the ring.  The slot it points at stays as
      it is through a following enqueue exactly when that one does not overrun. */
  lemma HandedOutSlot<T>(r: Ring<T>, x: T)
    requires r.Valid() && !r.Full()
    ensures r.After(r.producer) == r.consumer <==> r.Overruns()
    ensures !r.Overruns() ==> r.Enqueue(x).data[r.consumer] == r.data[r.consumer]
  {
  }

  /** An enqueue waits only with all slots but one in use, and fails to wait then exactly in
      the case that overruns. */
  lemma FullExact<T>(r: Ring<T>)
    requires r.Valid()
    ensures r.Depth() == |r.data| - 1 <==> r.Full() || r.Overruns()
    ensures !(r.Full() && r.Overruns())
  {
  }

  function Fill<T>(r: Ring<T>, xs: seq<T>): Ring<T>
    requires r.producer < |r.data| && r.consumer < |r.data|
    decreases |xs|
  {
    if xs == [] then r else Fill(r.Enqueue(xs[0]), xs[1..])
  }

  lemma {:induction false} FillFresh<T>(r: Ring<T>, xs: seq<T>)
    requires r.Valid() && r.consumer == 0 && r.producer + |xs| < |r.data|
    ensures var s := Fill(r, xs);
      s.Valid() && s.consumer == 0 && s.producer == r.producer + |xs| && |s.data| == |r.data| && !s.Full()
    decreases |xs|
  {
    if xs != [] { FillFresh(r.Enqueue(xs[0]), xs[1..]); }
  }

  /** For every capacity: as many packets as the ring has slots, enqueued into a fresh
      ring while the consumer is away, never wait and are all lost. */
  lemma FullLoadIsLost<T>(r: Ring<T>, xs: seq<T>, x: T)
    requires r.Valid() && r.producer == r.consumer == 0 && |xs| + 1 == |r.data|
    ensures var s := Fill(r, xs); s.Valid() && !s.Full() && s.Depth() == |xs| && s.Enqueue(x).Queued() == []
  {
    FillFresh(r, xs);
    var s := Fill(r, xs);
    OverrunEmpties(s, x);
  }

  /** The C structure, updated in place. */
  class PacketRing<T> {
    const data: array<T>
    var producer: nat
    var consumer: nat

    ghost predicate Valid()
      reads this
    { producer < data.Length && consumer < data.Length }

    ghost function View(): Ring<T>
      reads this, data
    { Ring(data[..], producer, consumer) }

    /** packetring_init with `count` zeroed slots. */
    constructor (count: nat, zero: T)
      requires count > 0
      ensures Valid() && fresh(data) && data.Length == count && producer == consumer == 0
      ensures View().Queued() == []
    {
      data := new T[count](_ => zero);
      producer, consumer := 0, 0;
    }

    /** One test of the wait condition and, if it fails, the store.  The index moves last. */
    method TryEnqueue(x: T) returns (stored: bool)
      requires Valid()
      modifies this, data
      ensures Valid() && consumer == old(consumer)
      ensures stored == !old(View().Full())
      ensures View() == if stored then old(View()).Enqueue(x) else old(View())
      ensures stored && !old(View().Overruns()) ==> View().Queued() == old(View().Queued()) + [x]
      ensures stored && old(View().Overruns()) ==> View().Queued() == []
    {
      ghost var was := View();
      if (producer == data.Length && consumer == 0) || producer + 1 == consumer { return false; }
      EnqueueExact(was, x);
      var writeindex := if producer + 1 == data.Length then 0 else producer + 1;
      data[writeindex] := x;
      producer := writeindex;
      assert View() == was.Enqueue(x);
      return true;
    }

    method Dequeue() returns (packet: Option<T>)
      requires Valid()
      modifies this
      ensures Valid() && producer == old(producer)
      ensures packet == old(View()).Dequeue().0 && View() == old(View()).Dequeue().1
      ensures packet.Some? ==> old(View().Queued()) == [packet.value] + View().Queued()
      ensures packet.None? ==> old(View().Queued()) == []
    {
      DequeueExact(View());
      if producer == consumer { return None; }
      var readindex := if consumer + 1 == data.Length then 0 else consumer + 1;
      packet := Some(data[readindex]);
      consumer := readindex;
    }
  }
}
