/** TCP burst framing: the client's burst writer (RunTCP in jni/src/Client.cpp) and the
    server's burst reader (RunTCP in jni/src/Server.cpp) under arbitrary partial writes and
    reads. */
module BurstFraming {
  import opened InetDigits

  /** sizeof(struct TCP_burst_payload), and the offsets of two of its fields. */
  const HDR: nat := 92
  const ID_AT: nat := 44
  const SIZE_AT: nat := 48

  datatype Burst = Burst(id: int, size: int)

  function Put32(x: int): (b: seq<Byte>)
    ensures |b| == 4
  {
    var x1 := x / 256;
    var x2 := x1 / 256;
    [x2 / 256 % 256, x2 % 256, x1 % 256, x % 256]
  }

  function Get32(b: seq<Byte>): (x: int)
    requires |b| == 4
  { ((b[0] as int * 256 + b[1]) * 256 + b[2]) * 256 + b[3] }

  lemma Put32RoundTrip(x: int)
    requires 0 <= x < 0x1_0000_0000
    ensures Get32(Put32(x)) == x
  {
  }

  /** The id and size that the reader takes from a header. */
  function Header(w: seq<Byte>): Burst
    requires |w| >= HDR
  { Burst(Get32(w[ID_AT..ID_AT + 4]), Get32(w[SIZE_AT..SIZE_AT + 4])) }

  /** WriteTcpTxHdr: the header fields at the front of the write buffer; `fields` are the
      timestamps and other fields, whatever they hold. */
  function WriteHdr(buf: seq<Byte>, fields: seq<Byte>, b: Burst): (r: seq<Byte>)
    requires |buf| >= HDR && |fields| == HDR
    ensures |r| == |buf|
  {
    fields[..ID_AT] + Put32(b.id) + Put32(b.size) + fields[SIZE_AT + 4..] + buf[HDR..]
  }

  lemma HeaderRoundTrip(buf: seq<Byte>, fields: seq<Byte>, b: Burst, n: nat)
    requires HDR <= n <= |buf| && |fields| == HDR
    requires 0 <= b.id < 0x1_0000_0000 && 0 <= b.size < 0x1_0000_0000
    ensures Header(WriteHdr(buf, fields, b)[..n]) == b
  {
    var w := WriteHdr(buf, fields, b);
    assert w[..n][ID_AT..ID_AT + 4] == Put32(b.id);
    assert w[..n][SIZE_AT..SIZE_AT + 4] == Put32(b.size);
    Put32RoundTrip(b.id);
    Put32RoundTrip(b.size);
  }

  // ---------- the stream ----------

  /** A byte stream that carries the bursts `bs`: each starts with its header and is as long
      as the header says; the last may be cut off, and so may the header of one more. What
      follows a header is arbitrary: it may look like a header too. */
  ghost predicate Framed(w: seq<Byte>, bs: seq<Burst>)
    decreases |bs|
  {
    if bs == [] then |w| < HDR
    else
      && |w| >= HDR && Header(w) == bs[0] && bs[0].size >= HDR
      && if |w| < bs[0].size then |bs| == 1 else Framed(w[bs[0].size..], bs[1..])
  }

  /** Where burst k starts, which is where burst k - 1 ends. */
  function End(bs: seq<Burst>, k: nat): int
    requires k <= |bs|
    decreases k
  { if k == 0 then 0 else bs[0].size + End(bs[1..], k - 1) }

  lemma {:induction false} EndStep(bs: seq<Burst>, k: nat)
    requires k < |bs|
    ensures End(bs, k + 1) == End(bs, k) + bs[k].size
    decreases k
  {
    if k > 0 { EndStep(bs[1..], k - 1); }
  }

  lemma {:induction false} EndPrefix(bs: seq<Burst>, cs: seq<Burst>, k: nat)
    requires k <= |bs|
    ensures End(bs + cs, k) == End(bs, k)
    decreases k
  {
    if k > 0 {
      assert (bs + cs)[1..] == bs[1..] + cs;
      EndPrefix(bs[1..], cs, k - 1);
    }
  }

  /** A write of burst bytes that stays inside the open burst. */
  lemma {:induction false} FramedMore(w: seq<Byte>, bs: seq<Burst>, x: seq<Byte>)
    requires Framed(w, bs) && bs != [] && |w| + |x| <= End(bs, |bs|)
    ensures Framed(w + x, bs)
    decreases |bs|
  {
    var n := bs[0].size;
    assert Header(w + x) == Header(w) by {
      assert (w + x)[ID_AT..ID_AT + 4] == w[ID_AT..ID_AT + 4];
      assert (w + x)[SIZE_AT..SIZE_AT + 4] == w[SIZE_AT..SIZE_AT + 4];
    }
    if |w| < n {
      assert bs[1..] == [];
    } else if |bs| > 1 {
      assert (w + x)[n..] == w[n..] + x;
      FramedMore(w[n..], bs[1..], x);
    }
  }

  /** A write of a new header, with or without bytes that follow it. */
  lemma {:induction false} FramedBegin(w: seq<Byte>, bs: seq<Burst>, x: seq<Byte>, b: Burst)
    requires Framed(w, bs) && |w| == End(bs, |bs|)
    requires HDR <= |x| <= b.size && Header(x) == b
    ensures Framed(w + x, bs + [b])
    decreases |bs|
  {
    if bs == [] {
      assert w + x == x && bs + [b] == [b] && [b][1..] == [];
    } else {
      assert (w + x)[ID_AT..ID_AT + 4] == w[ID_AT..ID_AT + 4];
      assert (w + x)[SIZE_AT..SIZE_AT + 4] == w[SIZE_AT..SIZE_AT + 4];
      var n := bs[0].size;
      assert |w| >= n;
      assert (w + x)[n..] == w[n..] + x;
      assert (bs + [b])[1..] == bs[1..] + [b];
      FramedBegin(w[n..], bs[1..], x, b);
    }
  }

  /** Part of a header, when the connection fails. */
  lemma {:induction false} FramedShort(w: seq<Byte>, bs: seq<Burst>, x: seq<Byte>)
    requires Framed(w, bs) && |w| == End(bs, |bs|) && |x| < HDR
    ensures Framed(w + x, bs)
    decreases |bs|
  {
    if bs == [] {
      assert w + x == x;
    } else {
      assert (w + x)[ID_AT..ID_AT + 4] == w[ID_AT..ID_AT + 4];
      assert (w + x)[SIZE_AT..SIZE_AT + 4] == w[SIZE_AT..SIZE_AT + 4];
      var n := bs[0].size;
      assert |w| >= n;
      assert (w + x)[n..] == w[n..] + x;
      FramedShort(w[n..], bs[1..], x);
    }
  }

  /** The bursts whose header lies within the first n bytes. */
  ghost function Begun(bs: seq<Burst>, n: int): seq<Burst> {
    if bs == [] || n < HDR then [] else [bs[0]] + Begun(bs[1..], n - bs[0].size)
  }

  /** A connection that stops at any byte still delivers a framed stream. */
  lemma {:induction false} FramedPrefix(w: seq<Byte>, bs: seq<Burst>, n: nat)
    requires Framed(w, bs) && n <= |w|
    ensures Framed(w[..n], Begun(bs, n)) && Begun(bs, n) <= bs
    decreases |bs|
  {
    if bs != [] && n >= HDR {
      var m := bs[0].size;
      assert w[..n][ID_AT..ID_AT + 4] == w[ID_AT..ID_AT + 4];
      assert w[..n][SIZE_AT..SIZE_AT + 4] == w[SIZE_AT..SIZE_AT + 4];
      if n < m {
        assert Begun(bs[1..], n - m) == [];
      } else {
        FramedPrefix(w[m..], bs[1..], n - m);
        assert w[..n][m..] == w[m..][..n - m];
      }
      assert Begun(bs, n)[1..] == Begun(bs[1..], n - m);
      assert bs == [bs[0]] + bs[1..];
    }
  }

  // ---------- the sender ----------

  /** One turn of the client's loop: the burst size asked for and the frame counter's tick
      if a burst starts, the header's other fields, what the write returns. */
  datatype Turn = Turn(requested: int, tick: int, fields: seq<Byte>, wrote: int, fatal: bool)

  predicate TurnOk(t: Turn) { t.requested < 0x8000_0000 && |t.fields| == HDR }

  function Min(a: int, b: int): int { if a < b then a else b }

  /** What the sender keeps: the stream is framed and the open burst lacks `remaining` bytes. */
  ghost predicate Sending(wire: seq<Byte>, bursts: seq<Burst>, remaining: int) {
    && Framed(wire, bursts) && 0 <= remaining
    && |wire| + remaining == End(bursts, |bursts|)
  }

  /** The burst branch: the header, whose write must succeed as a whole, and what fits. */
  method BeginBurst(buf: seq<Byte>, bufLen: nat, t: Turn, id: int, wire: seq<Byte>, ghost bursts: seq<Burst>)
    returns (buf': seq<Byte>, wire': seq<Byte>, remaining: int, ok: bool, burst: Burst, n: int)
    requires bufLen <= |buf| && HDR <= |buf| && TurnOk(t) && Sending(wire, bursts, 0)
    ensures |buf'| == |buf|
    ensures burst == Burst(id % 0x1_0000_0000, if t.requested < HDR then HDR else t.requested)
    ensures 0 <= n && |wire'| == |wire| + n && (ok <==> n >= HDR) && (t.wrote >= HDR && bufLen >= HDR ==> ok)
    ensures if ok then Sending(wire', bursts + [burst], remaining) else Framed(wire', bursts)
  {
    remaining := t.requested;
    if remaining < HDR { remaining := HDR; }
    burst := Burst(id % 0x1_0000_0000, remaining);
    buf' := WriteHdr(buf, t.fields, burst);
    var writelen := if bufLen > remaining then remaining else bufLen;
    n := if t.wrote < 0 then 0 else Min(t.wrote, writelen);
    var x := buf'[..n];
    wire' := wire + x;
    ok := n >= HDR;
    if ok {
      HeaderRoundTrip(buf, t.fields, burst, n);
      FramedBegin(wire, bursts, x, burst);
      EndPrefix(bursts, [burst], |bursts|);
      EndStep(bursts + [burst], |bursts|);
      remaining := remaining - n;
    } else {
      FramedShort(wire, bursts, x);
    }
  }

  /** Burst k was begun in turn starts[k], with the size asked for there but at least a
      header, and the tick as its id or, without a frame counter, the number k + 1. */
  ghost predicate Begins(bursts: seq<Burst>, starts: seq<int>, turns: seq<Turn>, framecounter: bool) {
    && |starts| == |bursts|
    && (forall k :: 0 <= k < |starts| ==> 0 <= starts[k] < |turns|)
    && (forall j, k :: 0 <= j < k < |starts| ==> starts[j] < starts[k])
    && forall k :: 0 <= k < |bursts| ==> bursts[k] == BurstOf(turns[starts[k]], framecounter, k)
  }

  function BurstOf(t: Turn, framecounter: bool, k: int): Burst {
    Burst((if framecounter then t.tick else k + 1) % 0x1_0000_0000, if t.requested < HDR then HDR else t.requested)
  }

  lemma BeginsMore(bursts: seq<Burst>, starts: seq<int>, turns: seq<Turn>, framecounter: bool, burst: Burst, at: int)
    requires Begins(bursts, starts, turns, framecounter) && 0 <= at < |turns| && burst == BurstOf(turns[at], framecounter, |bursts|)
    requires forall k :: 0 <= k < |starts| ==> starts[k] < at
    ensures Begins(bursts + [burst], starts + [at], turns, framecounter)
  {
  }

  /** What the send loop keeps after `taken` turns. */
  ghost predicate Sender(turns: seq<Turn>, framecounter: bool, taken: int, wire: seq<Byte>, bursts: seq<Burst>,
      starts: seq<int>, remaining: int, id: int)
  {
    && Sending(wire, bursts, remaining) && Begins(bursts, starts, turns, framecounter)
    && (framecounter || id == |bursts| + 1)
    && (forall k :: 0 <= k < |starts| ==> starts[k] < taken)
  }

  /** A turn that begins a burst. */
  method BeginTurn(buf: seq<Byte>, bufLen: nat, framecounter: bool, turns: seq<Turn>, i: nat, wire: seq<Byte>,
      bursts: seq<Burst>, ghost starts: seq<int>, id: int)
    returns (buf': seq<Byte>, wire': seq<Byte>, bursts': seq<Burst>, ghost starts': seq<int>, remaining: int, id': int, ok: bool, n: int)
    requires bufLen <= |buf| && HDR <= |buf| && i < |turns| && TurnOk(turns[i])
    requires Sender(turns, framecounter, i, wire, bursts, starts, 0, id)
    ensures |buf'| == |buf| && 0 <= n && |wire'| == |wire| + n && (ok <==> n >= HDR)
    ensures turns[i].wrote >= HDR && bufLen >= HDR ==> ok
    ensures if ok then Sender(turns, framecounter, i + 1, wire', bursts', starts', remaining, id') && |bursts'| == |bursts| + 1
      else Framed(wire', bursts') && bursts' == bursts && starts' == starts
  {
    id' := if framecounter then turns[i].tick else id;
    bursts', starts' := bursts, starts;
    var burst;
    buf', wire', remaining, ok, burst, n := BeginBurst(buf, bufLen, turns[i], id', wire, bursts);
    if ok {
      BeginsMore(bursts, starts, turns, framecounter, burst, i);
      bursts', starts' := bursts + [burst], starts + [i];
      id' := id' + 1;
    }
  }

  /** RunTCP in burst mode: whatever the writes return, the stream is framed by the bursts that
      were begun. The loop ends early only when a header does not get out as a whole (`cut`),
      between bursts, or when a later write returns 0 or fails fatally; all that was written
      is counted but a header cut short. If every write takes something, each turn brings the
      open burst nearer to its end. */
  method SendBursts(init: seq<Byte>, bufLen: nat, framecounter: bool, turns: seq<Turn>)
    returns (wire: seq<Byte>, bursts: seq<Burst>, totLen: int, taken: nat, cut: bool, ghost starts: seq<int>)
    requires bufLen <= |init| && HDR <= |init| && forall k :: 0 <= k < |turns| ==> TurnOk(turns[k])
    ensures Framed(wire, bursts) && Begins(bursts, starts, turns, framecounter)
    ensures if cut then totLen == End(bursts, |bursts|) <= |wire| < totLen + HDR else totLen == |wire|
    ensures taken <= |turns| && (totLen > 0 ==> bursts != [])
    ensures cut ==> taken > 0 && (turns[taken - 1].wrote < HDR || bufLen < HDR)
    ensures taken < |turns| && !cut ==> taken > 0 && (turns[taken - 1].wrote == 0 || bufLen == 0 || (turns[taken - 1].wrote < 0 && turns[taken - 1].fatal))
    ensures !cut && AllTake(turns) && bufLen > 0 ==> taken == |turns| <= totLen
    ensures !cut && AllTake(turns) && bufLen > 0 ==> forall k :: 0 <= k <= |bursts| && End(bursts, k) <= |turns| ==> End(bursts, k) <= |wire|
  {
    var buf, remaining, id := init, 0, 1;
    wire, bursts, totLen, taken, cut, starts := [], [], 0, 0, false, [];
    while taken < |turns|
      invariant taken <= |turns| && |buf| == |init| && totLen == |wire| && !cut
      invariant Sender(turns, framecounter, taken, wire, bursts, starts, remaining, id)
      invariant AllTake(turns) && bufLen > 0 ==> taken <= totLen
    {
      taken := taken + 1;
      var n, ok;
      if !(remaining > 0) {
        buf, wire, bursts, starts, remaining, id, ok, n := BeginTurn(buf, bufLen, framecounter, turns, taken - 1, wire, bursts, starts, id);
        if !ok {
          cut := true;
          return;
        }
      } else {
        n, wire, remaining := ContinueBurst(buf, bufLen, turns[taken - 1], wire, bursts, remaining);
        if n == 0 || (n < 0 && turns[taken - 1].fatal) { return; }
      }
      if n > 0 { totLen := totLen + n; }
    }
  }

  /** Every write takes something. */
  predicate AllTake(turns: seq<Turn>) { forall k :: 0 <= k < |turns| ==> turns[k].wrote > 0 }

  /** The other branch: a plain write that starts at the front of the buffer again. */
  method ContinueBurst(buf: seq<Byte>, bufLen: nat, t: Turn, wire: seq<Byte>, ghost bursts: seq<Burst>, remaining: int)
    returns (n: int, wire': seq<Byte>, remaining': int)
    requires bufLen <= |buf| && remaining > 0 && Sending(wire, bursts, remaining)
    ensures Sending(wire', bursts, remaining') && |wire'| == |wire| + if n > 0 then n else 0
    ensures n == Min(t.wrote, Min(remaining, bufLen))
  {
    n := Min(t.wrote, if bufLen > remaining then remaining else bufLen);
    wire', remaining' := wire, remaining;
    if n > 0 {
      FramedMore(wire, bursts, buf[..n]);
      wire', remaining' := wire + buf[..n], remaining - n;
    }
  }

  // ---------- the receiver ----------

  lemma {:induction false} FramedSuffix(w: seq<Byte>, bs: seq<Burst>, k: nat)
    requires Framed(w, bs) && k <= |bs| && End(bs, k) <= |w|
    ensures 0 <= End(bs, k) && Framed(w[End(bs, k)..], bs[k..])
    decreases k
  {
    if k > 0 {
      var n := bs[0].size;
      FramedSuffix(w[n..], bs[1..], k - 1);
      assert w[n..][End(bs[1..], k - 1)..] == w[End(bs, k)..];
      assert bs[1..][k - 1..] == bs[k..];
    }
  }

  /** Where a burst ends, the next whole header in the stream is that of the next burst. */
  lemma NextHeader(w: seq<Byte>, bs: seq<Burst>, k: nat)
    requires Framed(w, bs) && k <= |bs| && End(bs, k) + HDR <= |w|
    ensures 0 <= End(bs, k) && k < |bs| && Header(w[End(bs, k)..]) == bs[k] && bs[k].size >= HDR
  {
    FramedSuffix(w, bs, k);
  }

  /** Ends of the first k bursts. */
  function Ends(bs: seq<Burst>, k: nat): (r: seq<int>)
    requires k <= |bs|
    ensures |r| == k
  { if k == 0 then [] else Ends(bs, k - 1) + [End(bs, k)] }

  /** What the reader keeps after `pos` bytes: it has seen the headers of exactly the first
      bursts, the last of them lacks `nleft` bytes, and `transit_ready` was raised where
      each burst but an unfinished one ended. */
  ghost predicate Reading(w: seq<Byte>, bs: seq<Burst>, pos: int, nleft: int, seen: seq<Burst>, ready: seq<int>) {
    && Framed(w, bs) && 0 <= pos <= |w| && 0 <= nleft
    && |seen| <= |bs| && seen == bs[..|seen|]
    && pos + nleft == End(bs, |seen|)
    && (nleft > 0 ==> seen != [] && nleft < seen[|seen| - 1].size)
    && ready == Ends(bs, if nleft == 0 then |seen| else |seen| - 1)
  }

  lemma ReadHeader(w: seq<Byte>, bs: seq<Burst>, pos: int, seen: seq<Burst>, ready: seq<int>, b: Burst)
    requires Reading(w, bs, pos, 0, seen, ready) && pos + HDR <= |w| && b == Header(w[pos..])
    ensures b.size >= HDR
    ensures Reading(w, bs, pos + HDR, b.size - HDR, seen + [b], if b.size == HDR then ready + [pos + HDR] else ready)
  {
    NextHeader(w, bs, |seen|);
    EndStep(bs, |seen|);
  }

  lemma ReadMore(w: seq<Byte>, bs: seq<Burst>, pos: int, nleft: int, seen: seq<Burst>, ready: seq<int>, n: int)
    requires Reading(w, bs, pos, nleft, seen, ready) && 0 < n <= nleft && pos + n <= |w|
    ensures Reading(w, bs, pos + n, nleft - n, seen, if n == nleft then ready + [pos + n] else ready)
  {
  }

  /** One turn of the server's loop: out of tokens, or what the header read and the receive
      call give. */
  datatype Poll = Wait | Poll(header: bool, recv: int, fatal: bool)

  /** Where the reader stands: bytes taken, bytes that the open burst lacks, loop left. */
  datatype Reader = Reader(pos: nat, nleft: int, over: bool)

  /** A turn at a burst's end finds a whole header. */
  predicate FindsHeader(w: seq<Byte>, r: Reader, t: Poll) { t.Poll? && t.header && r.pos + HDR <= |w| }

  /** The turn calls recv: not between bursts without a header, and not after a header that
      is a whole burst. */
  predicate CallsRecv(w: seq<Byte>, r: Reader, t: Poll) {
    t.Poll? && !r.over && (r.nleft != 0 || (FindsHeader(w, r, t) && Header(w[r.pos..]).size != HDR))
  }

  /** The turn's receive call fails without being fatal. */
  predicate Misses(w: seq<Byte>, r: Reader, t: Poll) { CallsRecv(w, r, t) && t.recv < 0 && !t.fatal }

  /** After the header, if the turn reads one. */
  function PastHeader(w: seq<Byte>, r: Reader, t: Poll): Reader {
    if r.nleft == 0 && FindsHeader(w, r, t) then Reader(r.pos + HDR, Header(w[r.pos..]).size - HDR, r.over) else r
  }

  function Turned(w: seq<Byte>, bufLen: int, r: Reader, t: Poll): Reader {
    if r.over || t.Wait? then r
    else if !CallsRecv(w, r, t) then PastHeader(w, r, t).(over := !FindsHeader(w, r, t))
    else Received(w, bufLen, PastHeader(w, r, t), t)
  }

  /** After the receive call. */
  function Received(w: seq<Byte>, bufLen: int, h: Reader, t: Poll): Reader
    requires t.Poll?
  {
    var n := Min(Min(t.recv, |w| - h.pos), Min(bufLen, h.nleft));
    if n > 0 then Reader(h.pos + n, h.nleft - n, false) else h.(over := n == 0 || t.fatal)
  }

  /** Where the reader stands after the polls. */
  function Read(w: seq<Byte>, bufLen: int, polls: seq<Poll>): Reader {
    if polls == [] then Reader(0, 0, false)
    else Turned(w, bufLen, Read(w, bufLen, polls[..|polls| - 1]), polls[|polls| - 1])
  }

  predicate MissesAt(w: seq<Byte>, bufLen: int, polls: seq<Poll>, k: nat)
    requires k < |polls|
  { Misses(w, Read(w, bufLen, polls[..k]), polls[k]) }

  /** Receive calls that failed without being fatal. */
  function Missed(w: seq<Byte>, bufLen: int, polls: seq<Poll>): nat {
    if polls == [] then 0
    else Missed(w, bufLen, polls[..|polls| - 1]) + if MissesAt(w, bufLen, polls, |polls| - 1) then 1 else 0
  }

  lemma {:induction false} OverStays(w: seq<Byte>, bufLen: int, polls: seq<Poll>, n: nat)
    requires n <= |polls| && (n == |polls| || Read(w, bufLen, polls[..n]).over)
    ensures Read(w, bufLen, polls) == Read(w, bufLen, polls[..n])
    ensures Missed(w, bufLen, polls) == Missed(w, bufLen, polls[..n])
    decreases |polls|
  {
    if n < |polls| {
      var pre := polls[..|polls| - 1];
      assert pre[..n] == polls[..n];
      OverStays(w, bufLen, pre, n);
    } else {
      assert polls[..n] == polls;
    }
  }

  /** The header part of a turn. */
  method TakeHeader(w: seq<Byte>, ghost bs: seq<Burst>, pos: nat, seen: seq<Burst>, ready: seq<int>)
    returns (info: Burst, nleft: int, ready': seq<int>, transitReady: bool)
    requires Reading(w, bs, pos, 0, seen, ready) && pos + HDR <= |w|
    ensures Reading(w, bs, pos + HDR, nleft, seen + [info], ready') && (transitReady <==> nleft == 0)
    ensures forall t :: FindsHeader(w, Reader(pos, 0, false), t) ==>
      Reader(pos + HDR, nleft, false) == PastHeader(w, Reader(pos, 0, false), t)
  {
    info := Header(w[pos..]);
    ReadHeader(w, bs, pos, seen, ready, info);
    nleft, ready', transitReady := info.size - HDR, ready, false;
    if nleft == 0 {
      transitReady := true;
      ready' := ready + [pos + HDR];
    }
  }

  /** The receive call of a turn: n bytes, or -1 for a failure that is not fatal. */
  method TakeMore(w: seq<Byte>, ghost bs: seq<Burst>, bufLen: int, t: Poll, pos: nat, nleft: int, ghost seen: seq<Burst>, ready: seq<int>)
    returns (n: int, peerclose: bool, nleft': int, ready': seq<int>)
    requires t.Poll? && bufLen > 0 && nleft > 0 && Reading(w, bs, pos, nleft, seen, ready)
    ensures Reading(w, bs, if n < 0 then pos else pos + n, nleft', seen, ready')
    ensures n >= -1 && (n < 0 <==> t.recv < 0 && !t.fatal)
    ensures Reader(if n < 0 then pos else pos + n, nleft', peerclose) == Received(w, bufLen, Reader(pos, nleft, false), t)
  {
    n, peerclose, nleft', ready' := Min(Min(t.recv, |w| - pos), Min(bufLen, nleft)), false, nleft, ready;
    if n > 0 {
      ReadMore(w, bs, pos, nleft, seen, ready, n);
      nleft' := nleft - n;
      if nleft' == 0 { ready' := ready + [pos + n]; }
    } else if n == 0 {
      peerclose := true;
    } else if t.fatal {
      peerclose := true;
      n := 0;
    } else {
      n := -1;
    }
  }

  /** One turn of the loop that does not wait for tokens. */
  method PollOnce(w: seq<Byte>, ghost bs: seq<Burst>, bufLen: int, t: Poll, pos: nat, nleft: int, seen: seq<Burst>, ready: seq<int>)
    returns (pos': nat, nleft': int, seen': seq<Burst>, ready': seq<int>, over: bool, currLen: int)
    requires t.Poll? && bufLen > 0 && Reading(w, bs, pos, nleft, seen, ready)
    ensures Reading(w, bs, pos', nleft', seen', ready')
    ensures Reader(pos', nleft', over) == Turned(w, bufLen, Reader(pos, nleft, false), t)
    ensures currLen == pos' - pos - if Misses(w, Reader(pos, nleft, false), t) then 1 else 0
  {
    pos', nleft', seen', ready', over, currLen := pos, nleft, seen, ready, false, 0;
    var transitReady := false;
    if nleft' == 0 {
      if !t.header || |w| - pos < HDR {
        over := true;
        return;
      }
      var info;
      info, nleft', ready', transitReady := TakeHeader(w, bs, pos, seen, ready);
      pos', seen', currLen := pos + HDR, seen + [info], HDR;
    }
    if !transitReady {
      var n;
      n, over, nleft', ready' := TakeMore(w, bs, bufLen, t, pos', nleft', seen', ready');
      if n > 0 { pos' := pos' + n; }
      currLen := currLen + n;
    }
  }

  /** RunTCP in burst mode: however the bytes arrive, the reader stays in step. A receive call
      that fails without being fatal takes one off the byte count; no other turn does. */
  method ReceiveBursts(w: seq<Byte>, ghost bs: seq<Burst>, bufLen: int, polls: seq<Poll>)
    returns (pos: nat, nleft: int, seen: seq<Burst>, ready: seq<int>, totLen: int)
    requires Framed(w, bs) && bufLen > 0
    ensures Reading(w, bs, pos, nleft, seen, ready)
    ensures pos == Read(w, bufLen, polls).pos && nleft == Read(w, bufLen, polls).nleft
    ensures totLen == pos - Missed(w, bufLen, polls)
  {
    pos, nleft, seen, ready, totLen := 0, 0, [], [], 0;
    var over, i := false, 0;
    while !over && i < |polls|
      invariant 0 <= i <= |polls|
      invariant Reading(w, bs, pos, nleft, seen, ready)
      invariant Reader(pos, nleft, over) == Read(w, bufLen, polls[..i])
      invariant totLen == pos - Missed(w, bufLen, polls[..i])
    {
      var t := polls[i];
      assert polls[..i + 1][..i] == polls[..i];
      i := i + 1;
      if t.Poll? {
        var currLen;
        pos, nleft, seen, ready, over, currLen := PollOnce(w, bs, bufLen, t, pos, nleft, seen, ready);
        totLen := totLen + currLen;
      }
    }
    OverStays(w, bufLen, polls, i);
  }

  /** The turn ends the loop: no whole header between bursts, or a receive call that meets the
      end of the stream, returns nothing or fails fatally. */
  predicate Leaves(w: seq<Byte>, r: Reader, t: Poll) {
    && t.Poll? && !r.over
    && if !CallsRecv(w, r, t) then !FindsHeader(w, r, t)
       else t.recv == 0 || (t.recv > 0 && PastHeader(w, r, t).pos == |w|) || (t.recv < 0 && t.fatal)
  }

  lemma LeavesIff(w: seq<Byte>, bs: seq<Burst>, bufLen: int, r: Reader, t: Poll)
    requires Follows(w, bs, r) && !r.over && bufLen > 0
    ensures Turned(w, bufLen, r, t).over <==> Leaves(w, r, t)
  {
    if CallsRecv(w, r, t) {
      FollowsHeader(w, bs, r, t);
      var seen, ready :| Reading(w, bs, PastHeader(w, r, t).pos, PastHeader(w, r, t).nleft, seen, ready);
    }
  }

  lemma TurnFollows(w: seq<Byte>, bs: seq<Burst>, bufLen: int, r: Reader, t: Poll)
    requires Follows(w, bs, r) && bufLen > 0
    ensures Follows(w, bs, Turned(w, bufLen, r, t))
  {
    if !r.over && t.Poll? && (r.nleft != 0 || FindsHeader(w, r, t)) {
      FollowsHeader(w, bs, r, t);
      var h := PastHeader(w, r, t);
      var seen, ready :| Reading(w, bs, h.pos, h.nleft, seen, ready);
      if CallsRecv(w, r, t) {
        if t.recv > 0 {
          FollowsRecv(w, bs, bufLen, h, t);
        } else {
          assert Reading(w, bs, Received(w, bufLen, h, t).pos, Received(w, bufLen, h, t).nleft, seen, ready);
        }
      } else {
        assert Reading(w, bs, Turned(w, bufLen, r, t).pos, Turned(w, bufLen, r, t).nleft, seen, ready);
      }
    } else {
      var seen, ready :| Reading(w, bs, r.pos, r.nleft, seen, ready);
      assert Reading(w, bs, Turned(w, bufLen, r, t).pos, Turned(w, bufLen, r, t).nleft, seen, ready);
    }
  }

  lemma {:induction false} ReadFollows(w: seq<Byte>, bs: seq<Burst>, bufLen: int, polls: seq<Poll>)
    requires Framed(w, bs) && bufLen > 0
    ensures Follows(w, bs, Read(w, bufLen, polls))
  {
    if polls == [] {
      assert Reading(w, bs, 0, 0, [], []);
    } else {
      ReadFollows(w, bs, bufLen, polls[..|polls| - 1]);
      TurnFollows(w, bs, bufLen, Read(w, bufLen, polls[..|polls| - 1]), polls[|polls| - 1]);
    }
  }

  predicate LeavesAt(w: seq<Byte>, bufLen: int, polls: seq<Poll>, k: nat)
    requires k < |polls|
  { Leaves(w, Read(w, bufLen, polls[..k]), polls[k]) }

  /** The reader leaves its loop on such a turn, and on no other. */
  lemma {:induction false} ReaderLeavesIff(w: seq<Byte>, bs: seq<Burst>, bufLen: int, polls: seq<Poll>)
    requires Framed(w, bs) && bufLen > 0
    ensures Read(w, bufLen, polls).over <==> exists k :: 0 <= k < |polls| && LeavesAt(w, bufLen, polls, k)
  {
    if polls != [] {
      var n := |polls| - 1;
      var pre := polls[..n];
      ReaderLeavesIff(w, bs, bufLen, pre);
      forall k | 0 <= k < n ensures LeavesAt(w, bufLen, pre, k) == LeavesAt(w, bufLen, polls, k) { assert pre[..k] == polls[..k]; }
      var r := Read(w, bufLen, pre);
      if r.over {
        var k :| 0 <= k < n && LeavesAt(w, bufLen, pre, k);
        assert LeavesAt(w, bufLen, polls, k);
      } else {
        ReadFollows(w, bs, bufLen, pre);
        LeavesIff(w, bs, bufLen, r, polls[n]);
        assert LeavesAt(w, bufLen, polls, n) <==> Leaves(w, r, polls[n]);
      }
    }
  }

  /** A whole burst that is there is read in one turn, if buffer and receive call allow. */
  lemma WholeBurst(w: seq<Byte>, bs: seq<Burst>, bufLen: int, k: nat, t: Poll, pos: nat, next: nat)
    requires Framed(w, bs) && k < |bs| && pos == End(bs, k) && next == End(bs, k + 1) <= |w|
    requires t.Poll? && t.header && t.recv >= bs[k].size - HDR && bufLen >= bs[k].size - HDR
    ensures Turned(w, bufLen, Reader(pos, 0, false), t) == Reader(next, 0, false)
  {
    EndStep(bs, k);
    HeaderWithin(w, bs, k);
    NextHeader(w, bs, k);
  }

  /** The byte count is what was taken if and only if no receive call failed without being
      fatal. */
  lemma {:induction false} CountExactIff(w: seq<Byte>, bufLen: int, polls: seq<Poll>)
    ensures Missed(w, bufLen, polls) == 0 <==> forall k :: 0 <= k < |polls| ==> !MissesAt(w, bufLen, polls, k)
  {
    if polls != [] {
      var pre := polls[..|polls| - 1];
      CountExactIff(w, bufLen, pre);
      forall k | 0 <= k < |pre| ensures MissesAt(w, bufLen, pre, k) == MissesAt(w, bufLen, polls, k) {
        assert pre[..k] == polls[..k];
      }
    }
  }

  /** In the middle of a burst such a failure takes one off the count and nothing from the
      stream. */
  lemma MissTakesOne(w: seq<Byte>, bufLen: int, polls: seq<Poll>, t: Poll)
    requires var r := Read(w, bufLen, polls); !r.over && r.nleft > 0
    requires t.Poll? && t.recv < 0 && !t.fatal
    ensures Read(w, bufLen, polls + [t]) == Read(w, bufLen, polls)
    ensures Missed(w, bufLen, polls + [t]) == Missed(w, bufLen, polls) + 1
  {
    assert (polls + [t])[..|polls|] == polls;
  }

  /** The peer neither fails nor closes before the end of the stream. */
  predicate Steady(polls: seq<Poll>) {
    forall k :: 0 <= k < |polls| ==> polls[k].Poll? && polls[k].header && polls[k].recv > 0
  }

  /** The stream has been read, up to a header cut short. */
  predicate Drained(w: seq<Byte>, r: Reader) { |w| - r.pos < HDR && (r.nleft > 0 ==> r.pos == |w|) }

  /** A reader that has just finished or opened a burst. */
  ghost predicate Follows(w: seq<Byte>, bs: seq<Burst>, r: Reader) {
    exists seen, ready :: Reading(w, bs, r.pos, r.nleft, seen, ready)
  }

  lemma FollowsHeader(w: seq<Byte>, bs: seq<Burst>, r: Reader, t: Poll)
    requires Follows(w, bs, r) && (r.nleft == 0 ==> FindsHeader(w, r, t))
    ensures var h := PastHeader(w, r, t);
      Follows(w, bs, h) && (r.nleft == 0 ==> h.pos == r.pos + HDR) && (h.nleft == 0 <==> r.nleft == 0 && Header(w[r.pos..]).size == HDR)
  {
    var seen, ready :| Reading(w, bs, r.pos, r.nleft, seen, ready);
    if r.nleft == 0 {
      var b, h := Header(w[r.pos..]), PastHeader(w, r, t);
      ReadHeader(w, bs, r.pos, seen, ready, b);
      assert Reading(w, bs, h.pos, h.nleft, seen + [b], if b.size == HDR then ready + [r.pos + HDR] else ready);
    }
  }

  lemma FollowsRecv(w: seq<Byte>, bs: seq<Burst>, bufLen: int, h: Reader, t: Poll)
    requires Follows(w, bs, h) && h.nleft != 0 && !h.over && bufLen > 0 && t.Poll? && t.recv > 0
    ensures var r := Received(w, bufLen, h, t);
      Follows(w, bs, r) && if r.over then r == h.(over := true) && h.pos == |w| else r.pos > h.pos
  {
    var seen, ready :| Reading(w, bs, h.pos, h.nleft, seen, ready);
    var n := Min(Min(t.recv, |w| - h.pos), Min(bufLen, h.nleft));
    if n > 0 {
      ReadMore(w, bs, h.pos, h.nleft, seen, ready, n);
      assert Reading(w, bs, h.pos + n, h.nleft - n, seen, if n == h.nleft then ready + [h.pos + n] else ready);
    }
  }

  lemma SteadyTurn(w: seq<Byte>, bs: seq<Burst>, bufLen: int, r: Reader, t: Poll)
    requires Follows(w, bs, r) && !r.over && bufLen > 0 && t.Poll? && t.header && t.recv > 0
    ensures var r' := Turned(w, bufLen, r, t);
      && Follows(w, bs, r') && !Misses(w, r, t)
      && if r'.over then Drained(w, r') else r'.pos > r.pos
  {
    if r.nleft != 0 || FindsHeader(w, r, t) {
      FollowsHeader(w, bs, r, t);
      if CallsRecv(w, r, t) { FollowsRecv(w, bs, bufLen, PastHeader(w, r, t), t); }
    }
  }

  /** From a steady peer, as many turns as there are bytes are enough to read them all. */
  lemma {:induction false} SteadyDrains(w: seq<Byte>, bs: seq<Burst>, bufLen: int, polls: seq<Poll>)
    requires Framed(w, bs) && bufLen > 0 && Steady(polls)
    ensures var r := Read(w, bufLen, polls);
      Follows(w, bs, r) && Missed(w, bufLen, polls) == 0 && if r.over then Drained(w, r) else r.pos >= |polls|
    ensures |polls| >= |w| ==> Drained(w, Read(w, bufLen, polls))
  {
    if polls == [] {
      assert Reading(w, bs, 0, 0, [], []);
    } else {
      var pre := polls[..|polls| - 1];
      SteadyDrains(w, bs, bufLen, pre);
      var r := Read(w, bufLen, pre);
      if !r.over { SteadyTurn(w, bs, bufLen, r, polls[|polls| - 1]); }
    }
    var seen, ready :| Reading(w, bs, Read(w, bufLen, polls).pos, Read(w, bufLen, polls).nleft, seen, ready);
  }

  lemma {:induction false} HeaderWithin(w: seq<Byte>, bs: seq<Burst>, k: nat)
    requires Framed(w, bs) && k < |bs|
    ensures 0 <= End(bs, k) && End(bs, k) + HDR <= |w| && bs[k].size >= HDR
    decreases k
  {
    if k > 0 { HeaderWithin(w[bs[0].size..], bs[1..], k - 1); }
  }

  lemma {:induction false} EndsIncrease(w: seq<Byte>, bs: seq<Burst>, j: nat, k: nat)
    requires Framed(w, bs) && j < k <= |bs|
    ensures End(bs, j) + HDR <= End(bs, k)
    decreases k
  {
    HeaderWithin(w, bs, k - 1);
    EndStep(bs, k - 1);
    if j < k - 1 { EndsIncrease(w, bs, j, k - 1); }
  }

  lemma {:induction false} EndsAt(bs: seq<Burst>, k: nat, i: nat)
    requires i < k <= |bs|
    ensures Ends(bs, k)[i] == End(bs, i + 1)
    decreases k
  {
    if i < k - 1 { EndsAt(bs, k - 1, i); }
  }

  /** `transit_ready` is raised once for each burst that has arrived as a whole, with its
      last byte, and at no other byte. */
  lemma ReadyExact(w: seq<Byte>, bs: seq<Burst>, pos: int, nleft: int, seen: seq<Burst>, ready: seq<int>)
    requires Reading(w, bs, pos, nleft, seen, ready)
    ensures |ready| <= |bs| && forall k :: 0 <= k < |ready| ==> ready[k] == End(bs, k + 1) <= pos
    ensures forall k :: |ready| < k <= |bs| ==> pos < End(bs, k)
  {
    var m := |ready|;
    forall k | 0 <= k < m ensures ready[k] == End(bs, k + 1) <= pos {
      EndsAt(bs, m, k);
      if k + 1 < |seen| { EndsIncrease(w, bs, k + 1, |seen|); }
      if nleft > 0 { EndStep(bs, |seen| - 1); if k + 1 < |seen| - 1 { EndsIncrease(w, bs, k + 1, |seen| - 1); } }
    }
    forall k | m < k <= |bs| ensures pos < End(bs, k) {
      if |seen| < k { EndsIncrease(w, bs, |seen|, k); }
    }
  }

  /** A reader that has taken every byte has seen every burst, and no other. */
  lemma AllSeen(w: seq<Byte>, bs: seq<Burst>, nleft: int, seen: seq<Burst>, ready: seq<int>)
    requires Reading(w, bs, |w|, nleft, seen, ready)
    ensures seen == bs
  {
    if |seen| < |bs| { HeaderWithin(w, bs, |seen|); }
  }

  /** Client and server joined by a connection that may break after any byte: the server
      sees a prefix of the client's sequence of burst ids and sizes, all of it once every
      byte has arrived and been read. */
  method Transfer(init: seq<Byte>, bufLen: nat, framecounter: bool, turns: seq<Turn>, cut: nat, readLen: int, polls: seq<Poll>)
    returns (bursts: seq<Burst>, seen: seq<Burst>, all: bool)
    requires bufLen <= |init| && HDR <= |init| && readLen > 0
    requires forall k :: 0 <= k < |turns| ==> TurnOk(turns[k])
    ensures seen <= bursts
    ensures all ==> seen == bursts
  {
    var wire;
    var sent, taken, short;
    ghost var starts;
    wire, bursts, sent, taken, short, starts := SendBursts(init, bufLen, framecounter, turns);
    var n := Min(cut, |wire|);
    FramedPrefix(wire, bursts, n);
    ghost var begun := Begun(bursts, n);
    var pos, nleft, ready, totLen;
    pos, nleft, seen, ready, totLen := ReceiveBursts(wire[..n], begun, readLen, polls);
    all := pos == |wire|;
    if all {
      assert wire[..n] == wire;
      ReadingMeans(wire, bursts, begun, nleft, seen, ready);
    }
  }

  lemma {:induction false} ReadingMeans(w: seq<Byte>, bs: seq<Burst>, begun: seq<Burst>, nleft: int, seen: seq<Burst>, ready: seq<int>)
    requires Framed(w, bs) && Reading(w, begun, |w|, nleft, seen, ready)
    ensures seen == bs
  {
    AllSeen(w, begun, nleft, seen, ready);
    FramedUnique(w, bs, begun);
  }

  /** A stream carries one sequence of bursts. */
  lemma {:induction false} FramedUnique(w: seq<Byte>, bs: seq<Burst>, cs: seq<Burst>)
    requires Framed(w, bs) && Framed(w, cs)
    ensures bs == cs
    decreases |bs|
  {
    if bs != [] && |w| >= bs[0].size {
      FramedUnique(w[bs[0].size..], bs[1..], cs[1..]);
      assert bs == [bs[0]] + bs[1..] && cs == [cs[0]] + cs[1..];
    }
  }
}
