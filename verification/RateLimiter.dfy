/** The token bucket of RunRateLimitedTCP in jni/src/Client.cpp, over exact reals. */
module RateLimiter {
  import BurstFraming

  const HDR := BurstFraming.HDR

  /** The settings that the loop reads. */
  datatype Settings = Settings(bufLen: nat, modeAmount: bool, amount: nat, tripTime: bool)

  /** One turn of the send loop: seconds since the last one, the rate in bits per second, how
      many header bytes a new burst gets out, what the write returns. */
  datatype Turn = Turn(dt: real, rate: real, hdr: nat, wrote: int, fatal: bool)

  predicate TurnOk(t: Turn) { t.dt >= 0.0 && t.rate >= 0.0 && t.hdr <= HDR }

  predicate AllOk(ts: seq<Turn>) { forall k :: 0 <= k < |ts| ==> TurnOk(ts[k]) }

  /** Bytes earned since the last turn. */
  function Gain(t: Turn): (g: real)
    ensures TurnOk(t) ==> g >= 0.0
  { t.dt * (t.rate / 8.0) }

  function Credit(ts: seq<Turn>): real {
    if ts == [] then 0.0 else Credit(ts[..|ts| - 1]) + Gain(ts[|ts| - 1])
  }

  function Elapsed(ts: seq<Turn>): real {
    if ts == [] then 0.0 else Elapsed(ts[..|ts| - 1]) + ts[|ts| - 1].dt
  }

  lemma {:induction false} ConstantRate(ts: seq<Turn>, rate: real)
    requires forall k :: 0 <= k < |ts| ==> ts[k].rate == rate
    ensures Credit(ts) == rate / 8.0 * Elapsed(ts)
  {
    if ts != [] {
      ConstantRate(ts[..|ts| - 1], rate);
      Distribute(rate / 8.0, Elapsed(ts[..|ts| - 1]), ts[|ts| - 1].dt);
    }
  }

  lemma Distribute(a: real, b: real, c: real)
    ensures a * (b + c) == a * b + c * a
  {
  }

  // ---------- one turn ----------

  /** The state of the loop. `sent` counts what the socket took; `over` after a fatal write. */
  datatype Bucket = Bucket(tokens: real, totLen: int, sent: int, amount: int, remaining: int, over: bool)

  function Start(c: Settings): Bucket { Bucket(0.0, 0, 0, c.amount, 0, false) }

  /** The loop condition fails. */
  predicate Stopped(c: Settings, b: Bucket) { b.over || (c.modeAmount && b.amount == 0) }

  function Least(x: int, y: int): int { if x < y then x else y }

  function AtLeastZero(x: int): nat { if x < 0 then 0 else x }

  /** The turn writes, having the tokens. */
  predicate Writes(b: Bucket, t: Turn) { b.tokens + Gain(t) >= 0.0 }

  /** The turn begins a burst, so a header goes out before the write. */
  predicate Opens(c: Settings, b: Bucket, t: Turn) { c.tripTime && Writes(b, t) && b.remaining == 0 }

  /** Header bytes of the turn. */
  function HeaderBytes(c: Settings, b: Bucket, t: Turn): nat { if Opens(c, b, t) then t.hdr else 0 }

  /** What the write is asked for: the buffer or the rest of the amount, less the header or
      cut off at the end of the burst. */
  function Asked(c: Settings, b: Bucket, t: Turn): int {
    var whole := if c.modeAmount && b.amount < c.bufLen then b.amount else c.bufLen;
    if Opens(c, b, t) then whole - t.hdr
    else if c.tripTime && whole > b.remaining then b.remaining
    else whole
  }

  /** What the write takes: at most what it was asked for. */
  function Taken(c: Settings, b: Bucket, t: Turn): nat {
    if !Writes(b, t) || t.wrote < 0 then 0 else Least(t.wrote, AtLeastZero(Asked(c, b, t)))
  }

  /** What the turn charges: nothing if the write fails, header or not. */
  function Charged(c: Settings, b: Bucket, t: Turn): nat {
    if !Writes(b, t) || t.wrote < 0 then 0 else HeaderBytes(c, b, t) + Taken(c, b, t)
  }

  /** Header bytes that the turn sends and does not charge. */
  function Uncharged(c: Settings, b: Bucket, t: Turn): nat {
    if t.wrote < 0 then HeaderBytes(c, b, t) else 0
  }

  predicate Dies(b: Bucket, t: Turn) { Writes(b, t) && t.wrote < 0 && t.fatal }

  function Next(c: Settings, b: Bucket, t: Turn): Bucket {
    var n, len := HeaderBytes(c, b, t), Taken(c, b, t);
    Bucket(
      b.tokens + Gain(t) - Charged(c, b, t) as real,
      b.totLen + Charged(c, b, t),
      b.sent + n + len,
      if c.modeAmount && !Dies(b, t) then AtLeastZero(b.amount - (n + len)) else b.amount,
      if !(c.tripTime && Writes(b, t)) then b.remaining else (if Opens(c, b, t) then c.bufLen - n else b.remaining) - len,
      Dies(b, t))
  }

  /** The body under `tokens >= 0.0`, after the tokens were added. */
  method Write(c: Settings, b: Bucket, t: Turn, ghost before: Bucket) returns (b': Bucket)
    requires b == before.(tokens := before.tokens + Gain(t)) && b.tokens >= 0.0 && !b.over && b.amount >= 0
    ensures b' == Next(c, before, t)
  {
    b' := b;
    var packetLen: int := if c.modeAmount && b.amount < c.bufLen then b.amount else c.bufLen;
    var n: int := 0;
    if c.tripTime {
      if b'.remaining == 0 {
        n := t.hdr;
        b' := b'.(remaining := c.bufLen - n, sent := b'.sent + n);
        packetLen := packetLen - n;
      } else if packetLen > b'.remaining {
        packetLen := b'.remaining;
      }
    }
    var len := if t.wrote < 0 then t.wrote else Least(t.wrote, AtLeastZero(packetLen));
    if len < 0 {
      if t.fatal { return b'.(over := true); }
      len := 0;
    } else {
      b' := b'.(tokens := b'.tokens - (len + n) as real, totLen := b'.totLen + (len + n), sent := b'.sent + len);
    }
    if c.tripTime { b' := b'.(remaining := b'.remaining - len); }
    if c.modeAmount {
      b' := b'.(amount := if b'.amount >= len + n then b'.amount - (len + n) else 0);
    }
  }

  // ---------- runs ----------

  function After(c: Settings, ts: seq<Turn>): Bucket {
    if ts == [] then Start(c)
    else
      var b := After(c, ts[..|ts| - 1]);
      if Stopped(c, b) then b else Next(c, b, ts[|ts| - 1])
  }

  /** Turns that the loop takes. */
  function Turns(c: Settings, ts: seq<Turn>): (n: nat)
    ensures n <= |ts|
  {
    if ts == [] then 0
    else if Stopped(c, After(c, ts[..|ts| - 1])) then Turns(c, ts[..|ts| - 1]) else |ts|
  }

  /** The send loop. */
  method Run(c: Settings, turns: seq<Turn>) returns (b: Bucket)
    requires AllOk(turns)
    ensures b == After(c, turns)
  {
    b := Bucket(0.0, 0, 0, c.amount, 0, false);
    var i := 0;
    while i < |turns| && !(b.over || (c.modeAmount && b.amount == 0))
      invariant 0 <= i <= |turns| && b == After(c, turns[..i]) && b.amount >= 0
    {
      var t := turns[i];
      ghost var before := b;
      assert turns[..i + 1][..i] == turns[..i];
      i := i + 1;
      b := b.(tokens := b.tokens + Gain(t));
      if b.tokens >= 0.0 { b := Write(c, b, t, before); }
    }
    AfterStopped(c, turns, i);
  }

  lemma {:induction false} AfterStopped(c: Settings, ts: seq<Turn>, n: nat)
    requires n <= |ts| && (n == |ts| || Stopped(c, After(c, ts[..n])))
    ensures After(c, ts) == After(c, ts[..n])
    decreases |ts|
  {
    if n < |ts| {
      var pre := ts[..|ts| - 1];
      assert pre[..n] == ts[..n];
      AfterStopped(c, pre, n);
    } else {
      assert ts[..n] == ts;
    }
  }

  /** The most that one turn can charge. */
  function Largest(c: Settings): nat { if c.tripTime && c.bufLen < HDR then HDR else c.bufLen }

  lemma ChargeFits(c: Settings, b: Bucket, t: Turn)
    requires TurnOk(t)
    ensures Charged(c, b, t) <= Largest(c)
  {
  }

  /** The tokens are the credit less the bytes counted, which exceed the credit by at most
      `most`. */
  ghost predicate Balanced(b: Bucket, credit: real, most: nat) {
    b.tokens == credit - b.totLen as real && 0 <= b.totLen && b.totLen as real <= credit + most as real
  }

  /** At every step the tokens are what was earned less what was charged, and so the bytes
      charged never exceed those earned by more than one write. */
  lemma {:induction false} TokensExact(c: Settings, ts: seq<Turn>)
    requires AllOk(ts)
    ensures Balanced(After(c, ts), Credit(ts[..Turns(c, ts)]), Largest(c))
  {
    if ts != [] {
      var pre, t := ts[..|ts| - 1], ts[|ts| - 1];
      TokensExact(c, pre);
      var b := After(c, pre);
      if Stopped(c, b) {
        assert pre[..Turns(c, pre)] == ts[..Turns(c, pre)];
      } else {
        ChargeFits(c, b, t);
        TurnsAll(c, pre);
        assert pre[..|pre|] == pre && ts[..|ts|] == ts;
      }
    }
  }

  lemma {:induction false} TurnsAll(c: Settings, ts: seq<Turn>)
    requires !Stopped(c, After(c, ts))
    ensures Turns(c, ts) == |ts|
  {
  }

  /** The bound of the limiter on the bytes that it counts, at a constant rate. */
  lemma ConstantRateBound(c: Settings, ts: seq<Turn>, rate: real) returns (b: Bucket, used: seq<Turn>)
    requires AllOk(ts) && forall k :: 0 <= k < |ts| ==> ts[k].rate == rate
    ensures b == After(c, ts) && used == ts[..Turns(c, ts)]
    ensures Balanced(b, rate / 8.0 * Elapsed(used), Largest(c))
  {
    b, used := TokensTaken(c, ts);
    BalancedAtRate(b, used, rate, Largest(c));
  }

  lemma TokensTaken(c: Settings, ts: seq<Turn>) returns (b: Bucket, used: seq<Turn>)
    requires AllOk(ts)
    ensures b == After(c, ts) && used == ts[..Turns(c, ts)]
    ensures Balanced(b, Credit(used), Largest(c))
  {
    b, used := After(c, ts), ts[..Turns(c, ts)];
    TokensExact(c, ts);
  }

  lemma BalancedAtRate(b: Bucket, used: seq<Turn>, rate: real, most: nat)
    requires Balanced(b, Credit(used), most) && forall k :: 0 <= k < |used| ==> used[k].rate == rate
    ensures Balanced(b, rate / 8.0 * Elapsed(used), most)
  {
    ConstantRate(used, rate);
  }

  // ---------- what the socket took ----------

  /** Header bytes of turn k that go uncharged. */
  function UnchargedAt(c: Settings, ts: seq<Turn>, k: nat): nat
    requires k < |ts|
  {
    var b := After(c, ts[..k]);
    if Stopped(c, b) then 0 else Uncharged(c, b, ts[k])
  }

  function AllUncharged(c: Settings, ts: seq<Turn>): nat {
    if ts == [] then 0 else AllUncharged(c, ts[..|ts| - 1]) + UnchargedAt(c, ts, |ts| - 1)
  }

  /** The socket took exactly what was counted and the headers whose burst's first write
      failed; so what it took is within one write and those headers of the credit. */
  lemma {:induction false} SentExact(c: Settings, ts: seq<Turn>)
    requires AllOk(ts)
    ensures After(c, ts).sent == After(c, ts).totLen + AllUncharged(c, ts)
    ensures After(c, ts).sent as real <= Credit(ts[..Turns(c, ts)]) + (Largest(c) + AllUncharged(c, ts)) as real
  {
    TokensExact(c, ts);
    if ts != [] { SentExact(c, ts[..|ts| - 1]); }
  }

  /** Turn k begins a burst, gets header bytes out, and has its write fail. */
  predicate LosesHeader(c: Settings, ts: seq<Turn>, k: nat)
    requires k < |ts|
  {
    var b, t := After(c, ts[..k]), ts[k];
    !Stopped(c, b) && Opens(c, b, t) && t.hdr > 0 && t.wrote < 0
  }

  /** Every byte that the socket took is counted if and only if no turn that begins a burst has
      its write fail after header bytes went out. */
  lemma {:induction false} SentCountedIff(c: Settings, ts: seq<Turn>)
    requires AllOk(ts)
    ensures After(c, ts).sent == After(c, ts).totLen <==> forall k :: 0 <= k < |ts| ==> !LosesHeader(c, ts, k)
  {
    SentExact(c, ts);
    UnchargedIff(c, ts);
  }

  lemma {:induction false} UnchargedIff(c: Settings, ts: seq<Turn>)
    ensures AllUncharged(c, ts) == 0 <==> forall k :: 0 <= k < |ts| ==> !LosesHeader(c, ts, k)
  {
    if ts != [] {
      var pre := ts[..|ts| - 1];
      UnchargedIff(c, pre);
      forall k | 0 <= k < |pre| ensures LosesHeader(c, pre, k) == LosesHeader(c, ts, k) {
        assert pre[..k] == ts[..k];
      }
      assert LosesHeader(c, ts, |ts| - 1) <==> UnchargedAt(c, ts, |ts| - 1) > 0;
    }
  }

  /** The amount left is what was asked for less what was sent, down to zero; without trip
      times nothing is sent uncounted, and no more than the amount. */
  lemma {:induction false} AmountKept(c: Settings, ts: seq<Turn>)
    requires AllOk(ts)
    ensures var b := After(c, ts);
      && (if c.modeAmount then !b.over ==> b.amount == AtLeastZero(c.amount - b.sent) else b.amount == c.amount)
      && (!c.tripTime ==> b.sent == b.totLen && (c.modeAmount ==> b.amount == c.amount - b.sent >= 0))
  {
    if ts != [] { AmountKept(c, ts[..|ts| - 1]); }
  }

  /** What a turn sends without trip times: nothing without tokens or if the write fails, else
      as much as the write takes of the buffer or of what is left to send. */
  lemma WriteSize(c: Settings, ts: seq<Turn>, t: Turn) returns (b: Bucket, b': Bucket)
    requires AllOk(ts) && !c.tripTime && !Stopped(c, After(c, ts))
    ensures b == After(c, ts) && b' == After(c, ts + [t])
    ensures c.modeAmount ==> b.amount == c.amount - b.sent
    ensures b'.sent - b.sent == if !Writes(b, t) || t.wrote < 0 then 0
      else if c.modeAmount then Least(t.wrote, Least(c.bufLen, b.amount)) else Least(t.wrote, c.bufLen)
  {
    AmountKept(c, ts);
    AfterNext(c, ts, t);
    b, b' := After(c, ts), After(c, ts + [t]);
    NextSize(c, b, t);
  }

  lemma NextSize(c: Settings, b: Bucket, t: Turn)
    requires !c.tripTime && b.amount >= 0
    ensures Next(c, b, t).sent - b.sent == if !Writes(b, t) || t.wrote < 0 then 0
      else if c.modeAmount then Least(t.wrote, Least(c.bufLen, b.amount)) else Least(t.wrote, c.bufLen)
  {
  }

  /** Turn k is taken and its write fails fatally. */
  predicate FatalAt(c: Settings, ts: seq<Turn>, k: nat)
    requires k < |ts|
  {
    var b, t := After(c, ts[..k]), ts[k];
    !Stopped(c, b) && b.tokens + Gain(t) >= 0.0 && t.wrote < 0 && t.fatal
  }

  /** The loop is left for good on a write that fails fatally, and on no other. */
  lemma {:induction false} OverIff(c: Settings, ts: seq<Turn>)
    ensures After(c, ts).over <==> exists k :: 0 <= k < |ts| && FatalAt(c, ts, k)
  {
    if ts != [] {
      var n := |ts| - 1;
      var pre := ts[..n];
      OverIff(c, pre);
      forall k | 0 <= k < n ensures FatalAt(c, pre, k) == FatalAt(c, ts, k) { assert pre[..k] == ts[..k]; }
      if After(c, pre).over {
        var k :| 0 <= k < n && FatalAt(c, pre, k);
        assert FatalAt(c, ts, k);
      } else {
        assert After(c, ts).over <==> FatalAt(c, ts, n);
      }
    }
  }

  /** Once that has happened, or the amount asked for has been sent, nothing changes any more;
      until then the loop goes on. */
  lemma StopsIff(c: Settings, ts: seq<Turn>, t: Turn) returns (b: Bucket)
    requires AllOk(ts)
    ensures b == After(c, ts) && (Stopped(c, b) <==> b.over || (c.modeAmount && b.sent >= c.amount))
    ensures Stopped(c, b) ==> After(c, ts + [t]) == b
    ensures !Stopped(c, b) ==> After(c, ts + [t]) == Next(c, b, t)
  {
    b := After(c, ts);
    AmountKept(c, ts);
    assert (ts + [t])[..|ts|] == ts;
  }

  /** Buffers' worth of bursts begun. */
  function Begun(c: Settings, ts: seq<Turn>): int {
    if ts == [] then 0
    else
      var b := After(c, ts[..|ts| - 1]);
      Begun(c, ts[..|ts| - 1]) + if !Stopped(c, b) && Opens(c, b, ts[|ts| - 1]) then c.bufLen else 0
  }

  /** With trip times, bursts are a buffer long: what was sent and what is left of the open
      burst make up the bursts begun. */
  lemma {:induction false} BurstsWhole(c: Settings, ts: seq<Turn>)
    requires AllOk(ts) && c.tripTime
    ensures After(c, ts).sent + After(c, ts).remaining == Begun(c, ts)
  {
    if ts != [] { BurstsWhole(c, ts[..|ts| - 1]); }
  }

  // ---------- a bound on what the socket took ----------

  /** Uncharged headers are paid for by the bytes of their bursts: u header bytes of at most m
      each, bursts of `size`, `paid` bytes counted or still to come of the open burst. */
  ghost predicate Covered(u: int, m: int, size: int, paid: int) { u * (size - m) <= m * paid }

  lemma CoveredMore(u: int, m: int, size: int, paid: int, n: int, more: int)
    requires Covered(u, m, size, paid) && 0 <= n <= m < size && more >= size - n
    ensures Covered(u + n, m, size, paid + more)
  {
    assert n * (size - m) <= m * (size - n) by {
      assert m * (size - n) - n * (size - m) == (m - n) * size;
      Product(m - n, size);
    }
    assert m * more >= m * (size - n) by { Product(m, more - (size - n)); }
    assert (u + n) * (size - m) == u * (size - m) + n * (size - m);
    assert m * (paid + more) == m * paid + m * more;
  }

  lemma Product(x: int, y: int)
    requires x >= 0 && y >= 0
    ensures x * y >= 0
  {
  }

  lemma CoveredKept(u: int, m: int, size: int, paid: int, more: int)
    requires Covered(u, m, size, paid) && m >= 0 && more >= 0
    ensures Covered(u, m, size, paid + more)
  {
    assert m * (paid + more) == m * paid + m * more;
    Product(m, more);
  }

  /** What a turn does to the open burst, when the buffer holds a header. */
  lemma BurstTurn(c: Settings, b: Bucket, t: Turn)
    requires c.tripTime && HDR <= c.bufLen && TurnOk(t) && 0 <= b.remaining <= c.bufLen && 0 <= b.amount
    ensures var b' := Next(c, b, t); var u := Uncharged(c, b, t); var more := b'.totLen + b'.remaining - b.totLen - b.remaining;
      && 0 <= b'.remaining <= c.bufLen && 0 <= b'.amount
      && more >= 0 && (u > 0 ==> more == c.bufLen - u)
  {
  }

  /** With headers of at most m uncharged bytes and a larger buffer: every uncharged byte is
      paid for by counted bytes, m to bufLen - m, and so is what the socket took. */
  lemma {:induction false} HeadersPaidFor(c: Settings, ts: seq<Turn>, m: nat)
    requires AllOk(ts) && c.tripTime && HDR <= c.bufLen && m < c.bufLen
    requires forall k :: 0 <= k < |ts| ==> UnchargedAt(c, ts, k) <= m
    ensures var b := After(c, ts);
      && 0 <= b.remaining <= c.bufLen && 0 <= b.amount
      && Covered(AllUncharged(c, ts), m, c.bufLen, b.totLen + b.remaining)
  {
    if ts != [] {
      var n := |ts| - 1;
      var pre := ts[..n];
      forall k | 0 <= k < n ensures UnchargedAt(c, pre, k) <= m { UnchargedPrefix(c, ts, n, k); }
      HeadersPaidFor(c, pre, m);
      var b := After(c, pre);
      assert UnchargedAt(c, ts, n) == if Stopped(c, b) then 0 else Uncharged(c, b, ts[n]);
      if !Stopped(c, b) { PaidTurn(c, b, ts[n], AllUncharged(c, pre), m); }
    }
  }

  lemma UnchargedPrefix(c: Settings, ts: seq<Turn>, n: nat, k: nat)
    requires k < n <= |ts|
    ensures UnchargedAt(c, ts[..n], k) == UnchargedAt(c, ts, k)
  {
    assert ts[..n][..k] == ts[..k];
  }

  lemma PaidTurn(c: Settings, b: Bucket, t: Turn, u: nat, m: nat)
    requires c.tripTime && HDR <= c.bufLen && TurnOk(t) && 0 <= b.remaining <= c.bufLen && 0 <= b.amount && m < c.bufLen
    requires Uncharged(c, b, t) <= m && Covered(u, m, c.bufLen, b.totLen + b.remaining)
    ensures var b' := Next(c, b, t);
      && 0 <= b'.remaining <= c.bufLen && 0 <= b'.amount
      && Covered(u + Uncharged(c, b, t), m, c.bufLen, b'.totLen + b'.remaining)
  {
    BurstTurn(c, b, t);
    var b', n, paid := Next(c, b, t), Uncharged(c, b, t), b.totLen + b.remaining;
    var more := b'.totLen + b'.remaining - paid;
    if n > 0 { CoveredMore(u, m, c.bufLen, paid, n, more); } else { CoveredKept(u, m, c.bufLen, paid, more); }
  }

  lemma SentFromCovered(sent: int, totLen: int, u: int, m: int, size: int, remaining: int)
    requires sent == totLen + u && Covered(u, m, size, totLen + remaining) && 0 <= m && remaining <= size
    ensures sent * (size - m) <= size * (totLen + m)
  {
    assert sent * (size - m) == totLen * (size - m) + u * (size - m);
    assert totLen * (size - m) + m * (totLen + remaining) == size * totLen + m * remaining;
    assert m * (size - remaining) >= 0 by { Product(m, size - remaining); }
    assert m * size - m * remaining == m * (size - remaining);
    assert size * (totLen + m) == size * totLen + m * size;
  }

  /** The bound on the wire: with a buffer larger than a header, the bytes that the socket took
      exceed those counted by no more than a header and a fixed share. */
  lemma WireBound(c: Settings, ts: seq<Turn>)
    requires AllOk(ts) && c.tripTime && HDR < c.bufLen
    ensures After(c, ts).sent * (c.bufLen - HDR) <= c.bufLen * (After(c, ts).totLen + HDR)
  {
    var b := After(c, ts);
    HeadersPaidFor(c, ts, HDR);
    SentExact(c, ts);
    SentFromCovered(b.sent, b.totLen, AllUncharged(c, ts), HDR, c.bufLen, b.remaining);
  }

  /** The same against the credit: at most bufLen / (bufLen - HDR) times the credit, one write
      and a header. */
  lemma WireBoundCredit(c: Settings, ts: seq<Turn>) returns (b: Bucket, credit: real)
    requires AllOk(ts) && c.tripTime && HDR < c.bufLen
    ensures b == After(c, ts) && credit == Credit(ts[..Turns(c, ts)])
    ensures WithinShare(b.sent, credit, c.bufLen)
  {
    b, credit := WireTaken(c, ts);
    ShareOf(b, credit, c.bufLen);
  }

  ghost predicate WithinShare(sent: int, credit: real, size: int) {
    size > HDR && sent as real <= size as real / (size - HDR) as real * (credit + size as real + HDR as real)
  }

  lemma ShareOf(b: Bucket, credit: real, size: nat)
    requires size > HDR && b.sent * (size - HDR) <= size * (b.totLen + HDR) && Balanced(b, credit, size)
    ensures WithinShare(b.sent, credit, size)
  {
    Ratio(b.sent, size, size - HDR, b.totLen + HDR, credit + size as real + HDR as real);
  }

  lemma WireTaken(c: Settings, ts: seq<Turn>) returns (b: Bucket, credit: real)
    requires AllOk(ts) && c.tripTime && HDR < c.bufLen
    ensures b == After(c, ts) && credit == Credit(ts[..Turns(c, ts)])
    ensures b.sent * (c.bufLen - HDR) <= c.bufLen * (b.totLen + HDR) && Balanced(b, credit, c.bufLen)
  {
    b, credit := After(c, ts), Credit(ts[..Turns(c, ts)]);
    TokensExact(c, ts);
    WireBound(c, ts);
  }

  lemma Sign(x: real, e: real)
    requires e > 0.0 && x * e >= 0.0
    ensures x >= 0.0
  {
    assert x == x * e / e;
  }

  lemma Ratio(sent: int, size: int, d: int, x: int, y: real)
    requires sent * d <= size * x && 0 < d && 0 <= size && x as real <= y
    ensures sent as real <= size as real / d as real * y
  {
    var s, n, e, z := sent as real, size as real, d as real, x as real;
    assert s * e <= n * z by {
      assert (sent * d) as real == s * e && (size * x) as real == n * z;
    }
    assert n * z <= n * y by { assert n * (y - z) >= 0.0; }
    var q := n / e * y;
    assert q * e == n * y;
    Sign(q - s, e);
  }

  /** A write of no bytes does not fail. */
  predicate EmptyWritesPass(c: Settings, ts: seq<Turn>) {
    forall k :: 0 <= k < |ts| ==> EmptyPasses(c, After(c, ts[..k]), ts[k])
  }

  predicate EmptyPasses(c: Settings, b: Bucket, t: Turn) { Asked(c, b, t) <= 0 ==> t.wrote >= 0 }

  /** A buffer of exactly a header leaves nothing to write after a whole one, so only parts of
      headers go uncharged and the bound is that of parts. */
  lemma WireBoundTight(c: Settings, ts: seq<Turn>)
    requires AllOk(ts) && c.tripTime && c.bufLen == HDR && EmptyWritesPass(c, ts)
    ensures After(c, ts).sent <= HDR * (After(c, ts).totLen + HDR - 1)
  {
    var b := After(c, ts);
    forall k | 0 <= k < |ts| ensures UnchargedAt(c, ts, k) <= HDR - 1 {
      assert EmptyPasses(c, After(c, ts[..k]), ts[k]);
    }
    HeadersPaidFor(c, ts, HDR - 1);
    SentExact(c, ts);
    SentFromCovered(b.sent, b.totLen, AllUncharged(c, ts), HDR - 1, c.bufLen, b.remaining);
  }

  /** The bound on the bytes counted holds of the bytes sent if and only if the uncharged
      headers fit what is left of the allowance. */
  lemma SimpleBoundIff(c: Settings, ts: seq<Turn>)
    requires AllOk(ts)
    ensures After(c, ts).sent as real <= Credit(ts[..Turns(c, ts)]) + Largest(c) as real <==>
      AllUncharged(c, ts) as real <= After(c, ts).tokens + Largest(c) as real
  {
    TokensExact(c, ts);
    SentExact(c, ts);
  }

  lemma AfterNext(c: Settings, ts: seq<Turn>, t: Turn)
    requires !Stopped(c, After(c, ts))
    ensures After(c, ts + [t]) == Next(c, After(c, ts), t)
  {
    assert (ts + [t])[..|ts|] == ts;
  }

  /** A burst whose first write fails for the moment, its body of d bytes, and one second later,
      with just enough tokens, a whole burst. */
  function Overdrawn(d: nat): seq<Turn> {
    [] + [Turn(0.0, 0.0, HDR, -1, false)] + [Turn(0.0, 0.0, 0, d, false)] + [Turn(1.0, 8.0 * d as real, HDR, d, false)]
  }

  lemma FirstFails(c: Settings, d: nat)
    requires c == Settings(d + HDR, false, 0, true) && d > 0
    ensures Next(c, Bucket(0.0, 0, 0, 0, 0, false), Turn(0.0, 0.0, HDR, -1, false)) == Bucket(0.0, 0, HDR, 0, d, false)
  {
  }

  lemma BodyFollows(c: Settings, d: nat)
    requires c == Settings(d + HDR, false, 0, true) && d > 0
    ensures Next(c, Bucket(0.0, 0, HDR, 0, d, false), Turn(0.0, 0.0, 0, d, false)) == Bucket(-(d as real), d, d + HDR, 0, 0, false)
  {
  }

  lemma BurstFollows(c: Settings, d: nat)
    requires c == Settings(d + HDR, false, 0, true) && d > 0
    ensures Next(c, Bucket(-(d as real), d, d + HDR, 0, 0, false), Turn(1.0, 8.0 * d as real, HDR, d, false)) ==
      Bucket(-((d + HDR) as real), 2 * d + HDR, 2 * d + 2 * HDR, 0, 0, false)
  {
    assert 1.0 * (8.0 * d as real / 8.0) == d as real;
  }

  /** For every buffer larger than a header, here by d bytes, that is more than the credit and
      one write: the first header is on the wire and not in the count. */
  lemma HeaderUncounted(d: nat)
    requires d > 0
    ensures var c, ts := Settings(d + HDR, false, 0, true), Overdrawn(d);
      After(c, ts).totLen == 2 * d + HDR && After(c, ts).sent == 2 * d + 2 * HDR
    ensures AllOk(Overdrawn(d)) && Credit(Overdrawn(d)) == d as real
    ensures var c, ts := Settings(d + HDR, false, 0, true), Overdrawn(d);
      After(c, ts).sent as real > Credit(ts) + Largest(c) as real
  {
    OverdrawnAfter(d);
    OverdrawnCredit(d);
  }

  lemma OverdrawnAfter(d: nat)
    requires d > 0
    ensures After(Settings(d + HDR, false, 0, true), Overdrawn(d)) ==
      Bucket(-((d + HDR) as real), 2 * d + HDR, 2 * d + 2 * HDR, 0, 0, false)
  {
    var c := Settings(d + HDR, false, 0, true);
    FirstFails(c, d);
    AfterNext(c, [], Turn(0.0, 0.0, HDR, -1, false));
    BodyFollows(c, d);
    AfterNext(c, [] + [Turn(0.0, 0.0, HDR, -1, false)], Turn(0.0, 0.0, 0, d, false));
    BurstFollows(c, d);
    AfterNext(c, [] + [Turn(0.0, 0.0, HDR, -1, false)] + [Turn(0.0, 0.0, 0, d, false)], Turn(1.0, 8.0 * d as real, HDR, d, false));
  }

  lemma OverdrawnCredit(d: nat)
    ensures AllOk(Overdrawn(d)) && Credit(Overdrawn(d)) == d as real
  {
    CreditMore([], Turn(0.0, 0.0, HDR, -1, false));
    CreditMore([] + [Turn(0.0, 0.0, HDR, -1, false)], Turn(0.0, 0.0, 0, d, false));
    CreditMore([] + [Turn(0.0, 0.0, HDR, -1, false)] + [Turn(0.0, 0.0, 0, d, false)], Turn(1.0, 8.0 * d as real, HDR, d, false));
    assert Gain(Turn(1.0, 8.0 * d as real, HDR, d, false)) == d as real;
  }

  lemma CreditMore(ts: seq<Turn>, t: Turn)
    ensures Credit(ts + [t]) == Credit(ts) + Gain(t)
  {
    assert (ts + [t])[..|ts|] == ts;
  }
}
