/** Streaming one-way delay statistics: reporter_handle_packet_oneway_transit and the
    resets around it in jni/src/Reporter.c, over exact reals. */
module TransitStats {
  import opened Basics

  /** 2^128 - 2^104 and 2^-126. */
  const FLT_MAX: real := 340282346638528859811704183484516925440.0
  const FLT_MIN: real := 1.0 / 85070591730234615865843651857942052864.0

  // ---------- definitions over the samples ----------

  function Sum(xs: seq<real>): real {
    if xs == [] then 0.0 else Sum(xs[..|xs| - 1]) + xs[|xs| - 1]
  }

  /** Sum of the squared deviations from c. */
  function Spread(xs: seq<real>, c: real): real {
    if xs == [] then 0.0 else Spread(xs[..|xs| - 1], c) + Square(xs[|xs| - 1] - c)
  }

  function Square(x: real): real { x * x }

  function Mean(xs: seq<real>): real { if xs == [] then 0.0 else Sum(xs) / |xs| as real }

  /** Sum of squared deviations from the mean. */
  function Deviations(xs: seq<real>): real { Spread(xs, Mean(xs)) }

  predicate LeastOf(m: real, xs: seq<real>, start: real) {
    && (m == start || m in xs) && m <= start
    && forall k :: 0 <= k < |xs| ==> m <= xs[k]
  }

  predicate GreatestOf(m: real, xs: seq<real>, start: real) {
    && (m == start || m in xs) && m >= start
    && forall k :: 0 <= k < |xs| ==> m >= xs[k]
  }

  function Micros(xs: seq<real>): (us: seq<real>)
    ensures |us| == |xs|
  { if xs == [] then [] else Micros(xs[..|xs| - 1]) + [xs[|xs| - 1] * 1000000.0] }

  // ---------- Welford's update ----------

  datatype Welford = Welford(cnt: int, mean: real, m2: real)

  function Update(w: Welford, x: real): Welford
    requires w.cnt >= 0
  {
    var n := w.cnt + 1;
    var vd := x - w.mean;
    var mean := w.mean + vd / n as real;
    Welford(n, mean, w.m2 + vd * (x - mean))
  }

  function Shifted(q: real, s: real, n: real, c: real): real { q - 2.0 * c * s + n * c * c }

  lemma ShiftStep(a: real, q: real, s: real, n: real, c: real, x: real)
    requires a == Shifted(q, s, n, c)
    ensures a + Square(x - c) == Shifted(q + Square(x - 0.0), s + x, n + 1.0, c)
  {
  }

  /** Moving the centre of the squared deviations. */
  lemma {:induction false} SpreadShift(xs: seq<real>, c: real)
    ensures Spread(xs, c) == Shifted(Spread(xs, 0.0), Sum(xs), |xs| as real, c)
  {
    if xs != [] {
      var pre, x := xs[..|xs| - 1], xs[|xs| - 1];
      SpreadShift(pre, c);
      ShiftStep(Spread(pre, c), Spread(pre, 0.0), Sum(pre), |pre| as real, c, x);
    }
  }

  /** About the mean it is the sum of squares less mean times sum. */
  lemma DeviationsMoments(xs: seq<real>, mean: real)
    requires |xs| as real * mean == Sum(xs)
    ensures Spread(xs, mean) == Spread(xs, 0.0) - mean * Sum(xs)
  {
    SpreadShift(xs, mean);
    assert |xs| as real * mean * mean == mean * Sum(xs);
  }

  lemma MeanAlgebra(n: real, mean: real, s: real, x: real, mean': real)
    requires n >= 0.0 && n * mean == s && mean' == mean + (x - mean) / (n + 1.0)
    ensures (n + 1.0) * mean' == s + x
  {
    assert (n + 1.0) * ((x - mean) / (n + 1.0)) == x - mean;
  }

  lemma M2Algebra(n: real, mean: real, s: real, x: real, mean': real)
    requires n * mean == s && (n + 1.0) * mean' == s + x
    ensures (x - mean) * (x - mean') == x * x - mean' * (s + x) + mean * s
  {
    var t := n * mean + x - (n + 1.0) * mean';
    assert t == 0.0;
    assert mean * t == mean * s + mean * x - (n * mean) * mean' - mean * mean';
    assert mean' * s == (n * mean) * mean';
  }

  /** n values with sum s and sum of squares q, against the running mean and m2. */
  ghost predicate Moments(n: real, s: real, q: real, mean: real, m2: real, offset: real) {
    n * mean == s && m2 == q - mean * s + offset
  }

  lemma StepMoments(n: real, s: real, q: real, mean: real, m2: real, offset: real, x: real, mean': real)
    requires n >= 0.0 && Moments(n, s, q, mean, m2, offset) && mean' == mean + (x - mean) / (n + 1.0)
    ensures Moments(n + 1.0, s + x, q + x * x, mean', m2 + (x - mean) * (x - mean'), offset)
  {
    MeanAlgebra(n, mean, s, x, mean');
    M2Algebra(n, mean, s, x, mean');
  }

  /** What the update keeps: the running mean is the mean, and m2 exceeds the sum of squared
      deviations by a constant. */
  ghost predicate Tracks(w: Welford, us: seq<real>, offset: real) {
    w.cnt == |us| && Moments(|us| as real, Sum(us), Spread(us, 0.0), w.mean, w.m2, offset)
  }

  lemma AppendMoments(us: seq<real>, x: real)
    ensures Sum(us + [x]) == Sum(us) + x
    ensures Spread(us + [x], 0.0) == Spread(us, 0.0) + x * x
  {
    assert (us + [x])[..|us|] == us;
  }

  lemma UpdateMoments(w: Welford, n: real, s: real, q: real, offset: real, x: real, w': Welford)
    requires w.cnt >= 0 && n == w.cnt as real && Moments(n, s, q, w.mean, w.m2, offset) && w' == Update(w, x)
    ensures w'.cnt == w.cnt + 1 && Moments(n + 1.0, s + x, q + x * x, w'.mean, w'.m2, offset)
  {
    StepMoments(n, s, q, w.mean, w.m2, offset, x, w'.mean);
  }

  lemma TracksFrom(w: Welford, us: seq<real>, offset: real, n: real, s: real, q: real)
    requires Moments(n, s, q, w.mean, w.m2, offset) && w.cnt == |us| && n == |us| as real && s == Sum(us) && q == Spread(us, 0.0)
    ensures Tracks(w, us, offset)
  {
  }

  /** One sample more. */
  lemma UpdateTracks(w: Welford, us: seq<real>, offset: real, x: real, w': Welford)
    requires Tracks(w, us, offset) && w' == Update(w, x)
    ensures Tracks(w', us + [x], offset)
  {
    var n, s, q := |us| as real, Sum(us), Spread(us, 0.0);
    AppendMoments(us, x);
    UpdateMoments(w, n, s, q, offset, x, w');
    TracksFrom(w', us + [x], offset, n + 1.0, s + x, q + x * x);
  }

  lemma TracksMeaning(w: Welford, us: seq<real>, offset: real)
    requires Tracks(w, us, offset) && us != []
    ensures w.mean == Mean(us) && w.m2 == Deviations(us) + offset
  {
    DeviationsMoments(us, w.mean);
    assert w.mean == Sum(us) / |us| as real;
  }

  lemma MicrosAppend(xs: seq<real>, x: real)
    ensures Micros(xs + [x]) == Micros(xs) + [x * 1000000.0]
  {
    assert (xs + [x])[..|xs|] == xs;
  }

  lemma FirstTracks(u: real)
    ensures Tracks(Welford(1, u, u * u), [u], u * u)
  {
    AppendMoments([], u);
    assert [] + [u] == [u];
  }

  // ---------- jitter ----------

  /** Jitter after the samples xs, when it was last set to zero after the first z of them. */
  function Jitter(xs: seq<real>, z: nat): real {
    if |xs| <= 1 || |xs| <= z then 0.0
    else
      var n := |xs| - 1;
      var j := Jitter(xs[..n], z);
      j + (Abs(xs[n] - xs[n - 1]) - j) / 16.0
  }

  /** Jitter stays between zero and the largest difference of successive samples. */
  lemma {:induction false} JitterBounded(xs: seq<real>, z: nat, bound: real)
    requires bound >= 0.0 && forall k :: 0 < k < |xs| ==> Abs(xs[k] - xs[k - 1]) <= bound
    ensures 0.0 <= Jitter(xs, z) <= bound
  {
    if |xs| > 1 {
      var pre := xs[..|xs| - 1];
      forall k | 0 < k < |pre| ensures Abs(pre[k] - pre[k - 1]) <= bound {
        assert pre[k] == xs[k] && pre[k - 1] == xs[k - 1];
      }
      JitterBounded(pre, z, bound);
    }
  }

  /** The weight of a difference that k later ones follow: 15^k / 16^(k + 1). */
  function Weight(k: nat): real { if k == 0 then 1.0 / 16.0 else 15.0 / 16.0 * Weight(k - 1) }

  /** The weighted sum of the differences of successive samples from index lo on. */
  function Smoothed(xs: seq<real>, lo: nat): real
    requires lo >= 1
    decreases |xs| - lo
  {
    if lo >= |xs| then 0.0 else Weight(|xs| - 1 - lo) * Abs(xs[lo] - xs[lo - 1]) + Smoothed(xs, lo + 1)
  }

  lemma Mix(w: real, d: real, t: real, u: real, e: real, w': real)
    requires w' == 15.0 / 16.0 * w && t == 15.0 / 16.0 * u + e
    ensures w' * d + t == 15.0 / 16.0 * (w * d + u) + e
  {
    assert 15.0 / 16.0 * w * d == 15.0 / 16.0 * (w * d);
  }

  lemma SmoothedFrom(xs: seq<real>, lo: nat, w: real, d: real)
    requires 1 <= lo < |xs| && w == Weight(|xs| - 1 - lo) && d == Abs(xs[lo] - xs[lo - 1])
    ensures Smoothed(xs, lo) == w * d + Smoothed(xs, lo + 1)
  {
  }

  lemma {:induction false} SmoothedStep(xs: seq<real>, pre: seq<real>, lo: nat)
    requires 1 <= lo < |xs| && pre == xs[..|xs| - 1]
    ensures Smoothed(xs, lo) == 15.0 / 16.0 * Smoothed(pre, lo) + Abs(xs[|xs| - 1] - xs[|xs| - 2]) / 16.0
    decreases |xs| - lo
  {
    var n := |xs| - 1;
    if lo < n {
      SmoothedStep(xs, pre, lo + 1);
      var d, w, w' := Abs(xs[lo] - xs[lo - 1]), Weight(n - 1 - lo), Weight(n - lo);
      SmoothedFrom(xs, lo, w', d);
      SmoothedFrom(pre, lo, w, d);
      Mix(w, d, Smoothed(xs, lo + 1), Smoothed(pre, lo + 1), Abs(xs[n] - xs[n - 1]) / 16.0, w');
    }
  }

  /** The jitter filter of section 6.3.1 of RFC 1889 in closed form: each difference since the
      jitter was last zero counts a sixteenth, and fifteen sixteenths of that for every later
      one. */
  lemma {:induction false} JitterClosedForm(xs: seq<real>, z: nat)
    ensures Jitter(xs, z) == Smoothed(xs, if z == 0 then 1 else z)
  {
    if |xs| > 1 && |xs| > z {
      var pre := xs[..|xs| - 1];
      JitterClosedForm(pre, z);
      SmoothedStep(xs, pre, if z == 0 then 1 else z);
    }
  }

  // ---------- the counters ----------

  /** min, max, sum and Welford state of one track. */
  datatype Track = Track(least: real, greatest: real, sum: real, w: Welford)

  const EMPTY := Track(FLT_MAX, FLT_MIN, 0.0, Welford(0, 0.0, 0.0))

  function First(x: real): Track {
    var u := x * 1000000.0;
    Track(x, x, x, Welford(1, u, u * u))
  }

  function Next(t: Track, x: real): Track
    requires t.w.cnt >= 0
  {
    Track(if x < t.least then x else t.least, if x > t.greatest then x else t.greatest, t.sum + x,
          Update(t.w, x * 1000000.0))
  }

  /** The track of a run, which starts with its first sample, and of an interval after a
      reset. */
  function Total(xs: seq<real>): (t: Track)
    ensures t.w.cnt == |xs|
  {
    if xs == [] then EMPTY else if |xs| == 1 then First(xs[0]) else Next(Total(xs[..|xs| - 1]), xs[|xs| - 1])
  }

  function Interval(xs: seq<real>): (t: Track)
    ensures t.w.cnt == |xs|
  {
    if xs == [] then EMPTY else Next(Interval(xs[..|xs| - 1]), xs[|xs| - 1])
  }

  lemma Append(xs: seq<real>, x: real)
    ensures Total(xs + [x]) == if xs == [] then First(x) else Next(Total(xs), x)
    ensures Interval(xs + [x]) == Next(Interval(xs), x)
  {
    assert (xs + [x])[..|xs|] == xs;
  }

  lemma JitterAppend(xs: seq<real>, z: nat, x: real)
    requires xs != [] && z <= |xs|
    ensures Jitter(xs + [x], z) == Jitter(xs, z) + (Abs(x - xs[|xs| - 1]) - Jitter(xs, z)) / 16.0
  {
    assert (xs + [x])[..|xs|] == xs;
  }

  method NextJitter(jitter: real, lastTransit: real, transit: real, ghost xs: seq<real>, ghost z: nat) returns (jitter': real)
    requires xs != [] && z <= |xs| && lastTransit == xs[|xs| - 1] && jitter == Jitter(xs, z)
    ensures jitter' == Jitter(xs + [transit], z)
  {
    var delta := transit - lastTransit;
    if delta < 0.0 { delta := -delta; }
    JitterAppend(xs, z, transit);
    jitter' := jitter + (delta - jitter) / 16.0;
  }

  /** The two tracks after the samples of a run, `recent` of them since the last reset. */
  ghost predicate Follows(interval: Track, total: Track, samples: seq<real>, recent: seq<real>) {
    && total == Total(samples)
    && |recent| <= |samples| && (|recent| == |samples| ==> recent == samples)
    && interval == if |recent| == |samples| then total else Interval(recent)
  }

  method NextTracks(interval: Track, total: Track, x: real, ghost samples: seq<real>, ghost recent: seq<real>)
    returns (interval': Track, total': Track)
    requires Follows(interval, total, samples, recent) && samples != []
    ensures Follows(interval', total', samples + [x], recent + [x])
  {
    Append(samples, x);
    Append(recent, x);
    interval', total' := Next(interval, x), Next(total, x);
  }

  lemma FollowsFirst(interval: Track, total: Track, samples: seq<real>, recent: seq<real>, x: real)
    requires Follows(interval, total, samples, recent) && total.w.cnt == 0
    ensures Follows(First(x), First(x), samples + [x], recent + [x]) && samples == []
  {
    Append(samples, x);
    Append(recent, x);
  }

  class Transit {
    /** Statistics of the interval and of the run. */
    var interval: Track
    var total: Track
    var lastTransit: real
    var jitter: real
    /** All samples, and those since the last reset. */
    ghost var samples: seq<real>
    ghost var recent: seq<real>
    /** Packets received, empty reports not counted. */
    var datagrams: int
    /** How many samples there were when jitter was last set to zero. */
    ghost var zeroed: nat

    ghost predicate Valid()
      reads this
    {
      && Follows(interval, total, samples, recent)
      && (samples != [] ==> lastTransit == samples[|samples| - 1])
      && zeroed <= |samples| && jitter == Jitter(samples, zeroed)
    }

    constructor ()
      ensures Valid() && samples == [] && recent == []
    {
      interval, total, lastTransit, jitter := EMPTY, EMPTY, 0.0, 0.0;
      samples, recent, datagrams, zeroed := [], [], 0, 0;
    }

    /** reporter_handle_packet_oneway_transit. */
    method Sample(transit: real)
      requires Valid()
      modifies this
      ensures Valid() && samples == old(samples) + [transit] && recent == old(recent) + [transit]
      ensures zeroed == old(zeroed) && datagrams == old(datagrams)
    {
      if total.w.cnt == 0 {
        FirstSample(transit);
      } else {
        NextSample(transit);
      }
    }

    method FirstSample(transit: real)
      requires Valid() && total.w.cnt == 0
      modifies this
      ensures Valid() && samples == old(samples) + [transit] && recent == old(recent) + [transit]
      ensures zeroed == old(zeroed) && datagrams == old(datagrams)
    {
      FollowsFirst(interval, total, samples, recent, transit);
      interval, total := First(transit), First(transit);
      samples, recent := samples + [transit], recent + [transit];
      lastTransit := transit;
    }

    method NextSample(transit: real)
      requires Valid() && total.w.cnt > 0
      modifies this
      ensures Valid() && samples == old(samples) + [transit] && recent == old(recent) + [transit]
      ensures zeroed == old(zeroed) && datagrams == old(datagrams)
    {
      var jitter' := NextJitter(jitter, lastTransit, transit, samples, zeroed);
      var interval', total' := NextTracks(interval, total, transit, samples, recent);
      ghost var samples', recent' := samples + [transit], recent + [transit];
      assert Follows(interval', total', samples', recent');
      interval, total, jitter, lastTransit, samples, recent := interval', total', jitter', transit, samples', recent';
    }

    /** The transit part of the reset after an interval report. */
    method Reset()
      requires Valid()
      modifies this
      ensures Valid() && samples == old(samples) && recent == [] && zeroed == old(zeroed) && datagrams == old(datagrams)
    {
      interval := EMPTY;
      recent := [];
    }

    /** The transit part of reporter_handle_packet_server_udp: an empty report counts as a
        sample unless the interval has none yet. */
    method Handle(packetID: int, empty: bool, transit: real)
      requires Valid()
      modifies this
      ensures Valid() && zeroed == old(zeroed)
      ensures var skipped := packetID <= 0 || (empty && old(recent) == []);
        && samples == old(samples) + (if skipped then [] else [transit])
        && recent == old(recent) + (if skipped then [] else [transit])
        && datagrams == old(datagrams) + if skipped || empty then 0 else 1
    {
      if empty && interval.w.cnt == 0 {
        Reset();
      } else if packetID > 0 {
        Sample(transit);
        if !empty { datagrams := datagrams + 1; }
      }
    }

    /** What a report does to the statistics: jitter goes back to zero while there is a single
        packet, whatever timeouts were taken for samples, and an interval report resets. */
    method Report(final: bool)
      requires Valid()
      modifies this
      ensures Valid() && samples == old(samples) && recent == (if final then old(recent) else []) && datagrams == old(datagrams)
      ensures zeroed == if datagrams == 1 then |samples| else old(zeroed)
    {
      if datagrams == 1 {
        jitter, zeroed := 0.0, |samples|;
      }
      if !final { Reset(); }
    }
  }

  // ---------- what the tracks hold ----------

  /** A track of the samples xs, from the given first bounds, with m2 too high by `offset`. */
  ghost predicate Summarises(t: Track, xs: seq<real>, lo: real, hi: real, offset: real) {
    && t.sum == Sum(xs)
    && Tracks(t.w, Micros(xs), offset)
    && LeastOf(t.least, xs, lo) && GreatestOf(t.greatest, xs, hi)
  }

  lemma BoundsAppend(t: Track, xs: seq<real>, x: real, lo: real, hi: real)
    requires LeastOf(t.least, xs, lo) && GreatestOf(t.greatest, xs, hi) && t.w.cnt >= 0
    ensures var n := Next(t, x); LeastOf(n.least, xs + [x], lo) && GreatestOf(n.greatest, xs + [x], hi)
  {
    assert (xs + [x])[|xs|] == x;
    assert forall y :: y in xs ==> y in xs + [x];
  }

  lemma NextSummarises(t: Track, xs: seq<real>, x: real, lo: real, hi: real, offset: real)
    requires Summarises(t, xs, lo, hi, offset)
    ensures Summarises(Next(t, x), xs + [x], lo, hi, offset)
  {
    MicrosAppend(xs, x);
    UpdateTracks(t.w, Micros(xs), offset, x * 1000000.0, Update(t.w, x * 1000000.0));
    AppendMoments(xs, x);
    BoundsAppend(t, xs, x, lo, hi);
  }

  lemma {:induction false} IntervalSummarises(xs: seq<real>)
    ensures Summarises(Interval(xs), xs, FLT_MAX, FLT_MIN, 0.0)
  {
    if xs != [] {
      var pre, x := xs[..|xs| - 1], xs[|xs| - 1];
      IntervalSummarises(pre);
      NextSummarises(Interval(pre), pre, x, FLT_MAX, FLT_MIN, 0.0);
      assert xs == pre + [x];
    }
  }

  lemma {:induction false} TotalSummarises(xs: seq<real>, u: real)
    requires xs != [] && u == xs[0] * 1000000.0
    ensures Summarises(Total(xs), xs, xs[0], xs[0], u * u)
  {
    var pre, x := xs[..|xs| - 1], xs[|xs| - 1];
    assert xs == pre + [x];
    if pre == [] {
      FirstTracks(u);
      MicrosAppend([], x);
      AppendMoments([], x);
      assert [] + [x] == [x];
    } else {
      TotalSummarises(pre, u);
      NextSummarises(Total(pre), pre, x, xs[0], xs[0], u * u);
    }
  }

  /** After a reset, the interval's mean and m2 are exactly the mean and the sum of squared
      deviations of its samples; its minimum is theirs unless none is below FLT_MAX, and
      its maximum unless none is above FLT_MIN. */
  lemma IntervalExact(xs: seq<real>)
    requires xs != []
    ensures Interval(xs).w == Welford(|xs|, Mean(Micros(xs)), Deviations(Micros(xs)))
    ensures Interval(xs).sum == Sum(xs)
    ensures LeastOf(Interval(xs).least, xs, FLT_MAX) && GreatestOf(Interval(xs).greatest, xs, FLT_MIN)
  {
    IntervalSummarises(xs);
    TracksMeaning(Interval(xs).w, Micros(xs), 0.0);
  }

  /** Over the whole run the mean, sum, minimum and maximum are exact, and m2 is the sum of
      squared deviations plus the square of the first sample. */
  lemma TotalExact(xs: seq<real>, u: real)
    requires xs != [] && u == xs[0] * 1000000.0
    ensures Total(xs).w == Welford(|xs|, Mean(Micros(xs)), Deviations(Micros(xs)) + u * u)
    ensures Total(xs).sum == Sum(xs)
    ensures LeastOf(Total(xs).least, xs, xs[0]) && GreatestOf(Total(xs).greatest, xs, xs[0])
  {
    TotalSummarises(xs, u);
    TracksMeaning(Total(xs).w, Micros(xs), u * u);
  }

  /** The reported total variance is exact only for a run whose first sample is zero. */
  lemma VarianceExactIff(xs: seq<real>)
    requires xs != []
    ensures Total(xs).w.m2 == Deviations(Micros(xs)) <==> xs[0] == 0.0
  {
    var u := xs[0] * 1000000.0;
    TotalExact(xs, u);
    SquareZero(u);
  }

  /** Until the first reset the interval's track is the run's, offset and all; afterwards it is
      exact. */
  lemma IntervalVarianceIff(interval: Track, total: Track, samples: seq<real>, recent: seq<real>)
    requires Follows(interval, total, samples, recent) && recent != []
    ensures interval.w.m2 == Deviations(Micros(recent)) <==> recent != samples || samples[0] == 0.0
  {
    if |recent| == |samples| {
      VarianceExactIff(samples);
    } else {
      IntervalExact(recent);
    }
  }

  /** A single sample of one second has no deviation, and a reported m2 of its square. */
  lemma VarianceIsOff()
    ensures Deviations(Micros([1.0])) == 0.0 && Total([1.0]).w.m2 == 1000000.0 * 1000000.0
  {
    var us := Micros([1.0]);
    assert [1.0][..0] == [] && us == [1000000.0] && us[..0] == [];
    assert Sum(us) == 1000000.0 && Mean(us) == 1000000.0;
  }

  /** A single sample of minus one second is reported as a maximum of FLT_MIN. */
  lemma MaxIsOff()
    ensures Interval([-1.0]).greatest == FLT_MIN && FLT_MIN !in [-1.0]
  {
    assert [-1.0][..0] == [];
  }

  lemma SquareZero(u: real)
    ensures u * u == 0.0 <==> u == 0.0
  {
    if u != 0.0 { assert u * u / u == u; }
  }

  lemma GreatestIn(m: real, xs: seq<real>, start: real)
    requires GreatestOf(m, xs, start)
    ensures m in xs <==> exists k :: 0 <= k < |xs| && xs[k] >= start
  {
    if m in xs {
      var k :| 0 <= k < |xs| && xs[k] == m;
      assert xs[k] >= start;
    }
  }

  /** The interval's maximum is wrong exactly when every sample is below FLT_MIN, as with a
      receiver whose clock is behind the sender's. */
  lemma MaxExactIff(xs: seq<real>, t: Track)
    requires xs != [] && t == Interval(xs)
    ensures t.greatest in xs <==> exists k :: 0 <= k < |xs| && xs[k] >= FLT_MIN
  {
    IntervalSummarises(xs);
    GreatestIn(t.greatest, xs, FLT_MIN);
  }
}
