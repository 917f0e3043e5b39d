/** What the accumulators mean: conservation, range, and the statistics of the
    feature vector, over exact reals. */
module FlowFeatures {
  import opened FlowAccounting

  // ----- conservation and range

  lemma {:induction false} LengthsAreConserved(h: Run<Packet>)
    ensures Sum(Lens(h)) == Sum(Lens(Dir(h, true))) + Sum(Lens(Dir(h, false)))
    ensures Len(Lens(h)) == Len(h) == Len(Dir(h, true)) + Len(Dir(h, false))
    ensures Len(Gaps(h)) == if h == Nil then 0 else Len(h) - 1
  {
    if h.Snoc? {
      LengthsAreConserved(h.init);
    }
  }

  /** On the record itself, in machine arithmetic and for every flow: bytes of both directions are
      the total, and one gap was counted fewer than packets. */
  lemma {:induction false} RecordIsConserved(l: Lengths, t: Times, h: Run<Packet>)
    requires LengthsOk(l, h) && TimesOk(t, h)
    ensures l.sum == Wrap(l.bytesFwd + l.bytesBwd, U64)
    ensures h.Snoc? ==> l.count == Wrap(t.iatCount + 1, U32)
  {
    LengthsAreConserved(h);
    var fwd, bwd := Sum(Lens(Dir(h, true))), Sum(Lens(Dir(h, false)));
    WrapAdd(fwd, Wrap(bwd, U64), U64);
    WrapAdd(bwd, fwd, U64);
    WrapAdd(Len(Gaps(h)), 1, U32);
  }

  /** Readings never go back. The hook reads the clock before taking the flow's lock,
      so this is an assumption about a run, not something the hook enforces. */
  ghost predicate Ordered(h: Run<Packet>) {
    match h
    case Nil => true
    case Snoc(Nil, _) => true
    case Snoc(init, p) => init.last.now <= p.now && Ordered(init)
  }

  ghost predicate Unclamped(h: Run<Packet>) {
    match h
    case Nil => true
    case Snoc(Nil, _) => true
    case Snoc(init, p) => p.now - init.last.now < 1000 * U32 && Unclamped(init)
  }

  lemma {:induction false} GapBounds(before: u64, now: u64)
    requires before <= now
    ensures 1000 * GapUs(before, now) <= now - before
    ensures now - before < 1000 * U32 ==> now - before < 1000 * GapUs(before, now) + 1000
  {
    assert (now - before) % U64 == now - before;
  }

  /** Rounding and clamping only lose time: the gaps add up to at most the duration,
      and without clamping to all of it but less than a microsecond a gap. */
  lemma {:induction false} GapsFillTheDuration(h: Run<Packet>)
    requires Ordered(h)
    ensures FirstNs(h) <= LastNs(h)
    ensures 1000 * Sum(Gaps(h)) <= LastNs(h) - FirstNs(h)
    ensures Unclamped(h) ==> LastNs(h) - FirstNs(h) <= 1000 * Sum(Gaps(h)) + 999 * Len(Gaps(h))
  {
    if h.Snoc? && h.init.Snoc? {
      GapsFillTheDuration(h.init);
      GapBounds(h.init.last.now, h.last.now);
    }
  }

  /** No gap of a flow that lasts less than 2^32 microseconds is clamped. */
  lemma {:induction false} WithinTheClamp(h: Run<Packet>)
    requires Ordered(h) && LastNs(h) - FirstNs(h) < 1000 * 0x1_0000_0000
    ensures Unclamped(h)
  {
    if h.Snoc? && h.init.Snoc? {
      GapsFillTheDuration(h.init);
      WithinTheClamp(h.init);
    }
  }

  /** One direction of a flow is ordered too, and lies within the flow. */
  lemma {:induction false} DirectionLiesWithin(h: Run<Packet>, o: bool)
    requires Ordered(h)
    ensures Ordered(Dir(h, o)) && LastNs(Dir(h, o)) <= LastNs(h)
    ensures Dir(h, o).Snoc? ==> FirstNs(h) <= FirstNs(Dir(h, o))
  {
    if h.Snoc? {
      GapsFillTheDuration(h);
      if h.init.Snoc? {
        DirectionLiesWithin(h.init, o);
      }
    }
  }

  lemma {:induction false} SquaresWithinTheSquare(xs: Run<nat>)
    ensures SumSq(xs) <= Sum(xs) * Sum(xs)
  {
    if xs.Snoc? {
      SquaresWithinTheSquare(xs.init);
      var s, x := Sum(xs.init), xs.last;
      assert (s + x) * (s + x) == s * s + 2 * (s * x) + x * x;
      assert s * x >= 0;
    }
  }

  lemma {:induction false} LengthSumsAreBounded(h: Run<Packet>)
    requires AllWellFormed(h)
    ensures Sum(Lens(h)) <= U16_MAX * Len(h)
    ensures SumSq(Lens(h)) <= U16_MAX * U16_MAX * Len(h)
    ensures Len(h) < U32 ==> Sum(Lens(h)) < U64 && SumSq(Lens(h)) < U64
  {
    if h.Snoc? {
      LengthSumsAreBounded(h.init);
      PayloadFits(h.last);
      SquareIsMonotone(PayloadLen(h.last), U16_MAX);
    }
  }

  lemma {:induction false} SquareIsMonotone(x: nat, y: nat)
    requires x <= y
    ensures x * x <= y * y
  {
    assert x * x <= x * y <= y * y;
  }

  // ----- how long a flow keeps its gap squares exact

  ghost predicate GapSized(xs: Run<nat>) {
    match xs case Nil => true case Snoc(init, x) => x < U32 && GapSized(init)
  }

  lemma {:induction false} GapsAreGapSized(h: Run<Packet>)
    ensures GapSized(Gaps(h))
  {
    if h.Snoc? && h.init.Snoc? { GapsAreGapSized(h.init); }
  }

  /** The most that samples below 2^32 with sum `s` can have as square sum, for `s` up to twice that:
      one sample as large as can be, the other the rest. */
  ghost function MostSquares(s: nat): nat {
    if s < U32 then s * s else (U32 - 1) * (U32 - 1) + (s - (U32 - 1)) * (s - (U32 - 1))
  }

  lemma {:induction false} SquaresAdd(a: nat, b: nat)
    ensures a * a + b * b <= (a + b) * (a + b)
  {
    assert (a + b) * (a + b) == a * a + 2 * (a * b) + b * b;
    assert a * b >= 0;
  }

  /** Moving weight from the smaller to the larger of two numbers adds to their squares. */
  lemma {:induction false} SquaresSpread(a: nat, b: nat, top: nat, rest: nat)
    requires a <= top && b <= top && a + b == top + rest
    ensures a * a + b * b <= top * top + rest * rest
  {
    var x, y := top - a, top - b;
    assert rest == top - x - y;
    SpreadGain(top, x, y);
  }

  lemma {:induction false} SpreadGain(t: int, x: nat, y: nat)
    ensures (t - x) * (t - x) + (t - y) * (t - y) <= t * t + (t - x - y) * (t - x - y)
  {
    assert (t - x) * (t - x) == t * t - 2 * (t * x) + x * x;
    assert (t - y) * (t - y) == t * t - 2 * (t * y) + y * y;
    assert (t - x - y) * (t - x - y) == t * t + x * x + y * y - 2 * (t * x) - 2 * (t * y) + 2 * (x * y);
    assert x * y >= 0;
  }

  lemma {:induction false} SquaresAreAtMost(xs: Run<nat>)
    requires GapSized(xs)
    ensures SumSq(xs) <= MostSquares(Sum(xs))
  {
    if xs.Snoc? {
      SquaresAreAtMost(xs.init);
      OneMoreSquare(Sum(xs.init), xs.last);
    }
  }

  lemma {:induction false} OneMoreSquare(s: nat, x: nat)
    requires x < U32
    ensures MostSquares(s) + x * x <= MostSquares(s + x)
  {
    if s + x < U32 {
      SquaresAdd(s, x);
    } else if s < U32 {
      SquaresSpread(s, x, U32 - 1, s + x - (U32 - 1));
    } else {
      SquaresAdd(s - (U32 - 1), x);
    }
  }

  /** In microseconds, one gap as long as can be and 92682: the square of 92682 is the first that
      does not fit beside the square of 2^32 - 1. */
  const LONGEST: int := U32 - 1 + 92682

  lemma {:induction false} BelowTheLongest(s: nat)
    requires s < LONGEST
    ensures MostSquares(s) < U64
  {
    if s < U32 {
      SquareIsMonotone(s, U32 - 1);
    } else {
      SquareIsMonotone(s - (U32 - 1), 92681);
    }
  }

  /** Samples whose sums have not wrapped. */
  ghost predicate Exact(xs: Run<nat>) {
    SumSq(xs) < U64 && Len(xs) < U32
  }

  lemma {:induction false} SumWithinSquares(xs: Run<nat>)
    ensures Sum(xs) <= SumSq(xs)
  {
    if xs.Snoc? {
      SumWithinSquares(xs.init);
      assert xs.last <= xs.last * xs.last;
    }
  }

  /** Exact samples are those whose tallies are their sums. */
  lemma {:induction false} ExactTallies(xs: Run<nat>, sum: nat, sq: nat, count: nat)
    requires Tallies(xs, sum, sq, count)
    ensures Exact(xs) <==> sq == SumSq(xs) && count == Len(xs)
    ensures Exact(xs) ==> sum == Sum(xs)
  {
    SumWithinSquares(xs);
  }

  /** On an ordered flow of fewer than 2^32 packets within 2^32 - 1 + 92682 microseconds nothing
      wraps: every accumulator is exact. */
  lemma {:induction false} ShortFlowsAreExact(h: Run<Packet>)
    requires AllWellFormed(h) && Ordered(h) && Len(h) < 0x1_0000_0000 && LastNs(h) - FirstNs(h) < 1000 * (0xFFFF_FFFF + 92682)
    ensures Exact(Lens(h)) && (forall o :: Exact(Lens(Dir(h, o))))
    ensures Exact(Gaps(h)) && Exact(Gaps(Dir(h, true)))
  {
    ManyPacketsAreExact(h);
    ShortGaps(h, LastNs(h) - FirstNs(h));
    DirectionLiesWithin(h, true);
    GapsFillTheDuration(h);
    GapsFillTheDuration(Dir(h, true));
    ShortGaps(Dir(h, true), LastNs(h) - FirstNs(h));
    LengthsAreConserved(h);
    LengthsAreConserved(Dir(h, true));
  }

  /** Length sums need no bound on time. */
  lemma {:induction false} ManyPacketsAreExact(h: Run<Packet>)
    requires AllWellFormed(h) && Len(h) < U32
    ensures Exact(Lens(h)) && forall o :: Exact(Lens(Dir(h, o)))
  {
    LengthSumsAreBounded(h);
    LengthsAreConserved(h);
    forall o
      ensures Exact(Lens(Dir(h, o)))
    {
      DirKeepsWellFormed(h, o);
      LengthsAreConserved(Dir(h, o));
      LengthSumsAreBounded(Dir(h, o));
    }
  }

  lemma {:induction false} ShortGaps(h: Run<Packet>, d: int)
    requires Ordered(h) && d < 1000 * LONGEST && (h == Nil || LastNs(h) - FirstNs(h) <= d)
    ensures Sum(Gaps(h)) < LONGEST && SumSq(Gaps(h)) < U64
  {
    GapsFillTheDuration(h);
    GapsAreGapSized(h);
    SquaresAreAtMost(Gaps(h));
    BelowTheLongest(Sum(Gaps(h)));
  }

  ghost function At(p: Packet, now: u64): Packet {
    p.(now := now)
  }

  /** Three packets: a gap of 2^32 - 1 microseconds, then one of 92682. */
  ghost function LongFlow(p: Packet, t: nat): Run<Packet>
    requires t + 1000 * LONGEST < U64
  {
    Snoc(Snoc(Snoc(Nil, At(p, t)), At(p, t + 1000 * (U32 - 1))), At(p, t + 1000 * LONGEST))
  }

  /** The bound is sharp: a flow of exactly that length, whatever its packets are, wraps the square
      sum, and so the deviation made from it is not that of its gaps. */
  lemma {:induction false} LongestIsSharp(p: Packet, t: nat)
    requires 0 < t && t + 1000 * LONGEST < U64
    ensures var h := LongFlow(p, t);
            && Ordered(h) && LastNs(h) - FirstNs(h) == 1000 * (0xFFFF_FFFF + 92682)
            && SumSq(Gaps(h)) >= U64 && Wrap(SumSq(Gaps(h)), U64) != SumSq(Gaps(h))
  {
    var h := LongFlow(p, t);
    assert h.last.now == t + 1000 * LONGEST && FirstNs(h.init) == FirstNs(h.init.init) == t;
    GapOf(t, U32 - 1);
    GapOf(t + 1000 * (U32 - 1), 92682);
    assert Gaps(h.init) == Snoc(Nil, U32 - 1);
    assert Gaps(h) == Snoc(Snoc(Nil, U32 - 1), 92682);
    assert SumSq(Gaps(h.init)) == (U32 - 1) * (U32 - 1);
  }

  lemma {:induction false} GapOf(before: nat, us: nat)
    requires us < U32
    ensures GapUs(before, before + 1000 * us) == us
  {
    assert (1000 * us) % U64 == 1000 * us;
  }

  // ----- sample statistics

  ghost function Mean(xs: Run<nat>): real {
    if xs == Nil then 0.0 else Sum(xs) as real / Len(xs) as real
  }

  /** Sum of squared distances from `m`. */
  ghost function SqDist(xs: Run<nat>, m: real): real {
    match xs case Nil => 0.0 case Snoc(init, x) => SqDist(init, m) + (x as real - m) * (x as real - m)
  }

  /** The textbook sample variance. */
  ghost function Variance(xs: Run<nat>): real {
    if Len(xs) < 2 then 0.0 else SqDist(xs, Mean(xs)) / (Len(xs) - 1) as real
  }

  /** The one-pass formula, clamped at 0. */
  function SampleVar(sum: real, sqSum: real, n: nat): real {
    if n < 2 then 0.0
    else
      var v := (sqSum - sum * sum / n as real) / (n - 1) as real;
      if v > 0.0 then v else 0.0
  }

  lemma {:induction false} ExpandStep(q: real, s: real, n: real, x: real, m: real)
    ensures (q - 2.0 * m * s + n * m * m) + (x - m) * (x - m)
            == (q + x * x) - 2.0 * m * (s + x) + (n + 1.0) * m * m
  {
    assert (x - m) * (x - m) == x * x - 2.0 * m * x + m * m;
  }

  lemma {:induction false} SquareIsNonNegative(a: real)
    ensures a * a >= 0.0
  {
  }

  lemma {:induction false} SqDistExpands(xs: Run<nat>, m: real)
    ensures SqDist(xs, m) == SumSq(xs) as real - 2.0 * m * Sum(xs) as real + Len(xs) as real * m * m
  {
    if xs.Snoc? {
      SqDistExpands(xs.init, m);
      ExpandStep(SumSq(xs.init) as real, Sum(xs.init) as real, Len(xs.init) as real, xs.last as real, m);
    }
  }

  lemma {:induction false} SqDistIsNonNegative(xs: Run<nat>, m: real)
    ensures SqDist(xs, m) >= 0.0
  {
    if xs.Snoc? {
      SqDistIsNonNegative(xs.init, m);
      SquareIsNonNegative(xs.last as real - m);
    }
  }

  lemma {:induction false} MeanCancels(d: real, q: real, s: real, n: real, m: real)
    requires n > 0.0 && m == s / n && d == q - 2.0 * m * s + n * m * m
    ensures d == q - s * s / n
  {
    assert n * m == s;
    assert n * m * m == s * m;
    assert m * s == s * s / n;
  }

  /** The clamp at 0 has nothing to do. */
  ghost predicate ClampIdle(s: real, q: real, n: nat) {
    n >= 2 ==> q - s * s / n as real >= 0.0
  }

  /** The one-pass formula computes the sample variance ... */
  lemma {:induction false} SampleVarIsVariance(xs: Run<nat>)
    ensures SampleVar(Sum(xs) as real, SumSq(xs) as real, Len(xs)) == Variance(xs) >= 0.0
  {
    if Len(xs) >= 2 {
      OnePassOver(xs, SqDist(xs, Mean(xs)), SumSq(xs) as real, Sum(xs) as real, Len(xs), Mean(xs));
    }
  }

  /** ... and over exact reals the clamp never acts. */
  lemma {:induction false} ClampNeverActs(xs: Run<nat>)
    ensures Len(xs) >= 2 ==> SumSq(xs) as real - Sum(xs) as real * Sum(xs) as real / Len(xs) as real >= 0.0
  {
    if Len(xs) >= 2 {
      OnePassOver(xs, SqDist(xs, Mean(xs)), SumSq(xs) as real, Sum(xs) as real, Len(xs), Mean(xs));
    }
  }

  lemma {:induction false} OnePassOver(xs: Run<nat>, d: real, q: real, s: real, n: nat, m: real)
    requires q == SumSq(xs) as real && s == Sum(xs) as real && n == Len(xs) >= 2 && m == Mean(xs) && d == SqDist(xs, m)
    ensures SampleVar(s, q, n) == d / (n - 1) as real >= 0.0 && ClampIdle(s, q, n)
  {
    SqDistExpands(xs, m);
    SqDistIsNonNegative(xs, m);
    OnePass(d, q, s, n, m);
  }

  lemma {:induction false} OnePass(d: real, q: real, s: real, n: nat, m: real)
    requires n >= 2 && m == s / n as real && d == q - 2.0 * m * s + n as real * m * m && d >= 0.0
    ensures SampleVar(s, q, n) == d / (n - 1) as real >= 0.0 && ClampIdle(s, q, n)
  {
    MeanCancels(d, q, s, n as real, m);
    ClampIsIdle(s, q, n, d);
  }

  lemma {:induction false} ClampIsIdle(s: real, q: real, n: nat, d: real)
    requires n >= 2 && d == q - s * s / n as real && d >= 0.0
    ensures SampleVar(s, q, n) == d / (n - 1) as real >= 0.0
  {
    DivisionKeepsSign(d, (n - 1) as real);
  }

  lemma {:induction false} DivisionKeepsSign(a: real, b: real)
    requires a >= 0.0 && b > 0.0
    ensures a / b >= 0.0
  {
  }

  // ----- the feature vector

  const FLOW_IAT_STD := 0
  const FLOW_IAT_MIN := 1
  const FLOW_IAT_MEAN := 2
  const FWD_IAT_STD := 3
  const PKTLEN_VAR := 4
  const PKTLEN_STD := 5
  const FWD_PKTLEN_MEAN := 6
  const BWD_PKTLEN_MEAN := 7
  const SYN_CNT := 8
  const ACK_CNT := 9
  const PSH_CNT := 10
  const URG_CNT := 11
  const DOWNUP_RATIO := 12
  const INIT_WIN_FWD := 13
  const TOTLEN_FWD := 14
  const FLOW_DUR := 15
  const BWD_PKTLEN_STD := 16
  const FEAT_COUNT := 17

  /** A square root; how it rounds is not modelled. */
  ghost predicate IsRoot(root: real -> real) {
    forall x: real :: x >= 0.0 ==> root(x) >= 0.0 && root(x) * root(x) == x
  }

  ghost predicate IsStdOf(f: real, xs: Run<nat>) {
    f >= 0.0 && f * f == Variance(xs)
  }

  datatype Timing = Timing(iatStd: real, iatMin: real, iatMean: real, fwdIatStd: real, duration: real)
  datatype Sizes = Sizes(variance: real, std: real, fwdMean: real, bwdMean: real, fwdTotal: real, bwdStd: real)

  /** Timing features in terms of the packets themselves, on any flow: statistics where the sums
      have not wrapped, minimum and duration always. */
  ghost predicate TimingDescribes(v: Timing, h: Run<Packet>) {
    var gaps, fwd := Gaps(h), Gaps(Dir(h, true));
    && (Exact(gaps) ==> IsStdOf(v.iatStd, gaps) && v.iatMean == Mean(gaps))
    && (Exact(fwd) ==> IsStdOf(v.fwdIatStd, fwd))
    && v.iatMin == (if Least(gaps, U32 - 1) == U32 - 1 then 0.0 else Least(gaps, U32 - 1) as real)
    && v.duration == Micros(LastNs(h) - FirstNs(h))
  }

  /** Length features, on any flow of fewer than 2^32 packets. The per-direction packet counts come
      from elsewhere: the means are over those counts. */
  ghost predicate SizesDescribe(v: Sizes, h: Run<Packet>, pktsFwd: nat, pktsBwd: nat) {
    var fwd, bwd := Lens(Dir(h, true)), Lens(Dir(h, false));
    Len(h) < U32 ==>
      && v.variance == Variance(Lens(h)) && IsStdOf(v.std, Lens(h))
      && v.fwdTotal == Sum(fwd) as real
      && v.fwdMean == MeanOf(Sum(fwd), pktsFwd) && v.bwdMean == MeanOf(Sum(bwd), pktsBwd)
      && (pktsBwd == Len(bwd) ==> v.bwdMean == Mean(bwd) && IsStdOf(v.bwdStd, bwd))
  }

  /** The one-pass variance of the sums as the record holds them. */
  ghost function ReducedVar(xs: Run<nat>): real {
    SampleVar(Wrap(Sum(xs), U64) as real, Wrap(SumSq(xs), U64) as real, Wrap(Len(xs), U32))
  }

  /** On every flow, wrapped or not: the formulas on the reduced sums. */
  ghost predicate TimingFormulas(v: Timing, h: Run<Packet>, root: real -> real) {
    var gaps, fwd := Gaps(h), Gaps(Dir(h, true));
    && v.iatStd == root(ReducedVar(gaps)) && v.fwdIatStd == root(ReducedVar(fwd))
    && v.iatMean == MeanOf(Wrap(Sum(gaps), U64), Wrap(Len(gaps), U32))
  }

  ghost predicate SizeFormulas(v: Sizes, h: Run<Packet>, pktsFwd: nat, pktsBwd: nat, root: real -> real) {
    var fwd, bwd := Lens(Dir(h, true)), Lens(Dir(h, false));
    && v.variance == ReducedVar(Lens(h)) && v.std == root(v.variance)
    && v.fwdTotal == Wrap(Sum(fwd), U64) as real
    && v.fwdMean == MeanOf(Wrap(Sum(fwd), U64), pktsFwd) && v.bwdMean == MeanOf(Wrap(Sum(bwd), U64), pktsBwd)
    && v.bwdStd == root(SampleVar(Wrap(Sum(bwd), U64) as real, Wrap(SumSq(bwd), U64) as real, pktsBwd))
  }

  lemma {:induction false} StdOf(root: real -> real, xs: Run<nat>)
    requires IsRoot(root)
    ensures IsStdOf(root(SampleVar(Sum(xs) as real, SumSq(xs) as real, Len(xs))), xs)
  {
    SampleVarIsVariance(xs);
  }

  lemma {:induction false} QuotientTimes(s: real, n: real)
    requires n > 0.0
    ensures s / n * n == s
  {
  }

  lemma {:induction false} InMicroseconds(s: nat, d: int)
    requires 1000 * s <= d
    ensures s as real <= d as real / 1000.0
  {
    assert 1000.0 * s as real <= d as real;
  }

  /** Flow IAT Mean times the number of gaps stays within Flow Duration. */
  ghost predicate MeanFits(mean: real, count: nat, dur: real) {
    mean * count as real <= dur
  }

  /** A mean over `n` of a sum of microseconds that lies within `ns` nanoseconds. */
  lemma {:induction false} MeanWithin(sum: nat, n: nat, ns: int, mean: real, dur: real)
    requires 1000 * sum <= ns && mean == MeanOf(sum, n) && dur == Micros(ns)
    ensures MeanFits(mean, n, dur)
  {
    InMicroseconds(sum, ns);
    if n != 0 {
      QuotientTimes(sum as real, n as real);
    } else {
      assert mean * n as real == 0.0;
    }
  }

  /** The same on the record, whose sum may even have wrapped. */
  lemma {:induction false} RecordMeanWithinDuration(t: Times, h: Run<Packet>)
    requires TimesOk(t, h) && Ordered(h)
    ensures 1000 * t.iatSumUs <= t.lastNs - t.firstNs
  {
    GapsFillTheDuration(h);
    WrapIsLess(Sum(Gaps(h)), U64);
  }

  lemma {:induction false} WrapIsLess(x: nat, m: nat)
    requires m > 0
    ensures Wrap(x, m) <= x
  {
    if x >= m { WrapIsLess(x - m, m); }
  }

  function MeanOf(sum: nat, n: nat): real {
    if n != 0 then sum as real / n as real else 0.0
  }

  function Micros(ns: int): real {
    if ns > 0 then ns as real / 1000.0 else 0.0
  }

  // ----- the features on the record's own fields

  /** `v` is the sample variance of `n` numbers with this sum and square sum, 0 where that is negative. */
  ghost predicate VarianceIs(v: real, sum: nat, sq: nat, n: nat) {
    if n < 2 || n * sq <= sum * sum then v == 0.0
    else v * (n * (n - 1)) as real == (n * sq - sum * sum) as real
  }

  ghost predicate DeviationIs(f: real, sum: nat, sq: nat, n: nat) {
    f >= 0.0 && VarianceIs(f * f, sum, sq, n)
  }

  ghost predicate MeanIs(m: real, sum: nat, n: nat) {
    m * n as real == sum as real || (n == 0 && m == 0.0)
  }

  /** A duration of so many nanoseconds, in microseconds; a negative one counts as 0. */
  ghost predicate DurationIs(d: real, ns: int) {
    d * 1000.0 == (if ns > 0 then ns else 0) as real
  }

  ghost predicate TimingReads(v: Timing, t: Times, f: FwdTimes) {
    && DeviationIs(v.iatStd, t.iatSumUs, t.iatSqSum, t.iatCount)
    && v.iatMin == (if t.iatMin == 0xFFFF_FFFF then 0 else t.iatMin) as real
    && MeanIs(v.iatMean, t.iatSumUs, t.iatCount)
    && DeviationIs(v.fwdIatStd, f.iatSum, f.iatSqSum, f.iatCount)
    && DurationIs(v.duration, t.lastNs - t.firstNs)
  }

  ghost predicate SizesRead(v: Sizes, l: Lengths, pktsFwd: nat, pktsBwd: nat) {
    && VarianceIs(v.variance, l.sum, l.sqSum, l.count) && DeviationIs(v.std, l.sum, l.sqSum, l.count)
    && MeanIs(v.fwdMean, l.bytesFwd, pktsFwd) && MeanIs(v.bwdMean, l.bytesBwd, pktsBwd)
    && v.fwdTotal == l.bytesFwd as real
    && DeviationIs(v.bwdStd, l.bytesBwd, l.bwdSqSum, pktsBwd)
  }

  /** Down/Up Ratio: how many whole times the packets of one direction go into the other's. */
  ghost predicate RatioIs(k: real, fwd: nat, bwd: nat) {
    if fwd == 0 then k == 0.0 else exists q: nat :: k == q as real && IsQuotient(q, bwd, fwd)
  }

  ghost predicate IsQuotient(q: nat, a: nat, b: nat) {
    q * b <= a < q * b + b
  }

  lemma {:induction false} QuotientIs(a: nat, b: nat)
    requires b > 0
    ensures IsQuotient(a / b, a, b)
  {
    assert a == a / b * b + a % b;
  }

  lemma {:induction false} OnePassOnFields(sum: nat, sq: nat, n: nat)
    ensures VarianceIs(SampleVar(sum as real, sq as real, n), sum, sq, n)
  {
    if n >= 2 {
      var s, q, m := sum as real, sq as real, n as real;
      assert (n * sq - sum * sum) as real == m * q - s * s;
      Fraction(q, s, m, q - s * s / m);
      assert (n * (n - 1)) as real == m * (m - 1.0);
      ClearDenominators(q - s * s / m, m, (q - s * s / m) / (m - 1.0));
    }
  }

  lemma {:induction false} Fraction(q: real, s: real, m: real, d: real)
    requires m >= 2.0 && d == q - s * s / m
    ensures d * m == m * q - s * s && (d > 0.0 <==> m * q - s * s > 0.0)
  {
    var e := s * s / m;
    QuotientTimes(s * s, m);
    assert d * m == q * m - e * m;
    SignOfProduct(d, m);
  }

  lemma {:induction false} SignOfProduct(d: real, m: real)
    requires m > 0.0
    ensures d * m > 0.0 <==> d > 0.0
  {
  }

  lemma {:induction false} ClearDenominators(d: real, m: real, v: real)
    requires m >= 2.0 && v == d / (m - 1.0)
    ensures v * (m * (m - 1.0)) == d * m && (v > 0.0 <==> d > 0.0)
  {
    QuotientTimes(d, m - 1.0);
    SignOfProduct(v, m - 1.0);
    assert v * (m * (m - 1.0)) == v * (m - 1.0) * m;
  }

  lemma {:induction false} DeviationOnFields(root: real -> real, sum: nat, sq: nat, n: nat)
    requires IsRoot(root)
    ensures DeviationIs(root(SampleVar(sum as real, sq as real, n)), sum, sq, n)
  {
    OnePassOnFields(sum, sq, n);
  }

  lemma {:induction false} MeanOnFields(sum: nat, n: nat)
    ensures MeanIs(MeanOf(sum, n), sum, n)
  {
    if n != 0 { QuotientTimes(sum as real, n as real); }
  }

  lemma {:induction false} DurationOnFields(ns: int)
    ensures DurationIs(Micros(ns), ns)
  {
  }

  /** The root of the one-pass variance: the standard deviation of samples that have not wrapped. */
  method Deviation(sum: nat, sq: nat, count: nat, root: real -> real, ghost xs: Run<nat>) returns (f: real)
    requires IsRoot(root) && Tallies(xs, sum, sq, count)
    ensures f == root(ReducedVar(xs)) && DeviationIs(f, sum, sq, count)
    ensures Exact(xs) ==> IsStdOf(f, xs)
  {
    f := root(SampleVar(sum as real, sq as real, count));
    DeviationOnFields(root, sum, sq, count);
    ExactTallies(xs, sum, sq, count);
    StdOf(root, xs);
  }

  lemma {:induction false} ExactMean(xs: Run<nat>, sum: nat, sq: nat, count: nat)
    requires Tallies(xs, sum, sq, count) && Exact(xs)
    ensures MeanOf(sum, count) == Mean(xs)
  {
    ExactTallies(xs, sum, sq, count);
  }

  method TimingFeatures(t: Times, f: FwdTimes, root: real -> real, ghost h: Run<Packet>) returns (v: Timing)
    requires TimesOk(t, h) && FwdTimesOk(f, h) && IsRoot(root)
    ensures TimingFormulas(v, h, root) && TimingDescribes(v, h) && TimingReads(v, t, f)
    ensures Ordered(h) ==> MeanFits(v.iatMean, t.iatCount, v.duration)
  {
    var std := Deviation(t.iatSumUs, t.iatSqSum, t.iatCount, root, Gaps(h));
    var fwdStd := Deviation(f.iatSum, f.iatSqSum, f.iatCount, root, Gaps(Dir(h, true)));
    var mean, dur := MeanOf(t.iatSumUs, t.iatCount), Micros(t.lastNs - t.firstNs);
    v := Timing(std, if t.iatMin == U32 - 1 then 0.0 else t.iatMin as real, mean, fwdStd, dur);
    MeanOnFields(t.iatSumUs, t.iatCount);
    DurationOnFields(t.lastNs - t.firstNs);
    if Exact(Gaps(h)) { ExactMean(Gaps(h), t.iatSumUs, t.iatSqSum, t.iatCount); }
    if Ordered(h) {
      RecordMeanWithinDuration(t, h);
      MeanWithin(t.iatSumUs, t.iatCount, t.lastNs - t.firstNs, mean, dur);
    }
  }

  method SizeFeatures(l: Lengths, pktsFwd: nat, pktsBwd: nat, root: real -> real, ghost h: Run<Packet>) returns (v: Sizes)
    requires AllWellFormed(h) && LengthsOk(l, h) && IsRoot(root)
    ensures SizeFormulas(v, h, pktsFwd, pktsBwd, root) && SizesDescribe(v, h, pktsFwd, pktsBwd)
    ensures SizesRead(v, l, pktsFwd, pktsBwd)
  {
    OnePassOnFields(l.sum, l.sqSum, l.count);
    DeviationOnFields(root, l.sum, l.sqSum, l.count);
    DeviationOnFields(root, l.bytesBwd, l.bwdSqSum, pktsBwd);
    MeanOnFields(l.bytesFwd, pktsFwd);
    MeanOnFields(l.bytesBwd, pktsBwd);
    var pvar := SampleVar(l.sum as real, l.sqSum as real, l.count);
    v := Sizes(pvar, root(pvar),
               MeanOf(l.bytesFwd, pktsFwd), MeanOf(l.bytesBwd, pktsBwd), l.bytesFwd as real,
               root(SampleVar(l.bytesBwd as real, l.bwdSqSum as real, pktsBwd)));
    if Len(h) < U32 {
      LengthsAreExact(l, h);
      StdOf(root, Lens(h));
      SampleVarIsVariance(Lens(h));
      StdOf(root, Lens(Dir(h, false)));
    }
  }

  lemma {:induction false} LengthsAreExact(l: Lengths, h: Run<Packet>)
    requires AllWellFormed(h) && LengthsOk(l, h) && Len(h) < U32
    ensures l.sum == Sum(Lens(h)) && l.sqSum == SumSq(Lens(h)) && l.count == Len(Lens(h))
    ensures l.bytesFwd == Sum(Lens(Dir(h, true))) && l.bytesBwd == Sum(Lens(Dir(h, false)))
    ensures l.bwdSqSum == SumSq(Lens(Dir(h, false)))
  {
    ManyPacketsAreExact(h);
    SumWithinSquares(Lens(h));
    SumWithinSquares(Lens(Dir(h, true)));
    SumWithinSquares(Lens(Dir(h, false)));
  }

  /** The counts in the middle of the vector: flags, down/up ratio, initial window. */
  ghost function Counts(h: Run<Packet>, pktsFwd: nat, pktsBwd: nat, initWin: int): seq<real> {
    [Wrap(Carrying(h, Syn), U32) as real, Wrap(Carrying(h, Ack), U32) as real,
     Wrap(Carrying(h, Psh), U32) as real, Wrap(Carrying(h, Urg), U32) as real,
     if pktsFwd == 0 then 0.0 else (pktsBwd / pktsFwd) as real,
     if initWin < 0 then -1.0 else initWin as real]
  }

  function TimingOf(out: seq<real>): Timing
    requires |out| == FEAT_COUNT
  {
    Timing(out[FLOW_IAT_STD], out[FLOW_IAT_MIN], out[FLOW_IAT_MEAN], out[FWD_IAT_STD], out[FLOW_DUR])
  }

  function SizesOf(out: seq<real>): Sizes
    requires |out| == FEAT_COUNT
  {
    Sizes(out[PKTLEN_VAR], out[PKTLEN_STD], out[FWD_PKTLEN_MEAN], out[BWD_PKTLEN_MEAN], out[TOTLEN_FWD], out[BWD_PKTLEN_STD])
  }

  /** Build the feature vector: its entries are the statistics of the flow's own packets. */
  method FeatureExtract(r: FlowRecord, pktsFwd: nat, pktsBwd: nat, initWin: int, root: real -> real, out: array<real>)
    requires r.Valid() && IsRoot(root) && out.Length == 17
    modifies out
    ensures TimingFormulas(TimingOf(out[..]), r.history, root) && TimingDescribes(TimingOf(out[..]), r.history)
    ensures SizeFormulas(SizesOf(out[..]), r.history, pktsFwd, pktsBwd, root)
    ensures SizesDescribe(SizesOf(out[..]), r.history, pktsFwd, pktsBwd)
    ensures Ordered(r.history) ==> MeanFits(out[FLOW_IAT_MEAN], r.times.iatCount, out[FLOW_DUR])
    ensures out[SYN_CNT..TOTLEN_FWD] == Counts(r.history, pktsFwd, pktsBwd, initWin)
    ensures TimingReads(Timing(out[0], out[1], out[2], out[3], out[15]), r.times, r.fwdTimes)
    ensures SizesRead(Sizes(out[4], out[5], out[6], out[7], out[14], out[16]), r.lengths, pktsFwd, pktsBwd)
    ensures out[8] == r.flags.syn as real && out[9] == r.flags.ack as real
    ensures out[10] == r.flags.psh as real && out[11] == r.flags.urg as real
    ensures RatioIs(out[12], pktsFwd, pktsBwd) && out[13] == (if initWin < 0 then -1 else initWin) as real
  {
    var t := TimingFeatures(r.times, r.fwdTimes, root, r.history);
    var s := SizeFeatures(r.lengths, pktsFwd, pktsBwd, root, r.history);
    FillCounts(out, r.flags, pktsFwd, pktsBwd, initWin, r.history);
    FillDoubles(out, t, s);
  }

  method FillCounts(out: array<real>, c: FlagCounts, pktsFwd: nat, pktsBwd: nat, initWin: int, ghost h: Run<Packet>)
    requires out.Length == FEAT_COUNT && FlagsOk(c, h)
    modifies out
    ensures out[SYN_CNT..TOTLEN_FWD] == Counts(h, pktsFwd, pktsBwd, initWin)
    ensures out[8] == c.syn as real && out[9] == c.ack as real && out[10] == c.psh as real && out[11] == c.urg as real
    ensures RatioIs(out[12], pktsFwd, pktsBwd) && out[13] == (if initWin < 0 then -1 else initWin) as real
  {
    if pktsFwd != 0 { QuotientIs(pktsBwd, pktsFwd); }
    out[SYN_CNT] := c.syn as real;
    out[ACK_CNT] := c.ack as real;
    out[PSH_CNT] := c.psh as real;
    out[URG_CNT] := c.urg as real;
    out[DOWNUP_RATIO] := if pktsFwd != 0 then (pktsBwd / pktsFwd) as real else 0.0;
    out[INIT_WIN_FWD] := if initWin < 0 then -1.0 else initWin as real;
  }

  method FillDoubles(out: array<real>, t: Timing, s: Sizes)
    requires out.Length == FEAT_COUNT
    modifies out
    ensures TimingOf(out[..]) == t && SizesOf(out[..]) == s
    ensures out[SYN_CNT..TOTLEN_FWD] == old(out[SYN_CNT..TOTLEN_FWD])
    ensures t == Timing(out[0], out[1], out[2], out[3], out[15]) && s == Sizes(out[4], out[5], out[6], out[7], out[14], out[16])
    ensures forall i :: 8 <= i < 14 ==> out[i] == old(out[i])
  {
    out[FLOW_IAT_STD] := t.iatStd;
    out[FLOW_IAT_MIN] := t.iatMin;
    out[FLOW_IAT_MEAN] := t.iatMean;
    out[FWD_IAT_STD] := t.fwdIatStd;
    out[PKTLEN_VAR] := s.variance;
    out[PKTLEN_STD] := s.std;
    out[FWD_PKTLEN_MEAN] := s.fwdMean;
    out[BWD_PKTLEN_MEAN] := s.bwdMean;
    out[TOTLEN_FWD] := s.fwdTotal;
    out[FLOW_DUR] := t.duration;
    out[BWD_PKTLEN_STD] := s.bwdStd;
  }
}
